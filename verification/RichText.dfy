/**
 Rich text, read two ways: as typed segments (loro_text_for_each_delta and its visitor) and as JSON
 (loro_text_get_richtext_value). The value both start from is the library's.
 */
module RichText {
  import opened Bytes
  import opened Outcome
  import opened Json
  import opened Reader
  import opened LoroValues
  import opened Documents
  import opened Printer
  import opened RoundTrip
  import opened Surrogates
  import opened ValueHeap
  import opened ValueAbi
  import opened ValueBridge
  import JsonParser

  const INSERT: bytes := [0x69, 0x6E, 0x73, 0x65, 0x72, 0x74]
  const ATTRIBUTES: bytes := [0x61, 0x74, 0x74, 0x72, 0x69, 0x62, 0x75, 0x74, 0x65, 0x73]

  datatype Segment = Segment(insert: bytes, attributes: Option<map<bytes, LoroValue>>)

  /** A map with a string to insert; every other element is passed over. */
  predicate IsSegment(v: LoroValue) {
    v.KMap? && INSERT in v.entries && v.entries[INSERT].KString?
  }

  /** What loro_conf_text_delta_visit makes of a segment: attributes that are no map are refused. */
  function SegmentFrom(insert: bytes, attributes: Option<LoroValue>): Result<Segment> {
    if attributes.None? then Success(Segment(insert, None))
    else if !attributes.value.KMap? then Failure(BadStatus)
    else
      var read :- ReadBack(attributes.value);
      Success(Segment(insert, Some(read.entries)))
  }

  function VisitSegment(v: LoroValue): Result<Segment>
    requires IsSegment(v)
  {
    SegmentFrom(v.entries[INSERT].s, if ATTRIBUTES in v.entries then Some(v.entries[ATTRIBUTES]) else None)
  }

  function Delta(items: seq<LoroValue>): Result<seq<Segment>> {
    if items == [] then Success([])
    else
      var front :- Delta(items[..|items| - 1]);
      var v := items[|items| - 1];
      if !IsSegment(v) then Success(front)
      else
        var last :- VisitSegment(v);
        Success(front + [last])
  }

  /** loro_conf_text_delta_visit: the attributes' box is the caller's. */
  method VisitDelta(abi: ValueAbi, insert: bytes, attributes: Option<nat>) returns (r: Result<Segment>)
    requires abi.Ok() && (attributes.Some? ==> attributes.value in abi.cells)
    modifies abi
    ensures abi.H() == old(abi.H())
    ensures r == SegmentFrom(insert, if attributes.None? then None else Some(old(abi.Shown())[attributes.value]))
  {
    if attributes.None? {
      return Success(Segment(insert, None));
    }
    var read := MapFromC(abi, attributes.value);
    if read.Failure? {
      return Failure(read.error);
    }
    return Success(Segment(insert, Some(read.value.entries)));
  }

  /** One element of the rich-text value: passed over, or shown to the visitor in a box for its attributes. */
  method VisitElement(abi: ValueAbi, item: Inner) returns (r: Option<Result<Segment>>)
    requires abi.Ok() && Within(item, abi.nodes, |abi.nodes|)
    modifies abi
    ensures abi.H() == old(abi.H())
    ensures var v := Den(old(abi.nodes), item); r == if IsSegment(v) then Some(VisitSegment(v)) else None
  {
    hide Valid, View, Den, ReadBack, SegmentFrom;
    ghost var h := abi.H();
    ElementShown(h, item);
    if !item.IMap? {
      return None;
    }
    var entries := abi.nodes[item.arc].entries;
    if INSERT !in entries || !entries[INSERT].IString? {
      return None;
    }
    var attributes: Option<nat> := None;
    if ATTRIBUTES in entries {
      AttributesBox(h, entries[ATTRIBUTES]);
      var p := abi.IntoRaw(entries[ATTRIBUTES]);
      attributes := Some(p);
    }
    var visit := VisitDelta(abi, entries[INSERT].s, attributes);
    if attributes.Some? {
      abi.Release(attributes.value);
    }
    return Some(visit);
  }

  /** An element's map node and the value it stands for. */
  lemma {:induction false} ElementShown(h: Heap, item: Inner)
    requires Valid(h) && Within(item, h.nodes, |h.nodes|)
    ensures var v := Den(h.nodes, item);
            && (v.KMap? <==> item.IMap?)
            && (item.IMap? ==>
                  && item.arc < |h.nodes| && h.nodes[item.arc].MapNode?
                  && var entries := h.nodes[item.arc].entries;
                     v.entries.Keys == entries.Keys &&
                     forall key :: key in entries ==>
                       && Within(entries[key], h.nodes, |h.nodes|)
                       && v.entries[key] == Den(h.nodes, entries[key])
                       && (v.entries[key].KString? <==> entries[key].IString?)
                       && (entries[key].IString? ==> v.entries[key].s == entries[key].s))
  {
    if item.IMap? {
      assert NodeFounded(h.nodes, item.arc);
      assert DenEntries(h.nodes, item.arc).Keys == h.nodes[item.arc].entries.Keys;
    }
  }

  /** Any new box on an inner value shows it, and freeing the box restores the heap. */
  lemma {:induction false} AttributesBox(h: Heap, x: Inner)
    requires Valid(h) && Within(x, h.nodes, |h.nodes|)
    ensures forall p: nat :: p !in h.cells ==>
              var h' := Boxed(h, p, x);
              Valid(h') && p in View(h') && View(h')[p] == Den(h.nodes, x) && Step(h', Free(p)) == h
  {
    forall p: nat | p !in h.cells
      ensures var h' := Boxed(h, p, x);
              Valid(h') && p in View(h') && View(h')[p] == Den(h.nodes, x) && Step(h', Free(p)) == h
    {
      BoxedInner(h, p, x);
      assert Boxed(h, p, x).cells - {p} == h.cells;
    }
  }

  /**
   to_delta over the rich-text value of a text: the walk stops at the first visit that fails. Whatever
   happens, the live boxes are left as they were.
   */
  method ToDelta(abi: ValueAbi, richText: Inner) returns (r: Result<seq<Segment>>)
    requires abi.Ok() && Within(richText, abi.nodes, |abi.nodes|)
    modifies abi
    ensures abi.H() == old(abi.H())
    ensures var v := Den(old(abi.nodes), richText); r == if v.KList? then Delta(v.items) else Failure(BadStatus)
  {
    hide View, Den, IsSegment, VisitSegment, DenItems;
    ghost var h := abi.H();
    DenKinds(h.nodes, richText);
    if !richText.IList? {
      return Failure(BadStatus);
    }
    var elements := abi.nodes[richText.arc].items;
    ghost var items := Den(h.nodes, richText).items;
    ElementsShown(h, richText);
    var out: seq<Segment> := [];
    for k := 0 to |elements|
      invariant abi.H() == h && Delta(items[..k]) == Success(out)
    {
      assert items[..k + 1][..k] == items[..k];
      var visit := VisitElement(abi, elements[k]);
      if visit.None? {
        continue;
      }
      if visit.value.Failure? {
        DeltaFails(items, k + 1);
        return Failure(visit.value.error);
      }
      out := out + [visit.value.value];
    }
    assert items[..|items|] == items;
    return Success(out);
  }

  lemma {:induction false} ElementsShown(h: Heap, list: Inner)
    requires Valid(h) && Within(list, h.nodes, |h.nodes|) && list.IList?
    ensures Den(h.nodes, list).KList?
    ensures var elements, items := h.nodes[list.arc].items, Den(h.nodes, list).items;
            |elements| == |items| && forall k :: 0 <= k < |items| ==>
              Within(elements[k], h.nodes, |h.nodes|) && items[k] == Den(h.nodes, elements[k])
  {
    assert NodeFounded(h.nodes, list.arc);
  }

  lemma {:induction false} DeltaFails(items: seq<LoroValue>, k: nat)
    requires k <= |items| && Delta(items[..k]).Failure?
    ensures Delta(items) == Delta(items[..k])
    decreases |items|
  {
    if k < |items| {
      var front := items[..|items| - 1];
      assert front[..k] == items[..k];
      DeltaFails(front, k);
    } else {
      assert items[..k] == items;
    }
  }

  /** get_richtext_value: the JSON form, parsed. */
  method RichTextValue(stod: Stod, json: bytes) returns (r: Result<LoroValue>)
    ensures r == ParsedRichText(stod, json)
  {
    if json == [] {
      return Success(KList([]));
    }
    var root :- JsonParser.ParseJson(stod, json);
    return Success(JsonToValue(root));
  }

  function ParsedRichText(stod: Stod, json: bytes): Result<LoroValue> {
    if json == [] then Success(KList([]))
    else
      var root :- Parse(stod, json);
      Success(JsonToValue(root))
  }

  /** The segments a reader takes from the delta-with-attributes list. */
  function SegmentsOf(v: LoroValue): seq<Segment>
    decreases if v.KList? then |v.items| else 0
  {
    if !v.KList? || v.items == [] then []
    else
      var front, last := SegmentsOf(KList(v.items[..|v.items| - 1])), v.items[|v.items| - 1];
      if !IsSegment(last) then front
      else
        front + [Segment(last.entries[INSERT].s,
                         if ATTRIBUTES in last.entries && last.entries[ATTRIBUTES].KMap? then
                           Some(last.entries[ATTRIBUTES].entries)
                         else None)]
  }

  /** Every segment's attributes, where there are some, are a map. */
  predicate AttributesAreMaps(items: seq<LoroValue>) {
    forall k :: 0 <= k < |items| && IsSegment(items[k]) && ATTRIBUTES in items[k].entries ==>
      items[k].entries[ATTRIBUTES].KMap?
  }

  lemma {:induction false} DeltaIsSegments(items: seq<LoroValue>)
    requires ContainerFree(KList(items))
    ensures Delta(items) == Success(SegmentsOf(KList(items))) <==> AttributesAreMaps(items)
    ensures !AttributesAreMaps(items) ==> Delta(items).Failure?
    decreases |items|
  {
    if items != [] {
      var front, last := items[..|items| - 1], items[|items| - 1];
      DeltaIsSegments(front);
      assert items == front + [last];
      assert AttributesAreMaps(items) <==> AttributesAreMaps(front) && AttributesAreMaps([last]) by {
        assert forall k :: 0 <= k < |front| ==> items[k] == front[k];
        assert [last][0] == last;
      }
      if IsSegment(last) && ATTRIBUTES in last.entries {
        assert ContainerFree(last);
        RereadSame(last.entries[ATTRIBUTES]);
      }
    }
  }

  lemma {:induction false} JsonFormContainerFree(v: LoroValue)
    requires HasJsonForm(v)
    ensures ContainerFree(v)
  {
    match v
    case KList(items) =>
      forall k | 0 <= k < |items|
        ensures ContainerFree(items[k])
      {
        JsonFormContainerFree(items[k]);
      }
    case KMap(entries) =>
      forall key | key in entries
        ensures ContainerFree(entries[key])
      {
        JsonFormContainerFree(entries[key]);
      }
    case _ =>
  }

  /**
   get_richtext_value gives back a value with finite doubles, rendered in any way, exactly when its doubles
   survive and the text escapes no surrogate pair.
   */
  lemma {:induction false} RichTextComesBack(stod: Stod, fmt: Format, json: bytes, v: LoroValue)
    requires HasJsonForm(v) && Finite(fmt, v) && Renders(json, DocOf(fmt, v))
    ensures ParsedRichText(stod, json) == Success(v) <==> Survives(stod, fmt, v) && NoPairEscape(json)
  {
    hide HasJsonForm, DocOf, Parse, JsonToValue, NoPairEscape, Survives, Finite, Renders;
    RendersNonEmpty(json, DocOf(fmt, v));
    RenderedValue(stod, fmt, json, v);
  }

  /**
   The typed walk and the JSON form agree: for a rich-text value without doubles, binary and containers,
   rendered as JSON in any way that escapes no surrogate pair, to_delta gives the segments of
   get_richtext_value, in order and with the same attributes, exactly when the attributes are maps;
   otherwise it throws.
   */
  lemma {:induction false} TypedAgreesWithJson(stod: Stod, fmt: Format, items: seq<LoroValue>, json: bytes)
    requires HasJsonForm(KList(items)) && DoubleFree(KList(items))
    requires Renders(json, DocOf(fmt, KList(items)))
    ensures NoPairEscape(json) ==>
              && ParsedRichText(stod, json).Success?
              && (Delta(items) == Success(SegmentsOf(ParsedRichText(stod, json).value)) <==> AttributesAreMaps(items))
    ensures !AttributesAreMaps(items) ==> Delta(items).Failure?
  {
    hide HasJsonForm, DoubleFree, DocOf, ParsedRichText, Delta, SegmentsOf, AttributesAreMaps, NoPairEscape, Renders;
    hide Survives, Finite;
    DoubleFreeSurvives(stod, fmt, KList(items));
    RichTextComesBack(stod, fmt, json, KList(items));
    JsonFormContainerFree(KList(items));
    DeltaIsSegments(items);
  }

  // Which elements are segments, by value.

  /** A map with the segment's string under insert, and its attributes, if it has some, under attributes. */
  predicate ElementIs(v: LoroValue, segment: Segment) {
    var insert := [0x69, 0x6E, 0x73, 0x65, 0x72, 0x74];
    var attributes := [0x61, 0x74, 0x74, 0x72, 0x69, 0x62, 0x75, 0x74, 0x65, 0x73];
    && v.KMap? && insert in v.entries && v.entries[insert] == KString(segment.insert)
    && if segment.attributes.None? then attributes !in v.entries
       else attributes in v.entries && v.entries[attributes] == KMap(segment.attributes.value)
  }

  /** A list of such elements is walked, and read from JSON, as exactly these segments. */
  lemma {:induction false} SegmentsSpelled(items: seq<LoroValue>, segments: seq<Segment>)
    requires |items| == |segments| && forall k :: 0 <= k < |items| ==> ElementIs(items[k], segments[k])
    requires forall k :: 0 <= k < |items| ==> ContainerFree(items[k])
    ensures Delta(items) == Success(segments)
    ensures SegmentsOf(KList(items)) == segments
    decreases |items|
  {
    hide ElementIs, IsSegment, VisitSegment, ContainerFree, Delta, SegmentsOf;
    NoSegments();
    if items != [] {
      var n := |items| - 1;
      SegmentsSpelled(items[..n], segments[..n]);
      assert segments == segments[..n] + [segments[n]] && items == items[..n] + [items[n]];
      OneSegmentMore(items[..n], items[n], segments[n]);
    }
  }

  lemma {:induction false} NoSegments()
    ensures Delta([]) == Success([]) && SegmentsOf(KList([])) == []
  {
  }

  lemma {:induction false} OneSegmentMore(front: seq<LoroValue>, v: LoroValue, segment: Segment)
    requires ElementIs(v, segment) && ContainerFree(v)
    ensures SegmentsOf(KList(front + [v])) == SegmentsOf(KList(front)) + [segment]
    ensures Delta(front).Success? ==> Delta(front + [v]) == Success(Delta(front).value + [segment])
  {
    hide VisitSegment, ContainerFree;
    assert (front + [v])[..|front|] == front;
    SegmentSpelled(v, segment);
  }

  lemma {:induction false} SegmentSpelled(v: LoroValue, segment: Segment)
    requires ElementIs(v, segment) && ContainerFree(v)
    ensures IsSegment(v) && VisitSegment(v) == Success(segment)
  {
    if segment.attributes.Some? {
      assert v.entries[ATTRIBUTES] == KMap(segment.attributes.value);
      RereadSame(KMap(segment.attributes.value));
    }
  }

  /** Every other element, no map or without a string under insert, adds nothing. */
  lemma {:induction false} OthersPassedOver(front: seq<LoroValue>, v: LoroValue, back: seq<LoroValue>)
    requires var insert := [0x69, 0x6E, 0x73, 0x65, 0x72, 0x74];
             v.KMap? && insert in v.entries ==> !v.entries[insert].KString?
    ensures Delta(front + [v] + back) == Delta(front + back)
    ensures SegmentsOf(KList(front + [v] + back)) == SegmentsOf(KList(front + back))
    decreases |back|
  {
    hide Delta, SegmentsOf;
    if back == [] {
      assert front + [v] + back == front + [v] && front + back == front;
      NoneMore(front, v);
    } else {
      var n := |back| - 1;
      assert front + [v] + back == front + [v] + back[..n] + [back[n]];
      assert front + back == front + back[..n] + [back[n]];
      OthersPassedOver(front, v, back[..n]);
      SameMore(front + [v] + back[..n], front + back[..n], back[n]);
    }
  }

  lemma {:induction false} NoneMore(front: seq<LoroValue>, v: LoroValue)
    requires !IsSegment(v)
    ensures Delta(front + [v]) == Delta(front) && SegmentsOf(KList(front + [v])) == SegmentsOf(KList(front))
  {
    assert (front + [v])[..|front|] == front;
  }

  lemma {:induction false} SameMore(a: seq<LoroValue>, b: seq<LoroValue>, v: LoroValue)
    requires Delta(a) == Delta(b) && SegmentsOf(KList(a)) == SegmentsOf(KList(b))
    ensures Delta(a + [v]) == Delta(b + [v]) && SegmentsOf(KList(a + [v])) == SegmentsOf(KList(b + [v]))
  {
    hide VisitSegment, IsSegment;
    assert (a + [v])[..|a|] == a && (b + [v])[..|b|] == b;
  }

  /** Attributes that are no map stop the walk with an error. */
  lemma {:induction false} BadAttributes(front: seq<LoroValue>, v: LoroValue, back: seq<LoroValue>)
    requires var insert := [0x69, 0x6E, 0x73, 0x65, 0x72, 0x74];
             v.KMap? && insert in v.entries && v.entries[insert].KString?
    requires var attributes := [0x61, 0x74, 0x74, 0x72, 0x69, 0x62, 0x75, 0x74, 0x65, 0x73];
             attributes in v.entries && !v.entries[attributes].KMap?
    ensures Delta(front + [v] + back).Failure?
  {
    var items := front + [v] + back;
    assert items[..|front| + 1] == front + [v] && (front + [v])[..|front|] == front;
    assert IsSegment(v) && VisitSegment(v).Failure?;
    DeltaFails(items, |front| + 1);
  }
}
