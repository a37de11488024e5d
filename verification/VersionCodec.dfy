/**
 Version-vector spans and counters: the JSON that loro-c-api/src/version.rs writes and include/loro.hpp
 reads. Peers are u64 in the text and pass through the parser's int64.
 */
module VersionCodec {
  import opened Bytes
  import opened Decimal
  import opened Outcome
  import opened Json
  import opened Reader
  import opened Documents
  import opened Surrogates
  import JsonParser

  datatype Span = Span(start: I32, end: I32)
  datatype PeerSpan = PeerSpan(peer: U64, span: Span)
  datatype VvDiff = VvDiff(retreat: map<U64, Span>, forward: map<U64, Span>)

  const PEER: bytes := [0x70, 0x65, 0x65, 0x72]
  const COUNTER_START: bytes := [0x63, 0x6F, 0x75, 0x6E, 0x74, 0x65, 0x72, 0x5F, 0x73, 0x74, 0x61, 0x72, 0x74]
  const COUNTER_END: bytes := [0x63, 0x6F, 0x75, 0x6E, 0x74, 0x65, 0x72, 0x5F, 0x65, 0x6E, 0x64]
  const RETREAT: bytes := [0x72, 0x65, 0x74, 0x72, 0x65, 0x61, 0x74]
  const FORWARD: bytes := [0x66, 0x6F, 0x72, 0x77, 0x61, 0x72, 0x64]

  // The producer.

  /** span_to_json */
  function SpanDoc(s: PeerSpan): Doc {
    DObject(map[PEER := DInt(s.peer), COUNTER_START := DInt(s.span.start), COUNTER_END := DInt(s.span.end)])
  }

  function SpanDocs(s: seq<PeerSpan>): Doc {
    DArray(seq(|s|, k requires 0 <= k < |s| => SpanDoc(s[k])))
  }

  /** The sequence holds each entry of the map once. */
  predicate Lists(s: seq<PeerSpan>, m: map<U64, Span>) {
    && (forall k :: 0 <= k < |s| ==> s[k].peer in m && m[s[k].peer] == s[k].span)
    && (forall j, k :: 0 <= j < k < |s| ==> s[j].peer != s[k].peer)
    && forall p :: p in m ==> PeerSpan(p, m[p]) in s
  }

  predicate Sorted(s: seq<PeerSpan>) {
    forall j, k :: 0 <= j < k < |s| ==> s[j].peer <= s[k].peer
  }

  function Insert(s: seq<PeerSpan>, e: PeerSpan): seq<PeerSpan> {
    if s == [] || s[|s| - 1].peer <= e.peer then s + [e] else Insert(s[..|s| - 1], e) + [s[|s| - 1]]
  }

  lemma {:induction false} InsertSorted(s: seq<PeerSpan>, e: PeerSpan)
    requires Sorted(s)
    ensures Sorted(Insert(s, e)) && multiset(Insert(s, e)) == multiset(s) + multiset{e}
    decreases |s|
  {
    if s != [] && s[|s| - 1].peer > e.peer {
      var front, last := s[..|s| - 1], s[|s| - 1];
      assert s == front + [last];
      hide Sorted;
      SortedFront(s);
      InsertSorted(front, e);
      LastIsGreatest(front, last, e, Insert(front, e));
      SortedMore(Insert(front, e), last);
    } else {
      assert s != [] ==> forall k :: 0 <= k < |s| ==> s[k].peer <= s[|s| - 1].peer;
      SortedMore(s, e);
    }
  }

  lemma {:induction false} SortedFront(s: seq<PeerSpan>)
    requires Sorted(s) && s != []
    ensures Sorted(s[..|s| - 1])
  {
  }

  lemma {:induction false} SortedMore(s: seq<PeerSpan>, last: PeerSpan)
    requires Sorted(s) && forall k :: 0 <= k < |s| ==> s[k].peer <= last.peer
    ensures Sorted(s + [last])
  {
  }

  lemma {:induction false} LastIsGreatest(front: seq<PeerSpan>, last: PeerSpan, e: PeerSpan, r: seq<PeerSpan>)
    requires Sorted(front + [last]) && e.peer <= last.peer && multiset(r) == multiset(front) + multiset{e}
    ensures forall k :: 0 <= k < |r| ==> r[k].peer <= last.peer
  {
    var s := front + [last];
    forall k | 0 <= k < |r|
      ensures r[k].peer <= last.peer
    {
      assert r[k] in multiset(r);
      if r[k] in front {
        var j :| 0 <= j < |front| && front[j] == r[k];
        assert s[j].peer <= s[|front|].peer;
      }
    }
  }

  /** sort_by_key: a stable sort by peer. */
  function SortByPeer(s: seq<PeerSpan>): (r: seq<PeerSpan>)
    ensures Sorted(r) && multiset(r) == multiset(s)
  {
    if s == [] then []
    else
      assert s == s[..|s| - 1] + [s[|s| - 1]];
      InsertSorted(SortByPeer(s[..|s| - 1]), s[|s| - 1]);
      Insert(SortByPeer(s[..|s| - 1]), s[|s| - 1])
  }

  /** A rearranged listing still lists the map. */
  lemma {:induction false} ListsPermuted(s: seq<PeerSpan>, r: seq<PeerSpan>, m: map<U64, Span>)
    requires Lists(s, m) && multiset(s) == multiset(r)
    ensures Lists(r, m)
  {
    forall k | 0 <= k < |r|
      ensures r[k].peer in m && m[r[k].peer] == r[k].span
    {
      assert r[k] in multiset(r);
      assert r[k] in s;
    }
    forall j, k | 0 <= j < k < |r|
      ensures r[j].peer != r[k].peer
    {
      if r[j].peer == r[k].peer {
        assert r[j] == r[k];
        TwiceInMultiset(r, j, k);
        OnceInMultiset(s, r[j]);
        assert false;
      }
    }
    forall p | p in m
      ensures PeerSpan(p, m[p]) in r
    {
      assert PeerSpan(p, m[p]) in multiset(s);
    }
  }

  lemma {:induction false} TwiceInMultiset(s: seq<PeerSpan>, j: nat, k: nat)
    requires j < k < |s| && s[j] == s[k]
    ensures multiset(s)[s[j]] >= 2
  {
    assert s == s[..k] + [s[k]] + s[k + 1..];
    assert s[j] in s[..k];
  }

  lemma {:induction false} OnceInMultiset(s: seq<PeerSpan>, e: PeerSpan)
    requires forall j, k :: 0 <= j < k < |s| ==> s[j].peer != s[k].peer
    ensures multiset(s)[e] <= 1
    decreases |s|
  {
    if s != [] {
      var front, last := s[..|s| - 1], s[|s| - 1];
      assert s == front + [last];
      OnceInMultiset(front, e);
      assert e == last ==> e !in front;
    }
  }

  /** spans_to_json_array: the entries in map order, sorted by peer, then rendered one by one. */
  method SpansToJsonArray(m: map<U64, Span>) returns (d: Doc)
    ensures exists s :: Sorted(s) && Lists(s, m) && d == SpanDocs(s)
  {
    var entries: seq<PeerSpan> := [];
    var rest := m.Keys;
    while rest != {}
      invariant rest <= m.Keys
      invariant forall k :: 0 <= k < |entries| ==>
          entries[k].peer in m.Keys - rest && m[entries[k].peer] == entries[k].span
      invariant forall j, k :: 0 <= j < k < |entries| ==> entries[j].peer != entries[k].peer
      invariant forall p :: p in m.Keys - rest ==> PeerSpan(p, m[p]) in entries
      decreases |rest|
    {
      var p :| p in rest;
      entries := entries + [PeerSpan(p, m[p])];
      rest := rest - {p};
    }
    assert Lists(entries, m);
    ListsPermuted(entries, SortByPeer(entries), m);
    entries := SortByPeer(entries);
    d := SpanDocs(entries);
  }

  /** The output is deterministic: a map has one listing sorted by peer, whatever order it is walked in. */
  lemma {:induction false} SortedListingUnique(a: seq<PeerSpan>, b: seq<PeerSpan>, m: map<U64, Span>)
    requires Sorted(a) && Lists(a, m) && Sorted(b) && Lists(b, m)
    ensures a == b
    decreases |a|
  {
    hide Lists, Sorted;
    NoneListed(a, m);
    NoneListed(b, m);
    if a != [] {
      HeadLeast(a, m);
      HeadLeast(b, m);
      TailLists(a, m);
      TailLists(b, m);
      SortedListingUnique(a[1..], b[1..], m - {a[0].peer});
      assert a == [a[0]] + a[1..] && b == [b[0]] + b[1..];
    }
  }

  lemma {:induction false} NoneListed(a: seq<PeerSpan>, m: map<U64, Span>)
    requires Lists(a, m)
    ensures a == [] <==> m == map[]
  {
    if m.Keys != {} {
      var p :| p in m.Keys;
      assert PeerSpan(p, m[p]) in a;
    }
    if a != [] {
      assert a[0].peer in m;
    }
  }

  lemma {:induction false} HeadLeast(a: seq<PeerSpan>, m: map<U64, Span>)
    requires a != [] && Sorted(a) && Lists(a, m)
    ensures a[0].peer in m && a[0] == PeerSpan(a[0].peer, m[a[0].peer])
    ensures forall p :: p in m ==> a[0].peer <= p
  {
    forall p | p in m
      ensures a[0].peer <= p
    {
      assert PeerSpan(p, m[p]) in a;
    }
  }

  lemma {:induction false} SortedTail(a: seq<PeerSpan>)
    requires a != [] && Sorted(a)
    ensures Sorted(a[1..])
  {
  }

  lemma {:induction false} TailLists(a: seq<PeerSpan>, m: map<U64, Span>)
    requires a != [] && Sorted(a) && Lists(a, m)
    ensures Sorted(a[1..]) && Lists(a[1..], m - {a[0].peer})
  {
    hide Sorted;
    SortedTail(a);
    var rest := m - {a[0].peer};
    forall p | p in rest
      ensures PeerSpan(p, rest[p]) in a[1..]
    {
      InTail(a, m, p);
    }
    forall k | 0 <= k < |a[1..]|
      ensures a[1..][k].peer in rest && rest[a[1..][k].peer] == a[1..][k].span
    {
      assert a[1..][k] == a[k + 1] && a[0].peer != a[k + 1].peer;
    }
  }

  lemma {:induction false} InTail(a: seq<PeerSpan>, m: map<U64, Span>, p: U64)
    requires a != [] && Lists(a, m) && p in m && p != a[0].peer
    ensures PeerSpan(p, m[p]) in a[1..]
  {
    assert PeerSpan(p, m[p]) in a && a == [a[0]] + a[1..];
  }

  // The consumer.

  /** An element with all three fields; elements without are skipped. */
  function ReadSpan(e: JsonValue): Option<PeerSpan> {
    var peer, cs, ce := e.Find(PEER), e.Find(COUNTER_START), e.Find(COUNTER_END);
    if peer.None? || cs.None? || ce.None? then None
    else
      Some(PeerSpan(ToU64(peer.value.IntField()), Span(ToI32(cs.value.IntField()), ToI32(ce.value.IntField()))))
  }

  function ReadSpans(arr: seq<JsonValue>): seq<PeerSpan> {
    if arr == [] then []
    else
      var front, last := ReadSpans(arr[..|arr| - 1]), ReadSpan(arr[|arr| - 1]);
      if last.Some? then front + [last.value] else front
  }

  /** The spans stored one after the other; a later span of the same peer replaces an earlier one. */
  function Collected(s: seq<PeerSpan>): map<U64, Span> {
    if s == [] then map[] else Collected(s[..|s| - 1])[s[|s| - 1].peer := s[|s| - 1].span]
  }

  lemma {:induction false} NoneCollected()
    ensures Collected([]) == map[]
  {
  }

  lemma {:induction false} CollectedMore(s: seq<PeerSpan>, e: PeerSpan)
    ensures Collected(s + [e]) == Collected(s)[e.peer := e.span]
  {
    assert (s + [e])[..|s|] == s;
  }

  lemma {:induction false} NoSpans()
    ensures ReadSpans([]) == []
  {
  }

  lemma {:induction false} OneSpanMore(arr: seq<JsonValue>, k: nat)
    requires k < |arr|
    ensures ReadSpans(arr[..k + 1]) ==
            ReadSpans(arr[..k]) + if ReadSpan(arr[k]).Some? then [ReadSpan(arr[k]).value] else []
  {
    hide ReadSpan;
    assert arr[..k + 1][..k] == arr[..k];
  }

  /** The loop of get_missing_span. */
  method MissingSpan(stod: Stod, json: bytes) returns (r: Result<seq<PeerSpan>>)
    ensures Parse(stod, json).Failure? ==> r == Failure(Parse(stod, json).error)
    ensures Parse(stod, json).Success? ==> r == Success(ReadSpans(Parse(stod, json).value.Elements()))
  {
    hide ReadSpan, ReadSpans;
    var root :- JsonParser.ParseJson(stod, json);
    var out: seq<PeerSpan> := [];
    var arr := root.Elements();
    NoSpans();
    for k := 0 to |arr|
      invariant out == ReadSpans(arr[..k])
    {
      OneSpanMore(arr, k);
      var e := ReadSpan(arr[k]);
      if e.Some? {
        out := out + [e.value];
      }
    }
    assert arr[..|arr|] == arr;
    return Success(out);
  }

  /** The fill lambda of diff. */
  method Fill(spans: Option<JsonValue>) returns (m: map<U64, Span>)
    ensures m == FilledFrom(spans)
  {
    m := map[];
    if spans.None? {
      return;
    }
    hide ReadSpan, ReadSpans, Collected;
    NoneCollected();
    var arr := spans.value.Elements();
    NoSpans();
    for k := 0 to |arr|
      invariant m == Collected(ReadSpans(arr[..k]))
    {
      OneSpanMore(arr, k);
      var e := ReadSpan(arr[k]);
      if e.Some? {
        CollectedMore(ReadSpans(arr[..k]), e.value);
        m := m[e.value.peer := e.value.span];
      } else {
        assert ReadSpans(arr[..k]) + [] == ReadSpans(arr[..k]);
      }
    }
    assert arr[..|arr|] == arr;
  }

  function FilledFrom(spans: Option<JsonValue>): map<U64, Span> {
    if spans.None? then map[] else Collected(ReadSpans(spans.value.Elements()))
  }

  function DiffOf(root: JsonValue): VvDiff {
    VvDiff(FilledFrom(root.Find(RETREAT)), FilledFrom(root.Find(FORWARD)))
  }

  method Diff(stod: Stod, json: bytes) returns (r: Result<VvDiff>)
    ensures Parse(stod, json).Failure? ==> r == Failure(Parse(stod, json).error)
    ensures Parse(stod, json).Success? ==> r == Success(DiffOf(Parse(stod, json).value))
  {
    var root :- JsonParser.ParseJson(stod, json);
    var retreat := Fill(root.Find(RETREAT));
    var forward := Fill(root.Find(FORWARD));
    return Success(VvDiff(retreat, forward));
  }

  // Across the boundary.

  lemma {:induction false} SpanRead(stod: Stod, j: JsonValue, s: PeerSpan)
    requires Shows(stod, j, SpanDoc(s))
    ensures ReadSpan(j) == Some(s)
  {
    hide FindIn, ToI64, ToU64, ToI32, Shows;
    FieldShown(stod, j, SpanDoc(s), PEER, s.peer);
    FieldShown(stod, j, SpanDoc(s), COUNTER_START, s.span.start);
    FieldShown(stod, j, SpanDoc(s), COUNTER_END, s.span.end);
    U64ThroughI64(s.peer);
    I64Kept(s.span.start);
    I64Kept(s.span.end);
    I32Kept(s.span.start);
    I32Kept(s.span.end);
  }

  lemma {:induction false} SpansRead(stod: Stod, arr: seq<JsonValue>, s: seq<PeerSpan>)
    requires |arr| == |s| && forall k :: 0 <= k < |s| ==> Shows(stod, arr[k], SpanDoc(s[k]))
    ensures ReadSpans(arr) == s
    decreases |s|
  {
    hide Shows, SpanDoc, ReadSpan;
    if s != [] {
      var n := |s| - 1;
      SpanRead(stod, arr[n], s[n]);
      SpansRead(stod, arr[..n], s[..n]);
      assert s == s[..n] + [s[n]];
    }
  }

  lemma {:induction false} SpanDocsShown(stod: Stod, j: JsonValue, s: seq<PeerSpan>)
    requires Shows(stod, j, SpanDocs(s))
    ensures ReadSpans(j.Elements()) == s
  {
    forall k | 0 <= k < |s|
      ensures Shows(stod, j.arr[k], SpanDoc(s[k]))
    {
      assert SpanDocs(s).items[k] == SpanDoc(s[k]);
    }
    SpansRead(stod, j.arr, s);
  }

  lemma {:induction false} CollectedKeys(s: seq<PeerSpan>)
    requires forall j, k :: 0 <= j < k < |s| ==> s[j].peer != s[k].peer
    ensures forall k :: 0 <= k < |s| ==> s[k].peer in Collected(s) && Collected(s)[s[k].peer] == s[k].span
    ensures forall p :: p in Collected(s) ==> PeerSpan(p, Collected(s)[p]) in s
    decreases |s|
  {
    if s != [] {
      var front, last := s[..|s| - 1], s[|s| - 1];
      CollectedKeys(front);
      assert s == front + [last];
      forall k | 0 <= k < |s|
        ensures s[k].peer in Collected(s) && Collected(s)[s[k].peer] == s[k].span
      {
        if k < |s| - 1 {
          assert front[k] == s[k];
        }
      }
    }
  }

  lemma {:induction false} CollectedListing(s: seq<PeerSpan>, m: map<U64, Span>)
    requires Lists(s, m)
    ensures Collected(s) == m
  {
    CollectedKeys(s);
    var c := Collected(s);
    forall p
      ensures p in c <==> p in m
      ensures p in c && p in m ==> c[p] == m[p]
    {
      if p in c {
        assert PeerSpan(p, c[p]) in s;
      }
      if p in m {
        assert PeerSpan(p, m[p]) in s;
      }
    }
    assert c.Keys == m.Keys;
  }

  lemma {:induction false} SpanDocsPlain(stod: Stod, s: seq<PeerSpan>)
    ensures DocReadable(stod, SpanDocs(s)) && AsciiDoc(SpanDocs(s))
  {
    forall k | 0 <= k < |s|
      ensures DocReadable(stod, SpanDoc(s[k])) && AsciiDoc(SpanDoc(s[k]))
    {
    }
  }

  /** Missing spans arrive unchanged and in order, whatever rendering carries them. */
  lemma {:induction false} MissingSpanRoundTrip(stod: Stod, text: bytes, s: seq<PeerSpan>)
    requires Renders(text, SpanDocs(s))
    ensures Parse(stod, text).Success? && ReadSpans(Parse(stod, text).value.Elements()) == s
  {
    hide SpanDocs, Parse, ReadSpans, Shows, AsciiDoc, Renders, DocReadable;
    SpanDocsPlain(stod, s);
    AsciiRendered(text, SpanDocs(s));
    ParseRendered(stod, text, SpanDocs(s));
    SpanDocsShown(stod, Parse(stod, text).value, s);
  }

  /** The document loro_version_vector_diff writes, for any order of the listed spans. */
  function DiffDoc(retreat: seq<PeerSpan>, forward: seq<PeerSpan>): Doc {
    DObject(map[RETREAT := SpanDocs(retreat), FORWARD := SpanDocs(forward)])
  }

  lemma {:induction false} DiffDocPlain(stod: Stod, retreat: seq<PeerSpan>, forward: seq<PeerSpan>)
    ensures DocReadable(stod, DiffDoc(retreat, forward)) && AsciiDoc(DiffDoc(retreat, forward))
  {
    hide SpanDocs;
    SpanDocsPlain(stod, retreat);
    SpanDocsPlain(stod, forward);
  }

  /** Both maps of a diff arrive exactly, for every u64 peer. */
  lemma {:induction false} DiffRoundTrip(stod: Stod, text: bytes, diff: VvDiff, retreat: seq<PeerSpan>,
                                         forward: seq<PeerSpan>)
    requires Lists(retreat, diff.retreat) && Lists(forward, diff.forward)
    requires Renders(text, DiffDoc(retreat, forward))
    ensures Parse(stod, text).Success? && DiffOf(Parse(stod, text).value) == diff
  {
    hide SpanDocs, Parse, ReadSpans, Collected, Lists, FindIn, Renders, Shows, AsciiDoc, DocReadable;
    var d := DiffDoc(retreat, forward);
    DiffDocPlain(stod, retreat, forward);
    AsciiRendered(text, d);
    ParseRendered(stod, text, d);
    var j := Parse(stod, text).value;
    MemberShown(stod, j, d, RETREAT);
    MemberShown(stod, j, d, FORWARD);
    SpanDocsShown(stod, j.Find(RETREAT).value, retreat);
    SpanDocsShown(stod, j.Find(FORWARD).value, forward);
    CollectedListing(retreat, diff.retreat);
    CollectedListing(forward, diff.forward);
  }

  // loro_version_vector_to_json and to_hashmap: peers as decimal keys.

  lemma {:induction false} PeerKeysDiffer()
    ensures forall p: U64, q: U64 | ToString(p) == ToString(q) :: p == q
  {
    forall p: U64, q: U64 | ToString(p) == ToString(q)
      ensures p == q
    {
      ToStringInjective(p, q);
    }
  }

  /** The object with one member per peer, named by the peer in decimal. */
  ghost predicate IsCountersDoc(d: Doc, vv: map<U64, I32>) {
    && d.DObject?
    && (forall p :: p in vv ==> ToString(p) in d.entries && d.entries[ToString(p)] == DInt(vv[p]))
    && forall key :: key in d.entries ==> exists p :: p in vv && key == ToString(p)
  }

  method VersionVectorToJson(vv: map<U64, I32>) returns (d: Doc)
    ensures IsCountersDoc(d, vv)
  {
    hide ToString;
    PeerKeysDiffer();
    var obj: map<bytes, Doc> := map[];
    var rest := vv.Keys;
    while rest != {}
      invariant rest <= vv.Keys
      invariant forall p :: p in vv.Keys - rest ==> ToString(p) in obj && obj[ToString(p)] == DInt(vv[p])
      invariant forall key :: key in obj ==> exists p :: p in vv && key == ToString(p)
      decreases |rest|
    {
      var p :| p in rest;
      obj := obj[ToString(p) := DInt(vv[p])];
      rest := rest - {p};
    }
    d := DObject(obj);
  }

  function ReadCounters(obj: seq<Member>): Result<map<U64, I32>> {
    if obj == [] then Success(map[])
    else
      var front :- ReadCounters(obj[..|obj| - 1]);
      var last := obj[|obj| - 1];
      var peer :- Stoull(last.key);
      Success(front[peer := ToI32(last.value.IntField())])
  }

  method ToHashmap(stod: Stod, json: bytes) returns (r: Result<map<U64, I32>>)
    ensures Parse(stod, json).Failure? ==> r == Failure(Parse(stod, json).error)
    ensures Parse(stod, json).Success? ==> r == ReadCounters(Parse(stod, json).value.Members())
  {
    var root :- JsonParser.ParseJson(stod, json);
    var out: map<U64, I32> := map[];
    var obj := root.Members();
    for k := 0 to |obj|
      invariant ReadCounters(obj[..k]) == Success(out)
    {
      assert obj[..k + 1][..k] == obj[..k];
      var peer := Stoull(obj[k].key);
      if peer.Failure? {
        CountersFail(obj, k + 1);
        return Failure(peer.error);
      }
      out := out[peer.value := ToI32(obj[k].value.IntField())];
    }
    assert obj[..|obj|] == obj;
    return Success(out);
  }

  lemma {:induction false} CountersFail(obj: seq<Member>, k: nat)
    requires k <= |obj| && ReadCounters(obj[..k]).Failure?
    ensures ReadCounters(obj) == ReadCounters(obj[..k])
    decreases |obj|
  {
    if k < |obj| {
      var front := obj[..|obj| - 1];
      assert front[..k] == obj[..k];
      CountersFail(front, k);
    } else {
      assert obj[..k] == obj;
    }
  }

  predicate CounterMember(m: Member, vv: map<U64, I32>) {
    exists p :: p in vv && m == Member(ToString(p), JsonValue.Int(vv[p]))
  }

  lemma {:induction false} CountersRead(obj: seq<Member>, vv: map<U64, I32>)
    requires forall k :: 0 <= k < |obj| ==> CounterMember(obj[k], vv)
    ensures var r := ReadCounters(obj);
            && r.Success?
            && (forall p :: p in r.value ==> p in vv && r.value[p] == vv[p])
            && forall k, p :: 0 <= k < |obj| && p in vv && obj[k].key == ToString(p) ==> p in r.value
    decreases |obj|
  {
    hide ToString, Stoull, ToI32;
    if obj != [] {
      var front, last := obj[..|obj| - 1], obj[|obj| - 1];
      CountersRead(front, vv);
      var p :| p in vv && last == Member(ToString(p), JsonValue.Int(vv[p]));
      StoullOfString(p);
      I32Kept(vv[p]);
      PeerKeysDiffer();
      forall k, q | 0 <= k < |obj| && q in vv && obj[k].key == ToString(q)
        ensures q in ReadCounters(obj).value
      {
        if k < |obj| - 1 {
          assert front[k] == obj[k];
        }
      }
    }
  }

  lemma {:induction false} CountersDocPlain(stod: Stod, d: Doc, vv: map<U64, I32>)
    requires IsCountersDoc(d, vv)
    ensures DocReadable(stod, d) && AsciiDoc(d)
  {
    hide ToString;
    forall key | key in d.entries
      ensures IsAscii(key) && AsciiDoc(d.entries[key]) && DocReadable(stod, d.entries[key])
    {
      var p :| p in vv && key == ToString(p);
      DecimalAscii(p);
    }
  }

  /** The counters of a version vector arrive exactly, for every u64 peer. */
  lemma {:induction false} HashmapRoundTrip(stod: Stod, text: bytes, d: Doc, vv: map<U64, I32>)
    requires IsCountersDoc(d, vv) && Renders(text, d)
    ensures Parse(stod, text).Success? && ReadCounters(Parse(stod, text).value.Members()) == Success(vv)
  {
    hide Parse, ReadCounters, FindIn, ToI64, Renders, Shows, DocReadable, AsciiDoc, ToString;
    CountersDocPlain(stod, d, vv);
    AsciiRendered(text, d);
    ParseRendered(stod, text, d);
    CountersShown(stod, Parse(stod, text).value, d, vv);
  }

  lemma {:induction false} CountersShown(stod: Stod, j: JsonValue, d: Doc, vv: map<U64, I32>)
    requires IsCountersDoc(d, vv) && Shows(stod, j, d)
    ensures ReadCounters(j.Members()) == Success(vv)
  {
    hide ToString, ReadCounters, FindIn, ToI64;
    var obj := j.obj;
    forall k | 0 <= k < |obj|
      ensures CounterMember(obj[k], vv)
    {
      FindOwn(obj, k);
      assert j.Find(obj[k].key).Some?;
      var p :| p in vv && obj[k].key == ToString(p);
      assert Shows(stod, obj[k].value, DInt(vv[p]));
      I64Kept(vv[p]);
    }
    forall p | p in vv
      ensures exists k :: 0 <= k < |obj| && obj[k].key == ToString(p)
    {
      assert j.Find(ToString(p)).Some?;
      FindIndex(obj, ToString(p));
    }
    CountersComplete(obj, vv);
  }

  lemma {:induction false} CountersComplete(obj: seq<Member>, vv: map<U64, I32>)
    requires forall k :: 0 <= k < |obj| ==> CounterMember(obj[k], vv)
    requires forall p :: p in vv ==> exists k :: 0 <= k < |obj| && obj[k].key == ToString(p)
    ensures ReadCounters(obj) == Success(vv)
  {
    hide ToString, ReadCounters, CounterMember;
    CountersRead(obj, vv);
    var m := ReadCounters(obj).value;
    assert m.Keys == vv.Keys;
    assert m == vv;
  }

  lemma {:induction false} FindIndex(obj: seq<Member>, key: bytes)
    requires FindIn(obj, key).Some?
    ensures exists k :: 0 <= k < |obj| && obj[k].key == key
  {
  }

  // The documents and the readers by value, for every input.

  /** An integer field: its value, or the default 0 in a value of another kind. */
  function Field(j: JsonValue): int {
    match j
    case Int(i) => i
    case _ => 0
  }

  lemma {:induction false} SpanDocSpelled(s: PeerSpan)
    ensures var peer := [0x70, 0x65, 0x65, 0x72];
            var start := [0x63, 0x6F, 0x75, 0x6E, 0x74, 0x65, 0x72, 0x5F, 0x73, 0x74, 0x61, 0x72, 0x74];
            var end := [0x63, 0x6F, 0x75, 0x6E, 0x74, 0x65, 0x72, 0x5F, 0x65, 0x6E, 0x64];
            SpanDoc(s) == DObject(map[peer := DInt(s.peer), start := DInt(s.span.start), end := DInt(s.span.end)])
  {
  }

  /** An element is skipped exactly when a field is missing; the fields are cut to their widths. */
  lemma {:induction false} SpanRules(e: JsonValue)
    ensures var peer := e.Find([0x70, 0x65, 0x65, 0x72]);
            var start := e.Find([0x63, 0x6F, 0x75, 0x6E, 0x74, 0x65, 0x72, 0x5F, 0x73, 0x74, 0x61, 0x72, 0x74]);
            var end := e.Find([0x63, 0x6F, 0x75, 0x6E, 0x74, 0x65, 0x72, 0x5F, 0x65, 0x6E, 0x64]);
            var r := ReadSpan(e);
            && (r.None? <==> peer.None? || start.None? || end.None?)
            && (r.Some? ==>
                  && (r.value.peer - Field(peer.value)) % 0x1_0000_0000_0000_0000 == 0
                  && (r.value.span.start - Field(start.value)) % 0x1_0000_0000 == 0
                  && (r.value.span.end - Field(end.value)) % 0x1_0000_0000 == 0)
  {
    hide FindIn, ToU64, ToI32;
  }

  lemma {:induction false} DiffSpelled(retreat: seq<PeerSpan>, forward: seq<PeerSpan>, root: JsonValue)
    ensures var back := [0x72, 0x65, 0x74, 0x72, 0x65, 0x61, 0x74];
            var on := [0x66, 0x6F, 0x72, 0x77, 0x61, 0x72, 0x64];
            && DiffDoc(retreat, forward) == DObject(map[back := SpanDocs(retreat), on := SpanDocs(forward)])
            && DiffOf(root).retreat ==
               (if root.Find(back).None? then map[] else Collected(ReadSpans(root.Find(back).value.Elements())))
            && DiffOf(root).forward ==
               (if root.Find(on).None? then map[] else Collected(ReadSpans(root.Find(on).value.Elements())))
  {
    hide FindIn, Collected, ReadSpans, SpanDocs;
  }

  /** Each span is stored under its peer, over one that is there already. */
  lemma {:induction false} OneSpanStored(front: seq<PeerSpan>, last: PeerSpan)
    ensures Collected([]) == map[]
    ensures Collected(front + [last]).Keys == Collected(front).Keys + {last.peer}
    ensures Collected(front + [last])[last.peer] == last.span
    ensures forall p :: p in Collected(front) && p != last.peer ==> Collected(front + [last])[p] == Collected(front)[p]
  {
    assert (front + [last])[..|front|] == front;
  }

  /** A key that is no number throws. */
  lemma {:induction false} CountersSucceed(obj: seq<Member>)
    ensures ReadCounters(obj).Success? <==> forall k :: 0 <= k < |obj| ==> Stoull(obj[k].key).Success?
    decreases |obj|
  {
    hide Stoull, ToI32;
    if obj != [] {
      CountersSucceed(obj[..|obj| - 1]);
      assert forall k :: 0 <= k < |obj| - 1 ==> obj[..|obj| - 1][k] == obj[k];
    }
  }

  /** Each member stores its counter under its peer, over one that is there already. */
  lemma {:induction false} OneCounterMore(front: seq<Member>, last: Member)
    requires ReadCounters(front).Success? && Stoull(last.key).Success?
    ensures ReadCounters([]) == Success(map[])
    ensures var r := ReadCounters(front + [last]);
            && r.Success? && var p := Stoull(last.key).value;
            && r.value.Keys == ReadCounters(front).value.Keys + {p}
            && (r.value[p] - Field(last.value)) % 0x1_0000_0000 == 0
            && forall q :: q in r.value && q != p ==> r.value[q] == ReadCounters(front).value[q]
  {
    hide Stoull, ToI32;
    assert (front + [last])[..|front|] == front;
  }
}
