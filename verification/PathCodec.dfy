/**
 Event paths: the JSON that loro-c-api/src/event.rs writes and include/loro.hpp reads.
 */
module PathCodec {
  import opened Bytes
  import opened Decimal
  import opened Outcome
  import opened Json
  import opened Reader
  import opened Cid
  import opened Documents
  import opened Surrogates
  import JsonParser

  /** A path step's index. A seq index is a usize in Rust and a uint32 in C++. */
  datatype Index = Key(key: bytes) | Seq(n: U64) | Node(peer: U64, counter: I32)

  datatype Step = Step(container: ContainerId, index: Index)

  const CID: bytes := [0x63, 0x69, 0x64]
  const INDEX: bytes := [0x69, 0x6E, 0x64, 0x65, 0x78]
  const KEY: bytes := [0x6B, 0x65, 0x79]
  const SEQ: bytes := [0x73, 0x65, 0x71]
  const NODE: bytes := [0x6E, 0x6F, 0x64, 0x65]
  const PEER: bytes := [0x70, 0x65, 0x65, 0x72]
  const COUNTER: bytes := [0x63, 0x6F, 0x75, 0x6E, 0x74, 0x65, 0x72]

  // The producer: loro_container_diff_path_json, index_to_json and tree_id_to_json.

  function TreeIdDoc(peer: U64, counter: I32): Doc {
    DObject(map[PEER := DInt(peer), COUNTER := DInt(counter)])
  }

  function IndexDoc(index: Index): Doc {
    match index
    case Key(k) => DObject(map[KEY := DString(k)])
    case Seq(n) => DObject(map[SEQ := DInt(n)])
    case Node(peer, counter) => DObject(map[NODE := TreeIdDoc(peer, counter)])
  }

  function StepDoc(step: Step): Doc {
    DObject(map[CID := DString(CidText(step.container)), INDEX := IndexDoc(step.index)])
  }

  function PathDoc(path: seq<Step>): Doc {
    DArray(seq(|path|, k requires 0 <= k < |path| => StepDoc(path[k])))
  }

  // The consumer: path_items_from_json. Steps without a usable cid or index are dropped.

  /** static_cast<int64_t> of a double. */
  type Truncate = F64 -> I64

  function ReadIndex(trunc: Truncate, index: Option<JsonValue>): Option<Index> {
    if index.None? then None
    else
      var k, s, n := index.value.Find(KEY), index.value.Find(SEQ), index.value.Find(NODE);
      if k.Some? && k.value.String? then Some(Key(k.value.s))
      else if s.Some? then Some(Seq(ToU32(if s.value.Int? then s.value.i else trunc(s.value.DoubleField()))))
      else if n.Some? && n.value.Object? then
        var peer, counter := n.value.Find(PEER), n.value.Find(COUNTER);
        Some(Node(if peer.Some? then ToU64(peer.value.IntField()) else 0,
                  if counter.Some? then ToI32(counter.value.IntField()) else 0))
      else None
  }

  function ReadStep(trunc: Truncate, step: JsonValue): Result<seq<Step>> {
    if !step.Object? then Success([])
    else
      var cid := step.Find(CID);
      if cid.None? || !cid.value.String? then Success([])
      else
        var container :- ParseCid(cid.value.s);
        var index := ReadIndex(trunc, step.Find(INDEX));
        Success(if index.Some? then [Step(container, index.value)] else [])
  }

  function ReadSteps(trunc: Truncate, arr: seq<JsonValue>): Result<seq<Step>> {
    if arr == [] then Success([])
    else
      var front :- ReadSteps(trunc, arr[..|arr| - 1]);
      var last :- ReadStep(trunc, arr[|arr| - 1]);
      Success(front + last)
  }

  function PathItems(stod: Stod, trunc: Truncate, json: bytes): Result<seq<Step>> {
    if json == [] then Success([])
    else
      var root :- Parse(stod, json);
      ReadSteps(trunc, root.Elements())
  }

  method PathItemsFromJson(stod: Stod, trunc: Truncate, json: bytes) returns (r: Result<seq<Step>>)
    ensures r == PathItems(stod, trunc, json)
  {
    var out: seq<Step> := [];
    if json == [] {
      return Success(out);
    }
    var root :- JsonParser.ParseJson(stod, json);
    if !root.Array? {
      return Success(out);
    }
    for k := 0 to |root.arr|
      invariant ReadSteps(trunc, root.arr[..k]) == Success(out)
    {
      ghost var done := root.arr[..k + 1];
      assert done[..|done| - 1] == root.arr[..k];
      var step := ReadStep(trunc, root.arr[k]);
      if step.Failure? {
        StepsFail(trunc, root.arr, k + 1);
        return Failure(step.error);
      }
      out := out + step.value;
    }
    assert root.arr[..|root.arr|] == root.arr;
    return Success(out);
  }

  /** The first step that fails decides. */
  lemma {:induction false} StepsFail(trunc: Truncate, arr: seq<JsonValue>, k: nat)
    requires k <= |arr| && ReadSteps(trunc, arr[..k]).Failure?
    ensures ReadSteps(trunc, arr) == ReadSteps(trunc, arr[..k])
    decreases |arr|
  {
    if k < |arr| {
      var front := arr[..|arr| - 1];
      assert front[..k] == arr[..k];
      StepsFail(trunc, front, k);
    } else {
      assert arr[..k] == arr;
    }
  }

  /** The steps that cross the boundary unchanged. */
  predicate Survives(step: Step) {
    (step.container.Root? ==> step.container.name != []) && (step.index.Seq? ==> step.index.n < TWO32)
  }

  /** A tree id and the casts of its consumer. */
  lemma {:induction false} TreeIdRead(stod: Stod, n: JsonValue, peer: U64, counter: I32)
    requires Shows(stod, n, TreeIdDoc(peer, counter))
    ensures n.Object? && n.Find(PEER).Some? && n.Find(COUNTER).Some?
    ensures ToU64(n.Find(PEER).value.IntField()) == peer && ToI32(n.Find(COUNTER).value.IntField()) == counter
  {
    hide FindIn, ToI64, ToU64, ToI32;
    assert n.Find(PEER) == Some(JsonValue.Int(ToI64(peer))) && n.Find(COUNTER) == Some(JsonValue.Int(ToI64(counter)));
    U64ThroughI64(peer);
    I64Kept(counter);
    I32Kept(counter);
  }

  lemma {:induction false} IndexRead(stod: Stod, trunc: Truncate, j: JsonValue, index: Index)
    requires Shows(stod, j, IndexDoc(index))
    ensures ReadIndex(trunc, Some(j)) == Some(if index.Seq? then Seq(ToU32(index.n)) else index)
  {
    hide FindIn, ToI64, ToU64, ToU32, ToI32, TreeIdDoc;
    match index
    case Key(k) => assert j.Find(KEY) == Some(JsonValue.String(k));
    case Seq(n) =>
      assert j.Find(KEY).None? && j.Find(SEQ) == Some(JsonValue.Int(ToI64(n)));
      U32ThroughI64(n);
    case Node(peer, counter) =>
      assert j.Find(KEY).None? && j.Find(SEQ).None?;
      TreeIdRead(stod, j.Find(NODE).value, peer, counter);
  }

  lemma {:induction false} StepRead(stod: Stod, trunc: Truncate, j: JsonValue, step: Step)
    requires !step.container.ty.UnknownType? && Shows(stod, j, StepDoc(step))
    ensures ReadStep(trunc, j).Success? <==> Printable(step.container)
    ensures ReadStep(trunc, j).Success? ==>
      ReadStep(trunc, j).value == [if step.index.Seq? then Step(step.container, Seq(ToU32(step.index.n))) else step]
  {
    hide ParseCid, CidText, IndexDoc, ReadIndex, FindIn, Printable, ToU32;
    assert j.Find(CID) == Some(JsonValue.String(CidText(step.container)));
    assert j.Find(INDEX).Some? && Shows(stod, j.Find(INDEX).value, IndexDoc(step.index));
    IndexRead(stod, trunc, j.Find(INDEX).value, step.index);
    KnownCid(step.container);
  }

  lemma {:induction false} KnownCid(id: ContainerId)
    requires !id.ty.UnknownType?
    ensures ParseCid(CidText(id)).Success? <==> Printable(id)
    ensures Printable(id) ==> ParseCid(CidText(id)) == Success(id)
  {
    hide ParseCid, CidText;
    CidRoundTrip(id);
    if id.Root? {
      RootText(id.name, id.ty);
    }
  }

  lemma {:induction false} StepsRead(stod: Stod, trunc: Truncate, arr: seq<JsonValue>, path: seq<Step>)
    requires |arr| == |path|
    requires forall k :: 0 <= k < |path| ==> !path[k].container.ty.UnknownType? && Shows(stod, arr[k], StepDoc(path[k]))
    ensures ReadSteps(trunc, arr) == Success(path) <==> forall k :: 0 <= k < |path| ==> Survives(path[k])
    ensures ReadSteps(trunc, arr).Success? ==> |ReadSteps(trunc, arr).value| == |path|
    decreases |path|
  {
    hide Shows, StepDoc, ReadStep, Printable;
    if path != [] {
      var n := |path| - 1;
      StepsRead(stod, trunc, arr[..n], path[..n]);
      StepRead(stod, trunc, arr[n], path[n]);
      SurvivesIff(path[n]);
      assert path == path[..n] + [path[n]];
      var front, last := ReadSteps(trunc, arr[..n]), ReadStep(trunc, arr[n]);
      if front.Success? && last.Success? {
        LastOf(front.value, last.value[0], path[..n], path[n]);
      }
    }
  }

  lemma {:induction false} LastOf<T>(front: seq<T>, last: T, front': seq<T>, last': T)
    requires |front| == |front'|
    ensures front + [last] == front' + [last'] <==> front == front' && last == last'
  {
    if front + [last] == front' + [last'] {
      assert (front + [last])[..|front|] == front && (front' + [last'])[..|front|] == front';
      assert (front + [last])[|front|] == last;
    }
  }

  lemma {:induction false} SurvivesIff(step: Step)
    requires !step.container.ty.UnknownType?
    ensures Survives(step) <==>
            Printable(step.container) &&
            step == if step.index.Seq? then Step(step.container, Seq(ToU32(step.index.n))) else step
  {
  }

  // The converse: a path that was read right was shown right.

  /** The strings of normal ids are ASCII. */
  lemma {:induction false} NormalAscii(peer: U64, counter: I32, ty: ContainerType)
    ensures IsAscii(CidText(Normal(peer, counter, ty)))
  {
    DecimalAscii(peer);
    DecimalAscii(counter);
    assert IsAscii(TypeName(ty)) && IsAscii([AT_SIGN]) && IsAscii([COLON]) && IsAscii(CID_PREFIX);
    hide ToString, TypeName, IsAscii;
    var c, p, y := ToString(counter), ToString(peer), TypeName(ty);
    AsciiConcat([COLON], y);
    AsciiConcat(p, [COLON] + y);
    AsciiConcat([AT_SIGN], p + ([COLON] + y));
    AsciiConcat(c, [AT_SIGN] + (p + ([COLON] + y)));
    AsciiConcat(CID_PREFIX, c + ([AT_SIGN] + (p + ([COLON] + y))));
  }

  lemma {:induction false} AsciiConcat(a: bytes, b: bytes)
    requires IsAscii(a) && IsAscii(b)
    ensures IsAscii(a + b)
  {
  }

  lemma {:induction false} CidBack(id: ContainerId, cid: bytes)
    requires !id.ty.UnknownType? && ParseCid(cid) == Success(id)
    requires IsAscii(CidText(id)) ==> cid == CidText(id)
    ensures cid == CidText(id)
  {
    match id
    case Root(name, ty) => RootParsed(cid);
    case Normal(peer, counter, ty) => NormalAscii(peer, counter, ty);
  }

  /** An index is always read, and only itself is read as it. */
  lemma {:induction false} IndexBack(stod: Stod, trunc: Truncate, j: JsonValue, index: Index)
    requires Resembles(stod, j, IndexDoc(index))
    ensures ReadIndex(trunc, Some(j)).Some?
    ensures ReadIndex(trunc, Some(j)) == Some(index) ==> Shows(stod, j, IndexDoc(index))
  {
    hide FindIn, ToI64, ToU32, ToU64, ToI32, Shows, Resembles, TreeIdDoc;
    ResemblesMembers(stod, j, IndexDoc(index).entries);
    match index
    case Key(k) =>
      assert j.Find(KEY).Some?;
      ResemblesLeaf(stod, j.Find(KEY).value, DString(k));
    case Seq(n) =>
      assert j.Find(KEY).None? && j.Find(SEQ).Some?;
      ResemblesLeaf(stod, j.Find(SEQ).value, DInt(n));
    case Node(peer, counter) =>
      assert j.Find(KEY).None? && j.Find(SEQ).None? && j.Find(NODE).Some?;
      NodeBack(stod, j.Find(NODE).value, peer, counter);
  }

  lemma {:induction false} NodeBack(stod: Stod, n: JsonValue, peer: U64, counter: I32)
    requires Resembles(stod, n, TreeIdDoc(peer, counter))
    ensures n.Object? && Shows(stod, n, TreeIdDoc(peer, counter))
  {
    hide FindIn, ToI64, Shows, Resembles;
    ResemblesMembers(stod, n, TreeIdDoc(peer, counter).entries);
    assert n.Find(PEER).Some? && n.Find(COUNTER).Some?;
    ResemblesLeaf(stod, n.Find(PEER).value, DInt(peer));
    ResemblesLeaf(stod, n.Find(COUNTER).value, DInt(counter));
  }

  lemma {:induction false} StepBack(stod: Stod, trunc: Truncate, j: JsonValue, step: Step)
    requires !step.container.ty.UnknownType? && Resembles(stod, j, StepDoc(step))
    ensures ReadStep(trunc, j).Success? ==> |ReadStep(trunc, j).value| == 1
    ensures ReadStep(trunc, j) == Success([step]) ==> Shows(stod, j, StepDoc(step))
  {
    hide FindIn, IndexDoc, ReadIndex, ParseCid, CidText, Shows, Resembles;
    ResemblesMembers(stod, j, StepDoc(step).entries);
    assert j.Find(CID).Some? && j.Find(INDEX).Some?;
    ResemblesLeaf(stod, j.Find(CID).value, DString(CidText(step.container)));
    IndexBack(stod, trunc, j.Find(INDEX).value, step.index);
    if ReadStep(trunc, j) == Success([step]) {
      CidBack(step.container, j.Find(CID).value.s);
    }
  }

  lemma {:induction false} StepsBack(stod: Stod, trunc: Truncate, arr: seq<JsonValue>, path: seq<Step>)
    requires |arr| == |path|
    requires forall k :: 0 <= k < |path| ==>
      !path[k].container.ty.UnknownType? && Resembles(stod, arr[k], StepDoc(path[k]))
    ensures ReadSteps(trunc, arr).Success? ==> |ReadSteps(trunc, arr).value| == |path|
    ensures ReadSteps(trunc, arr) == Success(path) ==>
              forall k :: 0 <= k < |path| ==> Shows(stod, arr[k], StepDoc(path[k]))
    decreases |path|
  {
    hide Shows, StepDoc, ReadStep, Resembles;
    if path != [] {
      var n := |path| - 1;
      StepsBack(stod, trunc, arr[..n], path[..n]);
      StepBack(stod, trunc, arr[n], path[n]);
      var front, last := ReadSteps(trunc, arr[..n]), ReadStep(trunc, arr[n]);
      if ReadSteps(trunc, arr) == Success(path) {
        assert path == path[..n] + [path[n]];
        assert front.value + last.value == path;
        assert last.value == [last.value[0]];
        LastOf(front.value, last.value[0], path[..n], path[n]);
      }
    }
  }

  /**
   Any rendering of a path whose ids have known types is read as the same steps in order, none dropped,
   exactly when its root names are not empty, its seq indices are below 2^32 and the text escapes no
   surrogate pair.
   */
  lemma {:induction false} PathRoundTrip(stod: Stod, trunc: Truncate, text: bytes, path: seq<Step>)
    requires Renders(text, PathDoc(path))
    requires forall k :: 0 <= k < |path| ==> !path[k].container.ty.UnknownType?
    ensures PathItems(stod, trunc, text) == Success(path) <==>
            NoPairEscape(text) && forall k :: 0 <= k < |path| ==> Survives(path[k])
  {
    hide Survives, Parse, ReadSteps, StepDoc, NoPairEscape, Renders, AsciiNames;
    var d := PathDoc(path);
    RendersNonEmpty(text, d);
    PathReadable(stod, path);
    ParseRendered(stod, text, d);
    ParseResembles(stod, text, d);
    var j := Parse(stod, text).value;
    forall k | 0 <= k < |path|
      ensures Resembles(stod, j.arr[k], StepDoc(path[k]))
      ensures Shows(stod, j, d) ==> Shows(stod, j.arr[k], StepDoc(path[k]))
    {
      assert d.items[k] == StepDoc(path[k]);
      assert Resembles(stod, j.arr[k], d.items[k]);
    }
    StepsBack(stod, trunc, j.arr, path);
    if forall k :: 0 <= k < |path| ==> Shows(stod, j.arr[k], StepDoc(path[k])) {
      StepsRead(stod, trunc, j.arr, path);
      assert Shows(stod, j, d);
    }
  }

  lemma {:induction false} PathReadable(stod: Stod, path: seq<Step>)
    ensures DocReadable(stod, PathDoc(path)) && AsciiNames(PathDoc(path))
  {
    forall k | 0 <= k < |path|
      ensures DocReadable(stod, StepDoc(path[k])) && AsciiNames(StepDoc(path[k]))
    {
      assert DocReadable(stod, IndexDoc(path[k].index)) && AsciiNames(IndexDoc(path[k].index));
    }
  }

  // The documents and the reader by value, for every input.

  lemma {:induction false} PathDocsSpelled(step: Step)
    ensures var cid, index := [0x63, 0x69, 0x64], [0x69, 0x6E, 0x64, 0x65, 0x78];
            StepDoc(step) == DObject(map[cid := DString(CidText(step.container)), index := IndexDoc(step.index)])
    ensures match step.index
            case Key(k) => IndexDoc(step.index) == DObject(map[[0x6B, 0x65, 0x79] := DString(k)])
            case Seq(n) => IndexDoc(step.index) == DObject(map[[0x73, 0x65, 0x71] := DInt(n)])
            case Node(peer, counter) =>
              IndexDoc(step.index) ==
              DObject(map[[0x6E, 0x6F, 0x64, 0x65] :=
                            DObject(map[[0x70, 0x65, 0x65, 0x72] := DInt(peer),
                                        [0x63, 0x6F, 0x75, 0x6E, 0x74, 0x65, 0x72] := DInt(counter)])])
  {
    hide CidText;
  }

  /** A string key wins over a seq of any kind, and that over a node object; fields have defaults. */
  lemma {:induction false} IndexRules(trunc: Truncate, j: JsonValue)
    ensures var key, pos := j.Find([0x6B, 0x65, 0x79]), j.Find([0x73, 0x65, 0x71]);
            var node := j.Find([0x6E, 0x6F, 0x64, 0x65]);
            var r := ReadIndex(trunc, Some(j));
            if key.Some? && key.value.String? then r == Some(Key(key.value.s))
            else if pos.Some? then
              r.Some? && r.value.Seq? && r.value.n < 0x1_0000_0000 &&
              var n: int := match pos.value case Int(i) => i case Double(d) => trunc(d) case _ => trunc(0);
              (r.value.n - n) % 0x1_0000_0000 == 0
            else if node.Some? && node.value.Object? then
              r.Some? && r.value.Node? &&
              var peer, counter := node.value.Find([0x70, 0x65, 0x65, 0x72]),
                                   node.value.Find([0x63, 0x6F, 0x75, 0x6E, 0x74, 0x65, 0x72]);
              && (r.value.peer - FieldOr0(peer)) % 0x1_0000_0000_0000_0000 == 0
              && (r.value.counter - FieldOr0(counter)) % 0x1_0000_0000 == 0
            else r == None
    ensures ReadIndex(trunc, None) == None
  {
    hide FindIn;
  }

  function FieldOr0(j: Option<JsonValue>): int {
    match j
    case Some(Int(i)) => i
    case _ => 0
  }

  /** A step without a string cid, or without a readable index, is dropped; a bad cid throws. */
  lemma {:induction false} StepRules(trunc: Truncate, j: JsonValue)
    ensures var cid, index := j.Find([0x63, 0x69, 0x64]), j.Find([0x69, 0x6E, 0x64, 0x65, 0x78]);
            ReadStep(trunc, j) ==
            if !j.Object? || cid.None? || !cid.value.String? then Success([])
            else if ParseCid(cid.value.s).Failure? then Failure(ParseCid(cid.value.s).error)
            else if ReadIndex(trunc, index).None? then Success([])
            else Success([Step(ParseCid(cid.value.s).value, ReadIndex(trunc, index).value)])
  {
    hide FindIn, ParseCid, ReadIndex;
  }

  /** Steps are read in order. */
  lemma {:induction false} StepsInOrder(trunc: Truncate, front: seq<JsonValue>, j: JsonValue)
    ensures ReadSteps(trunc, []) == Success([])
    ensures ReadSteps(trunc, front + [j]) ==
            if ReadSteps(trunc, front).Failure? then ReadSteps(trunc, front)
            else if ReadStep(trunc, j).Failure? then ReadStep(trunc, j)
            else Success(ReadSteps(trunc, front).value + ReadStep(trunc, j).value)
  {
    hide ReadStep;
    assert (front + [j])[..|front|] == front;
  }
}
