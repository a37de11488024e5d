/**
 The memory behind loro-c-api/src/value_typed.rs: boxed values whose lists and maps are shared,
 reference-counted nodes that are never written after they are made.
 */
module ValueHeap {
  import opened Bytes
  import opened Decimal
  import opened Outcome
  import opened Json
  import opened Cid
  import opened LoroValues
  import Utf8

  /** What a box holds. Lists and maps are an Arc: the number of a shared node. */
  datatype Inner =
    | INull
    | IBool(b: bool)
    | IDouble(d: F64)
    | II64(i: I64)
    | IBinary(data: bytes)
    | IString(s: bytes)
    | IList(arc: nat)
    | IMap(arc: nat)
    | IContainer(id: ContainerId)

  datatype Node = ListNode(items: seq<Inner>) | MapNode(entries: map<bytes, Inner>)

  /** The shared nodes in the order they were made, and the live boxes by address. */
  datatype Heap = Heap(nodes: seq<Node>, cells: map<nat, Inner>)

  /** The inner value refers to one of the first n nodes, of its own kind. */
  predicate Within(x: Inner, nodes: seq<Node>, n: nat)
    requires n <= |nodes|
  {
    match x
    case IList(arc) => arc < n && nodes[arc].ListNode?
    case IMap(arc) => arc < n && nodes[arc].MapNode?
    case _ => true
  }

  /** A node refers to older nodes only. */
  predicate NodeFounded(nodes: seq<Node>, a: nat)
    requires a < |nodes|
  {
    match nodes[a]
    case ListNode(items) => forall k :: 0 <= k < |items| ==> Within(items[k], nodes, a)
    case MapNode(entries) => forall key :: key in entries ==> Within(entries[key], nodes, a)
  }

  predicate Founded(nodes: seq<Node>) {
    forall a :: 0 <= a < |nodes| ==> NodeFounded(nodes, a)
  }

  predicate Valid(h: Heap) {
    Founded(h.nodes) && forall p :: p in h.cells ==> Within(h.cells[p], h.nodes, |h.nodes|)
  }

  function Rank(x: Inner): nat {
    match x
    case IList(arc) => arc + 1
    case IMap(arc) => arc + 1
    case _ => 0
  }

  /** The value an inner value stands for. */
  function Den(nodes: seq<Node>, x: Inner): LoroValue
    requires Founded(nodes) && Within(x, nodes, |nodes|)
    decreases Rank(x), 0
  {
    match x
    case INull => KNull
    case IBool(b) => KBool(b)
    case IDouble(d) => KDouble(d)
    case II64(i) => KI64(i)
    case IBinary(data) => KBinary(data)
    case IString(s) => KString(s)
    case IContainer(id) => KContainer(id)
    case IList(arc) => KList(DenItems(nodes, arc))
    case IMap(arc) => KMap(DenEntries(nodes, arc))
  }

  function DenItems(nodes: seq<Node>, arc: nat): seq<LoroValue>
    requires Founded(nodes) && arc < |nodes| && nodes[arc].ListNode?
    decreases arc, 1
  {
    assert NodeFounded(nodes, arc);
    var items := nodes[arc].items;
    seq(|items|, k requires 0 <= k < |items| => Den(nodes, items[k]))
  }

  function DenEntries(nodes: seq<Node>, arc: nat): map<bytes, LoroValue>
    requires Founded(nodes) && arc < |nodes| && nodes[arc].MapNode?
    decreases arc, 1
  {
    assert NodeFounded(nodes, arc);
    var entries := nodes[arc].entries;
    map key | key in entries :: Den(nodes, entries[key])
  }

  lemma {:induction false} FoundedMore(nodes: seq<Node>, node: Node)
    requires Founded(nodes)
    requires match node
             case ListNode(items) => forall k :: 0 <= k < |items| ==> Within(items[k], nodes, |nodes|)
             case MapNode(entries) => forall key :: key in entries ==> Within(entries[key], nodes, |nodes|)
    ensures Founded(nodes + [node])
  {
    var more := nodes + [node];
    forall a | 0 <= a < |more|
      ensures NodeFounded(more, a)
    {
      assert a < |nodes| ==> NodeFounded(nodes, a) && more[a] == nodes[a];
    }
  }

  /** New nodes do not change what older inner values stand for. */
  lemma {:induction false} DenMore(nodes: seq<Node>, node: Node, x: Inner)
    requires Founded(nodes) && Founded(nodes + [node]) && Within(x, nodes, |nodes|)
    ensures Within(x, nodes + [node], |nodes| + 1)
    ensures Den(nodes + [node], x) == Den(nodes, x)
    decreases Rank(x)
  {
    match x
    case IList(arc) =>
      assert NodeFounded(nodes, arc) && (nodes + [node])[arc] == nodes[arc];
      forall k | 0 <= k < |nodes[arc].items|
        ensures DenItems(nodes + [node], arc)[k] == DenItems(nodes, arc)[k]
      {
        DenMore(nodes, node, nodes[arc].items[k]);
      }
      assert DenItems(nodes + [node], arc) == DenItems(nodes, arc);
    case IMap(arc) =>
      assert NodeFounded(nodes, arc) && (nodes + [node])[arc] == nodes[arc];
      forall key | key in nodes[arc].entries
        ensures DenEntries(nodes + [node], arc)[key] == DenEntries(nodes, arc)[key]
      {
        DenMore(nodes, node, nodes[arc].entries[key]);
      }
      assert DenEntries(nodes + [node], arc) == DenEntries(nodes, arc);
    case _ =>
  }

  /** What each live box shows. */
  function View(h: Heap): map<nat, LoroValue>
    requires Valid(h)
  {
    map p | p in h.cells :: Den(h.nodes, h.cells[p])
  }

  // The C functions, each with its effect on the heap and on what the boxes show.

  datatype Op =
    | New(at: nat, scalar: Inner)
    | NewList(at: nat)
    | NewMap(at: nat)
    | Push(list: nat, child: nat)
    | Insert(dict: nat, key: bytes, child: nat)
    | GetItem(list: nat, index: nat, at: nat)
    | GetEntry(dict: nat, key: bytes, at: nat)
    | Free(box: nat)

  /** The caller's side: live boxes where one is read, an unused address where one is made. */
  predicate Callable(cells: set<nat>, op: Op) {
    match op
    case New(at, scalar) => at !in cells && !scalar.IList? && !scalar.IMap?
    case NewList(at) => at !in cells
    case NewMap(at) => at !in cells
    case Push(list, child) => list in cells && child in cells
    case Insert(dict, _, child) => dict in cells && child in cells
    case GetItem(list, _, at) => list in cells && at !in cells
    case GetEntry(dict, _, at) => dict in cells && at !in cells
    case Free(box) => box in cells
  }

  /** A scalar constructor makes a box unless it is given a string that is no UTF-8. */
  predicate Makes(scalar: Inner) {
    scalar.IString? ==> Utf8.WellFormed(scalar.s)
  }

  function Boxed(h: Heap, at: nat, x: Inner): Heap {
    h.(cells := h.cells[at := x])
  }

  /** A call that fails leaves the heap as it is and makes no box. */
  function Step(h: Heap, op: Op): Heap
    requires Valid(h) && Callable(h.cells.Keys, op)
  {
    match op
    case New(at, scalar) => if Makes(scalar) then Boxed(h, at, scalar) else h
    case NewList(at) => Boxed(Heap(h.nodes + [ListNode([])], h.cells), at, IList(|h.nodes|))
    case NewMap(at) => Boxed(Heap(h.nodes + [MapNode(map[])], h.cells), at, IMap(|h.nodes|))
    case Push(list, child) =>
      if h.cells[list].IList? then
        var items := h.nodes[h.cells[list].arc].items + [h.cells[child]];
        Boxed(Heap(h.nodes + [ListNode(items)], h.cells), list, IList(|h.nodes|))
      else h
    case Insert(dict, key, child) =>
      if Utf8.WellFormed(key) && h.cells[dict].IMap? then
        var entries := h.nodes[h.cells[dict].arc].entries[key := h.cells[child]];
        Boxed(Heap(h.nodes + [MapNode(entries)], h.cells), dict, IMap(|h.nodes|))
      else h
    case GetItem(list, index, at) =>
      if h.cells[list].IList? && index < |h.nodes[h.cells[list].arc].items| then
        Boxed(h, at, h.nodes[h.cells[list].arc].items[index])
      else h
    case GetEntry(dict, key, at) =>
      if Utf8.WellFormed(key) && h.cells[dict].IMap? && key in h.nodes[h.cells[dict].arc].entries then
        Boxed(h, at, h.nodes[h.cells[dict].arc].entries[key])
      else h
    case Free(box) => h.(cells := h.cells - {box})
  }

  /** The same call on boxes that each own a value of their own: no node, nothing shared. */
  function ValueStep(view: map<nat, LoroValue>, op: Op): map<nat, LoroValue>
    requires Callable(view.Keys, op)
  {
    match op
    case New(at, scalar) => if Makes(scalar) then view[at := Den([], scalar)] else view
    case NewList(at) => view[at := KList([])]
    case NewMap(at) => view[at := KMap(map[])]
    case Push(list, child) =>
      if view[list].KList? then view[list := KList(view[list].items + [view[child]])] else view
    case Insert(dict, key, child) =>
      if Utf8.WellFormed(key) && view[dict].KMap? then
        view[dict := KMap(view[dict].entries[key := view[child]])]
      else view
    case GetItem(list, index, at) =>
      if view[list].KList? && index < |view[list].items| then view[at := view[list].items[index]] else view
    case GetEntry(dict, key, at) =>
      if Utf8.WellFormed(key) && view[dict].KMap? && key in view[dict].entries then
        view[at := view[dict].entries[key]]
      else view
    case Free(box) => view - {box}
  }

  lemma {:induction false} DenKinds(nodes: seq<Node>, x: Inner)
    requires Founded(nodes) && Within(x, nodes, |nodes|)
    ensures Den(nodes, x).KList? <==> x.IList?
    ensures Den(nodes, x).KMap? <==> x.IMap?
  {
  }

  /** A new node and a box that holds it: every other box shows what it showed. */
  lemma {:induction false} BoxedNode(h: Heap, at: nat, node: Node, x: Inner)
    requires Valid(h) && Founded(h.nodes + [node]) && Within(x, h.nodes + [node], |h.nodes| + 1)
    ensures var h' := Boxed(Heap(h.nodes + [node], h.cells), at, x);
            Valid(h') && View(h') == View(h)[at := Den(h.nodes + [node], x)]
  {
    hide Den;
    var h' := Boxed(Heap(h.nodes + [node], h.cells), at, x);
    forall p | p in h.cells
      ensures Within(h.cells[p], h'.nodes, |h'.nodes|) && Den(h'.nodes, h.cells[p]) == Den(h.nodes, h.cells[p])
    {
      DenMore(h.nodes, node, h.cells[p]);
    }
    assert View(h').Keys == View(h)[at := Den(h'.nodes, x)].Keys;
  }

  lemma {:induction false} BoxedInner(h: Heap, at: nat, x: Inner)
    requires Valid(h) && Within(x, h.nodes, |h.nodes|)
    ensures Valid(Boxed(h, at, x)) && View(Boxed(h, at, x)) == View(h)[at := Den(h.nodes, x)]
  {
    hide Den;
    assert View(Boxed(h, at, x)).Keys == View(h)[at := Den(h.nodes, x)].Keys;
  }

  /** Sharing is invisible: each call changes what the boxes show exactly as it would unshared values. */
  lemma {:induction false} StepRefines(h: Heap, op: Op)
    requires Valid(h) && Callable(h.cells.Keys, op)
    ensures Valid(Step(h, op)) && View(h).Keys == h.cells.Keys
    ensures View(Step(h, op)) == ValueStep(View(h), op)
  {
    assert View(h).Keys == h.cells.Keys;
    match op
    case New(at, scalar) => BoxedInner(h, at, scalar);
    case NewList(at) =>
      FoundedMore(h.nodes, ListNode([]));
      BoxedNode(h, at, ListNode([]), IList(|h.nodes|));
      assert DenItems(h.nodes + [ListNode([])], |h.nodes|) == [];
    case NewMap(at) =>
      FoundedMore(h.nodes, MapNode(map[]));
      BoxedNode(h, at, MapNode(map[]), IMap(|h.nodes|));
      assert DenEntries(h.nodes + [MapNode(map[])], |h.nodes|) == map[];
    case Push(list, child) => PushRefines(h, list, child);
    case Insert(dict, key, child) => InsertRefines(h, dict, key, child);
    case GetItem(list, index, at) =>
      DenKinds(h.nodes, h.cells[list]);
      if h.cells[list].IList? {
        var arc := h.cells[list].arc;
        assert NodeFounded(h.nodes, arc);
        if index < |h.nodes[arc].items| {
          BoxedInner(h, at, h.nodes[arc].items[index]);
        }
      }
    case GetEntry(dict, key, at) =>
      DenKinds(h.nodes, h.cells[dict]);
      if h.cells[dict].IMap? {
        var arc := h.cells[dict].arc;
        assert NodeFounded(h.nodes, arc);
        if key in h.nodes[arc].entries {
          BoxedInner(h, at, h.nodes[arc].entries[key]);
        }
      }
    case Free(box) =>
      assert View(Step(h, op)) == View(h) - {box};
  }

  lemma {:induction false} PushRefines(h: Heap, list: nat, child: nat)
    requires Valid(h) && list in h.cells && child in h.cells
    ensures Valid(Step(h, Push(list, child))) && View(h).Keys == h.cells.Keys
    ensures View(Step(h, Push(list, child))) == ValueStep(View(h), Push(list, child))
  {
    assert View(h).Keys == h.cells.Keys;
    DenKinds(h.nodes, h.cells[list]);
    if h.cells[list].IList? {
      var arc := h.cells[list].arc;
      assert NodeFounded(h.nodes, arc);
      var had, node := h.nodes[arc].items, ListNode(h.nodes[arc].items + [h.cells[child]]);
      forall k | 0 <= k < |node.items|
        ensures Within(node.items[k], h.nodes, |h.nodes|)
      {
        assert k < |had| ==> Within(had[k], h.nodes, arc);
      }
      FoundedMore(h.nodes, node);
      BoxedNode(h, list, node, IList(|h.nodes|));
      var items := DenItems(h.nodes + [node], |h.nodes|);
      forall k | 0 <= k < |items|
        ensures items[k] == (DenItems(h.nodes, arc) + [Den(h.nodes, h.cells[child])])[k]
      {
        DenMore(h.nodes, node, node.items[k]);
      }
      assert items == DenItems(h.nodes, arc) + [Den(h.nodes, h.cells[child])];
    }
  }

  lemma {:induction false} InsertRefines(h: Heap, dict: nat, key: bytes, child: nat)
    requires Valid(h) && dict in h.cells && child in h.cells
    ensures Valid(Step(h, Insert(dict, key, child))) && View(h).Keys == h.cells.Keys
    ensures View(Step(h, Insert(dict, key, child))) == ValueStep(View(h), Insert(dict, key, child))
  {
    assert View(h).Keys == h.cells.Keys;
    DenKinds(h.nodes, h.cells[dict]);
    if Utf8.WellFormed(key) && h.cells[dict].IMap? {
      var arc := h.cells[dict].arc;
      assert NodeFounded(h.nodes, arc);
      var had, node := h.nodes[arc].entries, MapNode(h.nodes[arc].entries[key := h.cells[child]]);
      forall other | other in node.entries
        ensures Within(node.entries[other], h.nodes, |h.nodes|)
      {
        assert other != key ==> Within(had[other], h.nodes, arc);
      }
      FoundedMore(h.nodes, node);
      BoxedNode(h, dict, node, IMap(|h.nodes|));
      var entries := DenEntries(h.nodes + [node], |h.nodes|);
      var expected := DenEntries(h.nodes, arc)[key := Den(h.nodes, h.cells[child])];
      forall other | other in node.entries
        ensures other in expected && entries[other] == expected[other]
      {
        DenMore(h.nodes, node, node.entries[other]);
      }
      assert entries.Keys == expected.Keys;
      assert entries == expected;
    }
  }

  /** A sequence of calls, each with live boxes where it reads and an unused address where it makes one. */
  predicate Run(view: map<nat, LoroValue>, ops: seq<Op>, end: map<nat, LoroValue>)
    decreases |ops|
  {
    if ops == [] then end == view
    else Callable(view.Keys, ops[0]) && Run(ValueStep(view, ops[0]), ops[1..], end)
  }

  predicate HeapRun(h: Heap, ops: seq<Op>, end: Heap)
    requires Valid(h)
    decreases |ops|
  {
    if ops == [] then end == h
    else
      Callable(h.cells.Keys, ops[0]) &&
      (StepRefines(h, ops[0]); HeapRun(Step(h, ops[0]), ops[1..], end))
  }

  /** Over every sequence of calls the shared heap shows exactly what unshared values would. */
  lemma {:induction false} RunRefines(h: Heap, ops: seq<Op>, end: Heap)
    requires Valid(h) && HeapRun(h, ops, end)
    ensures Valid(end) && Run(View(h), ops, View(end))
    decreases |ops|
  {
    if ops != [] {
      StepRefines(h, ops[0]);
      RunRefines(Step(h, ops[0]), ops[1..], end);
    }
  }

  /** A call on one box leaves what every other box shows unchanged, however much they share. */
  lemma {:induction false} OthersUnchanged(h: Heap, op: Op, other: nat)
    requires Valid(h) && Callable(h.cells.Keys, op) && other in h.cells
    requires match op
             case Push(list, _) => other != list
             case Insert(dict, _, _) => other != dict
             case Free(box) => other != box
             case _ => true
    ensures Valid(Step(h, op)) && other in Step(h, op).cells
    ensures View(Step(h, op))[other] == View(h)[other]
  {
    StepRefines(h, op);
    assert other in View(h);
    assert other in View(Step(h, op));
  }
}
