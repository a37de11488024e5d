/**
 loro_value_map_for_each with any visitor: a callback that decides by its user data, the key and the value it
 is shown what its user data becomes and whether to go on.
 */
module Visitors {
  import opened Bytes
  import opened Outcome
  import opened LoroValues
  import opened ValueHeap
  import opened ValueAbi
  import opened ValueBridge

  type Visitor<!S> = (S, bytes, LoroValue) -> (S, bool)

  /** The user data after visits in this order, and whether the last one asked to go on. */
  function Fold<S>(visit: Visitor<S>, start: S, entries: map<bytes, LoroValue>, order: seq<bytes>): (S, bool)
    requires forall k :: 0 <= k < |order| ==> order[k] in entries
  {
    if order == [] then (start, true)
    else
      var front, last := Fold(visit, start, entries, order[..|order| - 1]), order[|order| - 1];
      if front.1 then visit(front.0, last, entries[last]) else front
  }

  /** Each key at most once, no visit behind one that refused, and all keys if none did. */
  ghost predicate Visits<S>(visit: Visitor<S>, start: S, entries: map<bytes, LoroValue>, order: seq<bytes>, end: S) {
    && (forall k :: 0 <= k < |order| ==> order[k] in entries)
    && (forall j, k :: 0 <= j < k < |order| ==> order[j] != order[k])
    && (order != [] ==> Fold(visit, start, entries, order[..|order| - 1]).1)
    && end == Fold(visit, start, entries, order).0
    && (Fold(visit, start, entries, order).1 ==> forall key :: key in entries ==> key in order)
  }

  method ForEach<S>(abi: ValueAbi, p: Option<nat>, visit: Visitor<S>, start: S)
    returns (s: Status, end: S, ghost order: seq<bytes>)
    requires abi.Ok() && (p.Some? ==> p.value in abi.cells)
    modifies abi
    ensures abi.H() == old(abi.H())
    ensures s == StatusOk <==> p.Some? && old(abi.Shown())[p.value].KMap?
    ensures s == StatusOk ==> Visits(visit, start, old(abi.Shown())[p.value].entries, order, end)
    ensures s != StatusOk ==> end == start
  {
    end, order := start, [];
    if p.None? || !abi.cells[p.value].IMap? {
      if p.Some? {
        DenKinds(abi.nodes, abi.cells[p.value]);
      }
      return StatusInvalidArg, end, order;
    }
    end, order := Loop(abi, p.value, visit, start);
    return StatusOk, end, order;
  }

  /** The loop over the entries, each in a box that lives for its visit only. */
  method Loop<S>(abi: ValueAbi, p: nat, visit: Visitor<S>, start: S) returns (end: S, ghost order: seq<bytes>)
    requires abi.Ok() && p in abi.cells && abi.cells[p].IMap?
    modifies abi
    ensures abi.H() == old(abi.H()) && old(abi.Shown())[p].KMap?
    ensures Visits(visit, start, old(abi.Shown())[p].entries, order, end)
  {
    hide View, Step, ValueStep, Valid, Within, Den, SoFar, Visits;
    ghost var h := abi.H();
    MapShown(h, p);
    ghost var entries := abi.Shown()[p].entries;
    var inner := abi.nodes[abi.cells[p].arc].entries;
    var rest, go := inner.Keys, true;
    end, order := start, [];
    NoneVisited(visit, start, entries);
    while rest != {} && go
      invariant abi.H() == h && rest <= inner.Keys
      invariant SoFar(visit, start, entries, order, rest, end, go)
      decreases |rest|
    {
      var key :| key in rest;
      EntryDen(h, p, key);
      var entry := abi.IntoRaw(inner[key]);
      EntryBox(h, p, key, entry);
      OneMore(visit, start, entries, order, rest, end, key);
      var result := visit(end, key, Den(abi.nodes, inner[key]));
      end, go := result.0, result.1;
      abi.Release(entry);
      order := order + [key];
      rest := rest - {key};
    }
    Stopped(visit, start, entries, order, rest, end, go);
  }

  lemma {:induction false} EntryDen(h: Heap, p: nat, key: bytes)
    requires Valid(h) && p in h.cells && h.cells[p].IMap? && key in h.nodes[h.cells[p].arc].entries
    ensures var x := h.nodes[h.cells[p].arc].entries[key];
            && Founded(h.nodes) && Within(x, h.nodes, |h.nodes|)
            && p in View(h) && View(h)[p].KMap? && key in View(h)[p].entries
            && View(h)[p].entries[key] == Den(h.nodes, x)
  {
    MapShown(h, p);
  }

  /** The loop's state: rest holds the keys that are still to come. */
  ghost predicate SoFar<S>(visit: Visitor<S>, start: S, entries: map<bytes, LoroValue>, order: seq<bytes>,
                           rest: set<bytes>, end: S, go: bool)
  {
    && rest <= entries.Keys && (forall key :: key in entries ==> (key in rest <==> key !in order))
    && (forall k :: 0 <= k < |order| ==> order[k] in entries)
    && (forall j, k :: 0 <= j < k < |order| ==> order[j] != order[k])
    && (order != [] ==> Fold(visit, start, entries, order[..|order| - 1]).1)
    && (end, go) == Fold(visit, start, entries, order)
  }

  lemma {:induction false} NoneVisited<S>(visit: Visitor<S>, start: S, entries: map<bytes, LoroValue>)
    ensures SoFar(visit, start, entries, [], entries.Keys, start, true)
  {
  }

  lemma {:induction false} OneMore<S>(visit: Visitor<S>, start: S, entries: map<bytes, LoroValue>, order: seq<bytes>,
                                      rest: set<bytes>, end: S, key: bytes)
    requires SoFar(visit, start, entries, order, rest, end, true) && key in rest
    ensures var r := visit(end, key, entries[key]);
            SoFar(visit, start, entries, order + [key], rest - {key}, r.0, r.1)
  {
    assert (order + [key])[..|order|] == order;
  }

  lemma {:induction false} Stopped<S>(visit: Visitor<S>, start: S, entries: map<bytes, LoroValue>, order: seq<bytes>,
                                      rest: set<bytes>, end: S, go: bool)
    requires SoFar(visit, start, entries, order, rest, end, go) && (go ==> rest == {})
    ensures Visits(visit, start, entries, order, end)
  {
  }

  // The collector of include/loro.hpp as such a visitor.

  function Collect(c: (map<bytes, LoroValue>, Option<Error>), key: bytes, v: LoroValue)
    : ((map<bytes, LoroValue>, Option<Error>), bool)
  {
    match ReadBack(v)
    case Success(read) => ((if key in c.0 then c.0 else c.0[key := read], c.1), true)
    case Failure(e) => ((c.0, Some(e)), false)
  }

  /** In any order of visits the collector ends with all entries read, or with the error that stopped it. */
  lemma {:induction false} CollectorVisits(entries: map<bytes, LoroValue>, order: seq<bytes>,
                                           end: (map<bytes, LoroValue>, Option<Error>))
    requires Visits(Collect, (map[], None), entries, order, end)
    ensures Walked(entries, end.0, end.1)
  {
    hide Walked, Named, Reread;
    CollectorFold(entries, order);
    if Fold(Collect, (map[], None), entries, order).1 {
      assert (set key | key in order) == entries.Keys;
      MapReread(entries, end.0);
      AllWalked(entries, end.0);
    }
  }

  lemma {:induction false} CollectorFold(entries: map<bytes, LoroValue>, order: seq<bytes>)
    requires forall k :: 0 <= k < |order| ==> order[k] in entries
    requires forall j, k :: 0 <= j < k < |order| ==> order[j] != order[k]
    requires order != [] ==> Fold(Collect, (map[], None), entries, order[..|order| - 1]).1
    ensures var r := Fold(Collect, (map[], None), entries, order);
            if r.1 then r.0.1 == None && Visited(entries, (set key | key in order), r.0.0)
            else Walked(entries, r.0.0, r.0.1)
    decreases |order|
  {
    hide Walked, Named, Reread, Visited;
    if order == [] {
      NothingVisited(entries);
      assert (set key | key in order) == {};
    } else {
      var front, last := order[..|order| - 1], order[|order| - 1];
      EarlierWent(entries, order);
      CollectorFold(entries, front);
      var out := Fold(Collect, (map[], None), entries, front).0.0;
      assert order == front + [last];
      WalkStep(entries, (set key | key in front), last, out);
      assert (set key | key in order) == (set key | key in front) + {last};
    }
  }

  /** A visit that was made had no refusal in front of it. */
  lemma {:induction false} EarlierWent(entries: map<bytes, LoroValue>, order: seq<bytes>)
    requires order != [] && forall k :: 0 <= k < |order| ==> order[k] in entries
    requires Fold(Collect, (map[], None), entries, order[..|order| - 1]).1
    ensures |order| > 1 ==> Fold(Collect, (map[], None), entries, order[..|order| - 1][..|order| - 2]).1
  {
  }
}
