/**
 Two laws over runs: everything can be destroyed, in any order; and what was obtained from a document keeps
 its state.
 */
module Lifetimes {
  import opened Outcome
  import opened Ownership
  import opened Effects

  // Destroying everything.

  function Destroys(ids: seq<nat>): seq<Call> {
    seq(|ids|, k requires 0 <= k < |ids| => Destroy(ids[k]))
  }

  /**
   From any world with true books, destroying each live wrapper once, in any order, succeeds and leaves no
   wrapper, and of the handles only those that were lost; if none was lost, every state is released.
   */
  lemma {:induction false} DestroyAll(w: World, ids: seq<nat>) returns (end: World)
    requires Ledger(w) && (set id | id in ids) == w.wrappers.Keys
    requires forall j, k :: 0 <= j < k < |ids| ==> ids[j] != ids[k]
    ensures Leads(w, Destroys(ids), end)
    ensures end.wrappers == map[] && end.handles.Keys == w.lost
    ensures w.lost == {} ==> end.handles == map[] && end.owners == map[]
    decreases |ids|
  {
    hide Run, Books;
    if ids == [] {
      end := w;
      NothingHeld(w);
    } else {
      var id, rest := ids[0], ids[1..];
      assert id in w.wrappers;
      RunBooks(w, Destroy(id));
      DestroyEffect(w, id);
      var w1 := Run(w, Destroy(id)).value;
      assert (set other | other in rest) == w1.wrappers.Keys by {
        assert forall other :: other in ids <==> other == id || other in rest;
      }
      end := DestroyAll(w1, rest);
      assert Destroys(ids) == [Destroy(id)] + Destroys(rest);
      LeadsFirst(w, Destroy(id), Destroys(rest), end);
    }
  }

  lemma {:induction false} NothingHeld(w: World)
    requires Ledger(w) && w.wrappers.Keys == {}
    ensures w.wrappers == map[] && w.handles.Keys == w.lost
    ensures w.lost == {} ==> w.handles == map[] && w.owners == map[]
  {
    assert AllHeld(w.wrappers) == {};
    if w.lost == {} {
      assert w.handles.Keys == {};
      forall s
        ensures s !in w.owners
      {
        assert OwnersOf(w.handles, s) == {};
      }
      assert w.owners.Keys == {};
    }
  }

  /** The same after any run from nothing: without a bad key nothing is left behind. */
  lemma {:induction false} RunsCanEnd(calls: seq<Call>, w: World, ids: seq<nat>) returns (end: World)
    requires Leads(Empty, calls, w) && (set id | id in ids) == w.wrappers.Keys
    requires forall j, k :: 0 <= j < k < |ids| ==> ids[j] != ids[k]
    ensures Leads(w, Destroys(ids), end) && end.wrappers == map[]
    ensures end.handles == map[] && end.owners == map[] <==> !SomeBadTake(Empty, calls)
  {
    hide Run, Books;
    EmptyLedger();
    LeadsBooks(Empty, calls, w);
    end := DestroyAll(w, ids);
    assert Empty.lost == {};
  }

  // What was obtained from a document.

  /** The object through which a call reaches the library for what it returns. */
  function Source(c: Call): Option<nat> {
    match c
    case DocGet(doc, _, _) => Some(doc)
    case Insert(parent, _, _, _) => Some(parent)
    case GetOrCreate(parent, _, _, _, _) => Some(parent)
    case Get(parent, _, _) => Some(parent)
    case AsContainer(voc, _) => Some(voc)
    case _ => None
  }

  /** The wrappers a call returns. */
  function Returned(w: World, c: Call): set<nat>
    requires Callable(w, c) && Run(w, c).Fine?
  {
    Run(w, c).value.wrappers.Keys - w.wrappers.Keys
  }

  function WithReturned(w: World, c: Call, from: set<nat>): set<nat>
    requires Callable(w, c) && Run(w, c).Fine?
  {
    from + if Source(c).Some? && Source(c).value in from then Returned(w, c) else {}
  }

  /** The wrappers from, and all that the run obtains through them, through these, and so on. */
  function Obtained(w: World, calls: seq<Call>, from: set<nat>): set<nat>
    decreases |calls|
  {
    if calls == [] || !Callable(w, calls[0]) || !Run(w, calls[0]).Fine? then from
    else Obtained(Run(w, calls[0]).value, calls[1..], WithReturned(w, calls[0], from))
  }

  /** If the wrapper is alive, its handle owns the state s, or shows a plain value. */
  predicate KeepsState(w: World, id: nat, s: nat) {
    id in w.wrappers ==>
      w.wrappers[id].raw in w.handles &&
      var h := w.handles[w.wrappers[id].raw];
      h.VocValue? || StateOf(h) == Some(s)
  }

  predicate AllKeep(w: World, from: set<nat>, s: nat) {
    forall id :: id in from ==> id < w.next && KeepsState(w, id, s)
  }

  /** A wrapper that survives a call has the handle it had. */
  predicate SameHandles(w: World, w': World) {
    && w.next <= w'.next
    && forall id :: id in w.wrappers && id in w'.wrappers ==>
         && w'.wrappers[id].raw == w.wrappers[id].raw
         && w.wrappers[id].raw in w.handles && w.wrappers[id].raw in w'.handles
         && w'.handles[w.wrappers[id].raw] == w.handles[w.wrappers[id].raw]
  }

  /** The wrappers that are new in w' keep the state s. */
  predicate NewKeep(w: World, w': World, s: nat) {
    forall id :: id in w'.wrappers && id !in w.wrappers ==> id < w'.next && KeepsState(w', id, s)
  }

  lemma {:induction false} CallKeeps(w: World, c: Call, from: set<nat>, s: nat)
    requires Ledger(w) && Callable(w, c) && Run(w, c).Fine? && AllKeep(w, from, s)
    ensures AllKeep(Run(w, c).value, WithReturned(w, c, from), s)
  {
    hide Run, Books, Callable, KeepsState;
    RunBooks(w, c);
    CallSameHandles(w, c);
    if Source(c).Some? && Source(c).value in from {
      SourceLives(w, c);
      CallReturns(w, c, s);
    }
    var w' := Run(w, c).value;
    forall id | id in from
      ensures id < w'.next && KeepsState(w', id, s)
    {
      if id in w'.wrappers && id !in w.wrappers {
        NewNumbers(w, c, id);
      }
      StillKeeps(w, w', id, s);
    }
  }

  lemma {:induction false} SourceLives(w: World, c: Call)
    requires Callable(w, c) && Source(c).Some?
    ensures Source(c).value in w.wrappers
  {
  }

  lemma {:induction false} StillKeeps(w: World, w': World, id: nat, s: nat)
    requires SameHandles(w, w') && KeepsState(w, id, s) && (id in w'.wrappers ==> id in w.wrappers)
    ensures KeepsState(w', id, s)
  {
  }

  /** A number that was given out never comes back. */
  lemma {:induction false} NewNumbers(w: World, c: Call, id: nat)
    requires Ledger(w) && Callable(w, c) && Run(w, c).Fine? && id !in w.wrappers && id in Run(w, c).value.wrappers
    ensures id >= w.next
  {
    hide Books, FieldsLive;
    Effect(w, c);
  }

  /** Every call in one: wrappers are dropped, or their container field nulled, and one may be new. */
  lemma {:induction false} Effect(w: World, c: Call)
    requires Ledger(w) && Callable(w, c) && Run(w, c).Fine?
    ensures forall id :: id in Run(w, c).value.wrappers ==>
              id >= w.next || (id in w.wrappers && Run(w, c).value.wrappers[id].raw == w.wrappers[id].raw)
  {
    hide Books, Run, InsertContainer;
    match c
    case NewDoc => NewDocEffect(w);
    case Init(kind) => InitEffect(w, kind);
    case DocGet(doc, kind, resolves) => DocGetEffect(w, doc, kind, resolves);
    case Insert(parent, keyOk, child, accepted) =>
      InsertIsRun(w, parent, keyOk, child, accepted);
      InsertEffect(w, parent, keyOk, child, accepted);
    case GetOrCreate(parent, keyOk, child, found, accepted) =>
      GetOrCreateEffect(w, parent, keyOk, child, found, accepted);
      InsertEffect(w, parent, keyOk, child, accepted);
    case Get(parent, keyOk, found) => GetEffect(w, parent, keyOk, found);
    case AsContainer(voc, kind) => AsContainerEffect(w, voc, kind);
    case AsValue(voc) => AsValueEffect(w, voc);
    case Destroy(id) => DestroyEffect(w, id);
  }

  lemma {:induction false} InsertIsRun(w: World, parent: nat, keyOk: bool, child: nat, accepted: bool)
    requires Callable(w, Insert(parent, keyOk, child, accepted))
    ensures Run(w, Insert(parent, keyOk, child, accepted)) == InsertContainer(w, parent, keyOk, child, accepted)
  {
    hide InsertContainer;
  }

  lemma {:induction false} CallSameHandles(w: World, c: Call)
    requires Ledger(w) && Callable(w, c) && Run(w, c).Fine?
    ensures SameHandles(w, Run(w, c).value)
  {
    RunBooks(w, c);
    RunKeeps(w, c);
    Effect(w, c);
    hide Run, Callable, FieldsLive;
    var w' := Run(w, c).value;
    forall id | id in w.wrappers && id in w'.wrappers
      ensures w'.wrappers[id].raw == w.wrappers[id].raw
      ensures w.wrappers[id].raw in w.handles && w.wrappers[id].raw in w'.handles
      ensures w'.handles[w.wrappers[id].raw] == w.handles[w.wrappers[id].raw]
    {
      HeldLive(w, id);
      HeldLive(w', id);
    }
  }

  lemma {:induction false} HeldLive(w: World, id: nat)
    requires Ledger(w) && id in w.wrappers
    ensures id < w.next && w.wrappers[id].raw in w.handles && w.wrappers[id].raw < w.next
  {
  }

  /** What a call returns keeps the state of the object it was reached through. */
  lemma {:induction false} CallReturns(w: World, c: Call, s: nat)
    requires Ledger(w) && Callable(w, c) && Run(w, c).Fine?
    requires Source(c).Some? && Source(c).value in w.wrappers && KeepsState(w, Source(c).value, s)
    ensures NewKeep(w, Run(w, c).value, s)
  {
    RunBooks(w, c);
    CallReturnsNew(w, c, s);
    hide Run, Callable, FieldsLive;
    var w' := Run(w, c).value;
    forall id | id in w'.wrappers && id !in w.wrappers
      ensures id < w'.next && KeepsState(w', id, s)
    {
      HeldLive(w', id);
    }
  }

  lemma {:induction false} CallReturnsNew(w: World, c: Call, s: nat)
    requires Ledger(w) && Callable(w, c) && Run(w, c).Fine?
    requires Source(c).Some? && Source(c).value in w.wrappers && KeepsState(w, Source(c).value, s)
    ensures forall id :: id in Run(w, c).value.wrappers && id !in w.wrappers ==> KeepsState(Run(w, c).value, id, s)
  {
    hide Books, Run, InsertContainer, FieldsLive;
    match c
    case DocGet(doc, kind, resolves) => DocGetEffect(w, doc, kind, resolves);
    case Insert(parent, keyOk, child, accepted) =>
      InsertIsRun(w, parent, keyOk, child, accepted);
      InsertEffect(w, parent, keyOk, child, accepted);
    case GetOrCreate(parent, keyOk, child, found, accepted) =>
      GetOrCreateEffect(w, parent, keyOk, child, found, accepted);
      InsertEffect(w, parent, keyOk, child, accepted);
    case Get(parent, keyOk, found) => GetEffect(w, parent, keyOk, found);
    case AsContainer(voc, kind) => AsContainerEffect(w, voc, kind);
  }

  lemma {:induction false} ObtainedKeep(w: World, calls: seq<Call>, end: World, from: set<nat>, s: nat)
    requires Ledger(w) && Leads(w, calls, end) && AllKeep(w, from, s)
    ensures Ledger(end) && AllKeep(end, Obtained(w, calls, from), s)
    decreases |calls|
  {
    hide Run, Books, Callable;
    if calls != [] {
      RunBooks(w, calls[0]);
      CallKeeps(w, calls[0], from, s);
      ObtainedKeep(Run(w, calls[0]).value, calls[1..], end, WithReturned(w, calls[0], from), s);
    }
  }

  /**
   As long as anything obtained from a document lives, in any later world of any run, it owns the document's
   state, and the state is not released; only wrappers of plain values own none.
   */
  lemma {:induction false} DocumentStateLives(before: seq<Call>, w: World, doc: nat, after: seq<Call>,
                                              end: World, id: nat)
    requires Leads(Empty, before, w) && doc in w.wrappers && w.wrappers[doc].DocWrapper?
    requires Leads(w, after, end) && id in Obtained(w, after, {doc}) && id in end.wrappers
    ensures w.wrappers[doc].raw in w.handles && w.handles[w.wrappers[doc].raw].DocHandle?
    ensures end.wrappers[id].raw in end.handles
    ensures var s, h := w.handles[w.wrappers[doc].raw].state, end.handles[end.wrappers[id].raw];
            h.VocValue? || (StateOf(h) == Some(s) && s in end.owners)
  {
    hide Run, Books, Callable, Leads, Obtained;
    EmptyLedger();
    LeadsBooks(Empty, before, w);
    FieldsOf(w, {}, doc);
    HeldLive(w, doc);
    var s := w.handles[w.wrappers[doc].raw].state;
    ObtainedKeep(w, after, end, {doc}, s);
    var p := end.wrappers[id].raw;
    if StateOf(end.handles[p]).Some? {
      StateKnown(end, {}, p);
    }
  }
}
