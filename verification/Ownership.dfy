/**
 Who owns which handle: the C++ wrappers of include/loro.hpp over the boxed handles of loro-c-api.
 A call is made of C steps; a step that touches a handle that is not live is a fault. The library's
 answers are part of the call, so every answer is covered.
 */
module Ownership {
  import opened Outcome

  datatype Kind = TextKind | MapKind | ListKind | MovableListKind | TreeKind | CounterKind | UnknownKind

  /** A box the C side handed out. A state is a document's, or a detached container's own. */
  datatype Handle =
    | DocHandle(state: nat)
    | Typed(kind: Kind, state: nat)
    | Erased(kind: Kind, state: nat)
    | VocValue
    | VocContainer(kind: Kind, state: nat)
    | ValueBox

  /** The state a handle keeps alive. */
  function StateOf(h: Handle): Option<nat> {
    match h
    case DocHandle(s) => Some(s)
    case Typed(_, s) => Some(s)
    case Erased(_, s) => Some(s)
    case VocContainer(_, s) => Some(s)
    case VocValue => None
    case ValueBox => None
  }

  /** A live C++ object and its handle fields. */
  datatype Wrapper =
    | DocWrapper(raw: nat)
    | ContainerWrapper(kind: Kind, raw: nat, container: Option<nat>)
    | VocWrapper(raw: nat)

  function Held(w: Wrapper): set<nat> {
    {w.raw} + if w.ContainerWrapper? && w.container.Some? then {w.container.value} else {}
  }

  /**
   The live handles, the strong count of every state that is alive, and the live wrappers. Lost collects
   the handles that an insert under a bad key dropped: a record, read by no step.
   */
  datatype World = World(handles: map<nat, Handle>, owners: map<nat, nat>, wrappers: map<nat, Wrapper>,
                         lost: set<nat>, next: nat)

  /** The state a live wrapper's handle keeps alive. */
  function StateUnder(w: World, id: nat): Option<nat> {
    if id in w.wrappers && w.wrappers[id].raw in w.handles then StateOf(w.handles[w.wrappers[id].raw]) else None
  }

  const Empty := World(map[], map[], map[], {}, 0)

  // C steps.

  datatype Checked<+T> = Fine(value: T) | Fault {
    predicate IsFailure() {
      Fault?
    }

    function PropagateFailure<U>(): Checked<U>
      requires Fault?
    {
      Fault
    }

    function Extract(): T
      requires Fine?
    {
      value
    }
  }

  function Joined(owners: map<nat, nat>, s: Option<nat>): map<nat, nat> {
    if s.None? then owners
    else owners[s.value := if s.value in owners then owners[s.value] + 1 else 1]
  }

  /** One owner less; the last one releases the state. */
  function Left(owners: map<nat, nat>, s: Option<nat>): map<nat, nat> {
    if s.None? || s.value !in owners then owners
    else if owners[s.value] <= 1 then owners - {s.value}
    else owners[s.value := owners[s.value] - 1]
  }

  /** Box::into_raw */
  function Boxed(w: World, h: Handle): World {
    w.(handles := w.handles[w.next := h], owners := Joined(w.owners, StateOf(h)), next := w.next + 1)
  }

  /** Box::from_raw and drop: a *_free function, or an argument that a call consumes. */
  function Dropped(w: World, p: nat): Checked<World> {
    if p !in w.handles then Fault
    else Fine(w.(handles := w.handles - {p}, owners := Left(w.owners, StateOf(w.handles[p]))))
  }

  // Reading through a handle: it must be live and of the type the callee casts it to.

  function DerefDoc(w: World, p: nat): Checked<nat> {
    if p in w.handles && w.handles[p].DocHandle? then Fine(w.handles[p].state) else Fault
  }

  function DerefTyped(w: World, p: nat): Checked<Handle> {
    if p in w.handles && w.handles[p].Typed? then Fine(w.handles[p]) else Fault
  }

  function DerefErased(w: World, p: nat): Checked<Handle> {
    if p in w.handles && w.handles[p].Erased? then Fine(w.handles[p]) else Fault
  }

  function DerefVoc(w: World, p: nat): Checked<Handle> {
    if p in w.handles && (w.handles[p].VocContainer? || w.handles[p].VocValue?) then Fine(w.handles[p]) else Fault
  }

  // C++ calls.

  /** What the library finds under a key. */
  datatype Found = Absent | PlainValue | Child(kind: Kind)

  datatype Call =
    | NewDoc
    | Init(kind: Kind)
    | DocGet(doc: nat, kind: Kind, resolves: bool)
    | Insert(parent: nat, keyOk: bool, child: nat, accepted: bool)
    | GetOrCreate(parent: nat, keyOk: bool, child: nat, found: Found, accepted: bool)
    | Get(parent: nat, keyOk: bool, found: Found)
    | AsContainer(voc: nat, kind: Kind)
    | AsValue(voc: nat)
    | Destroy(wrapper: nat)

  /** The objects a call names are alive and of the right class. */
  predicate Callable(w: World, c: Call) {
    match c
    case NewDoc => true
    case Init(kind) => !kind.UnknownKind?
    case DocGet(doc, kind, _) => doc in w.wrappers && w.wrappers[doc].DocWrapper?
    case Insert(parent, _, child, _) => IsContainer(w, parent) && IsContainer(w, child)
    case GetOrCreate(parent, _, child, _, _) => IsContainer(w, parent) && IsContainer(w, child)
    case Get(parent, _, _) => IsContainer(w, parent)
    case AsContainer(voc, _) => voc in w.wrappers && w.wrappers[voc].VocWrapper?
    case AsValue(voc) => voc in w.wrappers && w.wrappers[voc].VocWrapper?
    case Destroy(wrapper) => wrapper in w.wrappers
  }

  predicate IsContainer(w: World, id: nat) {
    id in w.wrappers && w.wrappers[id].ContainerWrapper?
  }

  function Wrapped(w: World, wrapper: Wrapper): World {
    w.(wrappers := w.wrappers[w.next := wrapper], next := w.next + 1)
  }

  /** Factory::adopt: a typed handle if the kind is right, and the erased handle freed either way. */
  function Adopt(w: World, kind: Kind, attached: nat): Checked<World> {
    var h :- DerefErased(w, attached);
    if h.kind == kind then
      var w1 :- Dropped(Boxed(w, Typed(kind, h.state)), attached);
      Fine(Wrapped(w1, ContainerWrapper(kind, w.next, None)))
    else
      Dropped(w, attached)
  }

  /** insert_container_by_key: the child's erased handle is taken from its wrapper, then consumed. */
  function InsertContainer(w: World, parent: nat, keyOk: bool, child: nat, accepted: bool): Checked<World>
    requires IsContainer(w, parent) && IsContainer(w, child)
  {
    var c := w.wrappers[child];
    if c.container.None? then Fine(w)
    else
      var taken := c.container.value;
      var w1 := w.(wrappers := w.wrappers[child := c.(container := None)]);
      var target :- DerefTyped(w1, w1.wrappers[parent].raw);
      if !keyOk then Fine(w1.(lost := w1.lost + {taken}))
      else
        var h :- DerefErased(w1, taken);
        var w2 :- Dropped(w1, taken);
        if accepted then Adopt(Boxed(w2, Erased(h.kind, target.state)), c.kind, w2.next) else Fine(w2)
  }

  function Run(w: World, c: Call): Checked<World>
    requires Callable(w, c)
  {
    match c
    case NewDoc => Fine(Wrapped(Boxed(w, DocHandle(w.next)), DocWrapper(w.next)))
    case Init(kind) =>
      var w1 := Boxed(w, Erased(kind, w.next));
      var h :- DerefErased(w1, w.next);
      Fine(Wrapped(Boxed(w1, Typed(h.kind, h.state)), ContainerWrapper(kind, w1.next, Some(w.next))))
    case DocGet(doc, kind, resolves) =>
      var state :- DerefDoc(w, w.wrappers[doc].raw);
      if resolves then Fine(Wrapped(Boxed(w, Typed(kind, state)), ContainerWrapper(kind, w.next, None))) else Fine(w)
    case Insert(parent, keyOk, child, accepted) => InsertContainer(w, parent, keyOk, child, accepted)
    case GetOrCreate(parent, keyOk, child, found, accepted) =>
      var h :- DerefTyped(w, w.wrappers[parent].raw);
      if keyOk && found.Child? then Adopt(Boxed(w, Erased(found.kind, h.state)), w.wrappers[child].kind, w.next)
      else InsertContainer(w, parent, keyOk, child, accepted)
    case Get(parent, keyOk, found) =>
      var h :- DerefTyped(w, w.wrappers[parent].raw);
      if !keyOk || found.Absent? then Fine(w)
      else
        var voc := if found.Child? then VocContainer(found.kind, h.state) else VocValue;
        Fine(Wrapped(Boxed(w, voc), VocWrapper(w.next)))
    case AsContainer(voc, kind) =>
      var h :- DerefVoc(w, w.wrappers[voc].raw);
      if h.VocContainer? then Adopt(Boxed(w, Erased(h.kind, h.state)), kind, w.next) else Fine(w)
    case AsValue(voc) =>
      var h :- DerefVoc(w, w.wrappers[voc].raw);
      if h.VocValue? then Dropped(Boxed(w, ValueBox), w.next) else Fine(w)
    case Destroy(wrapper) =>
      var o := w.wrappers[wrapper];
      var w1 :- Dropped(w.(wrappers := w.wrappers - {wrapper}), o.raw);
      if o.ContainerWrapper? && o.container.Some? then Dropped(w1, o.container.value) else Fine(w1)
  }

  // The ledger.

  function OwnersOf(handles: map<nat, Handle>, s: nat): set<nat> {
    set p | p in handles && StateOf(handles[p]) == Some(s)
  }

  /** Every state alive has its count of owning handles, and a state without owners is gone. */
  predicate Counted(handles: map<nat, Handle>, owners: map<nat, nat>) {
    && (forall s :: s in owners ==> owners[s] == |OwnersOf(handles, s)| && owners[s] > 0)
    && forall p :: p in handles && StateOf(handles[p]).Some? ==> StateOf(handles[p]).value in owners
  }

  function AllHeld(wrappers: map<nat, Wrapper>): set<nat> {
    set id, p | id in wrappers && p in Held(wrappers[id]) :: p
  }

  /** A wrapper's fields are live handles of its kind. */
  predicate FieldsLive(handles: map<nat, Handle>, o: Wrapper) {
    && o.raw in handles
    && match o
       case DocWrapper(raw) => handles[raw].DocHandle?
       case VocWrapper(raw) => handles[raw].VocContainer? || handles[raw].VocValue?
       case ContainerWrapper(kind, raw, container) =>
         && handles[raw].Typed? && handles[raw].kind == kind
         && (container.Some? ==>
               container.value in handles && container.value != raw &&
               handles[container.value].Erased? && handles[container.value].kind == kind)
  }

  /** Numbers are given out once. */
  predicate Below(w: World) {
    && (forall p :: p in w.handles ==> p < w.next) && (forall id :: id in w.wrappers ==> id < w.next)
    && (forall s :: s in w.owners ==> s < w.next)
  }

  predicate AllLive(handles: map<nat, Handle>, wrappers: map<nat, Wrapper>) {
    forall id :: id in wrappers ==> FieldsLive(handles, wrappers[id])
  }

  /** Every live handle is in one wrapper's field, lost, or in hand. */
  predicate Accounted(w: World, inHand: set<nat>) {
    && (forall a, b :: a in w.wrappers && b in w.wrappers && a != b ==> Held(w.wrappers[a]) !! Held(w.wrappers[b]))
    && w.handles.Keys == AllHeld(w.wrappers) + w.lost + inHand
    && AllHeld(w.wrappers) !! w.lost && AllHeld(w.wrappers) !! inHand && w.lost !! inHand
  }

  /** The books with some handles in the hands of the running call. */
  predicate Books(w: World, inHand: set<nat>) {
    Below(w) && AllLive(w.handles, w.wrappers) && Accounted(w, inHand) && Counted(w.handles, w.owners)
  }

  predicate Ledger(w: World) {
    Books(w, {})
  }

  /** The handle's state is one of those that were ever made, or the next one. */
  predicate Reaches(w: World, h: Handle) {
    StateOf(h).Some? ==> StateOf(h).value <= w.next
  }

  lemma {:induction false} StateKnown(w: World, inHand: set<nat>, p: nat)
    requires Books(w, inHand) && p in w.handles && StateOf(w.handles[p]).Some?
    ensures StateOf(w.handles[p]).value in w.owners && StateOf(w.handles[p]).value < w.next
  {
  }

  lemma {:induction false} OwnersMore(handles: map<nat, Handle>, p: nat, h: Handle, s: nat)
    requires p !in handles
    ensures OwnersOf(handles[p := h], s) == OwnersOf(handles, s) + if StateOf(h) == Some(s) then {p} else {}
    ensures p !in OwnersOf(handles, s)
  {
  }

  lemma {:induction false} OwnersLess(handles: map<nat, Handle>, p: nat, s: nat)
    requires p in handles
    ensures OwnersOf(handles - {p}, s) == OwnersOf(handles, s) - {p}
    ensures p in OwnersOf(handles, s) <==> StateOf(handles[p]) == Some(s)
  {
  }

  lemma {:induction false} CountedMore(w: World, h: Handle)
    requires Counted(w.handles, w.owners) && w.next !in w.handles
    ensures Counted(Boxed(w, h).handles, Boxed(w, h).owners)
  {
    var w' := Boxed(w, h);
    forall s | s in w'.owners
      ensures w'.owners[s] == |OwnersOf(w'.handles, s)| && w'.owners[s] > 0
    {
      OwnersMore(w.handles, w.next, h, s);
      if s !in w.owners {
        assert OwnersOf(w.handles, s) == {};
      }
    }
  }

  lemma {:induction false} CountedLess(w: World, p: nat)
    requires Counted(w.handles, w.owners) && p in w.handles
    ensures Dropped(w, p).Fine?
    ensures var w' := Dropped(w, p).value; Counted(w'.handles, w'.owners)
  {
    var w' := Dropped(w, p).value;
    hide OwnersOf;
    forall s | s in w'.owners
      ensures w'.owners[s] == |OwnersOf(w'.handles, s)| && w'.owners[s] > 0
    {
      CountLess(w, p, s);
    }
    hide Left;
    forall q | q in w'.handles && StateOf(w'.handles[q]).Some?
      ensures StateOf(w'.handles[q]).value in w'.owners
    {
      OtherOwner(w, p, q);
    }
  }

  lemma {:induction false} CountLess(w: World, p: nat, s: nat)
    requires p in w.handles && s in w.owners && w.owners[s] == |OwnersOf(w.handles, s)| > 0
    ensures var owners := Left(w.owners, StateOf(w.handles[p]));
            s in owners ==> owners[s] == |OwnersOf(w.handles - {p}, s)| > 0
  {
    hide OwnersOf;
    OwnersLess(w.handles, p, s);
  }

  /** A state with a second owner stays alive. */
  lemma {:induction false} OtherOwner(w: World, p: nat, q: nat)
    requires Counted(w.handles, w.owners) && p in w.handles && q in w.handles && p != q
    requires StateOf(w.handles[q]).Some?
    ensures StateOf(w.handles[q]).value in Left(w.owners, StateOf(w.handles[p]))
  {
    var s := StateOf(w.handles[q]).value;
    assert q in OwnersOf(w.handles, s);
    if StateOf(w.handles[p]) == Some(s) {
      SubsetSize({p, q}, OwnersOf(w.handles, s));
    }
  }

  lemma {:induction false} SubsetSize(a: set<nat>, b: set<nat>)
    requires a <= b
    ensures |a| <= |b|
  {
    assert b == a + (b - a);
  }

  // How each C step and each change of a field moves the books.

  lemma {:induction false} HeldOf(wrappers: map<nat, Wrapper>, id: nat)
    requires id in wrappers
    ensures Held(wrappers[id]) <= AllHeld(wrappers)
  {
    forall p | p in Held(wrappers[id])
      ensures p in AllHeld(wrappers)
    {
    }
  }

  lemma {:induction false} FieldsKept(handles: map<nat, Handle>, handles': map<nat, Handle>, o: Wrapper)
    requires FieldsLive(handles, o)
    requires forall p :: p in handles && p in Held(o) ==> p in handles' && handles'[p] == handles[p]
    ensures FieldsLive(handles', o)
  {
  }

  lemma {:induction false} BoxedBooks(w: World, inHand: set<nat>, h: Handle)
    requires Books(w, inHand) && Reaches(w, h)
    ensures Books(Boxed(w, h), inHand + {w.next})
  {
    CountedMore(w, h);
    BoxedBelow(w, h);
    BoxedLive(w, h);
    BoxedAccounted(w, inHand, h);
    hide Below, AllLive, Accounted, Counted, Boxed;
  }

  lemma {:induction false} BoxedBelow(w: World, h: Handle)
    requires Below(w) && Reaches(w, h)
    ensures Below(Boxed(w, h)) && w.next !in w.handles
  {
  }

  lemma {:induction false} BoxedLive(w: World, h: Handle)
    requires AllLive(w.handles, w.wrappers) && w.next !in w.handles
    ensures AllLive(Boxed(w, h).handles, w.wrappers)
  {
    hide FieldsLive;
    forall id | id in w.wrappers
      ensures FieldsLive(Boxed(w, h).handles, w.wrappers[id])
    {
      FieldsKept(w.handles, Boxed(w, h).handles, w.wrappers[id]);
    }
  }

  lemma {:induction false} BoxedAccounted(w: World, inHand: set<nat>, h: Handle)
    requires Accounted(w, inHand) && w.next !in w.handles
    ensures Accounted(Boxed(w, h), inHand + {w.next})
  {
    hide Held, AllHeld;
    assert w.next !in w.handles.Keys;
  }

  lemma {:induction false} DroppedBooks(w: World, inHand: set<nat>, p: nat)
    requires Books(w, inHand) && p in inHand
    ensures Dropped(w, p).Fine? && Books(Dropped(w, p).value, inHand - {p})
  {
    CountedLess(w, p);
    DroppedBelow(w, p);
    DroppedLive(w, p, inHand);
    DroppedAccounted(w, inHand, p);
    hide Below, AllLive, Accounted, Counted;
  }

  lemma {:induction false} DroppedBelow(w: World, p: nat)
    requires Below(w) && p in w.handles
    ensures Below(Dropped(w, p).value)
  {
    assert forall s :: s in Left(w.owners, StateOf(w.handles[p])) ==> s in w.owners;
  }

  lemma {:induction false} DroppedLive(w: World, p: nat, inHand: set<nat>)
    requires AllLive(w.handles, w.wrappers) && Accounted(w, inHand) && p in inHand && p in w.handles
    ensures AllLive(w.handles - {p}, w.wrappers)
  {
    hide FieldsLive, Held, AllHeld;
    forall id | id in w.wrappers
      ensures FieldsLive(w.handles - {p}, w.wrappers[id])
    {
      HeldOf(w.wrappers, id);
      FieldsKept(w.handles, w.handles - {p}, w.wrappers[id]);
    }
  }

  lemma {:induction false} DroppedAccounted(w: World, inHand: set<nat>, p: nat)
    requires Accounted(w, inHand) && p in inHand && p in w.handles
    ensures Accounted(Dropped(w, p).value, inHand - {p})
  {
    hide Held, AllHeld;
    assert (w.handles - {p}).Keys == w.handles.Keys - {p};
  }

  lemma {:induction false} HeldMore(wrappers: map<nat, Wrapper>, id: nat, o: Wrapper)
    requires id !in wrappers
    ensures AllHeld(wrappers[id := o]) == AllHeld(wrappers) + Held(o)
  {
    hide Held;
    var wrappers' := wrappers[id := o];
    forall p
      ensures p in AllHeld(wrappers') <==> p in AllHeld(wrappers) + Held(o)
    {
      if p in AllHeld(wrappers) {
        var other :| other in wrappers && p in Held(wrappers[other]);
        assert wrappers'[other] == wrappers[other];
      }
      if p in Held(o) {
        assert wrappers'[id] == o;
      }
    }
  }

  /** A new wrapper takes over handles in hand. */
  lemma {:induction false} WrappedBooks(w: World, inHand: set<nat>, o: Wrapper)
    requires Books(w, inHand) && Held(o) <= inHand && FieldsLive(w.handles, o)
    ensures Books(Wrapped(w, o), inHand - Held(o))
  {
    hide Counted, OwnersOf, AllHeld, Held, FieldsLive;
    assert w.next !in w.wrappers;
    HeldMore(w.wrappers, w.next, o);
    forall id | id in w.wrappers
      ensures Held(w.wrappers[id]) !! Held(o)
    {
      HeldOf(w.wrappers, id);
    }
  }

  /** take_container: the field is nulled, the handle is in hand. */
  lemma {:induction false} TakenBooks(w: World, inHand: set<nat>, child: nat)
    requires Books(w, inHand) && IsContainer(w, child) && w.wrappers[child].container.Some?
    ensures var c := w.wrappers[child];
            Books(w.(wrappers := w.wrappers[child := c.(container := None)]), inHand + {c.container.value})
  {
    hide Counted, OwnersOf, AllHeld;
    var c := w.wrappers[child];
    assert FieldsLive(w.handles, c);
    HeldOf(w.wrappers, child);
    HeldTaken(w.wrappers, child);
  }

  lemma {:induction false} HeldTaken(wrappers: map<nat, Wrapper>, child: nat)
    requires child in wrappers && wrappers[child].ContainerWrapper? && wrappers[child].container.Some?
    requires wrappers[child].container.value != wrappers[child].raw
    requires forall a, b :: a in wrappers && b in wrappers && a != b ==> Held(wrappers[a]) !! Held(wrappers[b])
    ensures var c := wrappers[child];
            AllHeld(wrappers[child := c.(container := None)]) == AllHeld(wrappers) - {c.container.value}
  {
    var c := wrappers[child];
    var taken := c.container.value;
    var wrappers' := wrappers[child := c.(container := None)];
    forall p
      ensures p in AllHeld(wrappers') <==> p in AllHeld(wrappers) && p != taken
    {
      if p in AllHeld(wrappers') {
        var id :| id in wrappers' && p in Held(wrappers'[id]);
        assert id in wrappers && p in Held(wrappers[id]);
      }
      if p in AllHeld(wrappers) && p != taken {
        var id :| id in wrappers && p in Held(wrappers[id]);
        assert id in wrappers' && p in Held(wrappers'[id]);
      }
    }
  }

  lemma {:induction false} LostBooks(w: World, inHand: set<nat>, p: nat)
    requires Books(w, inHand) && p in inHand
    ensures Books(w.(lost := w.lost + {p}), inHand - {p})
  {
    hide Counted, OwnersOf;
  }

  /** A destructor: the wrapper goes, its handles are in hand. */
  lemma {:induction false} UnwrappedBooks(w: World, inHand: set<nat>, id: nat)
    requires Books(w, inHand) && id in w.wrappers
    ensures Books(w.(wrappers := w.wrappers - {id}), inHand + Held(w.wrappers[id]))
  {
    hide Counted, OwnersOf, AllHeld, Held, FieldsLive;
    HeldOf(w.wrappers, id);
    HeldLess(w.wrappers, id);
  }

  lemma {:induction false} HeldLess(wrappers: map<nat, Wrapper>, id: nat)
    requires id in wrappers
    requires forall a, b :: a in wrappers && b in wrappers && a != b ==> Held(wrappers[a]) !! Held(wrappers[b])
    ensures AllHeld(wrappers - {id}) == AllHeld(wrappers) - Held(wrappers[id])
  {
    hide Held;
    var wrappers' := wrappers - {id};
    forall p
      ensures p in AllHeld(wrappers') <==> p in AllHeld(wrappers) && p !in Held(wrappers[id])
    {
      if p in AllHeld(wrappers) && p !in Held(wrappers[id]) {
        var other :| other in wrappers && p in Held(wrappers[other]);
        assert other in wrappers' && p in Held(wrappers'[other]);
      }
    }
  }

  lemma {:induction false} AdoptBooks(w: World, inHand: set<nat>, kind: Kind, attached: nat)
    requires Books(w, inHand) && attached in inHand && w.handles[attached].Erased?
    ensures Adopt(w, kind, attached).Fine? && Books(Adopt(w, kind, attached).value, inHand - {attached})
    ensures Adopt(w, kind, attached).value.lost == w.lost
  {
    hide Counted, OwnersOf, AllHeld;
    var h := w.handles[attached];
    if h.kind == kind {
      StateKnown(w, inHand, attached);
      BoxedBooks(w, inHand, Typed(kind, h.state));
      var w1 := Boxed(w, Typed(kind, h.state));
      DroppedBooks(w1, inHand + {w.next}, attached);
      WrappedBooks(Dropped(w1, attached).value, inHand + {w.next} - {attached}, ContainerWrapper(kind, w.next, None));
      assert inHand + {w.next} - {attached} - {w.next} == inHand - {attached};
    } else {
      DroppedBooks(w, inHand, attached);
    }
  }

  // Every call, every run.

  lemma {:induction false} FieldsOf(w: World, inHand: set<nat>, id: nat)
    requires Books(w, inHand) && id in w.wrappers
    ensures FieldsLive(w.handles, w.wrappers[id]) && w.wrappers[id].raw < w.next
  {
  }

  /** The child is taken from its wrapper under a key that is no UTF-8, and nobody frees it. */
  predicate BadTake(w: World, c: Call)
    requires Callable(w, c)
  {
    (c.Insert? || c.GetOrCreate?) && !c.keyOk && w.wrappers[c.child].container.Some?
  }

  lemma {:induction false} InsertBooks(w: World, parent: nat, keyOk: bool, child: nat, accepted: bool)
    requires Ledger(w) && IsContainer(w, parent) && IsContainer(w, child)
    ensures var r := InsertContainer(w, parent, keyOk, child, accepted);
            && r.Fine? && Ledger(r.value)
            && r.value.lost == w.lost + if !keyOk && w.wrappers[child].container.Some?
                                        then {w.wrappers[child].container.value} else {}
  {
    var c := w.wrappers[child];
    if c.container.Some? {
      ParentAndChild(w, parent, child);
      TakenBooks(w, {}, child);
      InsertShape(w, parent, keyOk, child, accepted);
      hide Books, Counted, AllHeld, OwnersOf, Adopt, Boxed, Dropped, Held, FieldsLive, InsertContainer;
      var taken := c.container.value;
      var w1 := w.(wrappers := w.wrappers[child := c.(container := None)]);
      assert {} + {taken} == {taken};
      if !keyOk {
        LostBooks(w1, {taken}, taken);
        assert {taken} - {taken} == {};
      } else {
        ConsumedBooks(w1, taken, c.kind, w.handles[w.wrappers[parent].raw].state);
      }
    }
  }

  /** The steps of an insert whose reads succeed. */
  lemma {:induction false} InsertShape(w: World, parent: nat, keyOk: bool, child: nat, accepted: bool)
    requires IsContainer(w, parent) && IsContainer(w, child) && w.wrappers[child].container.Some?
    requires var p := w.wrappers[parent].raw; p in w.handles && w.handles[p].Typed?
    requires var c := w.wrappers[child].container.value;
             c in w.handles && w.handles[c].Erased? && w.handles[c].kind == w.wrappers[child].kind
    ensures var c := w.wrappers[child];
            var taken := c.container.value;
            var w1 := w.(wrappers := w.wrappers[child := c.(container := None)]);
            InsertContainer(w, parent, keyOk, child, accepted) ==
            if !keyOk then Fine(w1.(lost := w1.lost + {taken}))
            else if !accepted then Dropped(w1, taken)
            else
              var w2 := Dropped(w1, taken).value;
              Adopt(Boxed(w2, Erased(c.kind, w.handles[w.wrappers[parent].raw].state)), c.kind, w2.next)
  {
    hide Adopt, Boxed, Left;
  }

  /** What an insert reads. */
  lemma {:induction false} ParentAndChild(w: World, parent: nat, child: nat)
    requires Ledger(w) && IsContainer(w, parent) && IsContainer(w, child) && w.wrappers[child].container.Some?
    ensures var p := w.wrappers[parent].raw;
            p in w.handles && w.handles[p].Typed? && w.handles[p].state in w.owners && w.handles[p].state < w.next
    ensures var c := w.wrappers[child].container.value;
            c in w.handles && w.handles[c].Erased? && w.handles[c].kind == w.wrappers[child].kind && c < w.next
  {
    FieldsOf(w, {}, parent);
    FieldsOf(w, {}, child);
    StateKnown(w, {}, w.wrappers[parent].raw);
  }

  /** The library consumes the child and, if it accepts it, hands out the attached container. */
  lemma {:induction false} ConsumedBooks(w: World, taken: nat, kind: Kind, state: nat)
    requires Books(w, {taken}) && w.handles[taken].Erased? && w.handles[taken].kind == kind && state <= w.next
    ensures var r := Dropped(w, taken);
            && r.Fine? && Ledger(r.value) && r.value.lost == w.lost
            && var a := Adopt(Boxed(r.value, Erased(kind, state)), kind, r.value.next);
               a.Fine? && Ledger(a.value) && a.value.lost == w.lost
  {
    hide Books, Counted, AllHeld, OwnersOf;
    DroppedBooks(w, {taken}, taken);
    assert {taken} - {taken} == {};
    var w2 := Dropped(w, taken).value;
    BoxedBooks(w2, {}, Erased(kind, state));
    AdoptBooks(Boxed(w2, Erased(kind, state)), {} + {w2.next}, kind, w2.next);
    assert {} + {w2.next} - {w2.next} == {};
  }

  lemma {:induction false} NewWrapperBooks(w: World, h: Handle, o: Wrapper)
    requires Ledger(w) && Reaches(w, h) && Held(o) == {w.next} && FieldsLive(Boxed(w, h).handles, o)
    ensures Ledger(Wrapped(Boxed(w, h), o))
  {
    hide Books;
    BoxedBooks(w, {}, h);
    WrappedBooks(Boxed(w, h), {} + {w.next}, o);
    assert {} + {w.next} - Held(o) == {};
  }

  /** No call faults: nothing dead is read, cast or freed. And every call keeps the books. */
  lemma {:induction false} RunBooks(w: World, c: Call)
    requires Ledger(w) && Callable(w, c)
    ensures Run(w, c).Fine? && Ledger(Run(w, c).value)
    ensures Run(w, c).value.lost == w.lost + if BadTake(w, c) then {w.wrappers[c.child].container.value} else {}
  {
    hide Books, Counted, AllHeld, OwnersOf, Adopt, InsertContainer;
    match c
    case NewDoc =>
      NewWrapperBooks(w, DocHandle(w.next), DocWrapper(w.next));
    case Init(kind) =>
      var w1 := Boxed(w, Erased(kind, w.next));
      var w2 := Boxed(w1, Typed(kind, w.next));
      BoxedBooks(w, {}, Erased(kind, w.next));
      BoxedBooks(w1, {} + {w.next}, Typed(kind, w.next));
      WrappedBooks(w2, {} + {w.next} + {w1.next}, ContainerWrapper(kind, w1.next, Some(w.next)));
      assert {} + {w.next} + {w1.next} - Held(ContainerWrapper(kind, w1.next, Some(w.next))) == {};
    case DocGet(doc, kind, resolves) =>
      FieldsOf(w, {}, doc);
      StateKnown(w, {}, w.wrappers[doc].raw);
      if resolves {
        var h := Typed(kind, w.handles[w.wrappers[doc].raw].state);
        NewWrapperBooks(w, h, ContainerWrapper(kind, w.next, None));
      }
    case Insert(parent, keyOk, child, accepted) => InsertBooks(w, parent, keyOk, child, accepted);
    case GetOrCreate(parent, keyOk, child, found, accepted) =>
      FieldsOf(w, {}, parent);
      StateKnown(w, {}, w.wrappers[parent].raw);
      InsertBooks(w, parent, keyOk, child, accepted);
      if keyOk && found.Child? {
        var h := Erased(found.kind, w.handles[w.wrappers[parent].raw].state);
        BoxedBooks(w, {}, h);
        AdoptBooks(Boxed(w, h), {} + {w.next}, w.wrappers[child].kind, w.next);
      }
    case Get(parent, keyOk, found) =>
      FieldsOf(w, {}, parent);
      StateKnown(w, {}, w.wrappers[parent].raw);
      if keyOk && !found.Absent? {
        var voc := if found.Child? then VocContainer(found.kind, w.handles[w.wrappers[parent].raw].state) else VocValue;
        NewWrapperBooks(w, voc, VocWrapper(w.next));
      }
    case AsContainer(voc, kind) =>
      FieldsOf(w, {}, voc);
      var h := w.handles[w.wrappers[voc].raw];
      if h.VocContainer? {
        StateKnown(w, {}, w.wrappers[voc].raw);
        BoxedBooks(w, {}, Erased(h.kind, h.state));
        AdoptBooks(Boxed(w, Erased(h.kind, h.state)), {} + {w.next}, kind, w.next);
      }
    case AsValue(voc) =>
      FieldsOf(w, {}, voc);
      BoxedBooks(w, {}, ValueBox);
      DroppedBooks(Boxed(w, ValueBox), {} + {w.next}, w.next);
      assert {} + {w.next} - {w.next} == {};
    case Destroy(wrapper) => DestroyBooks(w, wrapper);
  }

  lemma {:induction false} DestroyBooks(w: World, wrapper: nat)
    requires Ledger(w) && wrapper in w.wrappers
    ensures Run(w, Destroy(wrapper)).Fine? && Ledger(Run(w, Destroy(wrapper)).value)
    ensures Run(w, Destroy(wrapper)).value.lost == w.lost
    ensures Run(w, Destroy(wrapper)).value.wrappers == w.wrappers - {wrapper}
    ensures Run(w, Destroy(wrapper)).value.handles == w.handles - Held(w.wrappers[wrapper])
  {
    hide Books, Counted, AllHeld, OwnersOf;
    var o := w.wrappers[wrapper];
    assert (w.handles - {o.raw}) - (Held(o) - {o.raw}) == w.handles - Held(o);
    var w0 := w.(wrappers := w.wrappers - {wrapper});
    FieldsOf(w, {}, wrapper);
    UnwrappedBooks(w, {}, wrapper);
    DroppedBooks(w0, {} + Held(o), o.raw);
    if o.ContainerWrapper? && o.container.Some? {
      DroppedBooks(Dropped(w0, o.raw).value, {} + Held(o) - {o.raw}, o.container.value);
      assert {} + Held(o) - {o.raw} - {o.container.value} == {};
    } else {
      assert {} + Held(o) - {o.raw} == {};
    }
  }

  /** The calls, made one after the other on live objects, lead from w to end. */
  predicate Leads(w: World, calls: seq<Call>, end: World)
    decreases |calls|
  {
    if calls == [] then end == w
    else Callable(w, calls[0]) && Run(w, calls[0]).Fine? && Leads(Run(w, calls[0]).value, calls[1..], end)
  }

  /** Some call of the run took a child under a bad key. */
  predicate SomeBadTake(w: World, calls: seq<Call>)
    decreases |calls|
  {
    calls != [] && Callable(w, calls[0]) && Run(w, calls[0]).Fine? &&
    (BadTake(w, calls[0]) || SomeBadTake(Run(w, calls[0]).value, calls[1..]))
  }

  lemma {:induction false} LeadsBooks(w: World, calls: seq<Call>, end: World)
    requires Ledger(w) && Leads(w, calls, end)
    ensures Ledger(end) && w.lost <= end.lost
    ensures end.lost == w.lost <==> !SomeBadTake(w, calls)
    decreases |calls|
  {
    hide Run, Books;
    if calls != [] {
      RunBooks(w, calls[0]);
      LeadsBooks(Run(w, calls[0]).value, calls[1..], end);
      if BadTake(w, calls[0]) {
        HeldNotLost(w, calls[0].child);
      }
    }
  }

  lemma {:induction false} HeldNotLost(w: World, id: nat)
    requires Ledger(w) && id in w.wrappers
    ensures Held(w.wrappers[id]) !! w.lost
  {
    hide Held, AllHeld;
    HeldOf(w.wrappers, id);
  }

  lemma {:induction false} EmptyLedger()
    ensures Ledger(Empty)
  {
    assert AllHeld(Empty.wrappers) == {};
  }

  /**
   Over every run from nothing: the next call on live objects never faults, and the live handles are
   exactly those in the fields of live wrappers, if and only if no insert took a child under a bad key.
   */
  lemma {:induction false} RunsAreSafe(calls: seq<Call>, end: World)
    requires Leads(Empty, calls, end)
    ensures forall c :: Callable(end, c) ==> Run(end, c).Fine?
    ensures end.handles.Keys == AllHeld(end.wrappers) <==> !SomeBadTake(Empty, calls)
    ensures AllHeld(end.wrappers) <= end.handles.Keys
  {
    hide Run;
    EmptyLedger();
    LeadsBooks(Empty, calls, end);
    forall c | Callable(end, c)
      ensures Run(end, c).Fine?
    {
      RunBooks(end, c);
    }
    assert end.handles.Keys == AllHeld(end.wrappers) + end.lost;
    if end.lost != {} {
      var p :| p in end.lost;
      assert p !in AllHeld(end.wrappers) && p in end.handles.Keys;
    }
  }

  /** The failing case: a text attached under a key that is no UTF-8 leaves its erased handle to nobody. */
  lemma {:induction false} BadKeyLosesHandle()
    ensures exists end :: Leads(Empty, BadKeyRun(), end) && end.handles.Keys != AllHeld(end.wrappers)
  {
    DocMade();
    MapFound();
    TextMade();
    TextLost();
    hide Run, Callable, BadTake, AllHeld;
    var calls := BadKeyRun();
    var w4 := Run(World3, calls[3]).value;
    assert Leads(w4, [], w4);
    LeadsFirst(World3, calls[3], [], w4);
    LeadsFirst(World2, calls[2], calls[3..], w4);
    LeadsFirst(World1, calls[1], calls[2..], w4);
    LeadsFirst(Empty, calls[0], calls[1..], w4);
    RunsAreSafe(calls, w4);
  }

  const World1 := World(map[0 := DocHandle(0)], map[0 := 1], map[1 := DocWrapper(0)], {}, 2)
  const World2 := World(World1.handles[2 := Typed(MapKind, 0)], World1.owners[0 := 2],
                        World1.wrappers[3 := ContainerWrapper(MapKind, 2, None)], {}, 4)
  const World3 := World(World2.handles[4 := Erased(TextKind, 4)][5 := Typed(TextKind, 4)],
                        World2.owners[4 := 1][4 := 2],
                        World2.wrappers[6 := ContainerWrapper(TextKind, 5, Some(4))], {}, 7)

  lemma {:induction false} DocMade()
    ensures Callable(Empty, BadKeyRun()[0]) && Run(Empty, BadKeyRun()[0]) == Fine(World1)
  {
  }

  lemma {:induction false} MapFound()
    ensures Callable(World1, BadKeyRun()[1]) && Run(World1, BadKeyRun()[1]) == Fine(World2)
  {
  }

  lemma {:induction false} TextMade()
    ensures Callable(World2, BadKeyRun()[2]) && Run(World2, BadKeyRun()[2]) == Fine(World3)
  {
  }

  lemma {:induction false} TextLost()
    ensures Callable(World3, BadKeyRun()[3]) && Run(World3, BadKeyRun()[3]).Fine? && BadTake(World3, BadKeyRun()[3])
  {
  }

  lemma {:induction false} LeadsFirst(w: World, c: Call, rest: seq<Call>, end: World)
    requires Callable(w, c) && Run(w, c).Fine? && Leads(Run(w, c).value, rest, end)
    ensures Leads(w, [c] + rest, end)
    ensures SomeBadTake(w, [c] + rest) <==> BadTake(w, c) || SomeBadTake(Run(w, c).value, rest)
  {
    hide Run, Callable, BadTake;
    var calls := [c] + rest;
    assert calls[1..] == rest;
  }

  function BadKeyRun(): seq<Call> {
    [NewDoc, DocGet(1, MapKind, true), Init(TextKind), Insert(3, false, 6, true)]
  }

  /** A state is alive exactly while some live handle owns it, and its count is the number of these. */
  lemma {:induction false} StateAlive(calls: seq<Call>, end: World, s: nat)
    requires Leads(Empty, calls, end)
    ensures s in end.owners <==> exists p :: p in end.handles && StateOf(end.handles[p]) == Some(s)
    ensures s in end.owners ==> end.owners[s] == |OwnersOf(end.handles, s)|
  {
    hide Run;
    EmptyLedger();
    LeadsBooks(Empty, calls, end);
    if s in end.owners {
      assert OwnersOf(end.handles, s) != {};
      var p :| p in OwnersOf(end.handles, s);
    }
  }

  /** A call releases a state only if it frees the last handle that owned it. */
  lemma {:induction false} ReleasedLast(calls: seq<Call>, w: World, c: Call, s: nat)
    requires Leads(Empty, calls, w) && Callable(w, c) && s in w.owners
    requires Run(w, c).Fine? && s !in Run(w, c).value.owners
    ensures forall p :: p in Run(w, c).value.handles ==> StateOf(Run(w, c).value.handles[p]) != Some(s)
    ensures exists p :: p in w.handles && StateOf(w.handles[p]) == Some(s) && p !in Run(w, c).value.handles
  {
    hide Run, Books, Callable, Leads;
    EmptyLedger();
    LeadsBooks(Empty, calls, w);
    RunBooks(w, c);
    StateAlive(calls, w, s);
    var end := Run(w, c).value;
    Orphaned(end, {}, s);
    var p :| p in w.handles && StateOf(w.handles[p]) == Some(s);
    RunKeeps(w, c);
    HandlesOld(w, {});
    assert p !in end.handles;
  }

  /** No live handle owns a state that is gone. */
  lemma {:induction false} Orphaned(w: World, inHand: set<nat>, s: nat)
    requires Books(w, inHand) && s !in w.owners
    ensures forall p :: p in w.handles ==> StateOf(w.handles[p]) != Some(s)
  {
  }

  lemma {:induction false} HandlesOld(w: World, inHand: set<nat>)
    requires Books(w, inHand)
    ensures forall p :: p in w.handles ==> p < w.next
  {
  }

  /** Handles made before are the same handles afterwards, as far as they are still live. */
  predicate Keeps(w: World, w': World) {
    w.next <= w'.next &&
    forall p :: p in w'.handles && p < w.next ==> p in w.handles && w'.handles[p] == w.handles[p]
  }

  lemma {:induction false} StepKeeps(w: World, w': World, h: Handle, p: nat)
    requires Keeps(w, w')
    ensures Keeps(w, Boxed(w', h))
    ensures Dropped(w', p).Fine? ==> Keeps(w, Dropped(w', p).value)
  {
  }

  lemma {:induction false} AdoptKeeps(w: World, w': World, kind: Kind, attached: nat)
    requires Keeps(w, w') && Adopt(w', kind, attached).Fine?
    ensures Keeps(w, Adopt(w', kind, attached).value)
  {
    hide Keeps, Boxed;
    var h := w'.handles[attached];
    StepKeeps(w, w', Typed(kind, h.state), attached);
    if h.kind == kind {
      var w1 := Boxed(w', Typed(kind, h.state));
      StepKeeps(w, w1, h, attached);
      WrapKeeps(w, Dropped(w1, attached).value, ContainerWrapper(kind, w'.next, None));
    }
  }

  lemma {:induction false} WrapKeeps(w: World, w': World, o: Wrapper)
    requires Keeps(w, w')
    ensures Keeps(w, Wrapped(w', o))
  {
  }

  lemma {:induction false} InsertKeeps(w: World, parent: nat, keyOk: bool, child: nat, accepted: bool)
    requires IsContainer(w, parent) && IsContainer(w, child) && InsertContainer(w, parent, keyOk, child, accepted).Fine?
    ensures Keeps(w, InsertContainer(w, parent, keyOk, child, accepted).value)
  {
    var c := w.wrappers[child];
    if c.container.Some? && keyOk {
      var taken := c.container.value;
      var w1 := w.(wrappers := w.wrappers[child := c.(container := None)]);
      assert Keeps(w, w1);
      hide Keeps, Adopt, Boxed;
      StepKeeps(w, w1, VocValue, taken);
      if accepted {
        var w2 := Dropped(w1, taken).value;
        var h := Erased(w1.handles[taken].kind, w1.handles[w1.wrappers[parent].raw].state);
        StepKeeps(w, w2, h, taken);
        AdoptKeeps(w, Boxed(w2, h), c.kind, w2.next);
      }
    }
  }

  lemma {:induction false} RunKeeps(w: World, c: Call)
    requires Callable(w, c) && Run(w, c).Fine?
    ensures Keeps(w, Run(w, c).value)
  {
    assert Keeps(w, w);
    match c
    case Insert(parent, keyOk, child, accepted) => InsertKeeps(w, parent, keyOk, child, accepted);
    case GetOrCreate(parent, keyOk, child, found, accepted) =>
      hide Adopt, InsertContainer;
      if keyOk && found.Child? {
        var h := Erased(found.kind, w.handles[w.wrappers[parent].raw].state);
        StepKeeps(w, w, h, w.next);
        AdoptKeeps(w, Boxed(w, h), w.wrappers[child].kind, w.next);
      } else {
        InsertKeeps(w, parent, keyOk, child, accepted);
      }
    case AsContainer(voc, kind) =>
      hide Adopt;
      var h := w.handles[w.wrappers[voc].raw];
      if h.VocContainer? {
        StepKeeps(w, w, Erased(h.kind, h.state), w.next);
        AdoptKeeps(w, Boxed(w, Erased(h.kind, h.state)), kind, w.next);
      }
    case _ =>
  }

  /** When every wrapper is gone and nothing was lost, no handle is live and every state is released. */
  lemma {:induction false} AllReleased(calls: seq<Call>, end: World)
    requires Leads(Empty, calls, end) && end.wrappers == map[] && !SomeBadTake(Empty, calls)
    ensures end.handles == map[] && end.owners == map[]
  {
    RunsAreSafe(calls, end);
    assert AllHeld(end.wrappers) == {};
    assert end.handles.Keys == {};
    forall s
      ensures s !in end.owners
    {
      StateAlive(calls, end, s);
    }
  }

  lemma {:induction false} OwnersNet(owners: map<nat, nat>, s: nat)
    requires s in owners && owners[s] > 0
    ensures var more := Joined(owners, Some(s));
            Left(more, Some(s)) == owners && Left(Joined(more, Some(s)), Some(s)) == owners[s := owners[s] + 1]
  {
  }

  /**
   as_loro_*: the right type gives one more wrapper that co-owns the same state; the wrong type or a plain
   value throws and leaves handles, counts and wrappers as they were.
   */
  lemma {:induction false} AsContainerEffect(w: World, voc: nat, kind: Kind)
    requires Ledger(w) && Callable(w, AsContainer(voc, kind))
    ensures var h := w.handles[w.wrappers[voc].raw];
            var r := Run(w, AsContainer(voc, kind));
            && r.Fine?
            && (if h.VocContainer? && h.kind == kind then
                  var p, id := w.next + 1, w.next + 2;
                  && p !in w.handles && id !in w.wrappers && h.state in w.owners
                  && r.value.handles == w.handles[p := Typed(kind, h.state)]
                  && r.value.owners == w.owners[h.state := w.owners[h.state] + 1]
                  && r.value.wrappers == w.wrappers[id := ContainerWrapper(kind, p, None)]
                else
                  r.value.handles == w.handles && r.value.owners == w.owners && r.value.wrappers == w.wrappers)
  {
    hide Books, Counted, AllHeld, OwnersOf, Joined, Left;
    FieldsOf(w, {}, voc);
    var h := w.handles[w.wrappers[voc].raw];
    if h.VocContainer? {
      OwnedState(w, w.wrappers[voc].raw);
      OwnersNet(w.owners, h.state);
      var w1 := Boxed(w, Erased(h.kind, h.state));
      assert w1.handles - {w.next} == w.handles;
      assert Boxed(w1, Typed(kind, h.state)).handles - {w.next} == w.handles[w1.next := Typed(kind, h.state)];
    }
  }

  lemma {:induction false} OwnedState(w: World, p: nat)
    requires Ledger(w) && p in w.handles && StateOf(w.handles[p]).Some?
    ensures StateOf(w.handles[p]).value in w.owners && w.owners[StateOf(w.handles[p]).value] > 0
    ensures w.next !in w.handles && w.next + 1 !in w.handles && w.next + 2 !in w.wrappers
  {
  }
}
