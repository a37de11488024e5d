/**
 What each call on the wrappers does to the live handles and wrappers, and two laws over runs: everything can
 be destroyed in any order, and whatever was obtained from a document keeps the document's state.
 */
module Effects {
  import opened Outcome
  import opened Ownership

  /** The next numbers are in use for nothing. */
  lemma {:induction false} Unused(w: World, n: nat)
    requires Ledger(w) && w.next <= n
    ensures n !in w.handles && n !in w.wrappers && n !in w.owners
  {
  }

  /** A new document has a state of its own. */
  lemma {:induction false} NewDocEffect(w: World)
    requires Ledger(w)
    ensures var r, p, id := Run(w, NewDoc), w.next, w.next + 1;
            && r.Fine? && p !in w.handles && p !in w.owners && id !in w.wrappers
            && r.value.handles == w.handles[p := DocHandle(p)]
            && r.value.wrappers == w.wrappers[id := DocWrapper(p)]
  {
    Unused(w, w.next);
    Unused(w, w.next + 1);
  }

  /** A detached container has a state of its own, with an erased and a typed handle on it. */
  lemma {:induction false} InitEffect(w: World, kind: Kind)
    requires Ledger(w) && !kind.UnknownKind?
    ensures var r, p, t, id := Run(w, Init(kind)), w.next, w.next + 1, w.next + 2;
            && r.Fine? && p !in w.handles && t !in w.handles && p !in w.owners && id !in w.wrappers
            && r.value.handles == w.handles[p := Erased(kind, p)][t := Typed(kind, p)]
            && r.value.wrappers == w.wrappers[id := ContainerWrapper(kind, t, Some(p))]
  {
    hide Books, Joined;
    Unused(w, w.next);
    Unused(w, w.next + 1);
    Unused(w, w.next + 2);
  }

  /** A document's container is one more typed handle on the document's state. */
  lemma {:induction false} DocGetEffect(w: World, doc: nat, kind: Kind, resolves: bool)
    requires Ledger(w) && Callable(w, DocGet(doc, kind, resolves))
    ensures var d, r, p, id := w.handles[w.wrappers[doc].raw], Run(w, DocGet(doc, kind, resolves)), w.next, w.next + 1;
            && r.Fine? && p !in w.handles && id !in w.wrappers && d.DocHandle?
            && if resolves then
                 && r.value.handles == w.handles[p := Typed(kind, d.state)]
                 && r.value.wrappers == w.wrappers[id := ContainerWrapper(kind, p, None)]
               else r.value == w
  {
    hide Books, Joined;
    FieldsOf(w, {}, doc);
    Unused(w, w.next);
    Unused(w, w.next + 1);
  }

  /** What a lookup finds is a handle on the parent's state, or on none if it is a plain value. */
  lemma {:induction false} GetEffect(w: World, parent: nat, keyOk: bool, found: Found)
    requires Ledger(w) && Callable(w, Get(parent, keyOk, found))
    ensures var m, r, p, id := w.handles[w.wrappers[parent].raw], Run(w, Get(parent, keyOk, found)), w.next, w.next + 1;
            && r.Fine? && p !in w.handles && id !in w.wrappers && m.Typed?
            && if !keyOk || found.Absent? then r.value == w
               else
                 && r.value.handles ==
                    w.handles[p := if found.Child? then VocContainer(found.kind, m.state) else VocValue]
                 && r.value.wrappers == w.wrappers[id := VocWrapper(p)]
  {
    hide Books, Joined;
    FieldsOf(w, {}, parent);
    Unused(w, w.next);
    Unused(w, w.next + 1);
  }

  /** Adopting a new erased handle leaves a typed one in its place, or nothing if the kind is wrong. */
  lemma {:induction false} AdoptEffect(w: World, h: Handle, kind: Kind)
    requires h.Erased? && w.next !in w.handles && w.next + 1 !in w.handles
    ensures var r, p, id := Adopt(Boxed(w, h), kind, w.next), w.next + 1, w.next + 2;
            && r.Fine?
            && if h.kind == kind then
                 && r.value.handles == w.handles[p := Typed(kind, h.state)]
                 && r.value.wrappers == w.wrappers[id := ContainerWrapper(kind, p, None)]
               else r.value.handles == w.handles && r.value.wrappers == w.wrappers
  {
    hide Joined, Left;
    var w1 := Boxed(w, h);
    assert w1.handles - {w.next} == w.handles;
    assert Boxed(w1, Typed(kind, h.state)).handles - {w.next} == w.handles[w1.next := Typed(kind, h.state)];
  }

  /**
   An insert of a detached child takes the child's erased handle from its wrapper. It is freed, and with an
   accepting library a new wrapper of the child's kind holds a typed handle on the parent's state; under a bad
   key it stays live in no wrapper.
   */
  lemma {:induction false} InsertEffect(w: World, parent: nat, keyOk: bool, child: nat, accepted: bool)
    requires Ledger(w) && IsContainer(w, parent) && IsContainer(w, child)
    ensures var r := InsertContainer(w, parent, keyOk, child, accepted);
            var c, m := w.wrappers[child], w.handles[w.wrappers[parent].raw];
            && r.Fine? && m.Typed?
            && if c.container.None? then r.value == w
               else
                 var taken, wrappers := c.container.value, w.wrappers[child := c.(container := None)];
                 var p, id := w.next + 1, w.next + 2;
                 && p !in w.handles && id !in w.wrappers
                 && if !keyOk then r.value.handles == w.handles && r.value.wrappers == wrappers
                    else if !accepted then r.value.handles == w.handles - {taken} && r.value.wrappers == wrappers
                    else
                      && r.value.handles == (w.handles - {taken})[p := Typed(c.kind, m.state)]
                      && r.value.wrappers == wrappers[id := ContainerWrapper(c.kind, p, None)]
  {
    hide Books, Adopt, Left, FieldsLive;
    var c := w.wrappers[child];
    ParentTyped(w, parent);
    if c.container.Some? {
      hide InsertContainer, Dropped, Boxed;
      ParentAndChild(w, parent, child);
      InsertShape(w, parent, keyOk, child, accepted);
      Unused(w, w.next);
      Unused(w, w.next + 1);
      Unused(w, w.next + 2);
      var w1 := w.(wrappers := w.wrappers[child := c.(container := None)]);
      DropEffect(w1, c.container.value);
      var w2 := Dropped(w1, c.container.value).value;
      AdoptEffect(w2, Erased(c.kind, w.handles[w.wrappers[parent].raw].state), c.kind);
    }
  }

  lemma {:induction false} ParentTyped(w: World, parent: nat)
    requires Ledger(w) && IsContainer(w, parent)
    ensures w.wrappers[parent].raw in w.handles && w.handles[w.wrappers[parent].raw].Typed?
  {
    hide Books;
    FieldsOf(w, {}, parent);
  }

  lemma {:induction false} DropEffect(w: World, p: nat)
    requires p in w.handles
    ensures var r := Dropped(w, p);
            && r.Fine? && r.value.handles == w.handles - {p} && r.value.wrappers == w.wrappers
            && r.value.next == w.next && r.value.lost == w.lost
  {
  }

  /** An existing child is one more handle on the parent's state; otherwise the given one is inserted. */
  lemma {:induction false} GetOrCreateEffect(w: World, parent: nat, keyOk: bool, child: nat, found: Found,
                                             accepted: bool)
    requires Callable(w, GetOrCreate(parent, keyOk, child, found, accepted)) && Ledger(w)
    ensures w.wrappers[parent].raw in w.handles
    ensures var r := Run(w, GetOrCreate(parent, keyOk, child, found, accepted));
            var kind, m, p, id := w.wrappers[child].kind, w.handles[w.wrappers[parent].raw], w.next + 1, w.next + 2;
            && m.Typed? && p !in w.handles && id !in w.wrappers
            && if !(keyOk && found.Child?) then r == InsertContainer(w, parent, keyOk, child, accepted)
               else
                 && r.Fine?
                 && if found.kind == kind then
                      && r.value.handles == w.handles[p := Typed(kind, m.state)]
                      && r.value.wrappers == w.wrappers[id := ContainerWrapper(kind, p, None)]
                    else r.value.handles == w.handles && r.value.wrappers == w.wrappers
  {
    hide Books, InsertContainer, Adopt, Boxed, FieldsLive;
    ParentTyped(w, parent);
    Unused(w, w.next);
    Unused(w, w.next + 1);
    Unused(w, w.next + 2);
    AdoptEffect(w, Erased(if found.Child? then found.kind else TextKind, w.handles[w.wrappers[parent].raw].state),
                w.wrappers[child].kind);
  }

  /** as_value leaves everything as it was. */
  lemma {:induction false} AsValueEffect(w: World, voc: nat)
    requires Ledger(w) && Callable(w, AsValue(voc))
    ensures var r := Run(w, AsValue(voc));
            r.Fine? && r.value.handles == w.handles && r.value.wrappers == w.wrappers
  {
    hide Books, Joined, Left;
    FieldsOf(w, {}, voc);
    Unused(w, w.next);
    assert Boxed(w, ValueBox).handles - {w.next} == w.handles;
  }

  /** A destructor takes the wrapper away and frees its handles and no others. */
  lemma {:induction false} DestroyEffect(w: World, id: nat)
    requires Ledger(w) && id in w.wrappers
    ensures var r := Run(w, Destroy(id));
            && r.Fine? && Held(w.wrappers[id]) <= w.handles.Keys
            && r.value.handles == w.handles - Held(w.wrappers[id])
            && r.value.wrappers == w.wrappers - {id}
            && r.value.lost == w.lost
  {
    hide Books, Left;
    FieldsOf(w, {}, id);
    var o := w.wrappers[id];
    assert (w.handles - {o.raw}) - (Held(o) - {o.raw}) == w.handles - Held(o);
  }
}
