/**
 The wrapper calls as they are coded: C functions that require live handles of the right type, and C++
 methods that only ever meet those requirements. Each leaves the world that Ownership says it leaves.
 */
module Wrappers {
  import opened Outcome
  import opened Ownership
  import opened Effects

  class Session {
    var handles: map<nat, Handle>
    var owners: map<nat, nat>
    var wrappers: map<nat, Wrapper>
    var next: nat
    ghost var lost: set<nat>

    ghost function Now(): World
      reads this
    {
      World(handles, owners, wrappers, lost, next)
    }

    /** The latest object is an attached container of the kind on the state. */
    predicate Gave(id: nat, kind: Kind, state: Option<nat>)
      reads this
    {
      && id + 1 == next && id in wrappers && wrappers[id] == ContainerWrapper(kind, wrappers[id].raw, None)
      && wrappers[id].raw in handles && state.Some? && handles[wrappers[id].raw] == Typed(kind, state.value)
    }

    constructor ()
      ensures Now() == Empty && Ledger(Now())
    {
      handles, owners, wrappers, next, lost := map[], map[], map[], 0, {};
      new;
      EmptyLedger();
    }

    // C functions.

    method IntoRaw(h: Handle) returns (p: nat)
      modifies this
      ensures p == old(next) && Now() == Boxed(old(Now()), h)
    {
      p := next;
      handles := handles[p := h];
      owners := Joined(owners, StateOf(h));
      next := next + 1;
    }

    /** loro_container_free, loro_*_free, loro_value_or_container_free and loro_value_free: once for each handle. */
    method Free(p: nat)
      requires p in handles
      modifies this
      ensures Dropped(old(Now()), p) == Fine(Now())
    {
      owners := Left(owners, StateOf(handles[p]));
      handles := handles - {p};
    }

    /** loro_container_get_text and its siblings */
    method ContainerGet(container: nat, kind: Kind) returns (r: Option<nat>)
      requires container in handles && handles[container].Erased?
      modifies this
      ensures r == if old(handles)[container].kind == kind then Some(old(next)) else None
      ensures Now() == if r.Some? then Boxed(old(Now()), Typed(kind, old(handles)[container].state)) else old(Now())
    {
      if handles[container].kind != kind {
        return None;
      }
      var typed := IntoRaw(Typed(kind, handles[container].state));
      return Some(typed);
    }

    /**
     loro_map_insert_container: a bad key returns before the child is taken; otherwise the child is consumed
     whatever the library answers.
     */
    method InsertInto(target: nat, keyOk: bool, child: nat, accepted: bool) returns (r: Option<nat>)
      requires target in handles && handles[target].Typed?
      requires child in handles && handles[child].Erased?
      modifies this
      ensures !keyOk ==> r == None && Now() == old(Now())
      ensures keyOk ==> var w := Dropped(old(Now()), child).value;
                        if accepted then
                          && r == Some(w.next)
                          && Now() == Boxed(w, Erased(old(handles)[child].kind, old(handles)[target].state))
                        else r == None && Now() == w
    {
      if !keyOk {
        return None;
      }
      var state := handles[target].state;
      var taken := handles[child];
      Free(child);
      if !accepted {
        return None;
      }
      var attached := IntoRaw(Erased(taken.kind, state));
      return Some(attached);
    }

    // C++ methods.

    method Wrap(o: Wrapper) returns (id: nat)
      modifies this
      ensures id == old(next) && Now() == Wrapped(old(Now()), o)
    {
      id := next;
      wrappers := wrappers[id := o];
      next := next + 1;
    }

    method NewDocument() returns (id: nat)
      requires Ledger(Now())
      modifies this
      ensures Ledger(Now()) && Run(old(Now()), NewDoc) == Fine(Now())
      ensures id + 1 == next && id in wrappers && wrappers[id].DocWrapper?
      ensures wrappers[id].raw in handles && handles[wrappers[id].raw].DocHandle?
      ensures handles[wrappers[id].raw].state !in old(owners)
    {
      RunBooks(Now(), NewDoc);
      var raw := IntoRaw(DocHandle(next));
      id := Wrap(DocWrapper(raw));
    }

    /** LoroText::init and its siblings */
    method InitDetached(kind: Kind) returns (id: nat)
      requires Ledger(Now()) && !kind.UnknownKind?
      modifies this
      ensures Ledger(Now()) && Run(old(Now()), Init(kind)) == Fine(Now())
      ensures id + 1 == next && id in wrappers
      ensures wrappers[id].ContainerWrapper? && wrappers[id].kind == kind && wrappers[id].container.Some?
      ensures exists state :: state !in old(owners) &&
                (wrappers[id].raw, Typed(kind, state)) in handles.Items &&
                (wrappers[id].container.value, Erased(kind, state)) in handles.Items
    {
      RunBooks(Now(), Init(kind));
      var container := IntoRaw(Erased(kind, next));
      var typed := ContainerGet(container, kind);
      id := Wrap(ContainerWrapper(kind, typed.value, Some(container)));
    }

    /** get_container_typed */
    method DocContainer(doc: nat, kind: Kind, resolves: bool) returns (r: Result<nat>)
      requires Callable(Now(), DocGet(doc, kind, resolves)) && Ledger(Now())
      modifies this
      ensures Ledger(Now()) && Run(old(Now()), DocGet(doc, kind, resolves)) == Fine(Now())
      ensures r.Success? <==> resolves
      ensures r.Success? ==> Gave(r.value, kind, StateUnder(old(Now()), doc))
    {
      hide Books;
      FieldsOf(Now(), {}, doc);
      RunBooks(Now(), DocGet(doc, kind, resolves));
      if !resolves {
        return Failure(NullHandle);
      }
      var raw := IntoRaw(Typed(kind, handles[wrappers[doc].raw].state));
      var id := Wrap(ContainerWrapper(kind, raw, None));
      return Success(id);
    }

    method AdoptHandle(kind: Kind, attached: nat) returns (r: Result<nat>)
      requires attached in handles && handles[attached].Erased? && next !in handles
      modifies this
      ensures Adopt(old(Now()), kind, attached) == Fine(Now())
      ensures r.Success? <==> old(handles)[attached].kind == kind
      ensures r.Success? ==> Gave(r.value, kind, Some(old(handles)[attached].state))
    {
      var typed := ContainerGet(attached, kind);
      Free(attached);
      if typed.None? {
        return Failure(NullHandle);
      }
      var id := Wrap(ContainerWrapper(kind, typed.value, None));
      return Success(id);
    }

    /** take_container: the field is nulled; a wrapper that is not detached throws. */
    method TakeContainer(child: nat) returns (r: Result<nat>)
      requires IsContainer(Now(), child)
      modifies this`wrappers
      ensures var c := old(wrappers)[child].container;
              r == if c.Some? then Success(c.value) else Failure(NullHandle)
      ensures wrappers == old(wrappers)[child := old(wrappers)[child].(container := None)]
    {
      match wrappers[child].container
      case None => return Failure(NullHandle);
      case Some(c) =>
        wrappers := wrappers[child := wrappers[child].(container := None)];
        return Success(c);
    }

    /** insert_container_by_key */
    method InsertByKey(parent: nat, keyOk: bool, child: nat, accepted: bool) returns (r: Result<nat>)
      requires IsContainer(Now(), parent) && IsContainer(Now(), child) && Ledger(Now())
      modifies this
      ensures Ledger(Now()) && InsertContainer(old(Now()), parent, keyOk, child, accepted) == Fine(Now())
      ensures r.Success? <==> old(wrappers)[child].container.Some? && keyOk && accepted
      ensures r.Success? ==> Gave(r.value, old(wrappers)[child].kind, StateUnder(old(Now()), parent))
    {
      hide Books;
      InsertBooks(Now(), parent, keyOk, child, accepted);
      HandlesOld(Now(), {});
      FieldsOf(Now(), {}, parent);
      FieldsOf(Now(), {}, child);
      var kind := wrappers[child].kind;
      var taken := TakeContainer(child);
      if taken.Failure? {
        assert wrappers == old(wrappers);
        return Failure(taken.error);
      }
      if !keyOk {
        lost := lost + {taken.value};
      }
      var attached := InsertInto(wrappers[parent].raw, keyOk, taken.value, accepted);
      if attached.None? {
        return Failure(NullHandle);
      }
      r := AdoptHandle(kind, attached.value);
    }

    /** get_or_create_container_by_key */
    method GetOrCreateByKey(parent: nat, keyOk: bool, child: nat, found: Found, accepted: bool) returns (r: Result<nat>)
      requires Callable(Now(), GetOrCreate(parent, keyOk, child, found, accepted)) && Ledger(Now())
      modifies this
      ensures var c := old(wrappers)[child];
              r.Success? <==> keyOk && if found.Child? then found.kind == c.kind else c.container.Some? && accepted
      ensures r.Success? ==> Gave(r.value, old(wrappers)[child].kind, StateUnder(old(Now()), parent))
      ensures Ledger(Now()) && Run(old(Now()), GetOrCreate(parent, keyOk, child, found, accepted)) == Fine(Now())
    {
      hide Books, InsertContainer, Adopt;
      RunBooks(Now(), GetOrCreate(parent, keyOk, child, found, accepted));
      HandlesOld(Now(), {});
      FieldsOf(Now(), {}, parent);
      if keyOk && found.Child? {
        var kind := wrappers[child].kind;
        var existing := IntoRaw(Erased(found.kind, handles[wrappers[parent].raw].state));
        r := AdoptHandle(kind, existing);
      } else {
        r := InsertByKey(parent, keyOk, child, accepted);
      }
    }

    /** LoroMap::get */
    method Lookup(parent: nat, keyOk: bool, found: Found) returns (r: Option<nat>)
      requires Callable(Now(), Get(parent, keyOk, found)) && Ledger(Now())
      modifies this
      ensures Ledger(Now()) && Run(old(Now()), Get(parent, keyOk, found)) == Fine(Now())
      ensures r.Some? <==> keyOk && !found.Absent?
      ensures r.Some? ==>
        && r.value + 1 == next && r.value in wrappers && wrappers[r.value].VocWrapper?
        && wrappers[r.value].raw in handles
        && match handles[wrappers[r.value].raw]
           case VocContainer(kind, state) => found == Child(kind) && Some(state) == StateUnder(old(Now()), parent)
           case VocValue => found.PlainValue?
           case _ => false
    {
      hide Books;
      RunBooks(Now(), Get(parent, keyOk, found));
      FieldsOf(Now(), {}, parent);
      if !keyOk || found.Absent? {
        return None;
      }
      var state := handles[wrappers[parent].raw].state;
      var raw := IntoRaw(if found.Child? then VocContainer(found.kind, state) else VocValue);
      var id := Wrap(VocWrapper(raw));
      return Some(id);
    }

    /** ValueOrContainer::as_loro_text and its siblings */
    method AsTyped(voc: nat, kind: Kind) returns (r: Result<nat>)
      requires Callable(Now(), AsContainer(voc, kind)) && Ledger(Now())
      modifies this
      ensures Ledger(Now()) && Run(old(Now()), AsContainer(voc, kind)) == Fine(Now())
      ensures r.Success? <==> var h := old(handles)[old(wrappers)[voc].raw]; h.VocContainer? && h.kind == kind
      ensures r.Success? ==> Gave(r.value, kind, StateUnder(old(Now()), voc))
    {
      hide Books, Adopt;
      RunBooks(Now(), AsContainer(voc, kind));
      HandlesOld(Now(), {});
      FieldsOf(Now(), {}, voc);
      match handles[wrappers[voc].raw]
      case VocContainer(k, state) =>
        var container := IntoRaw(Erased(k, state));
        r := AdoptHandle(kind, container);
      case _ => return Failure(NullHandle);
    }

    /** ValueOrContainer::as_value: the value box is freed before the call returns. */
    method ReadValue(voc: nat) returns (isValue: bool)
      requires Callable(Now(), AsValue(voc)) && Ledger(Now())
      modifies this
      ensures Ledger(Now()) && Run(old(Now()), AsValue(voc)) == Fine(Now())
      ensures isValue <==> old(handles)[old(wrappers)[voc].raw].VocValue?
      ensures handles == old(handles) && owners == old(owners) && wrappers == old(wrappers)
    {
      hide Books;
      FieldsOf(Now(), {}, voc);
      HandlesOld(Now(), {});
      isValue := handles[wrappers[voc].raw].VocValue?;
      RunBooks(Now(), AsValue(voc));
      if isValue {
        var box := IntoRaw(ValueBox);
        Free(box);
        assert handles == old(handles);
      }
    }

    /** The destructors. */
    method DestroyWrapper(id: nat)
      requires id in wrappers && Ledger(Now())
      modifies this
      ensures Ledger(Now()) && Run(old(Now()), Destroy(id)) == Fine(Now())
      ensures wrappers == old(wrappers) - {id} && handles == old(handles) - Held(old(wrappers)[id])
    {
      hide Books;
      DestroyEffect(Now(), id);
      RunBooks(Now(), Destroy(id));
      FieldsOf(Now(), {}, id);
      var o := wrappers[id];
      wrappers := wrappers - {id};
      Free(o.raw);
      if o.ContainerWrapper? && o.container.Some? {
        Free(o.container.value);
      }
    }
  }
}
