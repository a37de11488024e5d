/** to_c_value and from_c_value of include/loro.hpp, with the ledger of the boxes they make and free. */
module ValueBridge {
  import opened Bytes
  import opened Outcome
  import opened Json
  import opened Cid
  import opened LoroValues
  import opened ValueHeap
  import opened ValueAbi
  import opened Reader
  import opened Documents
  import opened StringLists
  import opened Surrogates
  import Utf8

  /** The values that cross: no container, and every string and key is UTF-8. */
  predicate Convertible(v: LoroValue)
    decreases v, 0
  {
    match v
    case KString(s) => Utf8.WellFormed(s)
    case KContainer(_) => false
    case KList(items) => forall k :: 0 <= k < |items| ==> Convertible(items[k])
    case KMap(entries) => forall key :: key in entries ==> EntryConvertible(key, entries[key])
    case _ => true
  }

  predicate EntryConvertible(key: bytes, v: LoroValue)
    decreases v, 1
  {
    Utf8.WellFormed(key) && Convertible(v)
  }

  /** A string the Rust side refuses; its box is null. */
  predicate BadString(v: LoroValue) {
    v.KString? && !Utf8.WellFormed(v.s)
  }

  /**
   How many boxes a conversion that throws leaves behind: each list and map under construction, from the
   outermost down to the part that failed. A map is walked in any order.
   */
  ghost predicate Leaks(v: LoroValue, n: nat)
    decreases v, 0
  {
    match v
    case KContainer(_) => n == 0
    case KList(items) =>
      exists k :: 0 <= k < |items| && (forall j :: 0 <= j < k ==> Convertible(items[j])) && PartLeaks(items[k], n)
    case KMap(entries) =>
      exists key :: key in entries &&
        EntryLeaks(key, entries[key], n)
    case _ => false
  }

  /** The part of a list or map whose conversion stopped it. */
  ghost predicate PartLeaks(v: LoroValue, n: nat)
    decreases v, 1
  {
    n > 0 && !Convertible(v) && if BadString(v) then n == 1 else Leaks(v, n - 1)
  }

  ghost predicate EntryLeaks(key: bytes, v: LoroValue, n: nat)
    decreases v, 2
  {
    PartLeaks(v, n) || (n == 1 && Convertible(v) && !Utf8.WellFormed(key))
  }

  /** The boxes of before are all there and show what they showed. */
  ghost predicate Kept(before: map<nat, LoroValue>, after: map<nat, LoroValue>) {
    forall p :: p in before ==> p in after && after[p] == before[p]
  }

  /** n boxes more than before, none of the old ones touched. */
  ghost predicate Leaked(before: map<nat, LoroValue>, after: map<nat, LoroValue>, n: nat) {
    Kept(before, after) && |after| == |before| + n
  }

  /** to_c_value's own exception for a container, or check's for a refused push or insert. */
  predicate Thrown(e: Error) {
    e == NoValueForm || e == BadStatus
  }

  /** The scalar constructor's argument. */
  function ScalarOf(v: LoroValue): Inner
    requires !v.KList? && !v.KMap? && !v.KContainer?
  {
    match v
    case KNull => INull
    case KBool(b) => IBool(b)
    case KDouble(d) => IDouble(d)
    case KI64(i) => II64(i)
    case KBinary(data) => IBinary(data)
    case KString(s) => IString(s)
  }

  /**
   to_c_value. A convertible value becomes exactly one new box that shows it; a top-level string that is
   no UTF-8 becomes null; anything else throws and leaves its half-built lists and maps behind. No box but
   the result stays exactly for these and for a bare container.
   */
  method ToCValue(abi: ValueAbi, v: LoroValue) returns (r: Result<Option<nat>>)
    requires abi.Ok()
    modifies abi
    ensures abi.Ok()
    ensures Convertible(v) <==> r.Success? && r.value.Some?
    ensures Convertible(v) ==> r.value.value !in old(abi.Shown()) && abi.Shown() == old(abi.Shown())[r.value.value := v]
    ensures BadString(v) <==> r == Success(None)
    ensures BadString(v) ==> abi.Shown() == old(abi.Shown())
    ensures r.Failure? ==> exists n: nat :: Leaks(v, n) && Leaked(old(abi.Shown()), abi.Shown(), n)
    ensures r.Failure? ==> Thrown(r.error) && (v.KContainer? ==> r.error == NoValueForm)
    ensures |abi.Shown()| == |old(abi.Shown())| + (if Convertible(v) then 1 else 0) <==>
            Convertible(v) || BadString(v) || v.KContainer?
    decreases v, 1
  {
    hide Leaks, Leaked, View, Convertible, PartLeaks;
    KindConvertible(v);
    match v {
      case KList(items) => r := ListToC(abi, v);
      case KMap(entries) => r := MapToC(abi, v);
      case KContainer(id) =>
        r := Failure(NoValueForm);
        NothingLost(abi.Shown());
        ContainerLeaksNothing(id);
      case _ =>
        var p := abi.NewScalar(ScalarOf(v));
        r := Success(p);
    }
    LeftBehind(v, old(abi.Shown()), abi.Shown(), r);
  }

  lemma {:induction false} KindConvertible(v: LoroValue)
    ensures v.KContainer? ==> !Convertible(v)
    ensures !v.KList? && !v.KMap? && !v.KContainer? ==> (Convertible(v) <==> !BadString(v))
  {
  }

  lemma {:induction false} ContainerLeaksNothing(id: ContainerId)
    ensures Leaks(KContainer(id), 0)
  {
  }

  lemma {:induction false} LeftBehind(v: LoroValue, before: map<nat, LoroValue>, after: map<nat, LoroValue>,
                                      r: Result<Option<nat>>)
    requires Convertible(v) <==> r.Success? && r.value.Some?
    requires BadString(v) <==> r == Success(None)
    requires Convertible(v) ==> r.value.value !in before && after == before[r.value.value := v]
    requires BadString(v) ==> after == before
    requires r.Failure? ==> exists n: nat :: Leaks(v, n) && Leaked(before, after, n)
    ensures |after| == |before| + (if Convertible(v) then 1 else 0) <==>
            Convertible(v) || BadString(v) || v.KContainer?
  {
    hide Leaks, Convertible;
    if r.Failure? {
      var n: nat :| Leaks(v, n) && Leaked(before, after, n);
      ThrowLeaks(v, n);
    }
  }

  method ListToC(abi: ValueAbi, v: LoroValue) returns (r: Result<Option<nat>>)
    requires abi.Ok() && v.KList?
    modifies abi
    ensures abi.Ok()
    ensures Convertible(v) <==> r.Success?
    ensures r.Success? ==>
      r.value.Some? && r.value.value !in old(abi.Shown()) && abi.Shown() == old(abi.Shown())[r.value.value := v]
    ensures r.Failure? ==> exists n: nat :: Leaks(v, n) && Leaked(old(abi.Shown()), abi.Shown(), n)
    ensures r.Failure? ==> Thrown(r.error)
    decreases v, 0
  {
    hide View, Leaks, Leaked, PartLeaks, Convertible, Step, ValueStep;
    ghost var before := abi.Shown();
    var items := v.items;
    var list := abi.NewList();
    EmptyBox(before, list);
    for k := 0 to |items|
      invariant abi.Ok()
      invariant forall j :: 0 <= j < k ==> Convertible(items[j])
      invariant abi.Shown() == before[list := KList(items[..k])]
    {
      ghost var building := abi.Shown();
      var put := PushItem(abi, list, items[k]);
      if put.Failure? {
        ListFails(v, k, before, building, list, abi.Shown());
        return Failure(put.error);
      }
      assert items[..k + 1] == items[..k] + [items[k]];
    }
    assert items[..|items|] == items;
    AllConvertible(v);
    return Success(Some(list));
  }

  /** One round of the list loop: the child is converted, pushed as a clone, and its box freed. */
  method PushItem(abi: ValueAbi, list: nat, item: LoroValue) returns (r: Result<()>)
    requires abi.Ok() && list in abi.Shown() && abi.Shown()[list].KList?
    modifies abi
    ensures abi.Ok()
    ensures Convertible(item) <==> r.Success?
    ensures r.Success? ==> abi.Shown() == old(abi.Shown())[list := KList(old(abi.Shown())[list].items + [item])]
    ensures r.Failure? ==> exists n: nat :: PartLeaks(item, n + 1) && Leaked(old(abi.Shown()), abi.Shown(), n)
    ensures r.Failure? ==> Thrown(r.error)
    decreases item, 2
  {
    hide View, Leaks, Leaked, Convertible, Step, ValueStep;
    ghost var before := abi.Shown();
    BadStringStops(item);
    NothingLost(before);
    var child := ToCValue(abi, item);
    if child.Failure? {
      return Failure(child.error);
    }
    if child.value.Some? {
      PushRound(before, list, item, child.value.value);
    }
    var s := abi.ListPush(list, child.value);
    if child.value.Some? {
      abi.Release(child.value.value);
    }
    if s != StatusOk {
      assert PartLeaks(item, 0 + 1) && Leaked(before, abi.Shown(), 0);
      return Failure(BadStatus);
    }
    return Success(());
  }

  method MapToC(abi: ValueAbi, v: LoroValue) returns (r: Result<Option<nat>>)
    requires abi.Ok() && v.KMap?
    modifies abi
    ensures abi.Ok()
    ensures Convertible(v) <==> r.Success?
    ensures r.Success? ==>
      r.value.Some? && r.value.value !in old(abi.Shown()) && abi.Shown() == old(abi.Shown())[r.value.value := v]
    ensures r.Failure? ==> exists n: nat :: Leaks(v, n) && Leaked(old(abi.Shown()), abi.Shown(), n)
    ensures r.Failure? ==> Thrown(r.error)
    decreases v, 0
  {
    hide View, Valid, Leaks, Leaked, EntryLeaks, Convertible, EntryConvertible, Callable, Step, ValueStep;
    ghost var before := abi.Shown();
    var entries := v.entries;
    var dict := abi.NewMap();
    EmptyBox(before, dict);
    var rest := entries.Keys;
    assert entries - rest == map[];
    while rest != {}
      invariant abi.Ok() && rest <= entries.Keys
      invariant forall key :: key in entries && key !in rest ==> EntryConvertible(key, entries[key])
      invariant abi.Shown() == before[dict := KMap(entries - rest)]
      decreases |rest|
    {
      var key :| key in rest;
      ghost var building := abi.Shown();
      var put := InsertEntry(abi, dict, key, entries[key]);
      if put.Failure? {
        MapFails(v, key, before, building, dict, abi.Shown());
        return Failure(put.error);
      }
      RestShrinks(entries, rest, key, before, dict);
      rest := rest - {key};
    }
    assert entries - rest == entries;
    AllConvertible(v);
    return Success(Some(dict));
  }

  lemma {:induction false} RestShrinks(entries: map<bytes, LoroValue>, rest: set<bytes>, key: bytes,
                                       before: map<nat, LoroValue>, dict: nat)
    requires key in entries && key in rest
    ensures before[dict := KMap(entries - rest)][dict := KMap((entries - rest)[key := entries[key]])] ==
            before[dict := KMap(entries - (rest - {key}))]
  {
    assert (entries - rest)[key := entries[key]] == entries - (rest - {key});
  }

  /** One round of the map loop. */
  method InsertEntry(abi: ValueAbi, dict: nat, key: bytes, item: LoroValue) returns (r: Result<()>)
    requires abi.Ok() && dict in abi.Shown() && abi.Shown()[dict].KMap?
    modifies abi
    ensures abi.Ok()
    ensures EntryConvertible(key, item) <==> r.Success?
    ensures r.Success? ==> abi.Shown() == old(abi.Shown())[dict := KMap(old(abi.Shown())[dict].entries[key := item])]
    ensures r.Failure? ==> exists n: nat :: EntryLeaks(key, item, n + 1) && Leaked(old(abi.Shown()), abi.Shown(), n)
    ensures r.Failure? ==> Thrown(r.error)
    decreases item, 2
  {
    hide View, Leaks, Leaked, Convertible, Step, ValueStep;
    ghost var before := abi.Shown();
    BadStringStops(item);
    NothingLost(before);
    var child := ToCValue(abi, item);
    if child.Failure? {
      ghost var n: nat :| Leaks(item, n) && Leaked(before, abi.Shown(), n);
      assert EntryLeaks(key, item, n + 1);
      return Failure(child.error);
    }
    if child.value.Some? {
      InsertRound(before, dict, key, item, child.value.value);
    }
    var s := abi.MapInsert(dict, key, child.value);
    if child.value.Some? {
      abi.Release(child.value.value);
    }
    if s != StatusOk {
      assert abi.Shown() == before;
      assert EntryLeaks(key, item, 0 + 1) && Leaked(before, abi.Shown(), 0);
      return Failure(BadStatus);
    }
    return Success(());
  }

  /** The list under construction is lost together with what was lost inside it. */
  lemma {:induction false} ListFails(v: LoroValue, k: nat, before: map<nat, LoroValue>,
                                     building: map<nat, LoroValue>, box: nat, after: map<nat, LoroValue>)
    requires v.KList? && k < |v.items| && (forall j :: 0 <= j < k ==> Convertible(v.items[j]))
    requires box !in before && box in building && building == before[box := building[box]]
    requires exists n: nat :: PartLeaks(v.items[k], n + 1) && Leaked(building, after, n)
    ensures !Convertible(v) && exists n: nat :: Leaks(v, n) && Leaked(before, after, n)
  {
    var n: nat :| PartLeaks(v.items[k], n + 1) && Leaked(building, after, n);
    LeakedMore(before, building, box, after, n);
    assert Leaks(v, n + 1);
  }

  lemma {:induction false} MapFails(v: LoroValue, key: bytes, before: map<nat, LoroValue>,
                                    building: map<nat, LoroValue>, box: nat, after: map<nat, LoroValue>)
    requires v.KMap? && key in v.entries
    requires box !in before && box in building && building == before[box := building[box]]
    requires exists n: nat :: EntryLeaks(key, v.entries[key], n + 1) && Leaked(building, after, n)
    ensures !Convertible(v) && exists n: nat :: Leaks(v, n) && Leaked(before, after, n)
  {
    var n: nat :| EntryLeaks(key, v.entries[key], n + 1) && Leaked(building, after, n);
    LeakedMore(before, building, box, after, n);
    assert Leaks(v, n + 1);
    assert !EntryConvertible(key, v.entries[key]);
  }

  lemma {:induction false} EmptyBox(view: map<nat, LoroValue>, p: nat)
    requires p !in view
    ensures ValueStep(view, Op.NewList(p)) == view[p := KList([])]
    ensures ValueStep(view, Op.NewMap(p)) == view[p := KMap(map[])]
  {
  }

  lemma {:induction false} PushRound(before: map<nat, LoroValue>, list: nat, item: LoroValue, child: nat)
    requires list in before && before[list].KList? && child !in before
    ensures var made := before[child := item];
            var pushed := ValueStep(made, Push(list, child));
            Callable(pushed.Keys, Free(child)) &&
            ValueStep(pushed, Free(child)) == before[list := KList(before[list].items + [item])]
  {
  }

  lemma {:induction false} InsertRound(before: map<nat, LoroValue>, dict: nat, key: bytes, item: LoroValue, child: nat)
    requires dict in before && before[dict].KMap? && child !in before
    ensures var made := before[child := item];
            && Callable(made.Keys, Free(child)) && ValueStep(made, Free(child)) == before
            && (Utf8.WellFormed(key) ==>
                  var inserted := ValueStep(made, Insert(dict, key, child));
                  Callable(inserted.Keys, Free(child)) &&
                  ValueStep(inserted, Free(child)) == before[dict := KMap(before[dict].entries[key := item])])
  {
    assert before[child := item] - {child} == before;
  }

  lemma {:induction false} NothingLost(view: map<nat, LoroValue>)
    ensures Leaked(view, view, 0)
  {
  }

  lemma {:induction false} BadStringStops(v: LoroValue)
    ensures BadString(v) ==> !Convertible(v)
  {
  }

  lemma {:induction false} AllConvertible(v: LoroValue)
    ensures v.KList? ==> (Convertible(v) <==> forall k :: 0 <= k < |v.items| ==> Convertible(v.items[k]))
    ensures v.KMap? ==> (Convertible(v) <==> forall key :: key in v.entries ==> EntryConvertible(key, v.entries[key]))
  {
  }

  /** The box under construction counts once more than what was lost inside it. */
  lemma {:induction false} LeakedMore(before: map<nat, LoroValue>, building: map<nat, LoroValue>, box: nat,
                                      after: map<nat, LoroValue>, n: nat)
    requires box !in before && box in building && building == before[box := building[box]] && Leaked(building, after, n)
    ensures Leaked(before, after, n + 1)
  {
    assert building.Keys == before.Keys + {box};
    assert |building| == |building.Keys| && |before| == |before.Keys|;
  }

  /**
   A conversion throws only on values that are not convertible, and then leaves boxes behind unless the
   value is itself a container.
   */
  lemma {:induction false} ThrowLeaks(v: LoroValue, n: nat)
    requires Leaks(v, n)
    ensures !Convertible(v) && (n == 0 <==> v.KContainer?)
  {
    match v
    case KMap(entries) =>
      var key :| key in entries && EntryLeaks(key, entries[key], n);
      assert PartLeaks(entries[key], n) || (n == 1 && !Utf8.WellFormed(key));
      assert !EntryConvertible(key, entries[key]);
    case _ =>
  }

  /** The smallest leak: a list with a container in it loses one box, itself. */
  lemma {:induction false} ListOfContainerLeaks(id: ContainerId, n: nat)
    ensures Leaks(KList([KContainer(id)]), n) <==> n == 1
  {
    var items := [KContainer(id)];
    assert Leaks(items[0], 0);
    assert n > 0 ==> (Leaks(items[0], n - 1) <==> n == 1);
    assert PartLeaks(items[0], n) <==> n == 1;
    assert KList(items).items == items;
    OnlyItemLeaks(items, n);
  }

  lemma {:induction false} OnlyItemLeaks(items: seq<LoroValue>, n: nat)
    requires |items| == 1
    ensures Leaks(KList(items), n) <==> PartLeaks(items[0], n)
  {
    hide PartLeaks;
  }

  // from_c_value

  /** Every container id in the value has a name its string can carry. */
  predicate Named(v: LoroValue) {
    match v
    case KContainer(id) => id.Root? ==> id.name != []
    case KList(items) => forall k :: 0 <= k < |items| ==> Named(items[k])
    case KMap(entries) => forall key :: key in entries ==> Named(entries[key])
    case _ => true
  }

  /** What is read back: the value itself, but for the kinds of unknown container types. */
  function Reread(v: LoroValue): LoroValue {
    match v
    case KContainer(id) =>
      KContainer(match id
                 case Root(name, ty) => Root(name, TypeFromName(TypeName(ty)))
                 case Normal(peer, counter, ty) => Normal(peer, counter, TypeFromName(TypeName(ty))))
    case KList(items) => KList(seq(|items|, k requires 0 <= k < |items| => Reread(items[k])))
    case KMap(entries) => KMap(map key | key in entries :: Reread(entries[key]))
    case _ => v
  }

  function ReadBack(v: LoroValue): Result<LoroValue> {
    if Named(v) then Success(Reread(v)) else Failure(MalformedRootCid)
  }

  predicate ContainerFree(v: LoroValue) {
    match v
    case KContainer(_) => false
    case KList(items) => forall k :: 0 <= k < |items| ==> ContainerFree(items[k])
    case KMap(entries) => forall key :: key in entries ==> ContainerFree(entries[key])
    case _ => true
  }

  /** Without containers nothing changes: binary stays binary, doubles stay doubles. */
  lemma {:induction false} RereadSame(v: LoroValue)
    requires ContainerFree(v)
    ensures ReadBack(v) == Success(v)
  {
    match v
    case KList(items) =>
      forall k | 0 <= k < |items|
        ensures Named(items[k]) && Reread(items[k]) == items[k]
      {
        RereadSame(items[k]);
      }
      assert Reread(v).items == items;
    case KMap(entries) =>
      forall key | key in entries
        ensures Named(entries[key]) && Reread(entries[key]) == entries[key]
      {
        RereadSame(entries[key]);
      }
      assert Reread(v).entries == entries;
    case _ =>
  }

  lemma {:induction false} ConvertibleContainerFree(v: LoroValue)
    requires Convertible(v)
    ensures ContainerFree(v)
  {
    match v
    case KList(items) =>
      forall k | 0 <= k < |items|
        ensures ContainerFree(items[k])
      {
        ConvertibleContainerFree(items[k]);
      }
    case KMap(entries) =>
      forall key | key in entries
        ensures ContainerFree(entries[key])
      {
        assert EntryConvertible(key, entries[key]);
        ConvertibleContainerFree(entries[key]);
      }
    case _ =>
  }

  lemma {:induction false} CidReadBack(id: ContainerId)
    ensures ParseCid(CidText(id)) ==
            if Named(KContainer(id)) then Success(Reread(KContainer(id)).id) else Failure(MalformedRootCid)
  {
    hide ParseCid, CidText, TypeName, TypeFromName;
    match id
    case Root(name, ty) => RootText(name, ty);
    case Normal(peer, counter, ty) => NormalText(peer, counter, ty);
  }

  /** Visitor state: ValueMapCollector, and whether its user data has a destructor, with the calls of it. */
  class Collector {
    var out: map<bytes, LoroValue>
    var error: Option<Error>
    const hasFree: bool
    var frees: nat

    constructor (hasFree: bool)
      ensures out == map[] && error == None && frees == 0 && this.hasFree == hasFree
    {
      this.out, this.error, this.frees, this.hasFree := map[], None, 0, hasFree;
    }
  }

  /** from_c_value: it owns every box it makes and frees it again, also when it throws. */
  method FromCValue(abi: ValueAbi, p: nat) returns (r: Result<LoroValue>)
    requires abi.Ok() && p in abi.cells
    modifies abi
    ensures abi.H() == old(abi.H())
    ensures r == ReadBack(old(abi.Shown())[p])
    decreases Rank(abi.cells[p]), 3
  {
    hide View, Reread, Named, ReadBack, Valid, ParseCid, CidText;
    ScalarShown(abi.H(), p);
    match abi.cells[p]
    case INull => return Success(KNull);
    case IBool(b) => return Success(KBool(b));
    case IDouble(d) => return Success(KDouble(d));
    case II64(i) => return Success(KI64(i));
    case IBinary(data) => return Success(KBinary(data));
    case IString(s) => return Success(KString(s));
    case IContainer(id) =>
      var read :- ParseCid(CidText(id));
      return Success(KContainer(read));
    case IList(arc) => r := ListFromC(abi, p);
    case IMap(arc) =>
      MapShown(abi.H(), p);
      r := MapFromC(abi, p);
  }

  /** How a box that holds no list or map is read. */
  lemma {:induction false} ScalarShown(h: Heap, p: nat)
    requires Valid(h) && p in h.cells
    ensures p in View(h)
    ensures match h.cells[p]
            case INull => ReadBack(View(h)[p]) == Success(KNull)
            case IBool(b) => ReadBack(View(h)[p]) == Success(KBool(b))
            case IDouble(d) => ReadBack(View(h)[p]) == Success(KDouble(d))
            case II64(i) => ReadBack(View(h)[p]) == Success(KI64(i))
            case IBinary(data) => ReadBack(View(h)[p]) == Success(KBinary(data))
            case IString(s) => ReadBack(View(h)[p]) == Success(KString(s))
            case IContainer(id) =>
              var cid := ParseCid(CidText(id));
              ReadBack(View(h)[p]) == if cid.Success? then Success(KContainer(cid.value)) else Failure(cid.error)
            case _ => true
  {
    hide ParseCid, CidText, TypeName, TypeFromName;
    assert View(h)[p] == Den(h.nodes, h.cells[p]);
    if h.cells[p].IContainer? {
      CidReadBack(h.cells[p].id);
    }
  }

  method ListFromC(abi: ValueAbi, p: nat) returns (r: Result<LoroValue>)
    requires abi.Ok() && p in abi.cells && abi.cells[p].IList?
    modifies abi
    ensures abi.H() == old(abi.H())
    ensures r == ReadBack(old(abi.Shown())[p])
    decreases Rank(abi.cells[p]), 2
  {
    hide View, Named, Reread, Step, ValueStep;
    ghost var h := abi.H();
    var arc := abi.cells[p].arc;
    ListShown(h, p);
    ghost var items := abi.Shown()[p].items;
    var n := |abi.nodes[arc].items|;
    var out: seq<LoroValue> := [];
    for k := 0 to n
      invariant abi.H() == h && |out| == k
      invariant forall j :: 0 <= j < k ==> Named(items[j]) && out[j] == Reread(items[j])
    {
      var el := abi.ListGet(p, k);
      if el.None? {
        return Failure(NullHandle);
      }
      ElementBox(h, p, k, el.value);
      var v := FromCValue(abi, el.value);
      abi.Release(el.value);
      if v.Failure? {
        NotNamed(KList(items), items[k]);
        return Failure(v.error);
      }
      out := out + [v.value];
    }
    ListReread(items, out);
    return Success(KList(out));
  }

  /** The value of a list box. */
  lemma {:induction false} ListShown(h: Heap, p: nat)
    requires Valid(h) && p in h.cells && h.cells[p].IList?
    ensures p in View(h) && View(h)[p].KList?
    ensures var items := h.nodes[h.cells[p].arc].items;
            |View(h)[p].items| == |items| && forall k :: 0 <= k < |items| ==> Rank(items[k]) < Rank(h.cells[p])
  {
    var arc := h.cells[p].arc;
    assert NodeFounded(h.nodes, arc);
    assert View(h)[p] == Den(h.nodes, h.cells[p]) == KList(DenItems(h.nodes, arc));
    assert |DenItems(h.nodes, arc)| == |h.nodes[arc].items|;
  }

  /** The box of an element shows the element, and freeing it restores the heap. */
  lemma {:induction false} ElementBox(h: Heap, p: nat, k: nat, el: nat)
    requires Valid(h) && p in h.cells && h.cells[p].IList? && k < |h.nodes[h.cells[p].arc].items| && el !in h.cells
    ensures var h' := Step(h, GetItem(p, k, el));
            && Valid(h') && el in h'.cells && h'.cells[el] == h.nodes[h.cells[p].arc].items[k]
            && p in View(h) && View(h)[p].KList? && k < |View(h)[p].items| && View(h')[el] == View(h)[p].items[k]
            && Step(h', Free(el)) == h
  {
    StepRefines(h, GetItem(p, k, el));
    ListShown(h, p);
    var h' := Step(h, GetItem(p, k, el));
    assert h'.cells - {el} == h.cells;
    assert View(h') == ValueStep(View(h), GetItem(p, k, el));
  }

  lemma {:induction false} NotNamed(v: LoroValue, part: LoroValue)
    requires !Named(part)
    requires (v.KList? && part in v.items) || (v.KMap? && part in v.entries.Values)
    ensures !Named(v)
  {
  }

  lemma {:induction false} ListReread(items: seq<LoroValue>, out: seq<LoroValue>)
    requires |out| == |items| && forall j :: 0 <= j < |items| ==> Named(items[j]) && out[j] == Reread(items[j])
    ensures ReadBack(KList(items)) == Success(KList(out))
  {
    assert Reread(KList(items)).items == out;
  }

  /** map_entries_from_c: a value that is no map is refused. */
  method MapFromC(abi: ValueAbi, p: nat) returns (r: Result<LoroValue>)
    requires abi.Ok() && p in abi.cells
    modifies abi
    ensures abi.H() == old(abi.H())
    ensures var v := old(abi.Shown())[p]; r == if v.KMap? then ReadBack(v) else Failure(BadStatus)
    decreases Rank(abi.cells[p]), 2
  {
    var c := new Collector(false);
    var s := MapForEach(abi, Some(p), c);
    if s != StatusOk {
      return Failure(BadStatus);
    }
    if c.error.Some? {
      return Failure(c.error.value);
    }
    return Success(KMap(c.out));
  }

  /** What the collector holds after a walk over entries that visited exactly the keys seen. */
  ghost predicate Visited(entries: map<bytes, LoroValue>, seen: set<bytes>, out: map<bytes, LoroValue>) {
    && seen <= entries.Keys && out.Keys == seen
    && forall key :: key in seen ==> Named(entries[key]) && out[key] == Reread(entries[key])
  }

  /**
   loro_value_map_for_each with the collector as visitor. Each entry is shown to the visitor in a box that
   lives only for that call; a visit that fails ends the walk and is kept for the caller; the user data's
   destructor runs once on every way out.
   */
  method MapForEach(abi: ValueAbi, p: Option<nat>, c: Collector) returns (s: Status)
    requires abi.Ok() && (p.Some? ==> p.value in abi.cells) && c.out == map[] && c.error == None
    modifies abi, c
    ensures abi.H() == old(abi.H())
    ensures c.frees == old(c.frees) + if c.hasFree then 1 else 0
    ensures s == if p.Some? && old(abi.Shown())[p.value].KMap? then StatusOk else StatusInvalidArg
    ensures s != StatusOk ==> c.out == map[] && c.error == None
    ensures s == StatusOk ==> Walked(old(abi.Shown())[p.value].entries, c.out, c.error)
    decreases if p.Some? then Rank(abi.cells[p.value]) else 0, 1
  {
    if p.None? || !abi.cells[p.value].IMap? {
      if p.Some? {
        DenKinds(abi.nodes, abi.cells[p.value]);
      }
      if c.hasFree {
        c.frees := c.frees + 1;
      }
      return StatusInvalidArg;
    }
    Walk(abi, p.value, c);
    if c.hasFree {
      c.frees := c.frees + 1;
    }
    return StatusOk;
  }

  /** The loop over the entries. */
  method Walk(abi: ValueAbi, p: nat, c: Collector)
    requires abi.Ok() && p in abi.cells && abi.cells[p].IMap? && c.out == map[] && c.error == None
    modifies abi, c
    ensures abi.H() == old(abi.H()) && c.frees == old(c.frees)
    ensures old(abi.Shown())[p].KMap? && Walked(old(abi.Shown())[p].entries, c.out, c.error)
    decreases Rank(abi.cells[p]), 0
  {
    hide View, Named, Reread, ReadBack, Visited, Walked, Step, ValueStep, Valid, Within;
    ghost var h := abi.H();
    MapShown(h, p);
    ghost var entries := abi.Shown()[p].entries;
    var inner := abi.nodes[abi.cells[p].arc].entries;
    var rest, go := inner.Keys, true;
    assert inner.Keys - rest == {};
    NothingVisited(entries);
    while rest != {} && go
      invariant abi.H() == h && rest <= inner.Keys
      invariant c.frees == old(c.frees)
      invariant go ==> c.error.None? && Visited(entries, inner.Keys - rest, c.out)
      invariant !go ==> c.error.Some? && Walked(entries, c.out, c.error)
      decreases |rest|
    {
      var key :| key in rest;
      EntryBoxReady(h, p, key);
      var entry := abi.IntoRaw(inner[key]);
      EntryBox(h, p, key, entry);
      WalkStep(entries, inner.Keys - rest, key, c.out);
      go := Visit(abi, c, key, entry);
      abi.Release(entry);
      assert inner.Keys - (rest - {key}) == (inner.Keys - rest) + {key};
      rest := rest - {key};
    }
    if go {
      assert inner.Keys - rest == entries.Keys;
      MapReread(entries, c.out);
      AllWalked(entries, c.out);
    }
  }

  /** All entries read, or stopped at one that cannot be. */
  ghost predicate Walked(entries: map<bytes, LoroValue>, out: map<bytes, LoroValue>, error: Option<Error>) {
    if error.None? then Named(KMap(entries)) && KMap(out) == Reread(KMap(entries))
    else error == Some(MalformedRootCid) && !Named(KMap(entries)) && exists seen :: Visited(entries, seen, out)
  }

  /** loro_conf_value_map_visit: a failure is parked in the collector and stops the walk. */
  method Visit(abi: ValueAbi, c: Collector, key: bytes, entry: nat) returns (go: bool)
    requires abi.Ok() && entry in abi.cells && c.error.None?
    modifies abi, c
    ensures abi.H() == old(abi.H()) && c.frees == old(c.frees)
    ensures var v := old(abi.Shown())[entry];
            if Named(v) then
              go && c.error == None &&
              c.out == if key in old(c.out) then old(c.out) else old(c.out)[key := Reread(v)]
            else !go && c.error == Some(MalformedRootCid) && c.out == old(c.out)
    decreases Rank(abi.cells[entry]), 4
  {
    var r := FromCValue(abi, entry);
    match r
    case Success(v) =>
      if key !in c.out {
        c.out := c.out[key := v];
      }
      return true;
    case Failure(e) =>
      c.error := Some(e);
      return false;
  }

  lemma {:induction false} AllWalked(entries: map<bytes, LoroValue>, out: map<bytes, LoroValue>)
    requires ReadBack(KMap(entries)) == Success(KMap(out))
    ensures Walked(entries, out, None)
  {
  }

  lemma {:induction false} NothingVisited(entries: map<bytes, LoroValue>)
    ensures Visited(entries, {}, map[])
  {
  }

  lemma {:induction false} WalkStep(entries: map<bytes, LoroValue>, seen: set<bytes>, key: bytes,
                                    out: map<bytes, LoroValue>)
    requires key in entries && key !in seen && Visited(entries, seen, out)
    ensures Named(entries[key]) ==>
              key !in out && Visited(entries, seen + {key}, out[key := Reread(entries[key])])
    ensures !Named(entries[key]) ==> Walked(entries, out, Some(MalformedRootCid))
  {
    hide Reread;
  }

  lemma {:induction false} MapShown(h: Heap, p: nat)
    requires Valid(h) && p in h.cells && h.cells[p].IMap?
    ensures p in View(h) && View(h)[p].KMap? && h.cells[p].arc < |h.nodes| && h.nodes[h.cells[p].arc].MapNode?
    ensures var entries := h.nodes[h.cells[p].arc].entries;
            (forall key :: key in entries ==> key in View(h)[p].entries && Within(entries[key], h.nodes, |h.nodes|) &&
                                              View(h)[p].entries[key] == Den(h.nodes, entries[key])) &&
            View(h)[p].entries.Keys == entries.Keys &&
            forall key :: key in entries ==> Rank(entries[key]) < Rank(h.cells[p])
  {
    var arc := h.cells[p].arc;
    assert NodeFounded(h.nodes, arc);
    assert View(h)[p] == Den(h.nodes, h.cells[p]) == KMap(DenEntries(h.nodes, arc));
    assert DenEntries(h.nodes, arc).Keys == h.nodes[arc].entries.Keys;
  }

  lemma {:induction false} EntryBoxReady(h: Heap, p: nat, key: bytes)
    requires Valid(h) && p in h.cells && h.cells[p].IMap? && key in h.nodes[h.cells[p].arc].entries
    ensures Within(h.nodes[h.cells[p].arc].entries[key], h.nodes, |h.nodes|)
  {
    assert NodeFounded(h.nodes, h.cells[p].arc);
  }

  lemma {:induction false} EntryBox(h: Heap, p: nat, key: bytes, entry: nat)
    requires Valid(h) && p in h.cells && h.cells[p].IMap? && key in h.nodes[h.cells[p].arc].entries && entry !in h.cells
    ensures var h' := Boxed(h, entry, h.nodes[h.cells[p].arc].entries[key]);
            && Valid(h') && entry in h'.cells
            && p in View(h) && View(h)[p].KMap? && key in View(h)[p].entries
            && View(h')[entry] == View(h)[p].entries[key]
            && Step(h', Free(entry)) == h
  {
    EntryBoxReady(h, p, key);
    MapShown(h, p);
    var x := h.nodes[h.cells[p].arc].entries[key];
    BoxedInner(h, entry, x);
    assert Boxed(h, entry, x).cells - {entry} == h.cells;
  }

  lemma {:induction false} MapReread(entries: map<bytes, LoroValue>, out: map<bytes, LoroValue>)
    requires Visited(entries, entries.Keys, out)
    ensures ReadBack(KMap(entries)) == Success(KMap(out))
  {
    assert Reread(KMap(entries)).entries == out;
  }

  /**
   A finished walk is keys-then-get: the collector holds exactly the keys that loro_value_map_keys lists,
   in any rendering that escapes no surrogate pair, each with what from_c_value reads from the box that
   loro_value_map_get returns.
   */
  lemma {:induction false} WalkIsKeysThenGet(stod: Stod, h: Heap, p: nat, keys: seq<bytes>, text: bytes,
                                             out: map<bytes, LoroValue>, at: nat)
    requires Valid(h) && p in h.cells && at !in h.cells && p in View(h) && View(h)[p].KMap?
    requires Walked(View(h)[p].entries, out, None)
    requires (set key | key in keys) == View(h)[p].entries.Keys && Renders(text, StringsDoc(keys))
    ensures Parse(stod, text).Success?
    ensures NoPairEscape(text) ==> out.Keys == set key | key in ReadStrings(Parse(stod, text).value.Elements())
    ensures forall key :: key in out && Utf8.WellFormed(key) ==>
              var h' := Step(h, GetEntry(p, key, at));
              Valid(h') && at in View(h') && ReadBack(View(h')[at]) == Success(out[key])
  {
    hide Parse, ReadStrings, Renders, StringsDoc, Named, Reread, NoPairEscape;
    StringArrayRoundTrip(stod, text, keys);
    var entries := View(h)[p].entries;
    WalkedParts(entries, out);
    forall key | key in out && Utf8.WellFormed(key)
      ensures var h' := Step(h, GetEntry(p, key, at));
              Valid(h') && at in View(h') && ReadBack(View(h')[at]) == Success(out[key])
    {
      hide View, Step, Valid;
      StepRefines(h, GetEntry(p, key, at));
    }
  }

  lemma {:induction false} WalkedParts(entries: map<bytes, LoroValue>, out: map<bytes, LoroValue>)
    requires Walked(entries, out, None)
    ensures out.Keys == entries.Keys
    ensures forall key :: key in out ==> ReadBack(entries[key]) == Success(out[key])
  {
  }

  /** A convertible value is read back as itself. */
  lemma {:induction false} ConvertibleReadBack(v: LoroValue)
    requires Convertible(v)
    ensures ReadBack(v) == Success(v)
  {
    ConvertibleContainerFree(v);
    RereadSame(v);
  }

  /** A box made and freed again. */
  lemma {:induction false} Unmade(view: map<nat, LoroValue>, box: nat, v: LoroValue)
    requires box !in view
    ensures ValueStep(view[box := v], Free(box)) == view
  {
    assert view[box := v] - {box} == view;
  }

  /**
   There and back: to_c_value, from_c_value and the free of the CValue that held the box. A convertible
   value returns unchanged and no box is left; a null box reads as null.
   */
  method ThereAndBack(abi: ValueAbi, v: LoroValue) returns (r: Result<LoroValue>)
    requires abi.Ok()
    modifies abi
    ensures abi.Ok()
    ensures Convertible(v) ==> r == Success(v) && abi.Shown() == old(abi.Shown())
    ensures BadString(v) ==> r == Success(KNull) && abi.Shown() == old(abi.Shown())
    ensures !Convertible(v) && !BadString(v) ==> r.Failure?
  {
    hide Convertible, ReadBack, View, ValueStep;
    ghost var before := abi.Shown();
    BadStringStops(v);
    var box := ToCValue(abi, v);
    if box.Failure? {
      return Failure(box.error);
    }
    if box.value.None? {
      return Success(KNull);
    }
    ConvertibleReadBack(v);
    Unmade(before, box.value.value, v);
    r := FromCValue(abi, box.value.value);
    abi.Release(box.value.value);
  }
}
