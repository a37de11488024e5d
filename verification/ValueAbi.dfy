/** The C functions of loro-c-api/src/value_typed.rs over their heap of boxes. */
module ValueAbi {
  import opened Bytes
  import opened Decimal
  import opened Outcome
  import opened Json
  import opened Cid
  import opened LoroValues
  import opened ValueHeap
  import Utf8

  datatype Status = StatusOk | StatusInvalidArg | StatusUtf8

  lemma {:induction false} UnusedAddress(used: set<nat>)
    ensures exists p: nat :: p !in used
    decreases |used|
  {
    if used != {} {
      var top := Top(used);
      assert top + 1 !in used;
    } else {
      assert 0 !in used;
    }
  }

  lemma {:induction false} Top(used: set<nat>) returns (top: nat)
    requires used != {}
    ensures top in used && forall p :: p in used ==> p <= top
    decreases |used|
  {
    top :| top in used;
    var rest := used - {top};
    if rest != {} {
      var other := Top(rest);
      assert forall p :: p in used ==> p == top || p in rest;
      if other > top {
        top := other;
      }
    }
  }

  /** The value of each scalar constructor. */
  function ScalarValue(x: Inner): LoroValue
    requires !x.IList? && !x.IMap?
  {
    match x
    case INull => KNull
    case IBool(b) => KBool(b)
    case IDouble(d) => KDouble(d)
    case II64(i) => KI64(i)
    case IBinary(data) => KBinary(data)
    case IString(s) => KString(s)
    case IContainer(id) => KContainer(id)
  }

  /** Pointers are addresses of live boxes, or null. */
  class ValueAbi {
    var nodes: seq<Node>
    var cells: map<nat, Inner>

    function H(): Heap
      reads this
    {
      Heap(nodes, cells)
    }

    ghost predicate Ok()
      reads this
    {
      Valid(H())
    }

    /** What the live boxes show. */
    ghost function Shown(): map<nat, LoroValue>
      reads this
      requires Ok()
      ensures Shown().Keys == cells.Keys
    {
      assert View(H()).Keys == cells.Keys;
      View(H())
    }

    constructor ()
      ensures H() == Heap([], map[]) && Ok()
    {
      nodes, cells := [], map[];
    }

    /** Box::into_raw: any address that is not in use. */
    method IntoRaw(x: Inner) returns (p: nat)
      modifies this
      ensures p !in old(cells) && H() == Boxed(old(H()), p, x)
    {
      UnusedAddress(cells.Keys);
      p :| p !in cells.Keys;
      cells := cells[p := x];
    }

    /** loro_value_new_null, _bool, _double, _i64, _string and _binary. Null for a string that is no UTF-8. */
    method NewScalar(x: Inner) returns (r: Option<nat>)
      requires Ok() && !x.IList? && !x.IMap?
      modifies this
      ensures Ok() && (r.Some? <==> Makes(x))
      ensures r.Some? ==> Callable(old(cells.Keys), New(r.value, x)) && H() == Step(old(H()), New(r.value, x))
      ensures r.Some? ==> Shown() == ValueStep(old(Shown()), New(r.value, x))
      ensures r.Some? ==> r.value !in old(Shown()) && Shown() == old(Shown())[r.value := ScalarValue(x)]
      ensures r.None? ==> H() == old(H())
    {
      if x.IString? && !Utf8.WellFormed(x.s) {
        return None;
      }
      ghost var before := H();
      var p := IntoRaw(x);
      StepRefines(before, New(p, x));
      return Some(p);
    }

    method NewList() returns (p: nat)
      requires Ok()
      modifies this
      ensures Ok() && Callable(old(cells.Keys), Op.NewList(p)) && H() == Step(old(H()), Op.NewList(p))
      ensures Shown() == ValueStep(old(Shown()), Op.NewList(p))
      ensures p !in old(Shown()) && Shown() == old(Shown())[p := KList([])]
    {
      ghost var before := H();
      nodes := nodes + [ListNode([])];
      p := IntoRaw(IList(|nodes| - 1));
      StepRefines(before, Op.NewList(p));
    }

    method NewMap() returns (p: nat)
      requires Ok()
      modifies this
      ensures Ok() && Callable(old(cells.Keys), Op.NewMap(p)) && H() == Step(old(H()), Op.NewMap(p))
      ensures Shown() == ValueStep(old(Shown()), Op.NewMap(p))
      ensures p !in old(Shown()) && Shown() == old(Shown())[p := KMap(map[])]
    {
      ghost var before := H();
      nodes := nodes + [MapNode(map[])];
      p := IntoRaw(IMap(|nodes| - 1));
      StepRefines(before, Op.NewMap(p));
    }

    /** loro_value_list_push: a longer copy of the node replaces the list's node. */
    method ListPush(list: nat, child: Option<nat>) returns (s: Status)
      requires Ok() && list in cells && (child.Some? ==> child.value in cells)
      modifies this
      ensures Ok()
      ensures s == if child.Some? && old(Shown())[list].KList? then StatusOk else StatusInvalidArg
      ensures s == StatusOk ==> H() == Step(old(H()), Push(list, child.value)) &&
                                Shown() == ValueStep(old(Shown()), Push(list, child.value))
      ensures s == StatusOk ==>
                var was := old(Shown());
                Shown() == was[list := KList(was[list].items + [was[child.value]])]
      ensures s != StatusOk ==> H() == old(H())
    {
      if child.None? {
        return StatusInvalidArg;
      }
      ghost var before := H();
      DenKinds(nodes, cells[list]);
      match cells[list]
      case IList(arc) =>
        var items := nodes[arc].items;
        items := items + [cells[child.value]];
        cells := cells[list := IList(|nodes|)];
        nodes := nodes + [ListNode(items)];
        StepRefines(before, Push(list, child.value));
        return StatusOk;
      case _ => return StatusInvalidArg;
    }

    /** loro_value_map_insert */
    method MapInsert(dict: nat, key: bytes, child: Option<nat>) returns (s: Status)
      requires Ok() && dict in cells && (child.Some? ==> child.value in cells)
      modifies this
      ensures Ok()
      ensures s == if !Utf8.WellFormed(key) then StatusUtf8
                   else if child.Some? && old(Shown())[dict].KMap? then StatusOk
                   else StatusInvalidArg
      ensures s == StatusOk ==> H() == Step(old(H()), Insert(dict, key, child.value)) &&
                                Shown() == ValueStep(old(Shown()), Insert(dict, key, child.value))
      ensures s == StatusOk ==>
                var was := old(Shown());
                Shown() == was[dict := KMap(was[dict].entries[key := was[child.value]])]
      ensures s != StatusOk ==> H() == old(H())
    {
      if !Utf8.WellFormed(key) {
        return StatusUtf8;
      }
      if child.None? {
        return StatusInvalidArg;
      }
      ghost var before := H();
      DenKinds(nodes, cells[dict]);
      match cells[dict]
      case IMap(arc) =>
        var entries := nodes[arc].entries;
        entries := entries[key := cells[child.value]];
        cells := cells[dict := IMap(|nodes|)];
        nodes := nodes + [MapNode(entries)];
        StepRefines(before, Insert(dict, key, child.value));
        return StatusOk;
      case _ => return StatusInvalidArg;
    }

    /** loro_value_list_get: a new box on a clone of the element. */
    method ListGet(list: nat, index: nat) returns (r: Option<nat>)
      requires Ok() && list in cells
      modifies this
      ensures Ok()
      ensures r.Some? <==> old(Shown())[list].KList? && index < |old(Shown())[list].items|
      ensures r.Some? ==> Callable(old(cells.Keys), GetItem(list, index, r.value)) &&
                          H() == Step(old(H()), GetItem(list, index, r.value)) &&
                          Shown() == ValueStep(old(Shown()), GetItem(list, index, r.value))
      ensures r.Some? ==>
                var was := old(Shown());
                r.value !in was && Shown() == was[r.value := was[list].items[index]]
      ensures r.None? ==> H() == old(H())
    {
      ghost var before := H();
      DenKinds(nodes, cells[list]);
      match cells[list]
      case IList(arc) =>
        if index >= |nodes[arc].items| {
          return None;
        }
        var p := IntoRaw(nodes[arc].items[index]);
        StepRefines(before, GetItem(list, index, p));
        return Some(p);
      case _ => return None;
    }

    /** loro_value_map_get */
    method MapGet(dict: nat, key: bytes) returns (r: Option<nat>)
      requires Ok() && dict in cells
      modifies this
      ensures Ok()
      ensures r.Some? <==> Utf8.WellFormed(key) && old(Shown())[dict].KMap? && key in old(Shown())[dict].entries
      ensures r.Some? ==> Callable(old(cells.Keys), GetEntry(dict, key, r.value)) &&
                          H() == Step(old(H()), GetEntry(dict, key, r.value)) &&
                          Shown() == ValueStep(old(Shown()), GetEntry(dict, key, r.value))
      ensures r.Some? ==>
                var was := old(Shown());
                r.value !in was && Shown() == was[r.value := was[dict].entries[key]]
      ensures r.None? ==> H() == old(H())
    {
      if !Utf8.WellFormed(key) {
        return None;
      }
      ghost var before := H();
      DenKinds(nodes, cells[dict]);
      match cells[dict]
      case IMap(arc) =>
        if key !in nodes[arc].entries {
          return None;
        }
        var p := IntoRaw(nodes[arc].entries[key]);
        StepRefines(before, GetEntry(dict, key, p));
        return Some(p);
      case _ => return None;
    }

    /** loro_value_free: at most once for each box. */
    method Release(p: nat)
      requires Ok() && p in cells
      modifies this
      ensures Ok() && H() == Step(old(H()), Free(p)) && Shown() == ValueStep(old(Shown()), Free(p))
      ensures Shown() == old(Shown()) - {p}
    {
      StepRefines(H(), Free(p));
      cells := cells - {p};
    }
  }
}
