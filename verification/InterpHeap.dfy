/** The interpreter's type-instance heap: the generation-tagged slab and the
    sentinel-headed lists of heap.rs, and the instructions of interp.rs that drive
    them. The datatypes and functions are the value of the mutable classes at the
    end of the file; `None` where the Rust code would abort on a failed `expect`. */
module InterpHeap {
  import opened Common
  import opened Outcomes

  /** Generations are `u32` and wrap. */
  const GENERATIONS := 0x1_0000_0000

  datatype Id = Id(index: nat, generation: nat)

  datatype Obj = Obj(typeDef: nat, prev: Option<Id>, next: Option<Id>, isSentinel: bool)

  datatype SlabValue = SlabValue(entries: seq<Option<Obj>>, generations: seq<nat>, freeList: seq<nat>)
  {
    predicate Wf() {
      && |entries| == |generations|
      && forall k | 0 <= k < |freeList| :: freeList[k] < |entries|
    }

    function Get(id: Id): Option<Obj>
      requires Wf()
    {
      if id.index < |generations| && generations[id.index] == id.generation then entries[id.index] else None
    }

    /** Overwrite a slot that `get_mut` has just resolved. */
    function Put(id: Id, obj: Obj): (s: SlabValue)
      requires Wf() && Get(id).Some?
      ensures s.Wf() && s.generations == generations && s.freeList == freeList && |s.entries| == |entries|
      ensures forall i :: s.Get(i) == if i == id then Some(obj) else Get(i)
      ensures forall j | 0 <= j < |entries| :: s.entries[j].Some? <==> entries[j].Some?
    {
      this.(entries := entries[id.index := Some(obj)])
    }

    function Alloc(obj: Obj): (SlabValue, Id)
      requires Wf()
    {
      if |freeList| > 0 then
        var idx := freeList[|freeList| - 1];
        (SlabValue(entries[idx := Some(obj)], generations, freeList[..|freeList| - 1]), Id(idx, generations[idx]))
      else
        (SlabValue(entries + [Some(obj)], generations + [0], freeList), Id(|entries|, 0))
    }

    function Free(id: Id): SlabValue
      requires Wf() && id.index < |entries|
    {
      SlabValue(entries[id.index := None],
                generations[id.index := (id.generation + 1) % GENERATIONS],
                freeList + [id.index])
    }
  }

  datatype ListValue = ListValue(sentinel: Id, tail: Option<Id>)

  /** `TypeList::append`. */
  function AppendTo(s: SlabValue, l: ListValue, id: Id): (r: Option<(SlabValue, ListValue)>)
    requires s.Wf()
    ensures r.Some? ==> r.value.0.Wf()
  {
    var prevId := if l.tail.Some? then l.tail.value else l.sentinel;
    var e := s.Get(id);
    if e.None? then None else
    var s1 := s.Put(id, e.value.(prev := Some(prevId), next := None));
    var p := s1.Get(prevId);
    if p.None? then None else
    Some((s1.Put(prevId, p.value.(next := Some(id))), l.(tail := Some(id))))
  }

  function SetNext(s: SlabValue, at: Option<Id>, next: Option<Id>): (r: Option<SlabValue>)
    requires s.Wf()
    ensures r.Some? ==> r.value.Wf() && |r.value.entries| == |s.entries|
  {
    if at.None? then Some(s) else
    var e := s.Get(at.value);
    if e.None? then None else Some(s.Put(at.value, e.value.(next := next)))
  }

  function SetPrev(s: SlabValue, at: Option<Id>, prev: Option<Id>): (r: Option<SlabValue>)
    requires s.Wf()
    ensures r.Some? ==> r.value.Wf() && |r.value.entries| == |s.entries|
  {
    if at.None? then Some(s) else
    var e := s.Get(at.value);
    if e.None? then None else Some(s.Put(at.value, e.value.(prev := prev)))
  }

  function TailAfter(l: ListValue, id: Id, prev: Option<Id>): Option<Id> {
    if l.tail != Some(id) then l.tail
    else if prev == Some(l.sentinel) then None
    else prev
  }

  /** `TypeList::unlink`. */
  function UnlinkFrom(s: SlabValue, l: ListValue, id: Id): (r: Option<(SlabValue, ListValue)>)
    requires s.Wf()
    ensures r.Some? ==> r.value.0.Wf() && r.value.0.Get(id).Some?
  {
    var e := s.Get(id);
    if e.None? then None else
    var prev, next := e.value.prev, e.value.next;
    var s1 := SetNext(s, prev, next);
    if s1.None? then None else
    var s2 := SetPrev(s1.value, next, prev);
    if s2.None? then None else
    var e2 := s2.value.Get(id);
    if e2.None? then None else
    Some((s2.value.Put(id, e2.value.(prev := None, next := None)), l.(tail := TailAfter(l, id, prev))))
  }

  datatype HeapValue = HeapValue(slab: SlabValue, lists: seq<ListValue>)
  {
    predicate Wf() {
      slab.Wf()
    }
  }

  /** The values a type-instance variable can hold. */
  datatype Value = Null | TypeInstance(id: Id)

  /** A variable slot: the value and the "deleted through this variable" flag. */
  datatype Slot = Slot(value: Value, deleted: bool)

  function ToValue(id: Option<Id>): Value {
    if id.Some? then TypeInstance(id.value) else Null
  }

  function NewHeap(types: nat): (h: HeapValue)
    ensures h.Wf() && |h.lists| == types
  {
    if types == 0 then HeapValue(SlabValue([], [], []), [])
    else
      var h := NewHeap(types - 1);
      var (slab, id) := h.slab.Alloc(Obj(types - 1, None, None, true));
      HeapValue(slab, h.lists + [ListValue(id, None)])
  }

  /** `NewType`; `None` only if the list's tail or sentinel does not resolve. */
  function ExecNew(h: HeapValue, t: nat): (r: Option<(HeapValue, Id)>)
    requires h.Wf() && t < |h.lists|
    ensures r.Some? ==> r.value.0.Wf() && |r.value.0.lists| == |h.lists|
  {
    var (slab, id) := h.slab.Alloc(Obj(t, None, None, false));
    var r := AppendTo(slab, h.lists[t], id);
    if r.None? then None else Some((HeapValue(r.value.0, h.lists[t := r.value.1]), id))
  }

  function ExecFirst(h: HeapValue, t: nat): Outcome<Value>
    requires h.Wf() && t < |h.lists|
  {
    var e := h.slab.Get(h.lists[t].sentinel);
    if e.None? then Panicked else Done(ToValue(e.value.next))
  }

  function ExecLast(h: HeapValue, t: nat): Outcome<Value>
    requires t < |h.lists|
  {
    Done(ToValue(h.lists[t].tail))
  }

  function ExecNext(h: HeapValue, v: Value): Outcome<Value>
    requires h.Wf()
  {
    match v
    case Null => Done(Null)
    case TypeInstance(id) =>
      var e := h.slab.Get(id);
      if e.None? then Trapped(DeletedAccess) else Done(ToValue(e.value.next))
  }

  function ExecPrevious(h: HeapValue, v: Value): Outcome<Value>
    requires h.Wf()
  {
    match v
    case Null => Done(Null)
    case TypeInstance(id) =>
      var e := h.slab.Get(id);
      if e.None? then Trapped(DeletedAccess) else
      var p := e.value.prev;
      if p.Some? && h.slab.Get(p.value).Some? && !h.slab.Get(p.value).value.isSentinel
      then Done(TypeInstance(p.value)) else Done(Null)
  }

  /** The checks `GetField` makes on its operand before it reads a field. */
  function ExecCheck(h: HeapValue, v: Value): Outcome<()>
    requires h.Wf()
  {
    match v
    case Null => Trapped(NullDeref)
    case TypeInstance(id) =>
      var e := h.slab.Get(id);
      if e.None? then Trapped(DeletedAccess)
      else if e.value.isSentinel then Trapped(NullDeref)
      else Done(())
  }

  /** Unlink and free, as `DeleteRvalue` and `exec_delete_lvalue_slot` both do: no test
      for the sentinel. The second result is the rewind target. */
  function ExecDelete(h: HeapValue, v: Value): (r: Outcome<(HeapValue, Id)>)
    requires h.Wf()
    ensures r.Done? ==> r.state.0.Wf() && |r.state.0.lists| == |h.lists|
  {
    match v
    case Null => Trapped(NullDeref)
    case TypeInstance(id) =>
      var e := h.slab.Get(id);
      if e.None? then Trapped(DoubleDelete)
      else if e.value.typeDef >= |h.lists| then Panicked else
      var t := e.value.typeDef;
      var r := UnlinkFrom(h.slab, h.lists[t], id);
      if r.None? then Panicked
      else Done((HeapValue(r.value.0.Free(id), h.lists[t := r.value.1]),
                 if e.value.prev.Some? then e.value.prev.value else h.lists[t].sentinel))
  }

  // ── The mutable form ───────────────────────────────────────────────────

  class Slab {
    var entries: seq<Option<Obj>>
    var generations: seq<nat>
    var freeList: seq<nat>

    function View(): SlabValue
      reads this
    {
      SlabValue(entries, generations, freeList)
    }

    constructor ()
      ensures View() == SlabValue([], [], [])
    {
      entries, generations, freeList := [], [], [];
    }

    method Alloc(obj: Obj) returns (id: Id)
      requires View().Wf()
      modifies this
      ensures View().Wf()
      ensures (View(), id) == old(View()).Alloc(obj)
    {
      if |freeList| > 0 {
        var idx := freeList[|freeList| - 1];
        freeList := freeList[..|freeList| - 1];
        entries := entries[idx := Some(obj)];
        id := Id(idx, generations[idx]);
      } else {
        id := Id(|entries|, 0);
        entries := entries + [Some(obj)];
        generations := generations + [0];
      }
    }

    method Get(id: Id) returns (r: Option<Obj>)
      requires View().Wf()
      ensures r == View().Get(id)
    {
      if !(id.index < |generations| && generations[id.index] == id.generation) {
        return None;
      }
      r := entries[id.index];
    }

    /** A write through `get_mut`. */
    method Put(id: Id, obj: Obj)
      requires View().Wf() && View().Get(id).Some?
      modifies this
      ensures View() == old(View()).Put(id, obj)
    {
      entries := entries[id.index := Some(obj)];
    }

    method Free(id: Id)
      requires View().Wf() && View().Get(id).Some?
      modifies this
      ensures View().Wf()
      ensures View() == old(View()).Free(id)
    {
      entries := entries[id.index := None];
      generations := generations[id.index := (id.generation + 1) % GENERATIONS];
      freeList := freeList + [id.index];
    }
  }

  class TypeList {
    const sentinel: Id
    var tail: Option<Id>

    function View(): ListValue
      reads this
    {
      ListValue(sentinel, tail)
    }

    constructor (slab: Slab, typeDef: nat)
      requires slab.View().Wf()
      modifies slab
      ensures slab.View().Wf()
      ensures (slab.View(), sentinel) == old(slab.View()).Alloc(Obj(typeDef, None, None, true))
      ensures tail == None
    {
      var id := slab.Alloc(Obj(typeDef, None, None, true));
      sentinel := id;
      tail := None;
    }

    method Append(slab: Slab, id: Id)
      requires slab.View().Wf() && AppendTo(slab.View(), View(), id).Some?
      modifies this, slab
      ensures Some((slab.View(), View())) == AppendTo(old(slab.View()), old(View()), id)
    {
      var prevId := if tail.Some? then tail.value else sentinel;
      var e := slab.Get(id);
      slab.Put(id, e.value.(prev := Some(prevId), next := None));
      var p := slab.Get(prevId);
      slab.Put(prevId, p.value.(next := Some(id)));
      tail := Some(id);
    }

    method Unlink(slab: Slab, id: Id)
      requires slab.View().Wf() && UnlinkFrom(slab.View(), View(), id).Some?
      modifies this, slab
      ensures Some((slab.View(), View())) == UnlinkFrom(old(slab.View()), old(View()), id)
    {
      var e := slab.Get(id);
      var prev, next := e.value.prev, e.value.next;
      if prev.Some? {
        var p := slab.Get(prev.value);
        slab.Put(prev.value, p.value.(next := next));
      }
      if next.Some? {
        var n := slab.Get(next.value);
        slab.Put(next.value, n.value.(prev := prev));
      }
      if tail == Some(id) {
        tail := if prev == Some(sentinel) then None else prev;
      }
      var e2 := slab.Get(id);
      slab.Put(id, e2.value.(prev := None, next := None));
    }

    method First(slab: Slab) returns (r: Option<Id>)
      requires slab.View().Wf() && slab.View().Get(sentinel).Some?
      ensures r == slab.View().Get(sentinel).value.next
    {
      var e := slab.Get(sentinel);
      r := e.value.next;
    }
  }

  /** The part of the interpreter that owns the slab and the per-type lists. */
  class Heap {
    const slab: Slab
    var typeLists: seq<TypeList>

    ghost predicate Valid()
      reads this, slab, typeLists
    {
      && slab.View().Wf()
      && (forall i, j | 0 <= i < j < |typeLists| :: typeLists[i] != typeLists[j])
    }

    ghost function View(): HeapValue
      reads this, slab, typeLists
    {
      HeapValue(slab.View(), seq(|typeLists|, i reads this, typeLists requires 0 <= i < |typeLists| => typeLists[i].View()))
    }

    constructor (types: nat)
      ensures Valid() && View() == NewHeap(types)
      ensures fresh(slab) && forall l <- typeLists :: fresh(l)
    {
      var s := new Slab();
      slab := s;
      typeLists := [];
      new;
      assert View() == NewHeap(0);
      var t := 0;
      while t < types
        invariant 0 <= t <= types && Valid() && View() == NewHeap(t) && |typeLists| == t
        invariant slab == s && fresh(s) && forall l <- typeLists :: fresh(l)
        modifies this, s
      {
        AddList(t);
        t := t + 1;
      }
    }

    /** The list of one more type. */
    method AddList(t: nat)
      requires Valid() && View() == NewHeap(t) && |typeLists| == t
      modifies this, slab
      ensures Valid() && View() == NewHeap(t + 1) && |typeLists| == t + 1
      ensures forall l <- typeLists :: l in old(typeLists) || fresh(l)
    {
      ghost var h := View();
      var l := new TypeList(slab, t);
      typeLists := typeLists + [l];
      assert View().lists == h.lists + [l.View()];
    }

    method New(t: nat) returns (id: Id)
      requires Valid() && t < |typeLists| && ExecNew(View(), t).Some?
      modifies slab, typeLists[t]
      ensures Valid() && Some((View(), id)) == ExecNew(old(View()), t)
    {
      ghost var h := View();
      id := slab.Alloc(Obj(t, None, None, false));
      typeLists[t].Append(slab, id);
      assert View().lists == h.lists[t := typeLists[t].View()];
    }

    /** `DeleteRvalue`, and the heap part of a variable's delete. */
    method Delete(v: Value) returns (r: Outcome<Id>)
      requires Valid() && !ExecDelete(View(), v).Panicked?
      modifies slab, typeLists
      ensures Valid()
      ensures match ExecDelete(old(View()), v)
              case Done(d) => r == Done(d.1) && View() == d.0
              case Trapped(e) => r == Trapped(e) && View() == old(View())
              case Panicked => false
    {
      match v {
        case Null => r := Trapped(NullDeref);
        case TypeInstance(id) =>
          var e := slab.Get(id);
          if e.None? {
            return Trapped(DoubleDelete);
          }
          ghost var h := View();
          var t := e.value.typeDef;
          var prev := if e.value.prev.Some? then e.value.prev.value else typeLists[t].sentinel;
          typeLists[t].Unlink(slab, id);
          slab.Free(id);
          assert View().lists == h.lists[t := typeLists[t].View()];
          r := Done(prev);
      }
    }

    /** `exec_delete_lvalue_slot` on one variable slot. */
    method DeleteSlot(slot: Slot) returns (r: Outcome<Slot>)
      requires Valid() && (!slot.deleted ==> !ExecDelete(View(), slot.value).Panicked?)
      modifies slab, typeLists
      ensures Valid()
      ensures if slot.deleted then r == Trapped(DoubleDelete) && View() == old(View())
              else match ExecDelete(old(View()), slot.value)
                case Done(d) => r == Done(Slot(TypeInstance(d.1), true)) && View() == d.0
                case Trapped(e) => r == Trapped(e) && View() == old(View())
                case Panicked => false
    {
      if slot.deleted {
        return Trapped(DoubleDelete);
      }
      var d := Delete(slot.value);
      match d {
        case Done(prev) => r := Done(Slot(TypeInstance(prev), true));
        case Trapped(e) => r := Trapped(e);
        case Panicked => r := Panicked;
      }
    }

    method First(t: nat) returns (r: Value)
      requires Valid() && t < |typeLists| && ExecFirst(View(), t).Done?
      ensures Done(r) == ExecFirst(View(), t)
    {
      var n := typeLists[t].First(slab);
      r := ToValue(n);
    }

    method Next(v: Value) returns (r: Outcome<Value>)
      requires Valid()
      ensures r == ExecNext(View(), v)
    {
      match v {
        case Null => r := Done(Null);
        case TypeInstance(id) =>
          var e := slab.Get(id);
          r := if e.None? then Trapped(DeletedAccess) else Done(ToValue(e.value.next));
      }
    }

    method Previous(v: Value) returns (r: Outcome<Value>)
      requires Valid()
      ensures r == ExecPrevious(View(), v)
    {
      match v {
        case Null => r := Done(Null);
        case TypeInstance(id) =>
          var e := slab.Get(id);
          if e.None? {
            return Trapped(DeletedAccess);
          }
          if e.value.prev.Some? {
            var p := slab.Get(e.value.prev.value);
            if p.Some? && !p.value.isSentinel {
              return Done(TypeInstance(e.value.prev.value));
            }
          }
          r := Done(Null);
      }
    }
  }
}
