/** `store_walk` (interp.rs): the one write path for `a.b[i].c = v`. It mutates in place, and
    takes a heap field out of its object while it works below it. */
module StorePlace {
  import opened Common
  import Arrays

  datatype Value =
    | Struct(fields: seq<(nat, Value)>)
    | TypeInstance(id: nat)
    | Array(ref: nat)
    | Null
    | Void
    | Other(tag: int)

  /** A type instance; ids that are not in the heap are stale. */
  datatype Obj = Obj(typeDef: nat, fields: seq<Value>, isSentinel: bool)

  datatype Arr = Arr(dims: seq<nat>, data: seq<Value>)

  datatype Memory = Memory(heap: map<nat, Obj>, arrays: map<nat, Arr>)

  datatype Projection = Field(name: nat) | Index(indices: seq<nat>)

  datatype StoreErr = NoField(name: nat) | NullDeref | Deleted | OutOfBounds | NotStruct | NotArray

  /** `Panicked` is the failed `borrow_mut` of an array that is being walked already (or an
      index past an array's own data). */
  datatype Result = Ok | Err(error: StoreErr) | Panicked

  function FindName(names: seq<nat>, f: nat): (i: Option<nat>)
    ensures i.Some? ==> FirstAt(names, f, i.value)
    ensures i.None? ==> f !in names
  {
    if names == [] then None
    else if names[0] == f then Some(0)
    else
      var i := FindName(names[1..], f);
      if i.Some? then Some(i.value + 1) else None
  }

  /** The first position of a name. */
  predicate FirstAt(names: seq<nat>, f: nat, i: nat) {
    i < |names| && names[i] == f && forall j | 0 <= j < i :: names[j] != f
  }

  function StructNames(fields: seq<(nat, Value)>): (r: seq<nat>)
    ensures |r| == |fields|
  {
    seq(|fields|, i requires 0 <= i < |fields| => fields[i].0)
  }

  function Flat(a: Arr, indices: seq<nat>): Option<nat> {
    if Arrays.InRange(a.dims, indices) then Some(Arrays.Offset(a.dims, indices)) else None
  }

  /** The object behind an id, checked for a field access. (An instance has one value per field
      of its type, so the two length tests never decide anything.) */
  datatype Access = Found(index: nat) | Refused(error: StoreErr)

  function AccessField(m: Memory, defs: seq<seq<nat>>, id: nat, f: nat): (a: Access)
    ensures a.Found? ==> id in m.heap && a.index < |m.heap[id].fields|
  {
    if id !in m.heap then Refused(Deleted)
    else
      var o := m.heap[id];
      if o.isSentinel then Refused(NullDeref)
      else
        var i := FindName(if o.typeDef < |defs| then defs[o.typeDef] else [], f);
        if i.None? || i.value >= |o.fields| then Refused(NoField(f)) else Found(i.value)
  }

  function PutField(m: Memory, id: nat, i: nat, v: Value): Memory
    requires id in m.heap && i < |m.heap[id].fields|
  {
    m.(heap := m.heap[id := m.heap[id].(fields := m.heap[id].fields[i := v])])
  }

  function PutCell(m: Memory, ref: nat, k: nat, v: Value): Memory
    requires ref in m.arrays && k < |m.arrays[ref].data|
  {
    m.(arrays := m.arrays[ref := m.arrays[ref].(data := m.arrays[ref].data[k := v])])
  }

  // ── The walk itself ────────────────────────────────────────────────────

  /** The value of the mutable walk: the slot and the memory afterwards. `borrowed` are the
      arrays the walk is inside of. */
  function StoreWalk(slot: Value, projs: seq<Projection>, value: Value, m: Memory, borrowed: set<nat>, defs: seq<seq<nat>>)
    : (r: (Value, Memory, Result))
    ensures r.1.heap.Keys == m.heap.Keys && r.1.arrays.Keys == m.arrays.Keys
    ensures forall id | id in m.heap :: |r.1.heap[id].fields| == |m.heap[id].fields|
    ensures forall a | a in m.arrays :: |r.1.arrays[a].data| == |m.arrays[a].data|
    decreases |projs|
  {
    if projs == [] then (value, m, Ok)
    else
      var rest := projs[1..];
      match projs[0]
      case Field(f) =>
        (match slot
         case Struct(fields) =>
           var i := FindName(StructNames(fields), f);
           if i.None? then (slot, m, Err(NoField(f)))
           else
             var (s, m1, r) := StoreWalk(fields[i.value].1, rest, value, m, borrowed, defs);
             (Struct(fields[i.value := (fields[i.value].0, s)]), m1, r)
         case TypeInstance(id) =>
           (match AccessField(m, defs, id, f)
            case Refused(e) => (slot, m, Err(e))
            case Found(i) =>
              if rest == [] then (slot, PutField(m, id, i, value), Ok)
              else
                var taken := m.heap[id].fields[i];
                var (s, m1, r) := StoreWalk(taken, rest, value, PutField(m, id, i, Void), borrowed, defs);
                (slot, PutField(m1, id, i, s), r))
         case Null => (slot, m, Err(NullDeref))
         case _ => (slot, m, Err(NotStruct)))
      case Index(indices) =>
        match slot
        case Array(ref) =>
          if ref in borrowed || ref !in m.arrays then (slot, m, Panicked)
          else
            var a := m.arrays[ref];
            (match Flat(a, indices)
             case None => (slot, m, Err(OutOfBounds))
             case Some(k) =>
               if k >= |a.data| then (slot, m, Panicked)
               else
                 var (s, m1, r) := StoreWalk(a.data[k], rest, value, m, borrowed + {ref}, defs);
                 (slot, PutCell(m1, ref, k, s), r))
        case Null => (slot, m, Err(NullDeref))
        case _ => (slot, m, Err(NotArray))
  }

  // ── The reference: resolve the place, then write one cell ──────────────

  /** The last cell of memory on the way to the place. */
  datatype Base = Here | HeapField(id: nat, index: nat) | ArrayCell(ref: nat, pos: nat)

  /** A place: a base cell and a path through the value structs inside it. */
  datatype Place = At(base: Base, path: seq<nat>) | Bad(error: StoreErr) | Dangling

  function Prepend(i: nat, p: Place): Place {
    if p.At? && p.base.Here? then At(Here, [i] + p.path) else p
  }

  function Rebase(b: Base, p: Place): Place {
    if p.At? && p.base.Here? then At(b, p.path) else p
  }

  /** Where the projections lead, read off without changing anything. */
  function Resolve(slot: Value, projs: seq<Projection>, m: Memory, defs: seq<seq<nat>>): Place
    decreases |projs|
  {
    if projs == [] then At(Here, [])
    else
      var rest := projs[1..];
      match projs[0]
      case Field(f) =>
        (match slot
         case Struct(fields) =>
           var i := FindName(StructNames(fields), f);
           if i.None? then Bad(NoField(f)) else Prepend(i.value, Resolve(fields[i.value].1, rest, m, defs))
         case TypeInstance(id) =>
           (match AccessField(m, defs, id, f)
            case Refused(e) => Bad(e)
            case Found(i) => Rebase(HeapField(id, i), Resolve(m.heap[id].fields[i], rest, m, defs)))
         case Null => Bad(NullDeref)
         case _ => Bad(NotStruct))
      case Index(indices) =>
        match slot
        case Array(ref) =>
          if ref !in m.arrays then Dangling
          else
            var a := m.arrays[ref];
            (match Flat(a, indices)
             case None => Bad(OutOfBounds)
             case Some(k) =>
               if k >= |a.data| then Dangling else Rebase(ArrayCell(ref, k), Resolve(a.data[k], rest, m, defs)))
        case Null => Bad(NullDeref)
        case _ => Bad(NotArray)
  }

  /** What a walk must not meet twice: a heap field, or an array. */
  datatype Cell = FieldOf(id: nat, index: nat) | ArrayOf(ref: nat)

  /** The cells the way leads through, in order. */
  function Visits(slot: Value, projs: seq<Projection>, m: Memory, defs: seq<seq<nat>>): seq<Cell>
    decreases |projs|
  {
    if projs == [] then []
    else
      var rest := projs[1..];
      match (projs[0], slot)
      case (Field(f), Struct(fields)) =>
        var i := FindName(StructNames(fields), f);
        if i.None? then [] else Visits(fields[i.value].1, rest, m, defs)
      case (Field(f), TypeInstance(id)) =>
        (match AccessField(m, defs, id, f)
         case Refused(_) => []
         case Found(i) => [FieldOf(id, i)] + Visits(m.heap[id].fields[i], rest, m, defs))
      case (Index(indices), Array(ref)) =>
        if ref !in m.arrays then []
        else
          var k := Flat(m.arrays[ref], indices);
          [ArrayOf(ref)] +
          (if k.None? || k.value >= |m.arrays[ref].data| then [] else Visits(m.arrays[ref].data[k.value], rest, m, defs))
      case (_, _) => []
  }

  predicate PathOk(v: Value, path: seq<nat>)
    decreases |path|
  {
    path == [] || (v.Struct? && path[0] < |v.fields| && PathOk(v.fields[path[0]].1, path[1..]))
  }

  function SetPath(v: Value, path: seq<nat>, value: Value): Value
    requires PathOk(v, path)
    decreases |path|
  {
    if path == [] then value
    else Struct(v.fields[path[0] := (v.fields[path[0]].0, SetPath(v.fields[path[0]].1, path[1..], value))])
  }

  function GetPath(v: Value, path: seq<nat>): Value
    requires PathOk(v, path)
    decreases |path|
  {
    if path == [] then v else GetPath(v.fields[path[0]].1, path[1..])
  }

  predicate BaseOk(m: Memory, b: Base) {
    match b
    case Here => true
    case HeapField(id, i) => id in m.heap && i < |m.heap[id].fields|
    case ArrayCell(ref, k) => ref in m.arrays && k < |m.arrays[ref].data|
  }

  function Content(slot: Value, m: Memory, b: Base): Value
    requires BaseOk(m, b)
  {
    match b
    case Here => slot
    case HeapField(id, i) => m.heap[id].fields[i]
    case ArrayCell(ref, k) => m.arrays[ref].data[k]
  }

  predicate PlaceOk(slot: Value, m: Memory, p: Place) {
    p.At? && BaseOk(m, p.base) && PathOk(Content(slot, m, p.base), p.path)
  }

  /** Write one cell. */
  function Write(slot: Value, m: Memory, p: Place, value: Value): (Value, Memory)
    requires PlaceOk(slot, m, p)
  {
    var v := SetPath(Content(slot, m, p.base), p.path, value);
    match p.base
    case Here => (v, m)
    case HeapField(id, i) => (slot, PutField(m, id, i, v))
    case ArrayCell(ref, k) => (slot, PutCell(m, ref, k, v))
  }

  function Read(slot: Value, m: Memory, p: Place): Value
    requires PlaceOk(slot, m, p)
  {
    GetPath(Content(slot, m, p.base), p.path)
  }

  lemma {:induction false} ResolvedPlaceOk(slot: Value, projs: seq<Projection>, m: Memory, defs: seq<seq<nat>>)
    ensures var p := Resolve(slot, projs, m, defs); p.At? ==> PlaceOk(slot, m, p)
    decreases |projs|
  {
    if projs != [] {
      match (projs[0], slot) {
        case (Field(f), Struct(fields)) =>
          var i := FindName(StructNames(fields), f);
          if i.Some? { ResolvedPlaceOk(fields[i.value].1, projs[1..], m, defs); }
        case (Field(f), TypeInstance(id)) =>
          var a := AccessField(m, defs, id, f);
          if a.Found? { ResolvedPlaceOk(m.heap[id].fields[a.index], projs[1..], m, defs); }
        case (Index(indices), Array(ref)) =>
          if ref in m.arrays {
            var k := Flat(m.arrays[ref], indices);
            if k.Some? && k.value < |m.arrays[ref].data| { ResolvedPlaceOk(m.arrays[ref].data[k.value], projs[1..], m, defs); }
          }
        case (_, _) =>
      }
    }
  }

  // ── What the walk does, decided before it starts ───────────────────────

  /** `Lost`: the value is written to a field that an outer step of the same walk has taken out
      and then puts back, so nothing changes although the store reports success. */
  datatype Plan = Writes(place: Place) | Lost | Fails(error: StoreErr) | Panics

  function PlanPrepend(i: nat, p: Plan): Plan {
    if p.Writes? then Writes(Prepend(i, p.place)) else p
  }

  function PlanRebase(b: Base, p: Plan): Plan {
    if p.Writes? then Writes(Rebase(b, p.place)) else p
  }

  /** `taken`: fields already taken out; `borrowed`: arrays already being walked. */
  function PlanStore(slot: Value, projs: seq<Projection>, m: Memory, taken: set<(nat, nat)>, borrowed: set<nat>, defs: seq<seq<nat>>): Plan
    decreases |projs|
  {
    if projs == [] then Writes(At(Here, []))
    else
      var rest := projs[1..];
      match projs[0]
      case Field(f) =>
        (match slot
         case Struct(fields) =>
           var i := FindName(StructNames(fields), f);
           if i.None? then Fails(NoField(f))
           else PlanPrepend(i.value, PlanStore(fields[i.value].1, rest, m, taken, borrowed, defs))
         case TypeInstance(id) =>
           (match AccessField(m, defs, id, f)
            case Refused(e) => Fails(e)
            case Found(i) =>
              if (id, i) in taken then
                if rest == [] then Lost else Fails(if rest[0].Field? then NotStruct else NotArray)
              else PlanRebase(HeapField(id, i), PlanStore(m.heap[id].fields[i], rest, m, taken + {(id, i)}, borrowed, defs)))
         case Null => Fails(NullDeref)
         case _ => Fails(NotStruct))
      case Index(indices) =>
        match slot
        case Array(ref) =>
          if ref in borrowed || ref !in m.arrays then Panics
          else
            (match Flat(m.arrays[ref], indices)
             case None => Fails(OutOfBounds)
             case Some(k) =>
               if k >= |m.arrays[ref].data| then Panics
               else PlanRebase(ArrayCell(ref, k), PlanStore(m.arrays[ref].data[k], rest, m, taken, borrowed + {ref}, defs)))
        case Null => Fails(NullDeref)
        case _ => Fails(NotArray)
  }

  /** `n` is `m` except that the fields in `taken` may hold anything. */
  ghost predicate SameOutside(n: Memory, m: Memory, taken: set<(nat, nat)>) {
    && n.arrays == m.arrays && n.heap.Keys == m.heap.Keys
    && forall id | id in m.heap :: SameObj(n, m, taken, id)
  }

  ghost predicate SameObj(n: Memory, m: Memory, taken: set<(nat, nat)>, id: nat)
    requires id in n.heap && id in m.heap
  {
    && n.heap[id].typeDef == m.heap[id].typeDef && n.heap[id].isSentinel == m.heap[id].isSentinel
    && |n.heap[id].fields| == |m.heap[id].fields|
    && forall i | 0 <= i < |m.heap[id].fields| && (id, i) !in taken :: n.heap[id].fields[i] == m.heap[id].fields[i]
  }

  /** `n` is `m` with the fields in `taken` emptied. */
  ghost predicate Emptied(n: Memory, m: Memory, taken: set<(nat, nat)>) {
    && SameOutside(n, m, taken)
    && forall id, i | id in n.heap && 0 <= i < |n.heap[id].fields| && (id, i) in taken :: n.heap[id].fields[i] == Void
  }

  /** The outcome of a walk over the emptied memory `n`, by the plan made on the true memory `m`. */
  ghost predicate Carried(slot: Value, value: Value, m: Memory, taken: set<(nat, nat)>, plan: Plan, r: (Value, Memory, Result)) {
    match plan
    case Writes(p) =>
      && PlaceOk(slot, m, p) && (p.base.HeapField? ==> (p.base.id, p.base.index) !in taken)
      && r.2 == Ok && r.0 == Write(slot, m, p, value).0 && SameOutside(r.1, Write(slot, m, p, value).1, taken)
    case Lost => r.2 == Ok && r.0 == slot && SameOutside(r.1, m, taken)
    case Fails(e) => r.2 == Err(e) && r.0 == slot && SameOutside(r.1, m, taken)
    case Panics => r.2 == Panicked
  }

  /** A plan never writes into an array that is being walked. */
  lemma {:induction false} PlanAvoidsBorrowed(slot: Value, projs: seq<Projection>, m: Memory, taken: set<(nat, nat)>, borrowed: set<nat>, defs: seq<seq<nat>>)
    ensures var p := PlanStore(slot, projs, m, taken, borrowed, defs);
      p.Writes? ==> p.place.At? && (p.place.base.ArrayCell? ==> p.place.base.ref !in borrowed)
    decreases |projs|
  {
    if projs != [] {
      match (projs[0], slot) {
        case (Field(f), Struct(fields)) =>
          var i := FindName(StructNames(fields), f);
          if i.Some? { PlanAvoidsBorrowed(fields[i.value].1, projs[1..], m, taken, borrowed, defs); }
        case (Field(f), TypeInstance(id)) =>
          var a := AccessField(m, defs, id, f);
          if a.Found? { PlanAvoidsBorrowed(m.heap[id].fields[a.index], projs[1..], m, taken + {(id, a.index)}, borrowed, defs); }
        case (Index(indices), Array(ref)) =>
          if ref in m.arrays {
            var k := Flat(m.arrays[ref], indices);
            if k.Some? && k.value < |m.arrays[ref].data| {
              PlanAvoidsBorrowed(m.arrays[ref].data[k.value], projs[1..], m, taken, borrowed + {ref}, defs);
            }
          }
        case (_, _) =>
      }
    }
  }

  lemma {:induction false} WalkFollowsPlan(slot: Value, projs: seq<Projection>, value: Value, n: Memory, m: Memory,
                                           taken: set<(nat, nat)>, borrowed: set<nat>, defs: seq<seq<nat>>)
    requires Emptied(n, m, taken)
    ensures Carried(slot, value, m, taken, PlanStore(slot, projs, m, taken, borrowed, defs),
                    StoreWalk(slot, projs, value, n, borrowed, defs))
    decreases |projs|, 1
  {
    hide StoreWalk, PlanStore, Carried, Emptied;
    if projs == [] {
      NoStep(slot, projs, value, n, m, taken, borrowed, defs);
    } else {
      match (projs[0], slot) {
        case (Field(f), Struct(fields)) => StructFollowsPlan(fields, f, projs, value, n, m, taken, borrowed, defs);
        case (Field(f), TypeInstance(id)) => FieldFollowsPlan(id, f, projs, value, n, m, taken, borrowed, defs);
        case (Index(indices), Array(ref)) => CellFollowsPlan(ref, indices, projs, value, n, m, taken, borrowed, defs);
        case (_, _) => NoStep(slot, projs, value, n, m, taken, borrowed, defs);
      }
    }
  }

  /** The walk ends here: at the place, or at a value that has no such part. */
  lemma NoStep(slot: Value, projs: seq<Projection>, value: Value, n: Memory, m: Memory,
               taken: set<(nat, nat)>, borrowed: set<nat>, defs: seq<seq<nat>>)
    requires Emptied(n, m, taken)
    requires projs == [] || (projs[0].Field? && !slot.Struct? && !slot.TypeInstance?) || (projs[0].Index? && !slot.Array?)
    ensures Carried(slot, value, m, taken, PlanStore(slot, projs, m, taken, borrowed, defs),
                    StoreWalk(slot, projs, value, n, borrowed, defs))
  {
    hide SameOutside;
  }

  lemma {:induction false} StructFollowsPlan(fields: seq<(nat, Value)>, f: nat, projs: seq<Projection>, value: Value, n: Memory, m: Memory,
                                             taken: set<(nat, nat)>, borrowed: set<nat>, defs: seq<seq<nat>>)
    requires Emptied(n, m, taken) && projs != [] && projs[0] == Field(f)
    ensures Carried(Struct(fields), value, m, taken, PlanStore(Struct(fields), projs, m, taken, borrowed, defs),
                    StoreWalk(Struct(fields), projs, value, n, borrowed, defs))
    decreases |projs|, 0
  {
    var i := FindName(StructNames(fields), f);
    if i.Some? {
      var c := fields[i.value].1;
      WalkFollowsPlan(c, projs[1..], value, n, m, taken, borrowed, defs);
      StructPutBack(fields, i.value, value, m, taken, PlanStore(c, projs[1..], m, taken, borrowed, defs),
                    StoreWalk(c, projs[1..], value, n, borrowed, defs));
      hide Carried, SameObj;
    }
  }

  lemma StructPutBack(fields: seq<(nat, Value)>, i: nat, value: Value, m: Memory, taken: set<(nat, nat)>, sub: Plan, w: (Value, Memory, Result))
    requires i < |fields| && Carried(fields[i].1, value, m, taken, sub, w)
    ensures Carried(Struct(fields), value, m, taken, PlanPrepend(i, sub), (Struct(fields[i := (fields[i].0, w.0)]), w.1, w.2))
  {
    hide SameOutside;
    if sub.Writes? && sub.place.base.Here? {
      assert ([i] + sub.place.path)[1..] == sub.place.path;
    } else if !sub.Panics? {
      assert fields[i := (fields[i].0, w.0)] == fields;
    }
  }

  lemma {:induction false} FieldFollowsPlan(id: nat, f: nat, projs: seq<Projection>, value: Value, n: Memory, m: Memory,
                                            taken: set<(nat, nat)>, borrowed: set<nat>, defs: seq<seq<nat>>)
    requires Emptied(n, m, taken) && projs != [] && projs[0] == Field(f)
    ensures Carried(TypeInstance(id), value, m, taken, PlanStore(TypeInstance(id), projs, m, taken, borrowed, defs),
                    StoreWalk(TypeInstance(id), projs, value, n, borrowed, defs))
    decreases |projs|, 0
  {
    var rest := projs[1..];
    SameAccess(n, m, taken, defs, id, f);
    var a := AccessField(m, defs, id, f);
    if a.Refused? || rest == [] {
      LastField(id, f, projs, value, n, m, taken, borrowed, defs);
    } else if (id, a.index) in taken {
      TakenAgain(id, a.index, rest, value, n, m, taken, borrowed, defs);
      hide SameObj, Emptied;
    } else {
      var i := a.index;
      TakeOut(id, i, n, m, taken);
      var c := m.heap[id].fields[i];
      var e := PutField(n, id, i, Void);
      WalkFollowsPlan(c, rest, value, e, m, taken + {(id, i)}, borrowed, defs);
      PutBack(id, i, value, m, taken, PlanStore(c, rest, m, taken + {(id, i)}, borrowed, defs), StoreWalk(c, rest, value, e, borrowed, defs));
      hide Carried, SameOutside, Emptied;
    }
  }

  lemma LastField(id: nat, f: nat, projs: seq<Projection>, value: Value, n: Memory, m: Memory,
                  taken: set<(nat, nat)>, borrowed: set<nat>, defs: seq<seq<nat>>)
    requires Emptied(n, m, taken) && projs != [] && projs[0] == Field(f)
    requires AccessField(m, defs, id, f).Refused? || projs[1..] == []
    ensures Carried(TypeInstance(id), value, m, taken, PlanStore(TypeInstance(id), projs, m, taken, borrowed, defs),
                    StoreWalk(TypeInstance(id), projs, value, n, borrowed, defs))
  {
    hide SameOutside, Emptied, AccessField;
    EmptiedIsSame(n, m, taken);
    SameAccess(n, m, taken, defs, id, f);
    var a := AccessField(m, defs, id, f);
    if a.Found? {
      WriteLast(id, a.index, value, n, m, taken);
      assert PlanStore(m.heap[id].fields[a.index], projs[1..], m, taken + {(id, a.index)}, borrowed, defs) == Writes(At(Here, []));
    }
  }

  lemma EmptiedIsSame(n: Memory, m: Memory, taken: set<(nat, nat)>)
    requires Emptied(n, m, taken)
    ensures SameOutside(n, m, taken)
  {
  }

  lemma SameAccess(n: Memory, m: Memory, taken: set<(nat, nat)>, defs: seq<seq<nat>>, id: nat, f: nat)
    requires SameOutside(n, m, taken)
    ensures AccessField(n, defs, id, f) == AccessField(m, defs, id, f)
    ensures var a := AccessField(m, defs, id, f); a.Found? && (id, a.index) !in taken ==> n.heap[id].fields[a.index] == m.heap[id].fields[a.index]
  {
    assert id in n.heap <==> id in m.heap;
    if id in m.heap { assert SameObj(n, m, taken, id); }
  }

  lemma WriteLast(id: nat, i: nat, value: Value, n: Memory, m: Memory, taken: set<(nat, nat)>)
    requires SameOutside(n, m, taken) && id in m.heap && i < |m.heap[id].fields| && id in n.heap && i < |n.heap[id].fields|
    ensures SameOutside(PutField(n, id, i, value), if (id, i) in taken then m else PutField(m, id, i, value), taken)
  {
    var w := PutField(n, id, i, value);
    var t := if (id, i) in taken then m else PutField(m, id, i, value);
    forall j | j in m.heap ensures SameObj(w, t, taken, j) {
      assert SameObj(n, m, taken, j);
      if j != id { assert w.heap[j] == n.heap[j] && t.heap[j] == m.heap[j]; }
    }
  }

  lemma TakeOut(id: nat, i: nat, n: Memory, m: Memory, taken: set<(nat, nat)>)
    requires Emptied(n, m, taken) && id in n.heap && i < |n.heap[id].fields|
    ensures Emptied(PutField(n, id, i, Void), m, taken + {(id, i)})
  {
    var e := PutField(n, id, i, Void);
    forall j | j in m.heap ensures SameObj(e, m, taken + {(id, i)}, j) { assert SameObj(n, m, taken, j); }
  }

  /** A field met again below itself is empty, so the walk cannot go on from it. */
  lemma TakenAgain(id: nat, i: nat, rest: seq<Projection>, value: Value, n: Memory, m: Memory, taken: set<(nat, nat)>, borrowed: set<nat>, defs: seq<seq<nat>>)
    requires Emptied(n, m, taken) && id in n.heap && i < |n.heap[id].fields| && (id, i) in taken && rest != []
    ensures var w := StoreWalk(n.heap[id].fields[i], rest, value, PutField(n, id, i, Void), borrowed, defs);
      && w.2 == Err(if rest[0].Field? then NotStruct else NotArray)
      && SameOutside(PutField(w.1, id, i, w.0), m, taken)
  {
    hide SameOutside, Emptied;
    EmptyField(n, m, taken, id, i);
    var e := PutField(n, id, i, Void);
    VoidStops(rest, value, e, borrowed, defs);
    EmptiedIsSame(n, m, taken);
    WriteLast(id, i, Void, n, m, taken);
    WriteLast(id, i, Void, e, m, taken);
    hide StoreWalk;
  }

  lemma EmptyField(n: Memory, m: Memory, taken: set<(nat, nat)>, id: nat, i: nat)
    requires Emptied(n, m, taken) && id in n.heap && i < |n.heap[id].fields| && (id, i) in taken
    ensures n.heap[id].fields[i] == Void && id in m.heap && i < |m.heap[id].fields|
  {
    assert id in m.heap && SameObj(n, m, taken, id);
  }

  lemma VoidStops(rest: seq<Projection>, value: Value, e: Memory, borrowed: set<nat>, defs: seq<seq<nat>>)
    requires rest != []
    ensures StoreWalk(Void, rest, value, e, borrowed, defs) == (Void, e, Err(if rest[0].Field? then NotStruct else NotArray))
  {
  }

  /** Putting the taken field back turns what is known with the field open into what is known without. */
  lemma PutBack(id: nat, i: nat, value: Value, m: Memory, taken: set<(nat, nat)>, sub: Plan, w: (Value, Memory, Result))
    requires id in m.heap && i < |m.heap[id].fields| && (id, i) !in taken
    requires Carried(m.heap[id].fields[i], value, m, taken + {(id, i)}, sub, w)
    requires id in w.1.heap && i < |w.1.heap[id].fields|
    ensures Carried(TypeInstance(id), value, m, taken, PlanRebase(HeapField(id, i), sub), (TypeInstance(id), PutField(w.1, id, i, w.0), w.2))
  {
    var c := m.heap[id].fields[i];
    if sub.Writes? && sub.place.base.Here? {
      Reinsert(id, i, w.0, w.1, m, taken);
      hide SameOutside;
    } else if sub.Writes? {
      PutBackBelow(id, i, value, m, taken, sub.place, w);
    } else if !sub.Panics? {
      Reinsert(id, i, c, w.1, m, taken);
      PutSame(m, id, i);
      hide SameOutside;
    }
  }

  lemma PutBackBelow(id: nat, i: nat, value: Value, m: Memory, taken: set<(nat, nat)>, p: Place, w: (Value, Memory, Result))
    requires id in m.heap && i < |m.heap[id].fields| && (id, i) !in taken
    requires Carried(m.heap[id].fields[i], value, m, taken + {(id, i)}, Writes(p), w) && !p.base.Here?
    requires id in w.1.heap && i < |w.1.heap[id].fields|
    ensures Carried(TypeInstance(id), value, m, taken, Writes(p), (TypeInstance(id), PutField(w.1, id, i, w.0), w.2))
  {
    var c := m.heap[id].fields[i];
    var u := Write(c, m, p, value).1;
    assert Content(c, m, p.base) == Content(TypeInstance(id), m, p.base);
    assert u.heap[id].fields[i] == c;
    Reinsert(id, i, c, w.1, u, taken);
    PutSame(u, id, i);
    hide SameOutside;
  }

  lemma PutSame(u: Memory, id: nat, i: nat)
    requires id in u.heap && i < |u.heap[id].fields|
    ensures PutField(u, id, i, u.heap[id].fields[i]) == u
  {
    var o := u.heap[id];
    assert o.fields[i := o.fields[i]] == o.fields;
    assert u.heap[id := o] == u.heap;
  }

  lemma Reinsert(id: nat, i: nat, v: Value, n: Memory, u: Memory, taken: set<(nat, nat)>)
    requires SameOutside(n, u, taken + {(id, i)}) && id in u.heap && i < |u.heap[id].fields| && id in n.heap && i < |n.heap[id].fields|
    ensures SameOutside(PutField(n, id, i, v), PutField(u, id, i, v), taken)
  {
    forall j | j in u.heap ensures SameObj(PutField(n, id, i, v), PutField(u, id, i, v), taken, j) {
      assert SameObj(n, u, taken + {(id, i)}, j);
    }
  }

  lemma {:induction false} CellFollowsPlan(ref: nat, indices: seq<nat>, projs: seq<Projection>, value: Value, n: Memory, m: Memory,
                                           taken: set<(nat, nat)>, borrowed: set<nat>, defs: seq<seq<nat>>)
    requires Emptied(n, m, taken) && projs != [] && projs[0] == Index(indices)
    ensures Carried(Array(ref), value, m, taken, PlanStore(Array(ref), projs, m, taken, borrowed, defs),
                    StoreWalk(Array(ref), projs, value, n, borrowed, defs))
    decreases |projs|, 0
  {
    hide Flat, SameObj, Carried;
    if ref !in borrowed && ref in m.arrays && Flat(m.arrays[ref], indices).Some? && Flat(m.arrays[ref], indices).value < |m.arrays[ref].data| {
      var k := Flat(m.arrays[ref], indices).value;
      var c := m.arrays[ref].data[k];
      WalkFollowsPlan(c, projs[1..], value, n, m, taken, borrowed + {ref}, defs);
      var sub := PlanStore(c, projs[1..], m, taken, borrowed + {ref}, defs);
      PlanAvoidsBorrowed(c, projs[1..], m, taken, borrowed + {ref}, defs);
      PutCellBack(ref, k, value, m, taken, sub, StoreWalk(c, projs[1..], value, n, borrowed + {ref}, defs));
    } else {
      CellStops(ref, indices, projs, value, n, m, taken, borrowed, defs);
    }
  }

  lemma CellStops(ref: nat, indices: seq<nat>, projs: seq<Projection>, value: Value, n: Memory, m: Memory,
                  taken: set<(nat, nat)>, borrowed: set<nat>, defs: seq<seq<nat>>)
    requires Emptied(n, m, taken) && projs != [] && projs[0] == Index(indices)
    requires ref in borrowed || ref !in m.arrays || Flat(m.arrays[ref], indices).None?
             || Flat(m.arrays[ref], indices).value >= |m.arrays[ref].data|
    ensures Carried(Array(ref), value, m, taken, PlanStore(Array(ref), projs, m, taken, borrowed, defs),
                    StoreWalk(Array(ref), projs, value, n, borrowed, defs))
  {
    hide Flat, SameObj;
  }

  lemma PutCellBack(ref: nat, k: nat, value: Value, m: Memory, taken: set<(nat, nat)>, sub: Plan, w: (Value, Memory, Result))
    requires ref in m.arrays && k < |m.arrays[ref].data|
    requires Carried(m.arrays[ref].data[k], value, m, taken, sub, w)
    requires sub.Writes? && sub.place.At? && sub.place.base.ArrayCell? ==> sub.place.base.ref != ref
    requires ref in w.1.arrays && k < |w.1.arrays[ref].data|
    ensures Carried(Array(ref), value, m, taken, PlanRebase(ArrayCell(ref, k), sub), (Array(ref), PutCell(w.1, ref, k, w.0), w.2))
  {
    if sub.Writes? && sub.place.base.Here? {
      assert PutCell(w.1, ref, k, w.0).arrays == PutCell(m, ref, k, w.0).arrays;
    } else if !sub.Panics? {
      var u := if sub.Writes? then Write(m.arrays[ref].data[k], m, sub.place, value).1 else m;
      assert w.1.arrays[ref].data[k := w.0] == u.arrays[ref].data;
      assert PutCell(w.1, ref, k, w.0).arrays == u.arrays;
    }
  }

  // ── The plan and the resolved place ────────────────────────────────────

  predicate Seen(c: Cell, taken: set<(nat, nat)>, borrowed: set<nat>) {
    match c
    case FieldOf(id, i) => (id, i) in taken
    case ArrayOf(ref) => ref in borrowed
  }

  function WithField(taken: set<(nat, nat)>, c: Cell): set<(nat, nat)> {
    if c.FieldOf? then taken + {(c.id, c.index)} else taken
  }

  function WithArray(borrowed: set<nat>, c: Cell): set<nat> {
    if c.ArrayOf? then borrowed + {c.ref} else borrowed
  }

  /** No cell of `v` is seen already or met twice. */
  predicate Fresh(v: seq<Cell>, taken: set<(nat, nat)>, borrowed: set<nat>)
    decreases |v|
  {
    v == [] || (!Seen(v[0], taken, borrowed) && Fresh(v[1..], WithField(taken, v[0]), WithArray(borrowed, v[0])))
  }

  lemma {:induction false} FreshIsDistinct(v: seq<Cell>, taken: set<(nat, nat)>, borrowed: set<nat>)
    ensures Fresh(v, taken, borrowed) <==> Distinct(v) && forall k | 0 <= k < |v| :: !Seen(v[k], taken, borrowed)
    decreases |v|
  {
    if v != [] {
      var t, b, w := WithField(taken, v[0]), WithArray(borrowed, v[0]), v[1..];
      FreshIsDistinct(w, t, b);
      forall k | 0 <= k < |w| ensures Seen(w[k], t, b) <==> Seen(w[k], taken, borrowed) || w[k] == v[0] {}
      if Distinct(w) && !Seen(v[0], taken, borrowed) && forall k | 0 <= k < |w| :: !Seen(w[k], t, b) {
        forall i, j | 0 <= i < j < |v| ensures v[i] != v[j] { assert v[j] == w[j - 1] && !Seen(w[j - 1], t, b); }
        forall k | 0 <= k < |v| ensures !Seen(v[k], taken, borrowed) { if k > 0 { assert v[k] == w[k - 1]; } }
      }
      if Distinct(v) && forall k | 0 <= k < |v| :: !Seen(v[k], taken, borrowed) {
        forall k | 0 <= k < |w| ensures !Seen(w[k], t, b) { assert w[k] == v[k + 1]; }
        forall i, j | 0 <= i < j < |w| ensures w[i] != w[j] { assert w[i] == v[i + 1] && w[j] == v[j + 1]; }
      }
    }
  }

  function PlanOf(p: Place): Plan {
    match p
    case At(_, _) => Writes(p)
    case Bad(e) => Fails(e)
    case Dangling => Panics
  }

  lemma {:induction false} FreshPlan(slot: Value, projs: seq<Projection>, m: Memory, taken: set<(nat, nat)>, borrowed: set<nat>, defs: seq<seq<nat>>)
    requires Fresh(Visits(slot, projs, m, defs), taken, borrowed)
    ensures PlanStore(slot, projs, m, taken, borrowed, defs) == PlanOf(Resolve(slot, projs, m, defs))
    decreases |projs|
  {
    hide Flat;
    if projs != [] {
      match (projs[0], slot) {
        case (Field(f), Struct(fields)) =>
          var i := FindName(StructNames(fields), f);
          if i.Some? { FreshPlan(fields[i.value].1, projs[1..], m, taken, borrowed, defs); }
        case (Field(f), TypeInstance(id)) =>
          var a := AccessField(m, defs, id, f);
          if a.Found? {
            var v := Visits(m.heap[id].fields[a.index], projs[1..], m, defs);
            assert ([FieldOf(id, a.index)] + v)[1..] == v;
            FreshPlan(m.heap[id].fields[a.index], projs[1..], m, taken + {(id, a.index)}, borrowed, defs);
          }
        case (Index(indices), Array(ref)) =>
          if ref in m.arrays {
            var k := Flat(m.arrays[ref], indices);
            if k.Some? && k.value < |m.arrays[ref].data| {
              var v := Visits(m.arrays[ref].data[k.value], projs[1..], m, defs);
              assert ([ArrayOf(ref)] + v)[1..] == v;
              FreshPlan(m.arrays[ref].data[k.value], projs[1..], m, taken, borrowed + {ref}, defs);
            }
          }
        case (_, _) =>
      }
    }
  }

  /** A place that still lies in the slot was reached through structs alone. */
  lemma {:induction false} HerePath(slot: Value, projs: seq<Projection>, m: Memory, defs: seq<seq<nat>>)
    ensures var p := Resolve(slot, projs, m, defs); p.At? && p.base.Here? ==> |p.path| == |projs|
    decreases |projs|
  {
    if projs != [] {
      match (projs[0], slot) {
        case (Field(f), Struct(fields)) =>
          var i := FindName(StructNames(fields), f);
          if i.Some? { HerePath(fields[i.value].1, projs[1..], m, defs); }
        case (_, _) =>
      }
    }
  }

  function CellOf(b: Base): Option<Cell> {
    match b
    case Here => None
    case HeapField(id, i) => Some(FieldOf(id, i))
    case ArrayCell(ref, _) => Some(ArrayOf(ref))
  }

  /** The last cell on the way is the base of the place. */
  lemma {:induction false} LastVisit(slot: Value, projs: seq<Projection>, m: Memory, defs: seq<seq<nat>>)
    ensures var p, v := Resolve(slot, projs, m, defs), Visits(slot, projs, m, defs);
      p.At? ==> CellOf(p.base) == if v == [] then None else Some(v[|v| - 1])
    decreases |projs|
  {
    hide Flat;
    if projs != [] {
      match (projs[0], slot) {
        case (Field(f), Struct(fields)) =>
          var i := FindName(StructNames(fields), f);
          if i.Some? { LastVisit(fields[i.value].1, projs[1..], m, defs); }
        case (Field(f), TypeInstance(id)) =>
          var a := AccessField(m, defs, id, f);
          if a.Found? { LastVisit(m.heap[id].fields[a.index], projs[1..], m, defs); }
        case (Index(indices), Array(ref)) =>
          if ref in m.arrays {
            var k := Flat(m.arrays[ref], indices);
            if k.Some? && k.value < |m.arrays[ref].data| { LastVisit(m.arrays[ref].data[k.value], projs[1..], m, defs); }
          }
        case (_, _) =>
      }
    }
  }

  /** Only the very last step meets a heap field again, and the place is that field itself. */
  predicate LastStepRepeats(v: seq<Cell>, p: Place, taken: set<(nat, nat)>, borrowed: set<nat>) {
    p.At? && p.base.HeapField? && p.path == [] && v != [] && Fresh(v[..|v| - 1], taken, borrowed) && !Fresh(v, taken, borrowed)
  }

  lemma RepeatStep(c: Cell, v: seq<Cell>, p: Place, taken: set<(nat, nat)>, borrowed: set<nat>)
    ensures Fresh([c] + v, taken, borrowed) <==> !Seen(c, taken, borrowed) && Fresh(v, WithField(taken, c), WithArray(borrowed, c))
    ensures LastStepRepeats([c] + v, p, taken, borrowed) <==>
      && p.At? && p.base.HeapField? && p.path == []
      && if Seen(c, taken, borrowed) then v == [] else LastStepRepeats(v, p, WithField(taken, c), WithArray(borrowed, c))
  {
    var w := [c] + v;
    assert w[1..] == v;
    if v != [] {
      assert w[..|w| - 1] == [c] + v[..|v| - 1];
      assert w[..|w| - 1][1..] == v[..|v| - 1];
    } else {
      assert w[..|w| - 1] == [];
    }
  }

  lemma {:induction false} RepeatPlan(slot: Value, projs: seq<Projection>, m: Memory, taken: set<(nat, nat)>, borrowed: set<nat>, defs: seq<seq<nat>>)
    requires Resolve(slot, projs, m, defs).At? && !Fresh(Visits(slot, projs, m, defs), taken, borrowed)
    ensures var plan := PlanStore(slot, projs, m, taken, borrowed, defs);
      !plan.Writes? && (plan.Lost? <==> LastStepRepeats(Visits(slot, projs, m, defs), Resolve(slot, projs, m, defs), taken, borrowed))
    decreases |projs|, 1
  {
    hide Flat;
    LastVisit(slot, projs, m, defs);
    var rest := projs[1..];
    match (projs[0], slot) {
      case (Field(f), Struct(fields)) => RepeatPlan(fields[FindName(StructNames(fields), f).value].1, rest, m, taken, borrowed, defs);
      case (Field(f), TypeInstance(id)) => RepeatField(id, f, rest, m, taken, borrowed, defs);
      case (Index(indices), Array(ref)) => RepeatCell(ref, indices, rest, m, taken, borrowed, defs);
      case (_, _) =>
    }
  }

  lemma {:induction false} RepeatField(id: nat, f: nat, rest: seq<Projection>, m: Memory, taken: set<(nat, nat)>, borrowed: set<nat>, defs: seq<seq<nat>>)
    requires var projs := [Field(f)] + rest;
      Resolve(TypeInstance(id), projs, m, defs).At? && !Fresh(Visits(TypeInstance(id), projs, m, defs), taken, borrowed)
    ensures var slot, projs := TypeInstance(id), [Field(f)] + rest;
      var plan := PlanStore(slot, projs, m, taken, borrowed, defs);
      !plan.Writes? && (plan.Lost? <==> LastStepRepeats(Visits(slot, projs, m, defs), Resolve(slot, projs, m, defs), taken, borrowed))
    decreases |rest| + 1, 0
  {
    var slot, projs := TypeInstance(id), [Field(f)] + rest;
    assert projs[1..] == rest;
    var i := AccessField(m, defs, id, f).index;
    var c := m.heap[id].fields[i];
    var v, p := Visits(c, rest, m, defs), Resolve(c, rest, m, defs);
    HerePath(c, rest, m, defs);
    LastVisit(c, rest, m, defs);
    RepeatStep(FieldOf(id, i), v, Rebase(HeapField(id, i), p), taken, borrowed);
    if (id, i) !in taken {
      RepeatPlan(c, rest, m, taken + {(id, i)}, borrowed, defs);
      assert !p.base.Here?;
    }
  }

  lemma {:induction false} RepeatCell(ref: nat, indices: seq<nat>, rest: seq<Projection>, m: Memory, taken: set<(nat, nat)>, borrowed: set<nat>, defs: seq<seq<nat>>)
    requires var projs := [Index(indices)] + rest;
      Resolve(Array(ref), projs, m, defs).At? && !Fresh(Visits(Array(ref), projs, m, defs), taken, borrowed)
    ensures var slot, projs := Array(ref), [Index(indices)] + rest;
      var plan := PlanStore(slot, projs, m, taken, borrowed, defs);
      !plan.Writes? && (plan.Lost? <==> LastStepRepeats(Visits(slot, projs, m, defs), Resolve(slot, projs, m, defs), taken, borrowed))
    decreases |rest| + 1, 0
  {
    hide Flat;
    var slot, projs := Array(ref), [Index(indices)] + rest;
    assert projs[1..] == rest;
    var k := Flat(m.arrays[ref], indices).value;
    var c := m.arrays[ref].data[k];
    var v, p := Visits(c, rest, m, defs), Resolve(c, rest, m, defs);
    LastVisit(c, rest, m, defs);
    RepeatStep(ArrayOf(ref), v, Rebase(ArrayCell(ref, k), p), taken, borrowed);
    if ref !in borrowed {
      RepeatPlan(c, rest, m, taken, borrowed + {ref}, defs);
      assert !p.base.Here?;
    }
  }

  // ── The theorems ───────────────────────────────────────────────────────

  lemma {:induction false} SetPathSame(v: Value, path: seq<nat>, value: Value)
    requires PathOk(v, path)
    ensures SetPath(v, path, value) == v <==> GetPath(v, path) == value
    decreases |path|
  {
    if path != [] {
      var k := path[0];
      SetPathSame(v.fields[k].1, path[1..], value);
      var c := SetPath(v.fields[k].1, path[1..], value);
      assert v.fields[k := (v.fields[k].0, c)][k].1 == c;
      if c == v.fields[k].1 { assert v.fields[k := (v.fields[k].0, c)] == v.fields; }
    }
  }

  /** Writing a place changes nothing exactly when the place holds the value already. */
  lemma WriteSame(slot: Value, m: Memory, p: Place, value: Value)
    requires PlaceOk(slot, m, p)
    ensures Write(slot, m, p, value) == (slot, m) <==> Read(slot, m, p) == value
  {
    var c := Content(slot, m, p.base);
    var v := SetPath(c, p.path, value);
    SetPathSame(c, p.path, value);
    match p.base {
      case Here =>
      case HeapField(id, i) =>
        assert PutField(m, id, i, v).heap[id].fields[i] == v;
        if v == c { PutSame(m, id, i); }
      case ArrayCell(ref, k) =>
        assert PutCell(m, ref, k, v).arrays[ref].data[k] == v;
        if v == c {
          assert m.arrays[ref].data[k := v] == m.arrays[ref].data;
          assert PutCell(m, ref, k, v).arrays == m.arrays;
        }
    }
  }

  lemma SameEverywhere(n: Memory, m: Memory)
    requires SameOutside(n, m, {})
    ensures n == m
  {
    forall id | id in m.heap ensures n.heap[id] == m.heap[id] {
      assert SameObj(n, m, {}, id);
      assert n.heap[id].fields == m.heap[id].fields;
    }
    assert n.heap == m.heap;
  }

  /** The whole effect of a store, known before it starts. */
  lemma StoreFollowsPlan(slot: Value, projs: seq<Projection>, value: Value, m: Memory, defs: seq<seq<nat>>)
    ensures var plan, w := PlanStore(slot, projs, m, {}, {}, defs), StoreWalk(slot, projs, value, m, {}, defs);
      match plan
      case Writes(p) => PlaceOk(slot, m, p) && w == (Write(slot, m, p, value).0, Write(slot, m, p, value).1, Ok)
      case Lost => w == (slot, m, Ok)
      case Fails(e) => w == (slot, m, Err(e))
      case Panics => w.2 == Panicked
  {
    assert Emptied(m, m, {}) by {
      forall id | id in m.heap ensures SameObj(m, m, {}, id) {}
    }
    WalkFollowsPlan(slot, projs, value, m, m, {}, {}, defs);
    var plan, w := PlanStore(slot, projs, m, {}, {}, defs), StoreWalk(slot, projs, value, m, {}, defs);
    hide StoreWalk, PlanStore, SameObj;
    match plan {
      case Writes(p) => SameEverywhere(w.1, Write(slot, m, p, value).1);
      case Panics =>
      case _ => SameEverywhere(w.1, m);
    }
  }

  /** The walk meets no heap field and no array twice. */
  ghost predicate NoRepeat(slot: Value, projs: seq<Projection>, m: Memory, defs: seq<seq<nat>>) {
    Distinct(Visits(slot, projs, m, defs))
  }

  /** The store ends on a heap field it has walked through before, and repeats nothing else. */
  ghost predicate EndsOnItsOwnWay(slot: Value, projs: seq<Projection>, m: Memory, defs: seq<seq<nat>>) {
    var v, p := Visits(slot, projs, m, defs), Resolve(slot, projs, m, defs);
    p.At? && p.base.HeapField? && p.path == [] && v != [] && Distinct(v[..|v| - 1]) && !Distinct(v)
  }

  /** A store is "resolve the place, then write that one cell" exactly when nothing is met twice, or
      when the one repeat is the final field and that field holds the value already. */
  lemma StoreIsResolveThenWrite(slot: Value, projs: seq<Projection>, value: Value, m: Memory, defs: seq<seq<nat>>)
    ensures var p, w := Resolve(slot, projs, m, defs), StoreWalk(slot, projs, value, m, {}, defs);
      p.At? ==> (
        && PlaceOk(slot, m, p)
        && (w == (Write(slot, m, p, value).0, Write(slot, m, p, value).1, Ok) <==>
            NoRepeat(slot, projs, m, defs) || (EndsOnItsOwnWay(slot, projs, m, defs) && Read(slot, m, p) == value)))
  {
    hide Resolve, StoreWalk, PlanStore, Visits, Write, PlaceOk, Read, Fresh;
    var p, v := Resolve(slot, projs, m, defs), Visits(slot, projs, m, defs);
    ResolvedPlaceOk(slot, projs, m, defs);
    StoreFollowsPlan(slot, projs, value, m, defs);
    FreshIsDistinct(v, {}, {});
    if p.At? {
      WriteSame(slot, m, p, value);
      if Fresh(v, {}, {}) {
        FreshPlan(slot, projs, m, {}, {}, defs);
      } else {
        RepeatPlan(slot, projs, m, {}, {}, defs);
        FreshIsDistinct(v[..|v| - 1], {}, {});
      }
    }
  }

  /** The outcome of a store that ends on its own way: it reports success and changes nothing. */
  lemma StoreIsLost(slot: Value, projs: seq<Projection>, value: Value, m: Memory, defs: seq<seq<nat>>)
    requires EndsOnItsOwnWay(slot, projs, m, defs)
    ensures StoreWalk(slot, projs, value, m, {}, defs) == (slot, m, Ok)
  {
    hide Resolve, StoreWalk, PlanStore, Visits, Fresh, Distinct;
    var v := Visits(slot, projs, m, defs);
    FreshIsDistinct(v, {}, {});
    FreshIsDistinct(v[..|v| - 1], {}, {});
    RepeatPlan(slot, projs, m, {}, {}, defs);
    StoreFollowsPlan(slot, projs, value, m, defs);
  }

  /** A store that fails leaves slot, heap and arrays as they were, and without a repeat its error is
      the one met on the way to the place. */
  lemma FailingStoreChangesNothing(slot: Value, projs: seq<Projection>, value: Value, m: Memory, defs: seq<seq<nat>>)
    ensures var p, w := Resolve(slot, projs, m, defs), StoreWalk(slot, projs, value, m, {}, defs);
      && (w.2.Err? ==> w.0 == slot && w.1 == m)
      && (NoRepeat(slot, projs, m, defs) && p.Bad? ==> w == (slot, m, Err(p.error)))
  {
    StoreFollowsPlan(slot, projs, value, m, defs);
    if NoRepeat(slot, projs, m, defs) {
      FreshIsDistinct(Visits(slot, projs, m, defs), {}, {});
      FreshPlan(slot, projs, m, {}, {}, defs);
    }
    hide Resolve, StoreWalk, PlanStore, Visits, Write;
  }

  /** The first cell met again, if any, is an array. */
  predicate FirstRepeatIsArray(v: seq<Cell>, taken: set<(nat, nat)>, borrowed: set<nat>)
    decreases |v|
  {
    v != [] &&
    if Seen(v[0], taken, borrowed) then v[0].ArrayOf?
    else FirstRepeatIsArray(v[1..], WithField(taken, v[0]), WithArray(borrowed, v[0]))
  }

  lemma {:induction false} PlanPanics(slot: Value, projs: seq<Projection>, m: Memory, taken: set<(nat, nat)>, borrowed: set<nat>, defs: seq<seq<nat>>)
    requires !Resolve(slot, projs, m, defs).Dangling?
    ensures PlanStore(slot, projs, m, taken, borrowed, defs).Panics? <==> FirstRepeatIsArray(Visits(slot, projs, m, defs), taken, borrowed)
    decreases |projs|
  {
    hide Flat;
    if projs != [] {
      match (projs[0], slot) {
        case (Field(f), Struct(fields)) =>
          var i := FindName(StructNames(fields), f);
          if i.Some? { PlanPanics(fields[i.value].1, projs[1..], m, taken, borrowed, defs); }
        case (Field(f), TypeInstance(id)) =>
          var a := AccessField(m, defs, id, f);
          if a.Found? {
            var c := m.heap[id].fields[a.index];
            assert ([FieldOf(id, a.index)] + Visits(c, projs[1..], m, defs))[1..] == Visits(c, projs[1..], m, defs);
            PlanPanics(c, projs[1..], m, taken + {(id, a.index)}, borrowed, defs);
          }
        case (Index(indices), Array(ref)) =>
          if ref in m.arrays {
            var k := Flat(m.arrays[ref], indices);
            if k.Some? && k.value < |m.arrays[ref].data| {
              var c := m.arrays[ref].data[k.value];
              assert ([ArrayOf(ref)] + Visits(c, projs[1..], m, defs))[1..] == Visits(c, projs[1..], m, defs);
              PlanPanics(c, projs[1..], m, taken, borrowed + {ref}, defs);
            }
          }
        case (_, _) =>
      }
    }
  }

  /** The cell at `i` is the first one met again, and it is an array. */
  predicate RepeatsArrayAt(v: seq<Cell>, taken: set<(nat, nat)>, borrowed: set<nat>, i: nat) {
    i < |v| && Fresh(v[..i], taken, borrowed) && !Fresh(v[..i + 1], taken, borrowed) && v[i].ArrayOf?
  }

  lemma FreshPrefix(v: seq<Cell>, taken: set<(nat, nat)>, borrowed: set<nat>, i: nat)
    requires i < |v|
    ensures Fresh(v[..i + 1], taken, borrowed) <==>
            !Seen(v[0], taken, borrowed) && Fresh(v[1..][..i], WithField(taken, v[0]), WithArray(borrowed, v[0]))
  {
    assert v[..i + 1][1..] == v[1..][..i];
    hide WithField, WithArray;
  }

  lemma {:induction false} RepeatFound(v: seq<Cell>, taken: set<(nat, nat)>, borrowed: set<nat>) returns (i: nat)
    requires FirstRepeatIsArray(v, taken, borrowed)
    ensures RepeatsArrayAt(v, taken, borrowed, i)
    decreases |v|
  {
    FreshPrefix(v, taken, borrowed, 0);
    if Seen(v[0], taken, borrowed) {
      i := 0;
    } else {
      var j := RepeatFound(v[1..], WithField(taken, v[0]), WithArray(borrowed, v[0]));
      i := j + 1;
      FreshPrefix(v, taken, borrowed, j);
      FreshPrefix(v, taken, borrowed, i);
      hide Fresh, WithField, WithArray, Seen;
    }
  }

  lemma {:induction false} RepeatIsFirst(v: seq<Cell>, taken: set<(nat, nat)>, borrowed: set<nat>, i: nat)
    requires RepeatsArrayAt(v, taken, borrowed, i)
    ensures FirstRepeatIsArray(v, taken, borrowed)
    decreases |v|
  {
    FreshPrefix(v, taken, borrowed, i);
    if i == 0 {
      assert v[1..][..0] == [];
    } else {
      FreshPrefix(v, taken, borrowed, i - 1);
      RepeatIsFirst(v[1..], WithField(taken, v[0]), WithArray(borrowed, v[0]), i - 1);
      hide Fresh, WithField, WithArray, Seen;
    }
  }

  /** Before anything else is met twice, the walk comes to an array it is already inside of. */
  ghost predicate EntersArrayAgain(slot: Value, projs: seq<Projection>, m: Memory, defs: seq<seq<nat>>) {
    var v := Visits(slot, projs, m, defs);
    exists i | 0 <= i < |v| :: Distinct(v[..i]) && v[i].ArrayOf? && v[i] in v[..i]
  }

  lemma DistinctSnoc(v: seq<Cell>, i: nat)
    requires i < |v| && Distinct(v[..i])
    ensures Distinct(v[..i + 1]) <==> v[i] !in v[..i]
  {
    assert v[..i + 1] == v[..i] + [v[i]];
    if Distinct(v[..i + 1]) {
      forall k | 0 <= k < i ensures v[..i][k] != v[i] { assert v[..i + 1][k] != v[..i + 1][i]; }
    }
  }

  /** Through valid handles a store aborts exactly when the first thing it meets twice is an array. */
  lemma StorePanicsExactly(slot: Value, projs: seq<Projection>, value: Value, m: Memory, defs: seq<seq<nat>>)
    requires !Resolve(slot, projs, m, defs).Dangling?
    ensures StoreWalk(slot, projs, value, m, {}, defs).2 == Panicked <==> EntersArrayAgain(slot, projs, m, defs)
  {
    hide Resolve, StoreWalk, PlanStore, Visits, Write, Distinct, Fresh, FirstRepeatIsArray;
    var v := Visits(slot, projs, m, defs);
    StoreFollowsPlan(slot, projs, value, m, defs);
    PlanPanics(slot, projs, m, {}, {}, defs);
    forall i | 0 <= i <= |v| ensures Fresh(v[..i], {}, {}) <==> Distinct(v[..i]) {
      FreshIsDistinct(v[..i], {}, {});
    }
    if FirstRepeatIsArray(v, {}, {}) {
      var i := RepeatFound(v, {}, {});
      DistinctSnoc(v, i);
    }
    forall i | 0 <= i < |v| && Distinct(v[..i]) && v[i].ArrayOf? && v[i] in v[..i] ensures FirstRepeatIsArray(v, {}, {}) {
      DistinctSnoc(v, i);
      RepeatIsFirst(v, {}, {}, i);
    }
  }

  ghost predicate NoArrayTwice(v: seq<Cell>) {
    forall j | 0 <= j < |v| && v[j].ArrayOf? :: v[j] !in v[..j]
  }

  /** So a store that meets no array twice never aborts. */
  lemma StoreNeverPanics(slot: Value, projs: seq<Projection>, value: Value, m: Memory, defs: seq<seq<nat>>)
    requires NoArrayTwice(Visits(slot, projs, m, defs)) && !Resolve(slot, projs, m, defs).Dangling?
    ensures StoreWalk(slot, projs, value, m, {}, defs).2 != Panicked
  {
    StorePanicsExactly(slot, projs, value, m, defs);
    hide Resolve, StoreWalk, Visits;
  }

  /** `n.next.next = Null` on an instance that is its own successor: success is reported, and the
      field still holds the instance. */
  lemma LostStoreExample()
    ensures var m := Memory(map[0 := Obj(0, [TypeInstance(0)], false)], map[]);
      && Resolve(TypeInstance(0), [Field(7), Field(7)], m, [[7]]) == At(HeapField(0, 0), [])
      && StoreWalk(TypeInstance(0), [Field(7), Field(7)], Null, m, {}, [[7]]) == (TypeInstance(0), m, Ok)
      && Write(TypeInstance(0), m, At(HeapField(0, 0), []), Null).1 != m
  {
    var m := Memory(map[0 := Obj(0, [TypeInstance(0)], false)], map[]);
    var projs := [Field(7), Field(7)];
    assert projs[1..] == [Field(7)];
    assert [Field(7)][1..] == [];
    StoreFollowsPlan(TypeInstance(0), projs, Null, m, [[7]]);
    WriteSame(TypeInstance(0), m, At(HeapField(0, 0), []), Null);
  }

  /** `a[0].list[0] = v` where the instance's own `list` is `a`: the second borrow aborts. */
  lemma ReentryExample(v: Value)
    ensures var m := Memory(map[0 := Obj(0, [Array(5)], false)], map[5 := Arr([1], [TypeInstance(0)])]);
      StoreWalk(Array(5), [Index([0]), Field(7), Index([0])], v, m, {}, [[7]]).2 == Panicked
  {
    hide StoreWalk;
    var m := Memory(map[0 := Obj(0, [Array(5)], false)], map[5 := Arr([1], [TypeInstance(0)])]);
    var projs := [Index([0]), Field(7), Index([0])];
    assert projs[1..] == [Field(7), Index([0])];
    assert [Field(7), Index([0])][1..] == [Index([0])];
    assert Arrays.Offset([1], [0]) == 0;
    StoreFollowsPlan(Array(5), projs, v, m, [[7]]);
  }

  // ── The mutable walk ───────────────────────────────────────────────────

  /** The shared state a store mutates: the instance heap, the arrays and which of them are borrowed. */
  class Store {
    var heap: map<nat, Obj>
    var arrays: map<nat, Arr>
    var borrowed: set<nat>
    const defs: seq<seq<nat>>

    constructor (heap: map<nat, Obj>, arrays: map<nat, Arr>, defs: seq<seq<nat>>)
      ensures View() == Memory(heap, arrays) && this.defs == defs && borrowed == {}
    {
      this.heap, this.arrays, this.defs, borrowed := heap, arrays, defs, {};
    }

    function View(): Memory
      reads this
    {
      Memory(heap, arrays)
    }

    /** What the value behind `&mut slot` becomes is returned as `after`. */
    method Walk(slot: Value, projs: seq<Projection>, value: Value) returns (after: Value, r: Result)
      modifies this
      ensures (after, View(), r) == StoreWalk(slot, projs, value, old(View()), old(borrowed), defs)
      ensures borrowed == old(borrowed)
      decreases |projs|, 1
    {
      if projs == [] { return value, Ok; }
      after := slot;
      match (projs[0], slot) {
        case (Field(f), Struct(fields)) =>
          var i := FindName(StructNames(fields), f);
          if i.None? { return slot, Err(NoField(f)); }
          var inner;
          inner, r := Walk(fields[i.value].1, projs[1..], value);
          after := Struct(fields[i.value := (fields[i.value].0, inner)]);
        case (Field(f), TypeInstance(id)) => r := WalkInstance(id, f, projs, value);
        case (Index(indices), Array(ref)) => r := WalkArray(ref, indices, projs, value);
        case (_, Null) => r := Err(NullDeref);
        case (Field(_), _) => r := Err(NotStruct);
        case (Index(_), _) => r := Err(NotArray);
      }
    }

    method WalkInstance(id: nat, f: nat, projs: seq<Projection>, value: Value) returns (r: Result)
      requires projs != [] && projs[0] == Field(f)
      modifies this
      ensures (TypeInstance(id), View(), r) == StoreWalk(TypeInstance(id), projs, value, old(View()), old(borrowed), defs)
      ensures borrowed == old(borrowed)
      decreases |projs|, 0
    {
      var a := AccessField(View(), defs, id, f);
      if a.Refused? { return Err(a.error); }
      if |projs| == 1 {
        SetField(id, a.index, value);
        r := Ok;
      } else {
        var taken := heap[id].fields[a.index];
        SetField(id, a.index, Void);
        taken, r := Walk(taken, projs[1..], value);
        SetField(id, a.index, taken);
      }
    }

    method WalkArray(ref: nat, indices: seq<nat>, projs: seq<Projection>, value: Value) returns (r: Result)
      requires projs != [] && projs[0] == Index(indices)
      modifies this
      ensures (Array(ref), View(), r) == StoreWalk(Array(ref), projs, value, old(View()), old(borrowed), defs)
      ensures borrowed == old(borrowed)
      decreases |projs|, 0
    {
      if ref in borrowed || ref !in arrays { return Panicked; }
      var k := Flat(arrays[ref], indices);
      if k.None? { return Err(OutOfBounds); }
      if k.value >= |arrays[ref].data| { return Panicked; }
      borrowed := borrowed + {ref};
      var cell;
      cell, r := Walk(arrays[ref].data[k.value], projs[1..], value);
      arrays := arrays[ref := arrays[ref].(data := arrays[ref].data[k.value := cell])];
      borrowed := borrowed - {ref};
    }

    method SetField(id: nat, i: nat, v: Value)
      requires id in heap && i < |heap[id].fields|
      modifies this`heap
      ensures View() == PutField(old(View()), id, i, v)
    {
      heap := heap[id := heap[id].(fields := heap[id].fields[i := v])];
    }
  }
}
