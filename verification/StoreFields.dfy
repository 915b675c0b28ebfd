/** Single stores, said cell by cell: which field or element `a.f = v` and `a[i] = v` write, and what they refuse. */
module StoreFields {
  import opened Common
  import opened StorePlace
  import Arrays

  // ── One cell of memory ─────────────────────────────────────────────────

  /** `w` is `m` with field `k` of instance `id` replaced. */
  ghost predicate FieldSet(m: Memory, id: nat, k: nat, v: Value, w: Memory) {
    && w.arrays == m.arrays && w.heap.Keys == m.heap.Keys && id in m.heap && k < |m.heap[id].fields|
    && (forall x | x in m.heap && x != id :: w.heap[x] == m.heap[x])
    && w.heap[id].typeDef == m.heap[id].typeDef && w.heap[id].isSentinel == m.heap[id].isSentinel
    && |w.heap[id].fields| == |m.heap[id].fields|
    && forall j | 0 <= j < |m.heap[id].fields| :: w.heap[id].fields[j] == if j == k then v else m.heap[id].fields[j]
  }

  /** `w` is `m` with element `k` of an array replaced. */
  ghost predicate ElementSet(m: Memory, ref: nat, k: nat, v: Value, w: Memory) {
    && w.heap == m.heap && w.arrays.Keys == m.arrays.Keys && ref in m.arrays && k < |m.arrays[ref].data|
    && (forall x | x in m.arrays && x != ref :: w.arrays[x] == m.arrays[x])
    && w.arrays[ref].dims == m.arrays[ref].dims && |w.arrays[ref].data| == |m.arrays[ref].data|
    && forall j | 0 <= j < |m.arrays[ref].data| :: w.arrays[ref].data[j] == if j == k then v else m.arrays[ref].data[j]
  }

  /** The declared names of an instance's fields. */
  function Declared(m: Memory, defs: seq<seq<nat>>, id: nat): seq<nat>
    requires id in m.heap
  {
    if m.heap[id].typeDef < |defs| then defs[m.heap[id].typeDef] else []
  }

  // ── Stores of one step ─────────────────────────────────────────────────

  /** `n.f = v` on a live instance succeeds exactly when its type declares `f`, and then replaces the value at the
      first position of the name, and nothing else. */
  lemma FieldStore(m: Memory, defs: seq<seq<nat>>, id: nat, f: nat, v: Value)
    requires id in m.heap && !m.heap[id].isSentinel && |m.heap[id].fields| == |Declared(m, defs, id)|
    ensures var names, w := Declared(m, defs, id), StoreWalk(TypeInstance(id), [Field(f)], v, m, {}, defs);
      if f in names then
        w.0 == TypeInstance(id) && w.2 == Ok && exists k :: FirstAt(names, f, k) && FieldSet(m, id, k, v, w.1)
      else w == (TypeInstance(id), m, Err(NoField(f)))
  {
    var names := Declared(m, defs, id);
    var i := FindName(names, f);
    if i.Some? {
      assert names[i.value] in names;
      assert AccessField(m, defs, id, f) == Found(i.value);
      assert FieldSet(m, id, i.value, v, PutField(m, id, i.value, v));
      assert [Field(f)][1..] == [];
    }
  }

  /** `n.f = v` on a deleted instance, on a list's sentinel and on what is no instance: each has its own error. */
  lemma FieldStoreRefused(slot: Value, m: Memory, defs: seq<seq<nat>>, f: nat, rest: seq<Projection>, v: Value)
    requires !slot.Struct? && (slot.TypeInstance? ==> slot.id !in m.heap || m.heap[slot.id].isSentinel)
    ensures StoreWalk(slot, [Field(f)] + rest, v, m, {}, defs) ==
      (slot, m, Err(if slot.TypeInstance? && slot.id !in m.heap then Deleted
                    else if slot.TypeInstance? || slot.Null? then NullDeref
                    else NotStruct))
  {
  }

  /** `s.f = v` on a value struct replaces the value of the first field of that name, exactly when there is one. */
  lemma StructStore(fields: seq<(nat, Value)>, m: Memory, defs: seq<seq<nat>>, f: nat, v: Value)
    ensures var w := StoreWalk(Struct(fields), [Field(f)], v, m, {}, defs);
      if exists k | 0 <= k < |fields| :: fields[k].0 == f then
        && w.1 == m && w.2 == Ok && w.0.Struct? && |w.0.fields| == |fields|
        && exists k :: FirstAt(StructNames(fields), f, k) && forall j | 0 <= j < |fields| ::
             w.0.fields[j] == (fields[j].0, if j == k then v else fields[j].1)
      else w == (Struct(fields), m, Err(NoField(f)))
  {
    var names := StructNames(fields);
    assert forall k | 0 <= k < |fields| :: names[k] == fields[k].0;
    var i := FindName(names, f);
    assert [Field(f)][1..] == [];
    if i.Some? {
      assert names[i.value] == f;
      assert StoreWalk(fields[i.value].1, [], v, m, {}, defs) == (v, m, Ok);
    } else {
      forall k | 0 <= k < |fields| ensures fields[k].0 != f { assert names[k] in names; }
    }
  }

  /** `a[i…] = v` replaces the element at the row-major offset, exactly for indices in range. */
  lemma ElementStore(ref: nat, m: Memory, defs: seq<seq<nat>>, indices: seq<nat>, v: Value)
    requires ref in m.arrays && |m.arrays[ref].data| == Arrays.Product(m.arrays[ref].dims)
    ensures var a, w := m.arrays[ref], StoreWalk(Array(ref), [Index(indices)], v, m, {}, defs);
      if Arrays.InRange(a.dims, indices) then
        w.0 == Array(ref) && w.2 == Ok && ElementSet(m, ref, Arrays.Offset(a.dims, indices), v, w.1)
      else w == (Array(ref), m, Err(OutOfBounds))
  {
    var a := m.arrays[ref];
    assert [Index(indices)][1..] == [];
    if Arrays.InRange(a.dims, indices) {
      Arrays.OffsetInRange(a.dims, indices);
      var k := Arrays.Offset(a.dims, indices);
      assert StoreWalk(a.data[k], [], v, m, {} + {ref}, defs) == (v, m, Ok);
      assert ElementSet(m, ref, k, v, PutCell(m, ref, k, v));
    }
    hide Arrays.Offset, Arrays.InRange;
  }

  /** Indexing what is no array. */
  lemma ElementStoreRefused(slot: Value, m: Memory, defs: seq<seq<nat>>, indices: seq<nat>, rest: seq<Projection>, v: Value)
    requires !slot.Array?
    ensures StoreWalk(slot, [Index(indices)] + rest, v, m, {}, defs) == (slot, m, Err(if slot.Null? then NullDeref else NotArray))
  {
  }

  // ── Writing a place and reading it again ───────────────────────────────

  lemma {:induction false} PathReadBack(v: Value, path: seq<nat>, value: Value)
    requires PathOk(v, path)
    ensures PathOk(SetPath(v, path, value), path) && GetPath(SetPath(v, path, value), path) == value
    decreases |path|
  {
    if path != [] { PathReadBack(v.fields[path[0]].1, path[1..], value); }
  }

  /** A place holds what was written to it, and every other field and element is as before. */
  lemma WriteReadBack(slot: Value, m: Memory, p: Place, value: Value)
    requires PlaceOk(slot, m, p)
    ensures var w := Write(slot, m, p, value);
      && PlaceOk(w.0, w.1, p) && Read(w.0, w.1, p) == value
      && match p.base
         case Here => w.1 == m
         case HeapField(id, k) => w.0 == slot && FieldSet(m, id, k, Content(w.0, w.1, p.base), w.1)
         case ArrayCell(ref, k) => w.0 == slot && ElementSet(m, ref, k, Content(w.0, w.1, p.base), w.1)
  {
    PathReadBack(Content(slot, m, p.base), p.path, value);
    hide SetPath, GetPath, PathOk;
  }
}
