/** Array allocation and indexing in both backends: the backward stride loop of heap.rs and
    the forward Horner loop of cb_array.cpp. */
module Arrays {
  import opened Common

  const U64 := 0x1_0000_0000_0000_0000
  const I64_MAX := 0x7FFF_FFFF_FFFF_FFFF

  // ── Row-major order, stated without loops ──────────────────────────────

  /** Number of elements spanned by the axes. */
  function Product(dims: seq<int>): (p: int)
    ensures NonNegative(dims) ==> p >= 0
  {
    if dims == [] then 1 else dims[0] * Product(dims[1..])
  }

  predicate NonNegative(dims: seq<int>) {
    forall i | 0 <= i < |dims| :: dims[i] >= 0
  }

  predicate InRange(dims: seq<nat>, indices: seq<nat>) {
    |indices| == |dims| && forall i | 0 <= i < |dims| :: indices[i] < dims[i]
  }

  /** Position of an index vector in row-major order: the last index varies fastest. */
  function Offset(dims: seq<nat>, indices: seq<nat>): nat
    requires |indices| == |dims|
  {
    if dims == [] then 0 else indices[0] * Product(dims[1..]) + Offset(dims[1..], indices[1..])
  }

  /** The index vector at a position. */
  function Indices(dims: seq<nat>, k: nat): (r: seq<nat>)
    requires k < Product(dims)
    ensures |r| == |dims|
  {
    if dims == [] then []
    else
      var p := Product(dims[1..]);
      DivSplit(k, p, dims[0]);
      [k / p] + Indices(dims[1..], k % p)
  }

  lemma DivSplit(k: nat, p: nat, d: nat)
    requires k < d * p
    ensures p > 0 && k / p < d && k % p < p && k == k / p * p + k % p
  {
    if k / p >= d {
      MulMono(d, k / p, p);
    }
  }

  lemma MulMono(a: nat, b: nat, p: nat)
    requires a <= b
    ensures a * p <= b * p
  {
  }

  lemma {:induction false} OffsetInRange(dims: seq<nat>, indices: seq<nat>)
    requires InRange(dims, indices)
    ensures Offset(dims, indices) < Product(dims)
  {
    if dims != [] {
      OffsetInRange(dims[1..], indices[1..]);
      var p := Product(dims[1..]);
      MulMono(indices[0] + 1, dims[0], p);
      assert (indices[0] + 1) * p == indices[0] * p + p;
    }
  }

  /** Lexicographic order of two vectors of one length. */
  predicate Before(a: seq<nat>, b: seq<nat>)
    requires |a| == |b|
  {
    a != [] && (a[0] < b[0] || (a[0] == b[0] && Before(a[1..], b[1..])))
  }

  /** Row-major order: positions in range are ordered as their vectors. */
  lemma {:induction false} OffsetKeepsOrder(dims: seq<nat>, a: seq<nat>, b: seq<nat>)
    requires InRange(dims, a) && InRange(dims, b)
    ensures Offset(dims, a) < Offset(dims, b) <==> Before(a, b)
  {
    if dims != [] {
      OffsetKeepsOrder(dims[1..], a[1..], b[1..]);
      OffsetInRange(dims[1..], a[1..]);
      OffsetInRange(dims[1..], b[1..]);
      Ordered(a[0], b[0], Product(dims[1..]), Offset(dims[1..], a[1..]), Offset(dims[1..], b[1..]));
      hide Product, Before;
    }
    hide Offset;
  }

  lemma Ordered(q: nat, s: nat, p: nat, x: nat, y: nat)
    requires x < p && y < p
    ensures q * p + x < s * p + y <==> q < s || (q == s && x < y)
  {
    if q < s { MulMono(q + 1, s, p); }
    if s < q { MulMono(s + 1, q, p); }
  }

  /** Every in-range vector is found again from its offset ... */
  lemma {:induction false} IndicesOfOffset(dims: seq<nat>, indices: seq<nat>)
    requires InRange(dims, indices)
    ensures Offset(dims, indices) < Product(dims)
    ensures Indices(dims, Offset(dims, indices)) == indices
  {
    OffsetInRange(dims, indices);
    if dims != [] {
      IndicesOfOffset(dims[1..], indices[1..]);
      DivUnique(indices[0], Product(dims[1..]), Offset(dims[1..], indices[1..]));
    }
  }

  lemma DivUnique(q: nat, p: nat, r: nat)
    requires r < p
    ensures (q * p + r) / p == q && (q * p + r) % p == r
  {
    var k := q * p + r;
    var a := k / p;
    if a < q {
      MulMono(a + 1, q, p);
      assert false;
    }
    if q < a {
      MulMono(q + 1, a, p);
      assert false;
    }
  }

  /** ... and every position below the total is the offset of an in-range vector: a bijection. */
  lemma {:induction false} OffsetOfIndices(dims: seq<nat>, k: nat)
    requires k < Product(dims)
    ensures InRange(dims, Indices(dims, k)) && Offset(dims, Indices(dims, k)) == k
  {
    if dims != [] {
      var p := Product(dims[1..]);
      DivSplit(k, p, dims[0]);
      OffsetOfIndices(dims[1..], k % p);
    }
  }

  // ── Allocation ─────────────────────────────────────────────────────────

  /** Product of the first n dimensions, as both allocators accumulate it. */
  function Prefix(dims: seq<int>, n: nat): (p: int)
    requires n <= |dims|
    ensures NonNegative(dims) ==> p >= 0
  {
    if n == 0 then 1 else Prefix(dims, n - 1) * dims[n - 1]
  }

  /** `checked_mul` over all dimensions never exceeds `limit`. */
  predicate PrefixesFit(dims: seq<int>, limit: nat) {
    forall n | 0 <= n <= |dims| :: Prefix(dims, n) <= limit
  }

  lemma {:induction false} PrefixSplit(dims: seq<int>, n: nat)
    requires 0 < n <= |dims|
    ensures Prefix(dims, n) == dims[0] * Prefix(dims[1..], n - 1)
  {
    if n == 1 {
      assert Prefix(dims, 0) == 1;
    } else {
      PrefixSplit(dims, n - 1);
      var q := Prefix(dims[1..], n - 2);
      assert dims[1..][n - 2] == dims[n - 1];
      assert dims[0] * q * dims[n - 1] == dims[0] * (q * dims[n - 1]);
    }
  }

  lemma {:induction false} PrefixIsProduct(dims: seq<int>)
    ensures Prefix(dims, |dims|) == Product(dims)
  {
    if dims != [] {
      PrefixIsProduct(dims[1..]);
      PrefixSplit(dims, |dims|);
    }
  }

  /** The element count of `ArrayObj::new`: overflow of `usize` is an error. */
  method RustTotal(dims: seq<nat>) returns (total: Option<nat>)
    ensures total == if PrefixesFit(dims, U64 - 1) then Some(Product(dims)) else None
  {
    var t := 1;
    for i := 0 to |dims|
      invariant t == Prefix(dims, i) && forall n | 0 <= n <= i :: Prefix(dims, n) < U64
    {
      if t * dims[i] >= U64 {
        assert Prefix(dims, i + 1) >= U64;
        return None;
      }
      t := t * dims[i];
    }
    PrefixIsProduct(dims);
    total := Some(t);
  }

  /** The checks of `cb_rt_array_new`: dimensions, then the byte size. */
  method NativeTotal(dims: seq<int>, elemSize: nat) returns (total: Option<nat>)
    requires forall d | d in dims :: d <= I64_MAX
    ensures total == if NonNegative(dims) && PrefixesFit(dims, I64_MAX) && Product(dims) * elemSize <= I64_MAX
                     then Some(Product(dims)) else None
  {
    var t := 1;
    for i := 0 to |dims|
      invariant forall k | 0 <= k < i :: dims[k] >= 0
      invariant t == Prefix(dims, i) >= 0 && forall n | 0 <= n <= i :: Prefix(dims, n) <= I64_MAX
    {
      if dims[i] < 0 {
        return None;
      }
      if t * dims[i] > I64_MAX {
        assert Prefix(dims, i + 1) > I64_MAX;
        return None;
      }
      t := t * dims[i];
    }
    PrefixIsProduct(dims);
    if t * elemSize > I64_MAX {
      return None;
    }
    total := Some(t);
  }

  /** Which requests each allocator accepts. The interpreter's limit on bytes is the capacity limit of its element
      vector; `valueSize` is the size of its tagged `Value`, `elemSize` that of the native element type. */
  predicate RustAccepts(dims: seq<int>, valueSize: nat) {
    NonNegative(dims) && PrefixesFit(dims, U64 - 1) && Product(dims) * valueSize <= I64_MAX
  }

  predicate NativeAccepts(dims: seq<int>, elemSize: nat) {
    NonNegative(dims) && PrefixesFit(dims, I64_MAX) && Product(dims) * elemSize <= I64_MAX
  }

  predicate Positive(dims: seq<int>) {
    forall i | 0 <= i < |dims| :: dims[i] > 0
  }

  /** With no empty axis only the byte size decides: every prefix product is below the whole one. An element
      of no bytes counts as one byte, because the element count itself must fit. */
  lemma AcceptsBySize(dims: seq<int>, valueSize: nat, elemSize: nat)
    requires Positive(dims) && valueSize > 0
    ensures RustAccepts(dims, valueSize) <==> Product(dims) * valueSize <= 0x7FFF_FFFF_FFFF_FFFF
    ensures NativeAccepts(dims, elemSize) <==> Product(dims) * AtLeastOne(elemSize) <= 0x7FFF_FFFF_FFFF_FFFF
  {
    PrefixIsProduct(dims);
    PrefixGrows(dims, 0, |dims|);
    var p := Product(dims);
    MulMono(1, valueSize, p);
    MulMono(1, AtLeastOne(elemSize), p);
    if p <= I64_MAX {
      forall n | 0 <= n <= |dims| ensures Prefix(dims, n) <= I64_MAX {
        PrefixGrows(dims, n, |dims|);
      }
    }
    assert PrefixesFit(dims, I64_MAX) ==> Prefix(dims, |dims|) <= I64_MAX;
  }

  function AtLeastOne(n: nat): nat {
    if n == 0 then 1 else n
  }

  /** So the backends agree on such a request exactly when it is small enough for the larger of their two
      element sizes, or too large even for the smaller one. */
  lemma AcceptanceAgrees(dims: seq<int>, valueSize: nat, elemSize: nat)
    requires Positive(dims) && valueSize > 0
    ensures var p, e := Product(dims), AtLeastOne(elemSize);
      var (small, large) := if valueSize <= e then (valueSize, e) else (e, valueSize);
      (RustAccepts(dims, valueSize) <==> NativeAccepts(dims, elemSize)) <==> !(p * small <= I64_MAX < p * large)
  {
    hide RustAccepts, NativeAccepts, Product;
    AcceptsBySize(dims, valueSize, elemSize);
    var p, e := Product(dims), AtLeastOne(elemSize);
    assert NonNegative(dims);
    if valueSize <= e { MulMono(valueSize, e, p); } else { MulMono(e, valueSize, p); }
  }

  /** The native runtime stores a scalar in 1 to 8 bytes, the interpreter in a tagged value of 16: an array of
      2^59 of them is one that only the native runtime asks the allocator for. */
  lemma LargeScalarArrayDiffers(valueSize: nat, elemSize: nat)
    requires valueSize >= 16 && 0 < elemSize <= 8
    ensures var dims := [0x0800_0000_0000_0000]; !RustAccepts(dims, valueSize) && NativeAccepts(dims, elemSize)
  {
    var dims := [0x0800_0000_0000_0000];
    assert dims[1..] == [] && Product(dims) == 0x0800_0000_0000_0000;
    AcceptsBySize(dims, valueSize, elemSize);
  }

  lemma {:induction false} PrefixGrows(dims: seq<int>, m: nat, n: nat)
    requires m <= n <= |dims| && forall i | 0 <= i < |dims| :: dims[i] > 0
    ensures 0 < Prefix(dims, m) <= Prefix(dims, n)
    decreases n
  {
    if n == 0 {
    } else if m < n {
      PrefixGrows(dims, m, n - 1);
      MulMono(1, dims[n - 1], Prefix(dims, n - 1));
    } else {
      PrefixGrows(dims, m - 1, n - 1);
      MulMono(1, dims[n - 1], Prefix(dims, n - 1));
    }
  }

  /** With an empty axis (the first one at `z`) they agree exactly unless the axes before it multiply to a
      number that fits `usize` but not `int64_t`. */
  lemma AcceptanceExact(dims: seq<int>, valueSize: nat, elemSize: nat, z: nat)
    requires NonNegative(dims) && z < |dims| && dims[z] == 0 && forall i | 0 <= i < z :: dims[i] > 0
    ensures (RustAccepts(dims, valueSize) <==> NativeAccepts(dims, elemSize)) <==> !(0x7FFF_FFFF_FFFF_FFFF < Prefix(dims, z) < 0x1_0000_0000_0000_0000)
  {
    PrefixIsProduct(dims);
    ZeroAfter(dims, z, |dims|);
    FitsUpTo(dims, z, U64 - 1);
    FitsUpTo(dims, z, I64_MAX);
    hide PrefixesFit, Prefix, Product;
  }

  lemma {:induction false} ZeroAfter(dims: seq<int>, z: nat, n: nat)
    requires z < n <= |dims| && dims[z] == 0
    ensures Prefix(dims, n) == 0
  {
    if n > z + 1 { ZeroAfter(dims, z, n - 1); }
  }

  lemma FitsUpTo(dims: seq<int>, z: nat, limit: nat)
    requires z < |dims| && dims[z] == 0 && forall i | 0 <= i < z :: dims[i] > 0
    ensures PrefixesFit(dims, limit) <==> Prefix(dims, z) <= limit
  {
    forall n | 0 <= n <= |dims| ensures Prefix(dims, n) <= Prefix(dims, z) || Prefix(dims, n) == 0 {
      if n <= z {
        SamePrefix(dims, z, n);
        SamePrefix(dims, z, z);
        PrefixGrows(dims[..z], n, z);
      } else {
        ZeroAfter(dims, z, n);
      }
    }
  }

  lemma {:induction false} SamePrefix(dims: seq<int>, z: nat, n: nat)
    requires n <= z <= |dims|
    ensures Prefix(dims[..z], n) == Prefix(dims, n)
  {
    if n > 0 { SamePrefix(dims, z, n - 1); }
  }

  /** An empty axis after a large one: the interpreter makes an empty array, the native
      runtime reports an overflow. */
  lemma EmptyAxisDiffers(valueSize: nat, elemSize: nat)
    ensures var dims := [0x4000_0000_0000_0000, 2, 0];
      RustAccepts(dims, valueSize) && !NativeAccepts(dims, elemSize)
  {
    var dims := [0x4000_0000_0000_0000, 2, 0];
    assert Prefix(dims, 0) == 1 && Prefix(dims, 1) == 0x4000_0000_0000_0000;
    assert Prefix(dims, 2) == 0x8000_0000_0000_0000 && Prefix(dims, 3) == 0;
    PrefixIsProduct(dims);
  }

  // ── Indexing ───────────────────────────────────────────────────────────

  lemma {:induction false} TailOffset(dims: seq<nat>, indices: seq<nat>, i: nat)
    requires |indices| == |dims| && i < |dims|
    ensures Product(dims[i..]) == dims[i] * Product(dims[i + 1..])
    ensures Offset(dims[i..], indices[i..]) == indices[i] * Product(dims[i + 1..]) + Offset(dims[i + 1..], indices[i + 1..])
  {
    assert dims[i..][1..] == dims[i + 1..] && indices[i..][1..] == indices[i + 1..];
  }

  lemma {:induction false} ProductSplits(dims: seq<nat>, i: nat)
    requires i <= |dims|
    ensures Product(dims) == Prefix(dims, i) * Product(dims[i..])
  {
    if i == 0 {
      assert dims[0..] == dims;
    } else {
      ProductSplits(dims, i - 1);
      TailOffset(dims, dims, i - 1);
      Reassociate(Prefix(dims, i - 1), dims[i - 1], Product(dims[i..]));
      hide Product;
    }
  }

  lemma Reassociate(p: nat, d: nat, q: nat)
    ensures p * (d * q) == (p * d) * q
  {
  }

  /** The strides of the backward loop: with no empty axis none exceeds the total. */
  lemma StrideWithinTotal(dims: seq<nat>, i: nat)
    requires i <= |dims| && forall k | 0 <= k < |dims| :: dims[k] > 0
    ensures 0 < Product(dims[i..]) <= Product(dims)
  {
    hide Product, Prefix;
    ProductSplits(dims, i);
    PrefixIsProduct(dims);
    PrefixGrows(dims, i, |dims|);
    Factor(Prefix(dims, i), Product(dims[i..]));
  }

  lemma Factor(p: nat, q: nat)
    requires p > 0 && p * q > 0
    ensures 0 < q <= p * q
  {
    MulMono(1, p, q);
  }

  /** `usize` arithmetic. */
  function WrapAdd(x: nat, y: nat): nat {
    (x + y) % U64
  }

  function WrapMul(x: nat, y: nat): nat {
    x * y % U64
  }

  /** One turn of the backward loop on an allocated array without empty axes. */
  lemma BackwardStep(dims: seq<nat>, indices: seq<nat>, i: nat)
    requires PrefixesFit(dims, U64 - 1) && |indices| == |dims| && i < |dims|
    requires (forall k | 0 <= k < |dims| :: dims[k] > 0) && forall k | i <= k < |dims| :: indices[k] < dims[k]
    ensures var idx, stride := Offset(dims[i + 1..], indices[i + 1..]), Product(dims[i + 1..]);
      && WrapAdd(idx, WrapMul(indices[i], stride)) == Offset(dims[i..], indices[i..])
      && WrapMul(stride, dims[i]) == Product(dims[i..])
  {
    hide Offset, Product, Prefix;
    TailOffset(dims, indices, i);
    OffsetInRange(dims[i..], indices[i..]);
    StrideWithinTotal(dims, i);
    PrefixIsProduct(dims);
    assert Prefix(dims, |dims|) <= U64 - 1;
    Below(indices[i], dims[i], Product(dims[i + 1..]), Offset(dims[i + 1..], indices[i + 1..]));
  }

  lemma Below(i: nat, d: nat, stride: nat, idx: nat)
    requires i < d && i * stride + idx < U64 && d * stride < U64
    ensures WrapAdd(idx, WrapMul(i, stride)) == i * stride + idx && WrapMul(stride, d) == d * stride
  {
  }

  /** `flat_index`: `usize` arithmetic wraps. On an allocated array the wrap never shows. */
  method FlatIndex(dims: seq<nat>, indices: seq<nat>) returns (flat: Option<nat>)
    requires PrefixesFit(dims, U64 - 1)
    ensures flat == if InRange(dims, indices) then Some(Offset(dims, indices)) else None
  {
    if |indices| != |dims| {
      return None;
    }
    var idx, stride := 0, 1;
    var i := |indices|;
    while i > 0
      invariant 0 <= i <= |dims|
      invariant forall k | i <= k < |dims| :: indices[k] < dims[k]
      invariant (forall k | 0 <= k < |dims| :: dims[k] > 0) ==>
        idx == Offset(dims[i..], indices[i..]) && stride == Product(dims[i..])
    {
      i := i - 1;
      if indices[i] >= dims[i] {
        return None;
      }
      if forall k | 0 <= k < |dims| :: dims[k] > 0 {
        BackwardStep(dims, indices, i);
      }
      hide WrapAdd, WrapMul;
      idx, stride := WrapAdd(idx, WrapMul(indices[i], stride)), WrapMul(stride, dims[i]);
    }
    assert dims[0..] == dims && indices[0..] == indices;
    flat := Some(idx);
  }

  newtype int64 = x: int | -0x8000_0000_0000_0000 <= x < 0x8000_0000_0000_0000

  /** `cb_rt_array_elem_addr`, the flat position, in `int64_t` throughout. */
  method ElemPosition(dims: seq<nat>, indices: seq<int>) returns (flat: Option<nat>)
    requires PrefixesFit(dims, I64_MAX) && forall k | 0 <= k < |dims| :: dims[k] <= I64_MAX
    ensures flat == if NonNegative(indices) && InRange(dims, indices) then Some(Offset(dims, indices)) else None
  {
    if |indices| != |dims| {
      return None;
    }
    var f: int64 := 0;
    for i := 0 to |dims|
      invariant forall k | 0 <= k < i :: 0 <= indices[k] < dims[k]
      invariant 0 <= f as int < Prefix(dims, i)
      invariant NonNegative(indices) ==> f as int * Product(dims[i..]) + Offset(dims[i..], indices[i..]) == Offset(dims, indices)
    {
      if indices[i] < 0 || indices[i] >= dims[i] {
        return None;
      }
      Horner(f as int, Prefix(dims, i), dims[i], indices[i]);
      assert Prefix(dims, i + 1) <= I64_MAX;
      if NonNegative(indices) {
        HornerStep(dims, indices, i, f as int);
      }
      f := f * dims[i] as int64 + indices[i] as int64;
    }
    assert dims[|dims|..] == [];
    flat := Some(f as int);
  }

  lemma HornerStep(dims: seq<nat>, indices: seq<nat>, i: nat, f: nat)
    requires |indices| == |dims| && i < |dims|
    ensures (f * dims[i] + indices[i]) * Product(dims[i + 1..]) + Offset(dims[i + 1..], indices[i + 1..])
            == f * Product(dims[i..]) + Offset(dims[i..], indices[i..])
  {
    TailOffset(dims, indices, i);
    Distribute(f, dims[i], indices[i], Product(dims[i + 1..]));
  }

  lemma Distribute(f: int, d: int, i: int, q: int)
    ensures (f * d + i) * q == f * (d * q) + i * q
  {
  }

  lemma Horner(f: nat, p: nat, d: nat, i: nat)
    requires f < p && i < d
    ensures 0 <= f * d && f * d + i < p * d
  {
    MulMono(f + 1, p, d);
    assert (f + 1) * d == f * d + d;
  }
}
