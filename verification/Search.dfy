/** InStr: a byte search that answers with a code point index. */
module Search {
  import opened Common
  import opened Utf8

  /** The first position at or after `from` where `needle` stands. */
  function FindFrom<T(==)>(hay: seq<T>, needle: seq<T>, from: nat): (at: Option<nat>)
    ensures at.Some? ==> from <= at.value && OccursAt(hay, needle, at.value)
    ensures forall i | from <= i < (if at.Some? then at.value else |hay| + 1) :: !OccursAt(hay, needle, i)
    decreases |hay| - from
  {
    if from + |needle| > |hay| then None
    else if OccursAt(hay, needle, from) then Some(from)
    else FindFrom(hay, needle, from + 1)
  }

  /** The two clauses determine the result. */
  lemma FindUnique<T>(hay: seq<T>, needle: seq<T>, from: nat, at: Option<nat>)
    requires at.Some? ==> from <= at.value && OccursAt(hay, needle, at.value)
    requires forall i | from <= i < (if at.Some? then at.value else |hay| + 1) :: !OccursAt(hay, needle, i)
    ensures at == FindFrom(hay, needle, from)
  {
    var f := FindFrom(hay, needle, from);
    assert f.Some? ==> f.value <= |hay|;
    assert at.Some? ==> at.value <= |hay|;
  }

  /** memcmp. */
  method SameBytes(hay: seq<Byte>, i: nat, needle: seq<Byte>) returns (same: bool)
    requires i + |needle| <= |hay|
    ensures same == OccursAt(hay, needle, i)
  {
    var k := 0;
    while k < |needle| && hay[i + k] == needle[k]
      invariant k <= |needle| && forall j | 0 <= j < k :: hay[i + j] == needle[j]
    {
      k := k + 1;
    }
    assert k < |needle| ==> hay[i..i + |needle|][k] != needle[k];
    return k == |needle|;
  }

  /** byte_find; None stands for SIZE_MAX. */
  method ByteFind(hay: seq<Byte>, needle: seq<Byte>, from: nat) returns (at: Option<nat>)
    ensures at == FindFrom(hay, needle, from)
  {
    if needle == [] {
      at := if from <= |hay| then Some(from) else None;
      FindUnique(hay, needle, from, at);
      return;
    }
    if |needle| > |hay| { return None; }
    var i := from;
    while i + |needle| <= |hay|
      invariant from <= i
      invariant FindFrom(hay, needle, from) == FindFrom(hay, needle, i)
    {
      var same := SameBytes(hay, i, needle);
      if same { return Some(i); }
      i := i + 1;
    }
    return None;
  }

  function StartIndex(start: int): nat {
    if start <= 1 then 0 else start - 1
  }

  /** instr_impl as a function of its input. */
  function InStr(s: seq<Byte>, find: seq<Byte>, start: int): nat {
    var at := FindFrom(s, find, Offset(s, StartIndex(start)));
    if at.None? then 0 else Leads(s[..at.value]) + 1
  }

  method InStrImpl(s: seq<Byte>, find: seq<Byte>, start: int) returns (r: nat)
    ensures r == InStr(s, find, start)
  {
    var from := ByteOffsetOfCp(s, StartIndex(start));
    var at := ByteFind(s, find, from);
    if at.None? { return 0; }
    r := CpLen(s[..at.value]);
    r := r + 1;
  }

  /** What InStr promises: the first 1-based index at or after `start` where the needle's code points
      stand, or 0. */
  function InStrOf<T(==)>(cs: seq<T>, ns: seq<T>, start: int): nat {
    var at := FindFrom(cs, ns, StartIndex(start));
    if at.None? then 0 else at.value + 1
  }

  lemma EncodeGrows(cs: seq<Scalar>, i: nat, j: nat)
    requires i <= j <= |cs|
    ensures |Encode(cs[..i])| <= |Encode(cs[..j])| && (i < j ==> |Encode(cs[..i])| < |Encode(cs[..j])|)
  {
    EncodeSlice(cs, i, j);
    if i < j { LeadsOfEncodeUtf8(cs[i..j][0]); }
    hide EncodeUtf8;
  }

  /** A byte match at or after the start is a code point match at or after the start. */
  lemma MatchIsLate(cs: seq<Scalar>, ns: seq<Scalar>, k: nat, b: nat) returns (j: nat)
    requires ns != [] && OccursAt(Encode(cs), Encode(ns), b) && Offset(Encode(cs), k) <= b
    ensures k <= j && j <= |cs| && OccursAt(cs, ns, j) && b == |Encode(cs[..j])|
  {
    hide Encode, Offset;
    j := MatchIsAligned(cs, ns, b);
    OffsetOfEncode(cs, k);
    if j < k { EncodeGrows(cs, j, if k < |cs| then k else |cs|); }
  }

  /** For a non-empty needle the byte search finds exactly the code point match. */
  lemma NeedleFound(cs: seq<Scalar>, ns: seq<Scalar>, k: nat)
    requires ns != []
    ensures var want := FindFrom(cs, ns, k);
      FindFrom(Encode(cs), Encode(ns), Offset(Encode(cs), k)) ==
      if want.None? then None else Some(|Encode(cs[..want.value])|)
  {
    var s, n := Encode(cs), Encode(ns);
    var want, at := FindFrom(cs, ns, k), FindFrom(s, n, Offset(s, k));
    hide Encode, Offset, FindFrom;
    if want.Some? {
      AlignedIsMatch(cs, ns, want.value);
      OffsetOfEncode(cs, k);
      EncodeGrows(cs, if k < |cs| then k else |cs|, want.value);
      EncodeGrows(cs, want.value, |cs|);
      assert cs[..|cs|] == cs;
    }
    if at.Some? {
      var j := MatchIsLate(cs, ns, k, at.value);
      if want.Some? { EncodeGrows(cs, want.value, j); }
    }
  }

  lemma InStrFindsNeedle(cs: seq<Scalar>, ns: seq<Scalar>, start: int)
    requires ns != []
    ensures InStr(Encode(cs), Encode(ns), start) == InStrOf(cs, ns, start)
  {
    NeedleFound(cs, ns, StartIndex(start));
    var want := FindFrom(cs, ns, StartIndex(start));
    if want.Some? {
      EncodeSlice(cs, 0, want.value);
      assert cs[0..want.value] == cs[..want.value] && cs[..0] == [];
      LeadsOfEncode(cs[..want.value]);
    }
    hide Offset, Leads, FindFrom;
  }

  /** An empty needle is found at the start position, clamped to one past the end. */
  lemma InStrFindsEmpty(cs: seq<Scalar>, start: int)
    ensures InStr(Encode(cs), Encode([]), start) == 1 + if StartIndex(start) < |cs| then StartIndex(start) else |cs|
    ensures InStrOf(cs, [], start) == if StartIndex(start) <= |cs| then StartIndex(start) + 1 else 0
  {
    hide Offset, Leads, FindFrom, Encode;
    var s, k := Encode(cs), StartIndex(start);
    var m := if k < |cs| then k else |cs|;
    OffsetOfEncode(cs, k);
    EncodeEmpty();
    FindEmpty(s, Offset(s, k));
    FindEmpty(cs, k);
    EncodeSplit(cs, m);
    assert s[..|Encode(cs[..m])|] == Encode(cs[..m]);
    LeadsOfEncode(cs[..m]);
  }

  lemma FindEmpty<T>(hay: seq<T>, from: nat)
    ensures FindFrom(hay, [], from) == if from <= |hay| then Some(from) else None
  {
  }

  /** InStr keeps its promise for every valid text exactly when there is something to look for or the
      start is not more than one past the end; otherwise it answers with a position before the start. */
  lemma InStrIsFirstMatch(cs: seq<Scalar>, ns: seq<Scalar>, start: int)
    ensures InStr(Encode(cs), Encode(ns), start) == InStrOf(cs, ns, start) <==> ns != [] || start <= |cs| + 1
    ensures InStr(Encode(cs), Encode(ns), start) != InStrOf(cs, ns, start) ==>
      0 < InStr(Encode(cs), Encode(ns), start) < start
  {
    if ns != [] {
      InStrFindsNeedle(cs, ns, start);
    } else {
      InStrFindsEmpty(cs, start);
    }
    hide InStr, InStrOf;
  }
}
