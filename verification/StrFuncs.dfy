/** The string functions of cb_strfuncs.cpp: byte slices that claim code point meaning. */
module StrFuncs {
  import opened Common
  import opened Utf8

  const SPACE: Byte := 0x20

  // ── The operations, on bytes ───────────────────────────────────────────
  // Positions are 1-based and, like counts, measured in code points.

  function Min(a: int, b: int): int {
    if a < b then a else b
  }

  function Left(s: seq<Byte>, n: int): seq<Byte> {
    if n <= 0 then [] else s[..Offset(s, n)]
  }

  function Right(s: seq<Byte>, n: int): seq<Byte> {
    if n <= 0 then [] else if n >= Leads(s) then s else s[Offset(s, Leads(s) - n)..]
  }

  /** The bytes between two code point offsets. (Offsets never cross: see OffsetMonotone.) */
  function Between(s: seq<Byte>, i: nat, j: nat): seq<Byte>
    requires i <= j
  {
    OffsetMonotone(s, i, j);
    s[Offset(s, i)..Offset(s, j)]
  }

  lemma OffsetMonotone(s: seq<Byte>, i: nat, j: nat)
    requires i <= j
    ensures Offset(s, i) <= Offset(s, j)
  {
    if Offset(s, j) < Offset(s, i) { LeadsStep(s, Offset(s, j), Offset(s, i)); }
  }

  function Mid(s: seq<Byte>, pos: int, len: int): seq<Byte> {
    if pos <= 0 || len <= 0 then []
    else
      var total, start := Leads(s), pos - 1;
      if start >= total then [] else Between(s, start, Min(start + len, total))
  }

  function Remove(s: seq<Byte>, pos: int, count: int): seq<Byte> {
    var total := Leads(s);
    var start := if pos <= 1 then 0 else Min(pos - 1, total);
    var end := Min(start + if count <= 0 then 0 else count, total);
    s[..Offset(s, start)] + s[Offset(s, end)..]
  }

  function Insert(s: seq<Byte>, pos: int, txt: seq<Byte>): seq<Byte> {
    if pos < 0 then []
    else
      var at := Offset(s, if pos <= 1 then 0 else Min(pos - 1, Leads(s)));
      s[..at] + txt + s[at..]
  }

  function Move(s: seq<Byte>, pos: int, len: int, offset: int): seq<Byte> {
    if pos <= 0 || len < 0 || offset < 0 then []
    else
      var total, start := Leads(s), pos - 1;
      if start + len > total then s
      else
        var txt := Between(s, start, start + len);
        var rem := s[..Offset(s, start)] + s[Offset(s, start + len)..];
        var at := Offset(rem, Min(start + offset, total - len));
        rem[..at] + txt + rem[at..]
  }

  function Spaces(n: nat): seq<Byte> {
    seq(n, _ => SPACE)
  }

  function LSet(s: seq<Byte>, len: int): seq<Byte> {
    if len < 0 then [] else if len <= Leads(s) then s[..Offset(s, len)] else s + Spaces(len - Leads(s))
  }

  function RSet(s: seq<Byte>, len: int): seq<Byte> {
    if len < 0 then [] else if len > Leads(s) then Spaces(len - Leads(s)) + s else s[Offset(s, Leads(s) - len)..]
  }

  // ── The same operations on a list of code points ───────────────────────

  function TakeTo<T>(cs: seq<T>, k: int): seq<T> {
    if k <= 0 then [] else cs[..Min(k, |cs|)]
  }

  function DropTo<T>(cs: seq<T>, k: int): seq<T> {
    if k <= 0 then cs else cs[Min(k, |cs|)..]
  }

  /** The `n` items from 1-based `pos` on, or fewer at the end. */
  function MidOf<T>(cs: seq<T>, pos: int, n: int): seq<T> {
    if pos <= 0 then [] else TakeTo(DropTo(cs, pos - 1), n)
  }

  function RemoveOf<T>(cs: seq<T>, pos: int, n: int): seq<T> {
    TakeTo(cs, pos - 1) + DropTo(DropTo(cs, pos - 1), n)
  }

  function InsertOf<T>(cs: seq<T>, pos: int, txt: seq<T>): seq<T> {
    if pos < 0 then [] else TakeTo(cs, pos - 1) + txt + DropTo(cs, pos - 1)
  }

  function MoveOf<T>(cs: seq<T>, pos: int, len: int, offset: int): seq<T> {
    if pos <= 0 || len < 0 || offset < 0 then []
    else if pos - 1 + len > |cs| then cs
    else InsertOf(RemoveOf(cs, pos, len), pos + offset, MidOf(cs, pos, len))
  }

  function Pad(n: int): seq<Scalar> {
    if n <= 0 then [] else seq(n, _ => ' ' as int)
  }

  function LSetOf(cs: seq<Scalar>, len: int): seq<Scalar> {
    TakeTo(cs, len) + if len < 0 then [] else Pad(len - |cs|)
  }

  function RSetOf(cs: seq<Scalar>, len: int): seq<Scalar> {
    if len < 0 then [] else Pad(len - |cs|) + DropTo(cs, |cs| - len)
  }

  function Reverse<T>(cs: seq<T>): (r: seq<T>)
    ensures |r| == |cs| && forall i | 0 <= i < |cs| :: r[i] == cs[|cs| - 1 - i]
  {
    if cs == [] then [] else Reverse(cs[1..]) + [cs[0]]
  }

  // ── Refinement ─────────────────────────────────────────────────────────

  /** The prefix and suffix cut at code point `k`. */
  lemma Cut(cs: seq<Scalar>, k: nat)
    ensures var s, m := Encode(cs), Min(k, |cs|);
      Leads(s) == |cs| && s[..Offset(s, k)] == Encode(cs[..m]) && s[Offset(s, k)..] == Encode(cs[m..])
  {
    LeadsOfEncode(cs);
    OffsetOfEncode(cs, k);
    EncodeSplit(cs, Min(k, |cs|));
    hide Encode, Leads, Offset;
  }

  lemma CutBetween(cs: seq<Scalar>, i: nat, j: nat)
    requires i <= j <= |cs|
    ensures Between(Encode(cs), i, j) == Encode(cs[i..j])
  {
    OffsetOfEncode(cs, i);
    OffsetOfEncode(cs, j);
    EncodeSlice(cs, i, j);
    hide Encode, Leads, Offset;
  }

  lemma LeftRefines(cs: seq<Scalar>, n: int)
    ensures Left(Encode(cs), n) == Encode(TakeTo(cs, n))
  {
    if n > 0 { Cut(cs, n); }
    hide Encode, Leads, Offset;
    assert TakeTo(cs, 0) == [];
  }

  lemma RightRefines(cs: seq<Scalar>, n: int)
    ensures Right(Encode(cs), n) == Encode(if n <= 0 then [] else DropTo(cs, |cs| - n))
  {
    hide Encode, Leads, Offset;
    EncodeEmpty();
    LeadsOfEncode(cs);
    if 0 < n < |cs| { Cut(cs, |cs| - n); }
  }

  lemma MidRefines(cs: seq<Scalar>, pos: int, len: int)
    ensures Mid(Encode(cs), pos, len) == Encode(MidOf(cs, pos, len))
  {
    hide Leads, Offset, Between;
    LeadsOfEncode(cs);
    if pos > 0 && len > 0 && pos - 1 < |cs| {
      var start, end := pos - 1, Min(pos - 1 + len, |cs|);
      CutBetween(cs, start, end);
      assert MidOf(cs, pos, len) == cs[start..end];
    }
  }

  lemma RemoveRefines(cs: seq<Scalar>, pos: int, n: int)
    ensures Remove(Encode(cs), pos, n) == Encode(RemoveOf(cs, pos, n))
  {
    hide Encode, Leads, Offset, RemoveOf;
    LeadsOfEncode(cs);
    var start := if pos <= 1 then 0 else Min(pos - 1, |cs|);
    var end := Min(start + if n <= 0 then 0 else n, |cs|);
    Cut(cs, start);
    Cut(cs, end);
    EncodeConcat(cs[..start], cs[end..]);
    RemoveOfParts(cs, pos, n);
  }

  lemma RemoveOfParts<T>(cs: seq<T>, pos: int, n: int)
    ensures var start := if pos <= 1 then 0 else Min(pos - 1, |cs|);
      var end := Min(start + if n <= 0 then 0 else n, |cs|);
      RemoveOf(cs, pos, n) == cs[..start] + cs[end..]
  {
    var start := if pos <= 1 then 0 else Min(pos - 1, |cs|);
    assert TakeTo(cs, pos - 1) == cs[..start];
    assert DropTo(cs, pos - 1) == cs[start..];
  }

  lemma InsertRefines(cs: seq<Scalar>, pos: int, txt: seq<Scalar>)
    ensures Insert(Encode(cs), pos, Encode(txt)) == Encode(InsertOf(cs, pos, txt))
  {
    LeadsOfEncode(cs);
    if pos >= 0 {
      var at := if pos <= 1 then 0 else Min(pos - 1, |cs|);
      Splice(cs, at, txt);
      assert InsertOf(cs, pos, txt) == cs[..at] + txt + cs[at..];
    }
    hide Leads, Offset;
  }

  lemma MoveRefines(cs: seq<Scalar>, pos: int, len: int, offset: int)
    ensures Move(Encode(cs), pos, len, offset) == Encode(MoveOf(cs, pos, len, offset))
  {
    hide Encode, Leads, Offset, Between, InsertOf, RemoveOf, MidOf;
    EncodeEmpty();
    LeadsOfEncode(cs);
    if pos > 0 && len >= 0 && offset >= 0 && pos - 1 + len <= |cs| {
      var start := pos - 1;
      var txt, rem := cs[start..start + len], cs[..start] + cs[start + len..];
      CutBetween(cs, start, start + len);
      Cut(cs, start);
      Cut(cs, start + len);
      EncodeConcat(cs[..start], cs[start + len..]);
      Splice(rem, Min(start + offset, |cs| - len), txt);
      MoveOfParts(cs, pos, len, offset);
    }
  }

  /** Inserting at a code point boundary. */
  lemma Splice(cs: seq<Scalar>, at: nat, txt: seq<Scalar>)
    requires at <= |cs|
    ensures var s := Encode(cs); s[..Offset(s, at)] + Encode(txt) + s[Offset(s, at)..] == Encode(cs[..at] + txt + cs[at..])
  {
    Cut(cs, at);
    EncodeConcat(cs[..at], txt);
    EncodeConcat(cs[..at] + txt, cs[at..]);
    hide Encode, Offset, Leads;
  }

  lemma MoveOfParts<T>(cs: seq<T>, pos: int, len: int, offset: int)
    requires pos > 0 && len >= 0 && offset >= 0 && pos - 1 + len <= |cs|
    ensures var rem, at := cs[..pos - 1] + cs[pos - 1 + len..], Min(pos - 1 + offset, |cs| - len);
      MoveOf(cs, pos, len, offset) == rem[..at] + cs[pos - 1..pos - 1 + len] + rem[at..]
  {
    assert RemoveOf(cs, pos, len) == cs[..pos - 1] + cs[pos - 1 + len..];
    assert MidOf(cs, pos, len) == cs[pos - 1..pos - 1 + len];
  }

  lemma {:induction false} EncodePad(n: nat)
    ensures Encode(Pad(n)) == Spaces(n)
  {
    if n > 0 {
      EncodePad(n - 1);
      assert Pad(n)[1..] == Pad(n - 1);
      assert Spaces(n) == [SPACE] + Spaces(n - 1);
    }
  }

  lemma LSetRefines(cs: seq<Scalar>, len: int)
    ensures LSet(Encode(cs), len) == Encode(LSetOf(cs, len))
  {
    LeadsOfEncode(cs);
    if len >= 0 {
      Cut(cs, len);
      EncodePad(if len > |cs| then len - |cs| else 0);
      EncodeConcat(TakeTo(cs, len), Pad(len - |cs|));
      if len > |cs| { assert TakeTo(cs, len) == cs; } else { assert TakeTo(cs, len) == cs[..len]; }
      assert Encode(LSetOf(cs, len)) == Encode(TakeTo(cs, len)) + Encode(Pad(len - |cs|));
    }
    hide Leads, Offset;
  }

  lemma RSetRefines(cs: seq<Scalar>, len: int)
    ensures RSet(Encode(cs), len) == Encode(RSetOf(cs, len))
  {
    hide Leads, Offset, Encode, Pad, Spaces, DropTo;
    EncodeEmpty();
    LeadsOfEncode(cs);
    RSetParts(cs, len);
    if len > |cs| {
      EncodePad(len - |cs|);
      EncodeConcat(Pad(len - |cs|), cs);
    } else if len >= 0 {
      Cut(cs, |cs| - len);
    }
    hide RSetOf;
  }

  lemma RSetParts(cs: seq<Scalar>, len: int)
    ensures RSetOf(cs, len) == if len < 0 then [] else if len > |cs| then Pad(len - |cs|) + cs else cs[|cs| - len..]
  {
    if 0 <= len <= |cs| {
      assert Pad(len - |cs|) == [];
      assert DropTo(cs, |cs| - len) == cs[|cs| - len..];
    }
  }

  // ── What follows for strings of valid UTF-8 ────────────────────────────

  /** Taking a piece out and putting it back gives the string, exactly for positions Mid accepts
      (or when nothing was taken out). */
  lemma InsertUndoesRemove(s: seq<Byte>, pos: int, n: int)
    requires WellFormed(s)
    ensures Insert(Remove(s, pos, n), pos, Mid(s, pos, n)) == s <==> pos >= 1 || s == [] || (pos == 0 && n <= 0)
  {
    var cs := Decode(s);
    EncodeDecode(s);
    DecodeEncode(cs);
    RemoveRefines(cs, pos, n);
    MidRefines(cs, pos, n);
    var r, m := RemoveOf(cs, pos, n), MidOf(cs, pos, n);
    InsertRefines(r, pos, m);
    DecodeEncode(InsertOf(r, pos, m));
    InsertOfRemove(cs, pos, n);
    hide Insert, Remove, Mid, Decode, Encode, WellFormed, InsertOf, RemoveOf, MidOf;
  }

  lemma InsertOfRemove<T>(cs: seq<T>, pos: int, n: int)
    ensures InsertOf(RemoveOf(cs, pos, n), pos, MidOf(cs, pos, n)) == cs <==> pos >= 1 || cs == [] || (pos == 0 && n <= 0)
  {
    if pos >= 1 {
      var start := Min(pos - 1, |cs|);
      PutPieceBack(cs, start, Min(start + if n <= 0 then 0 else n, |cs|), pos, n);
    } else {
      RemoveOfParts(cs, pos, n);
      var r := RemoveOf(cs, pos, n);
      assert InsertOf(r, pos, []) == if pos < 0 then [] else r;
      hide RemoveOf;
    }
  }

  lemma PutPieceBack<T>(cs: seq<T>, start: nat, end: nat, pos: int, n: int)
    requires pos >= 1 && start == Min(pos - 1, |cs|) && end == Min(start + if n <= 0 then 0 else n, |cs|)
    ensures InsertOf(RemoveOf(cs, pos, n), pos, MidOf(cs, pos, n)) == cs
  {
    hide RemoveOf, MidOf;
    RemoveOfParts(cs, pos, n);
    MidIsSlice(cs, start, end, pos, n);
    CutAround(cs, start, end, pos);
    hide TakeTo, DropTo;
    assert cs[..start] + cs[start..end] + cs[end..] == cs;
  }

  lemma MidIsSlice<T>(cs: seq<T>, start: nat, end: nat, pos: int, n: int)
    requires pos >= 1 && start == Min(pos - 1, |cs|) && end == Min(start + if n <= 0 then 0 else n, |cs|)
    ensures MidOf(cs, pos, n) == cs[start..end]
  {
    assert DropTo(cs, pos - 1) == cs[start..];
  }

  lemma CutAround<T>(cs: seq<T>, start: nat, end: nat, pos: int)
    requires pos >= 1 && start == Min(pos - 1, |cs|) && start <= end <= |cs|
    ensures var r := cs[..start] + cs[end..]; TakeTo(r, pos - 1) == cs[..start] && DropTo(r, pos - 1) == cs[end..]
  {
    var r := cs[..start] + cs[end..];
    assert Min(pos - 1, |r|) == start;
    assert r[..start] == cs[..start] && r[start..] == cs[end..];
  }

  /** Moving only rearranges the code points, exactly for the arguments it does not refuse (or for the empty
      string), and it is cutting and inserting again. */
  lemma MovePermutes(s: seq<Byte>, pos: int, len: int, offset: int)
    requires WellFormed(s)
    ensures var r, refused := Move(s, pos, len, offset), pos <= 0 || len < 0 || offset < 0;
      && WellFormed(r) && (multiset(Decode(r)) == multiset(Decode(s)) <==> !refused || s == [])
      && (!refused && pos - 1 + len <= Leads(s) ==> r == Insert(Remove(s, pos, len), pos + offset, Mid(s, pos, len)))
  {
    hide Move, Insert, Remove, Mid, Encode, WellFormed, Decode, InsertOf, RemoveOf, MidOf, Leads;
    var cs := Decode(s);
    EncodeDecode(s);
    EncodeEmpty();
    LeadsOfEncode(cs);
    MoveRefines(cs, pos, len, offset);
    DecodeEncode(MoveOf(cs, pos, len, offset));
    if pos <= 0 || len < 0 || offset < 0 {
      if cs == [] {
        assert s == [];
      } else {
        assert cs[0] in multiset(cs);
        DecodeEncode([]);
      }
    } else if pos - 1 + len <= |cs| {
      RemoveRefines(cs, pos, len);
      MidRefines(cs, pos, len);
      InsertRefines(RemoveOf(cs, pos, len), pos + offset, MidOf(cs, pos, len));
      MoveOfPermutes(cs, pos, len, offset);
    }
  }

  lemma MoveOfPermutes<T>(cs: seq<T>, pos: int, len: int, offset: int)
    requires pos > 0 && len >= 0 && offset >= 0 && pos - 1 + len <= |cs|
    ensures multiset(MoveOf(cs, pos, len, offset)) == multiset(cs)
  {
    hide MoveOf;
    MoveOfParts(cs, pos, len, offset);
    var a, t, b := cs[..pos - 1], cs[pos - 1..pos - 1 + len], cs[pos - 1 + len..];
    SamePieces(a, t, b, Min(pos - 1 + offset, |cs| - len));
    assert cs == a + t + b;
  }

  lemma SamePieces<T>(a: seq<T>, t: seq<T>, b: seq<T>, at: nat)
    requires at <= |a + b|
    ensures multiset((a + b)[..at] + t + (a + b)[at..]) == multiset(a + t + b)
  {
    var rem := a + b;
    assert rem[..at] + rem[at..] == rem;
    assert multiset(rem[..at] + t + rem[at..]) == multiset(rem[..at] + rem[at..]) + multiset(t);
  }

  /** The two ends of a string meet without gap or overlap. */
  lemma LeftRightMeet(s: seq<Byte>, n: nat)
    requires WellFormed(s) && n <= Leads(s)
    ensures Left(s, n) + Right(s, Leads(s) - n) == s
  {
    hide Left, Right, Encode, Decode, WellFormed, Leads;
    var cs := Decode(s);
    EncodeDecode(s);
    LeadsOfEncode(cs);
    LeftRefines(cs, n);
    RightRefines(cs, |cs| - n);
    EncodeSplit(cs, n);
    TakeDrop(cs, n);
    hide TakeTo, DropTo;
  }

  lemma TakeDrop<T>(cs: seq<T>, n: nat)
    requires n <= |cs|
    ensures TakeTo(cs, n) == cs[..n] && (if |cs| - n <= 0 then [] else DropTo(cs, n)) == cs[n..]
  {
  }

  /** A set field is exactly as wide as asked. */
  lemma SetWidth(s: seq<Byte>, len: nat)
    requires WellFormed(s)
    ensures Leads(LSet(s, len)) == len && Leads(RSet(s, len)) == len
  {
    hide LSet, RSet, Encode, Decode, WellFormed, Leads;
    var cs := Decode(s);
    EncodeDecode(s);
    LSetRefines(cs, len);
    RSetRefines(cs, len);
    LeadsOfEncode(LSetOf(cs, len));
    LeadsOfEncode(RSetOf(cs, len));
  }

  // ── Flip ───────────────────────────────────────────────────────────────

  /** The first lead byte at or after `i`, or the end. */
  function NextLead(s: seq<Byte>, i: nat): (k: nat)
    requires i <= |s|
    ensures i <= k <= |s| && (k < |s| ==> IsLead(s[k])) && forall j | i <= j < k :: IsContinuation(s[j])
    decreases |s| - i
  {
    if i == |s| || IsLead(s[i]) then i else NextLead(s, i + 1)
  }

  /** A byte and the continuation bytes after it, last group first. */
  function Flipped(s: seq<Byte>): seq<Byte>
    decreases |s|
  {
    if s == [] then []
    else
      var k := NextLead(s, 1);
      Flipped(s[k..]) + s[..k]
  }

  predicate RangesIn(s: seq<Byte>, ranges: seq<(nat, nat)>) {
    forall k | 0 <= k < |ranges| :: ranges[k].0 <= ranges[k].1 <= |s|
  }

  /** The listed ranges of `s`, last range first. */
  function EmitBack(s: seq<Byte>, ranges: seq<(nat, nat)>): seq<Byte>
    requires RangesIn(s, ranges)
  {
    if ranges == [] then []
    else
      var x := ranges[|ranges| - 1];
      s[x.0..x.1] + EmitBack(s, ranges[..|ranges| - 1])
  }

  /** Past the continuation bytes that follow `start`. */
  method GroupEnd(s: seq<Byte>, start: nat) returns (i: nat)
    requires start < |s|
    ensures start < i <= |s| && (i < |s| ==> IsLead(s[i])) && forall j | start < j < i :: IsContinuation(s[j])
  {
    i := start + 1;
    while i < |s| && IsContinuation(s[i])
      invariant start < i <= |s|
      invariant forall j | start < j < i :: IsContinuation(s[j])
    {
      i := i + 1;
    }
  }

  /** The groups of `s[..i]` are listed; what is left to flip comes before them. */
  ghost predicate GroupsTo(s: seq<Byte>, ranges: seq<(nat, nat)>, i: int) {
    0 <= i <= |s| && RangesIn(s, ranges) && Flipped(s) == Flipped(s[i..]) + EmitBack(s, ranges)
  }

  /** The byte range of each group, in order. */
  method Groups(s: seq<Byte>) returns (ranges: seq<(nat, nat)>)
    ensures GroupsTo(s, ranges, |s|)
  {
    ranges := [];
    var i := 0;
    assert s[0..] == s;
    while i < |s|
      invariant GroupsTo(s, ranges, i)
    {
      var end := GroupEnd(s, i);
      GroupStep(s, i, end, ranges);
      ranges := ranges + [(i, end)];
      i := end;
    }
  }

  method Flip(s: seq<Byte>) returns (r: seq<Byte>)
    ensures r == Flipped(s)
  {
    var ranges := Groups(s);
    r := [];
    var n := |ranges|;
    assert ranges[..n] == ranges;
    assert Flipped(s[|s|..]) == [];
    while n > 0
      invariant 0 <= n <= |ranges|
      invariant RangesIn(s, ranges[..n]) && r + EmitBack(s, ranges[..n]) == Flipped(s)
    {
      n := n - 1;
      assert ranges[..n + 1][..n] == ranges[..n];
      assert ranges[..n + 1][n] == ranges[n];
      r := r + s[ranges[n].0..ranges[n].1];
    }
  }

  lemma GroupStep(s: seq<Byte>, start: nat, i: nat, ranges: seq<(nat, nat)>)
    requires start < i <= |s| && (i < |s| ==> IsLead(s[i])) && forall j | start < j < i :: IsContinuation(s[j])
    requires GroupsTo(s, ranges, start)
    ensures GroupsTo(s, ranges + [(start, i)], i)
  {
    hide Flipped, EmitBack;
    FlippedStep(s, start, i);
    EmitLast(s, ranges, start, i);
    var a, b, c := Flipped(s[i..]), s[start..i], EmitBack(s, ranges);
    assert (a + b) + c == a + (b + c);
  }

  lemma EmitLast(s: seq<Byte>, ranges: seq<(nat, nat)>, start: nat, i: nat)
    requires RangesIn(s, ranges) && start <= i <= |s|
    ensures RangesIn(s, ranges + [(start, i)])
    ensures EmitBack(s, ranges + [(start, i)]) == s[start..i] + EmitBack(s, ranges)
  {
    assert (ranges + [(start, i)])[..|ranges|] == ranges;
  }

  lemma FlippedStep(s: seq<Byte>, start: nat, i: nat)
    requires start < i <= |s| && (i < |s| ==> IsLead(s[i])) && forall j | start < j < i :: IsContinuation(s[j])
    ensures Flipped(s[start..]) == Flipped(s[i..]) + s[start..i]
  {
    NextLeadShift(s, start, i);
    var t := s[start..];
    assert t[..i - start] == s[start..i] && t[i - start..] == s[i..];
  }

  lemma NextLeadShift(s: seq<Byte>, start: nat, i: nat)
    requires start < i <= |s| && (i < |s| ==> IsLead(s[i])) && forall j | start < j < i :: IsContinuation(s[j])
    ensures NextLead(s[start..], 1) == i - start
  {
    var t := s[start..];
    var k := NextLead(t, 1);
    assert k < |t| ==> t[k] == s[start + k];
    assert i < |s| ==> t[i - start] == s[i];
  }

  /** Flipping reverses the code points. */
  lemma {:induction false} FlipRefines(cs: seq<Scalar>)
    ensures Flipped(Encode(cs)) == Encode(Reverse(cs))
  {
    if cs != [] {
      var e, s := EncodeUtf8(cs[0]), Encode(cs);
      LeadsOfEncodeUtf8(cs[0]);
      FlipRefines(cs[1..]);
      FirstGroup(cs);
      assert s[|e|..] == Encode(cs[1..]) && s[..|e|] == e;
      EncodeConcat(Reverse(cs[1..]), [cs[0]]);
      assert Encode([cs[0]]) == e by { assert e + [] == e; }
    }
    hide EncodeUtf8;
  }

  lemma FirstGroup(cs: seq<Scalar>)
    requires cs != []
    ensures Encode(cs) != [] && NextLead(Encode(cs), 1) == |EncodeUtf8(cs[0])|
  {
    var e, s := EncodeUtf8(cs[0]), Encode(cs);
    LeadsOfEncodeUtf8(cs[0]);
    assert forall i | 0 <= i < |e| :: s[i] == e[i];
    if |cs| == 1 {
      assert cs[1..] == [];
    } else {
      LeadsOfEncodeUtf8(cs[1]);
      assert s[|e|] == EncodeUtf8(cs[1])[0];
    }
    var k := NextLead(s, 1);
    hide EncodeUtf8;
  }

  lemma FlipTwice(s: seq<Byte>)
    requires WellFormed(s)
    ensures WellFormed(Flipped(s)) && Flipped(Flipped(s)) == s
  {
    hide Encode, Decode, WellFormed, Flipped;
    var cs := Decode(s);
    EncodeDecode(s);
    FlipRefines(cs);
    DecodeEncode(Reverse(cs));
    FlipRefines(Reverse(cs));
    assert Reverse(Reverse(cs)) == cs;
  }

  // ── Chr and Asc ────────────────────────────────────────────────────────

  function Chr(code: int): seq<Byte> {
    EncodeUtf8(code)
  }

  /** `b & 0x3F`. */
  function LowSix(b: Byte): int {
    b % 64
  }

  /** Six more bits from each of the next `extra` bytes, as far as there are any. */
  function Fold(cp: int, s: seq<Byte>, i: nat, extra: int): int
    decreases extra - i
  {
    if i <= extra && i < |s| then Fold(cp * 64 + LowSix(s[i]), s, i + 1, extra) else cp
  }

  /** The bits a first byte contributes and the number of bytes to follow; -1 for a byte that is its own value. */
  function LeadBits(b: Byte): (int, int) {
    if b < 0x80 then (b, -1)
    else if 0xC0 <= b < 0xE0 then (b % 32, 1)
    else if 0xE0 <= b < 0xF0 then (b % 16, 2)
    else if 0xF0 <= b < 0xF8 then (b % 8, 3)
    else (b, -1)
  }

  function AscValue(s: seq<Byte>): int {
    if s == [] then 0 else Fold(LeadBits(s[0]).0, s, 1, LeadBits(s[0]).1)
  }

  method Asc(s: seq<Byte>) returns (cp: int)
    ensures cp == AscValue(s)
  {
    if s == [] { return 0; }
    var extra;
    cp, extra := LeadBits(s[0]).0, LeadBits(s[0]).1;
    var i := 1;
    while i <= extra && i < |s|
      invariant 1 <= i
      invariant Fold(cp, s, i, extra) == AscValue(s)
      decreases extra - i
    {
      cp := cp * 64 + LowSix(s[i]);
      i := i + 1;
    }
  }

  /** Asc of a valid string is its first code point. */
  lemma AscOfEncode(cs: seq<Scalar>)
    requires cs != []
    ensures AscValue(Encode(cs)) == cs[0]
  {
    var e, s := EncodeUtf8(cs[0]), Encode(cs);
    EncodeIsSequence(cs[0]);
    assert forall i | 0 <= i < |e| :: s[i] == e[i];
    assert |e| <= |s|;
    AscOfSequence(e, s);
    hide Encode, EncodeUtf8, AscValue, IsSequence, Value;
  }

  lemma AscOfSequence(e: seq<Byte>, s: seq<Byte>)
    requires IsSequence(e) && |e| <= |s| && forall i | 0 <= i < |e| :: s[i] == e[i]
    ensures AscValue(s) == Value(e)
  {
    SequenceBits(e);
    assert s[0] == e[0];
    var bits := LeadBits(e[0]).0;
    hide LeadBits, LowSix;
    match |e| {
      case 1 =>
      case 2 => FoldTwo(bits, s, 1);
      case 3 => FoldThree(bits, s);
      case _ => FoldFour(bits, s);
    }
    hide Fold;
  }

  /** The masks leave the payload bits. */
  lemma SequenceBits(e: seq<Byte>)
    requires IsSequence(e)
    ensures LeadBits(e[0]).0 == e[0] as int - (if |e| == 1 then 0 else if |e| == 2 then 0xC0 else if |e| == 3 then 0xE0 else 0xF0)
    ensures LeadBits(e[0]).1 == if |e| == 1 then -1 else |e| - 1
    ensures forall i | 1 <= i < |e| :: LowSix(e[i]) == e[i] as int - 0x80
  {
  }

  lemma FoldTwo(cp: int, s: seq<Byte>, i: nat)
    requires i < |s|
    ensures Fold(cp, s, i, i) == cp * 64 + LowSix(s[i])
  {
  }

  lemma FoldThree(cp: int, s: seq<Byte>)
    requires 2 < |s|
    ensures Fold(cp, s, 1, 2) == cp * 4096 + LowSix(s[1]) * 64 + LowSix(s[2])
  {
    FoldTwo(cp * 64 + LowSix(s[1]), s, 2);
  }

  lemma FoldFour(cp: int, s: seq<Byte>)
    requires 3 < |s|
    ensures Fold(cp, s, 1, 3) == cp * 262144 + LowSix(s[1]) * 4096 + LowSix(s[2]) * 64 + LowSix(s[3])
  {
    var x := cp * 64 + LowSix(s[1]);
    assert Fold(cp, s, 1, 3) == Fold(x, s, 2, 3);
    FoldTwo(x * 64 + LowSix(s[2]), s, 3);
  }

  /** How many bytes follow a first byte, as its high bits say. */
  function Following(b: Byte): nat {
    if 0xC0 <= b <= 0xDF then 1 else if 0xE0 <= b <= 0xEF then 2 else if 0xF0 <= b <= 0xF7 then 3 else 0
  }

  /** Asc of any bytes: 0 of none, the first byte itself if none follow it, and otherwise its payload and six bits of
      each byte that follows, as far as there are any. */
  lemma AscOfBytes(s: seq<Byte>)
    ensures s == [] ==> AscValue(s) == 0
    ensures s != [] ==>
      var n := Following(s[0]);
      var k := Min(n, |s| - 1);
      var head := s[0] as int - if n == 0 then 0 else if n == 1 then 0xC0 else if n == 2 then 0xE0 else 0xF0;
      AscValue(s) ==
        if k == 0 then head
        else if k == 1 then head * 64 + s[1] as int % 64
        else if k == 2 then (head * 64 + s[1] as int % 64) * 64 + s[2] as int % 64
        else ((head * 64 + s[1] as int % 64) * 64 + s[2] as int % 64) * 64 + s[3] as int % 64
  {
    if s != [] {
      var bits, extra := LeadBits(s[0]).0, LeadBits(s[0]).1;
      HeadBits(s[0]);
      hide LeadBits, LowSix;
      if 1 <= extra && 1 < |s| {
        var x := bits * 64 + LowSix(s[1]);
        assert Fold(bits, s, 1, extra) == Fold(x, s, 2, extra);
        if 2 <= extra && 2 < |s| {
          var y := x * 64 + LowSix(s[2]);
          assert Fold(x, s, 2, extra) == Fold(y, s, 3, extra);
          if 3 <= extra && 3 < |s| { assert Fold(y, s, 3, extra) == Fold(y * 64 + LowSix(s[3]), s, 4, extra); }
        }
      }
    }
  }

  lemma HeadBits(b: Byte)
    ensures LeadBits(b).0 == b as int - (if Following(b) == 0 then 0 else if Following(b) == 1 then 0xC0 else if Following(b) == 2 then 0xE0 else 0xF0)
    ensures LeadBits(b).1 == if Following(b) == 0 then -1 else Following(b)
    ensures LowSix(b) == b as int % 64
  {
  }

  /** Asc undoes Chr for the scalar values and for no other number. */
  lemma AscChr(code: int)
    ensures AscValue(Chr(code)) == code <==> IsScalar(code)
  {
    if IsScalar(code) {
      var c: Scalar := code;
      assert Encode([c]) == EncodeUtf8(c) by { assert EncodeUtf8(c) + [] == EncodeUtf8(c); }
      AscOfEncode([c]);
    }
    hide AscValue;
  }
}
