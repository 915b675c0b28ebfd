/** UTF-8 as RFC 3629 defines it, and the three helpers of cb_utf8.h. */
module Utf8 {
  type Byte = b: int | 0 <= b < 256

  predicate IsScalar(c: int) {
    0 <= c < 0xD800 || 0xE000 <= c <= 0x10FFFF
  }

  /** A Unicode scalar value: a code point that is not a surrogate. */
  type Scalar = c: int | IsScalar(c)

  /** `(b & 0xC0) == 0x80`. */
  predicate IsContinuation(b: Byte) {
    0x80 <= b < 0xC0
  }

  predicate IsLead(b: Byte) {
    !IsContinuation(b)
  }

  // ── One code point ─────────────────────────────────────────────────────

  /** encode_utf8; the empty sequence stands for the length 0 of an invalid code point. */
  function EncodeUtf8(cp: int): seq<Byte> {
    if !IsScalar(cp) then []
    else if cp < 0x80 then [cp]
    else if cp < 0x800 then [0xC0 + cp / 64, 0x80 + cp % 64]
    else if cp < 0x1_0000 then [0xE0 + cp / 4096, 0x80 + cp / 64 % 64, 0x80 + cp % 64]
    else [0xF0 + cp / 262144, 0x80 + cp / 4096 % 64, 0x80 + cp / 64 % 64, 0x80 + cp % 64]
  }

  /** The same into a caller's buffer; bytes past the result stay. */
  method EncodeInto(cp: int, out: array<Byte>) returns (n: nat)
    requires out.Length == 4
    modifies out
    ensures n == |EncodeUtf8(cp)| && out[..n] == EncodeUtf8(cp) && out[n..] == old(out[..])[n..]
  {
    if cp < 0 || cp > 0x10FFFF || 0xD800 <= cp <= 0xDFFF { return 0; }
    if cp < 0x80 {
      out[0] := cp;
      n := 1;
    } else if cp < 0x800 {
      out[0], out[1] := 0xC0 + cp / 64, 0x80 + cp % 64;
      n := 2;
    } else if cp < 0x1_0000 {
      out[0], out[1], out[2] := 0xE0 + cp / 4096, 0x80 + cp / 64 % 64, 0x80 + cp % 64;
      n := 3;
    } else {
      out[0], out[1], out[2], out[3] := 0xF0 + cp / 262144, 0x80 + cp / 4096 % 64, 0x80 + cp / 64 % 64, 0x80 + cp % 64;
      n := 4;
    }
  }

  /** Length of the sequence a first byte announces; 0 if it can start none. */
  function SequenceLength(b: Byte): nat {
    if b < 0x80 then 1 else if 0xC2 <= b < 0xE0 then 2 else if 0xE0 <= b < 0xF0 then 3 else if 0xF0 <= b < 0xF5 then 4 else 0
  }

  /** The byte sequences of section 4 of RFC 3629 (UTF8-1 .. UTF8-4). */
  predicate IsSequence(s: seq<Byte>) {
    && s != [] && |s| == SequenceLength(s[0])
    && (forall i | 1 <= i < |s| :: IsContinuation(s[i]))
    && (s[0] == 0xE0 ==> 0xA0 <= s[1])
    && (s[0] == 0xED ==> s[1] < 0xA0)
    && (s[0] == 0xF0 ==> 0x90 <= s[1])
    && (s[0] == 0xF4 ==> s[1] < 0x90)
  }

  /** The number a sequence stands for (section 3 of RFC 3629). */
  function Value(s: seq<Byte>): int {
    match |s|
    case 1 => s[0]
    case 2 => var a: int, b: int := s[0], s[1]; (a - 0xC0) * 64 + (b - 0x80)
    case 3 => var a: int, b: int, c: int := s[0], s[1], s[2]; (a - 0xE0) * 4096 + (b - 0x80) * 64 + (c - 0x80)
    case 4 =>
      var a: int, b: int, c: int, d: int := s[0], s[1], s[2], s[3];
      (a - 0xF0) * 262144 + (b - 0x80) * 4096 + (c - 0x80) * 64 + (d - 0x80)
    case _ => -1
  }

  /** Base-64 digits of a number, lowest last. */
  lemma Digits(c: nat)
    ensures c == c / 64 * 64 + c % 64
    ensures c / 64 == c / 4096 * 64 + c / 64 % 64
    ensures c / 4096 == c / 262144 * 64 + c / 4096 % 64
  {
  }

  /** Encoding gives a sequence of the RFC that stands for the code point. */
  lemma EncodeIsSequence(c: Scalar)
    ensures IsSequence(EncodeUtf8(c)) && Value(EncodeUtf8(c)) == c
  {
    var e := EncodeUtf8(c);
    assert IsScalar(c);
    if c < 0x80 {
    } else if c < 0x800 {
      assert e == [0xC0 + c / 64, 0x80 + c % 64];
    } else if c < 0x1_0000 {
      ThreeBytes(c);
    } else {
      FourBytes(c);
    }
  }

  lemma ThreeBytes(c: Scalar)
    requires 0x800 <= c < 0x1_0000
    ensures IsSequence(EncodeUtf8(c)) && Value(EncodeUtf8(c)) == c
  {
    var x, y, z := c / 4096, c / 64 % 64, c % 64;
    Digits(c);
    assert c == x * 4096 + y * 64 + z;
  }

  lemma FourBytes(c: Scalar)
    requires 0x1_0000 <= c
    ensures IsSequence(EncodeUtf8(c)) && Value(EncodeUtf8(c)) == c
  {
    var w, x, y, z := c / 262144, c / 4096 % 64, c / 64 % 64, c % 64;
    Digits(c);
    assert c == w * 262144 + x * 4096 + y * 64 + z;
  }

  /** Every sequence of the RFC is the encoding of the number it stands for. */
  lemma SequenceIsEncoding(s: seq<Byte>)
    requires IsSequence(s)
    ensures IsScalar(Value(s)) && EncodeUtf8(Value(s)) == s
  {
    match |s| {
      case 1 =>
      case 2 => assert Value(s) / 64 == s[0] as int - 0xC0;
      case 3 => FromThree(s);
      case _ => FromFour(s);
    }
  }

  lemma Compose(a: int, b: int)
    requires 0 <= a && 0 <= b < 64
    ensures (a * 64 + b) / 64 == a && (a * 64 + b) % 64 == b
  {
  }

  lemma FromThree(s: seq<Byte>)
    requires IsSequence(s) && |s| == 3
    ensures IsScalar(Value(s)) && EncodeUtf8(Value(s)) == s
  {
    var a: int, b: int, c: int := s[0], s[1], s[2];
    var v := Value(s);
    Compose((a - 0xE0) * 64 + (b - 0x80), c - 0x80);
    Compose(a - 0xE0, b - 0x80);
    assert v / 64 == (a - 0xE0) * 64 + (b - 0x80);
    assert v / 4096 == v / 64 / 64;
    assert EncodeUtf8(v) == [a, b, c];
  }

  lemma FromFour(s: seq<Byte>)
    requires IsSequence(s) && |s| == 4
    ensures IsScalar(Value(s)) && EncodeUtf8(Value(s)) == s
  {
    var a: int, b: int, c: int, d: int := s[0], s[1], s[2], s[3];
    var v := Value(s);
    Compose((a - 0xF0) * 4096 + (b - 0x80) * 64 + (c - 0x80), d - 0x80);
    Compose((a - 0xF0) * 64 + (b - 0x80), c - 0x80);
    Compose(a - 0xF0, b - 0x80);
    assert v / 64 == (a - 0xF0) * 4096 + (b - 0x80) * 64 + (c - 0x80);
    assert v / 4096 == v / 64 / 64;
    assert v / 262144 == v / 4096 / 64;
    assert EncodeUtf8(v) == [a, b, c, d];
  }

  // ── Strings ────────────────────────────────────────────────────────────

  /** The UTF-8 form of a string of scalar values. */
  function Encode(cs: seq<Scalar>): seq<Byte> {
    if cs == [] then [] else EncodeUtf8(cs[0]) + Encode(cs[1..])
  }

  /** Concatenated sequences of the RFC. */
  predicate WellFormed(s: seq<Byte>)
    decreases |s|
  {
    s == [] ||
    (var n := SequenceLength(s[0]); 0 < n <= |s| && IsSequence(s[..n]) && WellFormed(s[n..]))
  }

  function Decode(s: seq<Byte>): seq<Scalar>
    requires WellFormed(s)
    decreases |s|
  {
    if s == [] then []
    else
      var n := SequenceLength(s[0]);
      SequenceIsEncoding(s[..n]);
      [Value(s[..n])] + Decode(s[n..])
  }

  lemma {:induction false} EncodeDecode(s: seq<Byte>)
    requires WellFormed(s)
    ensures Encode(Decode(s)) == s
    decreases |s|
  {
    hide EncodeUtf8, Value, IsSequence;
    if s != [] {
      var n := SequenceLength(s[0]);
      SequenceIsEncoding(s[..n]);
      EncodeDecode(s[n..]);
      assert ([Value(s[..n])] + Decode(s[n..]))[1..] == Decode(s[n..]);
      assert s[..n] + s[n..] == s;
    }
  }

  lemma {:induction false} DecodeEncode(cs: seq<Scalar>)
    ensures WellFormed(Encode(cs)) && Decode(Encode(cs)) == cs
  {
    if cs != [] {
      DecodeEncode(cs[1..]);
      EncodeIsSequence(cs[0]);
      var e, s := EncodeUtf8(cs[0]), Encode(cs);
      assert s[..|e|] == e && s[|e|..] == Encode(cs[1..]);
      assert cs == [cs[0]] + cs[1..];
    }
  }

  lemma EncodeEmpty()
    ensures Encode([]) == []
  {
  }

  lemma {:induction false} EncodeConcat(a: seq<Scalar>, b: seq<Scalar>)
    ensures Encode(a + b) == Encode(a) + Encode(b)
  {
    hide Encode;
    if a == [] {
      EncodeEmpty();
      assert a + b == b;
    } else {
      EncodeConcat(a[1..], b);
      EncodeHead(a);
      EncodeHead(a + b);
      assert (a + b)[1..] == a[1..] + b;
      Regroup(EncodeUtf8(a[0]), Encode(a[1..]), Encode(b));
      hide EncodeUtf8;
    }
  }

  lemma EncodeHead(cs: seq<Scalar>)
    requires cs != []
    ensures Encode(cs) == EncodeUtf8(cs[0]) + Encode(cs[1..])
  {
    hide EncodeUtf8;
  }

  lemma Regroup<T>(a: seq<T>, b: seq<T>, c: seq<T>)
    ensures a + (b + c) == a + b + c
  {
  }

  lemma EncodeSplit(cs: seq<Scalar>, k: nat)
    requires k <= |cs|
    ensures Encode(cs) == Encode(cs[..k]) + Encode(cs[k..])
  {
    hide Encode;
    EncodeConcat(cs[..k], cs[k..]);
    assert cs[..k] + cs[k..] == cs;
  }

  /** The bytes of code points `i..j` are one slice of the encoded string. */
  lemma EncodeSlice(cs: seq<Scalar>, i: nat, j: nat)
    requires i <= j <= |cs|
    ensures |Encode(cs[..i])| <= |Encode(cs[..j])| <= |Encode(cs)|
    ensures Encode(cs[i..j]) == Encode(cs)[|Encode(cs[..i])|..|Encode(cs[..j])|]
  {
    hide Encode;
    EncodeSplit(cs, j);
    EncodeSplit(cs[..j], i);
    assert cs[..j][..i] == cs[..i] && cs[..j][i..] == cs[i..j];
  }

  // ── Counting and locating code points ──────────────────────────────────

  /** Number of bytes that are not continuation bytes. */
  function Leads(s: seq<Byte>): nat {
    if s == [] then 0 else Leads(s[..|s| - 1]) + if IsLead(s[|s| - 1]) then 1 else 0
  }

  /** cp_len. */
  method CpLen(data: seq<Byte>) returns (n: nat)
    ensures n == Leads(data)
  {
    n := 0;
    for i := 0 to |data|
      invariant n == Leads(data[..i])
    {
      assert data[..i + 1][..i] == data[..i];
      if IsLead(data[i]) { n := n + 1; }
    }
    assert data[..|data|] == data;
  }

  /** Position of the lead byte number `k`, or the length. */
  function Offset(s: seq<Byte>, k: nat): (i: nat)
    ensures i <= |s|
    ensures i < |s| ==> IsLead(s[i]) && Leads(s[..i]) == k
    ensures i == |s| ==> Leads(s) <= k
  {
    if s == [] then 0
    else
      var t := s[..|s| - 1];
      var i := Offset(t, k);
      if i < |t| then (assert t[..i] == s[..i]; i)
      else if IsLead(s[|t|]) && Leads(t) == k then |t|
      else |s|
  }

  lemma {:induction false} LeadsConcat(a: seq<Byte>, b: seq<Byte>)
    ensures Leads(a + b) == Leads(a) + Leads(b)
    decreases |b|
  {
    if b == [] {
      assert a + b == a;
    } else {
      LeadsConcat(a, b[..|b| - 1]);
      assert (a + b)[..|a + b| - 1] == a + b[..|b| - 1];
    }
  }

  /** The property pins the offset down. */
  lemma OffsetUnique(s: seq<Byte>, k: nat, i: nat)
    requires i <= |s| && (i < |s| ==> IsLead(s[i]) && Leads(s[..i]) == k) && (i == |s| ==> Leads(s) <= k)
    ensures i == Offset(s, k)
  {
    var j := Offset(s, k);
    if i < j { LeadsStep(s, i, j); }
    if j < i { LeadsStep(s, j, i); }
  }

  lemma LeadsStep(s: seq<Byte>, i: nat, j: nat)
    requires i < j <= |s| && IsLead(s[i])
    ensures Leads(s[..j]) >= Leads(s[..i]) + 1
    ensures j == |s| ==> s[..j] == s
  {
    assert s[..j] == s[..i] + ([s[i]] + s[i + 1..j]);
    LeadsConcat(s[..i], [s[i]] + s[i + 1..j]);
    LeadsConcat([s[i]], s[i + 1..j]);
    assert [s[i]][..0] == [];
  }

  /** byte_offset_of_cp. */
  method ByteOffsetOfCp(data: seq<Byte>, cpIndex: nat) returns (r: nat)
    ensures r == Offset(data, cpIndex)
  {
    var seen := 0;
    for i := 0 to |data|
      invariant seen == Leads(data[..i]) && seen <= cpIndex
    {
      assert data[..i + 1][..i] == data[..i];
      if IsLead(data[i]) {
        if seen == cpIndex {
          OffsetUnique(data, cpIndex, i);
          return i;
        }
        seen := seen + 1;
      }
    }
    assert data[..|data|] == data;
    OffsetUnique(data, cpIndex, |data|);
    return |data|;
  }

  lemma LeadsOfEncodeUtf8(c: Scalar)
    ensures var e := EncodeUtf8(c); e != [] && IsLead(e[0]) && (forall i | 1 <= i < |e| :: IsContinuation(e[i])) && Leads(e) == 1
  {
    var e := EncodeUtf8(c);
    EncodeIsSequence(c);
    assert forall i | 1 <= i < |e| :: IsContinuation(e[i]);
    LeadsOfChunk(e);
  }

  lemma {:induction false} LeadsOfChunk(e: seq<Byte>)
    requires e != [] && IsLead(e[0]) && forall i | 1 <= i < |e| :: IsContinuation(e[i])
    ensures Leads(e) == 1
  {
    if |e| > 1 { LeadsOfChunk(e[..|e| - 1]); } else { assert e[..0] == []; }
  }

  /** Non-continuation bytes count code points. */
  lemma {:induction false} LeadsOfEncode(cs: seq<Scalar>)
    ensures Leads(Encode(cs)) == |cs|
  {
    if cs != [] {
      LeadsOfEncodeUtf8(cs[0]);
      LeadsOfEncode(cs[1..]);
      LeadsConcat(EncodeUtf8(cs[0]), Encode(cs[1..]));
    }
  }

  /** The offset of code point `k`, clamped to the end, is where its encoding starts. */
  lemma OffsetOfEncode(cs: seq<Scalar>, k: nat)
    ensures Offset(Encode(cs), k) == |Encode(cs[..if k < |cs| then k else |cs|])|
  {
    LeadsOfEncode(cs);
    if k < |cs| {
      EncodeSplit(cs, k);
      LeadsOfEncode(cs[..k]);
      LeadsOfEncodeUtf8(cs[k]);
      var a, s := Encode(cs[..k]), Encode(cs);
      assert Encode(cs[k..]) == EncodeUtf8(cs[k]) + Encode(cs[k + 1..]) by { assert cs[k..][1..] == cs[k + 1..]; }
      assert s[..|a|] == a && s[|a|] == EncodeUtf8(cs[k])[0];
      OffsetUnique(s, k, |a|);
    } else {
      assert cs[..|cs|] == cs;
      OffsetUnique(Encode(cs), k, |Encode(cs)|);
    }
  }

  // ── Self-synchronisation ───────────────────────────────────────────────

  /** A lead byte inside an encoded string starts one of its code points. */
  lemma {:induction false} LeadIsBoundary(cs: seq<Scalar>, b: nat) returns (k: nat)
    requires b < |Encode(cs)| && IsLead(Encode(cs)[b])
    ensures k < |cs| && b == |Encode(cs[..k])|
  {
    var e := EncodeUtf8(cs[0]);
    LeadsOfEncodeUtf8(cs[0]);
    if b < |e| {
      assert Encode(cs)[b] == e[b];
      k := 0;
    } else {
      assert Encode(cs)[b] == Encode(cs[1..])[b - |e|];
      k := LeadIsBoundary(cs[1..], b - |e|);
      k := k + 1;
      assert cs[..k][1..] == cs[1..][..k - 1];
    }
  }

  /** Only one code point encoding is a prefix of a given text. */
  lemma PrefixCode(c: Scalar, d: Scalar, s: seq<Byte>, t: seq<Byte>)
    requires EncodeUtf8(c) + s == EncodeUtf8(d) + t
    ensures c == d && s == t
  {
    var e, f := EncodeUtf8(c), EncodeUtf8(d);
    EncodeIsSequence(c);
    EncodeIsSequence(d);
    assert (e + s)[0] == e[0] && (f + t)[0] == f[0];
    assert (e + s)[..|e|] == e && (f + t)[..|e|] == f;
    assert (e + s)[|e|..] == s && (f + t)[|e|..] == t;
  }

  lemma {:induction false} PrefixOfEncode(ns: seq<Scalar>, cs: seq<Scalar>, t: seq<Byte>)
    requires Encode(ns) + t == Encode(cs)
    ensures ns <= cs
  {
    hide EncodeUtf8, IsScalar;
    if ns != [] {
      LeadsOfEncodeUtf8(ns[0]);
      assert |Encode(cs)| > 0;
      var s := Encode(ns[1..]) + t;
      assert EncodeUtf8(ns[0]) + s == Encode(ns) + t;
      PrefixCode(ns[0], cs[0], s, Encode(cs[1..]));
      PrefixOfEncode(ns[1..], cs[1..], t);
      assert cs == [cs[0]] + cs[1..] && ns == [ns[0]] + ns[1..];
    }
  }

  /** `needle` stands in `hay` at position `i`. */
  predicate OccursAt<T(==)>(hay: seq<T>, needle: seq<T>, i: int) {
    0 <= i && i + |needle| <= |hay| && hay[i..i + |needle|] == needle
  }

  /** A non-empty encoded needle found anywhere among the bytes stands at a code point boundary, and
      its code points stand there. */
  lemma MatchIsAligned(cs: seq<Scalar>, ns: seq<Scalar>, b: nat) returns (k: nat)
    requires ns != [] && OccursAt(Encode(cs), Encode(ns), b)
    ensures k <= |cs| && b == |Encode(cs[..k])| && OccursAt(cs, ns, k)
  {
    hide EncodeUtf8;
    var s, n := Encode(cs), Encode(ns);
    LeadsOfEncodeUtf8(ns[0]);
    assert n[0] == EncodeUtf8(ns[0])[0];
    assert s[b] == s[b..b + |n|][0] == n[0];
    k := LeadIsBoundary(cs, b);
    EncodeSplit(cs, k);
    assert s[b..] == Encode(cs[k..]);
    assert n + s[b + |n|..] == s[b..];
    PrefixOfEncode(ns, cs[k..], s[b + |n|..]);
    assert cs[k..k + |ns|] == cs[k..][..|ns|];
  }

  /** An occurrence among code points is one among bytes. */
  lemma AlignedIsMatch(cs: seq<Scalar>, ns: seq<Scalar>, k: nat)
    requires OccursAt(cs, ns, k)
    ensures OccursAt(Encode(cs), Encode(ns), |Encode(cs[..k])|)
  {
    hide Encode;
    EncodeSlice(cs, k, k + |ns|);
    EncodeConcat(cs[..k], ns);
    assert cs[..k] + ns == cs[..k + |ns|];
  }
}
