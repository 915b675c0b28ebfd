/** Number and text conversion (cb_convert.cpp). */
module Convert {
  import opened Common

  const I64_MAX := 0x7FFF_FFFF_FFFF_FFFF

  predicate IsDigit(c: char) {
    '0' <= c <= '9'
  }

  predicate AllDigits(s: string) {
    forall i | 0 <= i < |s| :: IsDigit(s[i])
  }

  /** The number a digit string stands for. */
  function Nat(s: string): nat
    requires AllDigits(s)
  {
    if s == "" then 0 else Nat(s[..|s| - 1]) * 10 + (s[|s| - 1] as int - '0' as int)
  }

  function DigitChar(d: nat): char
    requires d < 10
  {
    '0' + d as char
  }

  /** `%lld` of a non-negative number. */
  function Decimal(n: nat): (s: string)
    ensures AllDigits(s) && s != ""
  {
    if n < 10 then [DigitChar(n)] else Decimal(n / 10) + [DigitChar(n % 10)]
  }

  lemma {:induction false} NatDecimal(n: nat)
    ensures Nat(Decimal(n)) == n
  {
    if n >= 10 {
      NatDecimal(n / 10);
      var s := Decimal(n);
      assert s[..|s| - 1] == Decimal(n / 10);
    }
  }

  // ── String to integer ──────────────────────────────────────────────────

  predicate IsSpace(c: char) {
    c == ' ' || c == '\t' || c == '\n' || c == '\U{0C}' || c == '\r'
  }

  /** The leading digits of `s`. */
  function Digits(s: string): (d: string)
    ensures AllDigits(d) && d <= s && (|d| < |s| ==> !IsDigit(s[|d|]))
  {
    if s != "" && IsDigit(s[0]) then [s[0]] + Digits(s[1..]) else ""
  }

  function SkipSpace(s: string): (r: string)
    ensures |r| <= |s|
  {
    if s != "" && IsSpace(s[0]) then SkipSpace(s[1..]) else s
  }

  function SkipSign(s: string): string {
    if s != "" && (s[0] == '+' || s[0] == '-') then s[1..] else s
  }

  predicate Negative(s: string) {
    s != "" && s[0] == '-'
  }

  function Signed(neg: bool, n: int): int {
    if neg then -n else n
  }

  function Clamp(n: nat): nat {
    if n < I64_MAX then n else I64_MAX
  }

  /** What the conversion promises: the value of the leading signed digit string, clamped. */
  function LongOf(s: string): int {
    var signed := SkipSpace(s);
    var n := Clamp(Nat(Digits(SkipSign(signed))));
    Signed(Negative(signed), n)
  }

  /** The digits from `start` on, accumulated with saturation. */
  method ReadDigits(data: string, start: nat) returns (val: int, i: nat)
    requires start <= |data|
    ensures var d := Digits(data[start..]); val == Clamp(Nat(d)) && i == start + |d|
  {
    hide Digits, Nat, Clamp;
    i, val := start, 0;
    ghost var d := Digits(data[start..]);
    NatEmpty();
    assert d[..0] == "";
    while i < |data| && IsDigit(data[i])
      invariant start <= i <= |data| && i - start <= |d|
      invariant AllDigits(d[..i - start]) && val == Clamp(Nat(d[..i - start]))
    {
      var digit := data[i] as int - '0' as int;
      assert data[start..][i - start] == data[i];
      NatNext(d, i - start);
      SaturateStep(Nat(d[..i - start]), digit);
      if val > (I64_MAX - digit) / 10 {
        val := I64_MAX;
      } else {
        val := val * 10 + digit;
      }
      i := i + 1;
    }
    assert i < |data| ==> data[start..][i - start] == data[i];
    assert d[..i - start] == d;
  }

  lemma NatEmpty()
    ensures Nat("") == 0 && Clamp(0) == 0
  {
  }

  lemma NatNext(d: string, k: nat)
    requires AllDigits(d) && k < |d|
    ensures AllDigits(d[..k]) && AllDigits(d[..k + 1])
    ensures Nat(d[..k + 1]) == Nat(d[..k]) * 10 + (d[k] as int - '0' as int)
  {
    assert d[..k + 1][..k] == d[..k];
  }

  /** cb_rt_string_to_long. */
  method StringToLong(data: string) returns (r: int)
    ensures r == LongOf(data)
    ensures -I64_MAX <= r <= I64_MAX
  {
    hide Digits, Nat;
    var i := 0;
    assert data[0..] == data;
    while i < |data| && IsSpace(data[i])
      invariant i <= |data| && SkipSpace(data[i..]) == SkipSpace(data)
    {
      assert data[i..][1..] == data[i + 1..];
      i := i + 1;
    }
    assert data[i..] == SkipSpace(data);
    var neg := false;
    if i < |data| && (data[i] == '+' || data[i] == '-') {
      neg := data[i] == '-';
      assert data[i..][1..] == data[i + 1..];
      i := i + 1;
    }
    NatEmpty();
    var val, end := ReadDigits(data, i);
    if end == i { return 0; }
    r := if neg then -val else val;
  }

  /** Saturating a clamped number by a digit is clamping the true number. */
  lemma SaturateStep(n: nat, d: nat)
    requires d < 10
    ensures Clamp(n * 10 + d) == if Clamp(n) > (I64_MAX - d) / 10 then I64_MAX else Clamp(n) * 10 + d
  {
  }

  /** cb_rt_long_to_string. */
  function LongText(v: int): string {
    if v < 0 then "-" + Decimal(-v) else Decimal(v)
  }

  lemma {:induction false} DigitsOfAll(s: string)
    requires AllDigits(s)
    ensures Digits(s) == s
  {
    if s != "" {
      DigitsOfAll(s[1..]);
      assert s == [s[0]] + s[1..];
    }
  }

  /** Reading back a printed number gives the number, for every 64-bit integer but the least one. */
  lemma LongRoundTrip(v: int)
    requires -0x8000_0000_0000_0000 <= v <= 0x7FFF_FFFF_FFFF_FFFF
    ensures LongOf(LongText(v)) == v <==> v != -0x8000_0000_0000_0000
    ensures LongOf(LongText(-0x8000_0000_0000_0000)) == -0x7FFF_FFFF_FFFF_FFFF
  {
    ReadsBack(v);
    ReadsBack(-0x8000_0000_0000_0000);
  }

  lemma ReadsBack(v: int)
    ensures LongOf(LongText(v)) == Signed(v < 0, Clamp(if v < 0 then -v else v))
  {
    hide Decimal, Nat, Digits;
    var n := if v < 0 then -v else v;
    NatDecimal(n);
    DigitsOfAll(Decimal(n));
    var s := LongText(v);
    assert IsDigit(Decimal(n)[0]);
    assert SkipSpace(s) == s;
    if v < 0 { assert s[1..] == Decimal(n); }
  }

  // ── Float to string ────────────────────────────────────────────────────

  function Zeros(n: nat): (s: string)
    ensures |s| == n && AllDigits(s) && forall i | 0 <= i < n :: s[i] == '0'
  {
    seq(n, _ => '0')
  }

  /** find_last_not_of('0'), as the string up to there. */
  function StripZeros(s: string): (r: string)
    ensures r <= s && |r| <= |s| && (r != "" ==> r[|r| - 1] != '0')
    ensures s == r + Zeros(|s| - |r|)
  {
    if s == "" || s[|s| - 1] != '0' then s
    else
      var r := StripZeros(s[..|s| - 1]);
      assert s == s[..|s| - 1] + ['0'];
      assert Zeros(|s| - |r|) == Zeros(|s| - 1 - |r|) + ['0'];
      r
  }

  /** `%03d`. */
  function ThreeDigits(n: nat): (s: string)
    ensures AllDigits(s) && s != ""
  {
    var d := Decimal(n);
    if |d| >= 3 then d else Zeros(3 - |d|) + d
  }

  /** The six significant digits of a rounded non-zero number and its decimal exponent. */
  predicate Normal(digits: string) {
    |digits| == 6 && AllDigits(digits) && digits[0] != '0'
  }

  function FormatFixed(digits: string, exponent: int): string
    requires Normal(digits) && -3 <= exponent <= 7
  {
    if exponent >= 5 then digits + Zeros(exponent - 5) + ".0"
    else if exponent >= 0 then
      var frac := StripZeros(digits[exponent + 1..]);
      digits[..exponent + 1] + "." + if frac == "" then "0" else frac
    else "0." + StripZeros(Zeros(-exponent - 1) + digits)
  }

  function FormatScientific(digits: string, exponent: int): string
    requires Normal(digits)
  {
    digits[..1] + "." + StripZeros(digits[1..]) + (if exponent < 0 then "e-" else "e+") +
    ThreeDigits(if exponent < 0 then -exponent else exponent)
  }

  /** format_float, from the digits and the exponent that `%.5e` yields. */
  function FormatFloat(neg: bool, digits: string, exponent: int): string
    requires Normal(digits)
  {
    (if neg then "-" else "") +
    if -3 <= exponent <= 7 then FormatFixed(digits, exponent) else FormatScientific(digits, exponent)
  }

  // ── Reading a number text ──────────────────────────────────────────────

  /** A decimal text taken apart: sign, digits before and behind the point, exponent. */
  datatype Reading = Reading(neg: bool, whole: string, frac: string, exponent: int)

  /** Nothing, or `e(+|-)digits`: the exponent. */
  function ReadTail(tail: string): Option<int> {
    if tail == "" then Some(0)
    else if |tail| < 3 || tail[0] != 'e' || (tail[1] != '+' && tail[1] != '-') || !AllDigits(tail[2..]) then None
    else Some(Signed(tail[1] == '-', Nat(tail[2..])))
  }

  /** The digits, the point, the digits behind it, and the rest. */
  function SplitPoint(body: string): Option<(string, string, string)> {
    var whole := Digits(body);
    var rest := body[|whole|..];
    if whole == "" || rest == "" || rest[0] != '.' then None
    else
      var frac := Digits(rest[1..]);
      Some((whole, frac, rest[1 + |frac|..]))
  }

  function Unsigned(s: string): string {
    if Negative(s) then s[1..] else s
  }

  /** `[-]digits.digits[e(+|-)digits]`, and nothing else. */
  function Read(s: string): Option<Reading> {
    var parts := SplitPoint(Unsigned(s));
    if parts.None? then None
    else
      var (whole, frac, tail) := parts.value;
      var exponent := ReadTail(tail);
      if exponent.None? then None else Some(Reading(Negative(s), whole, frac, exponent.value))
  }

  function PowNat(n: nat): (p: real)
    ensures p > 0.0
  {
    if n == 0 then 1.0 else 10.0 * PowNat(n - 1)
  }

  /** 10 to the n. */
  function Pow10(n: int): (p: real)
    ensures p > 0.0
  {
    if n >= 0 then PowNat(n) else 1.0 / PowNat(-n)
  }

  lemma PowStep(n: int)
    ensures Pow10(n) == 10.0 * Pow10(n - 1)
  {
    if n <= 0 {
      assert PowNat(1 - n) == 10.0 * PowNat(-n);
    }
  }

  /** The number `m` times ten to the `e`. */
  function Scaled(m: int, e: int): real {
    m as real * Pow10(e)
  }

  /** The number a reading denotes. */
  function Denotes(r: Reading): real
    requires AllDigits(r.whole + r.frac)
  {
    Scaled(Signed(r.neg, Nat(r.whole + r.frac)), r.exponent - |r.frac|)
  }

  /** Ten times the number with one power less. */
  lemma ShiftOne(m: int, e: int)
    ensures Scaled(m * 10, e - 1) == Scaled(m, e)
  {
    PowStep(e);
    TenTimes(m, Pow10(e - 1));
    hide Pow10;
  }

  lemma TenTimes(m: int, p: real)
    ensures (m * 10) as real * p == m as real * (10.0 * p)
  {
  }

  lemma {:induction false} AppendZeros(s: string, n: nat, e: int)
    requires AllDigits(s)
    ensures AllDigits(s + Zeros(n)) && Scaled(Nat(s + Zeros(n)), e - n) == Scaled(Nat(s), e)
  {
    hide Scaled;
    if n == 0 {
      assert s + Zeros(0) == s;
    } else {
      AppendZeros(s, n - 1, e);
      var t, u := s + Zeros(n), s + Zeros(n - 1);
      assert t[..|t| - 1] == u && t[|t| - 1] == '0';
      assert Nat(t) == Nat(u) * 10;
      ShiftOne(Nat(u), e - (n - 1));
    }
  }

  lemma {:induction false} PrependZeros(n: nat, s: string)
    requires AllDigits(s)
    ensures AllDigits(Zeros(n) + s) && Nat(Zeros(n) + s) == Nat(s)
    decreases |s| + n
  {
    var t := Zeros(n) + s;
    if s != "" {
      PrependZeros(n, s[..|s| - 1]);
      assert t[..|t| - 1] == Zeros(n) + s[..|s| - 1];
    } else if n > 0 {
      PrependZeros(n - 1, "");
      assert t[..|t| - 1] == Zeros(n - 1) + "";
    }
  }

  // ── The printed number denotes the rounded one ─────────────────────────

  lemma {:induction false} DigitsThen(d: string, rest: string)
    requires AllDigits(d) && (rest != "" ==> !IsDigit(rest[0]))
    ensures Digits(d + rest) == d
  {
    if d != "" {
      DigitsThen(d[1..], rest);
      assert (d + rest)[1..] == d[1..] + rest;
      assert d == [d[0]] + d[1..];
    } else {
      assert d + rest == rest;
    }
  }

  lemma SplitPointOf(whole: string, frac: string, tail: string)
    requires AllDigits(whole) && AllDigits(frac) && whole != "" && (tail != "" ==> !IsDigit(tail[0]))
    ensures SplitPoint(whole + ("." + (frac + tail))) == Some((whole, frac, tail))
  {
    var rest := "." + (frac + tail);
    DigitsThen(whole, rest);
    assert (whole + rest)[|whole|..] == rest;
    assert rest[1..] == frac + tail;
    DigitsThen(frac, tail);
    assert rest[1 + |frac|..] == tail;
    hide Digits;
  }

  /** Reading undoes writing a sign, a whole part, a fraction and an exponent. */
  lemma ReadParts(neg: bool, whole: string, frac: string, tail: string)
    requires AllDigits(whole) && AllDigits(frac) && whole != "" && (tail != "" ==> !IsDigit(tail[0])) && ReadTail(tail).Some?
    ensures Read((if neg then "-" else "") + (whole + ("." + (frac + tail)))) == Some(Reading(neg, whole, frac, ReadTail(tail).value))
  {
    hide SplitPoint, ReadTail;
    var body := whole + ("." + (frac + tail));
    SplitPointOf(whole, frac, tail);
    SignRead(neg, body, whole[0]);
  }

  lemma SignRead(neg: bool, body: string, first: char)
    requires body != "" && body[0] == first && IsDigit(first)
    ensures var s := (if neg then "-" else "") + body; Unsigned(s) == body && Negative(s) == neg
  {
    var s := (if neg then "-" else "") + body;
    if neg { assert s[1..] == body; } else { assert s == body; }
  }

  lemma ReadFixed(neg: bool, whole: string, frac: string)
    requires AllDigits(whole) && AllDigits(frac) && whole != ""
    ensures Read((if neg then "-" else "") + (whole + "." + frac)) == Some(Reading(neg, whole, frac, 0))
  {
    hide Read;
    assert whole + "." + frac == whole + ("." + (frac + ""));
    ReadParts(neg, whole, frac, "");
  }

  lemma ReadScientific(neg: bool, whole: string, frac: string, minus: bool, exp: string)
    requires AllDigits(whole) && AllDigits(frac) && AllDigits(exp) && whole != "" && exp != ""
    ensures Read((if neg then "-" else "") + (whole + "." + frac + (if minus then "e-" else "e+") + exp)) ==
            Some(Reading(neg, whole, frac, Signed(minus, Nat(exp))))
  {
    hide Read, Nat;
    var tail := (if minus then "e-" else "e+") + exp;
    assert tail[2..] == exp;
    assert whole + "." + frac + (if minus then "e-" else "e+") + exp == whole + ("." + (frac + tail));
    ReadParts(neg, whole, frac, tail);
  }

  lemma NatThreeDigits(n: nat)
    ensures Nat(ThreeDigits(n)) == n
  {
    NatDecimal(n);
    var d := Decimal(n);
    if |d| < 3 { PrependZeros(3 - |d|, d); }
    hide Decimal, Nat;
  }

  /** The digits of a normal number, read as an integer, scaled to its exponent. */
  function Rounded(neg: bool, digits: string, exponent: int): real
    requires Normal(digits)
  {
    Scaled(Signed(neg, Nat(digits)), exponent - 5)
  }

  lemma SignedScaled(neg: bool, m: nat, e: int, n: nat, f: int)
    requires Scaled(m, e) == Scaled(n, f)
    ensures Scaled(Signed(neg, m), e) == Scaled(Signed(neg, n), f)
  {
    Negated(m, Pow10(e));
    Negated(n, Pow10(f));
    hide Pow10;
  }

  lemma Negated(m: int, p: real)
    ensures (-m) as real * p == -(m as real * p)
  {
  }

  lemma FixedDenotes(neg: bool, digits: string, exponent: int)
    requires Normal(digits) && -3 <= exponent <= 7
    ensures var r := Read((if neg then "-" else "") + FormatFixed(digits, exponent));
      r.Some? && AllDigits(r.value.whole + r.value.frac) && Denotes(r.value) == Rounded(neg, digits, exponent)
  {
    if exponent >= 5 {
      FixedLarge(neg, digits, exponent);
    } else if exponent >= 0 {
      FixedMiddle(neg, digits, exponent);
    } else {
      FixedSmall(neg, digits, exponent);
    }
    hide Read, FormatFixed, Denotes, Rounded;
  }

  lemma FixedLarge(neg: bool, digits: string, exponent: int)
    requires Normal(digits) && 5 <= exponent <= 7
    ensures var r := Read((if neg then "-" else "") + FormatFixed(digits, exponent));
      r.Some? && AllDigits(r.value.whole + r.value.frac) && Denotes(r.value) == Rounded(neg, digits, exponent)
  {
    hide Read, Nat, Scaled;
    var whole := digits + Zeros(exponent - 5);
    assert FormatFixed(digits, exponent) == whole + "." + "0";
    ReadFixed(neg, whole, "0");
    assert whole + "0" == digits + Zeros(exponent - 4);
    AppendZeros(digits, exponent - 4, exponent - 5);
    SignedScaled(neg, Nat(whole + "0"), -1, Nat(digits), exponent - 5);
  }

  lemma FixedMiddle(neg: bool, digits: string, exponent: int)
    requires Normal(digits) && 0 <= exponent <= 4
    ensures var r := Read((if neg then "-" else "") + FormatFixed(digits, exponent));
      r.Some? && AllDigits(r.value.whole + r.value.frac) && Denotes(r.value) == Rounded(neg, digits, exponent)
  {
    hide Read, Nat, Scaled, Zeros, StripZeros;
    var whole, all := digits[..exponent + 1], digits[exponent + 1..];
    var kept := StripZeros(all);
    MiddleDigits(digits, whole, kept, |all| - |kept|);
    if kept == "" {
      ReadFixed(neg, whole, "0");
      SignedScaled(neg, Nat(whole + "0"), -1, Nat(digits), exponent - 5);
    } else {
      ReadFixed(neg, whole, kept);
      SignedScaled(neg, Nat(whole + kept), -|kept|, Nat(digits), exponent - 5);
    }
  }

  /** Zeros dropped at the end, or one kept where nothing else is left. */
  lemma MiddleDigits(digits: string, whole: string, kept: string, n: nat)
    requires AllDigits(digits) && AllDigits(whole) && AllDigits(kept) && digits == whole + (kept + Zeros(n))
    ensures AllDigits(whole + kept) && Scaled(Nat(whole + kept), -|kept|) == Scaled(Nat(digits), -(|kept| + n))
    ensures kept == "" ==> Scaled(Nat(whole + "0"), -1) == Scaled(Nat(digits), -(|kept| + n))
  {
    hide Nat, Scaled, Zeros;
    Regroup(whole, kept, Zeros(n));
    AppendZeros(whole + kept, n, -|kept|);
    if kept == "" {
      OneZero(whole);
      AppendZeros(whole, 1, 0);
    }
  }

  lemma Regroup(a: string, b: string, c: string)
    ensures a + (b + c) == (a + b) + c && (b == "" ==> a + b == a)
    ensures AllDigits(a) && AllDigits(b) ==> AllDigits(a + b)
  {
  }

  lemma OneZero(s: string)
    ensures s + "0" == s + Zeros(1)
  {
    assert Zeros(1) == "0";
  }

  lemma FixedSmall(neg: bool, digits: string, exponent: int)
    requires Normal(digits) && -3 <= exponent < 0
    ensures var r := Read((if neg then "-" else "") + FormatFixed(digits, exponent));
      r.Some? && AllDigits(r.value.whole + r.value.frac) && Denotes(r.value) == Rounded(neg, digits, exponent)
  {
    hide Read, Nat, Scaled, Zeros, StripZeros, FormatFixed;
    FixedSmallText(digits, exponent);
    var all := Zeros(-exponent - 1) + digits;
    var kept := StripZeros(all);
    var n := |all| - |kept|;
    ReadFixed(neg, "0", kept);
    SmallDigits(digits, exponent, kept, n);
    SignedScaled(neg, Nat("0" + kept), -|kept|, Nat(digits), exponent - 5);
  }

  lemma FixedSmallText(digits: string, exponent: int)
    requires Normal(digits) && -3 <= exponent < 0
    ensures FormatFixed(digits, exponent) == "0" + "." + StripZeros(Zeros(-exponent - 1) + digits)
  {
    hide StripZeros, Zeros;
    assert "0" + "." == "0.";
  }

  lemma SmallDigits(digits: string, exponent: int, kept: string, n: nat)
    requires Normal(digits) && -3 <= exponent < 0 && AllDigits(kept) && Zeros(-exponent - 1) + digits == kept + Zeros(n)
    ensures AllDigits("0" + kept) && Scaled(Nat("0" + kept), -|kept|) == Scaled(Nat(digits), exponent - 5)
  {
    hide Nat, Scaled, Zeros, AllDigits;
    ZeroInFront(-exponent - 1, digits, kept, n);
    var whole := "0" + kept;
    assert Zeros(-exponent) + digits == whole + Zeros(n);
    PrependZeros(-exponent, digits);
    AppendZeros(whole, n, -|kept|);
    assert -|kept| - n == exponent - 5;
  }

  lemma ZeroInFront(k: nat, digits: string, kept: string, n: nat)
    requires Zeros(k) + digits == kept + Zeros(n) && AllDigits(kept)
    ensures Zeros(k + 1) + digits == ("0" + kept) + Zeros(n) && |kept| + n == k + |digits| && AllDigits("0" + kept)
  {
    var left, right := Zeros(k + 1) + digits, ("0" + kept) + Zeros(n);
    assert Zeros(k + 1) == "0" + Zeros(k);
    assert left == "0" + (Zeros(k) + digits);
    assert right == "0" + (kept + Zeros(n));
    assert |Zeros(k) + digits| == |kept + Zeros(n)|;
  }

  lemma ScientificDenotes(neg: bool, digits: string, exponent: int)
    requires Normal(digits)
    ensures var r := Read((if neg then "-" else "") + FormatScientific(digits, exponent));
      r.Some? && AllDigits(r.value.whole + r.value.frac) && Denotes(r.value) == Rounded(neg, digits, exponent)
  {
    hide Read, Nat, Scaled, ThreeDigits;
    var whole, all := digits[..1], digits[1..];
    var kept := StripZeros(all);
    var e := if exponent < 0 then -exponent else exponent;
    ReadScientific(neg, whole, kept, exponent < 0, ThreeDigits(e));
    NatThreeDigits(e);
    assert digits == (whole + kept) + Zeros(|all| - |kept|);
    AppendZeros(whole + kept, |all| - |kept|, exponent - |kept|);
    SignedScaled(neg, Nat(whole + kept), exponent - |kept|, Nat(digits), exponent - 5);
  }

  /** For any six digits and any exponent, the text denotes exactly the rounded number, and it is written
      in fixed form exactly for exponents from -3 to 7. */
  lemma FormatDenotes(neg: bool, digits: string, exponent: int)
    requires Normal(digits)
    ensures var r := Read(FormatFloat(neg, digits, exponent));
      r.Some? && AllDigits(r.value.whole + r.value.frac) && Denotes(r.value) == Rounded(neg, digits, exponent)
    ensures 'e' !in FormatFloat(neg, digits, exponent) <==> -3 <= exponent <= 7
  {
    if -3 <= exponent <= 7 {
      FixedDenotes(neg, digits, exponent);
      NoLetter(neg, digits, exponent);
    } else {
      ScientificDenotes(neg, digits, exponent);
      var m := (if exponent < 0 then "e-" else "e+");
      assert 'e' in m;
    }
    hide Read, FormatFixed, Denotes, Rounded, ThreeDigits;
  }

  lemma NoLetter(neg: bool, digits: string, exponent: int)
    requires Normal(digits) && -3 <= exponent <= 7
    ensures 'e' !in (if neg then "-" else "") + FormatFixed(digits, exponent)
  {
    hide StripZeros, Zeros;
    DigitsNoLetter(digits);
    if exponent >= 5 {
      DigitsNoLetter(Zeros(exponent - 5));
    } else if exponent >= 0 {
      DigitsNoLetter(StripZeros(digits[exponent + 1..]));
    } else {
      DigitsNoLetter(StripZeros(Zeros(-exponent - 1) + digits));
    }
  }

  lemma DigitsNoLetter(s: string)
    requires AllDigits(s)
    ensures 'e' !in s
  {
  }
}
