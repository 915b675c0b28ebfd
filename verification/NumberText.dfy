/** The form of number texts: no needless zeros, three exponent digits, and which texts read as which integers. */
module NumberText {
  import opened Common
  import opened Convert

  // ── Integers ───────────────────────────────────────────────────────────

  function Tens(k: nat): nat {
    if k == 0 then 1 else 10 * Tens(k - 1)
  }

  /** The shortest text of a number: no zero in front, and `k` digits are enough exactly below the `k`-th power of
      ten. */
  lemma {:induction false} DecimalShortest(n: nat, k: nat)
    requires k > 0
    ensures Decimal(0) == "0" && (n > 0 ==> Decimal(n)[0] != '0')
    ensures |Decimal(n)| <= k <==> n < Tens(k)
    decreases n
  {
    if n < 10 {
      TensAtLeast(k);
    } else {
      if k > 1 { DecimalShortest(n / 10, k - 1); } else { DecimalShortest(n / 10, 1); }
      assert Tens(k) == 10 * Tens(k - 1);
      if k == 1 { assert Tens(0) == 1; }
    }
  }

  lemma {:induction false} TensAtLeast(k: nat)
    requires k > 0
    ensures Tens(k) >= 10
  {
    if k > 1 { TensAtLeast(k - 1); }
  }

  /** The texts of negative numbers, and no others, start with a minus. */
  lemma LongForm(v: int)
    ensures LongText(v) != "" && (LongText(v)[0] == '-' <==> v < 0)
  {
    assert v >= 0 ==> IsDigit(Decimal(v)[0]);
    hide Decimal;
  }

  /** The five characters that may stand in front of a number. */
  predicate Space(c: char) {
    c as int == 32 || c as int == 9 || c as int == 10 || c as int == 12 || c as int == 13
  }

  predicate Spaces(w: string) {
    forall i | 0 <= i < |w| :: Space(w[i])
  }

  /** Nothing of the number is left in front of the rest: no space, no second sign where none was read, no digit. */
  predicate Separates(w: string, sign: string, digits: string, rest: string) {
    && Spaces(w) && (sign == "" || sign == "+" || sign == "-") && AllDigits(digits)
    && (rest != "" ==> !('0' <= rest[0] <= '9'))
    && (sign == "" && digits == "" && rest != "" ==> rest[0] != '+' && rest[0] != '-' && !Space(rest[0]))
  }

  lemma {:induction false} SpacesSkipped(w: string, s: string)
    requires Spaces(w) && (s != "" ==> !Space(s[0]))
    ensures SkipSpace(w + s) == s
  {
    if w == "" {
      assert w + s == s;
    } else {
      assert (w + s)[1..] == w[1..] + s;
      SpacesSkipped(w[1..], s);
    }
  }

  lemma SignSkipped(sign: string, digits: string, rest: string)
    requires Separates("", sign, digits, rest)
    ensures var signed := sign + (digits + rest);
      && SkipSign(signed) == digits + rest && (Negative(signed) <==> sign == "-")
      && (signed != "" ==> !Space(signed[0]))
  {
    var number := digits + rest;
    var signed := sign + number;
    if sign != "" {
      assert signed[0] == sign[0] && signed[1..] == number;
    } else {
      assert signed == number;
      if digits != "" { assert number[0] == digits[0] && IsDigit(number[0]); } else { assert number == rest; }
    }
  }

  /** White space, a sign, digits and any rest: the number of the digits with its sign, held at the largest
      magnitude; zero without digits. */
  lemma LongReads(w: string, sign: string, digits: string, rest: string)
    requires Separates(w, sign, digits, rest)
    ensures LongOf(w + sign + digits + rest) ==
            (if sign == "-" then -1 else 1) * (if Nat(digits) < 0x7FFF_FFFF_FFFF_FFFF then Nat(digits) else 0x7FFF_FFFF_FFFF_FFFF)
    ensures digits == "" ==> LongOf(w + sign + digits + rest) == 0
  {
    hide Nat, Digits, SkipSpace, SkipSign, Negative, Space, AllDigits;
    var signed := sign + (digits + rest);
    assert w + sign + digits + rest == w + signed;
    SignSkipped(sign, digits, rest);
    SpacesSkipped(w, signed);
    DigitsThen(digits, rest);
    NatEmpty();
  }

  // ── Floats ─────────────────────────────────────────────────────────────

  /** A fraction without zeros at the end. */
  predicate Trimmed(frac: string) {
    frac != "" ==> frac[|frac| - 1] != '0'
  }

  /** The fixed form has one zero in front of the point or a number without leading zeros, and behind it one zero
      or a fraction without zeros at the end. */
  lemma FixedForm(neg: bool, digits: string, exponent: int)
    requires Normal(digits) && -3 <= exponent <= 7
    ensures var r := Read((if neg then "-" else "") + FormatFixed(digits, exponent));
      && r.Some? && r.value.exponent == 0 && r.value.neg == neg
      && (r.value.whole == "0" || (r.value.whole != "" && r.value.whole[0] != '0' && |r.value.whole| == exponent + 1))
      && (r.value.whole == "0" <==> exponent < 0)
      && (r.value.frac == "0" || (r.value.frac != "" && Trimmed(r.value.frac)))
  {
    hide Read, StripZeros;
    if exponent >= 5 {
      var whole := digits + Zeros(exponent - 5);
      assert FormatFixed(digits, exponent) == whole + "." + "0";
      ReadFixed(neg, whole, "0");
    } else if exponent >= 0 {
      var whole, kept := digits[..exponent + 1], StripZeros(digits[exponent + 1..]);
      ReadFixed(neg, whole, if kept == "" then "0" else kept);
    } else {
      SmallForm(neg, digits, exponent);
      hide FormatFixed;
    }
  }

  lemma SmallForm(neg: bool, digits: string, exponent: int)
    requires Normal(digits) && -3 <= exponent < 0
    ensures var r := Read((if neg then "-" else "") + FormatFixed(digits, exponent));
      r.Some? && r.value.exponent == 0 && r.value.neg == neg && r.value.whole == "0" && r.value.frac != "" && Trimmed(r.value.frac)
  {
    hide Read, StripZeros, FormatFixed;
    FixedSmallText(digits, exponent);
    var all := Zeros(-exponent - 1) + digits;
    var kept := StripZeros(all);
    ReadFixed(neg, "0", kept);
    assert all[-exponent - 1] == digits[0];
    var n: nat := |all| - |kept|;
    assert all == kept + Zeros(n);
    assert kept != "";
  }

  /** The scientific form has one digit in front of the point, no zeros at the end of the fraction, and the exponent
      of the number. */
  lemma ScientificForm(neg: bool, digits: string, exponent: int)
    requires Normal(digits)
    ensures var r := Read((if neg then "-" else "") + FormatScientific(digits, exponent));
      r.Some? && r.value.exponent == exponent && r.value.neg == neg && r.value.whole == digits[..1] && Trimmed(r.value.frac)
  {
    hide Read, Nat, ThreeDigits, StripZeros;
    var e := if exponent < 0 then -exponent else exponent;
    ReadScientific(neg, digits[..1], StripZeros(digits[1..]), exponent < 0, ThreeDigits(e));
    NatThreeDigits(e);
  }

  /** An exponent has three digits, with zeros in front where it needs them, or as many as its number has. */
  lemma ExponentForm(n: nat)
    ensures if n < 1000 then |ThreeDigits(n)| == 3 else |ThreeDigits(n)| > 3 && ThreeDigits(n)[0] != '0'
  {
    DecimalShortest(n, 3);
    assert Tens(3) == 1000;
    hide Decimal, Tens;
  }
}
