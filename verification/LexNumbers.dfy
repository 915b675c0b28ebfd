/** Digit separators and integer literals, against a grammar and a value. */
module LexNumbers {
  import opened Common
  import opened Utf8
  import opened SourceText
  import opened LexSpec

  /** `(_?digit)*` */
  predicate DigitTail(d: seq<Byte>, radix: Radix) {
    || d == []
    || (IsDigit(radix, d[0]) && DigitTail(d[1..], radix))
    || (|d| >= 2 && d[0] == UNDERSCORE && IsDigit(radix, d[1]) && DigitTail(d[2..], radix))
  }

  /** Nothing, or `digit(_?digit)*`. */
  predicate Separated(d: seq<Byte>, radix: Radix) {
    d == [] || (IsDigit(radix, d[0]) && DigitTail(d[1..], radix))
  }

  lemma {:induction false} CleanTail(src: seq<Byte>, i: nat, hi: nat, last: bool, radix: Radix)
    requires 0 < i <= hi <= |src| && forall k | i <= k < hi :: IsDigit(radix, src[k]) || src[k] == UNDERSCORE
    ensures SeparatorDiags(src, i, hi, last, true) == [] <==>
      if last then i < hi && IsDigit(radix, src[i]) && DigitTail(src[i + 1..hi], radix) else DigitTail(src[i..hi], radix)
    decreases hi - i
  {
    if i < hi {
      CleanTail(src, i + 1, hi, src[i] == UNDERSCORE, radix);
      var d := src[i..hi];
      assert d[1..] == src[i + 1..hi];
      if i + 1 < hi { assert d[1] == src[i + 1] && d[2..] == src[i + 2..hi]; }
    }
  }

  /** A run is reported clean exactly when it is empty or of the form `digit(_?digit)*`. */
  lemma CleanRun(src: seq<Byte>, i: nat, radix: Radix)
    requires i <= |src|
    ensures var r := DigitRun(src, i, radix, false);
      !r.bad <==> Separated(src[i..r.end], radix)
  {
    var hi := RunEnd(src, i, radix);
    if i < hi {
      var d := src[i..hi];
      assert d[0] == src[i] && d[1..] == src[i + 1..hi];
      CleanTail(src, i + 1, hi, src[i] == UNDERSCORE, radix);
    }
    hide DigitTail;
  }

  lemma {:induction false} StrippedDigits(d: seq<Byte>, radix: Radix)
    requires forall k | 0 <= k < |d| :: IsDigit(radix, d[k]) || d[k] == UNDERSCORE
    ensures forall k | 0 <= k < |Stripped(d)| :: IsDigit(radix, Stripped(d)[k])
  {
    if d != [] { StrippedDigits(d[1..], radix); }
  }

  lemma {:induction false} NumberNonNegative(d: seq<Byte>, radix: Radix)
    requires forall k | 0 <= k < |d| :: IsDigit(radix, d[k])
    ensures Number(d, radix) >= 0
  {
    if d != [] { NumberNonNegative(d[..|d| - 1], radix); }
  }

  /** What makes a run of digits an integer literal. */
  predicate Literal(run: seq<Byte>, radix: Radix) {
    run != [] && Separated(run, radix) && |Stripped(run)| <= 64 && Number(Stripped(run), radix) < 0x1_0000_0000_0000_0000
  }

  /** The run is an integer literal of value `v`. */
  predicate LiteralOf(run: seq<Byte>, radix: Radix, v: nat) {
    Literal(run, radix) && v == Number(Stripped(run), radix)
  }

  lemma LiteralScan(src: seq<Byte>, start: nat, lo: nat, radix: Radix, v: nat)
    requires lo <= |src| && !DigitRun(src, lo, radix, false).bad && lo < RunEnd(src, lo, radix)
    ensures var hi := RunEnd(src, lo, radix);
      IntegerScan(src, start, lo, hi, radix).kind == IntLit(v) <==> LiteralOf(src[lo..hi], radix, v)
  {
    var hi := RunEnd(src, lo, radix);
    CleanRun(src, lo, radix);
    var run := src[lo..hi];
    StrippedDigits(run, radix);
    NumberNonNegative(Stripped(run), radix);
    hide DigitRun, Separated, Stripped, Number;
  }

  /** `$…` and `%…`: an integer token exactly for a literal run, with its value. */
  lemma RadixLiteral(src: seq<Byte>, start: nat, radix: Radix, v: nat)
    requires start < |src|
    ensures var run := src[start + 1..RunEnd(src, start + 1, radix)];
      RadixScan(src, start, radix).kind == IntLit(v) <==> LiteralOf(run, radix, v)
  {
    hide Stripped, Number, DigitTail, IntegerScan, SeparatorDiags;
    var hi := RunEnd(src, start + 1, radix);
    var run := src[start + 1..hi];
    if run != [] { assert run[0] == src[start + 1]; }
    if IsDigit(radix, At(src, start + 1)) {
      if DigitRun(src, start + 1, radix, false).bad {
        BadIsNoLiteral(src, start + 1, radix, v);
      } else {
        LiteralScan(src, start, start + 1, radix, v);
      }
      hide LiteralOf;
    }
  }

  /** A decimal run that no fraction and no exponent follows: likewise. With either of them the token is
      never an integer. */
  lemma DecimalLiteral(src: seq<Byte>, start: nat, t: Tables, v: nat)
    requires start < |src| && IsDigit(Decimal, src[start])
    ensures var hi := RunEnd(src, start, Decimal);
      var run := src[start..hi];
      var plain := !(At(src, hi) == DOT && IsDigit(Decimal, At(src, hi + 1))) && !IsExponentMark(At(src, hi));
      DecimalScan(src, start, t).kind == IntLit(v) <==> plain && LiteralOf(run, Decimal, v)
  {
    hide DigitRun, IntegerScan, FloatScan, FracRun, ExpRun, AfterSign, LiteralOf;
    var hi := RunEnd(src, start, Decimal);
    RunEndIs(src, start);
    assert hi > start;
    FracLonger(src, hi);
    ExpLonger(src, FracRun(src, hi).end);
    if DigitRun(src, start, Decimal, false).bad {
      BadIsNoLiteral(src, start, Decimal, v);
    } else {
      LiteralScan(src, start, start, Decimal, v);
    }
    FloatIsNoInteger(src, start, hi, FracRun(src, hi).end, ExpRun(src, FracRun(src, hi).end).end, t, v);
  }

  lemma RunEndIs(src: seq<Byte>, i: nat)
    requires i <= |src|
    ensures DigitRun(src, i, Decimal, false).end == RunEnd(src, i, Decimal)
  {
  }

  lemma BadIsNoLiteral(src: seq<Byte>, i: nat, radix: Radix, v: nat)
    requires i <= |src| && DigitRun(src, i, radix, false).bad
    ensures !LiteralOf(src[i..RunEnd(src, i, radix)], radix, v)
  {
    CleanRun(src, i, radix);
    hide Separated;
  }

  lemma FloatIsNoInteger(src: seq<Byte>, start: nat, intEnd: nat, fracEnd: nat, end: nat, t: Tables, v: nat)
    requires start <= intEnd <= fracEnd <= end <= |src|
    ensures FloatScan(src, start, intEnd, fracEnd, end, t).kind != IntLit(v)
  {
    hide FloatText;
  }

  lemma FracLonger(src: seq<Byte>, i: nat)
    requires i <= |src|
    ensures i <= FracRun(src, i).end <= |src|
    ensures FracRun(src, i).end > i <==> At(src, i) == DOT && IsDigit(Decimal, At(src, i + 1))
    ensures FracRun(src, i).end == i ==> !FracRun(src, i).bad
  {
  }

  lemma ExpLonger(src: seq<Byte>, i: nat)
    requires i <= |src|
    ensures i <= ExpRun(src, i).end <= |src|
    ensures ExpRun(src, i).end > i <==> IsExponentMark(At(src, i))
    ensures ExpRun(src, i).end == i ==> !ExpRun(src, i).bad
  {
  }
}
