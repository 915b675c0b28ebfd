/** What the number tokens are: float literals and errors by the written parts, complaints by position, and
    printed numbers read back. */
module NumberLiterals {
  import opened Common
  import opened Utf8
  import opened SourceText
  import opened LexSpec
  import opened LexNumbers

  // ── The parts of a decimal token ───────────────────────────────────────

  /** `src[lo..hi]` is all the decimal digits and underscores that stand at `lo`. */
  predicate WholeRun(src: seq<Byte>, lo: nat, hi: nat) {
    && lo <= hi <= |src|
    && (forall k | lo <= k < hi :: '0' as int <= src[k] <= '9' as int || src[k] == '_' as int)
    && !('0' as int <= At(src, hi) <= '9' as int || At(src, hi) == '_' as int)
  }

  /** A decimal token: digits up to `w`; `.digits` up to `f`, if a digit follows the point; and `e`, a sign and
      digits from `x` to `end`, if there is an `e` or `E`. */
  predicate Parts(src: seq<Byte>, start: nat, w: nat, f: nat, x: nat, end: nat) {
    && WholeRun(src, start, w)
    && (if At(src, w) == '.' as int && '0' as int <= At(src, w + 1) <= '9' as int then WholeRun(src, w + 1, f) else f == w)
    && (if At(src, f) == 'e' as int || At(src, f) == 'E' as int then
          && x == (if At(src, f + 1) == '+' as int || At(src, f + 1) == '-' as int then f + 2 else f + 1)
          && WholeRun(src, x, end)
        else x == f == end)
  }

  /** The separators of every run stand between digits. */
  predicate CleanParts(src: seq<Byte>, start: nat, w: nat, f: nat, x: nat, end: nat)
    requires start <= w <= f <= x <= end <= |src|
  {
    && Separated(src[start..w], Decimal)
    && (w < f ==> Separated(src[w + 1..f], Decimal))
    && (f < x ==> Separated(src[x..end], Decimal))
  }

  lemma WholeRunIs(src: seq<Byte>, lo: nat, hi: nat)
    requires WholeRun(src, lo, hi)
    ensures RunEnd(src, lo, Decimal) == hi
  {
    var e := RunEnd(src, lo, Decimal);
    assert !(e < hi) && !(hi < e);
  }

  lemma FractionIs(src: seq<Byte>, w: nat, f: nat)
    requires w <= |src|
    requires if At(src, w) == '.' as int && '0' as int <= At(src, w + 1) <= '9' as int then WholeRun(src, w + 1, f) else f == w
    ensures w <= f <= |src| && FracRun(src, w).end == f
    ensures FracRun(src, w).bad <==> w < f && !Separated(src[w + 1..f], Decimal)
    ensures w < f ==> src[w] == DOT
  {
    if At(src, w) == DOT && IsDigit(Decimal, At(src, w + 1)) {
      WholeRunIs(src, w + 1, f);
      CleanRun(src, w + 1, Decimal);
    }
    hide Separated, SeparatorDiags, RunEnd;
  }

  lemma ExponentIs(src: seq<Byte>, f: nat, x: nat, end: nat)
    requires f <= |src|
    requires if At(src, f) == 'e' as int || At(src, f) == 'E' as int then
               && x == (if At(src, f + 1) == '+' as int || At(src, f + 1) == '-' as int then f + 2 else f + 1)
               && WholeRun(src, x, end)
             else x == f == end
    ensures f <= x <= end <= |src| && ExpRun(src, f).end == end
    ensures ExpRun(src, f).bad <==> f < x && !Separated(src[x..end], Decimal)
    ensures (IsExponentMark(At(src, f)) <==> f < x) && (f < x ==> x == AfterSign(src, f + 1))
  {
    if IsExponentMark(At(src, f)) {
      WholeRunIs(src, x, end);
      CleanRun(src, x, Decimal);
    }
    hide Separated, SeparatorDiags, RunEnd;
  }

  /** The runs of the scan are the parts. */
  lemma PartsAreRuns(src: seq<Byte>, start: nat, w: nat, f: nat, x: nat, end: nat)
    requires Parts(src, start, w, f, x, end) && start < |src| && IsDigit(Decimal, src[start])
    ensures start < w <= f <= x <= end <= |src| && (f == x ==> end == f)
    ensures DigitRun(src, start, Decimal, false).end == w && FracRun(src, w).end == f && ExpRun(src, f).end == end
    ensures (IsExponentMark(At(src, f)) <==> f < x) && (f < x ==> x == AfterSign(src, f + 1))
    ensures CleanParts(src, start, w, f, x, end) <==>
            !DigitRun(src, start, Decimal, false).bad && !FracRun(src, w).bad && !ExpRun(src, f).bad
    ensures w < f ==> src[w] == DOT
  {
    WholeRunIs(src, start, w);
    CleanRun(src, start, Decimal);
    FractionIs(src, w, f);
    ExponentIs(src, f, x, end);
    hide Separated, SeparatorDiags, RunEnd, FracRun, ExpRun;
  }

  // ── Without the separators ─────────────────────────────────────────────

  /** Removing separators drops an underscore and keeps every other byte. */
  lemma StrippedOne(c: Byte)
    ensures Stripped([]) == [] && Stripped([c]) == if c == '_' as int then [] else [c]
  {
    assert [c][1..] == [];
  }

  /** Removing separators respects concatenation. */
  lemma {:induction false} StrippedConcat(a: seq<Byte>, b: seq<Byte>)
    ensures Stripped(a + b) == Stripped(a) + Stripped(b)
  {
    if a == [] {
      assert [] + b == b;
    } else {
      StrippedConcat(a[1..], b);
      assert (a + b)[1..] == a[1..] + b;
      StrippedHead(a);
      StrippedHead(a + b);
      hide Stripped;
    }
  }

  lemma StrippedHead(a: seq<Byte>)
    requires a != []
    ensures Stripped(a) == Stripped([a[0]]) + Stripped(a[1..])
  {
    StrippedOne(a[0]);
    var kept := Stripped([a[0]]);
    assert kept == if a[0] == UNDERSCORE then [] else [a[0]];
  }

  /** The text the scan converts is the token without its separators. */
  lemma FloatTextIs(src: seq<Byte>, start: nat, w: nat, f: nat, end: nat)
    requires start <= w <= f <= end <= |src| && (w < f ==> src[w] == DOT)
    ensures FloatText(src, start, w, f, end) == Stripped(src[start..end])
  {
    var a, b, c := src[start..w], src[w..f], src[f..end];
    assert src[start..end] == (a + b) + c;
    StrippedConcat(a + b, c);
    StrippedConcat(a, b);
    if w < f {
      assert b == [DOT] + src[w + 1..f];
      StrippedConcat([DOT], src[w + 1..f]);
    }
    hide Stripped;
  }

  /** The scan, case by case. */
  lemma ScanCases(src: seq<Byte>, start: nat, w: nat, f: nat, x: nat, end: nat, t: Tables)
    requires Parts(src, start, w, f, x, end) && start < |src| && IsDigit(Decimal, src[start])
    ensures start < w <= f <= x <= end <= |src|
    ensures var s := DecimalScan(src, start, t);
      if f < x == end then
        s.kind == Error(MalformedNumber) && s.end == end && s.diags != [] && s.diags[|s.diags| - 1] == Diag(MalformedNumber, start, end)
      else if !CleanParts(src, start, w, f, x, end) then s.kind == Error(InvalidDigitSeparator) && s.end == end
      else if w < end then s == FloatScan(src, start, w, f, end, t)
      else s == IntegerScan(src, start, start, w, Decimal)
    ensures w < f ==> src[w] == DOT
  {
    PartsAreRuns(src, start, w, f, x, end);
    hide DigitRun, FracRun, ExpRun, Parts, CleanParts, FloatScan, IntegerScan, AfterSign, IsExponentMark;
    var before := DigitRun(src, start, Decimal, false).diags + FracRun(src, w).diags + ExpRun(src, f).diags;
    var last := before + [Diag(MalformedNumber, start, end)];
    assert last[|last| - 1] == Diag(MalformedNumber, start, end);
  }

  /** The number is given as a double: its text fits and converts. */
  predicate Converts(text: seq<Byte>, t: Tables, v: nat) {
    |text| <= 64 && t.parseFloat(text) == Some(v)
  }

  /** A decimal token with a fraction or an exponent is the float literal `v` exactly when an exponent has digits,
      the separators of every run stand between digits, and its text without them fits and converts to `v`. */
  lemma FloatLiteral(src: seq<Byte>, start: nat, w: nat, f: nat, x: nat, end: nat, t: Tables, v: nat)
    requires Parts(src, start, w, f, x, end) && start < |src| && IsDigit(Decimal, src[start])
    ensures start < w <= f <= x <= end <= |src|
    ensures DecimalScan(src, start, t).end == end
    ensures DecimalScan(src, start, t).kind == FloatLit(v) <==>
            && w < end && (f < x ==> x < end) && CleanParts(src, start, w, f, x, end)
            && Converts(Stripped(src[start..end]), t, v)
  {
    ScanCases(src, start, w, f, x, end, t);
    FloatTextIs(src, start, w, f, end);
    hide DecimalScan, Parts, CleanParts, Stripped, FloatText, Number;
  }

  /** The errors of a decimal token: malformed when the exponent lacks digits, or when the parts are clean but give
      no number; a bad separator when the parts are not clean otherwise. The last complaint about a malformed
      number covers the whole token. */
  lemma DecimalErrors(src: seq<Byte>, start: nat, w: nat, f: nat, x: nat, end: nat, t: Tables)
    requires Parts(src, start, w, f, x, end) && start < |src| && IsDigit(Decimal, src[start])
    ensures start < w <= f <= x <= end <= |src|
    ensures var s := DecimalScan(src, start, t);
      var text := Stripped(src[start..end]);
      var number := if w < end then |text| <= 64 && t.parseFloat(text).Some? else Literal(src[start..end], Decimal);
      && (s.kind == Error(InvalidDigitSeparator) <==> !CleanParts(src, start, w, f, x, end) && (f < x ==> x < end))
      && (s.kind == Error(MalformedNumber) <==> f < x == end || (CleanParts(src, start, w, f, x, end) && !number))
      && (s.kind == Error(MalformedNumber) ==> s.diags != [] && s.diags[|s.diags| - 1] == Diag(MalformedNumber, start, end))
      && (s.kind.IntLit? || s.kind.FloatLit? ==> s.diags == [])
  {
    ScanCases(src, start, w, f, x, end, t);
    FloatTextIs(src, start, w, f, end);
    if w == end && CleanParts(src, start, w, f, x, end) {
      IntegerErrors(src, start, start, w, Decimal);
      hide IntegerScan;
    }
    hide DecimalScan, Parts, Stripped, FloatText, Number, Separated;
  }

  /** The errors of `$…` and `%…`: nothing to read, separators that do not stand between digits, or a number that
      does not fit. */
  lemma RadixErrors(src: seq<Byte>, start: nat, radix: Radix)
    requires start < |src|
    ensures var s := RadixScan(src, start, radix);
      var run := src[start + 1..RunEnd(src, start + 1, radix)];
      && s.end == start + 1 + |run|
      && (s.kind == Error(UnexpectedChar) <==> run == [])
      && (s.kind == Error(InvalidDigitSeparator) <==> run != [] && !Separated(run, radix))
      && (s.kind == Error(MalformedNumber) <==> run != [] && Separated(run, radix) && !Literal(run, radix))
      && (s.kind == Error(MalformedNumber) ==> s.diags == [Diag(MalformedNumber, start, s.end)])
      && (s.kind == Error(UnexpectedChar) ==> s.diags == [Diag(UnexpectedChar, start, start + 1)])
      && (s.kind.IntLit? ==> s.diags == [])
  {
    var run := src[start + 1..RunEnd(src, start + 1, radix)];
    if run != [] { assert run[0] == src[start + 1]; }
    if At(src, start + 1) == UNDERSCORE {
      LeadingSeparator(src, start, radix);
      hide RadixScan, Literal;
    } else if IsDigit(radix, At(src, start + 1)) {
      DigitsFirst(src, start, radix);
      hide RadixScan, Separated, Literal;
    }
    hide Stripped, Number, DigitTail, RunEnd;
  }

  lemma DigitsFirst(src: seq<Byte>, start: nat, radix: Radix)
    requires start + 1 < |src| && IsDigit(radix, src[start + 1])
    ensures var s := RadixScan(src, start, radix);
      var run := src[start + 1..RunEnd(src, start + 1, radix)];
      && run != [] && s.end == start + 1 + |run|
      && if !Separated(run, radix) then s.kind == Error(InvalidDigitSeparator)
         else if Literal(run, radix) then s.kind.IntLit? && s.diags == []
         else s.kind == Error(MalformedNumber) && s.diags == [Diag(MalformedNumber, start, s.end)]
  {
    var hi := RunEnd(src, start + 1, radix);
    CleanRun(src, start + 1, radix);
    assert hi == DigitRun(src, start + 1, radix, false).end && hi > start + 1;
    hide DigitRun, IntegerScan, Separated, Literal, RunEnd;
    if Separated(src[start + 1..hi], radix) { IntegerErrors(src, start, start + 1, hi, radix); }
  }

  lemma LeadingSeparator(src: seq<Byte>, start: nat, radix: Radix)
    requires start + 1 < |src| && src[start + 1] == UNDERSCORE
    ensures RadixScan(src, start, radix).kind == Error(InvalidDigitSeparator)
    ensures RadixScan(src, start, radix).end == RunEnd(src, start + 1, radix) > start + 1
  {
    hide SeparatorDiags;
  }

  /** A clean run is a literal or malformed. */
  lemma IntegerErrors(src: seq<Byte>, start: nat, lo: nat, hi: nat, radix: Radix)
    requires lo < hi <= |src| && Separated(src[lo..hi], radix)
    requires forall k | lo <= k < hi :: IsDigit(radix, src[k]) || src[k] == UNDERSCORE
    ensures var s := IntegerScan(src, start, lo, hi, radix);
      && s.end == hi
      && if Literal(src[lo..hi], radix) then s.kind.IntLit? && s.diags == []
         else s.kind == Error(MalformedNumber) && s.diags == [Diag(MalformedNumber, start, hi)]
  {
    StrippedDigits(src[lo..hi], radix);
    NumberNonNegative(Stripped(src[lo..hi]), radix);
    hide Separated, Stripped, Number;
  }

  // ── Complaints, by position ────────────────────────────────────────────

  /** The separator at `k` does not stand between two digits of the run. */
  predicate Misplaced(src: seq<Byte>, lo: nat, hi: nat, k: nat)
    requires hi <= |src|
  {
    lo <= k < hi && src[k] == '_' as int && (k == lo || src[k - 1] == '_' as int || k == hi - 1)
  }

  /** Every complaint is about one byte, as a separator. */
  predicate SingleBytes(ds: seq<Diag>) {
    forall d | d in ds :: d == Diag(InvalidDigitSeparator, d.lo, d.lo + 1)
  }

  predicate TailBad(src: seq<Byte>, i: nat, hi: nat, k: nat)
    requires 0 < i <= hi <= |src|
  {
    (i <= k < hi && src[k] == UNDERSCORE && src[k - 1] == UNDERSCORE) || (k == hi - 1 && src[k] == UNDERSCORE)
  }

  predicate Complains(ds: seq<Diag>, k: nat) {
    Diag(InvalidDigitSeparator, k, k + 1) in ds
  }

  lemma {:induction false} TailComplaints(src: seq<Byte>, i: nat, hi: nat, last: bool)
    requires 0 < i <= hi <= |src| && (last <==> src[i - 1] == UNDERSCORE)
    ensures SingleBytes(SeparatorDiags(src, i, hi, last, true))
    ensures forall k: nat :: Complains(SeparatorDiags(src, i, hi, last, true), k) <==> TailBad(src, i, hi, k)
    decreases hi - i
  {
    if i < hi {
      var rest := SeparatorDiags(src, i + 1, hi, src[i] == UNDERSCORE, true);
      TailComplaints(src, i + 1, hi, src[i] == UNDERSCORE);
      var first := if last && src[i] == UNDERSCORE then [Diag(InvalidDigitSeparator, i, i + 1)] else [];
      assert SeparatorDiags(src, i, hi, last, true) == first + rest;
      ComplainsConcat(first, rest);
      hide SeparatorDiags;
      forall k: nat ensures Complains(first + rest, k) <==> TailBad(src, i, hi, k) {
        assert Complains(first, k) <==> k == i && last && src[i] == UNDERSCORE;
        assert Complains(rest, k) <==> TailBad(src, i + 1, hi, k);
      }
    }
  }

  lemma ComplainsConcat(a: seq<Diag>, b: seq<Diag>)
    ensures forall k: nat :: Complains(a + b, k) <==> Complains(a, k) || Complains(b, k)
    ensures SingleBytes(a) && SingleBytes(b) ==> SingleBytes(a + b)
  {
  }

  /** A run complains about exactly the separators that do not stand between two of its digits. */
  lemma RunComplaints(src: seq<Byte>, lo: nat, radix: Radix)
    requires lo <= |src|
    ensures var r := DigitRun(src, lo, radix, false);
      && SingleBytes(r.diags) && r.end == RunEnd(src, lo, radix)
      && forall k: nat :: Complains(r.diags, k) <==> Misplaced(src, lo, r.end, k)
  {
    var hi := RunEnd(src, lo, radix);
    if lo < hi {
      var first := if src[lo] == UNDERSCORE then [Diag(InvalidDigitSeparator, lo, lo + 1)] else [];
      var rest := SeparatorDiags(src, lo + 1, hi, src[lo] == UNDERSCORE, true);
      TailComplaints(src, lo + 1, hi, src[lo] == UNDERSCORE);
      assert SeparatorDiags(src, lo, hi, false, false) == rest;
      ComplainsConcat(first, rest);
      hide SeparatorDiags;
      forall k: nat ensures Complains(first + rest, k) <==> Misplaced(src, lo, hi, k) {
        assert Complains(first, k) <==> k == lo && src[lo] == UNDERSCORE;
        assert Complains(rest, k) <==> TailBad(src, lo + 1, hi, k);
      }
    }
  }

  /** Behind a prefix and an underscore: that underscore is reported, then the others as if it belonged to the run. */
  lemma LeadingComplaints(src: seq<Byte>, start: nat, radix: Radix)
    requires start + 1 < |src| && src[start + 1] == UNDERSCORE
    ensures var s := RadixScan(src, start, radix);
      && SingleBytes(s.diags) && s.diags != [] && s.diags[0].lo == start + 1 && s.end == RunEnd(src, start + 1, radix)
      && forall k: nat :: k > start + 1 ==> (Complains(s.diags, k) <==> Misplaced(src, start + 1, s.end, k))
  {
    var hi := RunEnd(src, start + 2, radix);
    var lead, rest := [Diag(InvalidDigitSeparator, start + 1, start + 2)], SeparatorDiags(src, start + 2, hi, true, false);
    assert RadixScan(src, start, radix).diags == lead + rest by {
      assert [] + rest == rest;
      hide SeparatorDiags, RunEnd;
    }
    AfterSeparator(src, start + 2, hi);
    assert RunEnd(src, start + 1, radix) == hi;
    hide SeparatorDiags, RadixScan, RunEnd;
    ComplainsConcat(lead, rest);
  }

  lemma AfterSeparator(src: seq<Byte>, i: nat, hi: nat)
    requires 0 < i <= hi <= |src| && src[i - 1] == UNDERSCORE
    ensures SingleBytes(SeparatorDiags(src, i, hi, true, false))
    ensures forall k: nat :: k >= i ==> (Complains(SeparatorDiags(src, i, hi, true, false), k) <==> Misplaced(src, i - 1, hi, k))
  {
    if i < hi {
      var first := if src[i] == UNDERSCORE then [Diag(InvalidDigitSeparator, i, i + 1)] else [];
      var rest := SeparatorDiags(src, i + 1, hi, src[i] == UNDERSCORE, true);
      TailComplaints(src, i + 1, hi, src[i] == UNDERSCORE);
      assert SeparatorDiags(src, i, hi, true, false) == first + rest;
      ComplainsConcat(first, rest);
      hide SeparatorDiags;
      forall k: nat | k >= i ensures Complains(first + rest, k) <==> Misplaced(src, i - 1, hi, k) {
        assert Complains(first, k) <==> k == i && src[i] == UNDERSCORE;
        assert Complains(rest, k) <==> TailBad(src, i + 1, hi, k);
      }
    }
  }

  // ── Complaints of a whole decimal token ────────────────────────────────

  /** From left to right. */
  predicate InOrder(ds: seq<Diag>) {
    forall i, j | 0 <= i < j < |ds| :: ds[i].lo <= ds[j].lo
  }

  lemma InOrderConcat(a: seq<Diag>, b: seq<Diag>, mid: nat)
    requires InOrder(a) && InOrder(b) && (forall d | d in a :: d.lo <= mid) && forall d | d in b :: mid <= d.lo
    ensures InOrder(a + b)
  {
    var all := a + b;
    forall i, j | 0 <= i < j < |all| ensures all[i].lo <= all[j].lo {
      if i < |a| <= j { assert all[i] in a && all[j] in b; }
    }
  }

  /** The complaints lie in `lo..hi` and come from left to right. */
  ghost predicate OrderedIn(ds: seq<Diag>, lo: nat, hi: nat) {
    InOrder(ds) && forall d | d in ds :: lo <= d.lo < hi
  }

  predicate StartIn(ds: seq<Diag>, lo: int, hi: int) {
    forall d | d in ds :: lo <= d.lo < hi
  }

  lemma StartInConcat(a: seq<Diag>, b: seq<Diag>, lo: int, hi: int)
    requires StartIn(a, lo, hi) && StartIn(b, lo, hi)
    ensures StartIn(a + b, lo, hi)
  {
  }

  /** The separator found at the step, if there is one, before the later ones. */
  lemma StepInOrder(first: seq<Diag>, rest: seq<Diag>, i: nat, hi: nat)
    requires first == [] || first == [Diag(InvalidDigitSeparator, i, i + 1)]
    requires InOrder(rest) && StartIn(rest, i, hi) && i < hi
    ensures InOrder(first + rest) && StartIn(first + rest, i, hi)
  {
    InOrderConcat(first, rest, i);
    StartInConcat(first, rest, i, hi);
  }

  lemma {:induction false} SeparatorsInOrder(src: seq<Byte>, i: nat, hi: nat, last: bool, some: bool)
    requires i <= hi <= |src| && (last && some ==> 0 < i)
    ensures var ds := SeparatorDiags(src, i, hi, last, some);
      InOrder(ds) && StartIn(ds, if last && some then i - 1 else i, hi)
    decreases hi - i
  {
    if i < hi {
      var first := if src[i] == UNDERSCORE && last then [Diag(InvalidDigitSeparator, i, i + 1)] else [];
      var rest := SeparatorDiags(src, i + 1, hi, src[i] == UNDERSCORE, true);
      SeparatorsInOrder(src, i + 1, hi, src[i] == UNDERSCORE, true);
      assert SeparatorDiags(src, i, hi, last, some) == first + rest;
      hide SeparatorDiags, InOrder;
      StepInOrder(first, rest, i, hi);
    }
  }

  lemma RunInOrder(src: seq<Byte>, lo: nat, radix: Radix)
    requires lo <= |src|
    ensures var r := DigitRun(src, lo, radix, false); OrderedIn(r.diags, lo, r.end)
  {
    var hi := RunEnd(src, lo, radix);
    var first := if At(src, lo) == UNDERSCORE then [Diag(InvalidDigitSeparator, lo, lo + 1)] else [];
    SeparatorsInOrder(src, lo, hi, false, false);
    hide SeparatorDiags;
    InOrderConcat(first, SeparatorDiags(src, lo, hi, false, false), lo);
  }

  /** The complaints of the three runs. */
  function PartDiags(src: seq<Byte>, start: nat, w: nat, f: nat): seq<Diag>
    requires start <= |src| && w <= |src| && f <= |src|
  {
    DigitRun(src, start, Decimal, false).diags + FracRun(src, w).diags + ExpRun(src, f).diags
  }

  lemma ScanDiags(src: seq<Byte>, start: nat, w: nat, f: nat, x: nat, end: nat, t: Tables)
    requires Parts(src, start, w, f, x, end) && start < |src| && IsDigit(Decimal, src[start])
    ensures start < w <= f <= x <= end <= |src|
    ensures var s := DecimalScan(src, start, t);
      s.diags == PartDiags(src, start, w, f) + if s.kind == Error(MalformedNumber) then [Diag(MalformedNumber, start, end)] else []
  {
    PartsAreRuns(src, start, w, f, x, end);
    if w < end { FloatDiags(src, start, w, f, end, t); } else { IntegerDiags(src, start, start, w); }
    hide DigitRun, FracRun, ExpRun, Parts, CleanParts, FloatScan, IntegerScan, AfterSign, IsExponentMark;
  }

  lemma FloatDiags(src: seq<Byte>, start: nat, w: nat, f: nat, end: nat, t: Tables)
    requires start <= w <= f <= end <= |src|
    ensures var s := FloatScan(src, start, w, f, end, t);
      s.diags == (if s.kind == Error(MalformedNumber) then [Diag(MalformedNumber, start, end)] else []) && s.kind != Error(InvalidDigitSeparator)
  {
    hide FloatText;
  }

  lemma IntegerDiags(src: seq<Byte>, start: nat, lo: nat, hi: nat)
    requires lo <= hi <= |src|
    ensures var s := IntegerScan(src, start, lo, hi, Decimal);
      s.diags == (if s.kind == Error(MalformedNumber) then [Diag(MalformedNumber, start, hi)] else []) && s.kind != Error(InvalidDigitSeparator)
  {
    hide Stripped, Number;
  }

  /** The parts of a decimal token complain about exactly the separators that are misplaced in their run, from left to
      right; a complaint about the whole token is the last. */
  lemma DecimalComplaints(src: seq<Byte>, start: nat, w: nat, f: nat, x: nat, end: nat, t: Tables) returns (ds: seq<Diag>)
    requires Parts(src, start, w, f, x, end) && start < |src| && IsDigit(Decimal, src[start])
    ensures start < w <= f <= x <= end <= |src|
    ensures var s := DecimalScan(src, start, t);
      s.diags == ds + if s.kind == Error(MalformedNumber) then [Diag(MalformedNumber, start, end)] else []
    ensures InOrder(ds) && SingleBytes(ds)
    ensures forall k: nat :: Complains(ds, k) <==>
              Misplaced(src, start, w, k) || (w < f && Misplaced(src, w + 1, f, k)) || (f < x && Misplaced(src, x, end, k))
  {
    ds := PartDiags(src, start, w, f);
    ScanDiags(src, start, w, f, x, end, t);
    PartsAreRuns(src, start, w, f, x, end);
    var a, b, c := DigitRun(src, start, Decimal, false).diags, FracRun(src, w).diags, ExpRun(src, f).diags;
    RunComplaints(src, start, Decimal);
    RunInOrder(src, start, Decimal);
    FractionComplaints(src, w, f);
    ExponentComplaints(src, f, x, end);
    hide DigitRun, FracRun, ExpRun, Parts, DecimalScan, Misplaced, Complains, SingleBytes, InOrder;
    ComplainsConcat(a, b);
    ComplainsConcat(a + b, c);
    InOrderConcat(a, b, w);
    InOrderConcat(a + b, c, f);
  }

  lemma FractionComplaints(src: seq<Byte>, w: nat, f: nat)
    requires w <= |src| && FracRun(src, w).end == f
    ensures w <= f <= |src|
    ensures var ds := FracRun(src, w).diags;
      && OrderedIn(ds, w, f) && SingleBytes(ds) && forall k: nat :: Complains(ds, k) <==> w < f && Misplaced(src, w + 1, f, k)
  {
    if At(src, w) == DOT && IsDigit(Decimal, At(src, w + 1)) {
      FractionThere(src, w);
    }
    hide DigitRun, Misplaced;
  }

  lemma FractionThere(src: seq<Byte>, w: nat)
    requires w < |src|
    ensures var r := DigitRun(src, w + 1, Decimal, false);
      && w < r.end <= |src| && OrderedIn(r.diags, w, r.end) && SingleBytes(r.diags)
      && forall k: nat :: Complains(r.diags, k) <==> Misplaced(src, w + 1, r.end, k)
  {
    RunComplaints(src, w + 1, Decimal);
    RunInOrder(src, w + 1, Decimal);
    hide DigitRun, Misplaced, Complains, SingleBytes, InOrder;
  }

  lemma ExponentComplaints(src: seq<Byte>, f: nat, x: nat, end: nat)
    requires f <= x <= end <= |src| && ExpRun(src, f).end == end
    requires (IsExponentMark(At(src, f)) <==> f < x) && (f < x ==> x == AfterSign(src, f + 1))
    ensures var ds := ExpRun(src, f).diags;
      && OrderedIn(ds, f, end) && SingleBytes(ds) && forall k: nat :: Complains(ds, k) <==> f < x && Misplaced(src, x, end, k)
  {
    if f < x {
      RunComplaints(src, x, Decimal);
      RunInOrder(src, x, Decimal);
    }
    hide DigitRun, AfterSign;
  }

  // ── Printed numbers ────────────────────────────────────────────────────

  /** The digit of value `d`, in either case. */
  function Glyph(d: nat, upper: bool): Byte
    requires d < 16
  {
    (if upper then "0123456789ABCDEF" else "0123456789abcdef")[d] as int
  }

  function Printed(v: nat, base: nat, upper: bool): seq<Byte>
    requires 2 <= base <= 16
  {
    if v < base then [Glyph(v, upper)] else Printed(v / base, base, upper) + [Glyph(v % base, upper)]
  }

  lemma GlyphIsDigit(d: nat, upper: bool, radix: Radix, base: nat)
    requires base == Based(radix) && d < base
    ensures IsDigit(radix, Glyph(d, upper)) && DigitValue(Glyph(d, upper)) == d && Base(radix) == base
    ensures Glyph(d, upper) != '_' as int
  {
  }

  function Based(radix: Radix): (base: nat)
    ensures 2 <= base <= 16
  {
    if radix == Decimal then 10 else if radix == Binary then 2 else 16
  }

  lemma NumberPush(d: seq<Byte>, c: Byte, radix: Radix)
    ensures Number(d + [c], radix) == Number(d, radix) * Base(radix) + DigitValue(c)
  {
    assert (d + [c])[..|d|] == d;
  }

  predicate AllDigits(d: seq<Byte>, radix: Radix) {
    forall k | 0 <= k < |d| :: IsDigit(radix, d[k])
  }

  lemma OneDigit(v: nat, radix: Radix, upper: bool)
    requires v < Based(radix)
    ensures Number([Glyph(v, upper)], radix) == v
  {
    GlyphIsDigit(v, upper, radix, Based(radix));
    assert [] + [Glyph(v, upper)] == [Glyph(v, upper)];
    NumberPush([], Glyph(v, upper), radix);
    assert Number([], radix) == 0;
    hide Number, Glyph, DigitValue;
  }

  lemma OneMoreDigit(first: seq<Byte>, d: nat, radix: Radix, upper: bool)
    requires d < Based(radix) && AllDigits(first, radix)
    ensures var all := first + [Glyph(d, upper)];
      AllDigits(all, radix) && Number(all, radix) == Number(first, radix) * Based(radix) + d
  {
    GlyphIsDigit(d, upper, radix, Based(radix));
    NumberPush(first, Glyph(d, upper), radix);
    hide Number, Glyph, DigitValue, Base, Based;
  }

  /** What is printed reads back. */
  lemma {:induction false} PrintedReads(v: nat, radix: Radix, upper: bool)
    ensures var d := Printed(v, Based(radix), upper);
      d != [] && AllDigits(d, radix) && Number(d, radix) == v
  {
    hide Number, Based, Glyph;
    var base := Based(radix);
    if v < base {
      OneDigit(v, radix, upper);
      GlyphIsDigit(v, upper, radix, base);
    } else {
      PrintedReads(v / base, radix, upper);
      Quotient(v, base);
      OneMoreDigit(Printed(v / base, base, upper), v % base, radix, upper);
    }
  }

  function Pow2(k: nat): nat {
    if k == 0 then 1 else 2 * Pow2(k - 1)
  }

  lemma EightMore(k: nat)
    ensures Pow2(k + 8) == 256 * Pow2(k)
  {
    assert Pow2(k + 2) == 4 * Pow2(k);
    assert Pow2(k + 4) == 4 * Pow2(k + 2);
    assert Pow2(k + 6) == 4 * Pow2(k + 4);
  }

  lemma SixtyFourBits()
    ensures Pow2(64) == 0x1_0000_0000_0000_0000
  {
    assert Pow2(0) == 1;
    EightMore(0);
    EightMore(8);
    EightMore(16);
    EightMore(24);
    EightMore(32);
    EightMore(40);
    EightMore(48);
    EightMore(56);
    hide Pow2;
  }

  lemma Quotient(v: nat, base: nat)
    requires 2 <= base
    ensures 0 <= v / base <= v / 2 && v == v / base * base + v % base
  {
    var q := v / base;
    assert q * 2 <= q * base <= v;
  }

  lemma {:induction false} PrintedLength(v: nat, base: nat, upper: bool, k: nat)
    requires 2 <= base <= 16 && k > 0 && v < Pow2(k)
    ensures |Printed(v, base, upper)| <= k
  {
    if v >= base {
      Quotient(v, base);
      assert Pow2(k) == 2 * Pow2(k - 1);
      assert k > 1;
      PrintedLength(v / base, base, upper, k - 1);
    }
  }

  lemma {:induction false} DigitsOnly(d: seq<Byte>, radix: Radix)
    requires AllDigits(d, radix)
    ensures DigitTail(d, radix) && Separated(d, radix) && Stripped(d) == d
  {
    if d != [] {
      DigitsOnly(d[1..], radix);
      assert d == [d[0]] + d[1..];
    }
  }

  /** A printed number is a literal of its value. */
  lemma PrintedIsLiteral(v: nat, radix: Radix, upper: bool)
    requires v < 0x1_0000_0000_0000_0000
    ensures LiteralOf(Printed(v, Based(radix), upper), radix, v)
  {
    PrintedReads(v, radix, upper);
    DigitsOnly(Printed(v, Based(radix), upper), radix);
    SixtyFourBits();
    PrintedLength(v, Based(radix), upper, 64);
    hide Printed, Number, Stripped, DigitTail;
  }

  lemma RunOfDigits(src: seq<Byte>, lo: nat, d: seq<Byte>, radix: Radix)
    requires lo + |d| <= |src| && src[lo..lo + |d|] == d && AllDigits(d, radix)
    requires !IsDigit(radix, At(src, lo + |d|)) && At(src, lo + |d|) != UNDERSCORE
    ensures RunEnd(src, lo, radix) == lo + |d|
  {
    var e, hi := RunEnd(src, lo, radix), lo + |d|;
    forall k | lo <= k < hi ensures IsDigit(radix, src[k]) { assert d[k - lo] == src[k]; }
    assert !(e < hi) && !(hi < e);
  }

  /** What would go on with the number. */
  predicate Continues(after: seq<Byte>, radix: Radix) {
    || IsDigit(radix, At(after, 0)) || At(after, 0) == '_' as int
    || (radix == Decimal && (At(after, 0) == 'e' as int || At(after, 0) == 'E' as int))
    || (radix == Decimal && At(after, 0) == '.' as int && '0' as int <= At(after, 1) <= '9' as int)
  }

  /** How a number is written: `$` before hexadecimal digits, `%` before binary ones. */
  function Written(v: nat, radix: Radix, upper: bool): seq<Byte> {
    (if radix == Hex then ['$' as int] else if radix == Binary then ['%' as int] else []) + Printed(v, Based(radix), upper)
  }

  /** Every number below 2^64, written in any base and either case, is one integer token of its value. */
  lemma PrintedScans(before: seq<Byte>, v: nat, after: seq<Byte>, radix: Radix, upper: bool, t: Tables)
    requires v < 0x1_0000_0000_0000_0000 && !Continues(after, radix)
    ensures var src, start := before + Written(v, radix, upper) + after, |before|;
      ScanOne(src, start, t).kind == IntLit(v) && ScanOne(src, start, t).end == start + |Written(v, radix, upper)|
  {
    var d, w := Printed(v, Based(radix), upper), Written(v, radix, upper);
    var src, start := before + w + after, |before|;
    var lo := start + |w| - |d|;
    PrintedReads(v, radix, upper);
    PrintedIsLiteral(v, radix, upper);
    hide Printed, LiteralOf, Number;
    assert src[lo..lo + |d|] == d;
    assert At(src, lo + |d|) == At(after, 0) && At(src, lo + |d| + 1) == At(after, 1);
    assert src[lo] == d[0] && src[start] == w[0];
    hide Written, ScanOne, Continues;
    if radix == Decimal {
      DecimalToken(src, start, d, t, v);
    } else {
      RadixToken(src, start, d, radix, t, v);
    }
  }

  lemma DecimalToken(src: seq<Byte>, start: nat, d: seq<Byte>, t: Tables, v: nat)
    requires start + |d| <= |src| && src[start..start + |d|] == d && d != [] && AllDigits(d, Decimal) && LiteralOf(d, Decimal, v)
    requires !Continues(src[start + |d|..], Decimal)
    ensures ScanOne(src, start, t).kind == IntLit(v) && ScanOne(src, start, t).end == start + |d|
  {
    hide LiteralOf, RunEnd, DecimalScan;
    var hi := start + |d|;
    assert src[start] == d[0] && At(src, hi) == At(src[hi..], 0) && At(src, hi + 1) == At(src[hi..], 1);
    RunOfDigits(src, start, d, Decimal);
    DecimalLiteral(src, start, t, v);
    FloatLiteral(src, start, hi, hi, hi, hi, t, v);
    hide RadixScan, SlashScan, BackslashScan, IdentScan, AngleScan, RawScan, PlainEnd, EscapedEnd, EatWhile, Terminator;
  }

  lemma RadixToken(src: seq<Byte>, start: nat, d: seq<Byte>, radix: Radix, t: Tables, v: nat)
    requires start + 1 + |d| <= |src| && src[start + 1..start + 1 + |d|] == d && d != [] && AllDigits(d, radix) && LiteralOf(d, radix, v)
    requires (radix == Hex && src[start] == DOLLAR) || (radix == Binary && src[start] == PERCENT)
    requires !Continues(src[start + 1 + |d|..], radix)
    ensures ScanOne(src, start, t).kind == IntLit(v) && ScanOne(src, start, t).end == start + 1 + |d|
  {
    hide LiteralOf, RunEnd, RadixScan;
    var hi := start + 1 + |d|;
    assert src[start + 1] == d[0] && At(src, hi) == At(src[hi..], 0);
    RunOfDigits(src, start + 1, d, radix);
    RadixLiteral(src, start, radix, v);
    RadixErrors(src, start, radix);
    hide DecimalScan, SlashScan, BackslashScan, IdentScan, AngleScan, RawScan, PlainEnd, EscapedEnd, EatWhile, Terminator;
  }
}
