/** What holds of every step and every run of the lexer. */
module LexTheorems {
  import opened Common
  import opened Utf8
  import opened SourceText
  import opened LexSpec

  // ── Every step moves on, to a char boundary, and pairs errors with diagnostics ──

  /** Complaints lie inside the token. */
  predicate Inside(diags: seq<Diag>, lo: nat, hi: nat) {
    forall i | 0 <= i < |diags| :: lo <= diags[i].lo <= diags[i].hi <= hi
  }

  ghost predicate Good(src: seq<Byte>, start: nat, r: Scan) {
    && start < r.end && Boundary(src, r.end)
    && Inside(r.diags, start, r.end)
    && (r.kind.Error? <==> r.diags != [])
    && r.kind != Eof
  }

  ghost predicate Cursor(src: seq<Byte>, i: nat) {
    WellFormed(src) && Boundary(src, i)
  }

  lemma {:induction false} AsciiRun(src: seq<Byte>, i: nat, j: nat)
    requires Cursor(src, i) && i <= j <= |src| && forall k | i <= k < j :: src[k] < 0x80
    ensures Cursor(src, j)
    decreases j - i
  {
    if i < j {
      CharStep(src, i);
      hide WellFormed;
      AsciiRun(src, i + 1, j);
    }
  }

  lemma NextCursor(src: seq<Byte>, i: nat)
    requires Cursor(src, i)
    ensures Cursor(src, NextChar(src, i)) && NextChar(src, i) <= |src|
    ensures i < |src| ==> i < NextChar(src, i) && (src[i] < 0x80 ==> NextChar(src, i) == i + 1)
  {
    if i < |src| { CharStep(src, i); }
    hide WellFormed, NextChar;
  }

  lemma {:induction false} BlockEndGood(src: seq<Byte>, i: nat, depth: nat)
    requires Cursor(src, i)
    ensures BlockEnd(src, i, depth).Some? ==> i <= BlockEnd(src, i, depth).value && Cursor(src, BlockEnd(src, i, depth).value)
    decreases |src| - i
  {
    hide WellFormed, NextChar;
    if depth > 0 && i < |src| {
      if src[i] == SLASH && At(src, i + 1) == STAR {
        AsciiRun(src, i, i + 2);
        BlockEndGood(src, i + 2, depth + 1);
      } else if src[i] == STAR && At(src, i + 1) == SLASH {
        AsciiRun(src, i, i + 2);
        BlockEndGood(src, i + 2, depth - 1);
      } else {
        NextCursor(src, i);
        BlockEndGood(src, NextChar(src, i), depth);
      }
    }
  }

  // ── Nested comments close at the matching mark ─────────────────────────

  predicate Opens(src: seq<Byte>, i: nat) {
    At(src, i) == SLASH && At(src, i + 1) == STAR
  }

  predicate Closes(src: seq<Byte>, i: nat) {
    At(src, i) == STAR && At(src, i + 1) == SLASH
  }

  /** Past the mark or char at `i`; marks do not overlap. */
  function AfterMark(src: seq<Byte>, i: nat): (j: nat)
    ensures i < |src| ==> i < j <= |src|
  {
    if Opens(src, i) || Closes(src, i) then i + 2 else NextChar(src, i)
  }

  /** `j` lies on the scan from `i`, which steps over marks and chars whatever the depth. */
  predicate OnScan(src: seq<Byte>, i: nat, j: nat)
    decreases |src| - i
  {
    i == j || (i < |src| && OnScan(src, AfterMark(src, i), j))
  }

  /** Openers minus closers on the scan from `i` to `j`. */
  function Net(src: seq<Byte>, i: nat, j: nat): int
    decreases |src| - i
  {
    if i >= j || i >= |src| then 0
    else (if Opens(src, i) then 1 else if Closes(src, i) then -1 else 0) + Net(src, AfterMark(src, i), j)
  }

  /** At `e` the closers outnumber the openers by `depth`, for the first time. */
  ghost predicate Matches(src: seq<Byte>, i: nat, depth: nat, e: nat) {
    OnScan(src, i, e) && depth + Net(src, i, e) == 0 && forall k | i <= k < e && OnScan(src, i, k) :: depth + Net(src, i, k) > 0
  }

  lemma {:induction false} ScanMovesOn(src: seq<Byte>, i: nat, j: nat)
    requires OnScan(src, i, j)
    ensures i <= j
    decreases |src| - i
  {
    if i != j { ScanMovesOn(src, AfterMark(src, i), j); }
  }

  /** A block comment ends where the opener at its start is matched, and nowhere if it never is. */
  lemma {:induction false} BlockEndMatches(src: seq<Byte>, i: nat, depth: nat, e: nat)
    ensures BlockEnd(src, i, depth) == Some(e) <==> Matches(src, i, depth, e)
    decreases |src| - i
  {
    hide NextChar;
    if depth > 0 && i < |src| {
      var j := AfterMark(src, i);
      BlockEndMatches(src, j, if Opens(src, i) then depth + 1 else if Closes(src, i) then depth - 1 else depth, e);
      MatchesStep(src, i, depth, e);
    } else if OnScan(src, i, e) {
      ScanMovesOn(src, i, e);
      assert OnScan(src, i, i);
    } else {
      assert OnScan(src, i, i);
    }
  }

  lemma MatchesStep(src: seq<Byte>, i: nat, depth: nat, e: nat)
    requires 0 < depth && i < |src|
    ensures var d := if Opens(src, i) then depth + 1 else if Closes(src, i) then depth - 1 else depth;
      Matches(src, i, depth, e) <==> Matches(src, AfterMark(src, i), d, e)
  {
    var j := AfterMark(src, i);
    var d := if Opens(src, i) then depth + 1 else if Closes(src, i) then depth - 1 else depth;
    forall k: nat ensures OnScan(src, i, k) <==> k == i || OnScan(src, j, k) {
    }
    forall k: nat | OnScan(src, j, k) ensures k >= j && depth + Net(src, i, k) == d + Net(src, j, k) {
      ScanMovesOn(src, j, k);
    }
    hide OnScan, Net, AfterMark, Opens, Closes;
    if Matches(src, i, depth, e) {
      NetNone(src, i);
      assert forall k | j <= k < e && OnScan(src, j, k) :: OnScan(src, i, k);
    }
    if Matches(src, j, d, e) {
      NetNone(src, i);
      assert forall k | i <= k < e && OnScan(src, i, k) :: k == i || OnScan(src, j, k);
    }
  }

  lemma NetNone(src: seq<Byte>, i: nat)
    ensures Net(src, i, i) == 0
  {
  }

  lemma {:induction false} PlainEndGood(src: seq<Byte>, i: nat)
    requires Cursor(src, i)
    ensures i <= PlainEnd(src, i).end && Cursor(src, PlainEnd(src, i).end)
    decreases |src| - i
  {
    hide WellFormed, NextChar;
    if i < |src| {
      NextCursor(src, i);
      if src[i] != QUOTE && !IsLineEnd(src[i]) { PlainEndGood(src, NextChar(src, i)); }
    }
  }

  lemma {:induction false} EscapedEndGood(src: seq<Byte>, i: nat)
    requires Cursor(src, i)
    ensures i <= EscapedEnd(src, i).end && Cursor(src, EscapedEnd(src, i).end)
    decreases |src| - i
  {
    hide WellFormed, NextChar;
    if i < |src| {
      NextCursor(src, i);
      if src[i] == BACKSLASH {
        if !IsLineEnd(At(src, i + 1)) {
          NextCursor(src, i + 1);
          EscapedEndGood(src, NextChar(src, i + 1));
        }
      } else if src[i] != QUOTE && !IsLineEnd(src[i]) {
        EscapedEndGood(src, NextChar(src, i));
      }
    }
  }

  lemma {:induction false} RawEndGood(src: seq<Byte>, i: nat)
    requires Cursor(src, i)
    ensures i <= RawEnd(src, i).end && Cursor(src, RawEnd(src, i).end)
    decreases |src| - i
  {
    hide WellFormed, NextChar;
    if TripleQuote(src, i) {
      AsciiRun(src, i, i + 3);
    } else if i < |src| {
      NextCursor(src, i);
      RawEndGood(src, NextChar(src, i));
    }
  }

  lemma {:induction false} IdentEndGood(src: seq<Byte>, i: nat, t: Tables)
    requires Cursor(src, i)
    ensures i <= IdentEnd(src, i, t) && Cursor(src, IdentEnd(src, i, t))
    decreases |src| - i
  {
    hide WellFormed, NextChar, PeekChar;
    var c := PeekChar(src, i);
    if c.Some? && (c.value == UNDERSCORE || t.xidContinue(c.value)) && i < |src| {
      NextCursor(src, i);
      IdentEndGood(src, NextChar(src, i), t);
    }
    NothingPastEnd(src, i);
  }

  lemma NothingPastEnd(src: seq<Byte>, i: nat)
    ensures i >= |src| ==> PeekChar(src, i).None?
  {
  }

  /** Separator complaints lie inside the run. */
  lemma {:induction false} SeparatorsInside(src: seq<Byte>, lo: nat, i: nat, hi: nat, last: bool, some: bool)
    requires lo <= i <= hi <= |src| && (some ==> lo < i)
    ensures Inside(SeparatorDiags(src, i, hi, last, some), lo, hi)
    decreases hi - i
  {
    if i < hi {
      if src[i] != UNDERSCORE { SeparatorsInside(src, lo, i + 1, hi, false, true); }
      else { SeparatorsInside(src, lo, i + 1, hi, true, true); }
    }
  }

  lemma DigitRunGood(src: seq<Byte>, i: nat, radix: Radix, suppress: bool)
    requires Cursor(src, i)
    ensures var r := DigitRun(src, i, radix, suppress);
      && i <= r.end && Cursor(src, r.end) && Inside(r.diags, i, r.end)
      && (i < r.end <==> IsDigit(radix, At(src, i)) || At(src, i) == UNDERSCORE)
      && (r.bad <==> suppress || r.diags != [])
  {
    AsciiRun(src, i, RunEnd(src, i, radix));
    SeparatorsInside(src, i, i, RunEnd(src, i, radix), suppress, false);
    hide WellFormed, SeparatorDiags;
  }

  lemma InsideConcat(a: seq<Diag>, b: seq<Diag>, lo: nat, mid: nat, hi: nat)
    requires Inside(a, lo, mid) && (Inside(b, mid, hi) || Inside(b, lo, hi)) && lo <= mid <= hi
    ensures Inside(a + b, lo, hi)
  {
  }

  lemma DecimalGood(src: seq<Byte>, start: nat, t: Tables)
    requires Cursor(src, start) && start < |src| && IsDigit(Decimal, src[start])
    ensures Good(src, start, DecimalScan(src, start, t))
  {
    hide DigitRun, FloatScan, WellFormed, FracRun, ExpRun, IntegerScan, AfterSign, Inside, Malformed;
    DigitRunGood(src, start, Decimal, false);
    var whole := DigitRun(src, start, Decimal, false);
    FracGood(src, whole.end);
    var frac := FracRun(src, whole.end);
    ExponentGood(src, frac.end);
    var exp := ExpRun(src, frac.end);
    InsideConcat(whole.diags, frac.diags, start, whole.end, frac.end);
    InsideConcat(whole.diags + frac.diags, exp.diags, start, frac.end, exp.end);
    MalformedGood(start, exp.end, whole.diags + frac.diags + exp.diags);
    FloatGood(src, start, whole.end, frac.end, exp.end, t);
    IntegerGood(src, start, start, whole.end, Decimal);
  }

  lemma MalformedGood(lo: nat, hi: nat, before: seq<Diag>)
    requires lo <= hi && Inside(before, lo, hi)
    ensures var r := Malformed(lo, hi, before);
      r.end == hi && Inside(r.diags, lo, hi) && r.kind == Error(MalformedNumber) && r.diags != []
  {
  }

  lemma FracGood(src: seq<Byte>, i: nat)
    requires Cursor(src, i)
    ensures var r := FracRun(src, i); i <= r.end && Cursor(src, r.end) && Inside(r.diags, i, r.end) && (r.bad <==> r.diags != [])
  {
    hide DigitRun, WellFormed;
    if At(src, i) == DOT && IsDigit(Decimal, At(src, i + 1)) {
      AsciiRun(src, i, i + 1);
      DigitRunGood(src, i + 1, Decimal, false);
    }
  }

  lemma ExponentGood(src: seq<Byte>, i: nat)
    requires Cursor(src, i)
    ensures var r := ExpRun(src, i); i <= r.end && Cursor(src, r.end) && Inside(r.diags, i, r.end) && (r.bad <==> r.diags != [])
  {
    hide DigitRun, WellFormed;
    if IsExponentMark(At(src, i)) {
      AsciiRun(src, i, AfterSign(src, i + 1));
      DigitRunGood(src, AfterSign(src, i + 1), Decimal, false);
    }
  }

  lemma FloatGood(src: seq<Byte>, start: nat, intEnd: nat, fracEnd: nat, end: nat, t: Tables)
    requires start <= intEnd <= fracEnd <= end <= |src|
    ensures var r := FloatScan(src, start, intEnd, fracEnd, end, t);
      r.end == end && r.kind != Eof && Inside(r.diags, start, end) && (r.kind.Error? <==> r.diags != [])
  {
    hide FloatText;
  }

  lemma IntegerGood(src: seq<Byte>, start: nat, lo: nat, hi: nat, radix: Radix)
    requires start <= lo <= hi <= |src|
    ensures var r := IntegerScan(src, start, lo, hi, radix);
      r.end == hi && r.kind != Eof && Inside(r.diags, start, hi) && (r.kind.Error? <==> r.diags != [])
  {
    hide Number, Stripped;
  }

  lemma RadixGood(src: seq<Byte>, start: nat, radix: Radix)
    requires Cursor(src, start) && start < |src| && src[start] < 0x80
    ensures Good(src, start, RadixScan(src, start, radix))
  {
    hide DigitRun, WellFormed;
    AsciiRun(src, start, start + 1);
    var b := At(src, start + 1);
    if IsDigit(radix, b) {
      DigitRunGood(src, start + 1, radix, false);
      IntegerGood(src, start, start + 1, DigitRun(src, start + 1, radix, false).end, radix);
    } else if b == UNDERSCORE {
      AsciiRun(src, start + 1, start + 2);
      DigitRunGood(src, start + 2, radix, true);
    }
    hide IntegerScan;
  }

  lemma IdentGood(src: seq<Byte>, start: nat, t: Tables)
    requires Cursor(src, start) && start < |src|
    ensures Good(src, start, IdentScan(src, start, t))
  {
    hide WellFormed, NextChar, IdentEnd;
    NextCursor(src, start);
    IdentEndGood(src, NextChar(src, start), t);
    var e := IdentEnd(src, NextChar(src, start), t);
    if SigilAt(At(src, e)).Some? { AsciiRun(src, e, e + 1); }
  }

  lemma TerminatorGood(src: seq<Byte>, i: nat)
    requires Cursor(src, i) && IsLineEnd(At(src, i))
    ensures i < Terminator(src, i) && Cursor(src, Terminator(src, i))
  {
    hide WellFormed;
    AsciiRun(src, i, Terminator(src, i));
  }

  lemma QuotedGood(src: seq<Byte>, start: nat, c: Closing, kind: StrKind)
    requires Cursor(src, c.end) && start < c.end
    ensures Good(src, start, Quoted(start, c, kind))
  {
  }

  lemma StringGood(src: seq<Byte>, start: nat)
    requires Cursor(src, start) && start < |src| && src[start] == QUOTE
    ensures Good(src, start, if TripleQuote(src, start) then RawScan(src, start) else Quoted(start, PlainEnd(src, start + 1), Plain))
  {
    hide WellFormed, RawEnd, PlainEnd;
    if TripleQuote(src, start) {
      AsciiRun(src, start, start + 3);
      RawEndGood(src, start + 3);
    } else {
      AsciiRun(src, start, start + 1);
      PlainEndGood(src, start + 1);
    }
  }

  lemma SlashGood(src: seq<Byte>, start: nat)
    requires Cursor(src, start) && start < |src| && src[start] == SLASH
    ensures Good(src, start, SlashScan(src, start))
  {
    hide WellFormed, BlockEnd;
    AsciiRun(src, start, start + 1);
    if At(src, start + 1) == STAR {
      AsciiRun(src, start + 1, start + 2);
      BlockEndGood(src, start + 2, 1);
    }
  }

  lemma BackslashGood(src: seq<Byte>, start: nat)
    requires Cursor(src, start) && start < |src| && src[start] == BACKSLASH
    ensures Good(src, start, BackslashScan(src, start))
  {
    hide WellFormed, Terminator;
    var e := EatWhile(src, start + 1, IsBlank);
    AsciiRun(src, start, start + 1);
    AsciiRun(src, start, e);
    if IsLineEnd(At(src, e)) { TerminatorGood(src, e); }
  }

  lemma OtherGood(src: seq<Byte>, start: nat, t: Tables)
    requires Cursor(src, start) && start < |src|
    requires var b := src[start]; b !in [BACKSLASH, SLASH, QUOTE, DOLLAR, PERCENT] && !IsDigit(Decimal, b)
    ensures Good(src, start, ScanOne(src, start, t))
  {
    hide WellFormed, NextChar, PeekChar, Terminator, IdentScan, RadixScan, DecimalScan, SlashScan, BackslashScan, RawScan, PlainEnd, EscapedEnd;
    var b := src[start];
    NextCursor(src, start);
    if b < 0x80 { AsciiRun(src, start, start + 1); }
    if IsBlank(b) {
      AsciiRun(src, start, EatWhile(src, start, IsBlank));
    } else if IsLineEnd(b) {
      TerminatorGood(src, start);
    } else if b == UNDERSCORE || IsAsciiLetter(b) || b >= 0x80 {
      IdentGood(src, start, t);
    } else if b == 0x3C || b == 0x3E {
      if At(src, start + 1) == 0x3D || At(src, start + 1) == 0x3E { AsciiRun(src, start, start + 2); }
    }
  }

  /** Every step ends behind its start, on a char boundary; its complaints lie inside the token; and it
      yields an error token exactly when it complains. */
  lemma ScanGood(src: seq<Byte>, start: nat, t: Tables)
    requires Cursor(src, start) && start < |src|
    ensures Good(src, start, ScanOne(src, start, t))
  {
    hide Good, WellFormed, PlainEnd, EscapedEnd, RawScan, RadixScan, DecimalScan, SlashScan, BackslashScan, IdentScan, AngleScan;
    var b := src[start];
    if b == BACKSLASH {
      BackslashGood(src, start);
    } else if b == SLASH {
      SlashGood(src, start);
    } else if b == QUOTE {
      StringGood(src, start);
    } else if b == DOLLAR && At(src, start + 1) == QUOTE {
      AsciiRun(src, start, start + 2);
      EscapedEndGood(src, start + 2);
      QuotedGood(src, start, EscapedEnd(src, start + 2), Escaped);
    } else if b == DOLLAR {
      RadixGood(src, start, Hex);
    } else if b == PERCENT {
      RadixGood(src, start, Binary);
    } else if IsDigit(Decimal, b) {
      DecimalGood(src, start, t);
    } else {
      OtherGood(src, start, t);
    }
  }

  // ── Whole runs ─────────────────────────────────────────────────────────

  /** The bytes of U+FEFF. */
  const BOM: seq<Byte> := [0xEF, 0xBB, 0xBF]

  function AfterBom(src: seq<Byte>): nat {
    if BOM <= src then 3 else 0
  }

  lemma BomIsCursor(src: seq<Byte>)
    requires WellFormed(src)
    ensures Cursor(src, 0) && Cursor(src, AfterBom(src))
    ensures AfterBom(src) == if src != [] && Decode(src)[0] == 0xFEFF then 3 else 0
  {
    assert Cursor(src, 0) by {
      EncodeDecode(src);
      var cs := Decode(src);
      if cs != [] { LeadsOfEncodeUtf8(cs[0]); }
      hide EncodeUtf8;
    }
    if BOM <= src {
      assert src[0] == BOM[0] && src[1] == BOM[1] && src[2] == BOM[2];
      CharStep(src, 0);
      assert src[0..3] == BOM;
      hide WellFormed;
    }
  }

  /** Every token from `pos` on, trivia included. */
  ghost function AllTokens(src: seq<Byte>, pos: nat, t: Tables): seq<Token>
    requires Cursor(src, pos)
    decreases |src| - pos
  {
    if pos == |src| then []
    else
      ScanGood(src, pos, t);
      var r := ScanOne(src, pos, t);
      [Token(r.kind, pos, r.end)] + AllTokens(src, r.end, t)
  }

  ghost function AllDiags(src: seq<Byte>, pos: nat, t: Tables): seq<Diag>
    requires Cursor(src, pos)
    decreases |src| - pos
  {
    if pos == |src| then []
    else
      ScanGood(src, pos, t);
      var r := ScanOne(src, pos, t);
      r.diags + AllDiags(src, r.end, t)
  }

  predicate IsTrivia(kind: Kind) {
    kind.Whitespace? || kind.LineComment? || kind.BlockComment? || kind.Continuation?
  }

  function Significant(tokens: seq<Token>): seq<Token> {
    if tokens == [] then []
    else (if IsTrivia(tokens[0].kind) then [] else [tokens[0]]) + Significant(tokens[1..])
  }

  /** Dropping trivia drops the blanks, comments and continuations, and nothing else. */
  lemma {:induction false} SignificantKeeps(tokens: seq<Token>, x: Token)
    ensures x in Significant(tokens) <==>
            && x in tokens && x.kind != Whitespace && x.kind != LineComment && x.kind != BlockComment && x.kind != Continuation
  {
    if tokens != [] { SignificantKeeps(tokens[1..], x); }
  }

  /** Neighbouring, non-empty spans from `lo` to `hi`. */
  predicate Tiles(tokens: seq<Token>, lo: nat, hi: nat) {
    if tokens == [] then lo == hi
    else tokens[0].lo == lo && lo < tokens[0].hi <= hi && Tiles(tokens[1..], tokens[0].hi, hi)
  }

  /** The text of the tokens, one after the other. */
  function Lexemes(src: seq<Byte>, tokens: seq<Token>): seq<Byte>
    requires forall i | 0 <= i < |tokens| :: tokens[i].lo <= tokens[i].hi <= |src|
  {
    if tokens == [] then [] else src[tokens[0].lo..tokens[0].hi] + Lexemes(src, tokens[1..])
  }

  /** Lossless: the spans tile the text from `pos` to its end, on char boundaries. */
  lemma {:induction false} TokensTile(src: seq<Byte>, pos: nat, t: Tables)
    requires Cursor(src, pos)
    ensures var ts := AllTokens(src, pos, t);
      && Tiles(ts, pos, |src|)
      && (forall i | 0 <= i < |ts| :: ts[i].lo < ts[i].hi && Boundary(src, ts[i].lo) && Boundary(src, ts[i].hi) && ts[i].hi <= |src|)
      && Lexemes(src, ts) == src[pos..]
    decreases |src| - pos
  {
    if pos < |src| {
      ScanGood(src, pos, t);
      var r := ScanOne(src, pos, t);
      TokensTile(src, r.end, t);
      var rest := AllTokens(src, r.end, t);
      assert ([Token(r.kind, pos, r.end)] + rest)[1..] == rest;
      assert src[pos..] == src[pos..r.end] + src[r.end..];
    }
    hide ScanOne, WellFormed;
  }

  predicate AllBefore(ds: seq<Diag>, p: nat) {
    forall i | 0 <= i < |ds| :: ds[i].hi <= p
  }

  predicate AllFrom(ds: seq<Diag>, p: nat) {
    forall i | 0 <= i < |ds| :: p <= ds[i].lo
  }

  lemma {:induction false} DiagsFrom(src: seq<Byte>, pos: nat, t: Tables)
    requires Cursor(src, pos)
    ensures AllFrom(AllDiags(src, pos, t), pos)
    decreases |src| - pos
  {
    if pos < |src| {
      ScanGood(src, pos, t);
      DiagsFrom(src, ScanOne(src, pos, t).end, t);
    }
    hide ScanOne, WellFormed;
  }

  /** The complaints of the k-th token stand together in the report, behind complaints about the text before the token
      only, and before complaints about the text behind it only. */
  lemma {:induction false} DiagsInTokenOrder(src: seq<Byte>, pos: nat, t: Tables, k: nat) returns (before: seq<Diag>, after: seq<Diag>)
    requires Cursor(src, pos) && k < |AllTokens(src, pos, t)|
    ensures var token := AllTokens(src, pos, t)[k];
      && Cursor(src, token.lo) && token.lo < |src|
      && AllDiags(src, pos, t) == before + ScanOne(src, token.lo, t).diags + after
      && AllBefore(before, token.lo) && AllFrom(after, token.hi)
    decreases k
  {
    hide ScanOne, WellFormed;
    ScanGood(src, pos, t);
    var r := ScanOne(src, pos, t);
    if k == 0 {
      before, after := [], AllDiags(src, r.end, t);
      DiagsFrom(src, r.end, t);
      assert [] + r.diags + after == r.diags + after;
    } else {
      assert AllTokens(src, pos, t)[k] == AllTokens(src, r.end, t)[k - 1];
      before, after := DiagsInTokenOrder(src, r.end, t, k - 1);
      var token := AllTokens(src, r.end, t)[k - 1];
      TokenBehind(src, r.end, t, k - 1);
      var own := ScanOne(src, token.lo, t).diags;
      Regroup(r.diags, before, own);
      Regroup(r.diags, before + own, after);
      before := r.diags + before;
    }
  }

  lemma {:induction false} TokenBehind(src: seq<Byte>, pos: nat, t: Tables, k: nat)
    requires Cursor(src, pos) && k < |AllTokens(src, pos, t)|
    ensures pos <= AllTokens(src, pos, t)[k].lo
    decreases k
  {
    hide ScanOne, WellFormed;
    ScanGood(src, pos, t);
    if k > 0 {
      var end := ScanOne(src, pos, t).end;
      assert AllTokens(src, pos, t)[k] == AllTokens(src, end, t)[k - 1];
      TokenBehind(src, end, t, k - 1);
    }
  }
}
