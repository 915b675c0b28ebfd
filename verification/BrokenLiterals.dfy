/** Literals and comments that do not end: which error they are, how far it reaches, and what it is reported over. */
module BrokenLiterals {
  import opened Common
  import opened Utf8
  import opened SourceText
  import opened LexSpec
  import LexTheorems
  import opened StringValue
  import opened EscapeSpelling

  /** An error token with its one complaint over `start..upTo`. */
  function Broken(problem: Problem, start: nat, end: nat, upTo: nat): Scan {
    Scan(Error(problem), end, [Diag(problem, start, upTo)])
  }

  predicate LineEnd(b: int) {
    b == '\n' as int || b == '\r' as int
  }

  /** The mark that matches the opener at `start` ends at `e`. */
  ghost predicate ClosesAt(src: seq<Byte>, start: nat, e: nat) {
    LexTheorems.Matches(src, start + 2, 1, e)
  }

  /** A block comment ends behind the mark that matches its opener; without one, all of the text is the error. */
  lemma BlockCommentMatches(src: seq<Byte>, start: nat, t: Tables, e: nat)
    requires At(src, start) == '/' as int && At(src, start + 1) == '*' as int
    ensures ScanOne(src, start, t) == Scan(BlockComment, e, []) <==> ClosesAt(src, start, e)
    ensures (forall k: nat :: !ClosesAt(src, start, k)) ==>
              ScanOne(src, start, t) == Broken(UnterminatedBlockComment, start, |src|, |src|)
  {
    LexTheorems.BlockEndMatches(src, start + 2, 1, e);
    var end := BlockEnd(src, start + 2, 1);
    if end.Some? {
      LexTheorems.BlockEndMatches(src, start + 2, 1, end.value);
      assert ClosesAt(src, start, end.value);
    }
    hide LexTheorems.Matches, BlockEnd;
    IsBlock(src, start, t);
    hide ScanOne;
  }

  lemma IsBlock(src: seq<Byte>, start: nat, t: Tables)
    requires At(src, start) == SLASH && At(src, start + 1) == STAR
    ensures ScanOne(src, start, t) == BlockScan(src, start)
  {
    hide RawScan, PlainEnd, EscapedEnd, RadixScan, DecimalScan, IdentScan, BackslashScan, AngleScan, BlockScan, EatWhile, Terminator, NextChar, PeekChar;
  }

  /** A plain literal that meets a line end before a quote stops there; one that meets neither takes the rest. */
  lemma PlainBreaks(src: seq<Byte>, start: nat, t: Tables, q: nat)
    requires LexTheorems.Cursor(src, start) && start + 1 <= q <= |src| && src[start] == '"' as int
    requires forall k | start + 1 <= k < q :: src[k] != '"' as int && !LineEnd(src[k])
    requires q == |src| || LineEnd(src[q])
    ensures ScanOne(src, start, t) ==
            if q == |src| then Broken(UnterminatedString, start, q, q) else Broken(NewlineInString, start, q, q)
  {
    LexTheorems.AsciiRun(src, start, start + 1);
    if q < |src| { PlainEndsAtFirst(src, start + 1, q); } else { PlainRunsOut(src, start + 1); }
    hide RawScan, PlainEnd, EscapedEnd, RadixScan, DecimalScan, IdentScan, BackslashScan, SlashScan, AngleScan, EatWhile, Terminator, NextChar, PeekChar;
    hide LexTheorems.Cursor;
  }

  lemma {:induction false} PlainRunsOut(src: seq<Byte>, p: nat)
    requires p <= |src| && forall k | p <= k < |src| :: src[k] != QUOTE && !LineEnd(src[k])
    ensures PlainEnd(src, p) == AtEnd(|src|)
    decreases |src| - p
  {
    if p < |src| { PlainRunsOut(src, NextChar(src, p)); }
    hide NextChar;
  }

  /** An escaped literal that meets a line end, behind its text or behind a backslash, stops there; one that meets no
      closing quote takes the rest. */
  lemma EscapedBreaks(src: seq<Byte>, start: nat, ps: seq<Piece>, q: nat, t: Tables)
    requires At(src, start) == '$' as int && At(src, start + 1) == '"' as int
    requires AllSpellable(ps) && start + 2 + |WrittenOut(ps)| <= q <= |src|
    requires var p := start + 2 + |WrittenOut(ps)|;
      src[start + 2..p] == WrittenOut(ps) && (q == p || (q == p + 1 && src[p] == '\\' as int))
    requires q == |src| || LineEnd(src[q])
    ensures ScanOne(src, start, t) ==
            if q == |src| then Broken(UnterminatedString, start, q, q) else Broken(NewlineInString, start, q, q)
  {
    hide WrittenOut, ScanOne, EscapedEnd;
    PiecesScan(src, start + 2, ps);
    StopsAt(src, start + 2 + |WrittenOut(ps)|, q);
    IsEscaped(src, start, t);
  }

  lemma StopsAt(src: seq<Byte>, p: nat, q: nat)
    requires q <= |src| && (q == p || (q == p + 1 && src[p] == BACKSLASH)) && (q == |src| || LineEnd(src[q]))
    ensures EscapedEnd(src, p) == if q == |src| then AtEnd(q) else BeforeNewline(q)
  {
  }

  lemma IsEscaped(src: seq<Byte>, start: nat, t: Tables)
    requires start + 1 < |src| && src[start] == DOLLAR && src[start + 1] == QUOTE
    ensures ScanOne(src, start, t) == Quoted(start, EscapedEnd(src, start + 2), Escaped)
  {
    hide RawScan, PlainEnd, EscapedEnd, RadixScan, DecimalScan, IdentScan, BackslashScan, AngleScan, SlashScan, EatWhile, Terminator, NextChar, PeekChar;
  }

  /** A raw literal without three closing quotes takes the rest; its opener is what is reported. */
  lemma RawBreaks(src: seq<Byte>, start: nat, t: Tables)
    requires start < |src| && TripleQuote(src, start) && forall k: nat | k >= start + 3 :: !TripleQuote(src, k)
    ensures ScanOne(src, start, t) == Broken(UnterminatedString, start, |src|, start + 3)
  {
    RawRunsOut(src, start + 3);
    hide RawEnd, PlainEnd, EscapedEnd, RadixScan, DecimalScan, IdentScan, BackslashScan, SlashScan, AngleScan, EatWhile, Terminator, NextChar, PeekChar;
  }

  lemma {:induction false} RawRunsOut(src: seq<Byte>, p: nat)
    requires p <= |src| && forall k: nat | k >= p :: !TripleQuote(src, k)
    ensures RawEnd(src, p) == AtEnd(|src|)
    decreases |src| - p
  {
    hide TripleQuote;
    if p < |src| { RawRunsOut(src, NextChar(src, p)); }
    hide NextChar;
  }
}
