/** Which text each kind of token is: operators and punctuation by their spelling, line ends, blanks, comments and
    names by their form. */
module LexGrammar {
  import opened Common
  import opened Utf8
  import opened SourceText
  import opened LexSpec
  import opened EscapeSpelling

  // ── By the first byte ──────────────────────────────────────────────────

  /** A token of fixed form. */
  predicate Fixed(k: Kind) {
    k.Whitespace? || k.Newline? || k.Continuation? || k.OpToken? || k.PunctToken?
  }

  lemma OthersNotFixed(src: seq<Byte>, start: nat, t: Tables)
    requires start < |src|
    ensures !Fixed(RawScan(src, start).kind) && !Fixed(RadixScan(src, start, Hex).kind) && !Fixed(RadixScan(src, start, Binary).kind)
    ensures !Fixed(DecimalScan(src, start, t).kind) && !Fixed(IdentScan(src, start, t).kind) && !Fixed(BlockScan(src, start).kind)
  {
    hide DigitRun, FracRun, ExpRun, FloatText, BlockEnd, RawEnd, IdentEnd, EatWhile, NextChar, PeekChar, Terminator, Number, Stripped;
  }

  /** The bytes that start a token of fixed form. */
  predicate Opens(b: Byte) {
    IsBlank(b) || IsLineEnd(b) || b == BACKSLASH || b == SLASH || b == '<' as int || b == '>' as int || SingleByte(b).Some?
  }

  lemma OthersStart(src: seq<Byte>, start: nat, t: Tables)
    requires start < |src| && !Opens(src[start])
    ensures !Fixed(ScanOne(src, start, t).kind)
  {
    hide Fixed, Quoted, RawScan, PlainEnd, EscapedEnd, RadixScan, DecimalScan, IdentScan, BackslashScan, SlashScan, AngleScan, Unexpected;
    hide EatWhile, Terminator, NextChar, PeekChar, TripleQuote, SingleByte, IsAsciiLetter, IsBlank, IsLineEnd, IsDigit, At;
    OthersNotFixed(src, start, t);
    NotFixed(start, NextChar(src, start), PlainEnd(src, start + 1), EscapedEnd(src, start + 2));
  }

  lemma NotFixed(start: nat, end: nat, c: Closing, d: Closing)
    ensures !Fixed(LineComment) && !Fixed(Unexpected(start, end).kind)
    ensures !Fixed(Quoted(start, c, Plain).kind) && !Fixed(Quoted(start, d, Escaped).kind)
  {
  }

  /** The first byte decides which tokens of fixed form there can be. */
  lemma Dispatch(src: seq<Byte>, start: nat, t: Tables)
    requires start < |src| && Opens(src[start])
    ensures var s, b := ScanOne(src, start, t), src[start];
      if IsBlank(b) then s == Scan(Whitespace, EatWhile(src, start, IsBlank), [])
      else if IsLineEnd(b) then s == Scan(Newline, Terminator(src, start), [])
      else if b == BACKSLASH then s == BackslashScan(src, start)
      else if b == SLASH then s == SlashScan(src, start)
      else if b == '<' as int || b == '>' as int then s == AngleScan(src, start)
      else SingleByte(b).Some? && s == Scan(SingleByte(b).value, start + 1, [])
  {
    hide RawScan, PlainEnd, EscapedEnd, RadixScan, DecimalScan, IdentScan, BackslashScan, SlashScan, AngleScan, EatWhile, Terminator, NextChar, PeekChar;
  }

  // ── Operators and punctuation ──────────────────────────────────────────

  function OpText(op: Op): (s: string)
    ensures 1 <= |s| <= 2
  {
    match op
    case Plus => "+"
    case Minus => "-"
    case Star => "*"
    case Slash => "/"
    case Caret => "^"
    case Eq => "="
    case Lt => "<"
    case LtEq => "<="
    case Gt => ">"
    case GtEq => ">="
    case NotEq => "<>"
    case BackSlash => "\\"
  }

  function PunctText(p: Punct): (s: string)
    ensures |s| == 1
  {
    match p
    case LParen => "("
    case RParen => ")"
    case LBracket => "["
    case RBracket => "]"
    case Comma => ","
    case Colon => ":"
    case Semicolon => ";"
    case Dot => "."
  }

  /** The text, one or two characters, stands at `i`. */
  predicate Stands(src: seq<Byte>, i: nat, text: string)
    requires 1 <= |text| <= 2
  {
    At(src, i) == text[0] as int && (|text| == 2 ==> At(src, i + 1) == text[1] as int)
  }

  /** A line end behind nothing but blanks. */
  predicate OnlyBlanksFollow(src: seq<Byte>, i: nat) {
    exists e :: i <= e < |src| && (src[e] == '\n' as int || src[e] == '\r' as int) && BlankRun(src, i, e)
  }

  predicate BlankRun(src: seq<Byte>, lo: nat, hi: nat)
    requires hi <= |src|
  {
    forall k | lo <= k < hi :: src[k] == ' ' as int || src[k] == '\t' as int
  }

  /** What stands behind the operator makes it part of a longer token, or of a comment. */
  predicate Swallowed(src: seq<Byte>, i: nat, op: Op) {
    match op
    case Lt => Stands(src, i, "=") || Stands(src, i, ">")
    case Gt => Stands(src, i, "=")
    case Slash => Stands(src, i, "/") || Stands(src, i, "*")
    case BackSlash => OnlyBlanksFollow(src, i)
    case _ => false
  }

  /** A token is an operator exactly where its text stands and no longer token does. */
  lemma OpIsItsText(src: seq<Byte>, start: nat, t: Tables, op: Op)
    requires start < |src|
    ensures var s := ScanOne(src, start, t);
      && (s.kind == OpToken(op) <==> Stands(src, start, OpText(op)) && !Swallowed(src, start + |OpText(op)|, op))
      && (s.kind == OpToken(op) ==> s.end == start + |OpText(op)| && s.diags == [])
  {
    hide ScanOne, EatWhile, Terminator, BlockScan, OnlyBlanksFollow, BackslashScan, SlashScan, AngleScan, SingleByte, Swallowed, OpText, Stands;
    var b := src[start];
    FirstOfOp(src, start, op);
    if Opens(b) { Dispatch(src, start, t); } else { OthersStart(src, start, t); }
    if b == BACKSLASH || b == SLASH {
      SlashOp(src, start, op);
    } else if b == '<' as int || b == '>' as int {
      AngleOp(src, start, op);
    } else if !IsBlank(b) && !IsLineEnd(b) {
      SingleOp(src, start, op);
    }
  }

  lemma FirstOfOp(src: seq<Byte>, start: nat, op: Op)
    requires start < |src|
    ensures Stands(src, start, OpText(op)) ==> Opens(src[start]) && !IsBlank(src[start]) && !IsLineEnd(src[start])
  {
  }

  lemma SlashOp(src: seq<Byte>, start: nat, op: Op)
    requires start < |src| && (src[start] == BACKSLASH || src[start] == SLASH)
    ensures var s := if src[start] == SLASH then SlashScan(src, start) else BackslashScan(src, start);
      && (s.kind == OpToken(op) <==> Stands(src, start, OpText(op)) && !Swallowed(src, start + |OpText(op)|, op))
      && (s.kind == OpToken(op) ==> s.end == start + |OpText(op)| && s.diags == [])
  {
    hide EatWhile, Terminator, BlockEnd, OnlyBlanksFollow, BackslashScan;
    if src[start] == BACKSLASH { BackslashIs(src, start); }
  }

  lemma AngleOp(src: seq<Byte>, start: nat, op: Op)
    requires start < |src| && (src[start] == '<' as int || src[start] == '>' as int)
    ensures var s := AngleScan(src, start);
      && (s.kind == OpToken(op) <==> Stands(src, start, OpText(op)) && !Swallowed(src, start + |OpText(op)|, op))
      && (s.kind == OpToken(op) ==> s.end == start + |OpText(op)| && s.diags == [])
  {
    hide OnlyBlanksFollow;
  }

  lemma SingleOp(src: seq<Byte>, start: nat, op: Op)
    requires start < |src|
    requires var b := src[start]; b != BACKSLASH && b != SLASH && b != '<' as int && b != '>' as int
    ensures SingleByte(src[start]) == Some(OpToken(op)) <==> Stands(src, start, OpText(op)) && !Swallowed(src, start + |OpText(op)|, op)
    ensures Stands(src, start, OpText(op)) ==> |OpText(op)| == 1
  {
    hide OnlyBlanksFollow;
  }

  /** Punctuation is its character, whatever follows. */
  lemma PunctIsItsText(src: seq<Byte>, start: nat, t: Tables, p: Punct)
    requires start < |src|
    ensures var s := ScanOne(src, start, t);
      && (s.kind == PunctToken(p) <==> Stands(src, start, PunctText(p)))
      && (s.kind == PunctToken(p) ==> s.end == start + 1 && s.diags == [])
  {
    hide ScanOne, EatWhile, Terminator, BlockScan, OnlyBlanksFollow, BackslashScan, SlashScan, AngleScan, SingleByte, PunctText;
    var b := src[start];
    SinglePunct(b, p);
    if Opens(b) { Dispatch(src, start, t); } else { OthersStart(src, start, t); }
    OpsNotPunct(src, start, p);
  }

  lemma SinglePunct(b: Byte, p: Punct)
    ensures SingleByte(b) == Some(PunctToken(p)) <==> b == PunctText(p)[0] as int
    ensures b == PunctText(p)[0] as int ==> Opens(b) && !IsBlank(b) && !IsLineEnd(b) && b != BACKSLASH && b != SLASH && b != '<' as int && b != '>' as int
  {
  }

  lemma OpsNotPunct(src: seq<Byte>, start: nat, p: Punct)
    requires start < |src|
    ensures BackslashScan(src, start).kind != PunctToken(p)
    ensures SlashScan(src, start).kind != PunctToken(p) && AngleScan(src, start).kind != PunctToken(p)
  {
    hide EatWhile, Terminator, BlockEnd;
  }

  /** A backslash before blanks and a line end is a continuation up to behind the line end; any other is the
      operator. */
  lemma BackslashIs(src: seq<Byte>, start: nat)
    requires start < |src|
    ensures var s, e := BackslashScan(src, start), EatWhile(src, start + 1, IsBlank);
      && (OnlyBlanksFollow(src, start + 1) <==> IsLineEnd(At(src, e)))
      && s.diags == []
      && if OnlyBlanksFollow(src, start + 1) then s.kind == Continuation && BlankRun(src, start + 1, e) && s.end == Terminator(src, e)
         else s.kind == OpToken(BackSlash) && s.end == start + 1
  {
    var e := EatWhile(src, start + 1, IsBlank);
    if OnlyBlanksFollow(src, start + 1) {
      var f :| start + 1 <= f < |src| && IsLineEnd(src[f]) && BlankRun(src, start + 1, f);
      SameRun(src, start + 1, e, f);
    }
    if IsLineEnd(At(src, e)) { assert BlankRun(src, start + 1, e); }
    hide EatWhile, Terminator;
  }

  lemma SameRun(src: seq<Byte>, lo: nat, e: nat, f: nat)
    requires lo <= e <= |src| && lo <= f < |src| && BlankRun(src, lo, e) && BlankRun(src, lo, f)
    requires IsLineEnd(src[f]) && (e < |src| ==> !IsBlank(src[e]))
    ensures e == f
  {
  }

  // ── Line ends, blanks, continuations ───────────────────────────────────

  /** `\r\n`, `\r` or `\n`, the longest that stands there. */
  lemma NewlineIsItsText(src: seq<Byte>, start: nat, t: Tables)
    requires start < |src|
    ensures var s := ScanOne(src, start, t);
      && (s.kind == Newline <==> Stands(src, start, "\r") || Stands(src, start, "\n"))
      && (s.kind == Newline ==> s.diags == [] && s.end == start + if Stands(src, start, "\r\n") then 2 else 1)
  {
    hide ScanOne, EatWhile, BlockScan, OnlyBlanksFollow, BackslashScan;
    if Opens(src[start]) { Dispatch(src, start, t); } else { OthersStart(src, start, t); }
    if src[start] == BACKSLASH { BackslashIs(src, start); }
    if src[start] == SLASH { OthersNotFixed(src, start, t); }
  }

  /** White space is a blank and all blanks behind it. */
  lemma BlanksAreWhitespace(src: seq<Byte>, start: nat, t: Tables)
    requires start < |src|
    ensures var s := ScanOne(src, start, t);
      && (s.kind == Whitespace <==> src[start] == ' ' as int || src[start] == '\t' as int)
      && (s.kind == Whitespace ==> start < s.end <= |src| && BlankRun(src, start, s.end) && s.diags == []
                                   && At(src, s.end) != ' ' as int && At(src, s.end) != '\t' as int)
  {
    hide ScanOne, EatWhile, BlockScan, OnlyBlanksFollow, BackslashScan;
    if Opens(src[start]) { Dispatch(src, start, t); } else { OthersStart(src, start, t); }
    if src[start] == BACKSLASH { BackslashIs(src, start); }
    if src[start] == SLASH { OthersNotFixed(src, start, t); }
  }

  /** Blanks from `lo` on, then a line end up to `hi`. */
  predicate EndsBlanks(src: seq<Byte>, lo: nat, hi: nat, t: Tables) {
    exists e :: lo <= e < |src| && BlankRun(src, lo, e) && ScanOne(src, e, t) == Scan(Newline, hi, [])
  }

  /** A continuation is a backslash, blanks and one line end. */
  lemma ContinuationIsItsText(src: seq<Byte>, start: nat, t: Tables)
    requires start < |src|
    ensures var s := ScanOne(src, start, t);
      && (s.kind == Continuation <==> src[start] == '\\' as int && OnlyBlanksFollow(src, start + 1))
      && (s.kind == Continuation ==> s.diags == [] && EndsBlanks(src, start + 1, s.end, t))
  {
    hide ScanOne, EatWhile, BlockScan, OnlyBlanksFollow, BackslashScan, Terminator;
    if Opens(src[start]) { Dispatch(src, start, t); } else { OthersStart(src, start, t); }
    if src[start] == SLASH { OthersNotFixed(src, start, t); }
    if src[start] == BACKSLASH {
      BackslashIs(src, start);
      var e := EatWhile(src, start + 1, IsBlank);
      if OnlyBlanksFollow(src, start + 1) { Dispatch(src, e, t); }
    }
  }

  // ── Comments ───────────────────────────────────────────────────────────

  /** Everything up to the line end, or to the end of the text. */
  predicate ToLineEnd(src: seq<Byte>, lo: nat, hi: nat) {
    && lo <= hi <= |src|
    && (forall k | lo <= k < hi :: src[k] != '\n' as int && src[k] != '\r' as int)
    && (hi == |src| || src[hi] == '\n' as int || src[hi] == '\r' as int)
  }

  /** `'` and `//` open a comment that reaches to the line end. */
  lemma CommentToLineEnd(src: seq<Byte>, start: nat, t: Tables)
    requires start < |src| && (Stands(src, start, "'") || Stands(src, start, "//"))
    ensures var s := ScanOne(src, start, t);
      s.kind == LineComment && s.diags == [] && ToLineEnd(src, start, s.end)
  {
    hide RawScan, PlainEnd, EscapedEnd, RadixScan, DecimalScan, IdentScan, BackslashScan, BlockScan, Terminator, NextChar, PeekChar;
  }

  // ── Names ──────────────────────────────────────────────────────────────

  predicate AsciiLetter(c: int) {
    'a' as int <= c <= 'z' as int || 'A' as int <= c <= 'Z' as int
  }

  predicate NameStart(c: Scalar, t: Tables) {
    c == '_' as int || AsciiLetter(c) || (c >= 0x80 && t.xidStart(c))
  }

  predicate NamePart(c: Scalar, t: Tables) {
    c == '_' as int || t.xidContinue(c)
  }

  predicate Name(cs: seq<Scalar>, t: Tables) {
    cs != [] && NameStart(cs[0], t) && forall k | 0 < k < |cs| :: NamePart(cs[k], t)
  }

  /** No char of a name stands at `i`. */
  predicate NameEndsAt(src: seq<Byte>, i: nat, t: Tables) {
    var c := PeekChar(src, i);
    c.None? || !NamePart(c.value, t)
  }

  lemma PeekOfEncoding(src: seq<Byte>, p: nat, c: Scalar)
    requires p + |EncodeUtf8(c)| <= |src| && src[p..p + |EncodeUtf8(c)|] == EncodeUtf8(c)
    ensures EncodeUtf8(c) != [] && p < |src| && PeekChar(src, p) == Some(c) && NextChar(src, p) == p + |EncodeUtf8(c)|
    ensures src[p] == EncodeUtf8(c)[0]
  {
    NextOfEncoding(src, p, c);
    EncodeIsSequence(c);
    assert src[p..p + SequenceLength(src[p])] == EncodeUtf8(c);
    hide EncodeUtf8, Value;
  }

  lemma {:induction false} PartsScan(src: seq<Byte>, p: nat, cs: seq<Scalar>, t: Tables)
    requires p + |Encode(cs)| <= |src| && src[p..p + |Encode(cs)|] == Encode(cs) && NameEndsAt(src, p + |Encode(cs)|, t)
    requires forall k | 0 <= k < |cs| :: NamePart(cs[k], t)
    ensures IdentEnd(src, p, t) == p + |Encode(cs)|
    decreases |cs|
  {
    hide EncodeUtf8, PeekChar, NextChar;
    if cs != [] {
      var e, r := EncodeUtf8(cs[0]), Encode(cs[1..]);
      assert Encode(cs) == e + r;
      PieceAt(src, p, e, r);
      PeekOfEncoding(src, p, cs[0]);
      PartsScan(src, p + |e|, cs[1..], t);
      hide Encode;
    }
  }

  /** `rem`, in any case. */
  predicate Rem(cs: seq<Scalar>) {
    && |cs| == 3 && (cs[0] == 'r' as int || cs[0] == 'R' as int)
    && (cs[1] == 'e' as int || cs[1] == 'E' as int) && (cs[2] == 'm' as int || cs[2] == 'M' as int)
  }

  lemma RemIs(cs: seq<Scalar>)
    ensures Rem(cs) <==> IsRem(Encode(cs))
  {
    var body := Encode(cs);
    if Rem(cs) {
      EncodeHead(cs);
      EncodeHead(cs[1..]);
      EncodeHead(cs[2..]);
      assert cs[3..] == [];
      assert body == [cs[0], cs[1], cs[2]];
    }
    if IsRem(body) {
      AsciiBytes(cs, body);
    }
    hide Encode;
  }

  lemma {:induction false} AsciiBytes(cs: seq<Scalar>, body: seq<Byte>)
    requires body == Encode(cs) && forall k | 0 <= k < |body| :: body[k] < 0x80
    ensures |cs| == |body| && forall k | 0 <= k < |cs| :: cs[k] == body[k]
  {
    if cs != [] {
      var e := EncodeUtf8(cs[0]);
      EncodeIsSequence(cs[0]);
      assert body[0] == e[0] < 0x80;
      FirstByte(cs[0], e[0]);
      assert e == [cs[0]];
      assert body[1..] == Encode(cs[1..]);
      AsciiBytes(cs[1..], body[1..]);
      hide Encode, EncodeUtf8;
    }
  }

  /** The sigil a character stands for. */
  predicate SigilOf(b: int, s: Option<Sigil>) {
    match s
    case Some(IntegerSigil) => b == '%' as int
    case Some(FloatSigil) => b == '#' as int
    case Some(StringSigil) => b == '$' as int
    case None => b != '%' as int && b != '#' as int && b != '$' as int
  }

  lemma SigilIs(b: int)
    ensures SigilOf(b, SigilAt(b)) && forall s :: SigilOf(b, s) ==> s == SigilAt(b)
  {
  }

  /** A name, read as far as it goes: a comment if it is `rem`, else the keyword the table has for it, else an
      identifier with the sigil that follows it. */
  lemma NameIsItsToken(before: seq<Byte>, cs: seq<Scalar>, after: seq<Byte>, t: Tables, sigil: Option<Sigil>)
    requires var src, e := before + Encode(cs) + after, |before| + |Encode(cs)|;
      Name(cs, t) && NameEndsAt(src, e, t) && SigilOf(At(src, e), sigil)
    ensures var src, e := before + Encode(cs) + after, |before| + |Encode(cs)|;
      var s := ScanOne(src, |before|, t);
      if Rem(cs) then s.kind == LineComment && s.diags == [] && ToLineEnd(src, e, s.end)
      else if t.keyword(Encode(cs)).Some? then s == Scan(Keyword(t.keyword(Encode(cs)).value), e, [])
      else s == Scan(Ident(sigil), if sigil.Some? then e + 1 else e, [])
  {
    hide Encode, EncodeUtf8, ScanOne, NextChar, PeekChar, IsRem, Rem, SigilOf, SigilAt;
    var src, start, e := before + Encode(cs) + after, |before|, |before| + |Encode(cs)|;
    assert src[start..e] == Encode(cs);
    EncodeHead(cs);
    PieceAt(src, start, EncodeUtf8(cs[0]), Encode(cs[1..]));
    PeekOfEncoding(src, start, cs[0]);
    PartsScan(src, start + |EncodeUtf8(cs[0])|, cs[1..], t);
    StartsName(src, start, cs[0], t);
    RemIs(cs);
    SigilIs(At(src, e));
  }

  lemma StartsName(src: seq<Byte>, start: nat, c: Scalar, t: Tables)
    requires start < |src| && NameStart(c, t) && PeekChar(src, start) == Some(c) && EncodeUtf8(c) != [] && src[start] == EncodeUtf8(c)[0]
    ensures ScanOne(src, start, t) == IdentScan(src, start, t)
  {
    var b := src[start];
    if c < 0x80 { assert b == c; } else if b < 0x80 { FirstByte(c, b); }
    hide RawScan, PlainEnd, EscapedEnd, RadixScan, DecimalScan, IdentScan, BackslashScan, SlashScan, AngleScan, EatWhile, Terminator, PeekChar, EncodeUtf8;
  }

  /** A char that starts no token is an error of its own. */
  lemma NothingStarts(src: seq<Byte>, start: nat, t: Tables)
    requires start < |src| && !Opens(src[start])
    requires var b := src[start];
      && !('0' as int <= b <= '9' as int) && b != '"' as int && b != '$' as int && b != '%' as int && b != '\'' as int
    requires PeekChar(src, start).Some? ==> !NameStart(PeekChar(src, start).value, t)
    ensures ScanOne(src, start, t) == Scan(Error(UnexpectedChar), NextChar(src, start), [Diag(UnexpectedChar, start, NextChar(src, start))])
  {
    var b := src[start];
    if b == UNDERSCORE || IsAsciiLetter(b) { AsciiPeek(src, start); }
    hide RawScan, PlainEnd, EscapedEnd, RadixScan, DecimalScan, IdentScan, BackslashScan, SlashScan, AngleScan, EatWhile, Terminator, PeekChar, NextChar;
  }

  lemma AsciiPeek(src: seq<Byte>, i: nat)
    requires i < |src| && src[i] < 0x80
    ensures PeekChar(src, i) == Some(src[i])
  {
    assert src[i..i + 1] == [src[i]];
  }
}
