/** Writing text inside `$"…"` in every way the language has, and reading it back. */
module EscapeSpelling {
  import opened Common
  import opened Utf8
  import opened SourceText
  import opened LexSpec
  import opened NumberLiterals
  import opened StringValue

  // ── Written forms ──────────────────────────────────────────────────────

  /** How a code point is written: as it is, by its letter, by two or four hexadecimal digits, each upper or lower
      case, or behind a backslash that it does not need. */
  datatype Spelling = Itself | Letter | Hex2(u0: bool, u1: bool) | Hex4(u0: bool, u1: bool, u2: bool, u3: bool) | Needless

  datatype Piece = Piece(c: Scalar, how: Spelling)

  /** The letter that stands for a code point after a backslash. */
  function LetterOf(c: Scalar): Option<Byte> {
    if c == '\\' as int then Some('\\' as int)
    else if c == '"' as int then Some('"' as int)
    else if c == '\n' as int then Some('n' as int)
    else if c == '\r' as int then Some('r' as int)
    else if c == '\t' as int then Some('t' as int)
    else if c == 0 then Some('0' as int)
    else None
  }

  /** The letters of the short escapes. */
  predicate IsLetter(b: int) {
    b == '\\' as int || b == '"' as int || b == 'n' as int || b == 'r' as int || b == 't' as int || b == '0' as int
  }

  predicate Spellable(p: Piece) {
    match p.how
    case Itself => p.c != '\\' as int && p.c != '"' as int && p.c != '\n' as int && p.c != '\r' as int
    case Letter => LetterOf(p.c).Some?
    case Hex2(_, _) => p.c < 0x100
    case Hex4(_, _, _, _) => p.c < 0x1_0000
    case Needless => !IsLetter(p.c) && p.c != 'x' as int && p.c != 'u' as int && p.c != '\n' as int && p.c != '\r' as int
  }

  function Spelled(p: Piece): seq<Byte>
    requires Spellable(p)
  {
    match p.how
    case Itself => EncodeUtf8(p.c)
    case Letter => ['\\' as int, LetterOf(p.c).value]
    case Hex2(u0, u1) => ['\\' as int, 'x' as int, Glyph(p.c / 16, u0), Glyph(p.c % 16, u1)]
    case Hex4(u0, u1, u2, u3) =>
      ['\\' as int, 'u' as int, Glyph(p.c / 4096, u0), Glyph(p.c / 256 % 16, u1), Glyph(p.c / 16 % 16, u2), Glyph(p.c % 16, u3)]
    case Needless => ['\\' as int] + EncodeUtf8(p.c)
  }

  predicate AllSpellable(ps: seq<Piece>) {
    forall k | 0 <= k < |ps| :: Spellable(ps[k])
  }

  function WrittenOut(ps: seq<Piece>): seq<Byte>
    requires AllSpellable(ps)
  {
    if ps == [] then [] else Spelled(ps[0]) + WrittenOut(ps[1..])
  }

  function Meant(ps: seq<Piece>): seq<Scalar> {
    if ps == [] then [] else [ps[0].c] + Meant(ps[1..])
  }

  /** One complaint for each needless backslash, over it and its char; the pieces start at `at`. */
  function Complaints(ps: seq<Piece>, at: nat): seq<EscapeDiag>
    requires AllSpellable(ps)
  {
    if ps == [] then []
    else
      var next := at + |Spelled(ps[0])|;
      (if ps[0].how == Needless then [EscapeDiag(Unknown, at, next)] else []) + Complaints(ps[1..], next)
  }

  function Wrapped(ps: seq<Piece>): seq<Byte>
    requires AllSpellable(ps)
  {
    ['$' as int, '"' as int] + WrittenOut(ps) + ['"' as int]
  }

  // ── One piece ──────────────────────────────────────────────────────────

  /** A char whose encoding stands at `p` is one step long. */
  lemma NextOfEncoding(src: seq<Byte>, p: nat, c: Scalar)
    requires p + |EncodeUtf8(c)| <= |src| && src[p..p + |EncodeUtf8(c)|] == EncodeUtf8(c)
    ensures EncodeUtf8(c) != [] && NextChar(src, p) == p + |EncodeUtf8(c)| && src[p] == EncodeUtf8(c)[0]
  {
    EncodeIsSequence(c);
    assert src[p] == src[p..p + |EncodeUtf8(c)|][0];
    hide Value, EncodeUtf8;
  }

  lemma FirstByte(c: Scalar, b: Byte)
    requires b < 0x80 && EncodeUtf8(c) != [] && EncodeUtf8(c)[0] == b
    ensures c == b
  {
    EncodeIsSequence(c);
    hide EncodeUtf8;
  }

  lemma AsciiNext(src: seq<Byte>, p: nat)
    requires p < |src| && src[p] < 0x80
    ensures NextChar(src, p) == p + 1
  {
  }

  /** Two digits and four digits give the number they were printed from. */
  lemma TwoDigits(c: nat, u0: bool, u1: bool)
    requires c < 0x100
    ensures var d := [Glyph(c / 16, u0), Glyph(c % 16, u1)];
      AllDigits(d, Hex) && Number(d, Hex) == c
  {
    hide Number, Glyph;
    OneDigit(c / 16, Hex, u0);
    GlyphIsDigit(c / 16, u0, Hex, 16);
    OneMoreDigit([Glyph(c / 16, u0)], c % 16, Hex, u1);
    assert [Glyph(c / 16, u0)] + [Glyph(c % 16, u1)] == [Glyph(c / 16, u0), Glyph(c % 16, u1)];
  }

  lemma FourDigits(c: nat, u0: bool, u1: bool, u2: bool, u3: bool)
    requires c < 0x1_0000
    ensures var d := [Glyph(c / 4096, u0), Glyph(c / 256 % 16, u1), Glyph(c / 16 % 16, u2), Glyph(c % 16, u3)];
      AllDigits(d, Hex) && Number(d, Hex) == c
  {
    hide Number, Glyph;
    var high, three := c / 256, c / 16;
    TwoDigits(high, u0, u1);
    assert high / 16 == c / 4096;
    var d := [Glyph(c / 4096, u0), Glyph(c / 256 % 16, u1)];
    OneMoreDigit(d, three % 16, Hex, u2);
    assert three == high * 16 + three % 16;
    OneMoreDigit(d + [Glyph(three % 16, u2)], c % 16, Hex, u3);
    assert d + [Glyph(three % 16, u2)] + [Glyph(c % 16, u3)] == [d[0], d[1], Glyph(c / 16 % 16, u2), Glyph(c % 16, u3)];
  }

  /** The lexer steps over digits one by one. */
  lemma {:induction false} DigitSteps(src: seq<Byte>, p: nat, q: nat)
    requires p <= q <= |src| && forall k | p <= k < q :: IsDigit(Hex, src[k])
    ensures EscapedEnd(src, p) == EscapedEnd(src, q)
    decreases q - p
  {
    if p < q {
      AsciiNext(src, p);
      DigitSteps(src, p + 1, q);
    }
    hide NextChar;
  }

  /** A hexadecimal escape of `n` digits at `p` is one turn of the decoder, and the lexer scans over it. */
  lemma HexStep(src: seq<Byte>, p: nat, letter: Byte, d: seq<Byte>, c: Scalar)
    requires (letter == 'x' as int && |d| == 2) || (letter == 'u' as int && |d| == 4)
    requires AllDigits(d, Hex) && Number(d, Hex) == c
    requires p + 2 + |d| <= |src| && src[p..p + 2 + |d|] == ['\\' as int, letter] + d
    ensures EscapedEnd(src, p) == EscapedEnd(src, p + 2 + |d|)
    ensures DecodeTurn(src, p) == Turn(EncodeUtf8(c), p + 2 + |d|, None)
  {
    hide Number, EncodeUtf8;
    var q := p + 2 + |d|;
    assert src[p] == src[p..q][0] && src[p + 1] == src[p..q][1];
    assert src[p + 2..q] == src[p..q][2..] == d;
    forall k | p + 2 <= k < q ensures IsDigit(Hex, src[k]) { assert src[k] == d[k - p - 2]; }
    AsciiNext(src, p + 1);
    DigitSteps(src, p + 2, q);
    hide NextChar;
  }

  lemma LetterStep(src: seq<Byte>, p: nat, c: Scalar)
    requires LetterOf(c).Some? && p + 2 <= |src| && src[p..p + 2] == ['\\' as int, LetterOf(c).value]
    ensures EscapedEnd(src, p) == EscapedEnd(src, p + 2) && DecodeTurn(src, p) == Turn(EncodeUtf8(c), p + 2, None)
  {
    assert src[p] == src[p..p + 2][0] && src[p + 1] == src[p..p + 2][1];
    AsciiNext(src, p + 1);
    hide NextChar;
  }

  lemma PlainStep(src: seq<Byte>, p: nat, c: Scalar)
    requires Spellable(Piece(c, Itself)) && p + |EncodeUtf8(c)| <= |src| && src[p..p + |EncodeUtf8(c)|] == EncodeUtf8(c)
    ensures EncodeUtf8(c) != [] && EscapedEnd(src, p) == EscapedEnd(src, p + |EncodeUtf8(c)|)
    ensures DecodeTurn(src, p) == Turn(EncodeUtf8(c), p + |EncodeUtf8(c)|, None)
  {
    NextOfEncoding(src, p, c);
    if src[p] < 0x80 { FirstByte(c, src[p]); }
    hide EncodeUtf8, NextChar;
  }

  lemma NeedlessStep(src: seq<Byte>, p: nat, c: Scalar)
    requires Spellable(Piece(c, Needless)) && p + 1 + |EncodeUtf8(c)| <= |src|
    requires src[p..p + 1 + |EncodeUtf8(c)|] == ['\\' as int] + EncodeUtf8(c)
    ensures EscapedEnd(src, p) == EscapedEnd(src, p + 1 + |EncodeUtf8(c)|)
    ensures var end := p + 1 + |EncodeUtf8(c)|;
      DecodeTurn(src, p) == Turn(EncodeUtf8(c), end, Some(EscapeDiag(Unknown, p, end)))
  {
    var end := p + 1 + |EncodeUtf8(c)|;
    assert src[p] == src[p..end][0];
    assert src[p + 1..end] == src[p..end][1..] == EncodeUtf8(c);
    NextOfEncoding(src, p + 1, c);
    hide EncodeUtf8, NextChar, HexEscape, IsSequence;
    if src[p + 1] < 0x80 { FirstByte(c, src[p + 1]); }
  }

  /** A written piece at `p` is one turn of the decoder, and the lexer scans over it. */
  lemma PieceStep(src: seq<Byte>, p: nat, piece: Piece)
    requires Spellable(piece) && p + |Spelled(piece)| <= |src| && src[p..p + |Spelled(piece)|] == Spelled(piece)
    ensures Spelled(piece) != [] && EscapedEnd(src, p) == EscapedEnd(src, p + |Spelled(piece)|)
    ensures DecodeTurn(src, p) == Turn(EncodeUtf8(piece.c), p + |Spelled(piece)|,
              if piece.how == Needless then Some(EscapeDiag(Unknown, p, p + |Spelled(piece)|)) else None)
  {
    hide NextChar, Number, Glyph, DecodeTurn, EscapedEnd, EncodeUtf8, AllDigits;
    var s := Spelled(piece);
    match piece.how
    case Itself =>
      PlainStep(src, p, piece.c);
    case Letter =>
      assert src[p..p + 2] == ['\\' as int, LetterOf(piece.c).value];
      LetterStep(src, p, piece.c);
    case Hex2(u0, u1) =>
      TwoDigits(piece.c, u0, u1);
      assert s == s[..2] + s[2..];
      HexStep(src, p, 'x' as int, s[2..], piece.c);
    case Hex4(u0, u1, u2, u3) =>
      FourDigits(piece.c, u0, u1, u2, u3);
      assert s == s[..2] + s[2..];
      HexStep(src, p, 'u' as int, s[2..], piece.c);
    case Needless =>
      NeedlessStep(src, p, piece.c);
  }

  // ── Whole literals ─────────────────────────────────────────────────────

  lemma QuoteCloses(src: seq<Byte>, p: nat)
    requires p < |src| && src[p] == QUOTE
    ensures EscapedEnd(src, p) == Closed(p + 1)
  {
  }

  lemma PieceAt(src: seq<Byte>, p: nat, a: seq<Byte>, b: seq<Byte>)
    requires p + |a + b| <= |src| && src[p..p + |a + b|] == a + b
    ensures src[p..p + |a|] == a && src[p + |a|..p + |a| + |b|] == b
  {
    SliceOfSlice(src, p, p + |a + b|, p, p + |a|);
    SliceOfSlice(src, p, p + |a + b|, p + |a|, p + |a| + |b|);
    assert (a + b)[0..|a|] == a && (a + b)[|a|..|a| + |b|] == b;
  }

  /** The lexer scans over written pieces. */
  lemma {:induction false} PiecesScan(src: seq<Byte>, p: nat, ps: seq<Piece>)
    requires AllSpellable(ps) && p + |WrittenOut(ps)| <= |src| && src[p..p + |WrittenOut(ps)|] == WrittenOut(ps)
    ensures EscapedEnd(src, p) == EscapedEnd(src, p + |WrittenOut(ps)|)
    decreases |ps|
  {
    hide Spelled, Spellable, EscapedEnd, DecodeTurn, EncodeUtf8;
    if ps != [] {
      var e, r := Spelled(ps[0]), WrittenOut(ps[1..]);
      assert WrittenOut(ps) == e + r;
      hide WrittenOut;
      PieceAt(src, p, e, r);
      PieceStep(src, p, ps[0]);
      PiecesScan(src, p + |e|, ps[1..]);
    }
  }

  lemma {:induction false} PiecesDecode(body: seq<Byte>, p: nat, ps: seq<Piece>)
    requires AllSpellable(ps) && p + |WrittenOut(ps)| == |body| && body[p..] == WrittenOut(ps)
    ensures DecodeFrom(body, p) == (Encode(Meant(ps)), Complaints(ps, p))
    decreases |ps|
  {
    hide Spelled, Spellable, DecodeTurn, EncodeUtf8, DecodeFrom, EscapedEnd;
    if ps == [] {
      NothingToDecode(body, p);
    } else {
      var e, r := Spelled(ps[0]), WrittenOut(ps[1..]);
      assert body[p..p + |e + r|] == body[p..];
      PieceAt(body, p, e, r);
      PieceStep(body, p, ps[0]);
      assert body[p + |e|..] == body[p + |e|..p + |e| + |r|];
      PiecesDecode(body, p + |e|, ps[1..]);
      Unfold(body, p);
      EncodeHead(Meant(ps));
      assert Meant(ps)[1..] == Meant(ps[1..]);
      hide WrittenOut, Encode, Meant;
    }
  }

  lemma {:induction false} ComplaintsMove(ps: seq<Piece>, at: nat, offset: nat)
    requires AllSpellable(ps)
    ensures Complaints(ps, at + offset) == ShiftDiags(Complaints(ps, at), offset)
  {
    hide Spelled, Spellable;
    if ps != [] {
      var next := at + |Spelled(ps[0])|;
      ComplaintsMove(ps[1..], next, offset);
      var first := if ps[0].how == Needless then [EscapeDiag(Unknown, at, next)] else [];
      ShiftConcat(first, Complaints(ps[1..], next), offset);
      hide ShiftDiags;
    }
  }

  lemma ShiftConcat(a: seq<EscapeDiag>, b: seq<EscapeDiag>, offset: nat)
    ensures ShiftDiags(a + b, offset) == ShiftDiags(a, offset) + ShiftDiags(b, offset)
  {
    var whole, x, y := ShiftDiags(a + b, offset), ShiftDiags(a, offset), ShiftDiags(b, offset);
    hide ShiftDiags;
    forall k | 0 <= k < |a + b| ensures whole[k] == (x + y)[k] {
      if k < |a| { assert (a + b)[k] == a[k]; } else { assert (a + b)[k] == b[k - |a|]; }
    }
  }

  /** Any text in any of its written forms is one token wherever it stands, and decodes to the text; the complaints
      are those about its needless backslashes. */
  lemma SpellingRoundTrip(before: seq<Byte>, ps: seq<Piece>, after: seq<Byte>, t: Tables)
    requires AllSpellable(ps)
    ensures var src, start, end := before + Wrapped(ps) + after, |before|, |before| + |Wrapped(ps)|;
      && ScanOne(src, start, t) == Scan(StrLit(Escaped), end, [])
      && EscapedValue(src[start..end], start) == (Encode(Meant(ps)), Complaints(ps, start + 2))
  {
    hide WrittenOut, EscapedEnd, DecodeFrom, EscapedValue, Meant, Spellable, Complaints;
    var src, start, n := before + Wrapped(ps) + after, |before|, |WrittenOut(ps)|;
    var end := start + n + 3;
    assert src[start] == DOLLAR && src[start + 1] == QUOTE && src[end - 1] == QUOTE;
    assert src[start + 2..end - 1] == WrittenOut(ps);
    PiecesScan(src, start + 2, ps);
    QuoteCloses(src, end - 1);
    StripToken(src, start, end);
    assert src[start + 2..end - 1][0..] == WrittenOut(ps);
    PiecesDecode(src[start + 2..end - 1], 0, ps);
    ComplaintsMove(ps, 0, start + 2);
    hide Wrapped, ShiftDiags, RadixScan, PlainEnd, DecimalScan, IdentScan;
  }

  // ── Every text can be written ──────────────────────────────────────────

  /** A code point as it is, where it may stand so; by its letter otherwise. */
  function Shortest(c: Scalar): Piece {
    Piece(c, if Spellable(Piece(c, Itself)) then Itself else Letter)
  }

  function Escape(cs: seq<Scalar>): seq<Piece> {
    seq(|cs|, k requires 0 <= k < |cs| => Shortest(cs[k]))
  }

  /** Any text, escaped and wrapped, is one token wherever it stands, and decodes to itself. */
  lemma EscapeRoundTrip(before: seq<Byte>, cs: seq<Scalar>, after: seq<Byte>, t: Tables)
    ensures AllSpellable(Escape(cs))
    ensures var w := Wrapped(Escape(cs));
      var src, start, end := before + w + after, |before|, |before| + |w|;
      && ScanOne(src, start, t) == Scan(StrLit(Escaped), end, [])
      && EscapedValue(src[start..end], start) == (Encode(cs), [])
  {
    hide Wrapped, ScanOne, EscapedValue;
    EscapeMeans(cs);
    SpellingRoundTrip(before, Escape(cs), after, t);
  }

  lemma {:induction false} EscapeMeans(cs: seq<Scalar>)
    ensures AllSpellable(Escape(cs)) && Meant(Escape(cs)) == cs && forall at: nat :: Complaints(Escape(cs), at) == []
  {
    if cs != [] {
      EscapeMeans(cs[1..]);
      assert Escape(cs)[1..] == Escape(cs[1..]);
      assert Shortest(cs[0]).how != Needless;
    }
    hide Spelled;
  }

  // ── What is no escape ──────────────────────────────────────────────────

  /** `n` hexadecimal digits stand at `i`. */
  predicate HexAt(body: seq<Byte>, i: nat, n: nat) {
    && i + n <= |body|
    && forall k | i <= k < i + n ::
         '0' as int <= body[k] <= '9' as int || 'a' as int <= body[k] <= 'f' as int || 'A' as int <= body[k] <= 'F' as int
  }

  lemma HexAtIs(body: seq<Byte>, i: nat, n: nat)
    requires i + n <= |body|
    ensures HexAt(body, i, n) <==> AllHex(body[i..i + n])
  {
    if AllHex(body[i..i + n]) {
      forall k | i <= k < i + n ensures IsDigit(Hex, body[k]) { assert body[i..i + n][k - i] == body[k]; }
    }
  }

  lemma {:induction false} HexBelow(d: seq<Byte>)
    requires AllHex(d)
    ensures 0 <= Number(d, Hex) < Pow2(4 * |d|)
  {
    if d != [] {
      HexBelow(d[..|d| - 1]);
      var n := 4 * (|d| - 1);
      assert Pow2(n + 2) == 4 * Pow2(n);
      assert Pow2(n + 4) == 4 * Pow2(n + 2);
      assert IsDigit(Hex, d[|d| - 1]);
    }
  }

  lemma FourBelow(d: seq<Byte>)
    requires AllHex(d) && (|d| == 2 || |d| == 4)
    ensures 0 <= Number(d, Hex) < (if |d| == 2 then 0x100 else 0x1_0000)
  {
    HexBelow(d);
    EightMore(0);
    EightMore(8);
    assert Pow2(0) == 1;
    hide Number, Pow2;
  }

  /** What the decoder does at a backslash that no written form explains: it keeps `\x` and `\u` when digits are
      missing, all six bytes of a surrogate, and the char behind any other backslash; each with one complaint. */
  lemma FailingEscapes(body: seq<Byte>, i: nat)
    requires i < |body| && body[i] == '\\' as int
    ensures var t, letter := DecodeTurn(body, i), At(body, i + 1);
      if letter == -1 then t == Turn(['\\' as int], i + 1, Some(EscapeDiag(Incomplete, i, i + 1)))
      else if letter == 'x' as int && !HexAt(body, i + 2, 2) then
        t == Turn(['\\' as int, 'x' as int], i + 2, Some(EscapeDiag(BadHexDigits, i, Min(i + 4, |body|))))
      else if letter == 'u' as int && !HexAt(body, i + 2, 4) then
        t == Turn(['\\' as int, 'u' as int], i + 2, Some(EscapeDiag(BadUnicodeDigits, i, Min(i + 6, |body|))))
      else if letter == 'u' as int && 0xD800 <= Number(body[i + 2..i + 6], Hex) < 0xE000 then
        t == Turn(body[i..i + 6], i + 6, Some(EscapeDiag(NotScalar, i, i + 6)))
      else if letter == 'x' as int || letter == 'u' as int then t.diag == None
      else if IsLetter(letter) then t.diag == None && t.next == i + 2
      else t == Turn(body[i + 1..NextChar(body, i + 1)], NextChar(body, i + 1), Some(EscapeDiag(Unknown, i, NextChar(body, i + 1))))
  {
    hide NextChar, Number, EncodeUtf8;
    if i + 4 <= |body| { HexAtIs(body, i + 2, 2); }
    if i + 6 <= |body| { HexAtIs(body, i + 2, 4); }
    if HexAt(body, i + 2, 2) { FourBelow(body[i + 2..i + 4]); }
    if HexAt(body, i + 2, 4) { FourBelow(body[i + 2..i + 6]); }
  }
}
