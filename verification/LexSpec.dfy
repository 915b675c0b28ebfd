/** What one step of the lexer produces, as a function of the text and the cursor. */
module LexSpec {
  import opened Common
  import opened Utf8
  import opened SourceText

  datatype Sigil = IntegerSigil | FloatSigil | StringSigil

  datatype StrKind = Plain | Escaped | Raw

  datatype Op = Plus | Minus | Star | Slash | Caret | Eq | Lt | LtEq | Gt | GtEq | NotEq | BackSlash

  datatype Punct = LParen | RParen | LBracket | RBracket | Comma | Colon | Semicolon | Dot

  datatype Problem = NewlineInString | UnterminatedString | UnterminatedBlockComment | InvalidDigitSeparator | UnexpectedChar | MalformedNumber

  datatype Kind =
    | Ident(sigil: Option<Sigil>)
    | Keyword(keyword: nat)
    | IntLit(value: nat)
    | FloatLit(bits: nat)
    | StrLit(str: StrKind)
    | PunctToken(punct: Punct)
    | OpToken(op: Op)
    | Newline
    | Continuation
    | Whitespace
    | LineComment
    | BlockComment
    | Error(problem: Problem)
    | Eof

  datatype Token = Token(kind: Kind, lo: nat, hi: nat)

  /** A diagnostic: its code and the span of its primary label. */
  datatype Diag = Diag(problem: Problem, lo: nat, hi: nat)

  /** The one token a step finds, where it ends, and what is wrong with it. */
  datatype Scan = Scan(kind: Kind, end: nat, diags: seq<Diag>)

  /** What the lexer takes from elsewhere: the Unicode identifier classes, the keyword table, and the
      conversion of a decimal text to a finite double. */
  datatype Tables = Tables(xidStart: Scalar -> bool, xidContinue: Scalar -> bool,
                           keyword: seq<Byte> -> Option<nat>, parseFloat: seq<Byte> -> Option<nat>)

  // ── Byte classes ───────────────────────────────────────────────────────

  predicate IsBlank(b: Byte) {
    b == BLANK || b == TAB
  }

  predicate IsLineEnd(b: int) {
    b == LF || b == CR
  }

  predicate InLine(b: Byte) {
    b != LF && b != CR
  }

  predicate IsAsciiLetter(b: Byte) {
    0x41 <= b <= 0x5A || 0x61 <= b <= 0x7A
  }

  datatype Radix = Decimal | Hex | Binary

  predicate IsDigit(radix: Radix, b: int) {
    match radix
    case Decimal => 0x30 <= b <= 0x39
    case Hex => 0x30 <= b <= 0x39 || 0x41 <= b <= 0x46 || 0x61 <= b <= 0x66
    case Binary => b == 0x30 || b == 0x31
  }

  // ── Where things end ───────────────────────────────────────────────────

  function EatWhile(src: seq<Byte>, i: nat, p: Byte -> bool): (j: nat)
    requires i <= |src|
    ensures i <= j <= |src| && (j < |src| ==> !p(src[j])) && forall k | i <= k < j :: p(src[k])
    decreases |src| - i
  {
    if i < |src| && p(src[i]) then EatWhile(src, i + 1, p) else i
  }

  /** Past one `\r`, `\n` or `\r\n`. */
  function Terminator(src: seq<Byte>, i: nat): nat {
    if At(src, i) == CR then if At(src, i + 1) == LF then i + 2 else i + 1
    else if At(src, i) == LF then i + 1
    else i
  }

  /** From inside a block comment of the given depth: where it closes, or None at the end of the text. */
  function BlockEnd(src: seq<Byte>, i: nat, depth: nat): Option<nat>
    decreases |src| - i
  {
    if depth == 0 then Some(i)
    else if i >= |src| then None
    else if src[i] == SLASH && At(src, i + 1) == STAR then BlockEnd(src, i + 2, depth + 1)
    else if src[i] == STAR && At(src, i + 1) == SLASH then BlockEnd(src, i + 2, depth - 1)
    else BlockEnd(src, NextChar(src, i), depth)
  }

  /** How a quoted literal ends; the position is where scanning stops. */
  datatype Closing = Closed(end: nat) | BeforeNewline(end: nat) | AtEnd(end: nat)

  function PlainEnd(src: seq<Byte>, i: nat): Closing
    decreases |src| - i
  {
    if i >= |src| then AtEnd(i)
    else if src[i] == QUOTE then Closed(i + 1)
    else if IsLineEnd(src[i]) then BeforeNewline(i)
    else PlainEnd(src, NextChar(src, i))
  }

  function EscapedEnd(src: seq<Byte>, i: nat): Closing
    decreases |src| - i
  {
    if i >= |src| then AtEnd(i)
    else if src[i] == BACKSLASH then
      if IsLineEnd(At(src, i + 1)) then BeforeNewline(i + 1)
      else EscapedEnd(src, NextChar(src, i + 1))
    else if src[i] == QUOTE then Closed(i + 1)
    else if IsLineEnd(src[i]) then BeforeNewline(i)
    else EscapedEnd(src, NextChar(src, i))
  }

  predicate TripleQuote(src: seq<Byte>, i: nat) {
    At(src, i) == QUOTE && At(src, i + 1) == QUOTE && At(src, i + 2) == QUOTE
  }

  function RawEnd(src: seq<Byte>, i: nat): Closing
    decreases |src| - i
  {
    if TripleQuote(src, i) then Closed(i + 3)
    else if i >= |src| then AtEnd(i)
    else RawEnd(src, NextChar(src, i))
  }

  function IdentEnd(src: seq<Byte>, i: nat, t: Tables): nat
    decreases |src| - i
  {
    var c := PeekChar(src, i);
    if c.Some? && (c.value == UNDERSCORE || t.xidContinue(c.value)) then IdentEnd(src, NextChar(src, i), t) else i
  }

  // ── Numbers ────────────────────────────────────────────────────────────

  /** Past the digits and underscores. */
  function RunEnd(src: seq<Byte>, i: nat, radix: Radix): (j: nat)
    requires i <= |src|
    ensures i <= j <= |src| && (j < |src| ==> !IsDigit(radix, src[j]) && src[j] != UNDERSCORE)
    ensures forall k | i <= k < j :: IsDigit(radix, src[k]) || src[k] == UNDERSCORE
    decreases |src| - i
  {
    if i < |src| && (IsDigit(radix, src[i]) || src[i] == UNDERSCORE) then RunEnd(src, i + 1, radix) else i
  }

  /** Complaints about `src[i..hi]`, a run of digits and underscores; `last`: the byte before was an underscore. */
  function SeparatorDiags(src: seq<Byte>, i: nat, hi: nat, last: bool, some: bool): seq<Diag>
    requires i <= hi <= |src|
    decreases hi - i
  {
    if i == hi then
      if last && some && i > 0 then [Diag(InvalidDigitSeparator, i - 1, i)] else []
    else if src[i] != UNDERSCORE then SeparatorDiags(src, i + 1, hi, false, true)
    else (if last then [Diag(InvalidDigitSeparator, i, i + 1)] else []) + SeparatorDiags(src, i + 1, hi, true, true)
  }

  /** scan_digit_run_inner: end of the run, its complaints, and whether it is bad. */
  datatype Run = Run(end: nat, diags: seq<Diag>, bad: bool)

  function DigitRun(src: seq<Byte>, i: nat, radix: Radix, suppress: bool): (r: Run)
    requires i <= |src|
    ensures !r.bad ==> r.diags == []
  {
    var hi := RunEnd(src, i, radix);
    var diags :=
      (if !suppress && At(src, i) == UNDERSCORE then [Diag(InvalidDigitSeparator, i, i + 1)] else []) +
      SeparatorDiags(src, i, hi, suppress, false);
    Run(hi, diags, suppress || diags != [])
  }

  function Stripped(digits: seq<Byte>): (r: seq<Byte>) {
    if digits == [] then []
    else (if digits[0] == UNDERSCORE then [] else [digits[0]]) + Stripped(digits[1..])
  }

  function DigitValue(b: int): int {
    if b < 0x3A then b - 0x30 else if b < 0x47 then b - 0x41 + 10 else b - 0x61 + 10
  }

  function Base(radix: Radix): nat {
    match radix
    case Decimal => 10
    case Hex => 16
    case Binary => 2
  }

  function Number(digits: seq<Byte>, radix: Radix): int {
    if digits == [] then 0
    else Number(digits[..|digits| - 1], radix) * Base(radix) + DigitValue(digits[|digits| - 1])
  }

  const SCRATCH := 64
  const U64 := 0x1_0000_0000_0000_0000

  function Malformed(lo: nat, hi: nat, before: seq<Diag>): Scan {
    Scan(Error(MalformedNumber), hi, before + [Diag(MalformedNumber, lo, hi)])
  }

  /** An integer literal from a clean run of digits. */
  function IntegerScan(src: seq<Byte>, start: nat, lo: nat, hi: nat, radix: Radix): Scan
    requires lo <= hi <= |src|
  {
    var digits := Stripped(src[lo..hi]);
    var v := Number(digits, radix);
    if |digits| <= SCRATCH && 0 <= v < U64 then Scan(IntLit(v), hi, []) else Malformed(start, hi, [])
  }

  /** `.digits` if there is a digit after the dot. */
  function FracRun(src: seq<Byte>, i: nat): (r: Run)
    requires i <= |src|
    ensures !r.bad ==> r.diags == []
  {
    if At(src, i) == DOT && IsDigit(Decimal, At(src, i + 1)) then DigitRun(src, i + 1, Decimal, false) else Run(i, [], false)
  }

  predicate IsExponentMark(b: int) {
    b == 0x65 || b == 0x45
  }

  function AfterSign(src: seq<Byte>, i: nat): nat {
    if At(src, i) == PLUS || At(src, i) == MINUS then i + 1 else i
  }

  /** `e[sign]digits`, if there is an exponent mark. */
  function ExpRun(src: seq<Byte>, i: nat): (r: Run)
    requires i <= |src|
    ensures !r.bad ==> r.diags == []
  {
    if IsExponentMark(At(src, i)) then DigitRun(src, AfterSign(src, i + 1), Decimal, false) else Run(i, [], false)
  }

  function FloatText(src: seq<Byte>, start: nat, intEnd: nat, fracEnd: nat, end: nat): seq<Byte>
    requires start <= intEnd <= fracEnd <= end <= |src|
  {
    Stripped(src[start..intEnd]) +
    (if intEnd < fracEnd then [DOT] + Stripped(src[intEnd + 1..fracEnd]) else []) +
    Stripped(src[fracEnd..end])
  }

  function FloatScan(src: seq<Byte>, start: nat, intEnd: nat, fracEnd: nat, end: nat, t: Tables): Scan
    requires start <= intEnd <= fracEnd <= end <= |src|
  {
    var text := FloatText(src, start, intEnd, fracEnd, end);
    if |text| <= SCRATCH && t.parseFloat(text).Some? then Scan(FloatLit(t.parseFloat(text).value), end, [])
    else Malformed(start, end, [])
  }

  function DecimalScan(src: seq<Byte>, start: nat, t: Tables): Scan
    requires start < |src|
  {
    var whole := DigitRun(src, start, Decimal, false);
    var frac := FracRun(src, whole.end);
    var exp := ExpRun(src, frac.end);
    var diags := whole.diags + frac.diags + exp.diags;
    if IsExponentMark(At(src, frac.end)) && exp.end == AfterSign(src, frac.end + 1) then Malformed(start, exp.end, diags)
    else if whole.bad || frac.bad || exp.bad then Scan(Error(InvalidDigitSeparator), exp.end, diags)
    else if exp.end > whole.end then FloatScan(src, start, whole.end, frac.end, exp.end, t)
    else IntegerScan(src, start, start, whole.end, Decimal)
  }

  function RadixScan(src: seq<Byte>, start: nat, radix: Radix): Scan
    requires start < |src|
  {
    var b := At(src, start + 1);
    if IsDigit(radix, b) then
      var run := DigitRun(src, start + 1, radix, false);
      if run.bad then Scan(Error(InvalidDigitSeparator), run.end, run.diags) else IntegerScan(src, start, start + 1, run.end, radix)
    else if b == UNDERSCORE then
      var run := DigitRun(src, start + 2, radix, true);
      Scan(Error(InvalidDigitSeparator), run.end, [Diag(InvalidDigitSeparator, start + 1, start + 2)] + run.diags)
    else Scan(Error(UnexpectedChar), start + 1, [Diag(UnexpectedChar, start, start + 1)])
  }

  // ── One step ───────────────────────────────────────────────────────────

  function Quoted(start: nat, c: Closing, kind: StrKind): Scan {
    match c
    case Closed(e) => Scan(StrLit(kind), e, [])
    case BeforeNewline(e) => Scan(Error(NewlineInString), e, [Diag(NewlineInString, start, e)])
    case AtEnd(e) => Scan(Error(UnterminatedString), e, [Diag(UnterminatedString, start, e)])
  }

  /** The primary label of an unterminated raw string is its opener. */
  function RawScan(src: seq<Byte>, start: nat): Scan {
    match RawEnd(src, start + 3)
    case Closed(e) => Scan(StrLit(Raw), e, [])
    case c => Scan(Error(UnterminatedString), c.end, [Diag(UnterminatedString, start, start + 3)])
  }

  function BlockScan(src: seq<Byte>, start: nat): Scan {
    var e := BlockEnd(src, start + 2, 1);
    if e.Some? then Scan(BlockComment, e.value, [])
    else Scan(Error(UnterminatedBlockComment), |src|, [Diag(UnterminatedBlockComment, start, |src|)])
  }

  function BackslashScan(src: seq<Byte>, start: nat): Scan
    requires start < |src|
  {
    var e := EatWhile(src, start + 1, IsBlank);
    if IsLineEnd(At(src, e)) then Scan(Continuation, Terminator(src, e), []) else Scan(OpToken(BackSlash), start + 1, [])
  }

  function LowerCase(b: Byte): Byte {
    if 0x41 <= b <= 0x5A then b + 0x20 else b
  }

  predicate IsRem(body: seq<Byte>) {
    |body| == 3 && LowerCase(body[0]) == 0x72 && LowerCase(body[1]) == 0x65 && LowerCase(body[2]) == 0x6D
  }

  function SigilAt(b: int): Option<Sigil> {
    if b == PERCENT then Some(IntegerSigil)
    else if b == HASH then Some(FloatSigil)
    else if b == DOLLAR then Some(StringSigil)
    else None
  }

  function IdentScan(src: seq<Byte>, start: nat, t: Tables): Scan
    requires start < |src|
  {
    IdentEndBounds(src, NextChar(src, start), t);
    var e := IdentEnd(src, NextChar(src, start), t);
    var body := src[start..e];
    if IsRem(body) then Scan(LineComment, EatWhile(src, e, InLine), [])
    else if t.keyword(body).Some? then Scan(Keyword(t.keyword(body).value), e, [])
    else
      var sigil := SigilAt(At(src, e));
      Scan(Ident(sigil), if sigil.Some? then e + 1 else e, [])
  }

  lemma IdentEndBounds(src: seq<Byte>, i: nat, t: Tables)
    requires i <= |src|
    ensures i <= IdentEnd(src, i, t) <= |src|
    decreases |src| - i
  {
    var c := PeekChar(src, i);
    if c.Some? && (c.value == UNDERSCORE || t.xidContinue(c.value)) { IdentEndBounds(src, NextChar(src, i), t); }
  }

  /** The operators and punctuation of a single byte. */
  function SingleByte(b: Byte): Option<Kind> {
    match b
    case 0x2B => Some(OpToken(Plus))
    case 0x2D => Some(OpToken(Minus))
    case 0x2A => Some(OpToken(Star))
    case 0x5E => Some(OpToken(Caret))
    case 0x3D => Some(OpToken(Eq))
    case 0x28 => Some(PunctToken(LParen))
    case 0x29 => Some(PunctToken(RParen))
    case 0x5B => Some(PunctToken(LBracket))
    case 0x5D => Some(PunctToken(RBracket))
    case 0x2C => Some(PunctToken(Comma))
    case 0x3A => Some(PunctToken(Colon))
    case 0x3B => Some(PunctToken(Semicolon))
    case 0x2E => Some(PunctToken(Dot))
    case _ => None
  }

  function Unexpected(start: nat, end: nat): Scan {
    Scan(Error(UnexpectedChar), end, [Diag(UnexpectedChar, start, end)])
  }

  function SlashScan(src: seq<Byte>, start: nat): Scan
    requires start < |src|
  {
    if At(src, start + 1) == SLASH then Scan(LineComment, EatWhile(src, start + 2, InLine), [])
    else if At(src, start + 1) == STAR then BlockScan(src, start)
    else Scan(OpToken(Slash), start + 1, [])
  }

  function AngleScan(src: seq<Byte>, start: nat): Scan
    requires start < |src|
  {
    var next := At(src, start + 1);
    if src[start] == 0x3C then
      if next == 0x3D then Scan(OpToken(LtEq), start + 2, [])
      else if next == 0x3E then Scan(OpToken(NotEq), start + 2, [])
      else Scan(OpToken(Lt), start + 1, [])
    else if next == 0x3D then Scan(OpToken(GtEq), start + 2, [])
    else Scan(OpToken(Gt), start + 1, [])
  }

  /** scan_one. */
  function ScanOne(src: seq<Byte>, start: nat, t: Tables): Scan
    requires start < |src|
  {
    var b := src[start];
    if IsBlank(b) then Scan(Whitespace, EatWhile(src, start, IsBlank), [])
    else if IsLineEnd(b) then Scan(Newline, Terminator(src, start), [])
    else if b == BACKSLASH then BackslashScan(src, start)
    else if b == TICK then Scan(LineComment, EatWhile(src, start + 1, InLine), [])
    else if b == SLASH then SlashScan(src, start)
    else if b == QUOTE then
      if TripleQuote(src, start) then RawScan(src, start) else Quoted(start, PlainEnd(src, start + 1), Plain)
    else if b == DOLLAR then
      if At(src, start + 1) == QUOTE then Quoted(start, EscapedEnd(src, start + 2), Escaped) else RadixScan(src, start, Hex)
    else if b == PERCENT then RadixScan(src, start, Binary)
    else if IsDigit(Decimal, b) then DecimalScan(src, start, t)
    else if b == 0x3C || b == 0x3E then AngleScan(src, start)
    else if SingleByte(b).Some? then Scan(SingleByte(b).value, start + 1, [])
    else if b == UNDERSCORE || IsAsciiLetter(b) then IdentScan(src, start, t)
    else if b >= 0x80 && PeekChar(src, start).Some? && t.xidStart(PeekChar(src, start).value) then IdentScan(src, start, t)
    else Unexpected(start, NextChar(src, start))
  }
}
