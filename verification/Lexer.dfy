/** The lexer of lexer.rs: a cursor, the tokens and the diagnostics, moved on by one scanner per token class. */
module Lexing {
  import opened Common
  import opened Utf8
  import opened SourceText
  import opened LexSpec
  import opened LexTheorems

  /** What a scan leaves in the token list. */
  function Kept(preserve: bool, start: nat, r: Scan): seq<Token> {
    if IsTrivia(r.kind) && !preserve then [] else [Token(r.kind, start, r.end)]
  }

  /** The complaints seen before `i` and those still to come make up the run's complaints. */
  ghost predicate InRun(src: seq<Byte>, i: nat, hi: nat, last: bool, some: bool, seen: seq<Diag>, total: seq<Diag>) {
    i <= hi <= |src| && seen + SeparatorDiags(src, i, hi, last, some) == total
  }

  lemma InRunStart(src: seq<Byte>, i: nat, radix: Radix, suppress: bool)
    requires i <= |src|
    ensures var r := DigitRun(src, i, radix, suppress);
      && r.end == RunEnd(src, i, radix) && (r.bad <==> suppress || r.diags != [])
      && InRun(src, i, r.end, suppress, false,
               if !suppress && At(src, i) == UNDERSCORE then [Diag(InvalidDigitSeparator, i, i + 1)] else [], r.diags)
  {
  }

  lemma RunEndStep(src: seq<Byte>, i: nat, radix: Radix)
    requires i <= |src|
    ensures RunEnd(src, i, radix) ==
      if i < |src| && (IsDigit(radix, src[i]) || src[i] == UNDERSCORE) then RunEnd(src, i + 1, radix) else i
    ensures i < |src| && IsDigit(radix, src[i]) ==> src[i] != UNDERSCORE
  {
  }

  lemma InRunStep(src: seq<Byte>, i: nat, hi: nat, last: bool, some: bool, seen: seq<Diag>, total: seq<Diag>)
    requires InRun(src, i, hi, last, some, seen, total) && i < hi
    ensures src[i] != UNDERSCORE ==> InRun(src, i + 1, hi, false, true, seen, total)
    ensures src[i] == UNDERSCORE ==>
      InRun(src, i + 1, hi, true, true, if last then seen + [Diag(InvalidDigitSeparator, i, i + 1)] else seen, total)
  {
    if last && src[i] == UNDERSCORE {
      var d, rest := [Diag(InvalidDigitSeparator, i, i + 1)], SeparatorDiags(src, i + 1, hi, true, true);
      assert seen + (d + rest) == (seen + d) + rest;
    }
  }

  lemma InRunEnd(src: seq<Byte>, hi: nat, last: bool, some: bool, seen: seq<Diag>, total: seq<Diag>)
    requires InRun(src, hi, hi, last, some, seen, total)
    ensures seen + (if last && some && hi > 0 then [Diag(InvalidDigitSeparator, hi - 1, hi)] else []) == total
  {
  }

  /** The token for a number whose parts are scanned, by where the whole digits, the fraction and the rest end. */
  function NumberToken(src: seq<Byte>, start: nat, intEnd: nat, fracEnd: nat, end: nat, bad: bool, missing: bool, t: Tables): Scan
    requires start <= intEnd <= fracEnd <= end <= |src|
  {
    if missing then Malformed(start, end, [])
    else if bad then Scan(Error(InvalidDigitSeparator), end, [])
    else if end > intEnd then FloatScan(src, start, intEnd, fracEnd, end, t)
    else IntegerScan(src, start, start, end, Decimal)
  }

  lemma DecimalParts(src: seq<Byte>, start: nat, t: Tables)
    requires start < |src|
    ensures var whole := DigitRun(src, start, Decimal, false);
      var frac := FracRun(src, whole.end);
      var exp := ExpRun(src, frac.end);
      && whole.end <= frac.end <= exp.end <= |src|
      && var r := NumberToken(src, start, whole.end, frac.end, exp.end, whole.bad || frac.bad || exp.bad,
                              IsExponentMark(At(src, frac.end)) && exp.end == AfterSign(src, frac.end + 1), t);
        DecimalScan(src, start, t) == Scan(r.kind, r.end, whole.diags + frac.diags + exp.diags + r.diags)
  {
    hide FloatScan, IntegerScan, SeparatorDiags;
  }

  lemma JoinDiags(before: seq<Diag>, a: seq<Diag>, b: seq<Diag>, c: seq<Diag>, d: seq<Diag>)
    ensures before + a + b + c + d == before + (a + b + c + d)
  {
  }

  class Lexer {
    const src: seq<Byte>
    const preserveTrivia: bool
    const tables: Tables
    var pos: nat
    var tokens: seq<Token>
    var diagnostics: seq<Diag>

    constructor (src: seq<Byte>, preserveTrivia: bool, tables: Tables)
      ensures this.src == src && this.preserveTrivia == preserveTrivia && this.tables == tables
      ensures pos == 0 && tokens == [] && diagnostics == []
    {
      this.src, this.preserveTrivia, this.tables := src, preserveTrivia, tables;
      pos, tokens, diagnostics := 0, [], [];
    }

    // ── Cursor primitives ────────────────────────────────────────────────

    function Peek(offset: nat): int
      reads this
    {
      At(src, pos + offset)
    }

    method EatWhileByte(p: Byte -> bool)
      requires pos <= |src|
      modifies this`pos
      ensures pos == EatWhile(src, old(pos), p)
    {
      while pos < |src| && p(src[pos])
        invariant pos <= |src| && EatWhile(src, pos, p) == EatWhile(src, old(pos), p)
      {
        pos := pos + 1;
      }
    }

    method BumpChar()
      modifies this`pos
      ensures pos == NextChar(src, old(pos))
    {
      pos := NextChar(src, pos);
    }

    /** The effect of one complete scan. */
    twostate predicate Took(start: nat, r: Scan)
      reads this
    {
      pos == r.end && tokens == old(tokens) + Kept(preserveTrivia, start, r) && diagnostics == old(diagnostics) + r.diags
    }

    method Push(kind: Kind, lo: nat)
      modifies this`tokens
      ensures tokens == old(tokens) + [Token(kind, lo, pos)]
    {
      tokens := tokens + [Token(kind, lo, pos)];
    }

    /** `seen` are the diagnostics a scan has reported so far. */
    method Report(problem: Problem, lo: nat, hi: nat, ghost seen: seq<Diag>) returns (ghost more: seq<Diag>)
      modifies this`diagnostics
      ensures diagnostics == old(diagnostics) + [Diag(problem, lo, hi)] && more == seen + [Diag(problem, lo, hi)]
    {
      diagnostics := diagnostics + [Diag(problem, lo, hi)];
      more := seen + [Diag(problem, lo, hi)];
    }

    /** Diagnostic and error token over the same span, from `start` to the cursor. */
    method Fail(problem: Problem, start: nat)
      modifies this
      ensures pos == old(pos)
      ensures diagnostics == old(diagnostics) + [Diag(problem, start, pos)]
      ensures tokens == old(tokens) + [Token(Error(problem), start, pos)]
    {
      ghost var _ := Report(problem, start, pos, []);
      Push(Error(problem), start);
    }

    // ── Trivia ───────────────────────────────────────────────────────────

    method PushTrivia(kind: Kind, start: nat)
      modifies this`tokens
      ensures tokens == old(tokens) + if preserveTrivia then [Token(kind, start, pos)] else []
    {
      if preserveTrivia { Push(kind, start); }
    }

    method ScanWhitespace()
      requires pos < |src| && IsBlank(src[pos])
      modifies this
      ensures Took(old(pos), ScanOne(src, old(pos), tables))
    {
      var start := pos;
      EatWhileByte(IsBlank);
      PushTrivia(Whitespace, start);
    }

    method ConsumeLineTerminator()
      modifies this`pos
      ensures pos == Terminator(src, old(pos))
    {
      if Peek(0) == CR {
        pos := pos + 1;
        if Peek(0) == LF { pos := pos + 1; }
      } else if Peek(0) == LF {
        pos := pos + 1;
      }
    }

    method ScanNewline()
      requires pos < |src| && IsLineEnd(src[pos])
      modifies this
      ensures Took(old(pos), ScanOne(src, old(pos), tables))
    {
      var start := pos;
      ConsumeLineTerminator();
      Push(Newline, start);
    }

    method ScanContinuationOrBackslash()
      requires pos < |src| && src[pos] == BACKSLASH
      modifies this
      ensures Took(old(pos), BackslashScan(src, old(pos)))
    {
      var save := pos;
      pos := pos + 1;
      EatWhileByte(IsBlank);
      if IsLineEnd(Peek(0)) {
        ConsumeLineTerminator();
        PushTrivia(Continuation, save);
      } else {
        pos := save + 1;
        Push(OpToken(BackSlash), save);
      }
    }

    method ScanSlashOrComment()
      requires pos < |src| && src[pos] == SLASH
      modifies this
      ensures Took(old(pos), SlashScan(src, old(pos)))
    {
      var start := pos;
      if Peek(1) == SLASH {
        pos := pos + 2;
        EatWhileByte(InLine);
        PushTrivia(LineComment, start);
      } else if Peek(1) == STAR {
        ScanBlockComment();
      } else {
        pos := pos + 1;
        Push(OpToken(Slash), start);
      }
    }

    method ScanLineCommentTick()
      requires pos < |src| && src[pos] == TICK
      modifies this
      ensures Took(old(pos), ScanOne(src, old(pos), tables))
    {
      var start := pos;
      pos := pos + 1;
      EatWhileByte(InLine);
      PushTrivia(LineComment, start);
    }

    method ScanBlockComment()
      requires pos + 2 <= |src|
      modifies this
      ensures Took(old(pos), BlockScan(src, old(pos)))
    {
      var start := pos;
      pos := pos + 2;
      var depth := 1;
      while depth > 0
        invariant pos <= |src| && tokens == old(tokens) && diagnostics == old(diagnostics)
        invariant BlockEnd(src, pos, depth) == BlockEnd(src, start + 2, 1)
        decreases |src| - pos, depth
      {
        if Peek(0) == SLASH && Peek(1) == STAR {
          pos := pos + 2;
          depth := depth + 1;
        } else if Peek(0) == STAR && Peek(1) == SLASH {
          pos := pos + 2;
          depth := depth - 1;
        } else if pos < |src| {
          BumpChar();
        } else {
          Fail(UnterminatedBlockComment, start);
          return;
        }
      }
      PushTrivia(BlockComment, start);
    }

    // ── Strings ──────────────────────────────────────────────────────────

    method ScanString()
      requires pos < |src| && src[pos] == QUOTE
      modifies this
      ensures Took(old(pos), Quoted(old(pos), PlainEnd(src, old(pos) + 1), Plain))
    {
      var start := pos;
      pos := pos + 1;
      while true
        invariant pos <= |src| && tokens == old(tokens) && diagnostics == old(diagnostics)
        invariant PlainEnd(src, pos) == PlainEnd(src, start + 1)
        decreases |src| - pos
      {
        if pos >= |src| {
          Fail(UnterminatedString, start);
          return;
        } else if src[pos] == QUOTE {
          pos := pos + 1;
          Push(StrLit(Plain), start);
          return;
        } else if IsLineEnd(src[pos]) {
          Fail(NewlineInString, start);
          return;
        }
        BumpChar();
      }
    }

    method ScanDollarString()
      requires pos + 2 <= |src|
      modifies this
      ensures Took(old(pos), Quoted(old(pos), EscapedEnd(src, old(pos) + 2), Escaped))
    {
      var start := pos;
      pos := pos + 2;
      while true
        invariant pos <= |src| && tokens == old(tokens) && diagnostics == old(diagnostics)
        invariant EscapedEnd(src, pos) == EscapedEnd(src, start + 2)
        decreases |src| - pos
      {
        if pos >= |src| {
          Fail(UnterminatedString, start);
          return;
        } else if src[pos] == BACKSLASH {
          pos := pos + 1;
          if IsLineEnd(Peek(0)) {
            Fail(NewlineInString, start);
            return;
          }
          BumpChar();
        } else if src[pos] == QUOTE {
          pos := pos + 1;
          Push(StrLit(Escaped), start);
          return;
        } else if IsLineEnd(src[pos]) {
          Fail(NewlineInString, start);
          return;
        } else {
          BumpChar();
        }
      }
    }

    method ScanRawString()
      requires pos < |src| && TripleQuote(src, pos)
      modifies this
      ensures Took(old(pos), RawScan(src, old(pos)))
    {
      var start := pos;
      pos := pos + 3;
      while true
        invariant pos <= |src| && tokens == old(tokens) && diagnostics == old(diagnostics)
        invariant RawEnd(src, pos) == RawEnd(src, start + 3)
        decreases |src| - pos
      {
        if TripleQuote(src, pos) {
          pos := pos + 3;
          Push(StrLit(Raw), start);
          return;
        }
        if pos >= |src| {
          ghost var _ := Report(UnterminatedString, start, start + 3, []);
          Push(Error(UnterminatedString), start);
          return;
        }
        BumpChar();
      }
    }

    // ── Numbers ──────────────────────────────────────────────────────────

    method ScanDigitRun(radix: Radix, suppressLeadingDiag: bool) returns (bad: bool)
      requires pos <= |src|
      modifies this`pos, this`diagnostics
      ensures var r := DigitRun(src, old(pos), radix, suppressLeadingDiag);
        pos == r.end && diagnostics == old(diagnostics) + r.diags && bad == r.bad && old(pos) <= pos <= |src|
    {
      hide InRun, DigitRun, RunEnd, IsDigit;
      InRunStart(src, pos, radix, suppressLeadingDiag);
      var runStart := pos;
      var last := suppressLeadingDiag;
      ghost var hi, total := RunEnd(src, runStart, radix), DigitRun(src, runStart, radix, suppressLeadingDiag).diags;
      ghost var seen;
      bad, seen := ScanLeadingSeparator(suppressLeadingDiag);
      while pos < |src| && (IsDigit(radix, src[pos]) || src[pos] == UNDERSCORE)
        invariant runStart <= pos <= hi && RunEnd(src, pos, radix) == hi
        invariant InRun(src, pos, hi, last, pos > runStart, seen, total)
        invariant diagnostics == old(diagnostics) + seen
        invariant bad <==> suppressLeadingDiag || seen != []
        decreases |src| - pos
      {
        RunEndStep(src, pos, radix);
        last, bad, seen := ScanDigit(last, bad, pos > runStart, hi, old(diagnostics), seen, total);
      }
      RunEndStep(src, pos, radix);
      InRunEnd(src, hi, last, pos > runStart, seen, total);
      if last && pos > runStart {
        seen := Report(InvalidDigitSeparator, pos - 1, pos, seen);
        bad := true;
      }
    }

    /** The complaint about a separator in front of the first digit. */
    method ScanLeadingSeparator(suppress: bool) returns (bad: bool, ghost seen: seq<Diag>)
      requires pos <= |src|
      modifies this`diagnostics
      ensures seen == if !suppress && At(src, pos) == UNDERSCORE then [Diag(InvalidDigitSeparator, pos, pos + 1)] else []
      ensures diagnostics == old(diagnostics) + seen && (bad <==> suppress || seen != [])
    {
      bad, seen := suppress, [];
      if !suppress && Peek(0) == UNDERSCORE {
        seen := Report(InvalidDigitSeparator, pos, pos + 1, seen);
        bad := true;
      }
    }

    /** One turn of the loop: a digit, or a separator with a complaint if the byte before was one too. */
    method ScanDigit(last: bool, bad: bool, ghost some: bool, ghost hi: nat, ghost before: seq<Diag>, ghost seen: seq<Diag>,
                     ghost total: seq<Diag>)
      returns (isSeparator: bool, nowBad: bool, ghost nowSeen: seq<Diag>)
      requires pos < hi && InRun(src, pos, hi, last, some, seen, total) && diagnostics == before + seen
      modifies this`pos, this`diagnostics
      ensures pos == old(pos) + 1 && InRun(src, pos, hi, isSeparator, true, nowSeen, total)
      ensures seen <= nowSeen && diagnostics == before + nowSeen
      ensures nowBad <==> bad || nowSeen != seen
    {
      hide InRun;
      InRunStep(src, pos, hi, last, some, seen, total);
      isSeparator, nowBad, nowSeen := src[pos] == UNDERSCORE, bad, seen;
      if isSeparator && last {
        nowSeen := Report(InvalidDigitSeparator, pos, pos + 1, seen);
        nowBad := true;
      }
      pos := pos + 1;
    }

    /** Copy the digits behind the first `n` bytes of the scratch buffer, if they fit. */
    static method AppendStripped(buf: array<Byte>, n: nat, digits: seq<Byte>) returns (ok: bool, m: nat)
      requires buf.Length == SCRATCH && n <= SCRATCH
      modifies buf
      ensures ok <==> n + |Stripped(digits)| <= SCRATCH
      ensures ok ==> m <= SCRATCH && buf[..m] == old(buf[..n]) + Stripped(digits)
    {
      m := n;
      var i := 0;
      while i < |digits|
        invariant i <= |digits| && n <= m <= SCRATCH
        invariant buf[..m] + Stripped(digits[i..]) == old(buf[..n]) + Stripped(digits)
        invariant m + |Stripped(digits[i..])| == n + |Stripped(digits)|
      {
        assert digits[i..][1..] == digits[i + 1..];
        if digits[i] != UNDERSCORE {
          if m >= buf.Length { return false, m; }
          ghost var before := buf[..m];
          buf[m] := digits[i];
          m := m + 1;
          assert buf[..m] == before + [digits[i]];
        }
        i := i + 1;
      }
      ok := true;
    }

    /** Integer token or malformed-number error for the clean run `lo..pos`. */
    method FinishInteger(start: nat, lo: nat, radix: Radix)
      requires start <= lo <= pos <= |src|
      modifies this
      ensures Took(start, IntegerScan(src, start, lo, old(pos), radix))
    {
      hide Number, Stripped;
      var scratch := new Byte[SCRATCH](_ => 0);
      var ok, n := AppendStripped(scratch, 0, src[lo..pos]);
      if !ok {
        Fail(MalformedNumber, start);
        return;
      }
      assert scratch[..n] == Stripped(src[lo..pos]);
      var v := Number(scratch[..n], radix);
      if 0 <= v < U64 {
        Push(IntLit(v), start);
      } else {
        Fail(MalformedNumber, start);
      }
    }

    /** `<int>.<frac>e[sign]<exp>` without separators, if it fits the buffer. */
    static method BuildFloat(buf: array<Byte>, src: seq<Byte>, start: nat, intEnd: nat, fracEnd: nat, end: nat)
      returns (ok: bool, n: nat)
      requires start <= intEnd <= fracEnd <= end <= |src| && buf.Length == SCRATCH
      modifies buf
      ensures ok <==> |FloatText(src, start, intEnd, fracEnd, end)| <= SCRATCH
      ensures ok ==> n <= SCRATCH && buf[..n] == FloatText(src, start, intEnd, fracEnd, end)
    {
      hide Stripped;
      ok, n := AppendStripped(buf, 0, src[start..intEnd]);
      if !ok { return; }
      if intEnd < fracEnd {
        if n >= buf.Length { return false, n; }
        ghost var whole := buf[..n];
        buf[n] := DOT;
        n := n + 1;
        assert buf[..n] == whole + [DOT];
        ok, n := AppendStripped(buf, n, src[intEnd + 1..fracEnd]);
        if !ok { return; }
      }
      ok, n := AppendStripped(buf, n, src[fracEnd..end]);
    }

    method FinishFloat(start: nat, intEnd: nat, fracEnd: nat)
      requires start <= intEnd <= fracEnd <= pos <= |src|
      modifies this
      ensures Took(start, FloatScan(src, start, intEnd, fracEnd, old(pos), tables))
    {
      hide FloatText;
      var buf := new Byte[SCRATCH](_ => 0);
      var ok, n := BuildFloat(buf, src, start, intEnd, fracEnd, pos);
      if !ok {
        Fail(MalformedNumber, start);
        return;
      }
      var bits := tables.parseFloat(buf[..n]);
      if bits.Some? {
        Push(FloatLit(bits.value), start);
      } else {
        Fail(MalformedNumber, start);
      }
    }

    method ScanFraction() returns (bad: bool)
      requires pos <= |src|
      modifies this`pos, this`diagnostics
      ensures var r := FracRun(src, old(pos));
        pos == r.end && diagnostics == old(diagnostics) + r.diags && bad == r.bad && old(pos) <= pos <= |src|
    {
      hide DigitRun;
      bad := false;
      if Peek(0) == DOT && IsDigit(Decimal, Peek(1)) {
        pos := pos + 1;
        bad := ScanDigitRun(Decimal, false);
      }
    }

    method ScanExponent() returns (bad: bool, missing: bool)
      requires pos <= |src|
      modifies this`pos, this`diagnostics
      ensures var r := ExpRun(src, old(pos));
        pos == r.end && diagnostics == old(diagnostics) + r.diags && bad == r.bad && old(pos) <= pos <= |src|
      ensures missing <==> IsExponentMark(At(src, old(pos))) && pos == AfterSign(src, old(pos) + 1)
    {
      hide DigitRun;
      bad, missing := false, false;
      if IsExponentMark(Peek(0)) {
        pos := pos + 1;
        if Peek(0) == PLUS || Peek(0) == MINUS { pos := pos + 1; }
        var expStart := pos;
        bad := ScanDigitRun(Decimal, false);
        missing := pos == expStart;
      }
    }

    method ScanNumberDecimalOrFloat()
      requires pos < |src| && IsDigit(Decimal, src[pos])
      modifies this
      ensures Took(old(pos), DecimalScan(src, old(pos), tables))
    {
      hide DigitRun, ExpRun, FracRun, AfterSign, NumberToken, DecimalScan;
      var start := pos;
      DecimalParts(src, start, tables);
      var badInt := ScanDigitRun(Decimal, false);
      var intEnd := pos;
      var badFrac := ScanFraction();
      var fracEnd := pos;
      var badExp, missing := ScanExponent();
      FinishNumber(start, intEnd, fracEnd, badInt || badFrac || badExp, missing);
      ghost var whole, frac, exp := DigitRun(src, start, Decimal, false), FracRun(src, intEnd), ExpRun(src, fracEnd);
      ghost var r := NumberToken(src, start, intEnd, fracEnd, exp.end, badInt || badFrac || badExp, missing, tables);
      JoinDiags(old(diagnostics), whole.diags, frac.diags, exp.diags, r.diags);
    }

    /** The token for what has been scanned, whose own complaints are reported already. */
    method FinishNumber(start: nat, intEnd: nat, fracEnd: nat, bad: bool, missing: bool)
      requires start <= intEnd <= fracEnd <= pos <= |src|
      modifies this
      ensures Took(start, NumberToken(src, start, intEnd, fracEnd, old(pos), bad, missing, tables))
    {
      hide FloatScan, IntegerScan;
      if missing {
        Fail(MalformedNumber, start);
      } else if bad {
        Push(Error(InvalidDigitSeparator), start);
      } else if pos > intEnd {
        FinishFloat(start, intEnd, fracEnd);
      } else {
        FinishInteger(start, start, Decimal);
      }
    }

    method ScanRadixNumber(radix: Radix)
      requires pos < |src|
      modifies this
      ensures Took(old(pos), RadixScan(src, old(pos), radix))
    {
      hide DigitRun, IntegerScan;
      var start := pos;
      pos := pos + 1;
      if IsDigit(radix, Peek(0)) {
        var lo := pos;
        var bad := ScanDigitRun(radix, false);
        if bad { Push(Error(InvalidDigitSeparator), start); } else { FinishInteger(start, lo, radix); }
      } else if Peek(0) == UNDERSCORE {
        ghost var _ := Report(InvalidDigitSeparator, pos, pos + 1, []);
        pos := pos + 1;
        var _ := ScanDigitRun(radix, true);
        Push(Error(InvalidDigitSeparator), start);
      } else {
        Fail(UnexpectedChar, start);
      }
    }

    // ── Identifiers, operators, dispatch ─────────────────────────────────

    method ScanIdent()
      requires pos < |src|
      modifies this
      ensures Took(old(pos), IdentScan(src, old(pos), tables))
    {
      var start := pos;
      BumpChar();
      IdentEndBounds(src, pos, tables);
      var c := PeekChar(src, pos);
      while c.Some? && (c.value == UNDERSCORE || tables.xidContinue(c.value))
        invariant pos <= |src| && c == PeekChar(src, pos) && tokens == old(tokens) && diagnostics == old(diagnostics)
        invariant IdentEnd(src, pos, tables) == IdentEnd(src, NextChar(src, start), tables) && start < pos
        decreases |src| - pos
      {
        BumpChar();
        c := PeekChar(src, pos);
      }
      FinishIdent(start);
    }

    /** The word `start..pos`: a comment marker, a keyword or a name with its sigil. */
    method FinishIdent(start: nat)
      requires start < |src| && start <= pos <= |src| && pos == IdentEnd(src, NextChar(src, start), tables)
      modifies this
      ensures Took(start, IdentScan(src, start, tables))
    {
      hide IdentEnd, NextChar;
      var body := src[start..pos];
      if IsRem(body) {
        EatWhileByte(InLine);
        PushTrivia(LineComment, start);
        return;
      }
      var keyword := tables.keyword(body);
      if keyword.Some? {
        Push(Keyword(keyword.value), start);
        return;
      }
      var sigil := SigilAt(Peek(0));
      if sigil.Some? { pos := pos + 1; }
      Push(Ident(sigil), start);
    }

    method EmitSingle(kind: Kind)
      requires pos < |src| && SingleByte(src[pos]) == Some(kind)
      modifies this
      ensures Took(old(pos), Scan(kind, old(pos) + 1, []))
    {
      var start := pos;
      pos := pos + 1;
      Push(kind, start);
    }

    method ScanAngle()
      requires pos < |src| && (src[pos] == 0x3C || src[pos] == 0x3E)
      modifies this
      ensures Took(old(pos), AngleScan(src, old(pos)))
    {
      var start := pos;
      var less := src[pos] == 0x3C;
      pos := pos + 1;
      if Peek(0) == 0x3D {
        pos := pos + 1;
        Push(OpToken(if less then LtEq else GtEq), start);
      } else if less && Peek(0) == 0x3E {
        pos := pos + 1;
        Push(OpToken(NotEq), start);
      } else {
        Push(OpToken(if less then Lt else Gt), start);
      }
    }

    method ScanUnexpected()
      requires pos < |src|
      modifies this
      ensures Took(old(pos), Unexpected(old(pos), NextChar(src, old(pos))))
    {
      var start := pos;
      BumpChar();
      Fail(UnexpectedChar, start);
    }

    method ScanOneToken()
      requires pos < |src|
      modifies this
      ensures Took(old(pos), ScanOne(src, old(pos), tables))
    {
      hide IdentScan, RadixScan, DecimalScan, SlashScan, BackslashScan, RawScan, PlainEnd, EscapedEnd, AngleScan, NextChar, PeekChar;
      var b := src[pos];
      if IsBlank(b) {
        ScanWhitespace();
      } else if IsLineEnd(b) {
        ScanNewline();
      } else if b == BACKSLASH {
        ScanContinuationOrBackslash();
      } else if b == TICK {
        ScanLineCommentTick();
      } else if b == SLASH {
        ScanSlashOrComment();
      } else if b == QUOTE {
        if TripleQuote(src, pos) { ScanRawString(); } else { ScanString(); }
      } else if b == DOLLAR {
        if Peek(1) == QUOTE { ScanDollarString(); } else { ScanRadixNumber(Hex); }
      } else if b == PERCENT {
        ScanRadixNumber(Binary);
      } else if IsDigit(Decimal, b) {
        ScanNumberDecimalOrFloat();
      } else {
        ScanSymbolOrIdent();
      }
    }

    method ScanSymbolOrIdent()
      requires pos < |src|
      requires var b := src[pos]; !IsBlank(b) && !IsLineEnd(b) && !IsDigit(Decimal, b)
      requires src[pos] !in [BACKSLASH, TICK, SLASH, QUOTE, DOLLAR, PERCENT]
      modifies this
      ensures Took(old(pos), ScanOne(src, old(pos), tables))
    {
      hide IdentScan, AngleScan, NextChar, PeekChar;
      var b := src[pos];
      if b == 0x3C || b == 0x3E {
        ScanAngle();
      } else if SingleByte(b).Some? {
        EmitSingle(SingleByte(b).value);
      } else if b == UNDERSCORE || IsAsciiLetter(b) {
        ScanIdent();
      } else if b >= 0x80 && PeekChar(src, pos).Some? && tables.xidStart(PeekChar(src, pos).value) {
        ScanIdent();
      } else {
        ScanUnexpected();
      }
    }

    // ── The run ──────────────────────────────────────────────────────────

    /** The whole text: every token the options keep, then Eof at the end of the text. */
    method Run()
      requires WellFormed(src) && pos == 0 && tokens == [] && diagnostics == []
      modifies this
      ensures pos == |src|
      ensures Cursor(src, AfterBom(src))
      ensures var all := AllTokens(src, AfterBom(src), tables);
        tokens == (if preserveTrivia then all else Significant(all)) + [Token(Eof, |src|, |src|)]
      ensures diagnostics == AllDiags(src, AfterBom(src), tables)
    {
      hide WellFormed, AllTokens, AllDiags, ScanOne, Significant;
      BomIsCursor(src);
      if BOM <= src { pos := pos + |BOM|; }
      ghost var all: seq<Token> := [];
      SignificantEmpty();
      while pos < |src|
        invariant Cursor(src, pos)
        invariant all + AllTokens(src, pos, tables) == AllTokens(src, AfterBom(src), tables)
        invariant diagnostics + AllDiags(src, pos, tables) == AllDiags(src, AfterBom(src), tables)
        invariant tokens == if preserveTrivia then all else Significant(all)
        decreases |src| - pos
      {
        ghost var r, start := ScanOne(src, pos, tables), pos;
        AllStep(src, pos, tables, all, diagnostics);
        SignificantSnoc(all, Token(r.kind, start, r.end));
        ScanOneToken();
        all := all + [Token(r.kind, start, r.end)];
      }
      AllEnd(src, tables);
      assert all + [] == all && diagnostics + [] == diagnostics;
      Push(Eof, pos);
    }
  }

  lemma SignificantEmpty()
    ensures Significant([]) == []
  {
  }

  lemma AllStep(src: seq<Byte>, pos: nat, t: Tables, before: seq<Token>, complaints: seq<Diag>)
    requires Cursor(src, pos) && pos < |src|
    ensures var r := ScanOne(src, pos, t);
      && pos < r.end && Cursor(src, r.end)
      && before + AllTokens(src, pos, t) == (before + [Token(r.kind, pos, r.end)]) + AllTokens(src, r.end, t)
      && complaints + AllDiags(src, pos, t) == (complaints + r.diags) + AllDiags(src, r.end, t)
  {
    AllUnfold(src, pos, t);
    var r := ScanOne(src, pos, t);
    hide ScanOne, WellFormed, AllTokens, AllDiags;
    assert before + ([Token(r.kind, pos, r.end)] + AllTokens(src, r.end, t)) == (before + [Token(r.kind, pos, r.end)]) + AllTokens(src, r.end, t);
    assert complaints + (r.diags + AllDiags(src, r.end, t)) == (complaints + r.diags) + AllDiags(src, r.end, t);
  }

  lemma AllUnfold(src: seq<Byte>, pos: nat, t: Tables)
    requires Cursor(src, pos) && pos < |src|
    ensures var r := ScanOne(src, pos, t);
      && pos < r.end && Cursor(src, r.end)
      && AllTokens(src, pos, t) == [Token(r.kind, pos, r.end)] + AllTokens(src, r.end, t)
      && AllDiags(src, pos, t) == r.diags + AllDiags(src, r.end, t)
  {
    hide ScanOne, WellFormed;
    ScanGood(src, pos, t);
  }

  lemma AllEnd(src: seq<Byte>, t: Tables)
    requires Cursor(src, |src|)
    ensures AllTokens(src, |src|, t) == [] && AllDiags(src, |src|, t) == []
  {
  }

  lemma {:induction false} SignificantSnoc(ts: seq<Token>, t: Token)
    ensures Significant(ts + [t]) == Significant(ts) + if IsTrivia(t.kind) then [] else [t]
  {
    if ts == [] {
      assert [t][1..] == [];
    } else {
      SignificantSnoc(ts[1..], t);
      assert (ts + [t])[1..] == ts[1..] + [t];
    }
  }
}
