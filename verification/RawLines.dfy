/** What a `"""…"""` literal stands for, line by line: indented enough, too little, or blank. */
module RawLines {
  import opened Common
  import opened Utf8
  import opened SourceText
  import opened LexSpec
  import opened StringValue
  import opened RawString

  // ── Lines as they are written ──────────────────────────────────────────

  /** A content line: the blanks it starts with, the rest of its text, and its line end. */
  datatype RawLine = RawLine(blanks: seq<Byte>, rest: seq<Byte>, nl: seq<Byte>)

  predicate OnlyBlankBytes(s: seq<Byte>) {
    forall k | 0 <= k < |s| :: s[k] == ' ' as int || s[k] == '\t' as int
  }

  predicate GoodLine(l: RawLine) {
    && OnlyBlankBytes(l.blanks)
    && (l.rest != [] ==> l.rest[0] != ' ' as int && l.rest[0] != '\t' as int)
    && '\n' as int !in l.rest
    && (l.nl == ['\n' as int] || l.nl == ['\r' as int, '\n' as int])
    && (l.nl == ['\n' as int] && l.rest != [] ==> l.rest[|l.rest| - 1] != '\r' as int)
  }

  function LineText(l: RawLine): seq<Byte> {
    l.blanks + l.rest + l.nl
  }

  /** The line has text, and it does not start with the indent. */
  predicate TooLittle(l: RawLine, indent: seq<Byte>) {
    l.rest != [] && !(indent <= l.blanks)
  }

  /** A blank line keeps its line end only. Any other loses as many of its blanks as the indent is long, or all it
      has. */
  function LineMeans(l: RawLine, indent: seq<Byte>): seq<Byte> {
    if l.rest == [] then l.nl
    else (if |indent| <= |l.blanks| then l.blanks[|indent|..] else []) + l.rest + l.nl
  }

  predicate GoodLines(ls: seq<RawLine>) {
    forall k | 0 <= k < |ls| :: GoodLine(ls[k])
  }

  function Texts(ls: seq<RawLine>): seq<seq<Byte>> {
    if ls == [] then [] else [LineText(ls[0])] + Texts(ls[1..])
  }

  function Means(ls: seq<RawLine>, indent: seq<Byte>): seq<Byte> {
    if ls == [] then [] else LineMeans(ls[0], indent) + Means(ls[1..], indent)
  }

  /** One complaint for each line that is indented too little, over that line; the first line starts at `at`. */
  function Complaints(ls: seq<RawLine>, indent: seq<Byte>, at: nat): seq<IndentDiag> {
    if ls == [] then []
    else
      var next := at + |LineText(ls[0])|;
      (if TooLittle(ls[0], indent) then [IndentDiag(at, next)] else []) + Complaints(ls[1..], indent, next)
  }

  // ── One line ───────────────────────────────────────────────────────────

  lemma SplitsText(l: RawLine)
    requires GoodLine(l)
    ensures SplitNewline(LineText(l)) == (l.blanks + l.rest, l.nl)
  {
    var text := l.blanks + l.rest;
    var line := LineText(l);
    var n := |line|;
    assert line == text + l.nl;
    assert line[n - 1] == LF && line[..n - |l.nl|] == text && line[n - |l.nl|..] == l.nl;
    if l.nl == [LF] && n >= 2 { assert line[n - 2] == text[n - 2]; }
  }

  lemma BlankLine(l: RawLine)
    requires GoodLine(l)
    ensures AllBlank(l.blanks + l.rest) <==> l.rest == []
    ensures EatWhile(l.blanks + l.rest, 0, IsBlank) == |l.blanks|
  {
    var text := l.blanks + l.rest;
    var e := EatWhile(text, 0, IsBlank);
    assert forall k | 0 <= k < |l.blanks| :: text[k] == l.blanks[k] && IsBlank(text[k]);
    if l.rest != [] { assert text[|l.blanks|] == l.rest[0]; }
  }

  /** An indent is a prefix of the line exactly when it is one of the line's blanks. */
  lemma PrefixOfBlanks(l: RawLine, indent: seq<Byte>)
    requires GoodLine(l) && OnlyBlankBytes(indent) && l.rest != []
    ensures indent <= l.blanks + l.rest <==> indent <= l.blanks
    ensures indent <= l.blanks ==> (l.blanks + l.rest)[|indent|..] == l.blanks[|indent|..] + l.rest
  {
    var text := l.blanks + l.rest;
    if indent <= text {
      assert text[|l.blanks|] == l.rest[0];
      assert |indent| <= |l.blanks|;
      assert indent == l.blanks[..|indent|];
    }
  }

  lemma LineValueIs(l: RawLine, indent: seq<Byte>)
    requires GoodLine(l) && OnlyBlankBytes(indent)
    ensures LineValue(LineText(l), indent) == (LineMeans(l, indent), TooLittle(l, indent))
  {
    SplitsText(l);
    BlankLine(l);
    if l.rest != [] { PrefixOfBlanks(l, indent); }
    var text, m := l.blanks + l.rest, Min(|l.blanks|, |indent|);
    assert text[m..] == l.blanks[m..] + l.rest;
    assert m == |l.blanks| ==> l.blanks[m..] == [];
    hide SplitNewline, LineText, GoodLine, AllBlank, OnlyBlankBytes, EatWhile;
  }

  // ── All lines ──────────────────────────────────────────────────────────

  lemma {:induction false} LinesValueIs(ls: seq<RawLine>, indent: seq<Byte>, at: nat)
    requires GoodLines(ls) && OnlyBlankBytes(indent)
    ensures LinesValue(Texts(ls), indent, at) == (Means(ls, indent), Complaints(ls, indent, at))
  {
    hide LineValue, LineText, GoodLine, LineMeans, TooLittle, OnlyBlankBytes;
    if ls != [] {
      LineValueIs(ls[0], indent);
      LinesValueIs(ls[1..], indent, at + |LineText(ls[0])|);
      assert Texts(ls)[0] == LineText(ls[0]) && Texts(ls)[1..] == Texts(ls[1..]);
    }
  }

  lemma TextEndsInLf(l: RawLine)
    requires GoodLine(l)
    ensures var t := LineText(l); |t| > 0 && t[|t| - 1] == LF && forall k | 0 <= k < |t| - 1 :: t[k] != LF
  {
    var t := LineText(l);
    forall k | 0 <= k < |t| - 1 ensures t[k] != LF {
      if k < |l.blanks| { assert t[k] == l.blanks[k]; }
      else if k < |l.blanks| + |l.rest| { assert t[k] == l.rest[k - |l.blanks|]; }
    }
  }

  lemma {:induction false} LinesOfTexts(ls: seq<RawLine>)
    requires GoodLines(ls)
    ensures Lines(Flatten(Texts(ls))) == Texts(ls)
    ensures var flat := Flatten(Texts(ls)); if ls == [] then flat == [] else flat != [] && flat[|flat| - 1] == LF
  {
    hide Lines, LineText, GoodLine;
    NoText();
    if ls != [] {
      var first, tail := LineText(ls[0]), Flatten(Texts(ls[1..]));
      LinesOfTexts(ls[1..]);
      TextEndsInLf(ls[0]);
      assert Texts(ls)[1..] == Texts(ls[1..]);
      assert Flatten(Texts(ls)) == first + tail;
      LinesStep(first + tail, 0, |first| - 1, []);
      assert (first + tail)[0..] == first + tail && (first + tail)[0..|first|] == first && (first + tail)[|first|..] == tail;
      assert [] + Lines(first + tail) == Lines(first + tail);
      assert [] + [first] == [first];
      hide Flatten, Texts;
    }
  }

  // ── Whole literals ─────────────────────────────────────────────────────

  /** The line break behind the opener, if there is one; without it the first line must have text of its own. */
  predicate Opening(open: seq<Byte>, ls: seq<RawLine>) {
    || open == ['\n' as int] || open == ['\r' as int, '\n' as int]
    || (open == [] && ls != [] && ls[0].blanks + ls[0].rest != [])
  }

  function Delimit(body: seq<Byte>): seq<Byte> {
    ['"' as int, '"' as int, '"' as int] + body + ['"' as int, '"' as int, '"' as int]
  }

  lemma StripDelimited(body: seq<Byte>)
    ensures StripTriple(Delimit(body)) == body
  {
    var raw := Delimit(body);
    assert raw[3..|raw| - 3] == body;
  }

  /** A literal whose closer stands on a line of its own, behind the indent: each line gives its meaning, and the
      complaints are about the lines that are indented too little. */
  lemma RawMeans(open: seq<Byte>, ls: seq<RawLine>, indent: seq<Byte>, lo: nat, hi: nat)
    requires GoodLines(ls) && OnlyBlankBytes(indent) && Opening(open, ls)
    ensures RawValue(Delimit(open + Flatten(Texts(ls)) + indent), lo, hi) ==
            (Means(ls, indent), Complaints(ls, indent, lo + 3 + |open|))
  {
    hide Delimit, RawValue, Flatten, Texts, Lines, LinesValue, GoodLines, Opening, DropLeadingBreak, Means, Complaints;
    var flat := Flatten(Texts(ls));
    LinesOfTexts(ls);
    BreakDropped(open, ls);
    WholeEnd(open, ls);
    DecodesWhole(open + flat, indent, lo, hi);
    LinesValueIs(ls, indent, lo + 3 + |open|);
  }

  lemma WholeEnd(open: seq<Byte>, ls: seq<RawLine>)
    requires GoodLines(ls) && Opening(open, ls)
    ensures var whole := open + Flatten(Texts(ls)); whole != [] && whole[|whole| - 1] == LF
  {
    LinesOfTexts(ls);
    hide Flatten, Texts, Lines, GoodLines;
  }

  lemma DecodesWhole(whole: seq<Byte>, indent: seq<Byte>, lo: nat, hi: nat)
    requires whole != [] && whole[|whole| - 1] == LF && OnlyBlankBytes(indent)
    ensures var content := DropLeadingBreak(whole);
      |content| <= |whole| && RawValue(Delimit(whole + indent), lo, hi) == LinesValue(Lines(content), indent, lo + 3 + (|whole| - |content|))
  {
    hide Delimit, StripTriple, LastLf, Lines, LinesValue, AllBlank, OnlyBlankBytes, DropLeadingBreak;
    var body := whole + indent;
    StripDelimited(body);
    EndOfLines(whole, indent);
    BreakShortens(whole);
    assert RawValue(Delimit(body), lo, hi) ==
           LinesValue(Lines(DropLeadingBreak(body[..|whole|])), body[|whole|..], lo + 3 + (|body[..|whole|]| - |DropLeadingBreak(body[..|whole|])|));
  }

  lemma BreakShortens(s: seq<Byte>)
    ensures |DropLeadingBreak(s)| <= |s|
  {
  }

  lemma EndOfLines(whole: seq<Byte>, indent: seq<Byte>)
    requires whole != [] && whole[|whole| - 1] == LF && OnlyBlankBytes(indent)
    ensures var body := whole + indent;
      LastLf(body) == Some(|whole| - 1) && body[..|whole|] == whole && body[|whole|..] == indent && AllBlank(indent)
  {
    var body := whole + indent;
    assert forall k | |whole| <= k < |body| :: body[k] == indent[k - |whole|];
    LastLfIs(body, |whole| - 1);
    hide LastLf;
  }

  lemma BreakDropped(open: seq<Byte>, ls: seq<RawLine>)
    requires GoodLines(ls) && Opening(open, ls)
    ensures DropLeadingBreak(open + Flatten(Texts(ls))) == Flatten(Texts(ls))
  {
    var flat := Flatten(Texts(ls));
    var s := open + flat;
    if open == [] {
      var l := ls[0];
      var t := LineText(l);
      assert s == flat == t + Flatten(Texts(ls)[1..]);
      TextEndsInLf(l);
      var head := l.blanks + l.rest;
      assert t == head + l.nl && t[0] == head[0] != LF && s[0] == t[0];
      if t[0] == CR { NoBreakInside(l); assert s[1] == t[1]; }
    } else if open == [LF] {
      assert s[0] == LF && s[1..] == flat;
    } else {
      assert s[..2] == open && s[2..] == flat;
    }
  }

  lemma NoBreakInside(l: RawLine)
    requires GoodLine(l) && l.blanks + l.rest != [] && (l.blanks + l.rest)[0] == CR
    ensures |LineText(l)| > 1 && LineText(l)[1] != LF
  {
    assert l.blanks == [];
    var t := LineText(l);
    assert t == l.rest + l.nl && l.rest[0] == CR;
    if |l.rest| > 1 { assert t[1] == l.rest[1]; } else { assert t[1] == l.nl[0]; }
  }

  /** A closer that does not stand on a line of its own: the body is taken as it is, with one complaint over the
      closer. */
  lemma CloserNotAlone(front: seq<Byte>, tail: seq<Byte>, lo: nat, hi: nat)
    requires '\n' as int !in tail && (front == [] || (front[|front| - 1] == '\n' as int && !OnlyBlankBytes(tail))) && hi >= 3
    ensures RawValue(Delimit(front + tail), lo, hi) == (front + tail, [IndentDiag(hi - 3, hi)])
  {
    hide Delimit, StripTriple, Lines, LinesValue;
    var body := front + tail;
    StripDelimited(body);
    if front == [] {
      assert body == tail;
    } else {
      assert forall k | |front| <= k < |body| :: body[k] == tail[k - |front|] && tail[k - |front|] in tail;
      LastLfIs(body, |front| - 1);
      assert body[|front|..] == tail;
      assert !AllBlank(tail);
      hide LastLf;
    }
  }
}
