/** Decoding of `"""…"""` literals (string_value.rs): indent stripping by the closing line. */
module RawString {
  import opened Common
  import opened Utf8
  import opened SourceText
  import opened LexSpec
  import opened LexTheorems
  import opened StringValue

  /** A complaint about the indent of a raw literal (E0209). */
  datatype IndentDiag = IndentDiag(lo: nat, hi: nat)

  predicate AllBlank(s: seq<Byte>) {
    forall k | 0 <= k < |s| :: IsBlank(s[k])
  }

  /** Position of the last line feed. */
  function LastLf(s: seq<Byte>): (r: Option<nat>)
    ensures r.Some? ==> r.value < |s| && s[r.value] == LF && LF !in s[r.value + 1..]
    ensures r.None? ==> LF !in s
  {
    if s == [] then None
    else if s[|s| - 1] == LF then Some(|s| - 1)
    else
      var r := LastLf(s[..|s| - 1]);
      assert s == s[..|s| - 1] + [s[|s| - 1]];
      assert r.Some? ==> s[r.value + 1..] == s[..|s| - 1][r.value + 1..] + [s[|s| - 1]];
      r
  }

  /** split_keep_newlines. */
  function Lines(text: seq<Byte>): seq<seq<Byte>> {
    if text == [] then []
    else
      var k := EatWhile(text, 0, NotLf);
      if k == |text| then [text] else [text[..k + 1]] + Lines(text[k + 1..])
  }

  predicate NotLf(b: Byte) {
    b != LF
  }

  method SplitKeepNewlines(text: seq<Byte>) returns (out: seq<seq<Byte>>)
    ensures out == Lines(text)
  {
    hide Lines;
    out := [];
    var start, i := 0, 0;
    assert text[0..] == text;
    while i < |text|
      invariant start <= i <= |text|
      invariant forall k | start <= k < i :: text[k] != LF
      invariant out + Lines(text[start..]) == Lines(text)
    {
      if text[i] == LF {
        LinesStep(text, start, i, out);
        out := out + [text[start..i + 1]];
        start := i + 1;
      }
      i := i + 1;
    }
    LinesEnd(text, start);
    if start < |text| { out := out + [text[start..]]; } else { assert out + [] == out; }
  }

  lemma LinesStep(text: seq<Byte>, start: nat, i: nat, out: seq<seq<Byte>>)
    requires start <= i < |text| && text[i] == LF && forall k | start <= k < i :: text[k] != LF
    ensures out + Lines(text[start..]) == (out + [text[start..i + 1]]) + Lines(text[i + 1..])
  {
    var rest := text[start..];
    var k := EatWhile(rest, 0, NotLf);
    assert rest[i - start] == LF;
    assert k < |rest| ==> rest[k] == text[start + k];
    assert rest[..i - start + 1] == text[start..i + 1] && rest[i - start + 1..] == text[i + 1..];
    assert out + ([text[start..i + 1]] + Lines(text[i + 1..])) == (out + [text[start..i + 1]]) + Lines(text[i + 1..]);
  }

  lemma LinesEnd(text: seq<Byte>, start: nat)
    requires start <= |text| && forall k | start <= k < |text| :: text[k] != LF
    ensures Lines(text[start..]) == if start < |text| then [text[start..]] else []
  {
    var rest := text[start..];
    assert forall k | 0 <= k < |rest| :: rest[k] == text[start + k];
  }

  /** split_line_newline: the text of a line and its `\r\n` or `\n`. */
  function SplitNewline(line: seq<Byte>): (r: (seq<Byte>, seq<Byte>))
    ensures line == r.0 + r.1
  {
    var n := |line|;
    if n >= 2 && line[n - 2] == CR && line[n - 1] == LF then (line[..n - 2], line[n - 2..])
    else if n >= 1 && line[n - 1] == LF then (line[..n - 1], line[n - 1..])
    else (line, [])
  }

  /** What a content line contributes, and whether it is indented too little. */
  function LineValue(line: seq<Byte>, indent: seq<Byte>): (seq<Byte>, bool) {
    var (text, nl) := SplitNewline(line);
    if AllBlank(text) then (nl, false)
    else if indent <= text then (text[|indent|..] + nl, false)
    else (text[Min(EatWhile(text, 0, IsBlank), |indent|)..] + nl, true)
  }

  function LinesValue(lines: seq<seq<Byte>>, indent: seq<Byte>, at: nat): (seq<Byte>, seq<IndentDiag>) {
    if lines == [] then ([], [])
    else
      var (out, bad) := LineValue(lines[0], indent);
      var rest := LinesValue(lines[1..], indent, at + |lines[0]|);
      (out + rest.0, (if bad then [IndentDiag(at, at + |lines[0]|)] else []) + rest.1)
  }

  /** The content without the line break that follows the opener. */
  function DropLeadingBreak(s: seq<Byte>): seq<Byte> {
    if [CR, LF] <= s then s[2..] else if [LF] <= s then s[1..] else s
  }

  function StripTriple(raw: seq<Byte>): seq<Byte> {
    if |raw| >= 6 && TripleQuote(raw, 0) && TripleQuote(raw, |raw| - 3) then raw[3..|raw| - 3] else raw
  }

  /** decode_raw of the literal that spans `lo..hi`. */
  function RawValue(raw: seq<Byte>, lo: nat, hi: nat): (seq<Byte>, seq<IndentDiag>) {
    var body := StripTriple(raw);
    var notOwnLine := (body, [IndentDiag(if hi >= 3 then hi - 3 else 0, hi)]);
    var nl := LastLf(body);
    if nl.None? then notOwnLine
    else
      var indent := body[nl.value + 1..];
      if !AllBlank(indent) then notOwnLine
      else
        var whole := body[..nl.value + 1];
        var content := DropLeadingBreak(whole);
        LinesValue(Lines(content), indent, lo + 3 + (|whole| - |content|))
  }

  method DecodeRaw(raw: seq<Byte>, lo: nat, hi: nat) returns (out: seq<Byte>, diags: seq<IndentDiag>)
    ensures (out, diags) == RawValue(raw, lo, hi)
  {
    var body := StripTriple(raw);
    var nl := LastLf(body);
    var close := IndentDiag(if hi >= 3 then hi - 3 else 0, hi);
    if nl.None? { return body, [close]; }
    var indent := body[nl.value + 1..];
    if !AllBlank(indent) { return body, [close]; }
    var content := DropLeadingBreak(body[..nl.value + 1]);
    var contentStart := lo + 3 + (nl.value + 1 - |content|);
    var lines := SplitKeepNewlines(content);
    out, diags := DecodeLines(lines, indent, contentStart);
  }

  method DecodeLines(lines: seq<seq<Byte>>, indent: seq<Byte>, contentStart: nat) returns (out: seq<Byte>, diags: seq<IndentDiag>)
    ensures (out, diags) == LinesValue(lines, indent, contentStart)
  {
    hide LinesValue, LineValue;
    out, diags := [], [];
    var at: nat := contentStart;
    assert lines[0..] == lines;
    for i := 0 to |lines|
      invariant out + LinesValue(lines[i..], indent, at).0 == LinesValue(lines, indent, contentStart).0
      invariant diags + LinesValue(lines[i..], indent, at).1 == LinesValue(lines, indent, contentStart).1
    {
      var (text, bad) := LineValue(lines[i], indent);
      LinesValueStep(lines, i, indent, at, out, diags);
      out := out + text;
      if bad { diags := diags + [IndentDiag(at, at + |lines[i]|)]; }
      at := at + |lines[i]|;
    }
    NoLines(lines[|lines|..], indent, at);
    assert out + [] == out && diags + [] == diags;
  }

  lemma NoLines(lines: seq<seq<Byte>>, indent: seq<Byte>, at: nat)
    requires lines == []
    ensures LinesValue(lines, indent, at) == ([], [])
  {
  }

  lemma LinesValueStep(lines: seq<seq<Byte>>, i: nat, indent: seq<Byte>, at: nat, out: seq<Byte>, diags: seq<IndentDiag>)
    requires i < |lines|
    ensures var (text, bad) := LineValue(lines[i], indent);
      var here, next := LinesValue(lines[i..], indent, at), LinesValue(lines[i + 1..], indent, at + |lines[i]|);
      && out + here.0 == (out + text) + next.0
      && diags + here.1 == (if bad then diags + [IndentDiag(at, at + |lines[i]|)] else diags) + next.1
  {
    hide LineValue;
    assert lines[i..][0] == lines[i] && lines[i..][1..] == lines[i + 1..];
    var (text, bad) := LineValue(lines[i], indent);
    var next := LinesValue(lines[i + 1..], indent, at + |lines[i]|);
    assert out + (text + next.0) == (out + text) + next.0;
    var d := if bad then [IndentDiag(at, at + |lines[i]|)] else [];
    assert diags + (d + next.1) == (diags + d) + next.1;
    assert diags + [] == diags;
  }

  // ── Complaints lie inside the literal ──────────────────────────────────

  function TotalLength(lines: seq<seq<Byte>>): nat {
    if lines == [] then 0 else |lines[0]| + TotalLength(lines[1..])
  }

  lemma {:induction false} LinesTile(text: seq<Byte>)
    ensures TotalLength(Lines(text)) == |text|
    decreases |text|
  {
    if text != [] {
      var k := EatWhile(text, 0, NotLf);
      if k == |text| {
        assert [text][1..] == [];
      } else {
        LinesTile(text[k + 1..]);
        assert ([text[..k + 1]] + Lines(text[k + 1..]))[1..] == Lines(text[k + 1..]);
      }
    }
  }

  predicate DiagsIn(ds: seq<IndentDiag>, lo: nat, hi: nat) {
    forall k | 0 <= k < |ds| :: lo <= ds[k].lo <= ds[k].hi <= hi
  }

  lemma {:induction false} LineDiagsInside(lines: seq<seq<Byte>>, indent: seq<Byte>, at: nat)
    ensures DiagsIn(LinesValue(lines, indent, at).1, at, at + TotalLength(lines))
  {
    hide LineValue;
    if lines != [] {
      var n := |lines[0]|;
      LineDiagsInside(lines[1..], indent, at + n);
      var rest := LinesValue(lines[1..], indent, at + n).1;
      assert DiagsIn(rest, at + n, at + n + TotalLength(lines[1..]));
      assert LinesValue(lines, indent, at).1 == (if LineValue(lines[0], indent).1 then [IndentDiag(at, at + n)] else []) + rest;
    }
  }

  /** For the text of a raw token, every complaint lies inside the token. */
  lemma RawDiagsInside(raw: seq<Byte>, lo: nat)
    requires |raw| >= 6 && TripleQuote(raw, 0) && TripleQuote(raw, |raw| - 3)
    ensures DiagsIn(RawValue(raw, lo, lo + |raw|).1, lo, lo + |raw|)
  {
    hide Lines, LinesValue, LastLf, AllBlank, TripleQuote;
    var body := raw[3..|raw| - 3];
    assert StripTriple(raw) == body;
    hide StripTriple;
    var nl := LastLf(body);
    if nl.Some? && AllBlank(body[nl.value + 1..]) {
      var whole := body[..nl.value + 1];
      var content := DropLeadingBreak(whole);
      var at := lo + 3 + (|whole| - |content|);
      LinesTile(content);
      LineDiagsInside(Lines(content), body[nl.value + 1..], at);
      WiderSpan(LinesValue(Lines(content), body[nl.value + 1..], at).1, at, at + |content|, lo, lo + |raw|);
    }
  }

  lemma WiderSpan(ds: seq<IndentDiag>, a: nat, b: nat, lo: nat, hi: nat)
    requires DiagsIn(ds, a, b) && lo <= a && b <= hi
    ensures DiagsIn(ds, lo, hi)
  {
  }

  // ── Indenting and reading back ─────────────────────────────────────────

  function NoLf(lines: seq<seq<Byte>>): bool {
    forall i | 0 <= i < |lines| :: LF !in lines[i]
  }

  /** The text of the lines, each with its line feed. */
  function TextOf(lines: seq<seq<Byte>>): seq<Byte> {
    if lines == [] then [] else lines[0] + [LF] + TextOf(lines[1..])
  }

  function IndentLine(line: seq<Byte>, indent: seq<Byte>): seq<Byte> {
    (if line == [] then [] else indent + line) + [LF]
  }

  function IndentAll(lines: seq<seq<Byte>>, indent: seq<Byte>): seq<seq<Byte>> {
    seq(|lines|, i requires 0 <= i < |lines| => IndentLine(lines[i], indent))
  }

  function Flatten(lines: seq<seq<Byte>>): seq<Byte> {
    if lines == [] then [] else lines[0] + Flatten(lines[1..])
  }

  /** The lines, indented, between an opener and a closer on lines of their own. */
  function RawLiteral(lines: seq<seq<Byte>>, indent: seq<Byte>): seq<Byte> {
    [QUOTE, QUOTE, QUOTE, LF] + Flatten(IndentAll(lines, indent)) + indent + [QUOTE, QUOTE, QUOTE]
  }

  /** A line of blanks alone (before a carriage return, if it ends in one). */
  predicate OnlyBlanks(line: seq<Byte>) {
    var text := if line != [] && line[|line| - 1] == CR then line[..|line| - 1] else line;
    text != [] && AllBlank(text)
  }

  lemma IndentedLineValue(line: seq<Byte>, indent: seq<Byte>)
    requires LF !in line && AllBlank(indent)
    ensures var (out, bad) := LineValue(IndentLine(line, indent), indent);
      !bad && |out| <= |line| + 1 && (out == line + [LF] <==> !OnlyBlanks(line)) && (|out| == |line| + 1 ==> out == line + [LF])
  {
    var whole := IndentLine(line, indent);
    var hasCr := line != [] && line[|line| - 1] == CR;
    var text := if hasCr then line[..|line| - 1] else line;
    var nl := if hasCr then [CR, LF] else [LF];
    var lead := if line == [] then [] else indent;
    assert line + [LF] == text + nl;
    assert whole == lead + text + nl;
    SplitIndented(lead, text, nl, line);
    assert AllBlank(lead + text) <==> AllBlank(text) by {
      if AllBlank(lead + text) { forall k | 0 <= k < |text| ensures IsBlank(text[k]) { assert (lead + text)[|lead| + k] == text[k]; } }
    }
    if !AllBlank(text) { assert (indent + text)[|indent|..] == text && indent <= indent + text; }
    hide SplitNewline, AllBlank, IndentLine;
  }

  lemma SplitIndented(lead: seq<Byte>, text: seq<Byte>, nl: seq<Byte>, line: seq<Byte>)
    requires AllBlank(lead) && line + [LF] == text + nl && (nl == [CR, LF] || (nl == [LF] && (text == [] || text[|text| - 1] != CR)))
    ensures SplitNewline(lead + text + nl) == (lead + text, nl)
  {
    var whole := lead + text + nl;
    var n := |whole|;
    assert whole[n - 1] == LF;
    assert whole[..n - |nl|] == lead + text && whole[n - |nl|..] == nl;
    if nl == [LF] && n >= 2 {
      assert whole[n - 2] == (lead + text)[n - 2];
      if text == [] { assert IsBlank(lead[n - 2]); }
    }
  }

  lemma {:induction false} IndentedLinesValue(lines: seq<seq<Byte>>, indent: seq<Byte>, at: nat)
    requires NoLf(lines) && AllBlank(indent)
    ensures var r := LinesValue(IndentAll(lines, indent), indent, at);
      r.1 == [] && |r.0| <= |TextOf(lines)| && (r.0 == TextOf(lines) <==> forall i | 0 <= i < |lines| :: !OnlyBlanks(lines[i]))
    ensures |LinesValue(IndentAll(lines, indent), indent, at).0| == |TextOf(lines)| ==>
      LinesValue(IndentAll(lines, indent), indent, at).0 == TextOf(lines)
  {
    hide LineValue, OnlyBlanks, AllBlank, IndentLine;
    if lines != [] {
      var all, rest := IndentAll(lines, indent), lines[1..];
      assert all[1..] == IndentAll(rest, indent) && all[0] == IndentLine(lines[0], indent);
      IndentedLineValue(lines[0], indent);
      IndentedLinesValue(rest, indent, at + |all[0]|);
      SplitForall(lines);
      var (out, bad) := LineValue(all[0], indent);
      var r := LinesValue(IndentAll(rest, indent), indent, at + |all[0]|).0;
      SameConcat(out, r, lines[0] + [LF], TextOf(rest));
      hide IndentAll;
    }
  }

  lemma SplitForall(lines: seq<seq<Byte>>)
    requires lines != []
    ensures (forall i | 0 <= i < |lines| :: !OnlyBlanks(lines[i])) <==> !OnlyBlanks(lines[0]) && forall i | 0 <= i < |lines[1..]| :: !OnlyBlanks(lines[1..][i])
  {
    hide OnlyBlanks;
    if !OnlyBlanks(lines[0]) && forall i | 0 <= i < |lines[1..]| :: !OnlyBlanks(lines[1..][i]) {
      forall i | 0 <= i < |lines| ensures !OnlyBlanks(lines[i]) { if i > 0 { assert lines[i] == lines[1..][i - 1]; } }
    }
  }

  lemma SameConcat(a: seq<Byte>, b: seq<Byte>, c: seq<Byte>, d: seq<Byte>)
    requires |a| <= |c| && |b| <= |d| && (|a| == |c| ==> a == c) && (|b| == |d| ==> b == d)
    ensures |a + b| <= |c + d| && (a + b == c + d <==> a == c && b == d) && (|a + b| == |c + d| ==> a + b == c + d)
  {
  }

  lemma {:induction false} LinesOfIndented(lines: seq<seq<Byte>>, indent: seq<Byte>)
    requires NoLf(lines) && AllBlank(indent)
    ensures Lines(Flatten(IndentAll(lines, indent))) == IndentAll(lines, indent)
  {
    hide Lines, IndentLine, AllBlank;
    NoText();
    if lines != [] {
      var all, rest := IndentAll(lines, indent), lines[1..];
      assert all[1..] == IndentAll(rest, indent);
      LinesOfIndented(rest, indent);
      var first, tail := IndentLine(lines[0], indent), Flatten(IndentAll(rest, indent));
      FirstLf(lines[0], indent);
      LinesStep(first + tail, 0, |first| - 1, []);
      assert (first + tail)[0..] == first + tail && (first + tail)[0..|first|] == first && (first + tail)[|first|..] == tail;
      assert Flatten(all) == first + tail;
      assert [] + Lines(first + tail) == Lines(first + tail);
      assert ([] + [first]) + IndentAll(rest, indent) == all;
      hide IndentAll, Flatten;
    }
  }

  lemma NoText()
    ensures Lines([]) == []
  {
  }

  lemma FirstLf(line: seq<Byte>, indent: seq<Byte>)
    requires LF !in line && AllBlank(indent)
    ensures var l := IndentLine(line, indent); |l| > 0 && l[|l| - 1] == LF && forall k | 0 <= k < |l| - 1 :: l[k] != LF
  {
    var l := IndentLine(line, indent);
    forall k | 0 <= k < |l| - 1 ensures l[k] != LF {
      if k < |indent| { assert l[k] == indent[k]; } else { assert l[k] == line[k - |indent|]; }
    }
  }

  // ── Three quotes in a row ──────────────────────────────────────────────

  ghost predicate HasTriple(s: seq<Byte>) {
    exists k :: 0 <= k < |s| && TripleQuote(s, k)
  }

  /** No three quotes in a row reach across a line feed. */
  lemma TripleConcat(a: seq<Byte>, b: seq<Byte>)
    requires a != [] && a[|a| - 1] != QUOTE
    ensures HasTriple(a + b) <==> HasTriple(a) || HasTriple(b)
  {
    var s := a + b;
    assert forall k: nat | k < |a| :: s[k] == a[k];
    assert forall k: nat | k < |b| :: s[|a| + k] == b[k];
    if HasTriple(s) {
      var k :| 0 <= k < |s| && TripleQuote(s, k);
      if k < |a| { assert TripleQuote(a, k); } else { assert TripleQuote(b, k - |a|); }
    }
    if HasTriple(a) {
      var k :| 0 <= k < |a| && TripleQuote(a, k);
      assert TripleQuote(s, k);
    }
    if HasTriple(b) {
      var k :| 0 <= k < |b| && TripleQuote(b, k);
      assert TripleQuote(s, |a| + k);
    }
  }

  lemma TripleInLine(line: seq<Byte>, indent: seq<Byte>)
    requires AllBlank(indent)
    ensures HasTriple(IndentLine(line, indent)) <==> HasTriple(line)
  {
    var l, lead := IndentLine(line, indent), if line == [] then [] else indent;
    assert l == lead + line + [LF];
    assert forall k: nat | k < |line| :: l[|lead| + k] == line[k];
    assert forall k: nat | k < |lead| :: l[k] == lead[k];
    if HasTriple(l) {
      var k :| 0 <= k < |l| && TripleQuote(l, k);
      assert TripleQuote(line, k - |lead|);
    }
    if HasTriple(line) {
      var k :| 0 <= k < |line| && TripleQuote(line, k);
      assert TripleQuote(l, |lead| + k);
    }
  }

  lemma {:induction false} TripleInLines(lines: seq<seq<Byte>>, indent: seq<Byte>)
    requires AllBlank(indent)
    ensures HasTriple(Flatten(IndentAll(lines, indent))) <==> exists i :: 0 <= i < |lines| && HasTriple(lines[i])
  {
    hide HasTriple, IndentLine;
    if lines == [] {
      NoTriple([]);
    } else {
      var all, rest := IndentAll(lines, indent), lines[1..];
      assert all[0] == IndentLine(lines[0], indent) && all[1..] == IndentAll(rest, indent);
      IndentedEnd(lines[0], indent);
      TripleConcat(all[0], Flatten(all[1..]));
      TripleInLine(lines[0], indent);
      TripleInLines(rest, indent);
      assert forall i | 0 <= i < |rest| :: rest[i] == lines[i + 1];
      if i :| 0 <= i < |lines| && HasTriple(lines[i]) { if i > 0 { assert rest[i - 1] == lines[i]; } }
    }
  }

  lemma IndentedEnd(line: seq<Byte>, indent: seq<Byte>)
    ensures var l := IndentLine(line, indent); l != [] && l[|l| - 1] == LF
  {
  }

  lemma NoTriple(s: seq<Byte>)
    requires QUOTE !in s
    ensures !HasTriple(s)
  {
  }

  /** Between the delimiters there are three quotes in a row exactly when a line holds them. */
  lemma TripleInBody(lines: seq<seq<Byte>>, indent: seq<Byte>)
    requires AllBlank(indent)
    ensures var body := [LF] + Flatten(IndentAll(lines, indent)) + indent;
      && (HasTriple(body) <==> exists i :: 0 <= i < |lines| && HasTriple(lines[i]))
      && body[|body| - 1] != QUOTE
  {
    hide HasTriple;
    var flat := Flatten(IndentAll(lines, indent));
    TripleInLines(lines, indent);
    NoTriple([LF]);
    NoTriple(indent);
    TripleConcat([LF], flat);
    FlatEnd(lines, indent);
    TripleConcat([LF] + flat, indent);
    hide Flatten, IndentAll;
  }

  lemma {:induction false} FlatEnd(lines: seq<seq<Byte>>, indent: seq<Byte>)
    ensures var s := [LF] + Flatten(IndentAll(lines, indent)); s[|s| - 1] == LF
  {
    if lines != [] {
      FlatEnd(lines[1..], indent);
      var all := IndentAll(lines, indent);
      assert all[1..] == IndentAll(lines[1..], indent);
      IndentedEnd(lines[0], indent);
      hide IndentAll, IndentLine;
    }
  }

  // ── Scanning and decoding ──────────────────────────────────────────────

  lemma {:induction false} FirstTriple(src: seq<Byte>, p: nat, e: nat) returns (q: nat)
    requires p <= e && TripleQuote(src, e)
    ensures p <= q <= e && TripleQuote(src, q) && forall k: nat | p <= k < q :: !TripleQuote(src, k)
    decreases e - p
  {
    if TripleQuote(src, p) { q := p; } else { q := FirstTriple(src, p + 1, e); }
    hide TripleQuote;
  }

  /** The lexer ends a raw literal at its own closer exactly when the body holds no three quotes in a row. */
  lemma RawScans(src: seq<Byte>, start: nat, body: seq<Byte>)
    requires WellFormed(src) && body != [] && body[|body| - 1] != QUOTE && start + |body| + 6 <= |src|
    requires TripleQuote(src, start) && TripleQuote(src, start + 3 + |body|) && src[start + 3..start + 3 + |body|] == body
    ensures RawEnd(src, start + 3) == Closed(start + |body| + 6) <==> !HasTriple(body)
  {
    hide WellFormed, RawEnd;
    var close := start + 3 + |body|;
    AsciiRun(src, start, start + 3);
    var q := FirstTriple(src, start + 3, close);
    RawEndsAtFirst(src, start + 3, q);
    assert forall k | 0 <= k < |body| :: body[k] == src[start + 3 + k];
    if q < close { assert TripleQuote(body, q - start - 3); }
    if HasTriple(body) {
      var k :| 0 <= k < |body| && TripleQuote(body, k);
      assert TripleQuote(src, start + 3 + k);
    }
  }

  /** Indented lines between delimiters on lines of their own decode without complaint, and to their own
      text exactly when no line consists of blanks alone. */
  lemma RawDecodes(lines: seq<seq<Byte>>, indent: seq<Byte>, lo: nat, hi: nat)
    requires NoLf(lines) && AllBlank(indent)
    ensures var r := RawValue(RawLiteral(lines, indent), lo, hi);
      r.1 == [] && (r.0 == TextOf(lines) <==> forall i | 0 <= i < |lines| :: !OnlyBlanks(lines[i]))
  {
    hide Lines, LinesValue, LastLf, AllBlank, OnlyBlanks, IndentAll, Flatten, TripleQuote, RawLiteral, StripTriple, TextOf;
    var flat := Flatten(IndentAll(lines, indent));
    var body := [LF] + flat + indent;
    StripRaw(lines, indent);
    LastLfOfBody(lines, indent);
    assert body[..|flat| + 1] == [LF] + flat && body[|flat| + 1..] == indent;
    assert ([LF] + flat)[0] == LF && ([LF] + flat)[1..] == flat;
    LinesOfIndented(lines, indent);
    IndentedLinesValue(lines, indent, lo + 4);
  }

  /** Wherever such a literal stands, it is one token exactly when no line holds three quotes in a row, and one token
      that decodes to the text of its lines exactly when, besides, no line consists of blanks alone. */
  lemma RawRoundTrip(before: seq<Byte>, lines: seq<seq<Byte>>, indent: seq<Byte>, after: seq<Byte>, t: Tables)
    requires NoLf(lines) && AllBlank(indent) && WellFormed(before + RawLiteral(lines, indent) + after)
    ensures var src, start, end := before + RawLiteral(lines, indent) + after, |before|, |before| + |RawLiteral(lines, indent)|;
      var token := ScanOne(src, start, t) == Scan(StrLit(Raw), end, []);
      && (token <==> forall i | 0 <= i < |lines| :: !HasTriple(lines[i]))
      && (token && RawValue(src[start..end], start, end) == (TextOf(lines), []) <==>
          forall i | 0 <= i < |lines| :: !HasTriple(lines[i]) && !OnlyBlanks(lines[i]))
  {
    hide WellFormed, RawEnd, HasTriple, OnlyBlanks, AllBlank, Flatten, IndentAll, RawValue, TextOf, NoLf;
    var raw := RawLiteral(lines, indent);
    var src, start, body := before + raw + after, |before|, [LF] + Flatten(IndentAll(lines, indent)) + indent;
    assert raw == [QUOTE, QUOTE, QUOTE] + body + [QUOTE, QUOTE, QUOTE];
    TripleInBody(lines, indent);
    Delimited(before, body, after);
    RawScans(src, start, body);
    RawToken(src, start, start + |raw|, t);
    RawDecodes(lines, indent, start, start + |raw|);
    assert src[start..start + |raw|] == raw;
    hide ScanOne, RawLiteral, TripleQuote;
  }

  lemma Delimited(before: seq<Byte>, body: seq<Byte>, after: seq<Byte>)
    ensures var src, start := before + ([QUOTE, QUOTE, QUOTE] + body + [QUOTE, QUOTE, QUOTE]) + after, |before|;
      && start + |body| + 6 <= |src| && src[start] == QUOTE
      && TripleQuote(src, start) && TripleQuote(src, start + 3 + |body|) && src[start + 3..start + 3 + |body|] == body
  {
    var src, start := before + ([QUOTE, QUOTE, QUOTE] + body + [QUOTE, QUOTE, QUOTE]) + after, |before|;
    assert src[start + 3..start + 3 + |body|] == body;
  }

  lemma RawToken(src: seq<Byte>, start: nat, end: nat, t: Tables)
    requires start < |src| && src[start] == QUOTE && TripleQuote(src, start)
    ensures ScanOne(src, start, t) == Scan(StrLit(Raw), end, []) <==> RawEnd(src, start + 3) == Closed(end)
  {
    hide RawEnd, PlainEnd, EscapedEnd, SlashScan, BackslashScan, RadixScan, DecimalScan, IdentScan, AngleScan, Terminator, NextChar, PeekChar;
  }

  lemma StripRaw(lines: seq<seq<Byte>>, indent: seq<Byte>)
    ensures StripTriple(RawLiteral(lines, indent)) == [LF] + Flatten(IndentAll(lines, indent)) + indent
  {
    var raw, body := RawLiteral(lines, indent), [LF] + Flatten(IndentAll(lines, indent)) + indent;
    assert raw == [QUOTE, QUOTE, QUOTE] + body + [QUOTE, QUOTE, QUOTE];
    assert raw[3..|raw| - 3] == body;
    hide RawLiteral, Flatten, IndentAll;
  }

  lemma LastLfOfBody(lines: seq<seq<Byte>>, indent: seq<Byte>)
    requires AllBlank(indent)
    ensures var flat := Flatten(IndentAll(lines, indent));
      LastLf([LF] + flat + indent) == Some(|flat|)
  {
    var flat := Flatten(IndentAll(lines, indent));
    var body := [LF] + flat + indent;
    FlatEndsInLf(lines, indent);
    assert body[|flat|] == LF;
    assert forall k | |flat| < k < |body| :: body[k] == indent[k - |flat| - 1] && IsBlank(body[k]);
    LastLfIs(body, |flat|);
    hide Flatten, IndentAll, LastLf;
  }

  lemma {:induction false} LastLfIs(s: seq<Byte>, k: nat)
    requires k < |s| && s[k] == LF && forall j | k < j < |s| :: s[j] != LF
    ensures LastLf(s) == Some(k)
  {
    if k < |s| - 1 { LastLfIs(s[..|s| - 1], k); }
  }

  lemma {:induction false} FlatEndsInLf(lines: seq<seq<Byte>>, indent: seq<Byte>)
    ensures var flat := Flatten(IndentAll(lines, indent)); flat != [] ==> flat[|flat| - 1] == LF
  {
    if lines != [] {
      var all, rest := IndentAll(lines, indent), lines[1..];
      assert all[1..] == IndentAll(rest, indent);
      FlatEndsInLf(rest, indent);
    }
  }
}
