/** Decoding of string literals (string_value.rs), against the lexer that found them. */
module StringValue {
  import opened Common
  import opened Utf8
  import opened SourceText
  import opened LexSpec
  import opened LexTheorems

  datatype EscapeProblem = Incomplete | BadHexDigits | BadUnicodeDigits | NotScalar | Unknown

  datatype EscapeDiag = EscapeDiag(problem: EscapeProblem, lo: nat, hi: nat)

  // ── Escapes ────────────────────────────────────────────────────────────

  /** One turn of the decoding loop: what it appends, where it goes on, and its complaint. */
  datatype Turn = Turn(out: seq<Byte>, next: nat, diag: Option<EscapeDiag>)

  /** The escapes of a single letter. */
  function SimpleEscape(b: Byte): Option<Byte> {
    match b
    case 0x5C => Some(0x5C)
    case 0x22 => Some(0x22)
    case 0x6E => Some(0x0A)
    case 0x72 => Some(0x0D)
    case 0x74 => Some(0x09)
    case 0x30 => Some(0x00)
    case _ => None
  }

  function Min(a: nat, b: nat): nat {
    if a < b then a else b
  }

  predicate AllHex(s: seq<Byte>) {
    forall k | 0 <= k < |s| :: IsDigit(Hex, s[k])
  }

  /** `\xNN` (n = 2) or `\uNNNN` (n = 4) at `i`; `letter` is the byte after the backslash. */
  function HexEscape(body: seq<Byte>, i: nat, n: nat, problem: EscapeProblem): Turn
    requires i + 1 < |body|
  {
    var end := i + 2 + n;
    if end > |body| || !AllHex(body[i + 2..end]) then
      Turn(body[i..i + 2], i + 2, Some(EscapeDiag(problem, i, Min(end, |body|))))
    else
      var cp := Number(body[i + 2..end], Hex);
      if IsScalar(cp) then Turn(EncodeUtf8(cp), end, None)
      else Turn(body[i..end], end, Some(EscapeDiag(NotScalar, i, end)))
  }

  function DecodeTurn(body: seq<Byte>, i: nat): (t: Turn)
    requires i < |body|
    ensures i < t.next <= |body|
  {
    if body[i] != BACKSLASH then Turn(body[i..NextChar(body, i)], NextChar(body, i), None)
    else if i + 1 >= |body| then Turn([BACKSLASH], i + 1, Some(EscapeDiag(Incomplete, i, i + 1)))
    else
      var b := body[i + 1];
      if SimpleEscape(b).Some? then Turn([SimpleEscape(b).value], i + 2, None)
      else if b == 0x78 then HexEscape(body, i, 2, BadHexDigits)
      else if b == 0x75 then HexEscape(body, i, 4, BadUnicodeDigits)
      else
        var end := NextChar(body, i + 1);
        Turn(body[i + 1..end], end, Some(EscapeDiag(Unknown, i, end)))
  }

  function DecodeFrom(body: seq<Byte>, i: nat): (seq<Byte>, seq<EscapeDiag>)
    decreases |body| - i
  {
    if i >= |body| then ([], [])
    else
      var t := DecodeTurn(body, i);
      var rest := DecodeFrom(body, t.next);
      (t.out + rest.0, (if t.diag.Some? then [t.diag.value] else []) + rest.1)
  }

  /** The body between the outer quotes, if both are there, and how many bytes were dropped in front. */
  function StripQuotes(raw: seq<Byte>): (seq<Byte>, nat) {
    if |raw| >= 2 && raw[0] == QUOTE && raw[|raw| - 1] == QUOTE then (raw[1..|raw| - 1], 1) else (raw, 0)
  }

  function StripDollar(raw: seq<Byte>): (seq<Byte>, nat) {
    if raw != [] && raw[0] == DOLLAR then (raw[1..], 1) else (raw, 0)
  }

  function ShiftDiags(ds: seq<EscapeDiag>, offset: nat): (r: seq<EscapeDiag>)
    ensures |r| == |ds| && forall k | 0 <= k < |r| :: r[k] == ds[k].(lo := ds[k].lo + offset, hi := ds[k].hi + offset)
  {
    seq(|ds|, k requires 0 <= k < |ds| => ds[k].(lo := ds[k].lo + offset, hi := ds[k].hi + offset))
  }

  /** decode_escaped of a literal at `litStart`; its complaints carry absolute spans. */
  function EscapedValue(raw: seq<Byte>, litStart: nat): (seq<Byte>, seq<EscapeDiag>) {
    var (afterDollar, dollarLen) := StripDollar(raw);
    var (body, quoteLen) := StripQuotes(afterDollar);
    var r := DecodeFrom(body, 0);
    (r.0, ShiftDiags(r.1, litStart + dollarLen + quoteLen))
  }

  method DecodeEscaped(raw: seq<Byte>, litStart: nat) returns (out: seq<Byte>, diags: seq<EscapeDiag>)
    ensures (out, diags) == EscapedValue(raw, litStart)
  {
    var (afterDollar, dollarLen) := StripDollar(raw);
    var (body, quoteLen) := StripQuotes(afterDollar);
    var offset := litStart + dollarLen + quoteLen;
    hide DecodeFrom, DecodeTurn, StripDollar, StripQuotes;
    out, diags := [], [];
    var i := 0;
    ghost var relative: seq<EscapeDiag> := [];
    while i < |body|
      invariant i <= |body|
      invariant out + DecodeFrom(body, i).0 == DecodeFrom(body, 0).0
      invariant relative + DecodeFrom(body, i).1 == DecodeFrom(body, 0).1
      invariant diags == ShiftDiags(relative, offset)
    {
      var t := DecodeTurn(body, i);
      TurnStep(body, i, out, relative);
      out := out + t.out;
      if t.diag.Some? {
        var d := t.diag.value;
        diags := diags + [EscapeDiag(d.problem, offset + d.lo, offset + d.hi)];
        relative := relative + [d];
      }
      i := t.next;
    }
    NothingToDecode(body, i);
    assert out + [] == out && relative + [] == relative;
  }

  lemma NothingToDecode(body: seq<Byte>, i: nat)
    requires i >= |body|
    ensures DecodeFrom(body, i) == ([], [])
  {
  }

  lemma TurnStep(body: seq<Byte>, i: nat, out: seq<Byte>, seen: seq<EscapeDiag>)
    requires i < |body|
    ensures var t := DecodeTurn(body, i);
      && out + DecodeFrom(body, i).0 == (out + t.out) + DecodeFrom(body, t.next).0
      && seen + DecodeFrom(body, i).1 == (if t.diag.Some? then seen + [t.diag.value] else seen) + DecodeFrom(body, t.next).1
  {
    hide DecodeTurn;
    var t := DecodeTurn(body, i);
    var rest := DecodeFrom(body, t.next);
    assert out + (t.out + rest.0) == (out + t.out) + rest.0;
    var d := if t.diag.Some? then [t.diag.value] else [];
    assert seen + (d + rest.1) == (seen + d) + rest.1;
    assert seen + [] == seen;
  }

  // ── In step with the lexer ─────────────────────────────────────────────

  /** Where the lexer's scan of an escaped literal goes from `p`, when it closes at `e`. */
  lemma ScanStep(src: seq<Byte>, p: nat, e: nat)
    requires Cursor(src, p) && EscapedEnd(src, p) == Closed(e)
    ensures p < e <= |src| && src[e - 1] == QUOTE
    ensures p == e - 1 <==> src[p] == QUOTE
    ensures p < e - 1 && src[p] != BACKSLASH ==>
      NextChar(src, p) < e && Cursor(src, NextChar(src, p)) && EscapedEnd(src, NextChar(src, p)) == Closed(e)
    ensures p < e - 1 && src[p] == BACKSLASH ==>
      p + 1 < NextChar(src, p + 1) < e && Cursor(src, p + 1) && Cursor(src, NextChar(src, p + 1)) && EscapedEnd(src, NextChar(src, p + 1)) == Closed(e)
    decreases |src| - p
  {
    hide WellFormed, NextChar;
    NextCursor(src, p);
    if src[p] == BACKSLASH {
      NextCursor(src, p + 1);
      ScanStep(src, NextChar(src, p + 1), e);
    } else if src[p] != QUOTE {
      ScanStep(src, NextChar(src, p), e);
    }
  }

  lemma SliceOfSlice(src: seq<Byte>, lo: nat, hi: nat, a: nat, b: nat)
    requires lo <= a <= b <= hi <= |src|
    ensures src[lo..hi][a - lo..b - lo] == src[a..b]
  {
    var x := src[lo..hi];
    var y := x[a - lo..b - lo];
    forall k | 0 <= k < b - a ensures y[k] == src[a + k] { assert y[k] == x[a - lo + k]; }
  }

  /** A char that fits in a slice is read there as in the text. */
  lemma SliceChar(src: seq<Byte>, lo: nat, p: nat, hi: nat)
    requires Cursor(src, p) && lo <= p < hi <= |src| && NextChar(src, p) <= hi
    ensures lo + NextChar(src[lo..hi], p - lo) == NextChar(src, p)
  {
    CharStep(src, p);
    SliceOfSlice(src, lo, hi, p, NextChar(src, p));
    assert src[lo..hi][p - lo] == src[p];
    assert NextChar(src, p) - p == SequenceLength(src[p]);
    hide WellFormed, IsSequence, Value, SequenceLength;
  }

  lemma {:induction false} PlainSteps(src: seq<Byte>, p: nat, q: nat, e: nat)
    requires Cursor(src, p) && EscapedEnd(src, p) == Closed(e) && p <= q < e && e <= |src|
    requires forall k | p <= k < q :: IsDigit(Hex, src[k])
    ensures Cursor(src, q) && EscapedEnd(src, q) == Closed(e)
    decreases q - p
  {
    if p < q {
      ScanStep(src, p, e);
      NextCursor(src, p);
      PlainSteps(src, p + 1, q, e);
    }
    hide WellFormed, NextChar, EscapedEnd;
  }

  /** One turn of the decoder over the body of an escaped token ends where the lexer had ended a step,
      and its complaint is never "incomplete". */
  lemma TurnInStep(src: seq<Byte>, lo: nat, p: nat, e: nat)
    requires Cursor(src, p) && EscapedEnd(src, p) == Closed(e) && lo <= p < e - 1 && e <= |src|
    ensures var t := DecodeTurn(src[lo..e - 1], p - lo);
      && Cursor(src, lo + t.next) && EscapedEnd(src, lo + t.next) == Closed(e)
      && (t.diag.Some? ==> t.diag.value.problem != Incomplete && p - lo == t.diag.value.lo < t.diag.value.hi <= e - 1 - lo)
  {
    hide WellFormed, NextChar, EscapedEnd, HexEscape;
    ScanStep(src, p, e);
    assert src[lo..e - 1][p - lo] == src[p];
    if src[p] == BACKSLASH {
      EscapeInStep(src, lo, p, e);
      hide DecodeTurn;
    } else {
      SliceChar(src, lo, p, e - 1);
    }
  }

  lemma EscapeInStep(src: seq<Byte>, lo: nat, p: nat, e: nat)
    requires Cursor(src, p) && EscapedEnd(src, p) == Closed(e) && lo <= p < e - 1 && e <= |src| && src[p] == BACKSLASH
    ensures var t := DecodeTurn(src[lo..e - 1], p - lo);
      && Cursor(src, lo + t.next) && EscapedEnd(src, lo + t.next) == Closed(e)
      && (t.diag.Some? ==> t.diag.value.problem != Incomplete && p - lo == t.diag.value.lo < t.diag.value.hi <= e - 1 - lo)
  {
    hide WellFormed, NextChar, EscapedEnd, HexEscape;
    ScanStep(src, p, e);
    var body, i := src[lo..e - 1], p - lo;
    assert body[i] == src[p] && body[i + 1] == src[p + 1];
    SliceChar(src, lo, p + 1, e - 1);
    NextCursor(src, p + 1);
    if src[p + 1] == 0x78 { HexInStep(src, lo, p, e, 2, BadHexDigits); }
    if src[p + 1] == 0x75 { HexInStep(src, lo, p, e, 4, BadUnicodeDigits); }
  }

  lemma HexInStep(src: seq<Byte>, lo: nat, p: nat, e: nat, n: nat, problem: EscapeProblem)
    requires lo <= p && p + 2 < e && e <= |src| && Cursor(src, p + 2) && EscapedEnd(src, p + 2) == Closed(e) && problem != Incomplete
    ensures var t := HexEscape(src[lo..e - 1], p - lo, n, problem);
      && Cursor(src, lo + t.next) && EscapedEnd(src, lo + t.next) == Closed(e)
      && (t.diag.Some? ==> t.diag.value.problem != Incomplete && p - lo == t.diag.value.lo < t.diag.value.hi <= e - 1 - lo)
  {
    hide WellFormed, NextChar, EscapedEnd, Number;
    var body, i := src[lo..e - 1], p - lo;
    var end := i + 2 + n;
    if end <= |body| && AllHex(body[i + 2..end]) {
      SliceOfSlice(src, lo, e - 1, p + 2, p + 2 + n);
      var digits := src[p + 2..p + 2 + n];
      assert body[i + 2..end] == digits;
      forall k | p + 2 <= k < p + 2 + n ensures IsDigit(Hex, src[k]) { assert digits[k - p - 2] == src[k]; }
      PlainSteps(src, p + 2, p + 2 + n, e);
    }
  }

  /** Complaints of a decoding from `lo` on that stay within a body of length `n`. */
  predicate Sound(ds: seq<EscapeDiag>, n: nat) {
    forall k | 0 <= k < |ds| :: ds[k].problem != Incomplete && ds[k].lo < ds[k].hi <= n
  }

  lemma {:induction false} DecoderInStep(src: seq<Byte>, lo: nat, p: nat, e: nat)
    requires Cursor(src, p) && EscapedEnd(src, p) == Closed(e) && lo <= p < e && e <= |src|
    ensures Sound(DecodeFrom(src[lo..e - 1], p - lo).1, e - 1 - lo)
    decreases e - p
  {
    hide WellFormed, EscapedEnd, DecodeTurn, NextChar;
    if p < e - 1 {
      TurnInStep(src, lo, p, e);
      var t := DecodeTurn(src[lo..e - 1], p - lo);
      ScanStep(src, lo + t.next, e);
      DecoderInStep(src, lo, lo + t.next, e);
      Unfold(src[lo..e - 1], p - lo);
      hide DecodeFrom;
    }
  }

  lemma Unfold(body: seq<Byte>, i: nat)
    requires i < |body|
    ensures var t := DecodeTurn(body, i);
      var rest := DecodeFrom(body, t.next);
      DecodeFrom(body, i) == (t.out + rest.0, (if t.diag.Some? then [t.diag.value] else []) + rest.1)
  {
    hide DecodeTurn;
  }

  /** For every escaped token of the lexer: the decoder never finds an incomplete escape, and all its
      complaints lie between the quotes. */
  lemma EscapedTokenDecodes(src: seq<Byte>, start: nat, t: Tables)
    requires Cursor(src, start) && start < |src| && ScanOne(src, start, t).kind == StrLit(Escaped)
    ensures var e := ScanOne(src, start, t).end;
      && start + 3 <= e <= |src|
      && var ds := EscapedValue(src[start..e], start).1;
      forall k | 0 <= k < |ds| :: ds[k].problem != Incomplete && start + 2 <= ds[k].lo < ds[k].hi <= e - 1
  {
    hide ScanOne, DecodeFrom, EscapedEnd, WellFormed, EscapedValue;
    OnlyDollarIsEscaped(src, start, t);
    var e := ScanOne(src, start, t).end;
    AsciiRun(src, start, start + 2);
    ScanStep(src, start + 2, e);
    DecoderInStep(src, start + 2, start + 2, e);
    StripToken(src, start, e);
  }

  /** The token is stripped to what stands between its quotes. */
  lemma StripToken(src: seq<Byte>, start: nat, e: nat)
    requires start + 3 <= e <= |src| && src[start] == DOLLAR && src[start + 1] == QUOTE && src[e - 1] == QUOTE
    ensures var r := DecodeFrom(src[start + 2..e - 1], 0);
      EscapedValue(src[start..e], start) == (r.0, ShiftDiags(r.1, start + 2))
  {
    var raw := src[start..e];
    assert raw[0] == DOLLAR;
    var after := src[start + 1..e];
    assert raw[1..] == after;
    SliceOfSlice(src, start + 1, e, start + 2, e - 1);
    assert after[0] == QUOTE && after[|after| - 1] == QUOTE;
    hide DecodeFrom;
  }

  function InQuotes(quoted: bool, body: seq<Byte>): seq<Byte> {
    if quoted then ['"' as int] + body + ['"' as int] else body
  }

  function BehindMarker(dollar: bool, inner: seq<Byte>): seq<Byte> {
    if dollar then ['$' as int] + inner else inner
  }

  function One(b: bool): nat {
    if b then 1 else 0
  }

  /** The same for any slice: the mode marker and the quotes are left out where they are there, and complaints are
      shifted by as much as was left out in front. */
  lemma StripSlice(dollar: bool, quoted: bool, body: seq<Byte>, litStart: nat)
    requires !quoted ==> !(|body| >= 2 && body[0] == '"' as int && body[|body| - 1] == '"' as int)
    requires !dollar && !quoted && body != [] ==> body[0] != '$' as int
    ensures var r, raw := DecodeFrom(body, 0), BehindMarker(dollar, InQuotes(quoted, body));
      EscapedValue(raw, litStart) == (r.0, ShiftDiags(r.1, litStart + One(dollar) + One(quoted)))
  {
    hide *;
    StripInner(quoted, body);
    var inner := InQuotes(quoted, body);
    StripMarker(dollar, inner);
    ValueOf(BehindMarker(dollar, inner), inner, One(dollar), body, One(quoted), litStart);
  }

  lemma ValueOf(raw: seq<Byte>, inner: seq<Byte>, dollar: nat, body: seq<Byte>, quote: nat, litStart: nat)
    requires StripDollar(raw) == (inner, dollar) && StripQuotes(inner) == (body, quote)
    ensures var r := DecodeFrom(body, 0); EscapedValue(raw, litStart) == (r.0, ShiftDiags(r.1, litStart + dollar + quote))
  {
    hide DecodeFrom, ShiftDiags, StripDollar, StripQuotes;
  }

  lemma StripInner(quoted: bool, body: seq<Byte>)
    requires !quoted ==> !(|body| >= 2 && body[0] == '"' as int && body[|body| - 1] == '"' as int)
    ensures StripQuotes(InQuotes(quoted, body)) == (body, One(quoted))
    ensures var inner := InQuotes(quoted, body); if quoted then inner != [] && inner[0] == '"' as int else inner == body
  {
    if quoted {
      var inner := InQuotes(quoted, body);
      assert inner[0] == QUOTE && inner[|inner| - 1] == QUOTE && inner[1..|inner| - 1] == body;
    }
  }

  lemma StripMarker(dollar: bool, inner: seq<Byte>)
    requires !dollar && inner != [] ==> inner[0] != '$' as int
    ensures StripDollar(BehindMarker(dollar, inner)) == (inner, One(dollar))
  {
    var raw := BehindMarker(dollar, inner);
    assert if dollar then raw[0] == '$' as int && raw[1..] == inner else raw == inner;
  }

  lemma OnlyDollarIsEscaped(src: seq<Byte>, start: nat, t: Tables)
    requires start < |src| && ScanOne(src, start, t).kind == StrLit(Escaped)
    ensures src[start] == DOLLAR && At(src, start + 1) == QUOTE && EscapedEnd(src, start + 2) == Closed(ScanOne(src, start, t).end)
  {
    hide PlainEnd, EscapedEnd, RawScan, SlashScan, BackslashScan, RadixScan, DecimalScan, IdentScan, AngleScan, Terminator, NextChar, PeekChar;
    OthersNotEscaped(src, start, t);
  }

  lemma OthersNotEscaped(src: seq<Byte>, start: nat, t: Tables)
    requires start < |src|
    ensures RawScan(src, start).kind != StrLit(Escaped) && SlashScan(src, start).kind != StrLit(Escaped)
    ensures BackslashScan(src, start).kind != StrLit(Escaped) && AngleScan(src, start).kind != StrLit(Escaped)
    ensures RadixScan(src, start, Hex).kind != StrLit(Escaped) && RadixScan(src, start, Binary).kind != StrLit(Escaped)
    ensures IdentScan(src, start, t).kind != StrLit(Escaped) && DecimalScan(src, start, t).kind != StrLit(Escaped)
  {
    hide DigitRun, FracRun, ExpRun, FloatText, BlockEnd, RawEnd, IdentEnd, EatWhile, NextChar, PeekChar, Terminator, Number, Stripped;
  }

  // ── Verbatim literals ──────────────────────────────────────────────────

  /** decode_plain. */
  function PlainValue(raw: seq<Byte>): seq<Byte> {
    StripQuotes(raw).0
  }

  /** The first quote or line end decides how a plain literal ends. */
  lemma {:induction false} PlainEndsAtFirst(src: seq<Byte>, p: nat, q: nat)
    requires Cursor(src, p) && p <= q < |src| && (src[q] == QUOTE || IsLineEnd(src[q]))
    requires forall k | p <= k < q :: src[k] != QUOTE && !IsLineEnd(src[k])
    ensures PlainEnd(src, p) == if src[q] == QUOTE then Closed(q + 1) else BeforeNewline(q)
    decreases q - p
  {
    hide WellFormed, NextChar;
    if p < q {
      NextCursor(src, p);
      NotOverLead(src, p, q);
      PlainEndsAtFirst(src, NextChar(src, p), q);
    }
  }

  /** A char step never jumps over an ASCII byte. */
  lemma NotOverLead(src: seq<Byte>, p: nat, q: nat)
    requires Cursor(src, p) && p < q < |src| && src[q] < 0x80
    ensures NextChar(src, p) <= q
  {
    CharStep(src, p);
    LeadsOfEncodeUtf8(PeekChar(src, p).value);
    var bytes := src[p..NextChar(src, p)];
    forall k | p < k < NextChar(src, p) ensures IsContinuation(src[k]) { assert bytes[k - p] == src[k]; }
    hide WellFormed, EncodeUtf8, PeekChar;
  }

  /** Raw literals close at the first three quotes in a row. */
  lemma {:induction false} RawEndsAtFirst(src: seq<Byte>, p: nat, q: nat)
    requires Cursor(src, p) && p <= q && TripleQuote(src, q) && forall k: nat | p <= k < q :: !TripleQuote(src, k)
    ensures RawEnd(src, p) == Closed(q + 3)
    decreases q - p
  {
    hide WellFormed, NextChar;
    if p < q {
      NextCursor(src, p);
      NotOverLead(src, p, q);
      RawEndsAtFirst(src, NextChar(src, p), q);
    }
  }

  /** What a plain literal can hold. */
  predicate InPlain(b: Byte) {
    b != QUOTE && !IsLineEnd(b)
  }

  predicate PlainText(cs: seq<Scalar>) {
    forall k | 0 <= k < |cs| :: cs[k] != 0x22 && cs[k] != 0x0A && cs[k] != 0x0D
  }

  predicate PlainBytes(s: seq<Byte>) {
    forall k | 0 <= k < |s| :: InPlain(s[k])
  }

  lemma PlainConcat(a: seq<Byte>, b: seq<Byte>)
    ensures PlainBytes(a + b) <==> PlainBytes(a) && PlainBytes(b)
  {
    if PlainBytes(a + b) {
      forall k | 0 <= k < |b| ensures InPlain(b[k]) { assert (a + b)[|a| + k] == b[k]; }
      forall k | 0 <= k < |a| ensures InPlain(a[k]) { assert (a + b)[k] == a[k]; }
    }
    hide InPlain;
  }

  lemma {:induction false} PlainEncoded(cs: seq<Scalar>)
    ensures PlainText(cs) <==> PlainBytes(Encode(cs))
  {
    if cs != [] {
      PlainEncoded(cs[1..]);
      PlainByte(cs[0]);
      PlainHead(cs);
      assert cs[..1] == [cs[0]];
      PlainConcat(EncodeUtf8(cs[0]), Encode(cs[1..]));
      hide EncodeUtf8, PlainText, PlainBytes;
    }
  }

  lemma PlainHead(cs: seq<Scalar>)
    requires cs != []
    ensures PlainText(cs) <==> PlainText(cs[..1]) && PlainText(cs[1..])
  {
    if PlainText(cs[..1]) && PlainText(cs[1..]) {
      assert cs[..1][0] == cs[0];
      assert forall k | 0 < k < |cs| :: cs[k] == cs[1..][k - 1];
    }
  }

  lemma PlainByte(c: Scalar)
    ensures PlainText([c]) <==> PlainBytes(EncodeUtf8(c))
  {
    EncodeIsSequence(c);
    LeadsOfEncodeUtf8(c);
  }

  /** A quoted text is one plain token, wherever it stands, exactly when it holds no quote and no line end (and is
      not the empty text before a further quote, which opens a raw literal). It decodes to itself. */
  lemma PlainRoundTrip(before: seq<Byte>, cs: seq<Scalar>, after: seq<Byte>, t: Tables)
    requires WellFormed(before + [QUOTE] + Encode(cs) + [QUOTE] + after)
    ensures var src, start, end := before + [QUOTE] + Encode(cs) + [QUOTE] + after, |before|, |before| + |Encode(cs)| + 2;
      && (ScanOne(src, start, t) == Scan(StrLit(Plain), end, []) <==> PlainText(cs) && !(cs == [] && At(src, end) == QUOTE))
      && PlainValue(src[start..end]) == Encode(cs)
  {
    hide Encode, WellFormed, PlainText, PlainBytes, ScanOne;
    var src, start, body := before + [QUOTE] + Encode(cs) + [QUOTE] + after, |before|, Encode(cs);
    var end := start + |body| + 2;
    assert src[start] == QUOTE && src[end - 1] == QUOTE && src[start + 1..end - 1] == body;
    PlainEncoded(cs);
    EncodeEmptyOnly(cs);
    PlainScan(src, start, body, t);
    assert src[start..end][1..|src[start..end]| - 1] == body;
  }

  lemma PlainScan(src: seq<Byte>, start: nat, body: seq<Byte>, t: Tables)
    requires WellFormed(src) && start + |body| + 2 <= |src| && src[start + 1..start + |body| + 1] == body
    requires src[start] == QUOTE && src[start + |body| + 1] == QUOTE
    ensures ScanOne(src, start, t) == Scan(StrLit(Plain), start + |body| + 2, []) <==>
            PlainBytes(body) && !(body == [] && At(src, start + |body| + 2) == QUOTE)
  {
    hide WellFormed, ScanOne;
    AsciiRun(src, start, start + 1);
    var q := EatWhile(src, start + 1, InPlain);
    assert !InPlain(src[start + |body| + 1]);
    PlainEndsAtFirst(src, start + 1, q);
    assert q == start + |body| + 1 <==> PlainBytes(body) by {
      assert forall k | 0 <= k < |body| :: body[k] == src[start + 1 + k];
      assert forall k | start + 1 <= k < start + 1 + |body| :: src[k] == body[k - start - 1];
    }
    PlainToken(src, start, q, start + |body| + 2, t);
  }

  lemma EncodeEmptyOnly(cs: seq<Scalar>)
    ensures Encode(cs) == [] <==> cs == []
  {
    if cs != [] { EncodeIsSequence(cs[0]); }
    hide EncodeUtf8;
  }

  lemma PlainToken(src: seq<Byte>, start: nat, q: nat, end: nat, t: Tables)
    requires start + 1 <= q < end <= |src| && src[start] == QUOTE && src[end - 1] == QUOTE
    requires !InPlain(src[q]) && (forall k | start + 1 <= k < q :: InPlain(src[k]))
    requires PlainEnd(src, start + 1) == if src[q] == QUOTE then Closed(q + 1) else BeforeNewline(q)
    ensures ScanOne(src, start, t) == Scan(StrLit(Plain), end, []) <==> q == end - 1 && !(end == start + 2 && At(src, end) == QUOTE)
  {
    hide PlainEnd, RawEnd, EscapedEnd, SlashScan, BackslashScan, RadixScan, DecimalScan, IdentScan, AngleScan, Terminator, NextChar, PeekChar;
  }
}
