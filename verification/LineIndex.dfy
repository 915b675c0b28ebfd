/** The line index of source.rs: byte offsets to lines and columns. */
module LineIndex {
  import opened Common
  import opened Utf8
  import opened SourceText

  /** A line ends with the byte at `p`: a line feed, or a carriage return that no line feed follows. */
  predicate EndsLine(text: seq<Byte>, p: nat)
    requires p < |text|
  {
    text[p] == LF || (text[p] == CR && At(text, p + 1) != LF)
  }

  /** Naive count: the number of line ends before `n`. */
  function LineEnds(text: seq<Byte>, n: nat): (c: nat)
    requires n <= |text|
    ensures c <= n
  {
    if n == 0 then 0 else LineEnds(text, n - 1) + if EndsLine(text, n - 1) then 1 else 0
  }

  /** The positions behind the line ends before `n`, in order. */
  function StartsTo(text: seq<Byte>, n: nat): (s: seq<nat>)
    requires n <= |text|
    ensures |s| == LineEnds(text, n)
    ensures forall i | 0 <= i < |s| :: 0 < s[i] <= n && EndsLine(text, s[i] - 1) && LineEnds(text, s[i]) == i + 1
    ensures forall i, j | 0 <= i < j < |s| :: s[i] < s[j]
  {
    if n == 0 then []
    else if EndsLine(text, n - 1) then StartsTo(text, n - 1) + [n]
    else StartsTo(text, n - 1)
  }

  /** The carriage return of a CRLF ends no line by itself. */
  lemma SkipCr(text: seq<Byte>, i: nat)
    requires i + 1 < |text| && text[i] == CR && text[i + 1] == LF
    ensures StartsTo(text, i + 2) == StartsTo(text, i) + [i + 2]
  {
    assert StartsTo(text, i + 1) == StartsTo(text, i);
    hide LineEnds;
  }

  lemma {:induction false} MoreEnds(text: seq<Byte>, m: nat, n: nat)
    requires m <= n <= |text|
    ensures LineEnds(text, m) <= LineEnds(text, n)
    decreases n
  {
    if m < n { MoreEnds(text, m, n - 1); }
  }

  /** A source with its line index. */
  class Source {
    const text: seq<Byte>
    var newlineOffsets: seq<nat>
    var textLen: nat

    ghost predicate Valid()
      reads this
    {
      newlineOffsets == StartsTo(text, |text|) && textLen == |text|
    }

    /** LineIndex::new: one scan; `\r\n` is taken in one step. */
    constructor (text: seq<Byte>)
      ensures Valid() && this.text == text
    {
      var offsets: seq<nat> := [];
      var i := 0;
      while i < |text|
        invariant 0 <= i <= |text| && offsets == StartsTo(text, i)
      {
        if text[i] == CR {
          if i + 1 < |text| && text[i + 1] == LF {
            SkipCr(text, i);
            i := i + 2;
          } else {
            i := i + 1;
          }
          offsets := offsets + [i];
        } else if text[i] == LF {
          i := i + 1;
          offsets := offsets + [i];
        } else {
          i := i + 1;
        }
      }
      newlineOffsets, textLen, this.text := offsets, |text|, text;
    }

    function LineCount(): nat
      reads this
    {
      |newlineOffsets| + 1
    }

    /** Where 0-based line `line` starts; line `LineCount()` would start at the end of the text. */
    ghost function Start(line: nat): nat
      requires line <= LineCount()
      reads this
    {
      if line == 0 then 0 else if line <= |newlineOffsets| then newlineOffsets[line - 1] else textLen
    }

    /** partition_point: the number of entries not above `x`, by binary search. */
    method PartitionPoint(x: nat) returns (k: nat)
      requires Valid()
      ensures k <= |newlineOffsets|
      ensures forall i | 0 <= i < |newlineOffsets| :: newlineOffsets[i] <= x <==> i < k
    {
      var lo, hi := 0, |newlineOffsets|;
      while lo < hi
        invariant 0 <= lo <= hi <= |newlineOffsets|
        invariant forall i | 0 <= i < lo :: newlineOffsets[i] <= x
        invariant forall i | hi <= i < |newlineOffsets| :: newlineOffsets[i] > x
      {
        var mid := (lo + hi) / 2;
        if newlineOffsets[mid] <= x { lo := mid + 1; } else { hi := mid; }
      }
      k := lo;
    }

    /** offset_to_line_byte_col: 1-based line and byte column of an offset, clamped to the text. */
    method LineByteCol(offset: nat) returns (line: nat, col: nat)
      requires Valid()
      ensures var clamped := if offset < |text| then offset else |text|;
        && line == 1 + LineEnds(text, clamped)
        && 1 <= line <= LineCount() && clamped == Start(line - 1) + col
        && (line < LineCount() ==> clamped < Start(line))
    {
      var clamped := if offset < textLen then offset else textLen;
      var line0 := PartitionPoint(clamped);
      LineOf(text, clamped, line0);
      var lineStart := if line0 == 0 then 0 else newlineOffsets[line0 - 1];
      line, col := line0 + 1, clamped - lineStart;
    }

    /** line_byte_range of a 0-based line, its terminator included. */
    method LineByteRange(line: nat) returns (r: Option<(nat, nat)>)
      requires Valid()
      ensures r == if line >= LineCount() then None else Some((Start(line), Start(line + 1)))
    {
      if line >= LineCount() { return None; }
      var start := if line == 0 then 0 else newlineOffsets[line - 1];
      var end := if line < |newlineOffsets| then newlineOffsets[line] else textLen;
      r := Some((start, end));
    }

    /** The ranges partition the text: they meet end to end, and only the last one can be empty. */
    lemma RangesPartition(line: nat)
      requires Valid() && line < LineCount()
      ensures Start(0) == 0 && Start(LineCount()) == |text| && Start(line) <= Start(line + 1)
      ensures line + 1 < LineCount() ==> Start(line) < Start(line + 1) && EndsLine(text, Start(line + 1) - 1)
      ensures forall p | Start(line) <= p < Start(line + 1) - 1 :: p < |text| && !EndsLine(text, p)
    {
      var starts := newlineOffsets;
      if line < |starts| { assert LineEnds(text, starts[line]) == line + 1; }
      if line > 0 { assert LineEnds(text, starts[line - 1]) == line; }
      forall p | Start(line) <= p < Start(line + 1) - 1 ensures p < |text| && !EndsLine(text, p) {
        MoreEnds(text, Start(line), p);
        MoreEnds(text, p + 1, Start(line + 1) - 1);
        if line == |starts| { MoreEnds(text, Start(line + 1) - 1, |text|); }
      }
    }

    /** A line start is a char boundary. */
    lemma StartIsBoundary(line: nat)
      requires Valid() && WellFormed(text) && line < LineCount()
      ensures Start(line) <= |text| && Boundary(text, Start(line))
    {
      if line == 0 {
        FirstIsBoundary(text);
      } else {
        AfterAscii(text, Start(line) - 1);
      }
      hide WellFormed;
    }

    /** offset_to_line_char_col: the column counts the whole chars before the offset, floored to a boundary. */
    method LineCharCol(offset: nat) returns (line: nat, charCol: nat)
      requires Valid() && WellFormed(text)
      ensures var clamped := if offset < |text| then offset else |text|;
        && line == 1 + LineEnds(text, clamped) && 1 <= line <= LineCount()
        && Start(line - 1) <= Floor(text, clamped)
        && WellFormed(text[Start(line - 1)..Floor(text, clamped)])
        && charCol == |Decode(text[Start(line - 1)..Floor(text, clamped)])|
    {
      hide WellFormed, Decode, Leads, LineEnds, Floor;
      var byteCol;
      line, byteCol := LineByteCol(offset);
      var range := LineByteRange(line - 1);
      var start := range.value.0;
      StartIsBoundary(line - 1);
      var end := FloorFrom(start, start + byteCol);
      SliceChars(text, start, end);
      charCol := CpLen(text[start..end]);
    }

    /** The loop that moves back to a char boundary. */
    method FloorFrom(start: nat, offset: nat) returns (end: nat)
      requires start <= offset <= |text| && Boundary(text, start)
      ensures start <= end <= offset && Boundary(text, end) && end == Floor(text, offset)
    {
      end := offset;
      while end > start && !Boundary(text, end)
        invariant start <= end <= offset && Floor(text, end) == Floor(text, offset)
      {
        end := end - 1;
      }
    }
  }

  /** The char boundary at or before `i`. */
  function Floor(text: seq<Byte>, i: nat): (f: nat)
    requires i <= |text|
    ensures f <= i && forall p | f < p <= i :: !Boundary(text, p)
    ensures f > 0 ==> Boundary(text, f)
  {
    if i == 0 || Boundary(text, i) then i else Floor(text, i - 1)
  }

  /** The entries not above an offset are the line ends before it. */
  lemma LineOf(text: seq<Byte>, offset: nat, k: nat)
    requires offset <= |text| && k <= |StartsTo(text, |text|)|
    requires forall i | 0 <= i < |StartsTo(text, |text|)| :: StartsTo(text, |text|)[i] <= offset <==> i < k
    ensures k == LineEnds(text, offset)
  {
    hide StartsTo, EndsLine;
    var s, t := StartsTo(text, |text|), StartsTo(text, offset);
    StartsPrefix(text, offset, |text|);
    forall i | 0 <= i < |s| ensures s[i] <= offset <==> i < |t| {
      if i < |t| { assert t[i] == s[i]; } else { LaterStart(text, offset, |text|, i); }
    }
    SamePivot(s, offset, |t|, k);
  }

  lemma SamePivot(s: seq<nat>, x: nat, a: nat, b: nat)
    requires a <= |s| && b <= |s|
    requires forall i | 0 <= i < |s| :: s[i] <= x <==> i < a
    requires forall i | 0 <= i < |s| :: s[i] <= x <==> i < b
    ensures a == b
  {
    assert a < |s| ==> (s[a] <= x <==> a < b);
    assert b < |s| ==> (s[b] <= x <==> b < a);
  }

  lemma {:induction false} StartsPrefix(text: seq<Byte>, m: nat, n: nat)
    requires m <= n <= |text|
    ensures StartsTo(text, m) <= StartsTo(text, n)
    decreases n
  {
    if m < n { StartsPrefix(text, m, n - 1); }
  }

  lemma {:induction false} LaterStart(text: seq<Byte>, m: nat, n: nat, i: nat)
    requires m <= n <= |text| && |StartsTo(text, m)| <= i < |StartsTo(text, n)|
    ensures StartsTo(text, n)[i] > m
    decreases n
  {
    if m < n && i < |StartsTo(text, n - 1)| { LaterStart(text, m, n - 1, i); }
  }

  lemma FirstIsBoundary(text: seq<Byte>)
    requires WellFormed(text)
    ensures Boundary(text, 0)
  {
    EncodeDecode(text);
    var cs := Decode(text);
    if cs != [] { LeadsOfEncodeUtf8(cs[0]); }
    hide EncodeUtf8;
  }

  lemma AfterAscii(text: seq<Byte>, p: nat)
    requires WellFormed(text) && p < |text| && text[p] < 0x80
    ensures Boundary(text, p + 1)
  {
    CharStep(text, p);
    hide WellFormed;
  }

  /** Between two boundaries there are whole chars, one per lead byte. */
  lemma SliceChars(text: seq<Byte>, i: nat, j: nat)
    requires WellFormed(text) && i <= j <= |text| && Boundary(text, i) && Boundary(text, j)
    ensures WellFormed(text[i..j]) && |Decode(text[i..j])| == Leads(text[i..j])
  {
    var cs := Decode(text);
    EncodeDecode(text);
    var a := BoundaryIndex(cs, i);
    var b := BoundaryIndex(cs, j);
    hide Encode, Decode, WellFormed, Leads;
    OrderedIndex(cs, a, b);
    EncodeSlice(cs, a, b);
    DecodeEncode(cs[a..b]);
    LeadsOfEncode(cs[a..b]);
  }

  lemma BoundaryIndex(cs: seq<Scalar>, i: nat) returns (k: nat)
    requires Boundary(Encode(cs), i)
    ensures k <= |cs| && i == |Encode(cs[..k])|
  {
    if i < |Encode(cs)| {
      k := LeadIsBoundary(cs, i);
    } else {
      k := |cs|;
      assert cs[..k] == cs;
    }
  }

  lemma OrderedIndex(cs: seq<Scalar>, a: nat, b: nat)
    requires a <= |cs| && b <= |cs| && |Encode(cs[..a])| <= |Encode(cs[..b])|
    ensures a <= b
  {
    if b < a {
      EncodeSlice(cs, b, a);
      LeadsOfEncodeUtf8(cs[b..a][0]);
    }
    hide EncodeUtf8;
  }
}
