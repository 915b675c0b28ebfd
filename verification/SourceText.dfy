/** A source text as the lexer sees it: bytes of valid UTF-8 and a cursor on char boundaries. */
module SourceText {
  import opened Common
  import opened Utf8

  const TAB: Byte := 0x09
  const LF: Byte := 0x0A
  const CR: Byte := 0x0D
  const BLANK: Byte := 0x20
  const QUOTE: Byte := 0x22
  const HASH: Byte := 0x23
  const DOLLAR: Byte := 0x24
  const PERCENT: Byte := 0x25
  const TICK: Byte := 0x27
  const STAR: Byte := 0x2A
  const PLUS: Byte := 0x2B
  const MINUS: Byte := 0x2D
  const DOT: Byte := 0x2E
  const SLASH: Byte := 0x2F
  const BACKSLASH: Byte := 0x5C
  const UNDERSCORE: Byte := 0x5F

  /** The byte at `i`, or -1 past the end. */
  function At(src: seq<Byte>, i: nat): int {
    if i < |src| then src[i] else -1
  }

  predicate Boundary(src: seq<Byte>, i: nat) {
    i <= |src| && (i < |src| ==> IsLead(src[i]))
  }

  /** The char at `i`, if one starts there. */
  function PeekChar(src: seq<Byte>, i: nat): Option<Scalar> {
    if i < |src| && 0 < SequenceLength(src[i]) <= |src| - i && IsSequence(src[i..i + SequenceLength(src[i])]) then
      (SequenceIsEncoding(src[i..i + SequenceLength(src[i])]);
       Some(Value(src[i..i + SequenceLength(src[i])])))
    else None
  }

  /** Past the char at `i`; a byte that starts no char counts as one. */
  function NextChar(src: seq<Byte>, i: nat): (j: nat)
    ensures i < |src| ==> i < j <= |src|
    ensures i >= |src| ==> j == i
  {
    if i >= |src| then i
    else if PeekChar(src, i).Some? then i + SequenceLength(src[i])
    else i + 1
  }

  /** In valid text a boundary is the start of a char, and the next one follows it. */
  lemma CharStep(src: seq<Byte>, i: nat)
    requires WellFormed(src) && Boundary(src, i) && i < |src|
    ensures PeekChar(src, i).Some? && i < NextChar(src, i) <= |src| && Boundary(src, NextChar(src, i))
    ensures src[i] < 0x80 ==> NextChar(src, i) == i + 1
    ensures EncodeUtf8(PeekChar(src, i).value) == src[i..NextChar(src, i)]
    ensures WellFormed(src[i..]) && Decode(src[i..]) == [PeekChar(src, i).value] + Decode(src[NextChar(src, i)..])
  {
    var cs := Decode(src);
    EncodeDecode(src);
    var k := LeadIsBoundary(cs, i);
    EncodeSplit(cs, k);
    DecodeEncode(cs[k..]);
    assert src[i..] == Encode(cs[k..]);
    FirstChar(src, i);
  }

  lemma FirstChar(src: seq<Byte>, i: nat)
    requires i < |src| && WellFormed(src[i..])
    ensures PeekChar(src, i).Some? && i < NextChar(src, i) <= |src| && Boundary(src, NextChar(src, i))
    ensures src[i] < 0x80 ==> NextChar(src, i) == i + 1
    ensures EncodeUtf8(PeekChar(src, i).value) == src[i..NextChar(src, i)]
    ensures WellFormed(src[NextChar(src, i)..]) && Decode(src[i..]) == [PeekChar(src, i).value] + Decode(src[NextChar(src, i)..])
  {
    var rest := src[i..];
    var n := SequenceLength(rest[0]);
    assert rest[0] == src[i] && rest[..n] == src[i..i + n] && rest[n..] == src[i + n..];
    SequenceIsEncoding(src[i..i + n]);
    if i + n < |src| {
      assert rest[n..] != [] && rest[n] == src[i + n];
    }
    hide EncodeUtf8, Value;
  }
}
