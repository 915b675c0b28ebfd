/** CountWords, GetWord and Replace: three ways of looking for a separator. */
module Words {
  import opened Common
  import opened Utf8
  import opened Search
  import opened StrFuncs

  // ── Splitting at the leftmost separators ───────────────────────────────

  function Split<T(==)>(s: seq<T>, sep: seq<T>): (r: seq<seq<T>>)
    requires sep != []
    ensures r != []
    decreases |s|
  {
    var at := FindFrom(s, sep, 0);
    if at.None? then [s] else [s[..at.value]] + Split(s[at.value + |sep|..], sep)
  }

  /** The text after the first separator, or all of it. */
  function Skip<T(==)>(s: seq<T>, sep: seq<T>): seq<T> {
    var at := FindFrom(s, sep, 0);
    if at.None? then s else s[at.value + |sep|..]
  }

  function FirstPiece<T(==)>(s: seq<T>, sep: seq<T>): seq<T> {
    var at := FindFrom(s, sep, 0);
    if at.None? then s else s[..at.value]
  }

  lemma SplitStep<T>(s: seq<T>, sep: seq<T>)
    requires sep != []
    ensures Split(s, sep) == [FirstPiece(s, sep)] + if FindFrom(s, sep, 0).None? then [] else Split(Skip(s, sep), sep)
  {
  }

  function Join<T>(words: seq<seq<T>>, sep: seq<T>): seq<T> {
    if words == [] then []
    else if |words| == 1 then words[0]
    else words[0] + sep + Join(words[1..], sep)
  }

  lemma JoinCons<T>(a: seq<T>, words: seq<seq<T>>, sep: seq<T>)
    requires words != []
    ensures Join([a] + words, sep) == a + sep + Join(words, sep)
  {
    assert ([a] + words)[1..] == words;
  }

  /** Joining the pieces with the separator gives back the text. */
  lemma {:induction false} JoinSplit<T>(s: seq<T>, sep: seq<T>)
    requires sep != []
    ensures Join(Split(s, sep), sep) == s
    decreases |s|
  {
    var at := FindFrom(s, sep, 0);
    if at.Some? {
      var rest := s[at.value + |sep|..];
      JoinSplit(rest, sep);
      assert ([s[..at.value]] + Split(rest, sep))[1..] == Split(rest, sep);
      assert s == s[..at.value] + s[at.value..at.value + |sep|] + rest;
    }
  }

  /** No piece contains the separator. */
  lemma {:induction false} PiecesAreFree<T>(s: seq<T>, sep: seq<T>, k: nat, i: int)
    requires sep != [] && k < |Split(s, sep)|
    ensures !OccursAt(Split(s, sep)[k], sep, i)
    decreases |s|
  {
    var at := FindFrom(s, sep, 0);
    if at.Some? {
      if k > 0 {
        PiecesAreFree(s[at.value + |sep|..], sep, k - 1, i);
      } else if 0 <= i && i + |sep| <= at.value {
        assert s[..at.value][i..i + |sep|] == s[i..i + |sep|];
        assert !OccursAt(s, sep, i);
      }
    }
  }

  // ── The source's two walks ─────────────────────────────────────────────

  function OrSpace(sep: seq<Byte>): (r: seq<Byte>)
    ensures r != []
  {
    if sep == [] then [SPACE] else sep
  }

  /** Number of positions from `p` on where `sep` stands, overlapping or not. */
  function Occurrences<T(==)>(s: seq<T>, sep: seq<T>, p: nat): nat
    decreases |s| + 1 - p
  {
    if p > |s| then 0 else (if OccursAt(s, sep, p) then 1 else 0) + Occurrences(s, sep, p + 1)
  }

  lemma {:induction false} NextOccurrence<T>(s: seq<T>, sep: seq<T>, p: nat)
    ensures var at := FindFrom(s, sep, p);
      Occurrences(s, sep, p) == if at.None? then 0 else 1 + Occurrences(s, sep, at.value + 1)
    decreases |s| + 1 - p
  {
    if p <= |s| && !OccursAt(s, sep, p) {
      NextOccurrence(s, sep, p + 1);
      FindUnique(s, sep, p, FindFrom(s, sep, p + 1));
    }
  }

  /** cb_rt_count_words: the search goes on one byte after each match. */
  method CountWords(s: seq<Byte>, sep: seq<Byte>) returns (count: nat)
    ensures count == if s == [] then 0 else 1 + Occurrences(s, OrSpace(sep), 0)
  {
    hide Occurrences, FindFrom;
    if s == [] { return 0; }
    var sp := OrSpace(sep);
    var p := 0;
    count := 1;
    var at := ByteFind(s, sp, p);
    NextOccurrence(s, sp, p);
    while at.Some?
      invariant at == FindFrom(s, sp, p) && (at.Some? ==> p <= at.value <= |s|)
      invariant count + Occurrences(s, sp, p) == 1 + Occurrences(s, sp, 0)
      invariant Occurrences(s, sp, p) == if at.None? then 0 else 1 + Occurrences(s, sp, at.value + 1)
      decreases |s| + 1 - p
    {
      p := at.value + 1;
      count := count + 1;
      at := ByteFind(s, sp, p);
      NextOccurrence(s, sp, p);
    }
  }

  function SkipTimes<T(==)>(s: seq<T>, sep: seq<T>, n: nat): seq<T> {
    if n == 0 then s else Skip(SkipTimes(s, sep, n - 1), sep)
  }

  /** cb_rt_get_word as a function of its input. */
  function WordAt(s: seq<Byte>, n: int, sep: seq<Byte>): seq<Byte> {
    if n <= 0 then [] else FirstPiece(SkipTimes(s, OrSpace(sep), n - 1), OrSpace(sep))
  }

  method GetWord(s: seq<Byte>, n: int, sep: seq<Byte>) returns (r: seq<Byte>)
    ensures r == WordAt(s, n, sep)
  {
    if n <= 0 { return []; }
    var str, sp := s, OrSpace(sep);
    for i := 1 to n
      invariant str == SkipTimes(s, sp, i - 1)
    {
      var at := ByteFind(str, sp, 0);
      if at.Some? { str := str[at.value + |sp|..]; }
    }
    var at := ByteFind(str, sp, 0);
    r := if at.Some? then str[..at.value] else str;
  }

  // ── GetWord picks the pieces of the split ──────────────────────────────

  lemma {:induction false} SkipComm<T>(s: seq<T>, sep: seq<T>, n: nat)
    requires sep != []
    ensures SkipTimes(s, sep, n + 1) == SkipTimes(Skip(s, sep), sep, n)
  {
    if n > 0 { SkipComm(s, sep, n - 1); }
  }

  lemma {:induction false} SkipStays<T>(s: seq<T>, sep: seq<T>, n: nat)
    requires FindFrom(s, sep, 0).None?
    ensures SkipTimes(s, sep, n) == s
  {
    if n > 0 { SkipStays(s, sep, n - 1); }
  }

  /** Item `n`, or the last one. */
  function Pick<T>(items: seq<T>, n: nat): T
    requires items != []
  {
    items[if n < |items| then n else |items| - 1]
  }

  lemma {:induction false} SkipToPiece<T>(s: seq<T>, sep: seq<T>, n: nat)
    requires sep != []
    ensures FirstPiece(SkipTimes(s, sep, n), sep) == Pick(Split(s, sep), n)
    decreases n
  {
    hide FirstPiece, Skip, Split;
    SplitStep(s, sep);
    if FindFrom(s, sep, 0).None? {
      SkipStays(s, sep, n);
    } else if n > 0 {
      SkipComm(s, sep, n - 1);
      SkipToPiece(Skip(s, sep), sep, n - 1);
    }
    hide SkipTimes;
  }

  /** The n-th word is the n-th piece; past the last one it is the last piece. */
  lemma WordIsPiece(s: seq<Byte>, n: int, sep: seq<Byte>)
    ensures WordAt(s, n, sep) == if n <= 0 then [] else Pick(Split(s, OrSpace(sep)), n - 1)
  {
    hide Split, SkipTimes, FirstPiece, Pick;
    if n > 0 { SkipToPiece(s, OrSpace(sep), n - 1); }
  }

  /** No word contains the separator. */
  lemma WordsAreFree(s: seq<Byte>, n: int, sep: seq<Byte>, i: int)
    ensures !OccursAt(WordAt(s, n, sep), OrSpace(sep), i)
  {
    hide Split, WordAt;
    var pieces := Split(s, OrSpace(sep));
    WordIsPiece(s, n, sep);
    if n > 0 { PiecesAreFree(s, OrSpace(sep), if n - 1 < |pieces| then n - 1 else |pieces| - 1, i); }
  }

  // ── Counting against splitting ─────────────────────────────────────────

  /** No two separators share a byte. */
  ghost predicate Apart<T>(s: seq<T>, sep: seq<T>) {
    forall i, j | 0 <= i < j <= |s| && OccursAt(s, sep, i) && OccursAt(s, sep, j) :: i + |sep| <= j
  }

  /** An occurrence behind `at` in `s` is one in the rest, and back. */
  lemma OccursShift<T>(s: seq<T>, sep: seq<T>, at: nat, i: int)
    requires at <= |s| && 0 <= i
    ensures OccursAt(s[at..], sep, i) <==> OccursAt(s, sep, at + i)
  {
    if i + |sep| <= |s| - at { assert s[at..][i..i + |sep|] == s[at + i..at + i + |sep|]; }
  }

  lemma ApartStep<T>(s: seq<T>, sep: seq<T>, at: nat)
    requires sep != [] && FindFrom(s, sep, 0) == Some(at)
    ensures Apart(s, sep) <==> Apart(s[at + |sep|..], sep) && forall i | at < i < at + |sep| :: !OccursAt(s, sep, i)
  {
    var c := at + |sep|;
    var rest := s[c..];
    forall i: nat ensures OccursAt(rest, sep, i) <==> OccursAt(s, sep, c + i) { OccursShift(s, sep, c, i); }
    if Apart(s, sep) {
      forall i, j | 0 <= i < j <= |rest| && OccursAt(rest, sep, i) && OccursAt(rest, sep, j) ensures i + |sep| <= j {
        assert OccursAt(s, sep, c + i) && OccursAt(s, sep, c + j);
      }
    } else {
      var i, j :| 0 <= i < j <= |s| && OccursAt(s, sep, i) && OccursAt(s, sep, j) && i + |sep| > j;
      assert at <= i;
      if i >= c { assert OccursAt(rest, sep, i - c) && OccursAt(rest, sep, j - c); }
    }
  }

  lemma {:induction false} ShiftCount<T>(s: seq<T>, sep: seq<T>, at: nat, p: nat)
    requires at <= |s|
    ensures Occurrences(s[at..], sep, p) == Occurrences(s, sep, at + p)
    decreases |s| - p
  {
    OccursShift(s, sep, at, p);
    if at + p <= |s| { ShiftCount(s, sep, at, p + 1); }
  }

  /** Skipping positions loses the occurrences among them, and only those. */
  lemma {:induction false} CountGap<T>(s: seq<T>, sep: seq<T>, p: nat, q: nat)
    requires p <= q <= |s| + 1
    ensures Occurrences(s, sep, p) >= Occurrences(s, sep, q)
    ensures Occurrences(s, sep, p) == Occurrences(s, sep, q) <==> forall i | p <= i < q :: !OccursAt(s, sep, i)
    decreases q - p
  {
    if p < q { CountGap(s, sep, p + 1, q); }
  }

  /** The count is never below the number of pieces, and it is that number exactly when no two
      separators share a byte. */
  lemma {:induction false} CountAgainstSplit<T>(s: seq<T>, sep: seq<T>)
    requires sep != []
    ensures 1 + Occurrences(s, sep, 0) >= |Split(s, sep)|
    ensures 1 + Occurrences(s, sep, 0) == |Split(s, sep)| <==> Apart(s, sep)
    decreases |s|
  {
    hide Occurrences, Apart, FindFrom, Split;
    NextOccurrence(s, sep, 0);
    SplitStep(s, sep);
    var found := FindFrom(s, sep, 0);
    if found.Some? {
      var at := found.value;
      CountAgainstSplit(s[at + |sep|..], sep);
      ApartStep(s, sep, at);
      ShiftCount(s, sep, at + |sep|, 0);
      CountGap(s, sep, at + 1, at + |sep|);
    } else {
      NoneApart(s, sep);
    }
  }

  lemma NoneApart<T>(s: seq<T>, sep: seq<T>)
    requires FindFrom(s, sep, 0).None?
    ensures Apart(s, sep)
  {
  }

  // ── The words of a text ────────────────────────────────────────────────

  /** GetWord(1) .. GetWord(n). */
  function WordList(s: seq<Byte>, n: nat, sep: seq<Byte>): seq<seq<Byte>> {
    seq(n, i => WordAt(s, i + 1, sep))
  }

  function WordCount(s: seq<Byte>, sep: seq<Byte>): nat {
    if s == [] then 0 else 1 + Occurrences(s, OrSpace(sep), 0)
  }

  lemma {:induction false} JoinSnoc<T>(words: seq<seq<T>>, w: seq<T>, sep: seq<T>)
    requires words != []
    ensures Join(words + [w], sep) == Join(words, sep) + sep + w
  {
    if |words| == 1 {
      assert (words + [w])[1..] == [w];
    } else {
      JoinSnoc(words[1..], w, sep);
      assert (words + [w])[1..] == words[1..] + [w];
    }
  }

  /** Asking for more words than there are pieces makes the joined text too long. */
  lemma {:induction false} JoinTooMany(s: seq<Byte>, n: nat, sep: seq<Byte>)
    requires n >= |Split(s, OrSpace(sep))|
    ensures var text := Join(WordList(s, n, sep), OrSpace(sep));
      |text| >= |s| && (text == s <==> n == |Split(s, OrSpace(sep))|)
  {
    hide Split, WordAt;
    var sp, pieces := OrSpace(sep), Split(s, OrSpace(sep));
    if n == |pieces| {
      forall i | 0 <= i < n ensures WordList(s, n, sep)[i] == pieces[i] { WordIsPiece(s, i + 1, sep); }
      assert WordList(s, n, sep) == pieces;
      JoinSplit(s, sp);
    } else {
      JoinTooMany(s, n - 1, sep);
      assert WordList(s, n, sep) == WordList(s, n - 1, sep) + [WordAt(s, n, sep)];
      JoinSnoc(WordList(s, n - 1, sep), WordAt(s, n, sep), sp);
    }
  }

  /** Joining the words 1..CountWords with the separator gives back the text exactly when no two
      separators in it share a byte. */
  lemma WordsJoinBack(s: seq<Byte>, sep: seq<Byte>)
    ensures Join(WordList(s, WordCount(s, sep), sep), OrSpace(sep)) == s <==> Apart(s, OrSpace(sep))
  {
    if s != [] {
      CountAgainstSplit(s, OrSpace(sep));
      JoinTooMany(s, WordCount(s, sep), sep);
    }
    hide Split, WordList, Join, Occurrences;
  }

  /** No proper prefix of the separator is also its suffix. */
  ghost predicate Unbordered<T>(sep: seq<T>) {
    forall k | 0 < k < |sep| :: sep[k..] != sep[..|sep| - k]
  }

  /** Sharing bytes needs a border ... */
  lemma OverlapHasBorder<T>(s: seq<T>, sep: seq<T>, i: nat, j: nat)
    requires i < j < i + |sep| && OccursAt(s, sep, i) && OccursAt(s, sep, j)
    ensures !Unbordered(sep)
  {
    var k := j - i;
    assert s[i..i + |sep|][k..] == s[j..i + |sep|] == s[j..j + |sep|][..|sep| - k];
    assert sep[k..] == sep[..|sep| - k];
  }

  /** ... so the words of every text join back exactly for separators without one. */
  lemma AllTextsJoinBack(sep: seq<Byte>)
    ensures (forall s: seq<Byte> :: Join(WordList(s, WordCount(s, sep), sep), OrSpace(sep)) == s) <==> Unbordered(OrSpace(sep))
  {
    hide WordList, Join, WordCount;
    var sp := OrSpace(sep);
    if Unbordered(sp) {
      forall s: seq<Byte> ensures Join(WordList(s, WordCount(s, sep), sep), sp) == s {
        WordsJoinBack(s, sep);
        UnborderedApart(s, sp);
      }
    } else {
      var k :| 0 < k < |sp| && sp[k..] == sp[..|sp| - k];
      var s := sp + sp[|sp| - k..];
      WordsJoinBack(s, sep);
      BorderOverlaps(sp, k);
    }
  }

  lemma UnborderedApart<T>(s: seq<T>, sep: seq<T>)
    requires Unbordered(sep)
    ensures Apart(s, sep)
  {
    forall i, j | 0 <= i < j <= |s| && OccursAt(s, sep, i) && OccursAt(s, sep, j) ensures i + |sep| <= j {
      if j < i + |sep| { OverlapHasBorder(s, sep, i, j); }
    }
  }

  lemma BorderOverlaps<T>(sep: seq<T>, k: nat)
    requires 0 < k < |sep| && sep[k..] == sep[..|sep| - k]
    ensures !Apart(sep + sep[|sep| - k..], sep)
  {
    var s := sep + sep[|sep| - k..];
    assert s[0..|sep|] == sep;
    assert s[k..k + |sep|] == sep[k..] + sep[|sep| - k..] == sep;
    assert OccursAt(s, sep, 0) && OccursAt(s, sep, k);
  }

  // ── Replace ────────────────────────────────────────────────────────────

  /** Every leftmost occurrence of `find` becomes `repl`. */
  function Replaced<T(==)>(s: seq<T>, find: seq<T>, repl: seq<T>): seq<T> {
    if find == [] then s else Join(Split(s, find), repl)
  }

  /** cb_rt_str_replace: the text is rewritten in place, and the search goes on behind the insertion. */
  method Replace(s: seq<Byte>, find: seq<Byte>, repl: seq<Byte>) returns (str: seq<Byte>)
    ensures str == Replaced(s, find, repl)
  {
    hide FindFrom, OccursAt;
    if find == [] { return s; }
    str := s;
    var p := 0;
    assert str[..0] + Replaced(str[0..], find, repl) == Replaced(s, find, repl) by { assert str[0..] == s; }
    hide Replaced;
    var at := ByteFind(str, find, p);
    while at.Some?
      invariant 0 <= p <= |str| && at == FindFrom(str, find, p)
      invariant str[..p] + Replaced(str[p..], find, repl) == Replaced(s, find, repl)
      decreases |str| - p
    {
      str, p := ReplaceNext(str, find, repl, p, at.value);
      at := ByteFind(str, find, p);
    }
    NothingLeft(str, find, repl, p);
    assert str[..p] + str[p..] == str;
  }

  /** One turn of the loop: the occurrence at `at` is replaced. */
  method ReplaceNext(str: seq<Byte>, find: seq<Byte>, repl: seq<Byte>, p: nat, at: nat) returns (next: seq<Byte>, q: nat)
    requires find != [] && p <= |str| && FindFrom(str, find, p) == Some(at)
    ensures q <= |next| && |next| - q < |str| - p
    ensures next[..q] + Replaced(next[q..], find, repl) == str[..p] + Replaced(str[p..], find, repl)
  {
    ReplaceStep(str, find, repl, p, at);
    next := str[..at] + repl + str[at + |find|..];
    q := at + |repl|;
    hide Replaced, FindFrom;
  }

  lemma NothingLeft<T>(str: seq<T>, find: seq<T>, repl: seq<T>, p: nat)
    requires find != [] && p <= |str| && FindFrom(str, find, p).None?
    ensures Replaced(str[p..], find, repl) == str[p..]
  {
    FindShift(str, find, p);
  }

  lemma FindShift<T>(s: seq<T>, sep: seq<T>, p: nat)
    requires p <= |s|
    ensures var at := FindFrom(s, sep, p);
      FindFrom(s[p..], sep, 0) == if at.None? then None else Some(at.value - p)
  {
    var at := FindFrom(s, sep, p);
    forall i: nat ensures OccursAt(s[p..], sep, i) <==> OccursAt(s, sep, p + i) { OccursShift(s, sep, p, i); }
    FindUnique(s[p..], sep, 0, if at.None? then None else Some(at.value - p));
  }

  lemma ReplaceStep<T>(str: seq<T>, find: seq<T>, repl: seq<T>, p: nat, at: nat)
    requires find != [] && p <= |str| && FindFrom(str, find, p) == Some(at)
    ensures var next, q := str[..at] + repl + str[at + |find|..], at + |repl|;
      next[q..] == str[at + |find|..]
      && next[..q] + Replaced(next[q..], find, repl) == str[..p] + Replaced(str[p..], find, repl)
  {
    FindShift(str, find, p);
    var rest := str[at + |find|..];
    assert FirstPiece(str[p..], find) == str[p..at] && Skip(str[p..], find) == rest;
    SplitStep(str[p..], find);
    JoinCons(str[p..at], Split(rest, find), repl);
    var tail := Join(Split(rest, find), repl);
    assert Replaced(rest, find, repl) == tail && Replaced(str[p..], find, repl) == str[p..at] + repl + tail;
    hide Replaced, Split, Join, FindFrom, FirstPiece, Skip;
    RewriteAt(str, repl, p, at, rest, tail);
  }

  lemma RewriteAt<T>(str: seq<T>, repl: seq<T>, p: nat, at: nat, rest: seq<T>, tail: seq<T>)
    requires p <= at <= |str|
    ensures var next, q := str[..at] + repl + rest, at + |repl|;
      next[q..] == rest && next[..q] + tail == str[..p] + (str[p..at] + repl + tail)
  {
    var next, q := str[..at] + repl + rest, at + |repl|;
    assert next[..q] == str[..at] + repl;
    assert str[..at] == str[..p] + str[p..at];
  }

  // ── On valid text ──────────────────────────────────────────────────────

  function EncodeAll(pieces: seq<seq<Scalar>>): (r: seq<seq<Byte>>)
    ensures |r| == |pieces| && forall i | 0 <= i < |r| :: r[i] == Encode(pieces[i])
  {
    seq(|pieces|, i requires 0 <= i < |pieces| => Encode(pieces[i]))
  }

  lemma EncodeAllCons(a: seq<Scalar>, pieces: seq<seq<Scalar>>)
    ensures EncodeAll([a] + pieces) == [Encode(a)] + EncodeAll(pieces)
  {
  }

  /** Splitting bytes never cuts a code point. */
  lemma {:induction false} SplitRefines(cs: seq<Scalar>, ss: seq<Scalar>)
    requires ss != []
    ensures Encode(ss) != [] && Split(Encode(cs), Encode(ss)) == EncodeAll(Split(cs, ss))
    decreases |cs|
  {
    hide Encode, FindFrom, Split, EncodeAll;
    EncodeNonEmpty(ss);
    FindInEncoded(cs, ss);
    SplitStep(cs, ss);
    SplitStep(Encode(cs), Encode(ss));
    EncodeAllCons(FirstPiece(cs, ss), []);
    EncodeAllEmpty();
    if FindFrom(cs, ss, 0).Some? {
      SplitRefines(Skip(cs, ss), ss);
      EncodeAllCons(FirstPiece(cs, ss), Split(Skip(cs, ss), ss));
    }
    assert [FirstPiece(cs, ss)] + [] == [FirstPiece(cs, ss)];
    hide FirstPiece, Skip;
  }

  lemma EncodeAllEmpty()
    ensures EncodeAll([]) == []
  {
  }

  /** The first byte match, what stands before it and what stands behind it. */
  lemma FindInEncoded(cs: seq<Scalar>, ss: seq<Scalar>)
    requires ss != [] && Encode(ss) != []
    ensures FindFrom(Encode(cs), Encode(ss), 0).Some? == FindFrom(cs, ss, 0).Some?
    ensures FirstPiece(Encode(cs), Encode(ss)) == Encode(FirstPiece(cs, ss))
    ensures Skip(Encode(cs), Encode(ss)) == Encode(Skip(cs, ss))
  {
    hide Encode, Offset, FindFrom;
    OffsetOfEncode(cs, 0);
    assert cs[..0] == [];
    EncodeEmpty();
    NeedleFound(cs, ss, 0);
    var at := FindFrom(cs, ss, 0);
    if at.Some? {
      var k := at.value;
      EncodeSplit(cs, k);
      EncodeSplit(cs, k + |ss|);
      EncodeConcat(cs[..k], ss);
      assert cs[..k] + ss == cs[..k + |ss|];
    }
  }

  lemma EncodeNonEmpty(ss: seq<Scalar>)
    requires ss != []
    ensures Encode(ss) != []
  {
    LeadsOfEncodeUtf8(ss[0]);
    hide EncodeUtf8;
  }

  lemma {:induction false} JoinRefines(pieces: seq<seq<Scalar>>, sep: seq<Scalar>)
    ensures Join(EncodeAll(pieces), Encode(sep)) == Encode(Join(pieces, sep))
  {
    hide Encode;
    EncodeEmpty();
    if |pieces| > 1 {
      JoinRefines(pieces[1..], sep);
      assert EncodeAll(pieces)[1..] == EncodeAll(pieces[1..]);
      EncodeConcat(pieces[0], sep);
      EncodeConcat(pieces[0] + sep, Join(pieces[1..], sep));
    }
  }

  /** Byte-level replacement is replacement of code points. */
  lemma ReplaceRefines(cs: seq<Scalar>, find: seq<Scalar>, repl: seq<Scalar>)
    ensures Replaced(Encode(cs), Encode(find), Encode(repl)) == Encode(Replaced(cs, find, repl))
  {
    EncodeEmpty();
    if find != [] {
      SplitRefines(cs, find);
      JoinRefines(Split(cs, find), repl);
    }
    hide Split, Join, Encode;
  }

  function OrSpaceOf(sep: seq<Scalar>): seq<Scalar> {
    if sep == [] then [' ' as int] else sep
  }

  /** The words of valid text are valid: they are the words of its code points. */
  lemma WordRefines(cs: seq<Scalar>, n: nat, ss: seq<Scalar>)
    requires n > 0
    ensures WordAt(Encode(cs), n, Encode(ss)) == Encode(Pick(Split(cs, OrSpaceOf(ss)), n - 1))
  {
    hide Split, Encode, WordAt, Pad, Spaces;
    EncodeEmpty();
    if ss != [] { EncodeNonEmpty(ss); } else { EncodedSpace(); }
    SplitRefines(cs, OrSpaceOf(ss));
    WordIsPiece(Encode(cs), n, Encode(ss));
  }

  lemma EncodedSpace()
    ensures Encode([SPACE]) == [SPACE]
  {
    EncodePad(1);
    assert Pad(1) == [SPACE];
    assert Spaces(1) == [SPACE];
  }
}
