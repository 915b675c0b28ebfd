/** Include expansion (include.rs): depth-first search over a graph that may have cycles. */
module Include {
  import opened Common

  /** Canonical path of a file; it determines what the file includes. */
  type Key = nat

  datatype Item = Statement | IncludeOf(target: Key)

  /** The readable files with their top-level items. */
  type Disk = map<Key, seq<Item>>

  /** A statement of the merged program: item `index` of `file`. */
  datatype Piece = Piece(file: Key, index: nat)

  /** An include whose target could not be read. */
  datatype Failure = Failure(file: Key, index: nat, target: Key)

  datatype Expansion = Expansion(merged: seq<Piece>, visited: set<Key>, read: seq<Key>, failures: seq<Failure>)

  function Items(disk: Disk, file: Key): seq<Item> {
    if file in disk then disk[file] else []
  }

  /** Files that can still be entered. */
  function Unvisited(disk: Disk, visited: set<Key>): set<Key> {
    disk.Keys - visited
  }

  /** expand from item `i` of `file` on. A target is marked visited before the attempt to read it. */
  function Expand(disk: Disk, file: Key, i: nat, visited: set<Key>): (r: Expansion)
    ensures visited <= r.visited
    decreases |Unvisited(disk, visited)|, |Items(disk, file)| - i
  {
    if i >= |Items(disk, file)| then Expansion([], visited, [], [])
    else
      match Items(disk, file)[i]
      case Statement =>
        var rest := Expand(disk, file, i + 1, visited);
        rest.(merged := [Piece(file, i)] + rest.merged)
      case IncludeOf(k) =>
        if k in visited then Expand(disk, file, i + 1, visited)
        else if k in disk then
          Shrinks(disk, visited, visited + {k}, k);
          var child := Expand(disk, k, 0, visited + {k});
          Shrinks(disk, visited, child.visited, k);
          var rest := Expand(disk, file, i + 1, child.visited);
          Expansion(child.merged + rest.merged, rest.visited, [k] + child.read + rest.read, child.failures + rest.failures)
        else
          NotGrown(disk, visited, visited + {k});
          var rest := Expand(disk, file, i + 1, visited + {k});
          rest.(failures := [Failure(file, i, k)] + rest.failures)
  }

  lemma NotGrown(disk: Disk, a: set<Key>, b: set<Key>)
    requires a <= b
    ensures |Unvisited(disk, b)| <= |Unvisited(disk, a)|
  {
    Subset(Unvisited(disk, b), Unvisited(disk, a));
  }

  lemma Shrinks(disk: Disk, a: set<Key>, b: set<Key>, k: Key)
    requires a <= b && k in disk && k !in a && k in b
    ensures |Unvisited(disk, b)| < |Unvisited(disk, a)|
  {
    var u := Unvisited(disk, a);
    Subset(Unvisited(disk, b), u - {k});
    assert |u - {k}| == |u| - 1;
  }

  lemma {:induction false} Subset(a: set<Key>, b: set<Key>)
    requires a <= b
    ensures |a| <= |b|
  {
    if a != {} {
      var x :| x in a;
      Subset(a - {x}, b - {x});
    }
  }

  /** resolve: the main file counts as visited and read. */
  function Resolve(disk: Disk, main: Key): Expansion {
    var r := Expand(disk, main, 0, {main});
    r.(read := [main] + r.read)
  }

  // ── Reachability ───────────────────────────────────────────────────────

  predicate Includes(disk: Disk, a: Key, b: Key) {
    IncludeOf(b) in Items(disk, a)
  }

  /** `b` is `n` includes away from `a`. */
  ghost predicate ReachIn(disk: Disk, a: Key, b: Key, n: nat)
    decreases n
  {
    if n == 0 then a == b else exists m :: ReachIn(disk, a, m, n - 1) && Includes(disk, m, b)
  }

  ghost predicate Reachable(disk: Disk, a: Key, b: Key) {
    exists n :: ReachIn(disk, a, b, n)
  }

  lemma {:induction false} ReachBefore(disk: Disk, a: Key, t: Key, b: Key, n: nat)
    requires Includes(disk, a, t) && ReachIn(disk, t, b, n)
    ensures ReachIn(disk, a, b, n + 1)
    decreases n
  {
    if n == 0 {
      assert ReachIn(disk, a, a, 0);
    } else {
      var m :| ReachIn(disk, t, m, n - 1) && Includes(disk, m, b);
      ReachBefore(disk, a, t, m, n - 1);
    }
  }

  /** Everything newly visited is reached from the file. */
  lemma {:induction false} VisitsReachable(disk: Disk, file: Key, i: nat, visited: set<Key>, k: Key)
    requires k in Expand(disk, file, i, visited).visited && k !in visited
    ensures Reachable(disk, file, k)
    decreases |Unvisited(disk, visited)|, |Items(disk, file)| - i
  {
    match Items(disk, file)[i] {
      case Statement => VisitsReachable(disk, file, i + 1, visited, k);
      case IncludeOf(t) =>
        if t in visited {
          VisitsReachable(disk, file, i + 1, visited, k);
        } else {
          assert Includes(disk, file, t);
          var after := if t in disk then Expand(disk, t, 0, visited + {t}).visited else visited + {t};
          if k == t {
            assert ReachIn(disk, t, t, 0);
            ReachBefore(disk, file, t, k, 0);
          } else if k in after {
            Shrinks(disk, visited, visited + {t}, t);
            VisitsReachable(disk, t, 0, visited + {t}, k);
            var n :| ReachIn(disk, t, k, n);
            ReachBefore(disk, file, t, k, n);
          } else {
            if t in disk { Shrinks(disk, visited, after, t); } else { NotGrown(disk, visited, after); }
            VisitsReachable(disk, file, i + 1, after, k);
          }
        }
    }
  }

  /** All includes from item `i` of `file` on are in `v`. */
  ghost predicate Entered(disk: Disk, file: Key, i: nat, v: set<Key>) {
    forall j | i <= j < |Items(disk, file)| :: Items(disk, file)[j].IncludeOf? ==> Items(disk, file)[j].target in v
  }

  /** What a search has entered, it has explored completely. */
  lemma {:induction false} Explores(disk: Disk, file: Key, i: nat, visited: set<Key>)
    ensures var r := Expand(disk, file, i, visited);
      Entered(disk, file, i, r.visited) && forall k | k in r.visited && k !in visited :: Entered(disk, k, 0, r.visited)
    decreases |Unvisited(disk, visited)|, |Items(disk, file)| - i
  {
    if i < |Items(disk, file)| {
      match Items(disk, file)[i] {
        case Statement => Explores(disk, file, i + 1, visited);
        case IncludeOf(t) =>
          if t in visited {
            Explores(disk, file, i + 1, visited);
          } else if t in disk {
            Shrinks(disk, visited, visited + {t}, t);
            Explores(disk, t, 0, visited + {t});
            var after := Expand(disk, t, 0, visited + {t}).visited;
            Shrinks(disk, visited, after, t);
            Explores(disk, file, i + 1, after);
          } else {
            NotGrown(disk, visited, visited + {t});
            Explores(disk, file, i + 1, visited + {t});
          }
      }
    }
  }

  lemma {:induction false} ClosedHoldsReachable(disk: Disk, v: set<Key>, a: Key, b: Key, n: nat)
    requires a in v && (forall k | k in v :: Entered(disk, k, 0, v)) && ReachIn(disk, a, b, n)
    ensures b in v
    decreases n
  {
    if n > 0 {
      var m :| ReachIn(disk, a, m, n - 1) && Includes(disk, m, b);
      ClosedHoldsReachable(disk, v, a, m, n - 1);
      var j :| 0 <= j < |Items(disk, m)| && Items(disk, m)[j] == IncludeOf(b);
    }
  }

  /** The search visits exactly what the main file reaches. */
  lemma VisitsExactlyReachable(disk: Disk, main: Key, k: Key)
    ensures k in Resolve(disk, main).visited <==> Reachable(disk, main, k)
  {
    var v := Resolve(disk, main).visited;
    if k == main {
      assert ReachIn(disk, main, main, 0);
    } else if k in v {
      VisitsReachable(disk, main, 0, {main}, k);
    }
    Explores(disk, main, 0, {main});
    if Reachable(disk, main, k) {
      var n :| ReachIn(disk, main, k, n);
      ClosedHoldsReachable(disk, v, main, k, n);
    }
  }

  // ── What is read, and what fails ───────────────────────────────────────

  /** Newly visited files are read exactly once if readable, and reported exactly once if not. */
  lemma {:induction false} ReadsOnce(disk: Disk, file: Key, i: nat, visited: set<Key>)
    ensures var r := Expand(disk, file, i, visited);
      && Distinct(r.read)
      && (forall k :: k in r.read <==> k in r.visited && k !in visited && k in disk)
      && Distinct(Targets(r.failures))
      && (forall k :: k in Targets(r.failures) <==> k in r.visited && k !in visited && k !in disk)
    decreases |Unvisited(disk, visited)|, |Items(disk, file)| - i
  {
    if i < |Items(disk, file)| {
      match Items(disk, file)[i] {
        case Statement => ReadsOnce(disk, file, i + 1, visited);
        case IncludeOf(t) =>
          if t in visited {
            ReadsOnce(disk, file, i + 1, visited);
          } else if t in disk {
            Shrinks(disk, visited, visited + {t}, t);
            ReadsOnce(disk, t, 0, visited + {t});
            var child := Expand(disk, t, 0, visited + {t});
            Shrinks(disk, visited, child.visited, t);
            ReadsOnce(disk, file, i + 1, child.visited);
            var rest := Expand(disk, file, i + 1, child.visited);
            DistinctConcat(child.read, rest.read);
            DistinctConcat([t], child.read + rest.read);
            assert [t] + (child.read + rest.read) == [t] + child.read + rest.read;
            TargetsConcat(child.failures, rest.failures);
            DistinctConcat(Targets(child.failures), Targets(rest.failures));
          } else {
            NotGrown(disk, visited, visited + {t});
            ReadsOnce(disk, file, i + 1, visited + {t});
            var rest := Expand(disk, file, i + 1, visited + {t});
            TargetsConcat([Failure(file, i, t)], rest.failures);
            DistinctConcat([t], Targets(rest.failures));
            assert Targets([Failure(file, i, t)]) == [t];
          }
      }
    }
  }

  function Targets(fs: seq<Failure>): seq<Key> {
    if fs == [] then [] else [fs[0].target] + Targets(fs[1..])
  }

  lemma {:induction false} TargetsConcat(a: seq<Failure>, b: seq<Failure>)
    ensures Targets(a + b) == Targets(a) + Targets(b)
  {
    if a == [] { assert a + b == b; } else {
      TargetsConcat(a[1..], b);
      assert (a + b)[1..] == a[1..] + b;
    }
  }

  lemma DistinctConcat(a: seq<Key>, b: seq<Key>)
    requires Distinct(a) && Distinct(b) && forall x | x in a :: x !in b
    ensures Distinct(a + b)
  {
    var all := a + b;
    forall i, j | 0 <= i < j < |all| ensures all[i] != all[j] {
      if i < |a| <= j { assert all[i] in a && all[j] in b; }
    }
  }

  /** Reading: exactly the readable files the main file reaches, each once (the main file is readable). */
  lemma ReadsReachable(disk: Disk, main: Key, k: Key)
    requires main in disk
    ensures var r := Resolve(disk, main);
      && Distinct(r.read) && (k in r.read <==> Reachable(disk, main, k) && k in disk)
      && Distinct(Targets(r.failures)) && (k in Targets(r.failures) <==> Reachable(disk, main, k) && k !in disk)
  {
    VisitsExactlyReachable(disk, main, k);
    ReadsOnce(disk, main, 0, {main});
    DistinctConcat([main], Expand(disk, main, 0, {main}).read);
    hide Expand, Reachable;
  }

  /** The failure names the first include of its target in its file, from item `from` on. */
  ghost predicate Blames(disk: Disk, f: Failure, from: nat) {
    && from <= f.index < |Items(disk, f.file)| && Items(disk, f.file)[f.index] == IncludeOf(f.target)
    && forall j | from <= j < f.index :: Items(disk, f.file)[j] != IncludeOf(f.target)
  }

  /** Every failure of an expansion is one of the expanded file, or of a file it newly visits. */
  ghost predicate WellBlamed(disk: Disk, fs: seq<Failure>, file: Key, i: nat, before: set<Key>, after: set<Key>) {
    forall f | f in fs :: f.target !in before && if f.file == file then Blames(disk, f, i) else f.file in after - before && Blames(disk, f, 0)
  }

  lemma {:induction false} FailuresBlame(disk: Disk, file: Key, i: nat, visited: set<Key>)
    requires file in visited
    ensures WellBlamed(disk, Expand(disk, file, i, visited).failures, file, i, visited, Expand(disk, file, i, visited).visited)
    decreases |Unvisited(disk, visited)|, |Items(disk, file)| - i
  {
    if i < |Items(disk, file)| {
      match Items(disk, file)[i] {
        case Statement =>
          FailuresBlame(disk, file, i + 1, visited);
          BlameEarlier(disk, Expand(disk, file, i + 1, visited).failures, file, i, visited, visited, Expand(disk, file, i + 1, visited).visited);
        case IncludeOf(t) =>
          if t in visited {
            FailuresBlame(disk, file, i + 1, visited);
            BlameEarlier(disk, Expand(disk, file, i + 1, visited).failures, file, i, visited, visited, Expand(disk, file, i + 1, visited).visited);
          } else if t in disk {
            Shrinks(disk, visited, visited + {t}, t);
            FailuresBlame(disk, t, 0, visited + {t});
            var child := Expand(disk, t, 0, visited + {t});
            Shrinks(disk, visited, child.visited, t);
            FailuresBlame(disk, file, i + 1, child.visited);
            var rest := Expand(disk, file, i + 1, child.visited);
            BlameEarlier(disk, rest.failures, file, i, visited, child.visited, rest.visited);
            BlameInside(disk, child.failures, t, file, i, visited, child.visited, rest.visited);
            hide WellBlamed;
            BlameBoth(disk, child.failures, rest.failures, file, i, visited, rest.visited);
          } else {
            NotGrown(disk, visited, visited + {t});
            FailuresBlame(disk, file, i + 1, visited + {t});
            var rest := Expand(disk, file, i + 1, visited + {t});
            BlameEarlier(disk, rest.failures, file, i, visited, visited + {t}, rest.visited);
            assert WellBlamed(disk, [Failure(file, i, t)], file, i, visited, rest.visited);
            hide WellBlamed;
            BlameBoth(disk, [Failure(file, i, t)], rest.failures, file, i, visited, rest.visited);
          }
      }
    }
  }

  lemma BlameBoth(disk: Disk, a: seq<Failure>, b: seq<Failure>, file: Key, i: nat, before: set<Key>, after: set<Key>)
    requires WellBlamed(disk, a, file, i, before, after) && WellBlamed(disk, b, file, i, before, after)
    ensures WellBlamed(disk, a + b, file, i, before, after)
  {
    hide Blames;
  }

  /** Failures behind item `i`, seen from it: it includes none of their targets. */
  lemma BlameEarlier(disk: Disk, fs: seq<Failure>, file: Key, i: nat, before: set<Key>, middle: set<Key>, after: set<Key>)
    requires WellBlamed(disk, fs, file, i + 1, middle, after) && before <= middle <= after && i < |Items(disk, file)|
    requires Items(disk, file)[i].IncludeOf? ==> Items(disk, file)[i].target in middle
    ensures WellBlamed(disk, fs, file, i, before, after)
  {
  }

  /** Failures of an included file, seen from the including one. */
  lemma BlameInside(disk: Disk, fs: seq<Failure>, t: Key, file: Key, i: nat, before: set<Key>, middle: set<Key>, after: set<Key>)
    requires WellBlamed(disk, fs, t, 0, before + {t}, middle) && before <= middle <= after && file in before && t !in before && t in middle
    ensures WellBlamed(disk, fs, file, i, before, after)
  {
    hide Blames;
  }

  /** Every failure is reported at the first include of its target in a file that was reached. */
  lemma FailuresAtFirstInclude(disk: Disk, main: Key, f: Failure)
    requires main in disk && f in Resolve(disk, main).failures
    ensures Blames(disk, f, 0) && Reachable(disk, main, f.file) && f.target !in disk
  {
    FailuresBlame(disk, main, 0, {main});
    VisitsExactlyReachable(disk, main, f.file);
    Explores(disk, main, 0, {main});
    ReadsOnce(disk, main, 0, {main});
    InTargets(Resolve(disk, main).failures, f);
    hide Expand, Reachable, Blames;
  }

  lemma {:induction false} InTargets(fs: seq<Failure>, f: Failure)
    requires f in fs
    ensures f.target in Targets(fs)
  {
    if fs[0] != f { InTargets(fs[1..], f); }
  }

  // ── The merged program ─────────────────────────────────────────────────

  /** The positions of a file's own statements, from `i` on, in source order. */
  function Statements(disk: Disk, file: Key, i: nat): seq<nat>
    decreases |Items(disk, file)| - i
  {
    if i >= |Items(disk, file)| then []
    else (if Items(disk, file)[i].Statement? then [i] else []) + Statements(disk, file, i + 1)
  }

  /** The positions of `file` in a merged program, in program order. */
  function PiecesOf(merged: seq<Piece>, file: Key): seq<nat> {
    if merged == [] then []
    else (if merged[0].file == file then [merged[0].index] else []) + PiecesOf(merged[1..], file)
  }

  lemma {:induction false} PiecesConcat(a: seq<Piece>, b: seq<Piece>, file: Key)
    ensures PiecesOf(a + b, file) == PiecesOf(a, file) + PiecesOf(b, file)
  {
    hide PiecesOf;
    if a == [] {
      NoPieces(file);
      assert a + b == b;
    } else {
      PiecesConcat(a[1..], b, file);
      FirstPiece(a, file);
      FirstPiece(a + b, file);
      assert (a + b)[1..] == a[1..] + b && (a + b)[0] == a[0];
      var x, y, z := if a[0].file == file then [a[0].index] else [], PiecesOf(a[1..], file), PiecesOf(b, file);
      assert x + (y + z) == (x + y) + z;
    }
  }

  lemma NoPieces(file: Key)
    ensures PiecesOf([], file) == []
  {
  }

  lemma FirstPiece(merged: seq<Piece>, file: Key)
    requires merged != []
    ensures PiecesOf(merged, file) == (if merged[0].file == file then [merged[0].index] else []) + PiecesOf(merged[1..], file)
  {
  }

  lemma {:induction false} MergedPieces(disk: Disk, file: Key, i: nat, visited: set<Key>, f: Key)
    requires file in visited
    ensures var r := Expand(disk, file, i, visited);
      PiecesOf(r.merged, f) ==
      if f == file then Statements(disk, f, i) else if f in r.visited && f !in visited then Statements(disk, f, 0) else []
    decreases |Unvisited(disk, visited)|, |Items(disk, file)| - i
  {
    if i < |Items(disk, file)| {
      match Items(disk, file)[i] {
        case Statement =>
          MergedPieces(disk, file, i + 1, visited, f);
          PiecesConcat([Piece(file, i)], Expand(disk, file, i + 1, visited).merged, f);
          assert PiecesOf([Piece(file, i)], f) == if f == file then [i] else [];
        case IncludeOf(t) =>
          if t in visited {
            MergedPieces(disk, file, i + 1, visited, f);
          } else if t in disk {
            Shrinks(disk, visited, visited + {t}, t);
            MergedPieces(disk, t, 0, visited + {t}, f);
            var child := Expand(disk, t, 0, visited + {t});
            Shrinks(disk, visited, child.visited, t);
            MergedPieces(disk, file, i + 1, child.visited, f);
            PiecesConcat(child.merged, Expand(disk, file, i + 1, child.visited).merged, f);
          } else {
            NotGrown(disk, visited, visited + {t});
            MergedPieces(disk, file, i + 1, visited + {t}, f);
          }
      }
    }
  }

  /** Each file that is reached contributes its own statements once and in source order; no other file
      contributes anything. */
  lemma MergedProgram(disk: Disk, main: Key, f: Key)
    ensures PiecesOf(Resolve(disk, main).merged, f) == if Reachable(disk, main, f) then Statements(disk, f, 0) else []
  {
    MergedPieces(disk, main, 0, {main}, f);
    VisitsExactlyReachable(disk, main, f);
    if f == main { assert ReachIn(disk, main, main, 0); }
    hide Expand, ReachIn, Statements, PiecesOf;
  }

  // ── Where the statements stand ─────────────────────────────────────────

  /** Textual pasting: every include of a readable file is replaced by that file's text, pasted in the same way,
      over and over. Only a file being pasted at the moment (`open`) is not pasted into itself. */
  function Paste(disk: Disk, file: Key, i: nat, open: set<Key>): seq<Piece>
    decreases |Unvisited(disk, open)|, |Items(disk, file)| - i
  {
    if i >= |Items(disk, file)| then []
    else
      match Items(disk, file)[i]
      case Statement => [Piece(file, i)] + Paste(disk, file, i + 1, open)
      case IncludeOf(k) =>
        if k in disk && k !in open then
          Shrinks(disk, open, open + {k}, k);
          Paste(disk, k, 0, open + {k}) + Paste(disk, file, i + 1, open)
        else Paste(disk, file, i + 1, open)
  }

  /** The first copy of each piece that is not in `seen`. */
  function FirstCopies(ps: seq<Piece>, seen: set<Piece>): seq<Piece>
    decreases |ps|
  {
    if ps == [] then []
    else if ps[0] in seen then FirstCopies(ps[1..], seen)
    else [ps[0]] + FirstCopies(ps[1..], seen + {ps[0]})
  }

  function PieceSet(ps: seq<Piece>): set<Piece> {
    set p | p in ps
  }

  lemma {:induction false} FirstCopiesConcat(a: seq<Piece>, b: seq<Piece>, seen: set<Piece>)
    ensures FirstCopies(a + b, seen) == FirstCopies(a, seen) + FirstCopies(b, seen + PieceSet(FirstCopies(a, seen)))
    decreases |a|
  {
    if a == [] {
      assert a + b == b;
      assert seen + PieceSet([]) == seen;
    } else {
      assert (a + b)[1..] == a[1..] + b;
      if a[0] in seen {
        FirstCopiesConcat(a[1..], b, seen);
      } else {
        var s := seen + {a[0]};
        FirstCopiesConcat(a[1..], b, s);
        var c := FirstCopies(a[1..], s);
        assert seen + PieceSet([a[0]] + c) == s + PieceSet(c);
        assert [a[0]] + (c + FirstCopies(b, s + PieceSet(c))) == ([a[0]] + c) + FirstCopies(b, s + PieceSet(c));
      }
    }
  }

  lemma {:induction false} AllSeen(ps: seq<Piece>, seen: set<Piece>)
    requires forall p | p in ps :: p in seen
    ensures FirstCopies(ps, seen) == []
  {
    if ps != [] {
      assert forall p | p in ps[1..] :: p in ps;
      AllSeen(ps[1..], seen);
    }
  }

  /** The statements of the file from item `i` on are in `seen`. */
  ghost predicate StatementsIn(disk: Disk, file: Key, i: nat, seen: set<Piece>) {
    forall j | i <= j < |Items(disk, file)| && Items(disk, file)[j].Statement? :: Piece(file, j) in seen
  }

  /** The visited files that are not open are finished: their statements are there, and they lead nowhere new. */
  ghost predicate Finished(disk: Disk, visited: set<Key>, open: set<Key>, seen: set<Piece>) {
    forall f | f in visited && f !in open :: Entered(disk, f, 0, visited) && StatementsIn(disk, f, 0, seen)
  }

  /** Nothing from item `i` of the file on, and nothing of a file not visited yet, is in `seen`. */
  ghost predicate Ahead(file: Key, i: nat, visited: set<Key>, seen: set<Piece>) {
    forall p | p in seen :: p.file in visited && (p.file == file ==> p.index < i)
  }

  /** Pasting a finished file again adds no new piece. */
  lemma {:induction false} PasteAgain(disk: Disk, file: Key, i: nat, open0: set<Key>, open: set<Key>, visited: set<Key>, seen: set<Piece>)
    requires Finished(disk, visited, open0, seen) && open0 <= open && file in visited && file !in open0
    ensures forall p | p in Paste(disk, file, i, open) :: p in seen
    decreases |Unvisited(disk, open)|, |Items(disk, file)| - i
  {
    if i < |Items(disk, file)| {
      PasteAgain(disk, file, i + 1, open0, open, visited, seen);
      assert Entered(disk, file, 0, visited) && StatementsIn(disk, file, 0, seen);
      match Items(disk, file)[i] {
        case Statement =>
        case IncludeOf(k) =>
          if k in disk && k !in open {
            Shrinks(disk, open, open + {k}, k);
            PasteAgain(disk, k, 0, open0, open + {k}, visited, seen);
          }
      }
    }
  }

  /** What an expansion is, seen from pasting: the first copies, after which the file is done from `i` on. */
  ghost predicate IsPaste(disk: Disk, file: Key, i: nat, visited: set<Key>, open: set<Key>, seen: set<Piece>) {
    var r := Expand(disk, file, i, visited);
    var after := seen + PieceSet(r.merged);
    && FirstCopies(Paste(disk, file, i, open), seen) == r.merged
    && Finished(disk, r.visited, open, after) && StatementsIn(disk, file, i, after)
    && forall p | p in r.merged :: (p.file == file && p.index >= i) || (p.file in r.visited && p.file !in visited)
  }

  lemma {:induction false} ExpandIsPaste(disk: Disk, file: Key, i: nat, visited: set<Key>, open: set<Key>, seen: set<Piece>)
    requires file in open && open <= visited && Finished(disk, visited, open, seen) && Ahead(file, i, visited, seen)
    ensures IsPaste(disk, file, i, visited, open, seen)
    decreases |Unvisited(disk, visited)|, |Items(disk, file)| - i, 1
  {
    hide IsPaste, Finished, StatementsIn, FirstCopies, Paste, Expand, Entered, Ahead;
    if i >= |Items(disk, file)| {
      PasteDone(disk, file, i, visited, open, seen);
    } else {
      match Items(disk, file)[i] {
        case Statement =>
          OneMoreSeen(disk, file, i, visited, open, seen);
          ExpandIsPaste(disk, file, i + 1, visited, open, seen + {Piece(file, i)});
          PasteStatement(disk, file, i, visited, open, seen);
        case IncludeOf(k) =>
          AheadStep(file, i, visited, seen);
          if k in visited {
            ExpandIsPaste(disk, file, i + 1, visited, open, seen);
            PasteSkipped(disk, file, i, k, visited, open, seen);
          } else if k in disk {
            PasteFile(disk, file, i, k, visited, open, seen);
          } else {
            NotGrown(disk, visited, visited + {k});
            OneMoreVisited(disk, file, i, k, visited, open, seen);
            ExpandIsPaste(disk, file, i + 1, visited + {k}, open, seen);
            PasteMissing(disk, file, i, k, visited, open, seen);
          }
      }
    }
  }

  lemma PasteDone(disk: Disk, file: Key, i: nat, visited: set<Key>, open: set<Key>, seen: set<Piece>)
    requires Finished(disk, visited, open, seen) && i >= |Items(disk, file)|
    ensures IsPaste(disk, file, i, visited, open, seen)
  {
    assert seen + PieceSet([]) == seen;
  }

  lemma OneMoreSeen(disk: Disk, file: Key, i: nat, visited: set<Key>, open: set<Key>, seen: set<Piece>)
    requires file in visited && Finished(disk, visited, open, seen) && Ahead(file, i, visited, seen)
    ensures Finished(disk, visited, open, seen + {Piece(file, i)}) && Ahead(file, i + 1, visited, seen + {Piece(file, i)})
  {
    hide Entered;
  }

  lemma AheadStep(file: Key, i: nat, visited: set<Key>, seen: set<Piece>)
    requires Ahead(file, i, visited, seen)
    ensures Ahead(file, i + 1, visited, seen)
  {
  }

  lemma OneMoreVisited(disk: Disk, file: Key, i: nat, k: Key, visited: set<Key>, open: set<Key>, seen: set<Piece>)
    requires Finished(disk, visited, open, seen) && Ahead(file, i, visited, seen) && k !in disk
    ensures Finished(disk, visited + {k}, open, seen) && Ahead(file, i + 1, visited + {k}, seen)
  {
  }

  /** An include that cannot be read adds nothing either way. */
  lemma PasteMissing(disk: Disk, file: Key, i: nat, k: Key, visited: set<Key>, open: set<Key>, seen: set<Piece>)
    requires i < |Items(disk, file)| && Items(disk, file)[i] == IncludeOf(k) && k !in visited && k !in disk
    requires IsPaste(disk, file, i + 1, visited + {k}, open, seen)
    ensures IsPaste(disk, file, i, visited, open, seen)
  {
    hide Finished, FirstCopies;
  }

  lemma PasteStatement(disk: Disk, file: Key, i: nat, visited: set<Key>, open: set<Key>, seen: set<Piece>)
    requires file in open && open <= visited && Ahead(file, i, visited, seen)
    requires i < |Items(disk, file)| && Items(disk, file)[i] == Statement
    requires IsPaste(disk, file, i + 1, visited, open, seen + {Piece(file, i)})
    ensures IsPaste(disk, file, i, visited, open, seen)
  {
    hide Finished;
    var p := Piece(file, i);
    var rest := Expand(disk, file, i + 1, visited).merged;
    assert ([p] + Paste(disk, file, i + 1, open))[1..] == Paste(disk, file, i + 1, open);
    assert seen + PieceSet([p] + rest) == seen + {p} + PieceSet(rest);
  }

  /** An include of a file visited before: if textual pasting follows it, it adds nothing. */
  lemma PasteSkipped(disk: Disk, file: Key, i: nat, k: Key, visited: set<Key>, open: set<Key>, seen: set<Piece>)
    requires file in open && open <= visited && Finished(disk, visited, open, seen)
    requires i < |Items(disk, file)| && Items(disk, file)[i] == IncludeOf(k) && k in visited
    requires IsPaste(disk, file, i + 1, visited, open, seen)
    ensures IsPaste(disk, file, i, visited, open, seen)
  {
    if k in disk && k !in open {
      var again := Paste(disk, k, 0, open + {k});
      PasteAgain(disk, k, 0, open, open + {k}, visited, seen);
      AllSeen(again, seen);
      FirstCopiesConcat(again, Paste(disk, file, i + 1, open), seen);
      assert seen + PieceSet([]) == seen;
    }
    hide Finished, FirstCopies;
  }

  /** An include that is followed: the child is pasted here, and later copies of it add nothing. */
  lemma {:induction false} PasteFile(disk: Disk, file: Key, i: nat, k: Key, visited: set<Key>, open: set<Key>, seen: set<Piece>)
    requires file in open && open <= visited && Finished(disk, visited, open, seen) && Ahead(file, i, visited, seen)
    requires i < |Items(disk, file)| && Items(disk, file)[i] == IncludeOf(k) && k in disk && k !in visited
    ensures IsPaste(disk, file, i, visited, open, seen)
    decreases |Unvisited(disk, visited)|, |Items(disk, file)| - i, 0
  {
    hide IsPaste, Finished, StatementsIn, FirstCopies, Paste, Expand, Entered, Ahead;
    Shrinks(disk, visited, visited + {k}, k);
    ChildStarts(disk, file, i, k, visited, open, seen);
    ExpandIsPaste(disk, k, 0, visited + {k}, open + {k}, seen);
    var child := Expand(disk, k, 0, visited + {k});
    Shrinks(disk, visited, child.visited, k);
    ChildEnds(disk, file, i, k, visited, open, seen);
    ExpandIsPaste(disk, file, i + 1, child.visited, open, seen + PieceSet(child.merged));
    PasteHere(disk, file, i, k, visited, open, seen);
  }

  lemma ChildStarts(disk: Disk, file: Key, i: nat, k: Key, visited: set<Key>, open: set<Key>, seen: set<Piece>)
    requires Finished(disk, visited, open, seen) && Ahead(file, i, visited, seen) && k !in visited
    ensures Finished(disk, visited + {k}, open + {k}, seen) && Ahead(k, 0, visited + {k}, seen)
  {
  }

  lemma ChildEnds(disk: Disk, file: Key, i: nat, k: Key, visited: set<Key>, open: set<Key>, seen: set<Piece>)
    requires file in visited && open <= visited && Ahead(file, i, visited, seen) && k !in visited
    requires IsPaste(disk, k, 0, visited + {k}, open + {k}, seen)
    ensures var child := Expand(disk, k, 0, visited + {k});
      Finished(disk, child.visited, open, seen + PieceSet(child.merged)) && Ahead(file, i + 1, child.visited, seen + PieceSet(child.merged))
  {
    Explores(disk, k, 0, visited + {k});
    hide FirstCopies, Paste, Expand, StatementsIn, Entered;
  }

  lemma PasteHere(disk: Disk, file: Key, i: nat, k: Key, visited: set<Key>, open: set<Key>, seen: set<Piece>)
    requires i < |Items(disk, file)| && Items(disk, file)[i] == IncludeOf(k) && k in disk && k !in visited && k !in open && file in visited
    requires IsPaste(disk, k, 0, visited + {k}, open + {k}, seen)
    requires var child := Expand(disk, k, 0, visited + {k}); IsPaste(disk, file, i + 1, child.visited, open, seen + PieceSet(child.merged))
    ensures IsPaste(disk, file, i, visited, open, seen)
  {
    hide Finished, FirstCopies;
    var child := Expand(disk, k, 0, visited + {k});
    var after := seen + PieceSet(child.merged);
    var rest := Expand(disk, file, i + 1, child.visited);
    FirstCopiesConcat(Paste(disk, k, 0, open + {k}), Paste(disk, file, i + 1, open), seen);
    assert seen + PieceSet(child.merged + rest.merged) == after + PieceSet(rest.merged);
  }

  /** The merged program is the pasted text with only the first copy of each statement: a file stands where it is
      first included. */
  lemma MergedIsFirstPaste(disk: Disk, main: Key)
    ensures Resolve(disk, main).merged == FirstCopies(Paste(disk, main, 0, {main}), {})
  {
    ExpandIsPaste(disk, main, 0, {main}, {main}, {});
  }

  // ── In which order files are read ──────────────────────────────────────

  /** Every file with one more statement in front. */
  function Marked(disk: Disk): Disk {
    map k | k in disk :: [Statement] + disk[k]
  }

  /** The files whose first item stands in the program, in program order. */
  function Heads(merged: seq<Piece>): seq<Key> {
    if merged == [] then []
    else (if merged[0].index == 0 then [merged[0].file] else []) + Heads(merged[1..])
  }

  lemma {:induction false} HeadsConcat(a: seq<Piece>, b: seq<Piece>)
    ensures Heads(a + b) == Heads(a) + Heads(b)
  {
    if a == [] {
      assert a + b == b;
    } else {
      HeadsConcat(a[1..], b);
      assert (a + b)[1..] == a[1..] + b;
      var x := if a[0].index == 0 then [a[0].file] else [];
      assert x + (Heads(a[1..]) + Heads(b)) == (x + Heads(a[1..])) + Heads(b);
    }
  }

  lemma HeadIs(file: Key, i: nat)
    ensures Heads([Piece(file, i)]) == if i == 0 then [file] else []
  {
    assert [Piece(file, i)][1..] == [];
  }

  lemma MarkedItems(disk: Disk, file: Key)
    requires file in disk
    ensures |Items(Marked(disk), file)| == |Items(disk, file)| + 1 && Items(Marked(disk), file)[0] == Statement
    ensures forall i | 0 <= i < |Items(disk, file)| :: Items(Marked(disk), file)[i + 1] == Items(disk, file)[i]
    ensures Marked(disk).Keys == disk.Keys
  {
  }

  /** The marks of the one expansion are what the other reads. */
  ghost predicate SameReads(r: Expansion, m: Expansion) {
    m.visited == r.visited && m.read == r.read && Heads(m.merged) == r.read
  }

  lemma {:induction false} MarkedReads(disk: Disk, file: Key, i: nat, visited: set<Key>)
    requires file in disk
    ensures SameReads(Expand(disk, file, i, visited), Expand(Marked(disk), file, i + 1, visited))
    decreases |Unvisited(disk, visited)|, |Items(disk, file)| - i
  {
    hide Marked, Items, Heads, Expand, SameReads;
    if i < |Items(disk, file)| {
      match Items(disk, file)[i] {
        case Statement =>
          MarkedReads(disk, file, i + 1, visited);
          MarkedStatement(disk, file, i, visited);
        case IncludeOf(k) =>
          if k in visited {
            assert visited + {k} == visited;
            MarkedReads(disk, file, i + 1, visited);
            MarkedSkip(disk, file, i, visited, k);
          } else if k in disk {
            Shrinks(disk, visited, visited + {k}, k);
            MarkedReads(disk, k, 0, visited + {k});
            var child := Expand(disk, k, 0, visited + {k});
            Shrinks(disk, visited, child.visited, k);
            MarkedReads(disk, file, i + 1, child.visited);
            MarkedChild(disk, file, i, visited, k);
          } else {
            NotGrown(disk, visited, visited + {k});
            MarkedReads(disk, file, i + 1, visited + {k});
            MarkedSkip(disk, file, i, visited, k);
          }
      }
    } else {
      MarkedEnd(disk, file, i, visited);
    }
  }

  lemma MarkedEnd(disk: Disk, file: Key, i: nat, visited: set<Key>)
    requires file in disk && i >= |Items(disk, file)|
    ensures SameReads(Expand(disk, file, i, visited), Expand(Marked(disk), file, i + 1, visited))
  {
    MarkedItems(disk, file);
    hide Marked, Items;
  }

  lemma MarkedSkip(disk: Disk, file: Key, i: nat, visited: set<Key>, k: Key)
    requires file in disk && i < |Items(disk, file)| && Items(disk, file)[i] == IncludeOf(k) && (k in visited || k !in disk)
    requires SameReads(Expand(disk, file, i + 1, visited + {k}), Expand(Marked(disk), file, i + 2, visited + {k}))
    ensures SameReads(Expand(disk, file, i, visited), Expand(Marked(disk), file, i + 1, visited))
  {
    MarkedItems(disk, file);
    assert k in visited ==> visited + {k} == visited;
    hide Marked, Items, Heads;
  }

  lemma MarkedStatement(disk: Disk, file: Key, i: nat, visited: set<Key>)
    requires file in disk && i < |Items(disk, file)| && Items(disk, file)[i] == Statement
    requires SameReads(Expand(disk, file, i + 1, visited), Expand(Marked(disk), file, i + 2, visited))
    ensures SameReads(Expand(disk, file, i, visited), Expand(Marked(disk), file, i + 1, visited))
  {
    MarkedItems(disk, file);
    hide Marked, Items, Heads;
    HeadIs(file, i + 1);
    HeadsConcat([Piece(file, i + 1)], Expand(Marked(disk), file, i + 2, visited).merged);
  }

  lemma MarkedChild(disk: Disk, file: Key, i: nat, visited: set<Key>, k: Key)
    requires file in disk && i < |Items(disk, file)| && Items(disk, file)[i] == IncludeOf(k) && k in disk && k !in visited
    requires SameReads(Expand(disk, k, 0, visited + {k}), Expand(Marked(disk), k, 1, visited + {k}))
    requires var before := Expand(disk, k, 0, visited + {k}).visited;
      SameReads(Expand(disk, file, i + 1, before), Expand(Marked(disk), file, i + 2, before))
    ensures SameReads(Expand(disk, file, i, visited), Expand(Marked(disk), file, i + 1, visited))
  {
    MarkedItems(disk, file);
    MarkedItems(disk, k);
    hide Heads, Marked, Items;
    var md := Marked(disk);
    var child, inner := Expand(disk, k, 0, visited + {k}), Expand(md, k, 1, visited + {k});
    var first := Expand(md, k, 0, visited + {k});
    assert first == inner.(merged := [Piece(k, 0)] + inner.merged);
    var rest := Expand(md, file, i + 2, child.visited);
    assert Expand(md, file, i + 1, visited).merged == first.merged + rest.merged;
    HeadIs(k, 0);
    HeadsConcat([Piece(k, 0)], inner.merged);
    HeadsConcat(first.merged, rest.merged);
  }

  /** Files are read in the order in which pasting first comes to them: a file before what it includes, and one
      include after the other. */
  lemma ReadInPasteOrder(disk: Disk, main: Key)
    requires main in disk
    ensures Resolve(disk, main).read == Heads(FirstCopies(Paste(Marked(disk), main, 0, {main}), {}))
  {
    hide Heads, Paste, FirstCopies, Marked, Items;
    var md := Marked(disk);
    MarkedItems(disk, main);
    MarkedReads(disk, main, 0, {main});
    MergedIsFirstPaste(md, main);
    var rest := Expand(md, main, 1, {main}).merged;
    assert Resolve(md, main).merged == [Piece(main, 0)] + rest;
    HeadIs(main, 0);
    HeadsConcat([Piece(main, 0)], rest);
  }

  /** The unreadable files as empty ones. */
  function Readable(disk: Disk, missing: set<Key>): Disk {
    map k | k in disk.Keys + missing :: if k in disk then disk[k] else []
  }

  function Among(ks: seq<Key>, keep: set<Key>): seq<Key> {
    if ks == [] then [] else (if ks[0] in keep then [ks[0]] else []) + Among(ks[1..], keep)
  }

  lemma {:induction false} AmongConcat(a: seq<Key>, b: seq<Key>, keep: set<Key>)
    ensures Among(a + b, keep) == Among(a, keep) + Among(b, keep)
  {
    if a == [] {
      assert a + b == b;
    } else {
      AmongConcat(a[1..], b, keep);
      assert (a + b)[1..] == a[1..] + b;
      var x := if a[0] in keep then [a[0]] else [];
      assert x + (Among(a[1..], keep) + Among(b, keep)) == (x + Among(a[1..], keep)) + Among(b, keep);
    }
  }

  lemma AmongOne(k: Key, keep: set<Key>)
    ensures Among([k], keep) == if k in keep then [k] else []
  {
    assert [k][1..] == [];
  }

  /** The failures are the files of `missing` that the other expansion reads. */
  ghost predicate Misses(r: Expansion, m: Expansion, missing: set<Key>) {
    m.visited == r.visited && Among(m.read, missing) == Targets(r.failures)
  }

  lemma {:induction false} MissedReads(disk: Disk, missing: set<Key>, file: Key, i: nat, visited: set<Key>)
    requires missing !! disk.Keys && file in disk
    requires forall f, t | f in disk && IncludeOf(t) in disk[f] :: t in disk || t in missing
    ensures Misses(Expand(disk, file, i, visited), Expand(Readable(disk, missing), file, i, visited), missing)
    decreases |Unvisited(disk, visited)|, |Items(disk, file)| - i
  {
    ReadableItems(disk, missing, file);
    hide Readable;
    if i < |Items(disk, file)| {
      match Items(disk, file)[i] {
        case Statement => MissedReads(disk, missing, file, i + 1, visited);
        case IncludeOf(k) =>
          assert IncludeOf(k) in disk[file];
          if k in visited {
            MissedReads(disk, missing, file, i + 1, visited);
          } else if k in disk {
            Shrinks(disk, visited, visited + {k}, k);
            MissedReads(disk, missing, k, 0, visited + {k});
            var child := Expand(disk, k, 0, visited + {k});
            Shrinks(disk, visited, child.visited, k);
            MissedReads(disk, missing, file, i + 1, child.visited);
            hide Misses;
            MissedChild(disk, missing, file, i, visited, k);
          } else {
            NotGrown(disk, visited, visited + {k});
            MissedReads(disk, missing, file, i + 1, visited + {k});
            hide Misses;
            MissedOne(disk, missing, file, i, visited, k);
          }
      }
    }
  }

  lemma ReadableItems(disk: Disk, missing: set<Key>, file: Key)
    requires missing !! disk.Keys
    ensures Items(Readable(disk, missing), file) == Items(disk, file)
    ensures Readable(disk, missing).Keys == disk.Keys + missing
  {
  }

  lemma MissedChild(disk: Disk, missing: set<Key>, file: Key, i: nat, visited: set<Key>, k: Key)
    requires missing !! disk.Keys && file in disk && i < |Items(disk, file)| && Items(disk, file)[i] == IncludeOf(k)
    requires k in disk && k !in visited
    requires Misses(Expand(disk, k, 0, visited + {k}), Expand(Readable(disk, missing), k, 0, visited + {k}), missing)
    requires var before := Expand(disk, k, 0, visited + {k}).visited;
      Misses(Expand(disk, file, i + 1, before), Expand(Readable(disk, missing), file, i + 1, before), missing)
    ensures Misses(Expand(disk, file, i, visited), Expand(Readable(disk, missing), file, i, visited), missing)
  {
    ReadableItems(disk, missing, file);
    hide Readable, Among, Targets, Items;
    var rd := Readable(disk, missing);
    var child, inner := Expand(disk, k, 0, visited + {k}), Expand(rd, k, 0, visited + {k});
    var rest, last := Expand(disk, file, i + 1, child.visited), Expand(rd, file, i + 1, child.visited);
    assert Expand(rd, file, i, visited).read == [k] + inner.read + last.read && Expand(rd, file, i, visited).visited == last.visited;
    assert Expand(disk, file, i, visited).failures == child.failures + rest.failures && Expand(disk, file, i, visited).visited == rest.visited;
    hide Expand;
    AmongOne(k, missing);
    AmongConcat([k] + inner.read, last.read, missing);
    AmongConcat([k], inner.read, missing);
    assert [] + Among(inner.read, missing) == Among(inner.read, missing);
    TargetsConcat(child.failures, rest.failures);
  }

  lemma MissedOne(disk: Disk, missing: set<Key>, file: Key, i: nat, visited: set<Key>, k: Key)
    requires missing !! disk.Keys && file in disk && i < |Items(disk, file)| && Items(disk, file)[i] == IncludeOf(k)
    requires k !in disk && k in missing && k !in visited
    requires Misses(Expand(disk, file, i + 1, visited + {k}), Expand(Readable(disk, missing), file, i + 1, visited + {k}), missing)
    ensures Misses(Expand(disk, file, i, visited), Expand(Readable(disk, missing), file, i, visited), missing)
  {
    var rd := Readable(disk, missing);
    assert Items(rd, k) == [];
    assert Expand(rd, k, 0, visited + {k}) == Expansion([], visited + {k}, [], []);
    var rest := Expand(rd, file, i + 1, visited + {k}).read;
    assert [k] + [] + rest == [k] + rest;
    AmongOne(k, missing);
    AmongConcat([k], rest, missing);
    var failures := Expand(disk, file, i + 1, visited + {k}).failures;
    assert [Failure(file, i, k)][1..] == [];
    TargetsConcat([Failure(file, i, k)], failures);
  }

  /** Failures are reported in the order in which the files would have been read. */
  lemma FailuresInReadOrder(disk: Disk, main: Key, missing: set<Key>)
    requires main in disk && missing !! disk.Keys
    requires forall f, t | f in disk && IncludeOf(t) in disk[f] :: t in disk || t in missing
    ensures Targets(Resolve(disk, main).failures) == Among(Resolve(Readable(disk, missing), main).read, missing)
  {
    MissedReads(disk, missing, main, 0, {main});
    AmongOne(main, missing);
    AmongConcat([main], Expand(Readable(disk, missing), main, 0, {main}).read, missing);
    hide Expand, Among;
  }

  // ── The mutating walk ──────────────────────────────────────────────────

  class Resolver {
    const disk: Disk
    var visited: set<Key>
    var sources: seq<Key>
    var failures: seq<Failure>

    constructor (disk: Disk)
      ensures this.disk == disk && visited == {} && sources == [] && failures == []
    {
      this.disk := disk;
      visited, sources, failures := {}, [], [];
    }

    method ResolveMain(main: Key) returns (program: seq<Piece>)
      requires main in disk && visited == {} && sources == [] && failures == []
      modifies this
      ensures Expansion(program, visited, sources, failures) == Resolve(disk, main)
    {
      visited := visited + {main};
      sources := [main];
      assert visited == {main};
      program := ExpandFile(main);
      assert [] + Expand(disk, main, 0, {main}).failures == Expand(disk, main, 0, {main}).failures;
    }

    method ExpandFile(file: Key) returns (merged: seq<Piece>)
      requires file in disk
      modifies this
      ensures var r := Expand(disk, file, 0, old(visited));
        && merged == r.merged && visited == r.visited
        && sources == old(sources) + r.read && failures == old(failures) + r.failures
      decreases |Unvisited(disk, visited)|
    {
      merged := [];
      ghost var whole := Expand(disk, file, 0, visited);
      var items := disk[file];
      for i := 0 to |items|
        invariant old(visited) <= visited
        invariant Expands(disk, file, i, Expansion(merged, visited, sources, failures), old(sources), old(failures), whole)
      {
        ExpandStep(disk, file, i, Expansion(merged, visited, sources, failures), old(sources), old(failures), whole);
        hide Expands;
        if items[i].Statement? {
          merged := merged + [Piece(file, i)];
          continue;
        }
        var k := items[i].target;
        if k in visited { continue; }
        NotGrown(disk, old(visited), visited);
        visited := visited + {k};
        if k in disk {
          Shrinks(disk, old(visited), visited, k);
          sources := sources + [k];
          var child := ExpandFile(k);
          merged := merged + child;
        } else {
          failures := failures + [Failure(file, i, k)];
        }
      }
    }
  }

  /** What the loop has collected and what is still to come make up the whole. */
  ghost predicate Expands(disk: Disk, file: Key, i: nat, sofar: Expansion, sources: seq<Key>, failures: seq<Failure>, whole: Expansion) {
    var rest := Expand(disk, file, i, sofar.visited);
    && sofar.merged + rest.merged == whole.merged && rest.visited == whole.visited
    && sofar.read + rest.read == sources + whole.read && sofar.failures + rest.failures == failures + whole.failures
  }

  /** Collecting one item. */
  function Collect(disk: Disk, file: Key, i: nat, e: Expansion): Expansion
    requires i < |Items(disk, file)|
  {
    match Items(disk, file)[i]
    case Statement => e.(merged := e.merged + [Piece(file, i)])
    case IncludeOf(k) =>
      if k in e.visited then e
      else if k in disk then
        var child := Expand(disk, k, 0, e.visited + {k});
        Expansion(e.merged + child.merged, child.visited, e.read + [k] + child.read, e.failures + child.failures)
      else e.(visited := e.visited + {k}, failures := e.failures + [Failure(file, i, k)])
  }

  lemma ExpandStep(disk: Disk, file: Key, i: nat, e: Expansion, sources: seq<Key>, failures: seq<Failure>, whole: Expansion)
    requires i < |Items(disk, file)| && Expands(disk, file, i, e, sources, failures, whole)
    ensures Expands(disk, file, i + 1, Collect(disk, file, i, e), sources, failures, whole)
  {
    match Items(disk, file)[i] {
      case Statement =>
        assert e.merged + ([Piece(file, i)] + Expand(disk, file, i + 1, e.visited).merged) == (e.merged + [Piece(file, i)]) + Expand(disk, file, i + 1, e.visited).merged;
      case IncludeOf(k) =>
        if k !in e.visited {
          if k in disk {
            var child := Expand(disk, k, 0, e.visited + {k});
            var rest := Expand(disk, file, i + 1, child.visited);
            assert e.merged + (child.merged + rest.merged) == (e.merged + child.merged) + rest.merged;
            assert e.read + ([k] + child.read + rest.read) == (e.read + [k] + child.read) + rest.read;
            assert e.failures + (child.failures + rest.failures) == (e.failures + child.failures) + rest.failures;
          } else {
            var rest := Expand(disk, file, i + 1, e.visited + {k});
            assert e.failures + ([Failure(file, i, k)] + rest.failures) == (e.failures + [Failure(file, i, k)]) + rest.failures;
          }
        }
    }
  }
}
