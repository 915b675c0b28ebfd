/** What a generation-tagged id stands for when generations wrap (`Slab` in heap.rs). */
module SlabGenerations {
  import opened Common
  import opened InterpHeap

  // ── Generations count frees ────────────────────────────────────────────

  /** An id by its slot and the number of times the slot had been freed when the id was handed out. */
  datatype Birth = Birth(slot: nat, frees: nat)

  function ToId(b: Birth): Id {
    Id(b.slot, b.frees % GENERATIONS)
  }

  /** `frees[j]` counts the frees of slot j; its generation is that number modulo 2^32. */
  predicate Counted(s: SlabValue, frees: seq<nat>) {
    && s.Wf() && |frees| == |s.generations|
    && forall j | 0 <= j < |frees| :: s.generations[j] == frees[j] % GENERATIONS
  }

  /** The counts once slot `j` is in use: a new slot has never been freed. */
  function Opened(frees: seq<nat>, j: nat): (r: seq<nat>)
    requires j <= |frees|
    ensures frees <= r && j < |r|
  {
    if j < |frees| then frees else frees + [0]
  }

  function FreedOnce(frees: seq<nat>, j: nat): seq<nat>
    requires j < |frees|
  {
    frees[j := frees[j] + 1]
  }

  lemma CountedAlloc(s: SlabValue, frees: seq<nat>, obj: Obj)
    requires Counted(s, frees)
    ensures var (s', id) := s.Alloc(obj);
      && id.index <= |frees| && Counted(s', Opened(frees, id.index))
      && id == ToId(Birth(id.index, Opened(frees, id.index)[id.index]))
  {
    if |s.freeList| > 0 {
      assert s.freeList[|s.freeList| - 1] < |s.entries|;
    }
  }

  lemma CountedFree(s: SlabValue, frees: seq<nat>, id: Id)
    requires Counted(s, frees) && s.Get(id).Some?
    ensures Counted(s.Free(id), FreedOnce(frees, id.index))
  {
    Successor(frees[id.index]);
  }

  lemma Successor(n: nat)
    ensures (n % GENERATIONS + 1) % GENERATIONS == (n + 1) % GENERATIONS
  {
  }

  lemma Congruent(m: nat, n: nat)
    ensures m % GENERATIONS == n % GENERATIONS <==> (m - n) % GENERATIONS == 0
  {
    var a, b := m / GENERATIONS, n / GENERATIONS;
    assert m - n == (a - b) * GENERATIONS + (m % GENERATIONS - n % GENERATIONS);
  }

  // ── All runs of a slab ─────────────────────────────────────────────────

  /** `Free` is issued for an id that resolves; on any other id the callers stop before it. */
  datatype SlabCmd = Alloc(obj: Obj) | Free(id: Id)

  predicate Frees(s: SlabValue, c: SlabCmd, j: nat)
    requires s.Wf()
  {
    c.Free? && s.Get(c.id).Some? && c.id.index == j
  }

  function SlabStep(s: SlabValue, c: SlabCmd): (r: SlabValue)
    requires s.Wf()
    ensures r.Wf() && |s.generations| <= |r.generations|
  {
    match c
    case Alloc(obj) => s.Alloc(obj).0
    case Free(id) => if s.Get(id).Some? then s.Free(id) else s
  }

  function SlabRun(cs: seq<SlabCmd>): (s: SlabValue)
    ensures s.Wf()
  {
    if cs == [] then SlabValue([], [], []) else SlabStep(SlabRun(cs[..|cs| - 1]), cs[|cs| - 1])
  }

  /** How often slot `j` has been freed. */
  function FreeCount(cs: seq<SlabCmd>, j: nat): nat {
    if cs == [] then 0
    else
      var front := cs[..|cs| - 1];
      FreeCount(front, j) + if Frees(SlabRun(front), cs[|cs| - 1], j) then 1 else 0
  }

  function FreeCounts(cs: seq<SlabCmd>): (r: seq<nat>)
    ensures |r| == |SlabRun(cs).generations|
  {
    seq(|SlabRun(cs).generations|, j requires 0 <= j < |SlabRun(cs).generations| => FreeCount(cs, j))
  }

  ghost predicate UnusedNotFreed(cs: seq<SlabCmd>) {
    forall j: nat | j >= |SlabRun(cs).generations| :: FreeCount(cs, j) == 0
  }

  lemma {:induction false} RunCounted(cs: seq<SlabCmd>)
    ensures Counted(SlabRun(cs), FreeCounts(cs)) && UnusedNotFreed(cs)
  {
    if cs != [] {
      RunCounted(cs[..|cs| - 1]);
      StepCounted(cs);
    }
  }

  lemma StepCounted(cs: seq<SlabCmd>)
    requires cs != [] && Counted(SlabRun(cs[..|cs| - 1]), FreeCounts(cs[..|cs| - 1]))
    requires UnusedNotFreed(cs[..|cs| - 1])
    ensures Counted(SlabRun(cs), FreeCounts(cs)) && UnusedNotFreed(cs)
  {
    hide SlabRun, FreeCount, FreeCounts, SlabStep, Counted, Frees;
    var front, c := cs[..|cs| - 1], cs[|cs| - 1];
    LastCommand(cs, 0);
    CountedStep(SlabRun(front), FreeCounts(front), c);
    CountsFollow(cs);
    forall j: nat | j >= |SlabRun(cs).generations| ensures FreeCount(cs, j) == 0 {
      LastCommand(cs, j);
    }
  }

  lemma CountsFollow(cs: seq<SlabCmd>)
    requires cs != [] && Counted(SlabRun(cs[..|cs| - 1]), FreeCounts(cs[..|cs| - 1]))
    requires UnusedNotFreed(cs[..|cs| - 1])
    ensures FreeCounts(cs) == CountsAfter(SlabRun(cs[..|cs| - 1]), FreeCounts(cs[..|cs| - 1]), cs[|cs| - 1])
  {
    hide SlabRun, FreeCount, SlabStep, Counted, Frees, CountsAfter;
    LastCommand(cs, 0);
    forall j: nat | j < |FreeCounts(cs)|
      ensures FreeCounts(cs)[j] == CountsAfter(SlabRun(cs[..|cs| - 1]), FreeCounts(cs[..|cs| - 1]), cs[|cs| - 1])[j]
    {
      LastCommand(cs, j);
    }
  }

  lemma LastCommand(cs: seq<SlabCmd>, j: nat)
    requires cs != []
    ensures var front, c := cs[..|cs| - 1], cs[|cs| - 1];
      && SlabRun(cs) == SlabStep(SlabRun(front), c)
      && FreeCount(cs, j) == FreeCount(front, j) + if Frees(SlabRun(front), c, j) then 1 else 0
  {
    hide SlabStep, Frees;
  }

  /** The counts after one more command. */
  function CountsAfter(s: SlabValue, counts: seq<nat>, c: SlabCmd): (r: seq<nat>)
    requires Counted(s, counts)
    ensures |r| == |SlabStep(s, c).generations|
    ensures forall j | 0 <= j < |r| :: r[j] == (if j < |counts| then counts[j] else 0) + if Frees(s, c, j) then 1 else 0
  {
    match c
    case Alloc(obj) =>
      CountedAlloc(s, counts, obj);
      Opened(counts, s.Alloc(obj).1.index)
    case Free(id) => if s.Get(id).Some? then FreedOnce(counts, id.index) else counts
  }

  lemma CountedStep(s: SlabValue, counts: seq<nat>, c: SlabCmd)
    requires Counted(s, counts)
    ensures Counted(SlabStep(s, c), CountsAfter(s, counts, c))
    ensures forall j: nat :: Frees(s, c, j) ==> j < |s.generations|
  {
    match c {
      case Alloc(obj) => CountedAlloc(s, counts, obj);
      case Free(id) => if s.Get(id).Some? { CountedFree(s, counts, id); }
    }
  }

  lemma {:induction false} RunGrows(cs: seq<SlabCmd>, k: nat)
    requires k <= |cs|
    ensures |SlabRun(cs[..k]).generations| <= |SlabRun(cs).generations|
    decreases |cs|
  {
    if k < |cs| {
      assert cs[..|cs| - 1][..k] == cs[..k];
      RunGrows(cs[..|cs| - 1], k);
    } else {
      assert cs[..k] == cs;
    }
  }

  /** In a counted slab, an id resolves exactly when its slot is in use and has been freed a multiple of
      2^32 times since the id was handed out. */
  lemma BirthResolves(s: SlabValue, frees: seq<nat>, b: Birth)
    requires Counted(s, frees) && b.slot < |s.entries|
    ensures s.Get(ToId(b)).Some? <==> s.entries[b.slot].Some? && (frees[b.slot] - b.frees) % GENERATIONS == 0
  {
    Congruent(frees[b.slot], b.frees);
  }

  lemma HandedOut(cs: seq<SlabCmd>, k: nat)
    requires k < |cs| && cs[k].Alloc?
    ensures var id := SlabRun(cs[..k]).Alloc(cs[k].obj).1;
      id == ToId(Birth(id.index, FreeCount(cs[..k], id.index))) && id.index < |SlabRun(cs[..k + 1]).entries|
  {
    var front := cs[..k];
    RunCounted(front);
    CountedAlloc(SlabRun(front), FreeCounts(front), cs[k].obj);
    assert cs[..k + 1][..k] == front;
    assert SlabRun(cs[..k + 1]) == SlabRun(front).Alloc(cs[k].obj).0;
    hide SlabRun, FreeCount;
  }

  /** The same of every run, for the id handed out by command `k`. */
  lemma IdResolves(cs: seq<SlabCmd>, k: nat)
    requires k < |cs| && cs[k].Alloc?
    ensures var id := SlabRun(cs[..k]).Alloc(cs[k].obj).1;
      && id.index < |SlabRun(cs).entries|
      && (SlabRun(cs).Get(id).Some? <==>
          && SlabRun(cs).entries[id.index].Some?
          && (FreeCount(cs, id.index) - FreeCount(cs[..k], id.index)) % 0x1_0000_0000 == 0)
  {
    hide SlabRun, FreeCount, SlabValue.Get, SlabValue.Alloc, UnusedNotFreed;
    HandedOut(cs, k);
    RunGrows(cs, k + 1);
    RunCounted(cs);
    var id := SlabRun(cs[..k]).Alloc(cs[k].obj).1;
    BirthResolves(SlabRun(cs), FreeCounts(cs), Birth(id.index, FreeCount(cs[..k], id.index)));
  }
}
