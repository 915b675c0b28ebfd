/** A program on which generations wrap: one slot of the interpreter's slab, freed and filled again and again
    while a copied variable keeps the id of its first occupant. */
module SlotReuse {
  import opened Common
  import opened Outcomes
  import opened TypeSpec
  import opened SlabGenerations
  import opened TypeSimulation
  import I = InterpHeap

  /** `x = New`, `y = x`, then `rounds` times: delete x's instance, `x = New`. */
  function Reuse(rounds: nat): (cs: seq<Cmd>)
    ensures CmdsOk(cs, 2, 1)
  {
    if rounds == 0 then [New(0, 0), Copy(1, 0)] else Reuse(rounds - 1) + [DeleteValue(0)] + [New(0, 0)]
  }

  // ── The states of the run ──────────────────────────────────────────────

  /** One sentinel and one instance, whose slot has the given generation. */
  function OneInstance(generation: nat): (h: I.HeapValue)
    ensures h.Wf() && |h.lists| == 1
  {
    I.HeapValue(I.SlabValue([Some(I.Obj(0, None, Some(I.Id(1, generation)), true)), Some(I.Obj(0, Some(I.Id(0, 0)), None, false))],
                            [0, generation], []),
                [I.ListValue(I.Id(0, 0), Some(I.Id(1, generation)))])
  }

  /** The instance deleted, its slot free and of the given generation. */
  function NoInstance(generation: nat): (h: I.HeapValue)
    ensures h.Wf() && |h.lists| == 1
  {
    I.HeapValue(I.SlabValue([Some(I.Obj(0, None, None, true)), None], [0, generation], [1]), [I.ListValue(I.Id(0, 0), None)])
  }

  function Holding(generation: nat): I.Slot {
    I.Slot(I.TypeInstance(I.Id(1, generation)), false)
  }

  function AfterRounds(n: nat): IState {
    IState(OneInstance(n % I.GENERATIONS), [Holding(n % I.GENERATIONS), Holding(0)])
  }

  function Zeros(n: nat): (r: seq<nat>)
    ensures |r| == n && forall i | 0 <= i < n :: r[i] == 0
  {
    seq(n, _ => 0)
  }

  function SpecAfterRounds(n: nat): SpecState {
    SpecState(Lists([[Head(0), Inst(n)]], Zeros(n + 1)), [Ref(Inst(n)), Ref(Inst(0))])
  }

  // ── One round ──────────────────────────────────────────────────────────

  lemma DeleteTheInstance(gen: nat)
    requires gen < I.GENERATIONS
    ensures I.ExecDelete(OneInstance(gen), I.TypeInstance(I.Id(1, gen))) == Done((NoInstance((gen + 1) % I.GENERATIONS), I.Id(0, 0)))
  {
    var h, id, next := OneInstance(gen), I.Id(1, gen), (gen + 1) % I.GENERATIONS;
    var u := I.UnlinkFrom(h.slab, h.lists[0], id).value;
    assert u.0.entries == [Some(I.Obj(0, None, None, true)), Some(I.Obj(0, None, None, false))];
    assert u.0.Free(id) == NoInstance(next).slab;
    assert h.lists[0 := u.1] == NoInstance(next).lists;
  }

  lemma RefillTheSlot(gen: nat)
    ensures I.ExecNew(NoInstance(gen), 0) == Some((OneInstance(gen), I.Id(1, gen)))
  {
    var d := NoInstance(gen);
    var (s, id) := d.slab.Alloc(I.Obj(0, None, None, false));
    assert s == I.SlabValue([Some(I.Obj(0, None, None, true)), Some(I.Obj(0, None, None, false))], [0, gen], []);
    var r := I.ExecNew(d, 0);
    assert r.Some? && r.value.0.slab.entries == OneInstance(gen).slab.entries && r.value.0.lists == OneInstance(gen).lists;
  }

  lemma IRound(n: nat)
    ensures var s, d := AfterRounds(n), IState(NoInstance((n + 1) % I.GENERATIONS), AfterRounds(n).slots);
      IStep(s, DeleteValue(0)) == Done(d) && IStep(d, New(0, 0)) == Done(AfterRounds(n + 1))
  {
    hide IStep, OneInstance, NoInstance, Holding;
    Successor(n);
    var gen := n % I.GENERATIONS;
    IRoundAt(gen, (gen + 1) % I.GENERATIONS, [Holding(gen), Holding(0)]);
  }

  lemma IRoundAt(gen: nat, next: nat, slots: seq<I.Slot>)
    requires gen < I.GENERATIONS && next == (gen + 1) % I.GENERATIONS && slots == [Holding(gen), Holding(0)]
    ensures var s, d := IState(OneInstance(gen), slots), IState(NoInstance(next), slots);
      IStep(s, DeleteValue(0)) == Done(d) && IStep(d, New(0, 0)) == Done(IState(OneInstance(next), [Holding(next), Holding(0)]))
  {
    hide I.ExecNew, I.ExecDelete;
    DeleteTheInstance(gen);
    RefillTheSlot(next);
    assert slots[0 := Holding(next)] == [Holding(next), Holding(0)];
  }

  lemma SpecRound(n: nat)
    ensures var s, d := SpecAfterRounds(n), SpecState(Lists([[Head(0)]], Zeros(n + 1)), SpecAfterRounds(n).vars);
      SpecStep(s, DeleteValue(0)) == Done(d) && SpecStep(d, New(0, 0)) == Done(SpecAfterRounds(n + 1))
  {
    var s, d := SpecAfterRounds(n), SpecState(Lists([[Head(0)]], Zeros(n + 1)), SpecAfterRounds(n).vars);
    var c := [Head(0), Inst(n)];
    assert c[1..][0] == Inst(n) && Pos(c, Inst(n)) == 1;
    assert s.lists.chains[0] == c && c[1] == Inst(n) && s.lists.Live(Inst(n));
    assert RemoveAt(c, 1) == [Head(0)];
    assert s.lists.chains[0 := [Head(0)]] == d.lists.chains;
    assert d.lists.chains[0] + [Inst(n + 1)] == [Head(0), Inst(n + 1)];
    assert SpecNew(d.lists, 0).chains == SpecAfterRounds(n + 1).lists.chains;
    assert SpecNew(d.lists, 0).typeOf == Zeros(n + 2);
    assert d.vars[0 := Ref(Inst(n + 1))] == SpecAfterRounds(n + 1).vars;
  }

  // ── The run ────────────────────────────────────────────────────────────

  ghost predicate Reached(cs: seq<Cmd>, r: IState, z: SpecState) {
    CmdsOk(cs, 2, 1) && IRun(IStart(1, 2), cs) == Done(r) && SpecRun(SpecStart(1, 2), cs) == Done(z)
  }

  lemma OneMore(cs: seq<Cmd>, r: IState, z: SpecState, c: Cmd)
    requires Reached(cs, r, z) && CmdsOk(cs + [c], 2, 1)
    ensures r.heap.Wf() && CmdOk(c, |r.slots|, |r.heap.lists|) && CmdOk(c, |z.vars|, |z.lists.chains|)
    ensures IRun(IStart(1, 2), cs + [c]) == IStep(r, c) && SpecRun(SpecStart(1, 2), cs + [c]) == SpecStep(z, c)
  {
    assert (cs + [c])[..|cs|] == cs;
    LastStep(IStart(1, 2), SpecStart(1, 2), cs + [c]);
    hide IRun, SpecRun, IStep, SpecStep, IStart, SpecStart;
  }

  lemma ReuseStarts()
    ensures Reached(Reuse(0), AfterRounds(0), SpecAfterRounds(0))
  {
    hide IRun, SpecRun, IStep, SpecStep;
    var s1 := IState(I_ONE, [Holding(0), I.Slot(I.Null, false)]);
    var z1 := SpecState(Lists([[Head(0), Inst(0)]], Zeros(1)), [Ref(Inst(0)), Null]);
    NothingRun();
    FirstInstance(s1, z1);
    FirstCopy(s1, z1);
    OneMore([], IStart(1, 2), SpecStart(1, 2), New(0, 0));
    OneMore([] + [New(0, 0)], s1, z1, Copy(1, 0));
    assert Reuse(0) == [] + [New(0, 0)] + [Copy(1, 0)];
  }

  lemma FirstInstance(s1: IState, z1: SpecState)
    requires s1 == IState(I_ONE, [Holding(0), I.Slot(I.Null, false)])
    requires z1 == SpecState(Lists([[Head(0), Inst(0)]], Zeros(1)), [Ref(Inst(0)), Null])
    ensures IStep(IStart(1, 2), New(0, 0)) == Done(s1) && SpecStep(SpecStart(1, 2), New(0, 0)) == Done(z1)
  {
    hide I.ExecNew;
    IFirstSteps();
    var s0, z0 := IStart(1, 2), SpecStart(1, 2);
    assert s0.slots[0 := Holding(0)] == s1.slots;
    assert z0.lists.chains[0] + [Inst(0)] == [Head(0), Inst(0)];
    assert SpecNew(z0.lists, 0).chains == z1.lists.chains && SpecNew(z0.lists, 0).typeOf == z1.lists.typeOf;
    assert z0.vars[0 := Ref(Inst(0))] == z1.vars;
  }

  lemma FirstCopy(s1: IState, z1: SpecState)
    requires s1 == IState(I_ONE, [Holding(0), I.Slot(I.Null, false)])
    requires z1 == SpecState(Lists([[Head(0), Inst(0)]], Zeros(1)), [Ref(Inst(0)), Null])
    ensures s1.heap.Wf() && IStep(s1, Copy(1, 0)) == Done(AfterRounds(0)) && SpecStep(z1, Copy(1, 0)) == Done(SpecAfterRounds(0))
  {
    assert s1.slots[1 := Holding(0)] == AfterRounds(0).slots;
    assert z1.vars[1 := Ref(Inst(0))] == SpecAfterRounds(0).vars;
  }

  lemma NothingRun()
    ensures Reached([], IStart(1, 2), SpecStart(1, 2))
  {
  }

  lemma {:induction false} ReuseReaches(n: nat)
    ensures Reached(Reuse(n), AfterRounds(n), SpecAfterRounds(n))
  {
    hide Reached, AfterRounds, SpecAfterRounds;
    if n == 0 {
      ReuseStarts();
    } else {
      ReuseReaches(n - 1);
      NextRound(Reuse(n - 1), n - 1);
    }
  }

  lemma NextRound(cs: seq<Cmd>, n: nat)
    requires Reached(cs, AfterRounds(n), SpecAfterRounds(n)) && CmdsOk(cs + [DeleteValue(0)] + [New(0, 0)], 2, 1)
    ensures Reached(cs + [DeleteValue(0)] + [New(0, 0)], AfterRounds(n + 1), SpecAfterRounds(n + 1))
  {
    IRound(n);
    SpecRound(n);
    var s := IState(NoInstance((n + 1) % I.GENERATIONS), AfterRounds(n).slots);
    var z := SpecState(Lists([[Head(0)]], Zeros(n + 1)), SpecAfterRounds(n).vars);
    assert forall c | c in cs + [DeleteValue(0)] :: c in cs + [DeleteValue(0)] + [New(0, 0)];
    hide IRun, SpecRun, IStep, SpecStep, AfterRounds, SpecAfterRounds, NoInstance, IStart, SpecStart, CmdOk;
    OneMore(cs, AfterRounds(n), SpecAfterRounds(n), DeleteValue(0));
    OneMore(cs + [DeleteValue(0)], s, z, New(0, 0));
  }

  /** The variable `y` after `n` rounds: the native runtime reports the deleted access, the interpreter does so
      unless `n` is a multiple of 2^32. */
  lemma ReuseDiffers(n: nat)
    requires n > 0
    ensures var cs := Reuse(n) + [Check(1)];
      && NRun(NStart(2), cs, 1) == Trapped(DeletedAccess)
      && IRun(IStart(1, 2), cs) == if n % 0x1_0000_0000 == 0 then Done(AfterRounds(n)) else Trapped(DeletedAccess)
  {
    hide IRel, NRel, NRun, IRun, SpecRun, Reuse, IStep, SpecStep, AfterRounds, SpecAfterRounds, Reached;
    var cs := Reuse(n) + [Check(1)];
    ReuseReaches(n);
    CheckFirstOccupant(n);
    OneMore(Reuse(n), AfterRounds(n), SpecAfterRounds(n), Check(1));
    var g, k := StartsRelated(1, 2);
    var _ := NRunFollows(NStart(2), k, SpecStart(1, 2), cs);
  }

  lemma CheckFirstOccupant(n: nat)
    requires n > 0
    ensures AfterRounds(n).heap.Wf() && |AfterRounds(n).slots| == |SpecAfterRounds(n).vars| == 2
    ensures IStep(AfterRounds(n), Check(1)) == if n % I.GENERATIONS == 0 then Done(AfterRounds(n)) else Trapped(DeletedAccess)
    ensures SpecStep(SpecAfterRounds(n), Check(1)) == Trapped(DeletedAccess)
  {
    var c := [Head(0), Inst(n)];
    assert Inst(0) !in c && SpecAfterRounds(n).lists.chains[0] == c;
    assert !SpecAfterRounds(n).lists.Live(Inst(0));
  }
}
