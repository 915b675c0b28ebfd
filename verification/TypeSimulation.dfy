/** The two type-instance runtimes, run on the same program. */
module TypeSimulation {
  import opened Common
  import opened Outcomes
  import opened TypeSpec
  import opened SlabGenerations
  import I = InterpHeap
  import N = NativeHeap
  import IR = InterpRefines
  import NR = NativeRefines

  // ── The interpreter's instructions on variable slots ───────────────────

  datatype IState = IState(heap: I.HeapValue, slots: seq<I.Slot>)

  function IAssign(s: IState, d: nat, r: Outcome<I.Value>): Outcome<IState>
    requires d < |s.slots|
  {
    match r
    case Done(v) => Done(s.(slots := s.slots[d := I.Slot(v, false)]))
    case Trapped(e) => Trapped(e)
    case Panicked => Panicked
  }

  function IStep(s: IState, c: Cmd): (r: Outcome<IState>)
    requires s.heap.Wf() && CmdOk(c, |s.slots|, |s.heap.lists|)
    ensures r.Done? ==> r.state.heap.Wf() && |r.state.slots| == |s.slots| && |r.state.heap.lists| == |s.heap.lists|
  {
    match c
    case New(d, t) =>
      var r := I.ExecNew(s.heap, t);
      if r.None? then Panicked
      else Done(IState(r.value.0, s.slots[d := I.Slot(I.TypeInstance(r.value.1), false)]))
    case First(d, t) => IAssign(s, d, I.ExecFirst(s.heap, t))
    case Last(d, t) => IAssign(s, d, I.ExecLast(s.heap, t))
    case Next(d, v) => IAssign(s, d, I.ExecNext(s.heap, s.slots[v].value))
    case Previous(d, v) => IAssign(s, d, I.ExecPrevious(s.heap, s.slots[v].value))
    case Check(v) =>
      (match I.ExecCheck(s.heap, s.slots[v].value)
       case Done(_) => Done(s)
       case Trapped(e) => Trapped(e)
       case Panicked => Panicked)
    case DeleteValue(v) =>
      (match I.ExecDelete(s.heap, s.slots[v].value)
       case Done(r) => Done(s.(heap := r.0))
       case Trapped(e) => Trapped(e)
       case Panicked => Panicked)
    case DeleteVar(v) =>
      if s.slots[v].deleted then Trapped(DoubleDelete) else
      (match I.ExecDelete(s.heap, s.slots[v].value)
       case Done(r) => Done(IState(r.0, s.slots[v := I.Slot(I.TypeInstance(r.1), true)]))
       case Trapped(e) => Trapped(e)
       case Panicked => Panicked)
    case Copy(d, v) => Done(s.(slots := s.slots[d := I.Slot(s.slots[v].value, false)]))
  }

  function IRun(s: IState, cs: seq<Cmd>): (r: Outcome<IState>)
    requires s.heap.Wf() && CmdsOk(cs, |s.slots|, |s.heap.lists|)
    ensures r.Done? ==> r.state.heap.Wf() && |r.state.slots| == |s.slots| && |r.state.heap.lists| == |s.heap.lists|
    decreases |cs|
  {
    if cs == [] then Done(s)
    else match IRun(s, cs[..|cs| - 1])
      case Done(s') => assert cs[|cs| - 1] in cs; IStep(s', cs[|cs| - 1])
      case Trapped(e) => Trapped(e)
      case Panicked => Panicked
  }

  // ── The native entry points on variable slots ──────────────────────────

  datatype NState = NState(heap: N.HeapValue, vars: seq<Option<nat>>)
  {
    predicate Wf() {
      heap.Wf() && forall i | 0 <= i < |vars| :: heap.Has(vars[i])
    }
  }

  function NAssign(s: NState, d: nat, r: Outcome<Option<nat>>): Outcome<NState>
    requires d < |s.vars|
  {
    match r
    case Done(v) => Done(s.(vars := s.vars[d := v]))
    case Trapped(e) => Trapped(e)
    case Panicked => Panicked
  }

  function NStep(s: NState, c: Cmd, types: nat): (r: Outcome<NState>)
    requires s.Wf() && CmdOk(c, |s.vars|, types)
    ensures r.Done? ==> r.state.Wf() && |r.state.vars| == |s.vars|
  {
    match c
    case New(d, t) => var h := N.New(s.heap, t); Done(NState(h, s.vars[d := Some(|h.nodes| - 1)]))
    case First(d, t) => NAssign(s, d, Done(N.First(s.heap, t)))
    case Last(d, t) => NAssign(s, d, Done(N.Last(s.heap, t)))
    case Next(d, v) => NAssign(s, d, N.Next(s.heap, s.vars[v]))
    case Previous(d, v) => NAssign(s, d, N.Previous(s.heap, s.vars[v]))
    case Check(v) =>
      (match N.Check(s.heap, s.vars[v])
       case Done(_) => Done(s)
       case Trapped(e) => Trapped(e)
       case Panicked => Panicked)
    case DeleteValue(v) =>
      (match N.Delete(s.heap, s.vars[v])
       case Done(r) => Done(s.(heap := r.0))
       case Trapped(e) => Trapped(e)
       case Panicked => Panicked)
    case DeleteVar(v) =>
      (match N.Delete(s.heap, s.vars[v])
       case Done(r) => Done(NState(r.0, s.vars[v := Some(r.1)]))
       case Trapped(e) => Trapped(e)
       case Panicked => Panicked)
    case Copy(d, v) => Done(s.(vars := s.vars[d := s.vars[v]]))
  }

  function NRun(s: NState, cs: seq<Cmd>, types: nat): (r: Outcome<NState>)
    requires s.Wf() && CmdsOk(cs, |s.vars|, types)
    ensures r.Done? ==> r.state.Wf() && |r.state.vars| == |s.vars|
    decreases |cs|
  {
    if cs == [] then Done(s)
    else match NRun(s, cs[..|cs| - 1], types)
      case Done(s') => assert cs[|cs| - 1] in cs; NStep(s', cs[|cs| - 1], types)
      case Trapped(e) => Trapped(e)
      case Panicked => Panicked
  }

  // ── The relations ──────────────────────────────────────────────────────

  ghost predicate IRel(s: IState, g: IR.Names, m: SpecState) {
    && IR.Refines(s.heap, g, m.lists) && |s.slots| == |m.vars|
    && forall i | 0 <= i < |m.vars| ::
         IR.KnownHandle(m.lists, m.vars[i]) && s.slots[i].value == IR.ValueOf(s.heap, g, m.vars[i])
  }

  ghost predicate NRel(s: NState, g: NR.Names, m: SpecState) {
    && s.Wf() && NR.Refines(s.heap, g, m.lists) && |s.vars| == |m.vars|
    && forall i | 0 <= i < |m.vars| ::
         NR.KnownHandle(s.heap, m.lists, m.vars[i]) && s.vars[i] == NR.PtrOf(s.heap, g, m.vars[i])
  }

  /** Same outcome as far as the program's user can tell: it goes on, or stops with the same error. */
  predicate SameKind<S, T>(r: Outcome<S>, s: Outcome<T>) {
    match (r, s)
    case (Done(_), Done(_)) => true
    case (Trapped(e), Trapped(f)) => e == f
    case _ => false
  }

  predicate OnSentinel(h: I.HeapValue, v: I.Value)
    requires h.Wf()
  {
    v.TypeInstance? && h.slab.Get(v.id).Some? && h.slab.Get(v.id).value.isSentinel
  }

  /** A variable that holds a deleted instance. */
  predicate Dead(m: SpecState, v: nat)
    requires v < |m.vars|
  {
    m.vars[v].Ref? && !m.lists.Live(m.vars[v].node)
  }

  /** A variable that holds a deleted instance, and whose id resolves nevertheless. */
  predicate Revived(s: IState, m: SpecState, v: nat)
    requires s.heap.Wf() && v < |m.vars| && v < |s.slots|
  {
    Dead(m, v) && s.slots[v].value.TypeInstance? && s.heap.slab.Get(s.slots[v].value.id).Some?
  }

  /** Where the two runtimes do the same thing: no use of a revived id, no delete of a list's sentinel, and no
      second delete through a variable that was rewound to an instance (or to Null). */
  predicate Agrees(s: IState, m: SpecState, c: Cmd)
    requires s.heap.Wf() && CmdOk(c, |s.slots|, |s.heap.lists|) && |m.vars| == |s.slots|
  {
    match c
    case Next(_, v) => !Revived(s, m, v)
    case Previous(_, v) => !Revived(s, m, v)
    case Check(v) => !Revived(s, m, v)
    case DeleteValue(v) => !OnSentinel(s.heap, s.slots[v].value) && !Revived(s, m, v)
    case DeleteVar(v) =>
      if s.slots[v].deleted then OnSentinel(s.heap, s.slots[v].value) || Dead(m, v)
      else !OnSentinel(s.heap, s.slots[v].value) && !Revived(s, m, v)
    case _ => true
  }

  // ── One step ───────────────────────────────────────────────────────────

  lemma IReads(s: IState, g: IR.Names, m: SpecState, i: nat)
    requires IRel(s, g, m) && i < |m.vars|
    ensures OnSentinel(s.heap, s.slots[i].value) <==> m.vars[i].Ref? && m.vars[i].node.Head?
    ensures Revived(s, m, i) <==> m.vars[i].Ref? && IR.Reborn(g, m.lists, m.vars[i].node)
    ensures s.slots[i].value.Null? <==> m.vars[i].Null?
    ensures m.vars[i].Ref? && m.vars[i].node.Head? ==> !Dead(m, i)
  {
    if m.vars[i].Ref? {
      var x := m.vars[i].node;
      IR.Resolves(s.heap, g, m.lists, x);
      if x.Head? { SentinelLive(m.lists, x.typeDef); }
      if m.lists.Live(x) {
        assert IR.NodeOk(s.heap, g, m.lists, x);
      } else if IR.Reborn(g, m.lists, x) {
        var y := IR.Occupant(s.heap, g, m.lists, x);
        assert IR.NodeOk(s.heap, g, m.lists, y);
      }
    }
  }

  /** The contract's answer, in the interpreter's ids. */
  ghost predicate Answers(s: IState, g: IR.Names, a: Lists, r: Outcome<I.Value>, n: Outcome<Handle>)
    requires |g.ids| == |a.typeOf| && |s.heap.lists| == |a.chains|
  {
    match n
    case Done(h) => IR.KnownHandle(a, h) && r == Done(IR.ValueOf(s.heap, g, h))
    case Trapped(e) => r == Trapped(e)
    case Panicked => false
  }

  /** What reading through a variable gives: the contract's answer, and none of its traps for a revived id. */
  lemma IRead(s: IState, g: IR.Names, m: SpecState, v: nat)
    requires IRel(s, g, m) && v < |m.vars|
    ensures var x, revived := s.slots[v].value, Revived(s, m, v);
      var next, previous, check := SpecNext(m.lists, m.vars[v]), SpecPrevious(m.lists, m.vars[v]), SpecCheck(m.lists, m.vars[v]);
      && (revived ==> next.Trapped? && previous.Trapped? && check.Trapped?)
      && (revived ==> I.ExecNext(s.heap, x).Done? && I.ExecPrevious(s.heap, x).Done? && I.ExecCheck(s.heap, x).Done?)
      && (!revived ==> Answers(s, g, m.lists, I.ExecNext(s.heap, x), next))
      && (!revived ==> Answers(s, g, m.lists, I.ExecPrevious(s.heap, x), previous) && I.ExecCheck(s.heap, x) == check)
  {
    IReads(s, g, m, v);
    if Revived(s, m, v) {
      var y := IR.Occupant(s.heap, g, m.lists, m.vars[v].node);
      IR.StepRefines(s.heap, g, m.lists, Ref(y));
    } else {
      IR.StepRefines(s.heap, g, m.lists, m.vars[v]);
    }
    hide IR.Refines, I.SlabValue.Get, PrevOf, NextOf, IR.Reborn;
  }

  lemma IKeep(s: IState, g: IR.Names, m: SpecState, h': I.HeapValue, g': IR.Names, a': Lists)
    requires IRel(s, g, m) && IR.Refines(h', g', a')
    requires |a'.chains| == |m.lists.chains| && m.lists.typeOf <= a'.typeOf && g.ids <= g'.ids
    requires |h'.lists| == |s.heap.lists| && forall t | 0 <= t < |h'.lists| :: h'.lists[t].sentinel == s.heap.lists[t].sentinel
    ensures IRel(IState(h', s.slots), g', SpecState(a', m.vars))
  {
  }

  /** Deleting through the interpreter: as the contract says, but no trap on a sentinel or a revived id. */
  lemma IDelete(s: IState, g: IR.Names, m: SpecState, v: nat) returns (g': IR.Names)
    requires IRel(s, g, m) && v < |m.vars|
    ensures g'.ids == g.ids && forall k: nat :: IR.Bounded(g, k) ==> IR.Bounded(g', k + 1)
    ensures var r, d := I.ExecDelete(s.heap, s.slots[v].value), SpecDelete(m.lists, m.vars[v]);
      if OnSentinel(s.heap, s.slots[v].value) || Revived(s, m, v) then r.Done? && d == Trapped(DoubleDelete)
      else if d.Done? then
        && r.Done? && IRel(IState(r.state.0, s.slots), g', SpecState(d.state.0, m.vars))
        && d.state.0.Known(d.state.1) && r.state.1 == IR.IdOf(r.state.0, g', d.state.1)
      else r.Trapped? && d == Trapped(r.trap)
  {
    IReads(s, g, m, v);
    g' := g;
    if m.vars[v].Ref? && m.lists.Live(m.vars[v].node) {
      var x := m.vars[v].node;
      if x.Inst? {
        g' := IR.DeleteRefines(s.heap, g, m.lists, x);
        hide IR.Refines, Lists.Valid, PrevOf, NextOf, I.SlabValue.Get, I.UnlinkFrom;
        var h' := I.ExecDelete(s.heap, s.slots[v].value).state.0;
        IKeepAfterDelete(s, g, m, h', g', x);
      } else {
        ISentinelDelete(s.heap, g, m.lists, x);
      }
    } else if Revived(s, m, v) {
      var y := IR.Occupant(s.heap, g, m.lists, m.vars[v].node);
      var _ := IR.DeleteRefines(s.heap, g, m.lists, y);
      hide IR.Refines, Lists.Valid, PrevOf, NextOf, I.SlabValue.Get, I.UnlinkFrom;
    }
  }

  lemma IKeepAfterDelete(s: IState, g: IR.Names, m: SpecState, h': I.HeapValue, g': IR.Names, x: Node)
    requires IRel(s, g, m) && m.lists.Live(x) && x.Inst? && g'.ids == g.ids && IR.Refines(h', g', SpecRemove(m.lists, x))
    requires exists v :: I.ExecDelete(s.heap, v).Done? && h' == I.ExecDelete(s.heap, v).state.0
    ensures IRel(IState(h', s.slots), g', SpecState(SpecRemove(m.lists, x), m.vars))
  {
    RemoveKeepsValid(m.lists, x);
    IKeep(s, g, m, h', g', SpecRemove(m.lists, x));
  }

  /** The interpreter deletes a sentinel without complaint. */
  lemma ISentinelDelete(h: I.HeapValue, g: IR.Names, a: Lists, x: Node)
    requires IR.Refines(h, g, a) && a.Live(x) && x.Head?
    ensures I.ExecDelete(h, I.TypeInstance(IR.IdOf(h, g, x))).Done?
  {
    assert IR.NodeOk(h, g, a, x);
    Linked(a, x);
    var n := NextOf(a, x);
    if n.Some? { assert IR.NodeOk(h, g, a, n.value); }
  }

  lemma INew(s: IState, g: IR.Names, m: SpecState, d: nat, t: nat) returns (g': IR.Names)
    requires IRel(s, g, m) && d < |m.vars| && t < |m.lists.chains|
    ensures var r := IStep(s, New(d, t)); r.Done? && IRel(r.state, g', SpecStep(m, New(d, t)).state)
    ensures forall k: nat :: IR.Bounded(g, k) ==> IR.Bounded(g', k)
  {
    g' := IR.NewRefines(s.heap, g, m.lists, t);
    NewKeepsValid(m.lists, t);
    IKeep(s, g, m, I.ExecNew(s.heap, t).value.0, g', SpecNew(m.lists, t));
  }

  function IsDelete(c: Cmd): nat {
    if c.DeleteValue? || c.DeleteVar? then 1 else 0
  }

  predicate Reads(c: Cmd) {
    !c.New? && !c.DeleteValue? && !c.DeleteVar?
  }

  lemma IReadStep(s: IState, g: IR.Names, m: SpecState, c: Cmd)
    requires IRel(s, g, m) && CmdOk(c, |s.slots|, |s.heap.lists|) && Reads(c)
    ensures SameKind(IStep(s, c), SpecStep(m, c)) <==> Agrees(s, m, c)
    ensures Agrees(s, m, c) && SpecStep(m, c).Done? ==> IRel(IStep(s, c).state, g, SpecStep(m, c).state)
    ensures !SpecStep(m, c).Panicked? && !IStep(s, c).Panicked?
  {
    hide PrevOf, NextOf, LastOf, I.SlabValue.Get, IR.Reborn, I.ExecNext, I.ExecPrevious, SpecNext, SpecPrevious;
    match c {
      case First(d, t) => IR.FirstLastRefine(s.heap, g, m.lists, t);
      case Last(d, t) => IR.FirstLastRefine(s.heap, g, m.lists, t);
      case Next(d, v) => IRead(s, g, m, v);
      case Previous(d, v) => IRead(s, g, m, v);
      case Check(v) => IRead(s, g, m, v);
      case Copy(d, v) =>
    }
  }

  lemma IDeleteStep(s: IState, g: IR.Names, m: SpecState, c: Cmd) returns (g': IR.Names)
    requires IRel(s, g, m) && CmdOk(c, |s.slots|, |s.heap.lists|) && (c.DeleteValue? || c.DeleteVar?)
    ensures SameKind(IStep(s, c), SpecStep(m, c)) <==> Agrees(s, m, c)
    ensures Agrees(s, m, c) && SpecStep(m, c).Done? ==> IRel(IStep(s, c).state, g', SpecStep(m, c).state)
    ensures !SpecStep(m, c).Panicked? && !IStep(s, c).Panicked?
    ensures g'.ids == g.ids && forall k: nat :: IR.Bounded(g, k) ==> IR.Bounded(g', k + 1)
  {
    hide PrevOf, NextOf, I.SlabValue.Get, IR.Reborn, I.ExecDelete, IR.NodeOk, IR.TailOk, IR.SlotsOk, IR.OwnersOk, IR.Stale, IR.Bounded;
    var v := c.src;
    IReads(s, g, m, v);
    g' := IDelete(s, g, m, v);
  }

  /** One command of the interpreter has the contract's outcome exactly where `Agrees` says so. */
  lemma IStepExact(s: IState, g: IR.Names, m: SpecState, c: Cmd) returns (g': IR.Names)
    requires IRel(s, g, m) && CmdOk(c, |s.slots|, |s.heap.lists|)
    ensures SameKind(IStep(s, c), SpecStep(m, c)) <==> Agrees(s, m, c)
    ensures Agrees(s, m, c) && SpecStep(m, c).Done? ==> IRel(IStep(s, c).state, g', SpecStep(m, c).state)
    ensures !SpecStep(m, c).Panicked? && !IStep(s, c).Panicked?
    ensures !c.New? ==> g'.ids == g.ids
    ensures forall k: nat :: IR.Bounded(g, k) ==> IR.Bounded(g', k + IsDelete(c))
  {
    hide IR.NodeOk, IR.TailOk, IR.SlotsOk, IR.OwnersOk, IR.Stale, IR.Bounded, I.SlabValue.Get, PrevOf, NextOf;
    g' := g;
    if c.New? {
      g' := INew(s, g, m, c.dst, c.t);
    } else if c.DeleteValue? || c.DeleteVar? {
      g' := IDeleteStep(s, g, m, c);
    } else {
      IReadStep(s, g, m, c);
      assert forall k: nat :: IR.Bounded(g, k) ==> IR.Bounded(g, k + 0);
    }
  }

  lemma NKeep(s: NState, g: NR.Names, m: SpecState, h': N.HeapValue, g': NR.Names, a': Lists)
    requires NRel(s, g, m) && NR.Refines(h', g', a')
    requires |a'.chains| == |m.lists.chains| && m.lists.typeOf <= a'.typeOf && g.addrs <= g'.addrs
    requires forall t: nat :: NR.Created(s.heap, t) ==> NR.Created(h', t) && h'.lists[t].value.sentinel == s.heap.lists[t].value.sentinel
    ensures NRel(NState(h', s.vars), g', SpecState(a', m.vars))
  {
    forall i | 0 <= i < |m.vars|
      ensures NR.KnownHandle(h', a', m.vars[i]) && s.vars[i] == NR.PtrOf(h', g', m.vars[i]) && h'.Has(s.vars[i])
    {
      assert NR.KnownHandle(s.heap, m.lists, m.vars[i]);
      NR.Addressed(s.heap, g, m.lists, m.vars[i]);
      NR.Addressed(h', g', a', m.vars[i]);
    }
  }

  lemma NDeleteLive(s: NState, g: NR.Names, m: SpecState, v: nat)
    requires NRel(s, g, m) && v < |m.vars| && m.vars[v].Ref? && m.vars[v].node.Inst? && m.lists.Live(m.vars[v].node)
    ensures var r, d := N.Delete(s.heap, s.vars[v]), SpecDelete(m.lists, m.vars[v]);
      && d.Done? && r.Done? && NRel(NState(r.state.0, s.vars), g, SpecState(d.state.0, m.vars))
      && NR.KnownHandle(r.state.0, d.state.0, Ref(d.state.1)) && Some(r.state.1) == NR.AddrOf(r.state.0, g, d.state.1)
  {
    hide NR.NodeOk, NR.MadeOk, NR.ListOk, PrevOf, NextOf, Lists.Valid;
    var x := m.vars[v].node;
    NR.Addressed(s.heap, g, m.lists, m.vars[v]);
    var h' := NR.DeleteRefines(s.heap, g, m.lists, x);
    RemoveKeepsValid(m.lists, x);
    Linked(m.lists, x);
    NKeep(s, g, m, h', g, SpecRemove(m.lists, x));
  }

  lemma NDelete(s: NState, g: NR.Names, m: SpecState, v: nat)
    requires NRel(s, g, m) && v < |m.vars|
    ensures var r, d := N.Delete(s.heap, s.vars[v]), SpecDelete(m.lists, m.vars[v]);
      if d.Done? then
        && r.Done? && NRel(NState(r.state.0, s.vars), g, SpecState(d.state.0, m.vars))
        && NR.KnownHandle(r.state.0, d.state.0, Ref(d.state.1)) && Some(r.state.1) == NR.AddrOf(r.state.0, g, d.state.1)
      else r.Trapped? && d == Trapped(r.trap)
  {
    NR.Addressed(s.heap, g, m.lists, m.vars[v]);
    if m.vars[v].Ref? {
      var x := m.vars[v].node;
      if m.lists.Live(x) {
        assert NR.NodeOk(s.heap, g, m.lists, x);
        if x.Inst? { NDeleteLive(s, g, m, v); }
      } else if x.Head? {
        SentinelLive(m.lists, x.typeDef);
      } else {
        assert NR.MadeOk(s.heap, g, m.lists, x.serial);
      }
    }
  }

  lemma NNew(s: NState, g: NR.Names, m: SpecState, d: nat, t: nat) returns (g': NR.Names)
    requires NRel(s, g, m) && d < |m.vars| && t < |m.lists.chains|
    ensures var r := NStep(s, New(d, t), |m.lists.chains|); r.Done? && NRel(r.state, g', SpecStep(m, New(d, t)).state)
  {
    g' := NR.NewRefines(s.heap, g, m.lists, t);
    NewKeepsValid(m.lists, t);
    NKeep(s, g, m, N.New(s.heap, t), g', SpecNew(m.lists, t));
    var x := Inst(|m.lists.typeOf|);
    assert NR.MadeOk(N.New(s.heap, t), g', SpecNew(m.lists, t), x.serial);
  }

  lemma NReadStep(s: NState, g: NR.Names, m: SpecState, c: Cmd)
    requires NRel(s, g, m) && CmdOk(c, |s.vars|, |m.lists.chains|) && Reads(c)
    ensures var r, z := NStep(s, c, |m.lists.chains|), SpecStep(m, c);
      SameKind(r, z) && (z.Done? ==> NRel(r.state, g, z.state))
  {
    hide NR.NodeOk, NR.ListOk, NR.MadeOk, PrevOf, NextOf, LastOf;
    match c {
      case First(d, t) => NR.FirstLastRefine(s.heap, g, m.lists, t);
      case Last(d, t) => NR.FirstLastRefine(s.heap, g, m.lists, t);
      case Next(d, v) => NR.StepRefines(s.heap, g, m.lists, m.vars[v]);
      case Previous(d, v) => NR.StepRefines(s.heap, g, m.lists, m.vars[v]);
      case Check(v) => NR.StepRefines(s.heap, g, m.lists, m.vars[v]);
      case Copy(d, v) =>
    }
  }

  lemma NDeleteStep(s: NState, g: NR.Names, m: SpecState, c: Cmd)
    requires NRel(s, g, m) && CmdOk(c, |s.vars|, |m.lists.chains|) && (c.DeleteValue? || c.DeleteVar?)
    ensures var r, z := NStep(s, c, |m.lists.chains|), SpecStep(m, c);
      SameKind(r, z) && (z.Done? ==> NRel(r.state, g, z.state))
  {
    hide NR.Refines, N.Delete, SpecDelete, Lists.Known, Lists.Live;
    var v := c.src;
    NDelete(s, g, m, v);
    var r, d := N.Delete(s.heap, s.vars[v]), SpecDelete(m.lists, m.vars[v]);
    if d.Done? { NSetVar(NState(r.state.0, s.vars), g, SpecState(d.state.0, m.vars), v, Some(r.state.1), Ref(d.state.1)); }
  }

  lemma NSetVar(s: NState, g: NR.Names, m: SpecState, v: nat, p: Option<nat>, h: Handle)
    requires NRel(s, g, m) && v < |m.vars| && NR.KnownHandle(s.heap, m.lists, h) && p == NR.PtrOf(s.heap, g, h) && s.heap.Has(p)
    ensures NRel(NState(s.heap, s.vars[v := p]), g, SpecState(m.lists, m.vars[v := h]))
  {
    hide NR.Refines, NR.KnownHandle, NR.PtrOf;
  }

  /** The native runtime keeps the contract on every command. */
  lemma NStepRefines(s: NState, g: NR.Names, m: SpecState, c: Cmd) returns (g': NR.Names)
    requires NRel(s, g, m) && CmdOk(c, |s.vars|, |m.lists.chains|)
    ensures SameKind(NStep(s, c, |m.lists.chains|), SpecStep(m, c))
    ensures SpecStep(m, c).Done? ==> NRel(NStep(s, c, |m.lists.chains|).state, g', SpecStep(m, c).state)
    ensures !c.New? ==> g'.addrs == g.addrs
  {
    hide NR.NodeOk, NR.ListOk, NR.MadeOk, PrevOf, NextOf;
    g' := g;
    if c.New? {
      g' := NNew(s, g, m, c.dst, c.t);
    } else if c.DeleteValue? || c.DeleteVar? {
      NDeleteStep(s, g, m, c);
    } else {
      NReadStep(s, g, m, c);
    }
  }

  // ── Whole runs ─────────────────────────────────────────────────────────

  /** Every command the interpreter reaches is one on which the runtimes agree. */
  predicate Admissible(s: IState, m: SpecState, cs: seq<Cmd>)
    requires s.heap.Wf() && CmdsOk(cs, |s.slots|, |s.heap.lists|)
    requires |m.vars| == |s.slots| && |m.lists.chains| == |s.heap.lists|
    decreases |cs|
  {
    cs == [] ||
    (Admissible(s, m, cs[..|cs| - 1]) &&
     (var r, z := IRun(s, cs[..|cs| - 1]), SpecRun(m, cs[..|cs| - 1]);
      assert cs[|cs| - 1] in cs;
      r.Done? && z.Done? ==> Agrees(r.state, z.state, cs[|cs| - 1])))
  }

  /** The interpreter goes the contract's way at every point of the run. */
  ghost predicate InStep(s: IState, m: SpecState, cs: seq<Cmd>)
    requires s.heap.Wf() && CmdsOk(cs, |s.slots|, |s.heap.lists|)
    requires |m.vars| == |s.slots| && |m.lists.chains| == |s.heap.lists|
  {
    forall i | 0 <= i <= |cs| :: SameKind(IRun(s, cs[..i]), SpecRun(m, cs[..i]))
  }

  function Deletes(cs: seq<Cmd>): nat {
    if cs == [] then 0 else Deletes(cs[..|cs| - 1]) + IsDelete(cs[|cs| - 1])
  }

  lemma LastStep(s: IState, m: SpecState, cs: seq<Cmd>)
    requires s.heap.Wf() && CmdsOk(cs, |s.slots|, |s.heap.lists|) && cs != []
    requires |m.vars| == |s.slots| && |m.lists.chains| == |s.heap.lists|
    ensures var front, c := cs[..|cs| - 1], cs[|cs| - 1];
      && CmdsOk(front, |s.slots|, |s.heap.lists|) && CmdOk(c, |s.slots|, |s.heap.lists|)
      && var r, z := IRun(s, front), SpecRun(m, front);
      && (r.Done? ==> IRun(s, cs) == IStep(r.state, c)) && (r.Trapped? ==> IRun(s, cs) == r)
      && (z.Done? ==> SpecRun(m, cs) == SpecStep(z.state, c)) && (z.Trapped? ==> SpecRun(m, cs) == z)
      && (Admissible(s, m, cs) <==> Admissible(s, m, front) && (r.Done? && z.Done? ==> Agrees(r.state, z.state, c)))
      && Deletes(cs) == Deletes(front) + IsDelete(c)
  {
    hide IStep, SpecStep, Agrees, CmdOk;
    assert cs[|cs| - 1] in cs;
  }

  /** The interpreter follows the contract through a run exactly when every command it reaches agrees. */
  lemma {:induction false} IRunExact(s: IState, g: IR.Names, m: SpecState, cs: seq<Cmd>) returns (g': IR.Names)
    requires IRel(s, g, m) && CmdsOk(cs, |m.vars|, |m.lists.chains|)
    ensures Admissible(s, m, cs) <==> InStep(s, m, cs)
    ensures Admissible(s, m, cs) && SpecRun(m, cs).Done? ==>
      && IRun(s, cs).Done? && IRel(IRun(s, cs).state, g', SpecRun(m, cs).state)
      && forall k: nat :: IR.Bounded(g, k) ==> IR.Bounded(g', k + Deletes(cs))
    decreases |cs|
  {
    hide IStep, SpecStep, Agrees, IR.NodeOk, IR.TailOk, IR.OwnersOk, IR.SlotsOk, IR.Stale, IR.Bounded, Counted, Distinct, CmdOk;
    g' := g;
    if cs == [] {
      assert cs[..0] == [] && IRun(s, []) == Done(s) && SpecRun(m, []) == Done(m);
    } else {
      g' := IRunMore(s, g, m, cs);
      hide IRun, SpecRun, Admissible, InStep, Deletes, CmdsOk, IRel;
    }
  }

  lemma {:induction false} IRunMore(s: IState, g: IR.Names, m: SpecState, cs: seq<Cmd>) returns (g': IR.Names)
    requires IRel(s, g, m) && CmdsOk(cs, |m.vars|, |m.lists.chains|) && cs != []
    ensures Admissible(s, m, cs) <==> InStep(s, m, cs)
    ensures Admissible(s, m, cs) && SpecRun(m, cs).Done? ==>
      && IRun(s, cs).Done? && IRel(IRun(s, cs).state, g', SpecRun(m, cs).state)
      && forall k: nat :: IR.Bounded(g, k) ==> IR.Bounded(g', k + Deletes(cs))
    decreases |cs|, 0
  {
    hide IStep, SpecStep, Agrees, IR.Bounded, IRun, SpecRun, Admissible, Deletes, CmdOk, CmdsOk, IsDelete;
    LastStep(s, m, cs);
    InStepSnoc(s, m, cs);
    var front, c := cs[..|cs| - 1], cs[|cs| - 1];
    g' := IRunExact(s, g, m, front);
    var r, z := IRun(s, front), SpecRun(m, front);
    if Admissible(s, m, front) {
      InStepAtEnd(s, m, front);
      if z.Done? { g' := IStepExact(r.state, g', z.state, c); }
    }
    hide InStep, IRel;
  }

  lemma InStepAtEnd(s: IState, m: SpecState, cs: seq<Cmd>)
    requires s.heap.Wf() && CmdsOk(cs, |s.slots|, |s.heap.lists|)
    requires |m.vars| == |s.slots| && |m.lists.chains| == |s.heap.lists| && InStep(s, m, cs)
    ensures SameKind(IRun(s, cs), SpecRun(m, cs))
  {
    assert cs[..|cs|] == cs;
    hide IRun, SpecRun, SameKind;
  }

  lemma InStepSnoc(s: IState, m: SpecState, cs: seq<Cmd>)
    requires s.heap.Wf() && CmdsOk(cs, |s.slots|, |s.heap.lists|) && cs != []
    requires |m.vars| == |s.slots| && |m.lists.chains| == |s.heap.lists|
    ensures CmdsOk(cs[..|cs| - 1], |s.slots|, |s.heap.lists|)
    ensures InStep(s, m, cs) <==> InStep(s, m, cs[..|cs| - 1]) && SameKind(IRun(s, cs), SpecRun(m, cs))
  {
    hide IRun, SpecRun, SameKind;
    var front := cs[..|cs| - 1];
    assert cs[..|cs|] == cs;
    assert forall i | 0 <= i < |cs| :: front[..i] == cs[..i];
  }

  /** The native runtime follows the contract through every run. */
  lemma {:induction false} NRunFollows(n: NState, k: NR.Names, m: SpecState, cs: seq<Cmd>) returns (k': NR.Names)
    requires NRel(n, k, m) && CmdsOk(cs, |m.vars|, |m.lists.chains|)
    ensures var r, q := SpecRun(m, cs), NRun(n, cs, |m.lists.chains|);
      SameKind(q, r) && (r.Done? ==> NRel(q.state, k', r.state))
    decreases |cs|
  {
    k' := k;
    if cs != [] {
      var front, c := cs[..|cs| - 1], cs[|cs| - 1];
      assert c in cs;
      k' := NRunFollows(n, k, m, front);
      var r := SpecRun(m, front);
      if r.Done? { k' := NStepRefines(NRun(n, front, |m.lists.chains|).state, k', r.state, c); }
    }
    hide NStep, SpecStep, NRel;
  }

  function IStart(types: nat, vars: nat): (s: IState)
    ensures s.heap.Wf() && |s.slots| == vars && |s.heap.lists| == types
  {
    IState(I.NewHeap(types), seq(vars, _ => I.Slot(I.Null, false)))
  }

  function NStart(vars: nat): (s: NState)
    ensures s.Wf() && |s.vars| == vars
  {
    NState(N.HeapValue([], []), seq(vars, _ => None))
  }

  function SpecStart(types: nat, vars: nat): SpecState {
    SpecState(IR.EmptyLists(types), seq(vars, _ => Null))
  }

  lemma StartsRelated(types: nat, vars: nat) returns (g: IR.Names, k: NR.Names)
    ensures IRel(IStart(types, vars), g, SpecStart(types, vars)) && IR.Bounded(g, 0)
    ensures NRel(NStart(vars), k, SpecStart(types, vars))
  {
    g := IR.NewHeapRefines(types);
    k := NR.Names([], []);
    IR.EmptyLinks(types);
  }

  /** Related states look alike: the same variables are Null, and the same are equal, except that the
      interpreter takes twins for one instance. */
  lemma LookAlike(s: IState, g: IR.Names, n: NState, k: NR.Names, m: SpecState, i: nat, j: nat)
    requires IRel(s, g, m) && NRel(n, k, m) && i < |m.vars| && j < |m.vars|
    ensures s.slots[i].value.Null? <==> n.vars[i].None?
    ensures n.vars[i] == n.vars[j] <==> m.vars[i] == m.vars[j]
    ensures s.slots[i].value == s.slots[j].value <==>
            n.vars[i] == n.vars[j] || (m.vars[i].Ref? && m.vars[j].Ref? && IR.Twins(g, m.vars[i].node, m.vars[j].node))
  {
    NR.Addressed(n.heap, k, m.lists, m.vars[i]);
    NR.Addressed(n.heap, k, m.lists, m.vars[j]);
    if m.vars[i].Ref? && m.vars[j].Ref? {
      IR.IdsDistinct(s.heap, g, m.lists, m.vars[i].node, m.vars[j].node);
    }
  }

  /** The contract of the two backends. From the start of a program they do the same at every point of a run
      exactly when every command reached is one on which they agree. */
  lemma ProgramsAgree(types: nat, vars: nat, cs: seq<Cmd>)
    requires CmdsOk(cs, vars, types)
    ensures Admissible(IStart(types, vars), SpecStart(types, vars), cs) <==>
      forall i | 0 <= i <= |cs| :: SameKind(IRun(IStart(types, vars), cs[..i]), NRun(NStart(vars), cs[..i], types))
  {
    var g, k := StartsRelated(types, vars);
    var s, n, m := IStart(types, vars), NStart(vars), SpecStart(types, vars);
    var _ := IRunExact(s, g, m, cs);
    forall i | 0 <= i <= |cs|
      ensures SameKind(IRun(s, cs[..i]), SpecRun(m, cs[..i])) <==> SameKind(IRun(s, cs[..i]), NRun(n, cs[..i], types))
    {
      var _ := NRunFollows(n, k, m, cs[..i]);
    }
    hide IRun, NRun, SpecRun, Admissible, IRel, NRel;
  }

  /** After such a run their variables are Null alike, and equal alike too if fewer than 2^32 instances were deleted. */
  lemma ProgramsLookAlike(types: nat, vars: nat, cs: seq<Cmd>, i: nat, j: nat)
    requires CmdsOk(cs, vars, types) && i < vars && j < vars
    requires Admissible(IStart(types, vars), SpecStart(types, vars), cs) && IRun(IStart(types, vars), cs).Done?
    ensures var r, q := IRun(IStart(types, vars), cs), NRun(NStart(vars), cs, types);
      && q.Done?
      && (r.state.slots[i].value.Null? <==> q.state.vars[i].None?)
      && (q.state.vars[i] == q.state.vars[j] ==> r.state.slots[i].value == r.state.slots[j].value)
      && (Deletes(cs) < I.GENERATIONS && r.state.slots[i].value == r.state.slots[j].value ==> q.state.vars[i] == q.state.vars[j])
  {
    var r, g', k', z := EndsRelated(types, vars, cs);
    LookAlike(r, g', NRun(NStart(vars), cs, types).state, k', z, i, j);
    if Deletes(cs) < I.GENERATIONS && z.vars[i].Ref? && z.vars[j].Ref? {
      IR.FewFrees(r.heap, g', z.lists, Deletes(cs), z.vars[i].node, z.vars[j].node);
    }
    hide IRun, NRun, SpecRun, Admissible, IR.Refines, NR.Refines, IR.Twins;
  }

  lemma EndsRelated(types: nat, vars: nat, cs: seq<Cmd>) returns (r: IState, g': IR.Names, k': NR.Names, z: SpecState)
    requires CmdsOk(cs, vars, types)
    requires Admissible(IStart(types, vars), SpecStart(types, vars), cs) && IRun(IStart(types, vars), cs).Done?
    ensures IRun(IStart(types, vars), cs) == Done(r) && SpecRun(SpecStart(types, vars), cs) == Done(z)
    ensures NRun(NStart(vars), cs, types).Done?
    ensures IRel(r, g', z) && IR.Bounded(g', Deletes(cs)) && NRel(NRun(NStart(vars), cs, types).state, k', z)
    ensures |r.slots| == |z.vars| == vars
  {
    var g, k := StartsRelated(types, vars);
    var s, n, m := IStart(types, vars), NStart(vars), SpecStart(types, vars);
    g' := IRunExact(s, g, m, cs);
    k' := NRunFollows(n, k, m, cs);
    assert cs[..|cs|] == cs;
    assert SameKind(IRun(s, cs[..|cs|]), SpecRun(m, cs[..|cs|]));
    hide IRun, NRun, SpecRun, Admissible, IRel, NRel, IR.Bounded;
    r, z := IRun(s, cs).state, SpecRun(m, cs).state;
    assert IR.Bounded(g', 0 + Deletes(cs));
  }

  /** While fewer than 2^32 instances have been deleted, no id is revived. */
  lemma FewDeletesReviveNothing(types: nat, vars: nat, cs: seq<Cmd>, v: nat)
    requires CmdsOk(cs, vars, types) && v < vars && Deletes(cs) < 0x1_0000_0000
    requires Admissible(IStart(types, vars), SpecStart(types, vars), cs) && IRun(IStart(types, vars), cs).Done?
    ensures var z := SpecRun(SpecStart(types, vars), cs);
      z.Done? && |z.state.vars| == vars && !Revived(IRun(IStart(types, vars), cs).state, z.state, v)
  {
    var r, g', k', z := EndsRelated(types, vars, cs);
    IReads(r, g', z, v);
    if z.vars[v].Ref? { IR.FewFrees(r.heap, g', z.lists, Deletes(cs), z.vars[v].node, z.vars[v].node); }
    hide IRun, NRun, SpecRun, Admissible, IR.Refines, NRel, IR.Reborn;
  }

  // ── Where they differ ──────────────────────────────────────────────────

  lemma IRunOfFour(s: IState, cs: seq<Cmd>, s1: IState, s2: IState, s3: IState)
    requires s.heap.Wf() && |cs| == 4 && CmdsOk(cs, |s.slots|, |s.heap.lists|)
    requires IStep(s, cs[0]) == Done(s1) && IStep(s1, cs[1]) == Done(s2) && IStep(s2, cs[2]) == Done(s3)
    ensures IRun(s, cs) == IStep(s3, cs[3])
  {
    hide IStep, CmdOk;
    assert cs[..3][..2] == cs[..2] && cs[..2][..1] == cs[..1] && cs[..1][..0] == [];
    assert IRun(s, cs[..1]) == Done(s1);
    assert IRun(s, cs[..2]) == Done(s2);
    assert IRun(s, cs[..3]) == Done(s3);
  }

  lemma NRunOfFour(s: NState, cs: seq<Cmd>, s1: NState, s2: NState, s3: NState, types: nat)
    requires s.Wf() && |cs| == 4 && CmdsOk(cs, |s.vars|, types)
    requires NStep(s, cs[0], types) == Done(s1) && NStep(s1, cs[1], types) == Done(s2) && NStep(s2, cs[2], types) == Done(s3)
    ensures NRun(s, cs, types) == NStep(s3, cs[3], types)
  {
    hide NStep, CmdOk;
    assert cs[..3][..2] == cs[..2] && cs[..2][..1] == cs[..1] && cs[..1][..0] == [];
    assert NRun(s, cs[..1], types) == Done(s1);
    assert NRun(s, cs[..2], types) == Done(s2);
    assert NRun(s, cs[..3], types) == Done(s3);
  }

  /** The interpreter's heap with one type: the sentinel alone, and with one instance. */
  const I_EMPTY := I.HeapValue(I.SlabValue([Some(I.Obj(0, None, None, true))], [0], []), [I.ListValue(I.Id(0, 0), None)])
  const I_ONE := I.HeapValue(
    I.SlabValue([Some(I.Obj(0, None, Some(I.Id(1, 0)), true)), Some(I.Obj(0, Some(I.Id(0, 0)), None, false))], [0, 0], []),
    [I.ListValue(I.Id(0, 0), Some(I.Id(1, 0)))])

  lemma IFirstSteps()
    ensures IStart(1, 2).heap == I_EMPTY && I.ExecNew(I_EMPTY, 0) == Some((I_ONE, I.Id(1, 0)))
  {
    OneEmptyList();
    var (s, id) := I_EMPTY.slab.Alloc(I.Obj(0, None, None, false));
    assert s == I.SlabValue([Some(I.Obj(0, None, None, true)), Some(I.Obj(0, None, None, false))], [0, 0], []);
    hide I.NewHeap;
    var r := I.AppendTo(s, I.ListValue(I.Id(0, 0), None), id);
    assert r.Some? && r.value.0.entries == I_ONE.slab.entries && I_EMPTY.lists[0 := r.value.1] == I_ONE.lists;
  }

  lemma OneEmptyList()
    ensures I.NewHeap(1) == I_EMPTY
  {
    assert I.NewHeap(0) == I.HeapValue(I.SlabValue([], [], []), []);
  }

  /** `Delete v`, `w = v`, `Delete w`: the interpreter frees the list's sentinel, the native
      runtime reports a double delete. */
  lemma SentinelDeleteDiffers()
    ensures var cs := [New(0, 0), DeleteVar(0), Copy(1, 0), DeleteVar(1)];
      IRun(IStart(1, 2), cs).Done? && NRun(NStart(2), cs, 1) == Trapped(DoubleDelete)
  {
    var cs := [New(0, 0), DeleteVar(0), Copy(1, 0), DeleteVar(1)];
    SentinelDeleteInterp(cs);
    SentinelDeleteNative(cs);
  }

  lemma SentinelDeleteInterp(cs: seq<Cmd>)
    requires cs == [New(0, 0), DeleteVar(0), Copy(1, 0), DeleteVar(1)]
    ensures IRun(IStart(1, 2), cs).Done?
  {
    IFirstSteps();
    var s0 := IStart(1, 2);
    var s1 := IState(I_ONE, [I.Slot(I.TypeInstance(I.Id(1, 0)), false), I.Slot(I.Null, false)]);
    var h := I.HeapValue(I.SlabValue([Some(I.Obj(0, None, None, true)), None], [0, 1], [1]), [I.ListValue(I.Id(0, 0), None)]);
    var head := I.TypeInstance(I.Id(0, 0));
    var s2 := IState(h, [I.Slot(head, true), I.Slot(I.Null, false)]);
    var s3 := IState(h, [I.Slot(head, true), I.Slot(head, false)]);
    assert IStep(s0, cs[0]).state.slots == s1.slots;
    var u := I.UnlinkFrom(I_ONE.slab, I_ONE.lists[0], I.Id(1, 0)).value;
    assert u.0.entries == [Some(I.Obj(0, None, None, true)), Some(I.Obj(0, None, None, false))];
    assert u.0.Free(I.Id(1, 0)) == h.slab && I_ONE.lists[0 := u.1] == h.lists;
    assert IStep(s1, cs[1]).state.slots == s2.slots;
    assert IStep(s2, cs[2]).state.slots == s3.slots;
    IRunOfFour(s0, cs, s1, s2, s3);
  }

  lemma SentinelDeleteNative(cs: seq<Cmd>)
    requires cs == [New(0, 0), DeleteVar(0), Copy(1, 0), DeleteVar(1)]
    ensures NRun(NStart(2), cs, 1) == Trapped(DoubleDelete)
  {
    var s0 := NStart(2);
    var s1 := NStep(s0, cs[0], 1).state;
    var s2 := NStep(s1, cs[1], 1).state;
    var s3 := NStep(s2, cs[2], 1).state;
    NRunOfFour(s0, cs, s1, s2, s3, 1);
  }

  /** `Delete x`, `Delete x`: the interpreter reports the second, the native runtime deletes the
      instance x was rewound to. */
  lemma DoubleDeleteDiffers()
    ensures var cs := [New(0, 0), New(1, 0), DeleteVar(1), DeleteVar(1)];
      IRun(IStart(1, 2), cs) == Trapped(DoubleDelete) && NRun(NStart(2), cs, 1).Done?
  {
    var cs := [New(0, 0), New(1, 0), DeleteVar(1), DeleteVar(1)];
    DoubleDeleteInterp(cs);
    DoubleDeleteNative(cs);
  }

  lemma DoubleDeleteInterp(cs: seq<Cmd>)
    requires cs == [New(0, 0), New(1, 0), DeleteVar(1), DeleteVar(1)]
    ensures IRun(IStart(1, 2), cs) == Trapped(DoubleDelete)
  {
    IFirstSteps();
    var s0 := IStart(1, 2);
    var s1 := IState(I_ONE, [I.Slot(I.TypeInstance(I.Id(1, 0)), false), I.Slot(I.Null, false)]);
    assert IStep(s0, cs[0]).state.slots == s1.slots;
    var s2 := IStep(s1, cs[1]).state;
    var s3 := IStep(s2, cs[2]).state;
    IRunOfFour(s0, cs, s1, s2, s3);
  }

  lemma DoubleDeleteNative(cs: seq<Cmd>)
    requires cs == [New(0, 0), New(1, 0), DeleteVar(1), DeleteVar(1)]
    ensures NRun(NStart(2), cs, 1).Done?
  {
    var head := N.Header(0, None, Some(1), false, true);
    var s1 := NState(N.HeapValue([head, N.Header(0, Some(0), None, false, false)], [Some(N.ListValue(0, Some(1)))]), [Some(1), None]);
    var s2 := NState(N.HeapValue([head, N.Header(0, Some(0), Some(2), false, false), N.Header(0, Some(1), None, false, false)],
                                 [Some(N.ListValue(0, Some(2)))]), [Some(1), Some(2)]);
    NFirstNew(s1);
    NSecondNew(s1, s2);
    var s3 := NStep(s2, cs[2], 1).state;
    NRunOfFour(NStart(2), cs, s1, s2, s3, 1);
  }

  lemma NFirstNew(s1: NState)
    requires s1 == NState(N.HeapValue([N.Header(0, None, Some(1), false, true), N.Header(0, Some(0), None, false, false)],
                                      [Some(N.ListValue(0, Some(1)))]), [Some(1), None])
    ensures NStep(NStart(2), New(0, 0), 1) == Done(s1)
  {
    var r := NStep(NStart(2), New(0, 0), 1).state;
    assert r.heap.nodes == s1.heap.nodes && r.heap.lists == s1.heap.lists && r.vars == s1.vars;
  }

  lemma NSecondNew(s1: NState, s2: NState)
    requires s1 == NState(N.HeapValue([N.Header(0, None, Some(1), false, true), N.Header(0, Some(0), None, false, false)],
                                      [Some(N.ListValue(0, Some(1)))]), [Some(1), None])
    requires s2 == NState(N.HeapValue([N.Header(0, None, Some(1), false, true), N.Header(0, Some(0), Some(2), false, false),
                                       N.Header(0, Some(1), None, false, false)], [Some(N.ListValue(0, Some(2)))]), [Some(1), Some(2)])
    ensures s1.Wf() && NStep(s1, New(1, 0), 1) == Done(s2)
  {
    var r := NStep(s1, New(1, 0), 1).state;
    assert r.heap.nodes == s2.heap.nodes && r.heap.lists == s2.heap.lists && r.vars == s2.vars;
  }
}
