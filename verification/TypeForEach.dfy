/** `For Each v = Each T` with a body that deletes through `v`: the command sequence the
    lowering produces for one run of the loop, on the reference lists and on both runtimes. */
module TypeForEach {
  import opened Common
  import opened Outcomes
  import opened TypeSpec
  import opened TypeSimulation
  import I = InterpHeap
  import N = NativeHeap
  import IR = InterpRefines
  import NR = NativeRefines

  /** One pass through body and step; the body deletes `v` or leaves it. */
  function Turn(v: nat, del: bool): seq<Cmd> {
    if del then [DeleteVar(v), Next(v, v)] else [Next(v, v)]
  }

  /** The loop up to its |dels|-th test: `dels[i]` says what the body does at the i-th visit. */
  function Loop(v: nat, t: nat, dels: seq<bool>): seq<Cmd>
    decreases |dels|
  {
    if dels == [] then [First(v, t)] else Loop(v, t, dels[..|dels| - 1]) + Turn(v, dels[|dels| - 1])
  }

  /** The elements not marked. */
  function Kept<T>(l: seq<T>, dels: seq<bool>): seq<T>
    requires |l| == |dels|
  {
    if l == [] then []
    else
      var n := |l| - 1;
      Kept(l[..n], dels[..n]) + if dels[n] then [] else [l[n]]
  }

  /** The instances of a type, in list order. */
  function Instances(a: Lists, t: nat): seq<Node>
    requires t < |a.chains| && |a.chains[t]| > 0
  {
    a.chains[t][1..]
  }

  /** The state at the i-th test of the loop: the first i instances are gone through, the ones
      deleted there are gone, and the variable is on the next instance. */
  function AtTest(m: SpecState, v: nat, t: nat, dels: seq<bool>): SpecState
    requires v < |m.vars| && t < |m.lists.chains| && 0 < |m.lists.chains[t]| && |dels| < |m.lists.chains[t]|
  {
    var l, i := Instances(m.lists, t), |dels|;
    SpecState(m.lists.(chains := m.lists.chains[t := [Head(t)] + Kept(l[..i], dels) + l[i..]]),
              m.vars[v := if i < |l| then Ref(l[i]) else Null])
  }

  /** The key step: after a delete, `Next` of the rewound variable is the deleted node's `Next`,
      also when the node was the first of its list. */
  lemma NextAfterRewind(a: Lists, x: Node)
    requires a.Valid() && a.Live(x) && x.Inst?
    ensures SpecRemove(a, x).Live(SpecRewind(a, x))
    ensures SpecNext(SpecRemove(a, x), Ref(SpecRewind(a, x))) == SpecNext(a, Ref(x))
  {
    Linked(a, x);
    RemoveKeepsValid(a, x);
    RemoveLinks(a, x, SpecRewind(a, x));
  }

  lemma {:induction false} KeptInOrder(l: seq<Node>, dels: seq<bool>)
    requires |l| == |dels|
    ensures |Kept(l, dels)| <= |l| && forall y | y in Kept(l, dels) :: y in l
  {
    if l != [] {
      KeptInOrder(l[..|l| - 1], dels[..|l| - 1]);
    }
  }

  lemma SnocShape(h: Node, l: seq<Node>, dels: seq<bool>)
    requires 0 < |dels| <= |l|
    ensures var i := |dels| - 1;
      var kept := Kept(l[..i], dels[..i]);
      var c, p := [h] + kept + l[i..], 1 + |kept|;
      && p < |c| && c[p] == l[i]
      && [h] + Kept(l[..|dels|], dels) + l[|dels|..] == (if dels[i] then RemoveAt(c, p) else c)
      && (i + 1 < |l| <==> p + 1 < |c|) && (i + 1 < |l| ==> c[p + 1] == l[i + 1])
  {
    var i := |dels| - 1;
    assert l[..i + 1][..i] == l[..i];
    assert Kept(l[..|dels|], dels) == Kept(l[..i], dels[..i]) + if dels[i] then [] else [l[i]];
    hide Kept;
    OneFurther(h, Kept(l[..i], dels[..i]), l, i, dels[i]);
  }

  lemma OneFurther(h: Node, kept: seq<Node>, l: seq<Node>, i: nat, del: bool)
    requires i < |l|
    ensures var c, p := [h] + kept + l[i..], 1 + |kept|;
      && p < |c| && c[p] == l[i]
      && [h] + (kept + if del then [] else [l[i]]) + l[i + 1..] == (if del then RemoveAt(c, p) else c)
      && (i + 1 < |l| <==> p + 1 < |c|) && (i + 1 < |l| ==> c[p + 1] == l[i + 1])
  {
    var c, p := [h] + kept + l[i..], 1 + |kept|;
    assert l[i..] == [l[i]] + l[i + 1..];
    assert c[..p] == [h] + kept && c[p + 1..] == l[i + 1..];
    if !del { assert [h] + (kept + [l[i]]) + l[i + 1..] == [h] + kept + ([l[i]] + l[i + 1..]); }
  }

  lemma TestSnoc(m: SpecState, v: nat, t: nat, dels: seq<bool>)
    requires v < |m.vars| && t < |m.lists.chains| && m.lists.Valid() && 0 < |dels| < |m.lists.chains[t]|
    ensures var i := |dels| - 1; var l, s := Instances(m.lists, t), AtTest(m, v, t, dels[..i]);
      var p := 1 + |Kept(l[..i], dels[..i])|;
      && s.lists.chains[t][p] == l[i] && s.vars[v] == Ref(l[i])
      && AtTest(m, v, t, dels).lists.chains[t] == (if dels[i] then RemoveAt(s.lists.chains[t], p) else s.lists.chains[t])
      && (i + 1 < |l| <==> p + 1 < |s.lists.chains[t]|) && (i + 1 < |l| ==> s.lists.chains[t][p + 1] == l[i + 1])
  {
    hide Lists.Valid, Lists.ValidChain, Distinct, Kept, RemoveAt;
    SnocShape(Head(t), Instances(m.lists, t), dels);
  }

  /** One turn takes the state of one test to the next. */
  lemma TurnMoves(m: SpecState, v: nat, t: nat, dels: seq<bool>)
    requires v < |m.vars| && t < |m.lists.chains| && m.lists.Valid() && 0 < |dels| < |m.lists.chains[t]|
    requires AtTest(m, v, t, dels[..|dels| - 1]).lists.Valid()
    ensures var i := |dels| - 1; var s, s' := AtTest(m, v, t, dels[..i]), AtTest(m, v, t, dels);
      && s.vars[v].Ref? && s.lists.Live(s.vars[v].node) && s.vars[v].node == Instances(m.lists, t)[i] && s.vars[v].node.Inst?
      && s'.lists.Valid()
      && (if dels[i] then
            SpecStep(s, DeleteVar(v)).Done? && SpecStep(SpecStep(s, DeleteVar(v)).state, Next(v, v)) == Done(s')
          else SpecStep(s, Next(v, v)) == Done(s'))
  {
    hide Lists.Valid, Lists.ValidChain, Distinct, Kept, PrevOf, NextOf, Pos;
    var i := |dels| - 1;
    var l, s, s' := Instances(m.lists, t), AtTest(m, v, t, dels[..i]), AtTest(m, v, t, dels);
    TestSnoc(m, v, t, dels);
    TurnStart(m, v, t, dels);
    var p := 1 + |Kept(l[..i], dels[..i])|;
    var h := if i + 1 < |l| then Ref(l[i + 1]) else Null;
    TestChanges(m, v, t, dels);
    hide AtTest, RemoveAt;
    if dels[i] {
      TurnDeletes(s, v, t, p, h, s');
    }
  }

  /** What two tests have in common, and how they differ. */
  lemma TestChanges(m: SpecState, v: nat, t: nat, dels: seq<bool>)
    requires v < |m.vars| && t < |m.lists.chains| && m.lists.Valid() && 0 < |dels| < |m.lists.chains[t]|
    ensures var i := |dels| - 1; var l, s, s' := Instances(m.lists, t), AtTest(m, v, t, dels[..i]), AtTest(m, v, t, dels);
      && s'.vars == s.vars[v := if i + 1 < |l| then Ref(l[i + 1]) else Null] && |s.vars| == |m.vars|
      && s'.lists.typeOf == s.lists.typeOf && |s'.lists.chains| == |s.lists.chains| == |m.lists.chains|
      && (forall u | 0 <= u < |m.lists.chains| && u != t :: s'.lists.chains[u] == s.lists.chains[u])
      && (!dels[i] ==> s'.lists.chains == s.lists.chains)
  {
    hide Lists.Valid, Lists.ValidChain, Distinct, Kept, RemoveAt;
    TestSnoc(m, v, t, dels);
  }

  /** Where the variable stands at a test, and what follows there. */
  lemma TurnStart(m: SpecState, v: nat, t: nat, dels: seq<bool>)
    requires v < |m.vars| && t < |m.lists.chains| && m.lists.Valid() && 0 < |dels| < |m.lists.chains[t]|
    requires AtTest(m, v, t, dels[..|dels| - 1]).lists.Valid()
    ensures var i := |dels| - 1; var l, s := Instances(m.lists, t), AtTest(m, v, t, dels[..i]);
      && s.vars[v] == Ref(l[i]) && l[i].Inst? && s.lists.Live(l[i]) && s.lists.TypeOf(l[i]) == t
      && Pos(s.lists.chains[t], l[i]) == 1 + |Kept(l[..i], dels[..i])|
      && SpecNext(s.lists, Ref(l[i])) == Done(if i + 1 < |l| then Ref(l[i + 1]) else Null)
  {
    hide Lists.Valid, Lists.ValidChain, Distinct, Kept;
    var i := |dels| - 1;
    var l, s := Instances(m.lists, t), AtTest(m, v, t, dels[..i]);
    TestSnoc(m, v, t, dels);
    AtPos(s.lists, t, 1 + |Kept(l[..i], dels[..i])|);
    AtPos(m.lists, t, i + 1);
    hide Pos, PrevOf, NextOf;
  }

  lemma TurnDeletes(s: SpecState, v: nat, t: nat, p: nat, h: Handle, s': SpecState)
    requires s.lists.Valid() && v < |s.vars| && s.vars[v].Ref? && s.lists.Live(s.vars[v].node) && s.vars[v].node.Inst?
    requires SpecNext(s.lists, s.vars[v]) == Done(h) && t == s.lists.TypeOf(s.vars[v].node) && p == Pos(s.lists.chains[t], s.vars[v].node)
    requires s'.lists.typeOf == s.lists.typeOf && |s'.lists.chains| == |s.lists.chains|
    requires forall u | 0 <= u < |s.lists.chains| && u != t :: s'.lists.chains[u] == s.lists.chains[u]
    requires s'.lists.chains[t] == RemoveAt(s.lists.chains[t], p) && s'.vars == s.vars[v := h]
    ensures SpecStep(s, DeleteVar(v)).Done? && SpecStep(SpecStep(s, DeleteVar(v)).state, Next(v, v)) == Done(s')
    ensures s'.lists.Valid()
  {
    var x := s.vars[v].node;
    NextAfterRewind(s.lists, x);
    RemoveKeepsValid(s.lists, x);
    assert SpecRemove(s.lists, x).chains == s'.lists.chains;
    hide PrevOf, NextOf, Lists.Valid;
    var d := SpecStep(s, DeleteVar(v)).state;
    assert d.vars[v := h] == s'.vars;
  }

  lemma {:induction false} TestValid(m: SpecState, v: nat, t: nat, dels: seq<bool>)
    requires v < |m.vars| && t < |m.lists.chains| && m.lists.Valid() && |dels| < |m.lists.chains[t]|
    ensures AtTest(m, v, t, dels).lists.Valid()
    decreases |dels|
  {
    if dels == [] {
      assert m.lists.ValidChain(t);
      assert [Head(t)] + [] + Instances(m.lists, t)[0..] == m.lists.chains[t];
      assert AtTest(m, v, t, dels).lists.chains == m.lists.chains;
    } else {
      TestValid(m, v, t, dels[..|dels| - 1]);
      TurnMoves(m, v, t, dels);
    }
  }

  lemma NRunSnoc(s: NState, cs: seq<Cmd>, c: Cmd, types: nat)
    requires s.Wf() && CmdsOk(cs + [c], |s.vars|, types)
    ensures CmdsOk(cs, |s.vars|, types)
    ensures var r := NRun(s, cs, types); r.Done? ==> CmdOk(c, |s.vars|, types) && NRun(s, cs + [c], types) == NStep(r.state, c, types)
  {
    hide NStep, CmdOk;
    assert forall d | d in cs :: d in cs + [c];
    assert c in cs + [c];
    assert (cs + [c])[..|cs|] == cs;
  }

  /** Both runtimes at once, with everything a further command needs to know. */
  ghost predicate Both(s: IState, g: IR.Names, n: NState, k: NR.Names, m: SpecState, cs: seq<Cmd>,
                       z: SpecState, g': IR.Names, k': NR.Names)
    requires s.heap.Wf() && n.Wf() && |n.vars| == |s.slots|
  {
    && CmdsOk(cs, |s.slots|, |s.heap.lists|)
    && |s.heap.lists| == |m.lists.chains| == |z.lists.chains| && |s.slots| == |m.vars| == |z.vars|
    && Admissible(s, m, cs) && SpecRun(m, cs) == Done(z) && IRun(s, cs).Done? && NRun(n, cs, |s.heap.lists|).Done?
    && IRel(IRun(s, cs).state, g', z) && NRel(NRun(n, cs, |s.heap.lists|).state, k', z)
    && g'.ids == g.ids && k'.addrs == k.addrs
  }

  /** A further command that creates nothing and on which the runtimes agree. */
  lemma Extend(s: IState, g: IR.Names, n: NState, k: NR.Names, m: SpecState, cs: seq<Cmd>,
               z: SpecState, g1: IR.Names, k1: NR.Names, c: Cmd) returns (g2: IR.Names, k2: NR.Names)
    requires s.heap.Wf() && n.Wf() && |n.vars| == |s.slots| && Both(s, g, n, k, m, cs, z, g1, k1)
    requires CmdOk(c, |s.slots|, |s.heap.lists|) && !c.New?
    requires Agrees(IRun(s, cs).state, z, c) && SpecStep(z, c).Done?
    ensures Both(s, g, n, k, m, cs + [c], SpecStep(z, c).state, g2, k2)
    ensures IRun(s, cs + [c]) == IStep(IRun(s, cs).state, c)
  {
    assert (cs + [c])[..|cs|] == cs;
    LastStep(s, m, cs + [c]);
    NRunSnoc(n, cs, c, |s.heap.lists|);
    g2 := IStepExact(IRun(s, cs).state, g1, z, c);
    k2 := NStepRefines(NRun(n, cs, |s.heap.lists|).state, k1, z, c);
    hide IStep, NStep, SpecStep, IRun, NRun, SpecRun, Admissible, Agrees, CmdOk, IRel, NRel;
  }

  // ── The loop on both runtimes ──────────────────────────────────────────

  lemma {:induction false} LoopFollows(s: IState, g: IR.Names, n: NState, k: NR.Names, m: SpecState, v: nat, t: nat, dels: seq<bool>)
    returns (g': IR.Names, k': NR.Names)
    requires IRel(s, g, m) && NRel(n, k, m) && v < |m.vars| && t < |m.lists.chains| && |dels| < |m.lists.chains[t]|
    ensures Both(s, g, n, k, m, Loop(v, t, dels), AtTest(m, v, t, dels), g', k')
    ensures !IRun(s, Loop(v, t, dels)).state.slots[v].deleted
    decreases |dels|
  {
    if dels == [] {
      g', k' := LoopStarts(s, g, n, k, m, v, t);
    } else {
      var i := |dels| - 1;
      g', k' := LoopFollows(s, g, n, k, m, v, t, dels[..i]);
      TestValid(m, v, t, dels[..i]);
      TurnMoves(m, v, t, dels);
      var z := AtTest(m, v, t, dels[..i]);
      g', k' := TurnFollows(s, g, n, k, m, Loop(v, t, dels[..i]), z, g', k', v, dels[i], AtTest(m, v, t, dels));
    }
  }

  lemma TurnFollows(s: IState, g: IR.Names, n: NState, k: NR.Names, m: SpecState, cs: seq<Cmd>,
                    z: SpecState, g1: IR.Names, k1: NR.Names, v: nat, del: bool, z': SpecState)
    returns (g2: IR.Names, k2: NR.Names)
    requires s.heap.Wf() && n.Wf() && |n.vars| == |s.slots| && Both(s, g, n, k, m, cs, z, g1, k1) && v < |s.slots|
    requires !IRun(s, cs).state.slots[v].deleted && z.vars[v].Ref? && z.vars[v].node.Inst? && z.lists.Live(z.vars[v].node)
    requires if del then SpecStep(z, DeleteVar(v)).Done? && SpecStep(SpecStep(z, DeleteVar(v)).state, Next(v, v)) == Done(z')
             else SpecStep(z, Next(v, v)) == Done(z')
    ensures Both(s, g, n, k, m, cs + Turn(v, del), z', g2, k2)
    ensures !IRun(s, cs + Turn(v, del)).state.slots[v].deleted
  {
    hide IStep, NStep, IRun, NRun, SpecRun, Admissible, IRel, NRel, Agrees, CmdOk;
    var r := IRun(s, cs).state;
    LoopAgrees(r, g1, z, v);
    if del {
      g2, k2 := Extend(s, g, n, k, m, cs, z, g1, k1, DeleteVar(v));
      var mid := IRun(s, cs + [DeleteVar(v)]).state;
      NextAgrees(mid, SpecStep(z, DeleteVar(v)).state, v);
      g2, k2 := Extend(s, g, n, k, m, cs + [DeleteVar(v)], SpecStep(z, DeleteVar(v)).state, g2, k2, Next(v, v));
      assert cs + [DeleteVar(v)] + [Next(v, v)] == cs + Turn(v, del);
    } else {
      NextAgrees(r, z, v);
      g2, k2 := Extend(s, g, n, k, m, cs, z, g1, k1, Next(v, v));
    }
  }

  /** The loop's delete is one on which the runtimes agree. */
  lemma LoopAgrees(r: IState, g: IR.Names, z: SpecState, v: nat)
    requires IRel(r, g, z) && v < |r.slots| && z.vars[v].Ref? && z.vars[v].node.Inst? && z.lists.Live(z.vars[v].node)
    requires !r.slots[v].deleted
    ensures CmdOk(DeleteVar(v), |r.slots|, |r.heap.lists|) && Agrees(r, z, DeleteVar(v))
  {
    IReads(r, g, z, v);
  }

  /** So is a `Next` that the contract answers. */
  lemma NextAgrees(q: IState, z: SpecState, v: nat)
    requires q.heap.Wf() && v < |q.slots| == |z.vars| && SpecStep(z, Next(v, v)).Done?
    ensures CmdOk(Next(v, v), |q.slots|, |q.heap.lists|) && Agrees(q, z, Next(v, v))
    ensures var r := IStep(q, Next(v, v)); r.Done? ==> v < |r.state.slots| && !r.state.slots[v].deleted
  {
  }

  lemma LoopStarts(s: IState, g: IR.Names, n: NState, k: NR.Names, m: SpecState, v: nat, t: nat)
    returns (g': IR.Names, k': NR.Names)
    requires IRel(s, g, m) && NRel(n, k, m) && v < |m.vars| && t < |m.lists.chains| && 0 < |m.lists.chains[t]|
    ensures Both(s, g, n, k, m, [First(v, t)], AtTest(m, v, t, []), g', k')
    ensures !IRun(s, [First(v, t)]).state.slots[v].deleted
  {
    hide IStep, NStep, IRun, NRun, Admissible, Agrees, IRel, NRel;
    BothStart(s, g, n, k, m);
    FirstTest(m, v, t);
    FirstAgrees(s, m, v, t);
    assert [] + [First(v, t)] == [First(v, t)];
    g', k' := Extend(s, g, n, k, m, [], m, g, k, First(v, t));
    hide SpecStep;
  }

  lemma FirstTest(m: SpecState, v: nat, t: nat)
    requires m.lists.Valid() && v < |m.vars| && t < |m.lists.chains| && 0 < |m.lists.chains[t]|
    ensures SpecStep(m, First(v, t)) == Done(AtTest(m, v, t, []))
  {
    var a := AtTest(m, v, t, []);
    assert m.lists.ValidChain(t);
    assert [Head(t)] + [] + Instances(m.lists, t)[0..] == m.lists.chains[t];
    assert a.lists.chains == m.lists.chains;
  }

  lemma BothStart(s: IState, g: IR.Names, n: NState, k: NR.Names, m: SpecState)
    requires IRel(s, g, m) && NRel(n, k, m)
    ensures s.heap.Wf() && n.Wf() && |n.vars| == |s.slots| && |s.heap.lists| == |m.lists.chains| && |s.slots| == |m.vars|
    ensures Both(s, g, n, k, m, [], m, g, k) && IRun(s, []) == Done(s) && m.lists.Valid()
  {
  }

  lemma FirstAgrees(s: IState, m: SpecState, v: nat, t: nat)
    requires s.heap.Wf() && v < |s.slots| == |m.vars| && t < |s.heap.lists|
    ensures Agrees(s, m, First(v, t))
    ensures var r := IStep(s, First(v, t)); r.Done? ==> v < |r.state.slots| && !r.state.slots[v].deleted
  {
  }

  /** After `cs`, variable v is `h` on both runtimes, in the names the start state had. */
  ghost predicate Holds(s: IState, g: IR.Names, n: NState, k: NR.Names, cs: seq<Cmd>, v: nat, h: Handle)
    requires s.heap.Wf() && n.Wf() && v < |s.slots| && v < |n.vars|
  {
    && CmdsOk(cs, |s.slots|, |s.heap.lists|) && CmdsOk(cs, |n.vars|, |s.heap.lists|)
    && (h.Ref? ==> match h.node case Head(t) => t < |s.heap.lists| case Inst(i) => i < |g.ids|)
    && IRun(s, cs).Done? && IRun(s, cs).state.slots[v].value == IR.ValueOf(s.heap, g, h)
    && NRun(n, cs, |s.heap.lists|).Done? && NRun(n, cs, |s.heap.lists|).state.vars[v] == NR.PtrOf(n.heap, k, h)
  }

  /** Iterating while deleting any of the instances visits each instance that was in the list
      once, in order, on both runtimes, and then ends. */
  lemma ForEachVisitsAll(s: IState, g: IR.Names, n: NState, k: NR.Names, m: SpecState, v: nat, t: nat, dels: seq<bool>, i: nat)
    requires IRel(s, g, m) && NRel(n, k, m) && v < |m.vars| && t < |m.lists.chains| && |m.lists.chains[t]| > 0
    requires |dels| == |Instances(m.lists, t)| && i <= |dels|
    ensures Holds(s, g, n, k, Loop(v, t, dels[..i]), v, if i < |dels| then Ref(Instances(m.lists, t)[i]) else Null)
  {
    hide IRun, NRun, SpecRun, Admissible, Loop, IR.NodeOk, IR.TailOk, NR.NodeOk, NR.MadeOk, NR.ListOk;
    var g', k' := LoopFollows(s, g, n, k, m, v, t, dels[..i]);
    if i < |dels| { AtPos(m.lists, t, i + 1); }
  }

  /** What is left afterwards is the list of the instances not deleted. */
  lemma ForEachKeepsTheRest(s: IState, g: IR.Names, n: NState, k: NR.Names, m: SpecState, v: nat, t: nat, dels: seq<bool>)
    returns (g': IR.Names, k': NR.Names)
    requires IRel(s, g, m) && NRel(n, k, m) && v < |m.vars| && t < |m.lists.chains| && |m.lists.chains[t]| > 0
    requires |dels| == |Instances(m.lists, t)|
    ensures Both(s, g, n, k, m, Loop(v, t, dels),
                 SpecState(m.lists.(chains := m.lists.chains[t := [Head(t)] + Kept(Instances(m.lists, t), dels)]), m.vars[v := Null]),
                 g', k')
  {
    var l := Instances(m.lists, t);
    g', k' := LoopFollows(s, g, n, k, m, v, t, dels);
    assert l[..|dels|] == l && l[|dels|..] == [];
    assert [Head(t)] + Kept(l, dels) + [] == [Head(t)] + Kept(l, dels);
  }
}
