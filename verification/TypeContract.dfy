/** What each command of the type-instance contract does, by positions in the lists; a list starts with its
    sentinel, and its first instance stands behind it. */
module TypeContract {
  import opened Common
  import opened Outcomes
  import opened TypeSpec

  /** One variable was assigned, the lists stayed. */
  predicate Assigned(s: SpecState, u: SpecState, d: nat, h: Handle) {
    && u.lists == s.lists && |u.vars| == |s.vars| && d < |s.vars| && u.vars[d] == h
    && forall i | 0 <= i < |s.vars| && i != d :: u.vars[i] == s.vars[i]
  }

  /** One list became `chain`, all others stayed, and so did the types of the instances. */
  predicate Relisted(a: Lists, b: Lists, t: nat, chain: seq<Node>) {
    && |b.chains| == |a.chains| && t < |a.chains| && b.chains[t] == chain
    && forall i | 0 <= i < |a.chains| && i != t :: b.chains[i] == a.chains[i]
  }

  /** A new instance is the last of its list, and the variable holds it. */
  lemma NewIsLast(s: SpecState, d: nat, t: nat)
    requires d < |s.vars| && t < |s.lists.chains|
    ensures var n, r := |s.lists.typeOf|, SpecStep(s, New(d, t));
      && r.Done? && Relisted(s.lists, r.state.lists, t, s.lists.chains[t] + [Inst(n)])
      && r.state.lists.typeOf == s.lists.typeOf + [t]
      && Assigned(s.(lists := r.state.lists), r.state, d, Ref(Inst(n)))
  {
  }

  /** First and Last read the two ends, Null from a list without instances. */
  lemma EndsRead(s: SpecState, d: nat, t: nat)
    requires s.lists.Valid() && d < |s.vars| && t < |s.lists.chains|
    ensures var c := s.lists.chains[t];
      var first, last := SpecStep(s, First(d, t)), SpecStep(s, Last(d, t));
      && first.Done? && Assigned(s, first.state, d, if |c| > 1 then Ref(c[1]) else Null)
      && last.Done? && Assigned(s, last.state, d, if |c| > 1 then Ref(c[|c| - 1]) else Null)
  {
    assert s.lists.ValidChain(t);
    AtPos(s.lists, t, |s.lists.chains[t]| - 1);
  }

  /** From position `k` of a list, Next reads the one behind and Previous the instance in front, Null where there is
      none; the check accepts instances only. */
  lemma NeighboursRead(s: SpecState, d: nat, v: nat, t: nat, k: nat)
    requires s.lists.Valid() && d < |s.vars| && v < |s.vars| && t < |s.lists.chains| && k < |s.lists.chains[t]|
    requires s.vars[v] == Ref(s.lists.chains[t][k])
    ensures var c := s.lists.chains[t];
      var next, previous := SpecStep(s, Next(d, v)), SpecStep(s, Previous(d, v));
      && next.Done? && Assigned(s, next.state, d, if k + 1 < |c| then Ref(c[k + 1]) else Null)
      && previous.Done? && Assigned(s, previous.state, d, if k > 1 then Ref(c[k - 1]) else Null)
      && SpecStep(s, Check(v)) == if k == 0 then Trapped(NullDeref) else Done(s)
  {
    AtPos(s.lists, t, k);
    if k > 0 { AtPos(s.lists, t, k - 1); }
    hide PrevOf, NextOf, Lists.Live, Lists.Valid;
  }

  /** Deleting takes the instance at `k` out of its list, and a deleting variable then holds the node in front; the
      sentinel cannot be deleted. */
  lemma DeleteTakesOut(s: SpecState, v: nat, t: nat, k: nat)
    requires s.lists.Valid() && v < |s.vars| && t < |s.lists.chains| && k < |s.lists.chains[t]|
    requires s.vars[v] == Ref(s.lists.chains[t][k])
    ensures var c := s.lists.chains[t];
      var byValue, byVar := SpecStep(s, DeleteValue(v)), SpecStep(s, DeleteVar(v));
      if k == 0 then byValue == Trapped(DoubleDelete) && byVar == Trapped(DoubleDelete)
      else
        && byValue.Done? && Relisted(s.lists, byValue.state.lists, t, c[..k] + c[k + 1..])
        && byValue.state.lists.typeOf == s.lists.typeOf && byValue.state.vars == s.vars
        && byVar.Done? && byVar.state.lists == byValue.state.lists
        && Assigned(byValue.state, byVar.state, v, Ref(c[k - 1]))
  {
    AtPos(s.lists, t, k);
    hide PrevOf, NextOf, Lists.Live, Lists.Valid;
  }

  /** Null and deleted instances: reads from Null give Null, and every other use traps. */
  lemma NothingThere(s: SpecState, d: nat, v: nat)
    requires d < |s.vars| && v < |s.vars|
    requires s.vars[v].Ref? ==> !s.lists.Live(s.vars[v].node)
    ensures var next, previous := SpecStep(s, Next(d, v)), SpecStep(s, Previous(d, v));
      var isNull := s.vars[v] == Null;
      && (if isNull then next.Done? && previous.Done? && Assigned(s, next.state, d, Null) && Assigned(s, previous.state, d, Null)
          else next == Trapped(DeletedAccess) && previous == Trapped(DeletedAccess))
      && SpecStep(s, Check(v)) == Trapped(if isNull then NullDeref else DeletedAccess)
      && SpecStep(s, DeleteValue(v)) == Trapped(if isNull then NullDeref else DoubleDelete)
      && SpecStep(s, DeleteVar(v)) == Trapped(if isNull then NullDeref else DoubleDelete)
  {
    hide Lists.Live;
  }

  /** A program is run in order: first one part, then, if it completes, the other. */
  lemma {:induction false} RunInOrder(s: SpecState, cs: seq<Cmd>, ds: seq<Cmd>)
    requires CmdsOk(cs, |s.vars|, |s.lists.chains|) && CmdsOk(ds, |s.vars|, |s.lists.chains|)
    ensures CmdsOk(cs + ds, |s.vars|, |s.lists.chains|)
    ensures var r := SpecRun(s, cs);
      SpecRun(s, cs + ds) == if r.Done? then SpecRun(r.state, ds) else r
    decreases |ds|
  {
    hide SpecStep;
    if ds == [] {
      assert cs + ds == cs;
    } else {
      var front := ds[..|ds| - 1];
      assert forall c | c in front :: c in ds;
      RunInOrder(s, cs, front);
      assert (cs + ds)[..|cs + ds| - 1] == cs + front;
    }
  }
}
