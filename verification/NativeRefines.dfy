/** The native runtime's pointer nodes implement the same reference lists. */
module NativeRefines {
  import opened Common
  import opened Outcomes
  import opened TypeSpec
  import N = NativeHeap

  /** `addrs[n]` is the node made for the n-th instance; `who[p]` the node at address p. */
  datatype Names = Names(addrs: seq<nat>, who: seq<Node>)

  predicate Created(h: N.HeapValue, t: nat) {
    t < |h.lists| && h.lists[t].Some?
  }

  /** The pointer to a node, null for the sentinel of a list not created yet. */
  function AddrOf(h: N.HeapValue, g: Names, x: Node): Option<nat> {
    match x
    case Head(t) => if Created(h, t) then Some(h.lists[t].value.sentinel) else None
    case Inst(n) => if n < |g.addrs| then Some(g.addrs[n]) else None
  }

  function AddrOpt(h: N.HeapValue, g: Names, x: Option<Node>): Option<nat> {
    if x.Some? then AddrOf(h, g, x.value) else None
  }

  predicate HasAddr(h: N.HeapValue, g: Names, x: Node) {
    var p := AddrOf(h, g, x);
    p.Some? && p.value < |h.nodes| && p.value < |g.who| && g.who[p.value] == x
  }

  ghost predicate NodeOk(h: N.HeapValue, g: Names, a: Lists, x: Node)
    requires a.Live(x)
  {
    && HasAddr(h, g, x)
    && h.nodes[AddrOf(h, g, x).value] ==
         N.Header(a.TypeOf(x), AddrOpt(h, g, PrevOf(a, x)), AddrOpt(h, g, NextOf(a, x)), false, x.Head?)
  }

  ghost predicate ListOk(h: N.HeapValue, g: Names, a: Lists, t: nat)
    requires t < |a.chains|
  {
    if Created(h, t) then
      h.lists[t].value.tail == if LastOf(a, t).Head? then None else AddrOf(h, g, LastOf(a, t))
    else LastOf(a, t).Head?
  }

  /** A node once made is still there; a deleted one says so. */
  ghost predicate MadeOk(h: N.HeapValue, g: Names, a: Lists, n: nat)
    requires n < |a.typeOf|
  {
    && HasAddr(h, g, Inst(n)) && Created(h, a.typeOf[n])
    && (!a.Live(Inst(n)) ==> h.nodes[AddrOf(h, g, Inst(n)).value].deleted)
  }

  ghost predicate Refines(h: N.HeapValue, g: Names, a: Lists) {
    && a.Valid() && h.Wf() && |g.addrs| == |a.typeOf| && |g.who| == |h.nodes| && |h.lists| <= |a.chains|
    && (forall n | 0 <= n < |a.typeOf| :: MadeOk(h, g, a, n))
    && (forall x | a.Live(x) && Created(h, a.TypeOf(x)) :: NodeOk(h, g, a, x))
    && (forall t | 0 <= t < |a.chains| :: ListOk(h, g, a, t))
  }

  // ── New ────────────────────────────────────────────────────────────────

  /** What the first use of type t adds to the heap. */
  ghost predicate Ensured(h: N.HeapValue, t: nat, h': N.HeapValue) {
    && (forall u: nat :: Created(h', u) <==> Created(h, u) || u == t) && |h'.lists| <= (if t < |h.lists| then |h.lists| else t + 1)
    && (forall u: nat | Created(h, u) :: h'.lists[u] == h.lists[u])
    && (Created(h, t) ==> h'.nodes == h.nodes)
    && (!Created(h, t) ==>
          && h'.nodes == h.nodes + [N.Header(t, None, None, false, true)]
          && h'.lists[t] == Some(N.ListValue(|h.nodes|, None)))
  }

  lemma EnsureShape(h: N.HeapValue, t: nat)
    requires h.Wf()
    ensures Ensured(h, t, N.EnsureList(h, t)) && N.EnsureList(h, t).Wf()
  {
  }

  lemma OnlySentinel(a: Lists, x: Node)
    requires a.Valid() && a.Live(x) && LastOf(a, a.TypeOf(x)).Head?
    ensures x == Head(a.TypeOf(x)) && NextOf(a, x) == None && PrevOf(a, x) == None
  {
    var t := a.TypeOf(x);
    AtPos(a, t, |a.chains[t]| - 1);
    Linked(a, x);
  }

  lemma EnsureNode(h: N.HeapValue, g: Names, a: Lists, t: nat, h': N.HeapValue, g': Names, x: Node)
    requires Refines(h, g, a) && t < |a.chains| && Ensured(h, t, h')
    requires g' == if Created(h, t) then g else Names(g.addrs, g.who + [Head(t)])
    requires a.Live(x) && Created(h', a.TypeOf(x))
    ensures NodeOk(h', g', a, x)
  {
    Linked(a, x);
    hide PrevOf, NextOf, LastOf, Pos, Distinct, Lists.Valid, MadeOk, N.HeapValue.Wf;
    if Created(h, a.TypeOf(x)) {
      assert NodeOk(h, g, a, x);
      if PrevOf(a, x).Some? { assert NodeOk(h, g, a, PrevOf(a, x).value); }
    } else {
      assert ListOk(h, g, a, t);
      OnlySentinel(a, x);
    }
  }

  /** Creating a list on first use changes nothing the program can see. */
  lemma EnsureRefines(h: N.HeapValue, g: Names, a: Lists, t: nat) returns (g': Names)
    requires Refines(h, g, a) && t < |a.chains|
    ensures Refines(N.EnsureList(h, t), g', a) && g'.addrs == g.addrs
    ensures forall u: nat :: Created(h, u) ==> Created(N.EnsureList(h, t), u)
  {
    var h' := N.EnsureList(h, t);
    EnsureShape(h, t);
    hide N.EnsureList, PrevOf, NextOf, Pos, Distinct, Lists.ValidChain, N.HeapValue.Wf;
    g' := if Created(h, t) then g else Names(g.addrs, g.who + [Head(t)]);
    forall x | a.Live(x) && Created(h', a.TypeOf(x)) ensures NodeOk(h', g', a, x) {
      EnsureNode(h, g, a, t, h', g', x);
    }
    forall n | 0 <= n < |a.typeOf| ensures MadeOk(h', g', a, n) {
      assert MadeOk(h, g, a, n);
    }
    forall u | 0 <= u < |a.chains| ensures ListOk(h', g', a, u) {
      assert ListOk(h, g, a, u);
      SentinelLive(a, u);
      if Created(h, u) { assert NodeOk(h, g, a, LastOf(a, u)); }
    }
  }

  ghost predicate Appended(h: N.HeapValue, t: nat, last: nat, h': N.HeapValue) {
    && Created(h, t) && last < |h.nodes| && |h'.nodes| == |h.nodes| + 1
    && h'.lists == h.lists[t := Some(h.lists[t].value.(tail := Some(|h.nodes|)))]
    && h'.nodes[|h.nodes|] == N.Header(t, Some(last), None, false, false)
    && (forall i | 0 <= i < |h.nodes| :: h'.nodes[i] == if i == last then h.nodes[i].(next := Some(|h.nodes|)) else h.nodes[i])
  }

  /** The appended state: everything the two lemmas below need of it. */
  ghost predicate Appending(h: N.HeapValue, g: Names, a: Lists, t: nat, h': N.HeapValue, g': Names) {
    && Refines(h, g, a) && t < |a.chains| && HasAddr(h, g, LastOf(a, t))
    && Appended(h, t, AddrOf(h, g, LastOf(a, t)).value, h')
    && g' == Names(g.addrs + [|h.nodes|], g.who + [Inst(|a.typeOf|)])
    && SpecNew(a, t).Valid()
  }

  lemma SameAddr(h: N.HeapValue, g: Names, a: Lists, t: nat, h': N.HeapValue, g': Names)
    requires Appending(h, g, a, t, h', g')
    ensures forall x :: AddrOf(h', g', x) == if x == Inst(|a.typeOf|) then Some(|h.nodes|) else AddrOf(h, g, x)
    ensures forall x :: HasAddr(h, g, x) ==> HasAddr(h', g', x)
    ensures HasAddr(h', g', Inst(|a.typeOf|))
    ensures forall u: nat :: Created(h', u) <==> Created(h, u)
  {
  }

  lemma NewNode(h: N.HeapValue, g: Names, a: Lists, t: nat, h': N.HeapValue, g': Names, y: Node)
    requires Appending(h, g, a, t, h', g')
    requires SpecNew(a, t).Live(y) && Created(h', SpecNew(a, t).TypeOf(y))
    ensures NodeOk(h', g', SpecNew(a, t), y)
  {
    NewLinks(a, t, y);
    SentinelLive(a, t);
    SameAddr(h, g, a, t, h', g');
    hide PrevOf, NextOf, LastOf, Pos, Distinct, Lists.Valid, SpecNew, MadeOk, N.HeapValue.Wf, AddrOf;
    assert NodeOk(h, g, a, LastOf(a, t));
    if y != Inst(|a.typeOf|) {
      Linked(a, y);
      assert NodeOk(h, g, a, y);
      assert a.Known(y);
    }
  }

  lemma NewRefines(h: N.HeapValue, g: Names, a: Lists, t: nat) returns (g': Names)
    requires Refines(h, g, a) && t < |a.chains|
    ensures var h' := N.New(h, t); Refines(h', g', SpecNew(a, t)) && g'.addrs == g.addrs + [|h'.nodes| - 1]
    ensures forall u: nat :: Created(h, u) ==> Created(N.New(h, t), u)
  {
    var g1 := EnsureRefines(h, g, a, t);
    var h1, h' := N.EnsureList(h, t), N.New(h, t);
    NewKeepsValid(a, t);
    SentinelLive(a, t);
    assert ListOk(h1, g1, a, t);
    assert NodeOk(h1, g1, a, LastOf(a, t));
    SentinelAddr(h1, g1, a, t);
    g' := Names(g1.addrs + [|h1.nodes|], g1.who + [Inst(|a.typeOf|)]);
    assert Appending(h1, g1, a, t, h', g');
    AppendRefines(h1, g1, a, t, h', g');
  }

  lemma SentinelAddr(h: N.HeapValue, g: Names, a: Lists, t: nat)
    requires Refines(h, g, a) && t < |a.chains| && Created(h, t)
    ensures LastOf(a, t).Head? ==> AddrOf(h, g, LastOf(a, t)) == Some(h.lists[t].value.sentinel)
  {
    SentinelLive(a, t);
  }

  lemma AppendRefines(h: N.HeapValue, g: Names, a: Lists, t: nat, h': N.HeapValue, g': Names)
    requires Appending(h, g, a, t, h', g') && h'.Wf()
    ensures Refines(h', g', SpecNew(a, t))
    ensures forall u: nat :: Created(h, u) ==> Created(h', u)
  {
    var b := SpecNew(a, t);
    NewKeepsValid(a, t);
    SameAddr(h, g, a, t, h', g');
    hide PrevOf, NextOf, Pos, Distinct, Lists.ValidChain, N.HeapValue.Wf, AddrOf;
    forall y | b.Live(y) && Created(h', b.TypeOf(y)) ensures NodeOk(h', g', b, y) {
      NewNode(h, g, a, t, h', g', y);
    }
    forall u | 0 <= u < |b.chains| ensures ListOk(h', g', b, u) {
      assert ListOk(h, g, a, u);
      SentinelLive(a, u);
    }
    forall n | 0 <= n < |b.typeOf| ensures MadeOk(h', g', b, n) {
      if n < |a.typeOf| { assert MadeOk(h, g, a, n); }
    }
  }

  // ── Delete ─────────────────────────────────────────────────────────────

  ghost predicate Unlinked(h: N.HeapValue, t: nat, prev: nat, node: nat, next: Option<nat>, h': N.HeapValue) {
    && Created(h, t) && prev < |h.nodes| && node < |h.nodes| && prev != node && (next.Some? ==> next.value < |h.nodes|)
    && next != Some(node) && next != Some(prev)
    && |h'.nodes| == |h.nodes| && h'.nodes[node].deleted
    && h'.lists == h.lists[t := Some(h.lists[t].value.(tail :=
         if h.lists[t].value.tail != Some(node) then h.lists[t].value.tail
         else if h.nodes[prev].isSentinel then None else Some(prev)))]
    && (forall i | 0 <= i < |h.nodes| && i != node :: h'.nodes[i] ==
          if i == prev then h.nodes[i].(next := next)
          else if Some(i) == next then h.nodes[i].(prev := Some(prev))
          else h.nodes[i])
  }

  lemma DeleteNodes(h: N.HeapValue, t: nat, prev: nat, node: nat, next: Option<nat>)
    requires h.Wf() && Created(h, t) && node < |h.nodes| && prev < |h.nodes| && (next.Some? ==> next.value < |h.nodes|)
    requires h.nodes[node] == N.Header(t, Some(prev), next, false, false)
    requires prev != node && next != Some(node) && next != Some(prev)
    ensures var r := N.Delete(h, Some(node)); r.Done? && r.state.1 == prev && Unlinked(h, t, prev, node, next, r.state.0)
  {
  }

  ghost predicate Deleting(h: N.HeapValue, g: Names, a: Lists, x: Node, h': N.HeapValue) {
    && Refines(h, g, a) && a.Live(x) && x.Inst? && SpecRemove(a, x).Valid()
    && HasAddr(h, g, x) && PrevOf(a, x).Some? && HasAddr(h, g, PrevOf(a, x).value)
    && Unlinked(h, a.TypeOf(x), AddrOf(h, g, PrevOf(a, x).value).value, AddrOf(h, g, x).value, AddrOpt(h, g, NextOf(a, x)), h')
  }

  lemma StartDelete(h: N.HeapValue, g: Names, a: Lists, x: Node) returns (h': N.HeapValue)
    requires Refines(h, g, a) && a.Live(x) && x.Inst?
    ensures Deleting(h, g, a, x, h') && h'.Wf()
    ensures N.Delete(h, AddrOf(h, g, x)) == Done((h', AddrOf(h, g, SpecRewind(a, x)).value))
  {
    Linked(a, x);
    RemoveKeepsValid(a, x);
    var p, n := PrevOf(a, x).value, NextOf(a, x);
    assert MadeOk(h, g, a, x.serial);
    assert NodeOk(h, g, a, x) && NodeOk(h, g, a, p);
    if n.Some? { assert NodeOk(h, g, a, n.value); }
    DeleteNodes(h, a.TypeOf(x), AddrOf(h, g, p).value, AddrOf(h, g, x).value, AddrOpt(h, g, n));
    h' := N.Delete(h, AddrOf(h, g, x)).state.0;
  }

  lemma SameAddrAfterDelete(h: N.HeapValue, g: Names, a: Lists, x: Node, h': N.HeapValue)
    requires Deleting(h, g, a, x, h')
    ensures forall y :: AddrOf(h', g, y) == AddrOf(h, g, y)
    ensures forall u: nat :: Created(h', u) <==> Created(h, u)
  {
  }

  lemma DeleteNode(h: N.HeapValue, g: Names, a: Lists, x: Node, h': N.HeapValue, y: Node)
    requires Deleting(h, g, a, x, h') && a.Live(y) && y != x && Created(h, a.TypeOf(y))
    requires SpecRemove(a, x).Live(y)
    ensures NodeOk(h', g, SpecRemove(a, x), y)
  {
    hide PrevOf, NextOf, LastOf, Pos, Distinct, Lists.ValidChain, RemoveAt, MadeOk, ListOk;
    RemoveLinks(a, x, y);
    Linked(a, y);
    Linked(a, x);
    SameAddrAfterDelete(h, g, a, x, h');
    hide Lists.Valid, SpecRemove, N.HeapValue.Wf, AddrOf;
    assert NodeOk(h, g, a, y) && NodeOk(h, g, a, x) && NodeOk(h, g, a, PrevOf(a, x).value);
    if NextOf(a, x).Some? { assert NodeOk(h, g, a, NextOf(a, x).value); }
  }

  lemma DeleteRefines(h: N.HeapValue, g: Names, a: Lists, x: Node) returns (h': N.HeapValue)
    requires Refines(h, g, a) && a.Live(x) && x.Inst?
    ensures HasAddr(h, g, x) && AddrOf(h, g, SpecRewind(a, x)).Some?
    ensures N.Delete(h, AddrOf(h, g, x)) == Done((h', AddrOf(h, g, SpecRewind(a, x)).value))
    ensures Refines(h', g, SpecRemove(a, x)) && AddrOf(h', g, SpecRewind(a, x)) == AddrOf(h, g, SpecRewind(a, x))
    ensures SpecRemove(a, x).Live(SpecRewind(a, x))
    ensures forall u: nat :: Created(h, u) ==> Created(h', u)
  {
    h' := StartDelete(h, g, a, x);
    Linked(a, x);
    RemoveKeepsValid(a, x);
    SameAddrAfterDelete(h, g, a, x, h');
    UnlinkedRefines(h, g, a, x, h');
  }

  lemma UnlinkedRefines(h: N.HeapValue, g: Names, a: Lists, x: Node, h': N.HeapValue)
    requires Deleting(h, g, a, x, h') && h'.Wf()
    ensures Refines(h', g, SpecRemove(a, x))
  {
    var b := SpecRemove(a, x);
    RemoveKeepsValid(a, x);
    SameAddrAfterDelete(h, g, a, x, h');
    hide N.Delete, PrevOf, NextOf, LastOf, Pos, Distinct, Lists.ValidChain, N.HeapValue.Wf;
    forall y | b.Live(y) && Created(h', b.TypeOf(y)) ensures NodeOk(h', g, b, y) {
      DeleteNode(h, g, a, x, h', y);
    }
    forall u | 0 <= u < |b.chains| ensures ListOk(h', g, b, u) {
      DeleteList(h, g, a, x, h', u);
    }
    forall n | 0 <= n < |b.typeOf| ensures MadeOk(h', g, b, n) {
      assert MadeOk(h, g, a, n);
    }
  }

  lemma DeleteList(h: N.HeapValue, g: Names, a: Lists, x: Node, h': N.HeapValue, u: nat)
    requires Deleting(h, g, a, x, h') && u < |a.chains|
    ensures ListOk(h', g, SpecRemove(a, x), u)
  {
    RemoveLast(a, x, u);
    Linked(a, x);
    SentinelLive(a, u);
    SentinelLive(SpecRemove(a, x), u);
    SameAddrAfterDelete(h, g, a, x, h');
    assert ListOk(h, g, a, u) && NodeOk(h, g, a, PrevOf(a, x).value);
    if Created(h, u) { assert NodeOk(h, g, a, LastOf(a, u)); }
  }

  // ── Reads ──────────────────────────────────────────────────────────────

  /** A handle the native program can hold: its list has been created. */
  ghost predicate KnownHandle(h: N.HeapValue, a: Lists, v: Handle) {
    v.Ref? ==> a.Known(v.node) && Created(h, a.TypeOf(v.node))
  }

  function PtrOf(h: N.HeapValue, g: Names, v: Handle): Option<nat> {
    if v.Null? then None else AddrOf(h, g, v.node)
  }

  lemma Addressed(h: N.HeapValue, g: Names, a: Lists, v: Handle)
    requires Refines(h, g, a) && KnownHandle(h, a, v)
    ensures v.Ref? ==> HasAddr(h, g, v.node)
  {
    if v.Ref? {
      if v.node.Inst? {
        assert MadeOk(h, g, a, v.node.serial);
      } else {
        SentinelLive(a, v.node.typeDef);
        assert NodeOk(h, g, a, v.node);
      }
    }
  }

  lemma FirstLastRefine(h: N.HeapValue, g: Names, a: Lists, t: nat)
    requires Refines(h, g, a) && t < |a.chains|
    ensures KnownHandle(h, a, SpecFirst(a, t)) && KnownHandle(h, a, SpecLast(a, t))
    ensures N.First(h, t) == PtrOf(h, g, SpecFirst(a, t))
    ensures N.Last(h, t) == PtrOf(h, g, SpecLast(a, t))
  {
    SentinelLive(a, t);
    Linked(a, Head(t));
    assert ListOk(h, g, a, t);
    if Created(h, t) {
      assert NodeOk(h, g, a, Head(t));
    }
  }

  /** The reading entry points answer as the reference lists do, traps included. */
  lemma StepRefines(h: N.HeapValue, g: Names, a: Lists, v: Handle)
    requires Refines(h, g, a) && KnownHandle(h, a, v)
    ensures v.Ref? ==> HasAddr(h, g, v.node)
    ensures var s := SpecNext(a, v);
      !s.Panicked? && (s.Done? ==> KnownHandle(h, a, s.state)) &&
      N.Next(h, PtrOf(h, g, v)) == if s.Done? then Done(PtrOf(h, g, s.state)) else Trapped(s.trap)
    ensures var s := SpecPrevious(a, v);
      !s.Panicked? && (s.Done? ==> KnownHandle(h, a, s.state)) &&
      N.Previous(h, PtrOf(h, g, v)) == if s.Done? then Done(PtrOf(h, g, s.state)) else Trapped(s.trap)
    ensures N.Check(h, PtrOf(h, g, v)) == SpecCheck(a, v)
  {
    Addressed(h, g, a, v);
    if v.Ref? {
      if a.Live(v.node) {
        Linked(a, v.node);
        assert NodeOk(h, g, a, v.node);
        if PrevOf(a, v.node).Some? {
          assert NodeOk(h, g, a, PrevOf(a, v.node).value);
        }
      } else if v.node.Head? {
        SentinelLive(a, v.node.typeDef);
      } else {
        assert MadeOk(h, g, a, v.node.serial);
      }
    }
  }
}
