/** The contract both type-instance runtimes promise (the comment block of cb_type.h):
    per type one list of instances behind a head sentinel, handles that go stale on
    Delete, and a rewinding Delete for variables. Instances are named by creation
    order, so this reference model has no slots, generations or addresses. */
module TypeSpec {
  import opened Common
  import opened Outcomes

  datatype Node = Head(typeDef: nat) | Inst(serial: nat)

  datatype Handle = Null | Ref(node: Node)

  /** `chains[t]` is the list of type `t`, its sentinel first; `typeOf[n]` the type of
      the n-th instance ever made. */
  datatype Lists = Lists(chains: seq<seq<Node>>, typeOf: seq<nat>)
  {
    predicate Known(x: Node) {
      match x
      case Head(t) => t < |chains|
      case Inst(n) => n < |typeOf| && typeOf[n] < |chains|
    }

    function TypeOf(x: Node): nat
      requires Known(x)
    {
      match x
      case Head(t) => t
      case Inst(n) => typeOf[n]
    }

    predicate Live(x: Node) {
      Known(x) && x in chains[TypeOf(x)]
    }

    ghost predicate Valid() {
      && (forall t | 0 <= t < |chains| :: ValidChain(t))
      && (forall n | 0 <= n < |typeOf| :: typeOf[n] < |chains|)
    }

    ghost predicate ValidChain(t: nat)
      requires t < |chains|
    {
      var c := chains[t];
      && |c| > 0 && c[0] == Head(t)
      && (forall i | 0 < i < |c| :: c[i].Inst? && c[i].serial < |typeOf| && typeOf[c[i].serial] == t)
      && Distinct(c)
    }
  }

  /** The commands a compiled program issues against its type-instance variables. */
  datatype Cmd =
    | New(dst: nat, t: nat)
    | First(dst: nat, t: nat)
    | Last(dst: nat, t: nat)
    | Next(dst: nat, src: nat)
    | Previous(dst: nat, src: nat)
    | Check(src: nat)
    | DeleteValue(src: nat)
    | DeleteVar(src: nat)
    | Copy(dst: nat, src: nat)

  predicate CmdOk(c: Cmd, vars: nat, types: nat) {
    match c
    case New(d, t) => d < vars && t < types
    case First(d, t) => d < vars && t < types
    case Last(d, t) => d < vars && t < types
    case Next(d, s) => d < vars && s < vars
    case Previous(d, s) => d < vars && s < vars
    case Check(s) => s < vars
    case DeleteValue(s) => s < vars
    case DeleteVar(s) => s < vars
    case Copy(d, s) => d < vars && s < vars
  }

  predicate CmdsOk(cs: seq<Cmd>, vars: nat, types: nat) {
    forall c | c in cs :: CmdOk(c, vars, types)
  }

  /** Position of a node in a chain. */
  function Pos(c: seq<Node>, x: Node): (k: nat)
    requires x in c
    ensures k < |c| && c[k] == x
  {
    if c[0] == x then 0 else 1 + Pos(c[1..], x)
  }

  /** The neighbours of a live node; the sentinel comes before the first instance. */
  function PrevOf(a: Lists, x: Node): Option<Node>
    requires a.Live(x)
  {
    var c, k := a.chains[a.TypeOf(x)], Pos(a.chains[a.TypeOf(x)], x);
    if k > 0 then Some(c[k - 1]) else None
  }

  function NextOf(a: Lists, x: Node): Option<Node>
    requires a.Live(x)
  {
    var c, k := a.chains[a.TypeOf(x)], Pos(a.chains[a.TypeOf(x)], x);
    if k + 1 < |c| then Some(c[k + 1]) else None
  }

  /** The last node of a list: its sentinel when the list is empty. */
  function LastOf(a: Lists, t: nat): Node
    requires t < |a.chains|
  {
    if |a.chains[t]| > 0 then a.chains[t][|a.chains[t]| - 1] else Head(t)
  }

  function ToHandle(x: Option<Node>): Handle {
    if x.Some? then Ref(x.value) else Null
  }

  function SpecFirst(a: Lists, t: nat): Handle
    requires t < |a.chains|
  {
    if |a.chains[t]| > 1 then Ref(a.chains[t][1]) else Null
  }

  function SpecLast(a: Lists, t: nat): Handle
    requires t < |a.chains|
  {
    if LastOf(a, t).Head? then Null else Ref(LastOf(a, t))
  }

  function SpecNext(a: Lists, v: Handle): Outcome<Handle> {
    match v
    case Null => Done(Null)
    case Ref(x) => if !a.Live(x) then Trapped(DeletedAccess) else Done(ToHandle(NextOf(a, x)))
  }

  function SpecPrevious(a: Lists, v: Handle): Outcome<Handle> {
    match v
    case Null => Done(Null)
    case Ref(x) =>
      if !a.Live(x) then Trapped(DeletedAccess)
      else if PrevOf(a, x).Some? && PrevOf(a, x).value.Inst? then Done(ToHandle(PrevOf(a, x)))
      else Done(Null)
  }

  function SpecCheck(a: Lists, v: Handle): Outcome<()> {
    match v
    case Null => Trapped(NullDeref)
    case Ref(x) =>
      if !a.Live(x) then Trapped(DeletedAccess)
      else if x.Head? then Trapped(NullDeref)
      else Done(())
  }

  function SpecNew(a: Lists, t: nat): Lists
    requires t < |a.chains|
  {
    Lists(a.chains[t := a.chains[t] + [Inst(|a.typeOf|)]], a.typeOf + [t])
  }

  function RemoveAt<T>(s: seq<T>, k: nat): seq<T>
    requires k < |s|
  {
    s[..k] + s[k + 1..]
  }

  /** Delete a live instance. */
  function SpecRemove(a: Lists, x: Node): Lists
    requires a.Live(x) && x.Inst?
  {
    var t := a.TypeOf(x);
    Lists(a.chains[t := RemoveAt(a.chains[t], Pos(a.chains[t], x))], a.typeOf)
  }

  /** What a deleting variable is rewound to. */
  function SpecRewind(a: Lists, x: Node): Node
    requires a.Live(x)
  {
    if PrevOf(a, x).Some? then PrevOf(a, x).value else Head(a.TypeOf(x))
  }

  function SpecDelete(a: Lists, v: Handle): Outcome<(Lists, Node)> {
    match v
    case Null => Trapped(NullDeref)
    case Ref(x) =>
      if !a.Live(x) || x.Head? then Trapped(DoubleDelete)
      else Done((SpecRemove(a, x), SpecRewind(a, x)))
  }

  datatype SpecState = SpecState(lists: Lists, vars: seq<Handle>)

  function Assign(s: SpecState, d: nat, r: Outcome<Handle>): Outcome<SpecState>
    requires d < |s.vars|
  {
    match r
    case Done(v) => Done(s.(vars := s.vars[d := v]))
    case Trapped(e) => Trapped(e)
    case Panicked => Panicked
  }

  function SpecStep(s: SpecState, c: Cmd): Outcome<SpecState>
    requires CmdOk(c, |s.vars|, |s.lists.chains|)
  {
    match c
    case New(d, t) => Done(SpecState(SpecNew(s.lists, t), s.vars[d := Ref(Inst(|s.lists.typeOf|))]))
    case First(d, t) => Assign(s, d, Done(SpecFirst(s.lists, t)))
    case Last(d, t) => Assign(s, d, Done(SpecLast(s.lists, t)))
    case Next(d, v) => Assign(s, d, SpecNext(s.lists, s.vars[v]))
    case Previous(d, v) => Assign(s, d, SpecPrevious(s.lists, s.vars[v]))
    case Check(v) =>
      (match SpecCheck(s.lists, s.vars[v])
       case Done(_) => Done(s)
       case Trapped(e) => Trapped(e)
       case Panicked => Panicked)
    case DeleteValue(v) =>
      (match SpecDelete(s.lists, s.vars[v])
       case Done(r) => Done(s.(lists := r.0))
       case Trapped(e) => Trapped(e)
       case Panicked => Panicked)
    case DeleteVar(v) =>
      (match SpecDelete(s.lists, s.vars[v])
       case Done(r) => Done(SpecState(r.0, s.vars[v := Ref(r.1)]))
       case Trapped(e) => Trapped(e)
       case Panicked => Panicked)
    case Copy(d, v) => Done(s.(vars := s.vars[d := s.vars[v]]))
  }

  /** Commands in order, up to the first one that does not complete. */
  function SpecRun(s: SpecState, cs: seq<Cmd>): (r: Outcome<SpecState>)
    requires CmdsOk(cs, |s.vars|, |s.lists.chains|)
    ensures r.Done? ==> |r.state.vars| == |s.vars| && |r.state.lists.chains| == |s.lists.chains|
    decreases |cs|
  {
    if cs == [] then Done(s)
    else match SpecRun(s, cs[..|cs| - 1])
      case Done(s') => assert cs[|cs| - 1] in cs; SpecStep(s', cs[|cs| - 1])
      case Trapped(e) => Trapped(e)
      case Panicked => Panicked
  }

  // ── The reference model itself ─────────────────────────────────────────

  lemma {:induction false} PosUnique(c: seq<Node>, x: Node, k: nat)
    requires k < |c| && c[k] == x && Distinct(c)
    ensures Pos(c, x) == k
  {
  }

  lemma AtPos(a: Lists, t: nat, k: nat)
    requires a.Valid() && t < |a.chains| && k < |a.chains[t]|
    ensures var x := a.chains[t][k];
      && a.Live(x) && a.TypeOf(x) == t && Pos(a.chains[t], x) == k && (x.Head? <==> k == 0)
      && PrevOf(a, x) == (if k > 0 then Some(a.chains[t][k - 1]) else None)
      && NextOf(a, x) == (if k + 1 < |a.chains[t]| then Some(a.chains[t][k + 1]) else None)
  {
    assert a.ValidChain(t);
    PosUnique(a.chains[t], a.chains[t][k], k);
  }

  /** Every list is an acyclic, doubly linked chain from its sentinel to its last node. */
  lemma Linked(a: Lists, x: Node)
    requires a.Valid() && a.Live(x)
    ensures a.ValidChain(a.TypeOf(x)) && a.Live(LastOf(a, a.TypeOf(x))) && a.TypeOf(LastOf(a, a.TypeOf(x))) == a.TypeOf(x)
    ensures PrevOf(a, x).None? <==> x.Head?
    ensures NextOf(a, x).None? <==> x == LastOf(a, a.TypeOf(x))
    ensures var n := NextOf(a, x); n.Some? ==>
      a.Live(n.value) && n.value.Inst? && n.value != x && a.TypeOf(n.value) == a.TypeOf(x) && PrevOf(a, n.value) == Some(x)
    ensures var p := PrevOf(a, x); p.Some? ==>
      a.Live(p.value) && p.value != x && a.TypeOf(p.value) == a.TypeOf(x) && NextOf(a, p.value) == Some(x)
    ensures PrevOf(a, x).Some? ==> PrevOf(a, x) != NextOf(a, x)
  {
    hide PrevOf, NextOf, Pos, Distinct;
    var t := a.TypeOf(x);
    var c, k := a.chains[t], Pos(a.chains[t], x);
    assert a.ValidChain(t);
    AtPos(a, t, k);
    AtPos(a, t, |c| - 1);
    if k > 0 { AtPos(a, t, k - 1); }
    if k + 1 < |c| { AtPos(a, t, k + 1); }
  }

  lemma SentinelLive(a: Lists, t: nat)
    requires a.Valid() && t < |a.chains|
    ensures a.Live(Head(t)) && a.Live(LastOf(a, t)) && a.TypeOf(LastOf(a, t)) == t
    ensures SpecFirst(a, t) == ToHandle(NextOf(a, Head(t)))
    ensures LastOf(a, t).Head? ==> LastOf(a, t) == Head(t)
  {
    assert a.ValidChain(t);
    AtPos(a, t, 0);
    AtPos(a, t, |a.chains[t]| - 1);
  }

  lemma NewKeepsValid(a: Lists, t: nat)
    requires a.Valid() && t < |a.chains|
    ensures SpecNew(a, t).Valid()
    ensures forall x :: SpecNew(a, t).Live(x) <==> (a.Live(x) || x == Inst(|a.typeOf|))
    ensures forall u | 0 <= u < |a.chains| ::
      LastOf(SpecNew(a, t), u) == if u == t then Inst(|a.typeOf|) else LastOf(a, u)
  {
    var b := SpecNew(a, t);
    forall u | 0 <= u < |b.chains| ensures b.ValidChain(u) {
      assert a.ValidChain(u);
    }
    assert a.ValidChain(t);
    forall x ensures b.Live(x) <==> (a.Live(x) || x == Inst(|a.typeOf|)) {
      if x == Inst(|a.typeOf|) {
        assert b.chains[t][|a.chains[t]|] == x;
      }
    }
  }

  /** `New` links the instance behind the last node of its list and touches no other link. */
  lemma NewLinks(a: Lists, t: nat, y: Node)
    requires a.Valid() && t < |a.chains| && SpecNew(a, t).Valid() && SpecNew(a, t).Live(y)
    ensures var b, x := SpecNew(a, t), Inst(|a.typeOf|);
      if y == x then
        b.TypeOf(y) == t && PrevOf(b, y) == Some(LastOf(a, t)) && NextOf(b, y) == None
      else
        && a.Live(y) && b.TypeOf(y) == a.TypeOf(y) && PrevOf(b, y) == PrevOf(a, y)
        && NextOf(b, y) == if y == LastOf(a, t) then Some(x) else NextOf(a, y)
  {
    var b, x := SpecNew(a, t), Inst(|a.typeOf|);
    assert a.ValidChain(t);
    if y == x {
      assert b.chains[t][|a.chains[t]|] == x;
      AtPos(b, t, |a.chains[t]|);
    } else {
      var u := b.TypeOf(y);
      var k := Pos(b.chains[u], y);
      assert a.chains[u][k] == y;
      AtPos(a, u, k);
      AtPos(a, t, |a.chains[t]| - 1);
    }
  }

  /** Deleting takes one instance out of the lists and nothing else. */
  lemma RemoveKeepsValid(a: Lists, x: Node)
    requires a.Valid() && a.Live(x) && x.Inst?
    ensures SpecRemove(a, x).Valid()
    ensures forall y :: SpecRemove(a, x).Live(y) <==> (a.Live(y) && y != x)
  {
    var b := SpecRemove(a, x);
    var t := a.TypeOf(x);
    var c, k := a.chains[t], Pos(a.chains[t], x);
    AtPos(a, t, k);
    assert a.ValidChain(t);
    RemovedAt(c, k);
    forall u | 0 <= u < |b.chains| ensures b.ValidChain(u) {
      assert a.ValidChain(u);
    }
    forall y ensures b.Live(y) <==> (a.Live(y) && y != x) {
      if a.Known(y) {
        assert a.ValidChain(t);
        assert y in b.chains[t] <==> (y in c && y != x);
      }
    }
  }

  lemma RemovedAt(c: seq<Node>, k: nat)
    requires k < |c| && Distinct(c)
    ensures var d := RemoveAt(c, k);
      && |d| == |c| - 1 && Distinct(d)
      && (forall i | 0 <= i < |d| :: d[i] == c[if i < k then i else i + 1])
      && (forall y :: y in d <==> (y in c && y != c[k]))
  {
    var d := RemoveAt(c, k);
    forall y ensures y in d <==> (y in c && y != c[k]) {
      if y in c && y != c[k] {
        var i :| 0 <= i < |c| && c[i] == y;
        assert d[if i < k then i else i - 1] == y;
      }
    }
  }

  /** Delete joins the two neighbours of the deleted instance and touches no other link. */
  lemma RemoveLinks(a: Lists, x: Node, y: Node)
    requires a.Valid() && a.Live(x) && x.Inst? && SpecRemove(a, x).Valid() && SpecRemove(a, x).Live(y)
    requires a.Live(y) && y != x
    ensures var b := SpecRemove(a, x);
      && b.TypeOf(y) == a.TypeOf(y)
      && PrevOf(b, y) == (if NextOf(a, x) == Some(y) then PrevOf(a, x) else PrevOf(a, y))
      && NextOf(b, y) == (if PrevOf(a, x) == Some(y) then NextOf(a, x) else NextOf(a, y))
  {
    if a.TypeOf(y) == a.TypeOf(x) {
      RemoveLinksHere(a, x, y);
    } else {
      Linked(a, x);
    }
  }

  lemma RemoveLinksHere(a: Lists, x: Node, y: Node)
    requires a.Valid() && a.Live(x) && x.Inst? && SpecRemove(a, x).Valid() && SpecRemove(a, x).Live(y)
    requires a.Live(y) && y != x && a.TypeOf(y) == a.TypeOf(x)
    ensures var b := SpecRemove(a, x);
      && PrevOf(b, y) == (if NextOf(a, x) == Some(y) then PrevOf(a, x) else PrevOf(a, y))
      && NextOf(b, y) == (if PrevOf(a, x) == Some(y) then NextOf(a, x) else NextOf(a, y))
  {
    var b := SpecRemove(a, x);
    var t := a.TypeOf(x);
    var c := a.chains[t];
    var k, i := Pos(c, x), Pos(c, y);
    AtPos(a, t, k);
    AtPos(a, t, i);
    assert a.ValidChain(t);
    RemovedNeighbours(c, k, i);
    AtPos(b, t, if i < k then i else i - 1);
  }

  lemma RemovedNeighbours(c: seq<Node>, k: nat, i: nat)
    requires Distinct(c) && 0 < k < |c| && i < |c| && i != k
    ensures var d, j := RemoveAt(c, k), if i < k then i else i - 1;
      && |d| == |c| - 1 && d[j] == c[i]
      && (j > 0 <==> i > 0) && (j > 0 ==> d[j - 1] == c[if i == k + 1 then k - 1 else i - 1])
      && (j + 1 < |d| <==> if i == k - 1 then k + 1 < |c| else i + 1 < |c|)
      && (j + 1 < |d| ==> d[j + 1] == c[if i == k - 1 then k + 1 else i + 1])
    ensures k + 1 < |c| ==> (c[k + 1] == c[i] <==> i == k + 1)
    ensures c[k - 1] == c[i] <==> i == k - 1
  {
  }

  lemma RemoveLast(a: Lists, x: Node, u: nat)
    requires a.Valid() && a.Live(x) && x.Inst? && u < |a.chains|
    ensures LastOf(SpecRemove(a, x), u) == if LastOf(a, u) == x then SpecRewind(a, x) else LastOf(a, u)
  {
    var t := a.TypeOf(x);
    var k := Pos(a.chains[t], x);
    AtPos(a, t, k);
    AtPos(a, t, 0);
    assert a.ValidChain(u) && a.ValidChain(t);
    AtPos(a, u, |a.chains[u]| - 1);
  }
}
