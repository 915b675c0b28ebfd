/** The interpreter's slab and lists implement the reference lists, step by step. */
module InterpRefines {
  import opened Common
  import opened Outcomes
  import opened TypeSpec
  import opened SlabGenerations
  import I = InterpHeap

  /** `ids[n]` is the birth of the id handed out for the n-th instance; `owner[j]` the node now in slot j,
      `frees[j]` how often that slot has been freed. */
  datatype Names = Names(ids: seq<Birth>, owner: seq<Option<Node>>, frees: seq<nat>)

  ghost predicate Named(h: I.HeapValue, g: Names, a: Lists) {
    && h.Wf() && |h.lists| == |a.chains| && |g.ids| == |a.typeOf| && |g.owner| == |h.slab.entries| == |g.frees|
  }

  ghost function IdOf(h: I.HeapValue, g: Names, x: Node): I.Id
    requires match x case Head(t) => t < |h.lists| case Inst(n) => n < |g.ids|
  {
    match x
    case Head(t) => h.lists[t].sentinel
    case Inst(n) => ToId(g.ids[n])
  }

  ghost function IdOpt(h: I.HeapValue, g: Names, x: Option<Node>): Option<I.Id>
    requires x.Some? ==> match x.value case Head(t) => t < |h.lists| case Inst(n) => n < |g.ids|
  {
    if x.Some? then Some(IdOf(h, g, x.value)) else None
  }

  /** What the slab holds for a live node: its type and its neighbours. A sentinel's slot is never freed. */
  ghost predicate NodeOk(h: I.HeapValue, g: Names, a: Lists, x: Node)
    requires Named(h, g, a) && a.Valid() && a.Live(x)
  {
    Linked(a, x);
    var id := IdOf(h, g, x);
    && h.slab.Get(id) == Some(I.Obj(a.TypeOf(x), IdOpt(h, g, PrevOf(a, x)), IdOpt(h, g, NextOf(a, x)), x.Head?))
    && g.owner[id.index] == Some(x)
    && g.frees[id.index] == if x.Head? then 0 else g.ids[x.serial].frees
  }

  ghost predicate TailOk(h: I.HeapValue, g: Names, a: Lists, t: nat)
    requires Named(h, g, a) && a.Valid() && t < |a.chains|
  {
    SentinelLive(a, t);
    h.lists[t].tail == if LastOf(a, t).Head? then None else Some(IdOf(h, g, LastOf(a, t)))
  }

  /** The slot has been freed since the id was handed out. */
  predicate Stale(frees: seq<nat>, b: Birth) {
    b.slot < |frees| && b.frees < frees[b.slot]
  }

  /** Free list, entries and owners agree. */
  ghost predicate SlotsOk(s: I.SlabValue, owner: seq<Option<Node>>) {
    && s.Wf() && |owner| == |s.entries|
    && (forall j | 0 <= j < |owner| :: s.entries[j].Some? <==> owner[j].Some?)
    && (forall j | 0 <= j < |owner| :: owner[j].None? <==> j in s.freeList)
    && Distinct(s.freeList)
  }

  ghost predicate OwnersOk(h: I.HeapValue, g: Names, a: Lists)
    requires Named(h, g, a)
  {
    forall j | 0 <= j < |g.owner| && g.owner[j].Some? ::
      a.Live(g.owner[j].value) && IdOf(h, g, g.owner[j].value).index == j
  }

  /** No slot has been freed more than `k` times. */
  ghost predicate Bounded(g: Names, k: nat) {
    forall j | 0 <= j < |g.frees| :: g.frees[j] <= k
  }

  ghost predicate Refines(h: I.HeapValue, g: Names, a: Lists) {
    && a.Valid() && Named(h, g, a)
    && (forall x | a.Live(x) :: NodeOk(h, g, a, x))
    && (forall t | 0 <= t < |a.chains| :: TailOk(h, g, a, t))
    && (forall n | 0 <= n < |g.ids| && !a.Live(Inst(n)) :: Stale(g.frees, g.ids[n]))
    && SlotsOk(h.slab, g.owner) && Counted(h.slab, g.frees) && OwnersOk(h, g, a) && Distinct(g.ids)
  }

  // ── New ────────────────────────────────────────────────────────────────

  function Claim(owner: seq<Option<Node>>, j: nat, x: Node): seq<Option<Node>>
    requires j <= |owner|
  {
    if j < |owner| then owner[j := Some(x)] else owner + [Some(x)]
  }

  /** A fresh id resolved nothing before, resolves the new object now, and disturbs no other id. */
  lemma AllocFacts(s: I.SlabValue, owner: seq<Option<Node>>, obj: I.Obj, x: Node)
    requires SlotsOk(s, owner)
    ensures var (s', id) := s.Alloc(obj);
      && id.index <= |owner| && s.Get(id).None?
      && SlotsOk(s', Claim(owner, id.index, x))
      && (id.index < |owner| ==> owner[id.index].None?)
      && (forall i :: s'.Get(i) == if i == id then Some(obj) else s.Get(i))
  {
    var (s', id) := s.Alloc(obj);
    if |s.freeList| > 0 {
      var f := s.freeList;
      assert f[|f| - 1] in f;
      assert forall j :: j in f <==> (j in s'.freeList || j == id.index);
      assert forall p | 0 <= p < |f| - 1 :: f[p] != id.index;
    }
  }

  /** What a new instance changes: its own slot, and the `next` of the node it is linked behind. */
  function AfterAppend(s: I.SlabValue, t: nat, last: I.Id, id: I.Id, i: I.Id): Option<I.Obj>
    requires s.Wf() && s.Get(last).Some?
  {
    if i == id then Some(I.Obj(t, Some(last), None, false))
    else if i == last then Some(s.Get(i).value.(next := Some(id)))
    else s.Get(i)
  }

  /** The birth of a fresh id. */
  ghost function NewBirth(g: Names, id: I.Id): Birth
    requires id.index <= |g.frees|
  {
    Birth(id.index, Opened(g.frees, id.index)[id.index])
  }

  ghost predicate Appended(h: I.HeapValue, g: Names, t: nat, last: I.Id, x: Node, h': I.HeapValue, id: I.Id) {
    && h.Wf() && t < |h.lists| && h.slab.Get(last).Some? && id != last
    && id.index <= |g.owner| && (id.index < |g.owner| ==> g.owner[id.index].None?)
    && h'.lists == h.lists[t := h.lists[t].(tail := Some(id))]
    && SlotsOk(h'.slab, Claim(g.owner, id.index, x))
    && |g.frees| == |g.owner| && Counted(h'.slab, Opened(g.frees, id.index)) && id == ToId(NewBirth(g, id))
    && h'.Wf() && |Claim(g.owner, id.index, x)| == |Opened(g.frees, id.index)| == |h'.slab.entries|
    && (forall i :: h'.slab.Get(i) == AfterAppend(h.slab, t, last, id, i))
  }

  lemma AppendSlots(h: I.HeapValue, g: Names, t: nat, last: I.Id, x: Node)
    requires SlotsOk(h.slab, g.owner) && Counted(h.slab, g.frees) && t < |h.lists| && h.slab.Get(last).Some?
    requires last == if h.lists[t].tail.Some? then h.lists[t].tail.value else h.lists[t].sentinel
    ensures var r := I.ExecNew(h, t); r.Some? && Appended(h, g, t, last, x, r.value.0, r.value.1)
  {
    AllocFacts(h.slab, g.owner, I.Obj(t, None, None, false), x);
    CountedAlloc(h.slab, g.frees, I.Obj(t, None, None, false));
    var (s, id) := h.slab.Alloc(I.Obj(t, None, None, false));
    var h' := I.ExecNew(h, t).value.0;
    assert h'.slab.freeList == s.freeList && h'.slab.generations == s.generations;
  }

  lemma NewNode(h: I.HeapValue, g: Names, a: Lists, t: nat, h': I.HeapValue, g': Names, id: I.Id, y: Node)
    requires Refines(h, g, a) && t < |h.lists| && a.Live(LastOf(a, t))
    requires Appended(h, g, t, IdOf(h, g, LastOf(a, t)), Inst(|a.typeOf|), h', id)
    requires g' == AfterNew(g, id, Inst(|a.typeOf|))
    requires Named(h', g', SpecNew(a, t)) && SpecNew(a, t).Valid() && SpecNew(a, t).Live(y)
    ensures NodeOk(h', g', SpecNew(a, t), y)
  {
    if y == Inst(|a.typeOf|) {
      TheNewNode(h, g, a, t, h', g', id, y);
    } else {
      AnOldNode(h, g, a, t, h', g', id, y);
    }
  }

  lemma TheNewNode(h: I.HeapValue, g: Names, a: Lists, t: nat, h': I.HeapValue, g': Names, id: I.Id, y: Node)
    requires Refines(h, g, a) && t < |h.lists| && a.Live(LastOf(a, t))
    requires Appended(h, g, t, IdOf(h, g, LastOf(a, t)), Inst(|a.typeOf|), h', id)
    requires g' == AfterNew(g, id, Inst(|a.typeOf|))
    requires Named(h', g', SpecNew(a, t)) && SpecNew(a, t).Valid() && SpecNew(a, t).Live(y)
    requires y == Inst(|a.typeOf|)
    ensures NodeOk(h', g', SpecNew(a, t), y)
  {
    hide PrevOf, NextOf, LastOf, Pos, Distinct, RemoveAt, Lists.Valid, Lists.ValidChain, SlotsOk, Counted, OwnersOk, TailOk, Stale;
    NewLinks(a, t, y);
    SentinelLive(a, t);
    assert NodeOk(h, g, a, LastOf(a, t));
  }

  lemma AnOldNode(h: I.HeapValue, g: Names, a: Lists, t: nat, h': I.HeapValue, g': Names, id: I.Id, y: Node)
    requires Refines(h, g, a) && t < |h.lists| && a.Live(LastOf(a, t))
    requires Appended(h, g, t, IdOf(h, g, LastOf(a, t)), Inst(|a.typeOf|), h', id)
    requires g' == AfterNew(g, id, Inst(|a.typeOf|))
    requires Named(h', g', SpecNew(a, t)) && SpecNew(a, t).Valid() && SpecNew(a, t).Live(y)
    requires y != Inst(|a.typeOf|)
    ensures NodeOk(h', g', SpecNew(a, t), y)
  {
    hide PrevOf, NextOf, LastOf, Pos, Distinct, RemoveAt, Lists.Valid, Lists.ValidChain, SlotsOk, Counted, OwnersOk, TailOk, Stale;
    var last := LastOf(a, t);
    NewLinks(a, t, y);
    Linked(a, y);
    assert NodeOk(h, g, a, last) && NodeOk(h, g, a, y);
    assert IdOf(h, g, y) == IdOf(h, g, last) ==> y == last;
  }

  lemma NewTail(h: I.HeapValue, g: Names, a: Lists, t: nat, h': I.HeapValue, g': Names, id: I.Id, u: nat)
    requires Refines(h, g, a) && t < |h.lists| && u < |a.chains|
    requires Named(h', g', SpecNew(a, t)) && SpecNew(a, t).Valid()
    requires g.ids <= g'.ids && |g'.ids| == |g.ids| + 1 && ToId(g'.ids[|g.ids|]) == id && h'.lists == h.lists[t := h.lists[t].(tail := Some(id))]
    ensures TailOk(h', g', SpecNew(a, t), u)
  {
    NewKeepsValid(a, t);
    SentinelLive(a, u);
    assert TailOk(h, g, a, u);
  }

  lemma FreshId(h: I.HeapValue, g: Names, a: Lists, t: nat, h': I.HeapValue, id: I.Id)
    requires Refines(h, g, a) && t < |h.lists| && a.Live(LastOf(a, t))
    requires Appended(h, g, t, IdOf(h, g, LastOf(a, t)), Inst(|a.typeOf|), h', id) && h'.Wf()
    ensures Distinct(g.ids + [NewBirth(g, id)])
  {
    forall n | 0 <= n < |g.ids| ensures g.ids[n] != NewBirth(g, id) {
      if a.Live(Inst(n)) {
        assert NodeOk(h, g, a, Inst(n));
      } else {
        assert Stale(g.frees, g.ids[n]);
      }
    }
  }

  ghost function AfterNew(g: Names, id: I.Id, x: Node): Names
    requires id.index <= |g.owner| == |g.frees|
  {
    Names(g.ids + [NewBirth(g, id)], Claim(g.owner, id.index, x), Opened(g.frees, id.index))
  }

  lemma NewRefines(h: I.HeapValue, g: Names, a: Lists, t: nat) returns (g': Names)
    requires Refines(h, g, a) && t < |h.lists|
    ensures I.ExecNew(h, t).Some?
    ensures g.ids <= g'.ids && |g'.ids| == |g.ids| + 1 && ToId(g'.ids[|g.ids|]) == I.ExecNew(h, t).value.1
    ensures forall k: nat :: Bounded(g, k) ==> Bounded(g', k)
    ensures Refines(I.ExecNew(h, t).value.0, g', SpecNew(a, t))
  {
    hide PrevOf, NextOf, LastOf, Pos, RemoveAt, Lists.Valid, Lists.ValidChain, Distinct;
    hide NodeOk, TailOk, OwnersOk, SlotsOk, Claim, Stale, Counted, I.ExecNew;
    var x := Inst(|a.typeOf|);
    NewKeepsValid(a, t);
    LastResolves(h, g, a, t);
    AppendSlots(h, g, t, IdOf(h, g, LastOf(a, t)), x);
    var (h', id) := I.ExecNew(h, t).value;
    FreshId(h, g, a, t, h', id);
    g' := AfterNew(g, id, x);
    NewNames(h, g, a, t, h', g', id);
    NewOwners(h, g, a, t, h', g', id);
  }

  /** The node a new instance is linked behind. */
  lemma LastResolves(h: I.HeapValue, g: Names, a: Lists, t: nat)
    requires Refines(h, g, a) && t < |h.lists|
    ensures a.Live(LastOf(a, t)) && h.slab.Get(IdOf(h, g, LastOf(a, t))).Some?
    ensures IdOf(h, g, LastOf(a, t)) == if h.lists[t].tail.Some? then h.lists[t].tail.value else h.lists[t].sentinel
  {
    SentinelLive(a, t);
    assert TailOk(h, g, a, t) && NodeOk(h, g, a, LastOf(a, t));
    hide PrevOf, NextOf, LastOf, Lists.Valid;
  }

  /** Nodes, tails and stale ids after `New`. */
  lemma NewNames(h: I.HeapValue, g: Names, a: Lists, t: nat, h': I.HeapValue, g': Names, id: I.Id)
    requires Refines(h, g, a) && t < |h.lists| && a.Live(LastOf(a, t))
    requires Appended(h, g, t, IdOf(h, g, LastOf(a, t)), Inst(|a.typeOf|), h', id)
    requires g' == AfterNew(g, id, Inst(|a.typeOf|))
    requires Named(h', g', SpecNew(a, t)) && SpecNew(a, t).Valid()
    ensures forall y | SpecNew(a, t).Live(y) :: NodeOk(h', g', SpecNew(a, t), y)
    ensures forall u | 0 <= u < |a.chains| :: TailOk(h', g', SpecNew(a, t), u)
    ensures forall n | 0 <= n < |g'.ids| && !SpecNew(a, t).Live(Inst(n)) :: Stale(g'.frees, g'.ids[n])
  {
    hide PrevOf, NextOf, LastOf, Pos, RemoveAt, Lists.Valid, Lists.ValidChain, Distinct, NodeOk, TailOk, OwnersOk, SlotsOk;
    var b := SpecNew(a, t);
    NewKeepsValid(a, t);
    forall y | b.Live(y) ensures NodeOk(h', g', b, y) {
      NewNode(h, g, a, t, h', g', id, y);
    }
    forall u | 0 <= u < |b.chains| ensures TailOk(h', g', b, u) {
      NewTail(h, g, a, t, h', g', id, u);
    }
    forall n | 0 <= n < |g'.ids| && !b.Live(Inst(n)) ensures Stale(g'.frees, g'.ids[n]) {
      assert !a.Live(Inst(n));
    }
  }

  lemma NewOwners(h: I.HeapValue, g: Names, a: Lists, t: nat, h': I.HeapValue, g': Names, id: I.Id)
    requires Refines(h, g, a) && t < |h.lists| && a.Live(LastOf(a, t))
    requires Appended(h, g, t, IdOf(h, g, LastOf(a, t)), Inst(|a.typeOf|), h', id)
    requires g' == AfterNew(g, id, Inst(|a.typeOf|))
    requires Named(h', g', SpecNew(a, t)) && SpecNew(a, t).Valid()
    ensures OwnersOk(h', g', SpecNew(a, t))
  {
    hide PrevOf, NextOf, LastOf, Pos, RemoveAt, Lists.Valid, Lists.ValidChain, Distinct, NodeOk, TailOk, SlotsOk, Stale;
    NewKeepsValid(a, t);
  }

  // ── Delete ─────────────────────────────────────────────────────────────

  /** What an id resolves to once the node between `prev` and `next` is gone. */
  function AfterUnlink(s: I.SlabValue, prev: I.Id, next: Option<I.Id>, i: I.Id): Option<I.Obj>
    requires s.Wf() && s.Get(prev).Some? && (next.Some? ==> s.Get(next.value).Some?)
  {
    if i == prev then Some(s.Get(i).value.(next := next))
    else if Some(i) == next then Some(s.Get(i).value.(prev := Some(prev)))
    else s.Get(i)
  }

  /** `id` sits in list t between `prev` and `next`. */
  ghost predicate Between(h: I.HeapValue, t: nat, prev: I.Id, id: I.Id, next: Option<I.Id>) {
    && h.Wf() && t < |h.lists| && h.slab.Get(id) == Some(I.Obj(t, Some(prev), next, false))
    && h.slab.Get(prev).Some? && (next.Some? ==> h.slab.Get(next.value).Some?)
    && id.index != prev.index && (next.Some? ==> next.value.index != id.index && next.value != prev)
  }

  ghost predicate Unlinked(h: I.HeapValue, g: Names, t: nat, prev: I.Id, id: I.Id, next: Option<I.Id>, h': I.HeapValue) {
    && Between(h, t, prev, id, next) && id.index < |g.owner|
    && h'.lists == h.lists[t := h.lists[t].(tail := I.TailAfter(h.lists[t], id, Some(prev)))]
    && SlotsOk(h'.slab, g.owner[id.index := None])
    && id.index < |g.frees| && Counted(h'.slab, FreedOnce(g.frees, id.index))
    && h'.Wf() && |g.owner| == |g.frees| == |h'.slab.entries|
    && (forall i: I.Id :: i.index != id.index ==> h'.slab.Get(i) == AfterUnlink(h.slab, prev, next, i))
  }

  lemma UnlinkSlots(h: I.HeapValue, t: nat, prev: I.Id, id: I.Id, next: Option<I.Id>)
    requires Between(h, t, prev, id, next)
    ensures var u := I.UnlinkFrom(h.slab, h.lists[t], id);
      && u.Some? && u.value.1 == h.lists[t].(tail := I.TailAfter(h.lists[t], id, Some(prev)))
      && u.value.0.generations == h.slab.generations && u.value.0.freeList == h.slab.freeList
      && |u.value.0.entries| == |h.slab.entries|
      && (forall j | 0 <= j < |h.slab.entries| :: u.value.0.entries[j].Some? <==> h.slab.entries[j].Some?)
      && (forall i :: i != id ==> u.value.0.Get(i) == AfterUnlink(h.slab, prev, next, i))
  {
    var s1 := I.SetNext(h.slab, Some(prev), next).value;
    var s2 := I.SetPrev(s1, next, Some(prev)).value;
    assert s2.Get(id) == h.slab.Get(id);
  }

  lemma FreeSlots(s: I.SlabValue, owner: seq<Option<Node>>, id: I.Id)
    requires SlotsOk(s, owner) && s.Get(id).Some?
    ensures SlotsOk(s.Free(id), owner[id.index := None])
    ensures s.Free(id).entries[id.index].None?
    ensures forall i: I.Id :: i.index != id.index ==> s.Free(id).Get(i) == s.Get(i)
  {
    var r := s.Free(id);
    assert forall j :: j in r.freeList <==> (j in s.freeList || j == id.index);
  }

  lemma DeleteSlots(h: I.HeapValue, g: Names, t: nat, prev: I.Id, id: I.Id, next: Option<I.Id>)
    requires Between(h, t, prev, id, next) && SlotsOk(h.slab, g.owner) && Counted(h.slab, g.frees)
    ensures var r := I.ExecDelete(h, I.TypeInstance(id));
      r.Done? && r.state.1 == prev && Unlinked(h, g, t, prev, id, next, r.state.0)
  {
    UnlinkSlots(h, t, prev, id, next);
    var u := I.UnlinkFrom(h.slab, h.lists[t], id);
    FreeSlots(u.value.0, g.owner, id);
    CountedFree(u.value.0, g.frees, id);
  }

  /** The neighbourhood of a live instance. */
  lemma Around(h: I.HeapValue, g: Names, a: Lists, x: Node) returns (t: nat, p: Node, n: Option<Node>)
    requires Refines(h, g, a) && a.Live(x) && x.Inst?
    ensures t == a.TypeOf(x) && Some(p) == PrevOf(a, x) && n == NextOf(a, x)
    ensures a.Live(p) && (n.Some? ==> a.Live(n.value)) && p == SpecRewind(a, x)
    ensures Between(h, t, IdOf(h, g, p), IdOf(h, g, x), IdOpt(h, g, n))
    ensures g.owner[IdOf(h, g, x).index] == Some(x)
  {
    Linked(a, x);
    t, p, n := a.TypeOf(x), PrevOf(a, x).value, NextOf(a, x);
    assert NodeOk(h, g, a, x) && NodeOk(h, g, a, p);
    if n.Some? { assert NodeOk(h, g, a, n.value); }
  }

  ghost function AfterDelete(g: Names, id: I.Id): Names
    requires id.index < |g.owner| == |g.frees|
  {
    Names(g.ids, g.owner[id.index := None], FreedOnce(g.frees, id.index))
  }

  lemma DeleteNode(h: I.HeapValue, g: Names, a: Lists, x: Node, h': I.HeapValue, g': Names, y: Node)
    requires Refines(h, g, a) && a.Live(x) && x.Inst? && a.Live(y) && y != x
    requires PrevOf(a, x).Some? && a.Live(PrevOf(a, x).value) && (NextOf(a, x).Some? ==> a.Live(NextOf(a, x).value))
    requires Unlinked(h, g, a.TypeOf(x), IdOf(h, g, PrevOf(a, x).value), IdOf(h, g, x), IdOpt(h, g, NextOf(a, x)), h')
    requires g' == AfterDelete(g, IdOf(h, g, x))
    requires Named(h', g', SpecRemove(a, x)) && SpecRemove(a, x).Valid() && SpecRemove(a, x).Live(y)
    ensures NodeOk(h', g', SpecRemove(a, x), y)
  {
    hide PrevOf, NextOf, LastOf, Pos, Distinct, RemoveAt, Lists.Valid, Lists.ValidChain;
    RemoveLinks(a, x, y);
    Linked(a, y);
    Linked(a, x);
    assert NodeOk(h, g, a, y) && NodeOk(h, g, a, x) && NodeOk(h, g, a, PrevOf(a, x).value);
    if NextOf(a, x).Some? { assert NodeOk(h, g, a, NextOf(a, x).value); }
  }

  lemma DeleteRefines(h: I.HeapValue, g: Names, a: Lists, x: Node) returns (g': Names)
    requires Refines(h, g, a) && a.Live(x) && x.Inst?
    ensures g'.ids == g.ids && forall k: nat :: Bounded(g, k) ==> Bounded(g', k + 1)
    ensures var r := I.ExecDelete(h, I.TypeInstance(IdOf(h, g, x)));
      && r.Done? && Refines(r.state.0, g', SpecRemove(a, x))
      && SpecRemove(a, x).Live(SpecRewind(a, x)) && r.state.1 == IdOf(r.state.0, g', SpecRewind(a, x))
  {
    hide PrevOf, NextOf, LastOf, Pos, Distinct, RemoveAt, Lists.Valid, Lists.ValidChain;
    hide NodeOk, TailOk, OwnersOk, SlotsOk, Stale, Counted, I.ExecDelete, I.SlabValue.Get;
    var t, p, n := Around(h, g, a, x);
    var id := IdOf(h, g, x);
    DeleteSlots(h, g, t, IdOf(h, g, p), id, IdOpt(h, g, n));
    var h' := I.ExecDelete(h, I.TypeInstance(id)).state.0;
    var b := SpecRemove(a, x);
    RemoveKeepsValid(a, x);
    g' := AfterDelete(g, id);
    forall y | b.Live(y) ensures NodeOk(h', g', b, y) {
      DeleteNode(h, g, a, x, h', g', y);
    }
    forall u | 0 <= u < |b.chains| ensures TailOk(h', g', b, u) {
      DeleteTail(h, g, a, x, h', g', u);
    }
    DeleteOwners(h, g, a, x, h', g');
    Linked(a, x);
  }

  /** Owners and stale ids after a delete. */
  lemma DeleteOwners(h: I.HeapValue, g: Names, a: Lists, x: Node, h': I.HeapValue, g': Names)
    requires Refines(h, g, a) && a.Live(x) && x.Inst? && IdOf(h, g, x).index < |g.owner| && g.owner[IdOf(h, g, x).index] == Some(x)
    requires g' == AfterDelete(g, IdOf(h, g, x)) && Named(h', g', SpecRemove(a, x)) && |h'.lists| == |h.lists|
    requires forall u | 0 <= u < |h.lists| :: h'.lists[u].sentinel == h.lists[u].sentinel
    ensures OwnersOk(h', g', SpecRemove(a, x))
    ensures forall n | 0 <= n < |g'.ids| && !SpecRemove(a, x).Live(Inst(n)) :: Stale(g'.frees, g'.ids[n])
  {
    RemoveKeepsValid(a, x);
    assert NodeOk(h, g, a, x);
    hide PrevOf, NextOf, LastOf, Pos, Distinct, RemoveAt, Lists.Valid, Lists.ValidChain, SpecRemove, NodeOk, TailOk, SlotsOk, Counted;
  }

  lemma DeleteTail(h: I.HeapValue, g: Names, a: Lists, x: Node, h': I.HeapValue, g': Names, u: nat)
    requires Refines(h, g, a) && a.Live(x) && x.Inst? && u < |a.chains|
    requires PrevOf(a, x).Some? && a.Live(PrevOf(a, x).value) && (NextOf(a, x).Some? ==> a.Live(NextOf(a, x).value))
    requires Unlinked(h, g, a.TypeOf(x), IdOf(h, g, PrevOf(a, x).value), IdOf(h, g, x), IdOpt(h, g, NextOf(a, x)), h')
    requires g'.ids == g.ids && Named(h', g', SpecRemove(a, x)) && SpecRemove(a, x).Valid()
    ensures TailOk(h', g', SpecRemove(a, x), u)
  {
    hide PrevOf, NextOf, LastOf, Pos, Distinct, RemoveAt, Lists.Valid, Lists.ValidChain;
    var t, p, l := a.TypeOf(x), PrevOf(a, x).value, LastOf(a, u);
    RemoveLast(a, x, u);
    Linked(a, x);
    SentinelLive(a, u);
    SentinelLive(SpecRemove(a, x), u);
    SentinelLive(a, t);
    assert TailOk(h, g, a, u);
    assert NodeOk(h, g, a, x) && NodeOk(h, g, a, l) && NodeOk(h, g, a, p) && NodeOk(h, g, a, Head(t));
  }

  // ── Reads ──────────────────────────────────────────────────────────────

  ghost function ValueOf(h: I.HeapValue, g: Names, v: Handle): I.Value
    requires v.Ref? ==> match v.node case Head(t) => t < |h.lists| case Inst(n) => n < |g.ids|
  {
    if v.Null? then I.Null else I.TypeInstance(IdOf(h, g, v.node))
  }

  ghost predicate KnownHandle(a: Lists, v: Handle) {
    v.Ref? ==> a.Known(v.node)
  }

  /** The slot of a deleted instance is in use again, after a multiple of 2^32 frees. */
  ghost predicate Reborn(g: Names, a: Lists, x: Node) {
    && x.Inst? && x.serial < |g.ids| && !a.Live(x)
    && var b := g.ids[x.serial];
      b.slot < |g.owner| && b.slot < |g.frees| && g.owner[b.slot].Some? && (g.frees[b.slot] - b.frees) % I.GENERATIONS == 0
  }

  /** A handed-out id resolves exactly while its node is in a list, or once it is reborn. */
  lemma Resolves(h: I.HeapValue, g: Names, a: Lists, x: Node)
    requires Refines(h, g, a) && a.Known(x)
    ensures h.slab.Get(IdOf(h, g, x)).Some? <==> a.Live(x) || Reborn(g, a, x)
  {
    if a.Live(x) {
      assert NodeOk(h, g, a, x);
    } else if x.Head? {
      SentinelLive(a, x.typeDef);
    } else {
      assert Stale(g.frees, g.ids[x.serial]);
      BirthResolves(h.slab, g.frees, g.ids[x.serial]);
    }
  }

  /** Two instances had the same slot, a multiple of 2^32 frees apart. */
  ghost predicate Twins(g: Names, x: Node, y: Node) {
    && x.Inst? && y.Inst? && x != y && x.serial < |g.ids| && y.serial < |g.ids|
    && var b, c := g.ids[x.serial], g.ids[y.serial];
      b.slot == c.slot && (b.frees - c.frees) % I.GENERATIONS == 0
  }

  /** Ids identify instances, except for twins. */
  lemma IdsDistinct(h: I.HeapValue, g: Names, a: Lists, x: Node, y: Node)
    requires Refines(h, g, a) && a.Known(x) && a.Known(y)
    ensures IdOf(h, g, x) == IdOf(h, g, y) <==> x == y || Twins(g, x, y)
  {
    if x.Inst? && y.Inst? {
      Congruent(g.ids[x.serial].frees, g.ids[y.serial].frees);
    } else if x.Head? {
      SentinelAlone(h, g, a, x, y);
    } else {
      SentinelAlone(h, g, a, y, x);
    }
  }

  /** No other node ever has the slot of a sentinel. */
  lemma SentinelAlone(h: I.HeapValue, g: Names, a: Lists, x: Node, y: Node)
    requires Refines(h, g, a) && a.Known(x) && a.Known(y) && x.Head?
    ensures IdOf(h, g, x).index == IdOf(h, g, y).index ==> x == y
  {
    SentinelLive(a, x.typeDef);
    assert NodeOk(h, g, a, x);
    if y.Head? { SentinelLive(a, y.typeDef); }
    if a.Live(y) {
      assert NodeOk(h, g, a, y);
    } else {
      assert Stale(g.frees, g.ids[y.serial]);
    }
  }

  /** Reborn ids and twins take more than 2^32 - 1 frees of one slot. */
  lemma FewFrees(h: I.HeapValue, g: Names, a: Lists, k: nat, x: Node, y: Node)
    requires Refines(h, g, a) && a.Known(x) && a.Known(y) && Bounded(g, k) && k < I.GENERATIONS
    ensures !Reborn(g, a, x) && !Twins(g, x, y)
  {
    hide NodeOk, TailOk, OwnersOk, SlotsOk, Stale, Counted, Bounded, Lists.Valid;
    if x.Inst? {
      FewFreesOf(h, g, a, k, x.serial);
      if y.Inst? {
        FewFreesOf(h, g, a, k, y.serial);
        assert x != y ==> g.ids[x.serial] != g.ids[y.serial];
      }
    }
  }

  lemma FewFreesOf(h: I.HeapValue, g: Names, a: Lists, k: nat, n: nat)
    requires Refines(h, g, a) && n < |g.ids| && Bounded(g, k)
    ensures var b := g.ids[n]; b.slot < |g.frees| && b.frees <= g.frees[b.slot] <= k && (!a.Live(Inst(n)) ==> b.frees < g.frees[b.slot])
  {
    if a.Live(Inst(n)) {
      assert NodeOk(h, g, a, Inst(n));
    } else {
      assert Stale(g.frees, g.ids[n]);
    }
    hide TailOk, SlotsOk, OwnersOk;
  }

  /** A reborn id stands for the instance that has the slot now. */
  lemma Occupant(h: I.HeapValue, g: Names, a: Lists, x: Node) returns (y: Node)
    requires Refines(h, g, a) && a.Known(x) && Reborn(g, a, x)
    ensures a.Live(y) && y.Inst? && IdOf(h, g, y) == IdOf(h, g, x)
  {
    var b := g.ids[x.serial];
    y := g.owner[b.slot].value;
    assert NodeOk(h, g, a, y) && Stale(g.frees, b);
    Congruent(g.frees[b.slot], b.frees);
  }

  lemma FirstLastRefine(h: I.HeapValue, g: Names, a: Lists, t: nat)
    requires Refines(h, g, a) && t < |h.lists|
    ensures KnownHandle(a, SpecFirst(a, t)) && KnownHandle(a, SpecLast(a, t))
    ensures I.ExecFirst(h, t) == Done(ValueOf(h, g, SpecFirst(a, t)))
    ensures I.ExecLast(h, t) == Done(ValueOf(h, g, SpecLast(a, t)))
  {
    SentinelLive(a, t);
    Linked(a, Head(t));
    assert NodeOk(h, g, a, Head(t)) && TailOk(h, g, a, t);
  }

  /** The reading instructions answer as the reference lists do, traps included. */
  lemma StepRefines(h: I.HeapValue, g: Names, a: Lists, v: Handle)
    requires Refines(h, g, a) && KnownHandle(a, v) && (v.Ref? ==> !Reborn(g, a, v.node))
    ensures var s := SpecNext(a, v);
      !s.Panicked? && (s.Done? ==> KnownHandle(a, s.state)) &&
      I.ExecNext(h, ValueOf(h, g, v)) == if s.Done? then Done(ValueOf(h, g, s.state)) else Trapped(s.trap)
    ensures var s := SpecPrevious(a, v);
      !s.Panicked? && (s.Done? ==> KnownHandle(a, s.state)) &&
      I.ExecPrevious(h, ValueOf(h, g, v)) == if s.Done? then Done(ValueOf(h, g, s.state)) else Trapped(s.trap)
    ensures I.ExecCheck(h, ValueOf(h, g, v)) == SpecCheck(a, v)
  {
    hide PrevOf, NextOf, LastOf, Pos, Distinct, RemoveAt, Lists.Valid, Lists.ValidChain;
    if v.Ref? {
      Resolves(h, g, a, v.node);
      if a.Live(v.node) {
        Linked(a, v.node);
        assert NodeOk(h, g, a, v.node);
        if PrevOf(a, v.node).Some? {
          assert NodeOk(h, g, a, PrevOf(a, v.node).value);
        }
      }
    }
  }

  function EmptyLists(types: nat): Lists {
    Lists(seq(types, t requires 0 <= t < types => [Head(t)]), [])
  }

  lemma EmptyLinks(types: nat)
    ensures EmptyLists(types).Valid()
    ensures forall x :: EmptyLists(types).Live(x) <==> x.Head? && x.typeDef < types
    ensures forall t | 0 <= t < types ::
      EmptyLists(types).Live(Head(t)) && PrevOf(EmptyLists(types), Head(t)) == None
      && NextOf(EmptyLists(types), Head(t)) == None && LastOf(EmptyLists(types), t) == Head(t)
  {
    var a := EmptyLists(types);
    assert forall u | 0 <= u < types :: a.ValidChain(u);
    forall t | 0 <= t < types
      ensures a.Live(Head(t)) && PrevOf(a, Head(t)) == None && NextOf(a, Head(t)) == None && LastOf(a, t) == Head(t)
    {
      SentinelLive(a, t);
      Linked(a, Head(t));
    }
  }

  /** The start state: one empty list per type. */
  lemma {:induction false} NewHeapRefines(types: nat) returns (g: Names)
    ensures g.ids == [] && Bounded(g, 0)
    ensures Refines(I.NewHeap(types), g, EmptyLists(types))
  {
    EmptyLinks(types);
    if types == 0 {
      g := Names([], [], []);
    } else {
      var g0 := NewHeapRefines(types - 1);
      g := AddType(types - 1, g0);
    }
  }

  /** `TypeList::new` for one more type. */
  lemma AddType(t: nat, g0: Names) returns (g: Names)
    requires g0.ids == [] && Bounded(g0, 0) && Refines(I.NewHeap(t), g0, EmptyLists(t))
    ensures g.ids == [] && Bounded(g, 0) && Refines(I.NewHeap(t + 1), g, EmptyLists(t + 1))
  {
    hide PrevOf, NextOf, LastOf, Pos, NodeOk, TailOk, Counted, I.SlabValue.Get, I.SlabValue.Alloc, Lists.Valid, Lists.ValidChain, Claim;
    EmptyLinks(t);
    EmptyLinks(t + 1);
    var h0, h := I.NewHeap(t), I.NewHeap(t + 1);
    var obj := I.Obj(t, None, None, true);
    AllocFacts(h0.slab, g0.owner, obj, Head(t));
    CountedAlloc(h0.slab, g0.frees, obj);
    var (s, id) := h0.slab.Alloc(obj);
    g := Names([], Claim(g0.owner, id.index, Head(t)), Opened(g0.frees, id.index));
    assert h == I.HeapValue(s, h0.lists + [I.ListValue(id, None)]);
    hide I.NewHeap;
    var b := EmptyLists(t + 1);
    forall x | b.Live(x) ensures NodeOk(h, g, b, x) {
      AddTypeNode(t, h0, g0, h, g, s, id, x.typeDef);
    }
    forall u | 0 <= u < |b.chains| ensures TailOk(h, g, b, u) {
      AddTypeNode(t, h0, g0, h, g, s, id, u);
    }
    AddTypeOwners(t, h0, g0, h, g, id);
  }

  lemma AddTypeOwners(t: nat, h0: I.HeapValue, g0: Names, h: I.HeapValue, g: Names, id: I.Id)
    requires g0.ids == [] && Refines(h0, g0, EmptyLists(t)) && |h0.lists| == t && id.index <= |g0.owner| == |g0.frees|
    requires h.lists == h0.lists + [I.ListValue(id, None)] && Named(h, g, EmptyLists(t + 1))
    requires g == Names([], Claim(g0.owner, id.index, Head(t)), Opened(g0.frees, id.index))
    ensures OwnersOk(h, g, EmptyLists(t + 1))
  {
    EmptyLinks(t);
    EmptyLinks(t + 1);
    hide PrevOf, NextOf, LastOf, Pos, NodeOk, TailOk, Counted, SlotsOk;
  }

  lemma AddTypeNode(t: nat, h0: I.HeapValue, g0: Names, h: I.HeapValue, g: Names, s: I.SlabValue, id: I.Id, u: nat)
    requires g0.ids == [] && Refines(h0, g0, EmptyLists(t)) && |h0.lists| == t && u <= t
    requires h == I.HeapValue(s, h0.lists + [I.ListValue(id, None)]) && s.Wf()
    requires id.index <= |g0.owner| && (id.index < |g0.owner| ==> g0.owner[id.index].None?)
    requires g == Names([], Claim(g0.owner, id.index, Head(t)), Opened(g0.frees, id.index)) && g.frees[id.index] == 0
    requires forall i :: s.Get(i) == if i == id then Some(I.Obj(t, None, None, true)) else h0.slab.Get(i)
    requires Named(h, g, EmptyLists(t + 1)) && EmptyLists(t + 1).Valid() && EmptyLists(t + 1).Live(Head(u))
    ensures NodeOk(h, g, EmptyLists(t + 1), Head(u)) && TailOk(h, g, EmptyLists(t + 1), u)
  {
    EmptyLinks(t);
    EmptyLinks(t + 1);
    if u < t {
      assert NodeOk(h0, g0, EmptyLists(t), Head(u)) && TailOk(h0, g0, EmptyLists(t), u);
    }
  }
}
