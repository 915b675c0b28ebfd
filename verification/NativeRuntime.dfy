/** The pointer form of cb_type.cpp: nodes relinked in place. `mem` lists the nodes ever
    allocated; it gives each pointer the number `NativeHeap` knows it by. */
module NativeRuntime {
  import opened Common
  import opened Outcomes
  import N = NativeHeap

  class CbTypeHeader {
    ghost const addr: nat
    var list: CbTypeList
    var prev: CbTypeHeader?
    var next: CbTypeHeader?
    var deleted: bool
    var isSentinel: bool

    constructor (ghost addr: nat, list: CbTypeList, isSentinel: bool)
      ensures this.addr == addr && this.list == list && prev == null && next == null
      ensures !deleted && this.isSentinel == isSentinel
    {
      this.addr := addr;
      this.list := list;
      prev, next := null, null;
      deleted := false;
      this.isSentinel := isSentinel;
    }
  }

  class CbTypeList {
    ghost const typeDef: nat
    var sentinel: CbTypeHeader?
    var tail: CbTypeHeader?

    constructor (ghost typeDef: nat)
      ensures this.typeDef == typeDef && sentinel == null && tail == null
    {
      this.typeDef := typeDef;
      sentinel, tail := null, null;
    }
  }

  ghost function Ptr(p: CbTypeHeader?): Option<nat> {
    if p == null then None else Some(p.addr)
  }

  /** The process-global state of the runtime. */
  class TypeRuntime {
    var gLists: seq<CbTypeList?>
    ghost var mem: seq<CbTypeHeader>
    ghost var repr: set<object>

    ghost predicate Known(p: CbTypeHeader?)
      reads this
    {
      p != null ==> p.addr < |mem| && mem[p.addr] == p
    }

    ghost predicate NodeOk(i: nat)
      requires i < |mem|
      reads this, repr
    {
      var n := mem[i];
      && n in repr && n.addr == i && Known(n.prev) && Known(n.next)
      && n.list in repr && n.list.typeDef < |gLists| && gLists[n.list.typeDef] == n.list
    }

    ghost predicate ListOk(t: nat)
      requires t < |gLists|
      reads this, repr
    {
      var l := gLists[t];
      l != null ==> l in repr && l.typeDef == t && l.sentinel != null && Known(l.sentinel) && Known(l.tail)
    }

    /** Every pointer in reach leads to an allocated node or a registered list. */
    ghost predicate Valid()
      reads this, repr
    {
      && this !in repr
      && (forall i | 0 <= i < |mem| :: NodeOk(i))
      && (forall t | 0 <= t < |gLists| :: ListOk(t))
    }

    ghost function NodeView(i: nat): N.Header
      requires i < |mem| && NodeOk(i)
      reads this, repr
    {
      var n := mem[i];
      N.Header(n.list.typeDef, Ptr(n.prev), Ptr(n.next), n.deleted, n.isSentinel)
    }

    ghost function ListView(t: nat): Option<N.ListValue>
      requires t < |gLists| && ListOk(t)
      reads this, repr
    {
      var l := gLists[t];
      if l == null then None else Some(N.ListValue(l.sentinel.addr, Ptr(l.tail)))
    }

    ghost predicate Views(h: N.HeapValue)
      requires Valid()
      reads this, repr
    {
      && |h.nodes| == |mem| && (forall i | 0 <= i < |mem| :: h.nodes[i] == NodeView(i))
      && |h.lists| == |gLists| && (forall t | 0 <= t < |gLists| :: h.lists[t] == ListView(t))
    }

    /** The value of the heap; no pointer in it dangles. */
    ghost function View(): (h: N.HeapValue)
      requires Valid()
      reads this, repr
      ensures Views(h) && h.Wf()
    {
      var h := N.HeapValue(seq(|mem|, i reads this, repr requires 0 <= i < |mem| && NodeOk(i) => NodeView(i)),
                           seq(|gLists|, t reads this, repr requires 0 <= t < |gLists| && ListOk(t) => ListView(t)));
      assert Views(h);
      assert h.Wf() by {
        forall i | 0 <= i < |mem|
          ensures h.Has(h.nodes[i].prev) && h.Has(h.nodes[i].next) && h.nodes[i].list < |h.lists| && h.lists[h.nodes[i].list].Some?
        {
          assert NodeOk(i) && h.nodes[i] == NodeView(i);
          assert ListOk(h.nodes[i].list) && h.lists[h.nodes[i].list] == ListView(h.nodes[i].list);
        }
        forall t | 0 <= t < |gLists| && h.lists[t].Some?
          ensures h.lists[t].value.sentinel < |h.nodes| && h.Has(h.lists[t].value.tail)
        {
          assert ListOk(t) && h.lists[t] == ListView(t);
        }
      }
      h
    }

    constructor ()
      ensures Valid() && View() == N.HeapValue([], [])
    {
      gLists, mem, repr := [], [], {};
    }

    /** `cb_rt_type_next`. */
    method Next(node: CbTypeHeader?) returns (r: Outcome<CbTypeHeader?>)
      requires Valid() && Known(node)
      ensures match N.Next(View(), Ptr(node))
              case Done(p) => r.Done? && Known(r.state) && Ptr(r.state) == p
              case Trapped(e) => r == Trapped(e)
              case Panicked => false
    {
      if node == null {
        return Done(null);
      }
      assert NodeOk(node.addr) && View().nodes[node.addr] == NodeView(node.addr);
      if node.deleted {
        return Trapped(DeletedAccess);
      }
      r := Done(node.next);
    }

    /** `cb_rt_type_previous`. */
    method Previous(node: CbTypeHeader?) returns (r: Outcome<CbTypeHeader?>)
      requires Valid() && Known(node)
      ensures match N.Previous(View(), Ptr(node))
              case Done(p) => r.Done? && Known(r.state) && Ptr(r.state) == p
              case Trapped(e) => r == Trapped(e)
              case Panicked => false
    {
      if node == null {
        return Done(null);
      }
      assert NodeOk(node.addr) && View().nodes[node.addr] == NodeView(node.addr);
      if node.deleted {
        return Trapped(DeletedAccess);
      }
      var prev := node.prev;
      assert prev != null ==> NodeOk(prev.addr) && View().nodes[prev.addr] == NodeView(prev.addr);
      if prev == null || prev.isSentinel {
        return Done(null);
      }
      r := Done(prev);
    }

    /** `cb_rt_type_first`. */
    method First(typeDef: nat) returns (r: CbTypeHeader?)
      requires Valid()
      ensures Known(r) && Ptr(r) == N.First(View(), typeDef)
    {
      if typeDef >= |gLists| || gLists[typeDef] == null {
        assert typeDef < |gLists| ==> View().lists[typeDef] == ListView(typeDef);
        return null;
      }
      assert ListOk(typeDef) && View().lists[typeDef] == ListView(typeDef);
      r := gLists[typeDef].sentinel.next;
      assert NodeOk(gLists[typeDef].sentinel.addr);
      assert View().nodes[gLists[typeDef].sentinel.addr] == NodeView(gLists[typeDef].sentinel.addr);
    }

    lemma ViewIs(h: N.HeapValue)
      requires Valid() && Views(h)
      ensures View() == h
    {
      assert View().nodes == h.nodes && View().lists == h.lists;
    }

    // One pointer write each.

    method SetNext(node: CbTypeHeader, next: CbTypeHeader?)
      requires Valid() && Known(node) && Known(next)
      modifies node
      ensures Valid()
      ensures View() == old(View()).(nodes := old(View()).nodes[node.addr := old(View()).nodes[node.addr].(next := Ptr(next))])
    {
      ghost var h := View();
      assert NodeOk(node.addr);
      node.next := next;
      forall i | 0 <= i < |mem| ensures NodeOk(i) && NodeView(i) == (if i == node.addr then h.nodes[i].(next := Ptr(next)) else h.nodes[i]) {
        assert old(NodeOk(i)) && h.nodes[i] == old(NodeView(i));
      }
      forall t | 0 <= t < |gLists| ensures ListOk(t) && ListView(t) == h.lists[t] {
        assert old(ListOk(t)) && h.lists[t] == old(ListView(t));
      }
      ViewIs(h.(nodes := h.nodes[node.addr := h.nodes[node.addr].(next := Ptr(next))]));
    }

    method SetPrev(node: CbTypeHeader, prev: CbTypeHeader?)
      requires Valid() && Known(node) && Known(prev)
      modifies node
      ensures Valid()
      ensures View() == old(View()).(nodes := old(View()).nodes[node.addr := old(View()).nodes[node.addr].(prev := Ptr(prev))])
    {
      ghost var h := View();
      assert NodeOk(node.addr);
      node.prev := prev;
      forall i | 0 <= i < |mem| ensures NodeOk(i) && NodeView(i) == (if i == node.addr then h.nodes[i].(prev := Ptr(prev)) else h.nodes[i]) {
        assert old(NodeOk(i)) && h.nodes[i] == old(NodeView(i));
      }
      forall t | 0 <= t < |gLists| ensures ListOk(t) && ListView(t) == h.lists[t] {
        assert old(ListOk(t)) && h.lists[t] == old(ListView(t));
      }
      ViewIs(h.(nodes := h.nodes[node.addr := h.nodes[node.addr].(prev := Ptr(prev))]));
    }

    method MarkDeleted(node: CbTypeHeader)
      requires Valid() && Known(node)
      modifies node
      ensures Valid()
      ensures View() == old(View()).(nodes := old(View()).nodes[node.addr := old(View()).nodes[node.addr].(deleted := true)])
    {
      ghost var h := View();
      assert NodeOk(node.addr);
      node.deleted := true;
      forall i | 0 <= i < |mem| ensures NodeOk(i) && NodeView(i) == (if i == node.addr then h.nodes[i].(deleted := true) else h.nodes[i]) {
        assert old(NodeOk(i)) && h.nodes[i] == old(NodeView(i));
      }
      forall t | 0 <= t < |gLists| ensures ListOk(t) && ListView(t) == h.lists[t] {
        assert old(ListOk(t)) && h.lists[t] == old(ListView(t));
      }
      ViewIs(h.(nodes := h.nodes[node.addr := h.nodes[node.addr].(deleted := true)]));
    }

    method SetTail(list: CbTypeList, tail: CbTypeHeader?)
      requires Valid() && list.typeDef < |gLists| && gLists[list.typeDef] == list && list.sentinel != null && Known(tail)
      modifies list
      ensures Valid() && list.sentinel == old(list.sentinel)
      ensures View() == old(View()).(lists := old(View()).lists[list.typeDef := Some(N.ListValue(list.sentinel.addr, Ptr(tail)))])
    {
      ghost var h := View();
      assert ListOk(list.typeDef);
      list.tail := tail;
      forall i | 0 <= i < |mem| ensures NodeOk(i) && NodeView(i) == h.nodes[i] {
        assert old(NodeOk(i)) && h.nodes[i] == old(NodeView(i));
      }
      forall t | 0 <= t < |gLists|
        ensures ListOk(t) && ListView(t) == (if t == list.typeDef then Some(N.ListValue(list.sentinel.addr, Ptr(tail))) else h.lists[t])
      {
        assert old(ListOk(t)) && h.lists[t] == old(ListView(t));
      }
      ViewIs(h.(lists := h.lists[list.typeDef := Some(N.ListValue(list.sentinel.addr, Ptr(tail)))]));
    }

    /** The last step of `unlink`. */
    method RepairTail(list: CbTypeList, node: CbTypeHeader, prev: CbTypeHeader?)
      requires Valid() && list.typeDef < |gLists| && gLists[list.typeDef] == list && Known(node) && Known(prev)
      modifies list
      ensures Valid()
      ensures old(View()).lists[list.typeDef].Some?
      ensures var h, l := old(View()), old(View()).lists[list.typeDef].value;
        View() == h.(lists := h.lists[list.typeDef := Some(
                  if l.tail != Some(node.addr) then l
                  else l.(tail := if prev != null && !h.nodes[prev.addr].isSentinel then Ptr(prev) else None))])
    {
      ghost var h := View();
      assert ListOk(list.typeDef) && h.lists[list.typeDef] == ListView(list.typeDef);
      assert prev != null ==> NodeOk(prev.addr) && h.nodes[prev.addr] == NodeView(prev.addr);
      if list.tail == node {
        SetTail(list, if prev != null && !prev.isSentinel then prev else null);
      } else {
        assert h.lists == h.lists[list.typeDef := Some(h.lists[list.typeDef].value)];
      }
    }

    /** The first two steps of `unlink`: each neighbour there is gets linked past the node. */
    method JoinNeighbours(prev: CbTypeHeader?, next: CbTypeHeader?)
      requires Valid() && Known(prev) && Known(next)
      modifies if prev == null then {} else {prev}, if next == null then {} else {next}
      ensures Valid()
      ensures var h := old(View());
        var n1 := if prev != null then h.nodes[prev.addr := h.nodes[prev.addr].(next := Ptr(next))] else h.nodes;
        View() == h.(nodes := if next != null then n1[next.addr := n1[next.addr].(prev := Ptr(prev))] else n1)
    {
      if prev != null { SetNext(prev, next); }
      if next != null { SetPrev(next, prev); }
    }

    /** `unlink`: the neighbours and the tail are repaired, everything else stays. */
    method Unlink(node: CbTypeHeader)
      requires Valid() && Known(node)
      modifies repr
      ensures Valid() && repr == old(repr) && View() == N.Unlink(old(View()), node.addr)
    {
      assert NodeOk(node.addr) && View().nodes[node.addr] == NodeView(node.addr);
      var prev, next, list := node.prev, node.next, node.list;
      assert prev != null ==> NodeOk(prev.addr);
      assert next != null ==> NodeOk(next.addr);
      JoinNeighbours(prev, next);
      RepairTail(list, node, prev);
    }

    /** `cb_rt_type_delete_lvalue`; a delete of a value drops the result. */
    method Delete(node: CbTypeHeader?) returns (r: Outcome<CbTypeHeader>)
      requires Valid() && Known(node)
      modifies repr
      ensures Valid() && repr == old(repr)
      ensures match N.Delete(old(View()), Ptr(node))
              case Done(d) => r.Done? && Known(r.state) && r.state.addr == d.1 && View() == d.0
              case Trapped(e) => r == Trapped(e) && View() == old(View())
              case Panicked => false
    {
      if node == null {
        return Trapped(NullDeref);
      }
      assert NodeOk(node.addr) && ListOk(node.list.typeDef);
      assert View().nodes[node.addr] == NodeView(node.addr) && View().lists[node.list.typeDef] == ListView(node.list.typeDef);
      if node.deleted || node.isSentinel {
        return Trapped(DoubleDelete);
      }
      var prev := if node.prev != null then node.prev else node.list.sentinel;
      Unlink(node);
      MarkDeleted(node);
      r := Done(prev);
    }

    /** `ensure_list`. */
    method EnsureList(typeDef: nat) returns (list: CbTypeList)
      requires Valid()
      modifies this
      ensures Valid() && fresh(repr - old(repr)) && old(mem) <= mem
      ensures typeDef < |gLists| && gLists[typeDef] == list && list.typeDef == typeDef && list in repr
      ensures View() == N.EnsureList(old(View()), typeDef)
    {
      ghost var h := View();
      if typeDef >= |gLists| {
        Grow(typeDef);
      }
      assert ListOk(typeDef) && View().lists[typeDef] == ListView(typeDef);
      if gLists[typeDef] == null {
        list := CreateList(typeDef);
      } else {
        list := gLists[typeDef];
      }
    }

    method Grow(typeDef: nat)
      requires Valid() && typeDef >= |gLists|
      modifies this
      ensures Valid() && repr == old(repr) && mem == old(mem) && typeDef < |gLists|
      ensures View() == old(View()).(lists := N.Grow(old(View()).lists, typeDef))
    {
      ghost var h := View();
      gLists := gLists + seq(typeDef + 1 - |gLists|, _ => null);
      forall i | 0 <= i < |mem| ensures NodeOk(i) && NodeView(i) == h.nodes[i] {
        assert old(NodeOk(i)) && h.nodes[i] == old(NodeView(i));
      }
      forall t | 0 <= t < |gLists| ensures ListOk(t) && ListView(t) == N.Grow(h.lists, typeDef)[t] {
        if t < |h.lists| { assert old(ListOk(t)) && h.lists[t] == old(ListView(t)); }
      }
      ViewIs(h.(lists := N.Grow(h.lists, typeDef)));
    }

    method CreateList(typeDef: nat) returns (list: CbTypeList)
      requires Valid() && typeDef < |gLists| && gLists[typeDef] == null
      modifies this
      ensures Valid() && fresh(repr - old(repr)) && old(mem) <= mem && |gLists| == old(|gLists|)
      ensures gLists[typeDef] == list && list.typeDef == typeDef && list in repr
      ensures View() == N.HeapValue(old(View()).nodes + [N.Header(typeDef, None, None, false, true)],
                                    old(View()).lists[typeDef := Some(N.ListValue(|old(View()).nodes|, None))])
    {
      ghost var h := View();
      list := new CbTypeList(typeDef);
      var sentinel := new CbTypeHeader(|mem|, list, true);
      list.sentinel := sentinel;
      gLists := gLists[typeDef := list];
      mem := mem + [sentinel];
      repr := repr + {list, sentinel};
      ghost var h' := N.HeapValue(h.nodes + [N.Header(typeDef, None, None, false, true)],
                                  h.lists[typeDef := Some(N.ListValue(|h.nodes|, None))]);
      forall i | 0 <= i < |mem| ensures NodeOk(i) && NodeView(i) == h'.nodes[i] {
        if i < |h.nodes| { assert old(NodeOk(i)) && h.nodes[i] == old(NodeView(i)); }
      }
      forall t | 0 <= t < |gLists| ensures ListOk(t) && ListView(t) == h'.lists[t] {
        if t != typeDef { assert old(ListOk(t)) && h.lists[t] == old(ListView(t)); }
      }
      ViewIs(h');
    }

    /** A fresh node, not linked yet. */
    method Calloc(list: CbTypeList) returns (node: CbTypeHeader)
      requires Valid() && list in repr && list.typeDef < |gLists| && gLists[list.typeDef] == list
      modifies this
      ensures Valid() && fresh(repr - old(repr)) && old(repr) <= repr && gLists == old(gLists) && mem == old(mem) + [node]
      ensures Known(node) && node.addr == |old(mem)| && fresh(node)
      ensures View() == old(View()).(nodes := old(View()).nodes + [N.Header(list.typeDef, None, None, false, false)])
    {
      ghost var h := View();
      node := new CbTypeHeader(|mem|, list, false);
      mem := mem + [node];
      repr := repr + {node};
      ghost var h' := h.(nodes := h.nodes + [N.Header(list.typeDef, None, None, false, false)]);
      forall i | 0 <= i < |mem| ensures NodeOk(i) && NodeView(i) == h'.nodes[i] {
        if i < |h.nodes| { assert old(NodeOk(i)) && h.nodes[i] == old(NodeView(i)); }
      }
      forall t | 0 <= t < |gLists| ensures ListOk(t) && ListView(t) == h'.lists[t] {
        assert old(ListOk(t)) && h.lists[t] == old(ListView(t));
      }
      ViewIs(h');
    }

    /** `cb_rt_type_new`: append at the tail. */
    method New(typeDef: nat) returns (node: CbTypeHeader)
      requires Valid()
      modifies this, repr
      ensures Valid() && fresh(repr - old(repr)) && Known(node)
      ensures View() == N.New(old(View()), typeDef) && node.addr == |View().nodes| - 1
    {
      var list := EnsureList(typeDef);
      node := Append(list);
    }

    method Append(list: CbTypeList) returns (node: CbTypeHeader)
      requires Valid() && list.typeDef < |gLists| && gLists[list.typeDef] == list && View().lists[list.typeDef].Some?
      modifies this, repr
      ensures Valid() && fresh(repr - old(repr)) && Known(node) && node.addr == |old(View()).nodes|
      ensures View() == N.Append(old(View()), list.typeDef)
    {
      ghost var h, t := View(), list.typeDef;
      assert ListOk(t) && h.lists[t] == ListView(t);
      var prev := if list.tail != null then list.tail else list.sentinel;
      assert NodeOk(prev.addr);
      node := Calloc(list);
      Link(list, prev, node);
      assert View().nodes == N.Append(h, t).nodes;
    }

    /** The pointer writes of `cb_rt_type_new`. */
    method Link(list: CbTypeList, prev: CbTypeHeader, node: CbTypeHeader)
      requires Valid() && list.typeDef < |gLists| && gLists[list.typeDef] == list && list.sentinel != null
      requires Known(prev) && Known(node) && prev != node
      modifies prev, node, list
      ensures Valid()
      ensures var h := old(View());
        View() == N.HeapValue(h.nodes[node.addr := h.nodes[node.addr].(prev := Some(prev.addr))]
                                     [prev.addr := h.nodes[prev.addr].(next := Some(node.addr))],
                              h.lists[list.typeDef := Some(N.ListValue(old(list.sentinel.addr), Some(node.addr)))])
    {
      SetPrev(node, prev);
      SetNext(prev, node);
      SetTail(list, node);
    }
  }
}
