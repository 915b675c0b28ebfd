/** The native runtime's type-instance heap (cb_type.cpp): leaked nodes linked by
    pointers, a `deleted` flag per node, lists created on first use. A node is named
    by the order in which it was allocated; addresses are never reused. */
module NativeHeap {
  import opened Common
  import opened Outcomes

  datatype Header = Header(list: nat, prev: Option<nat>, next: Option<nat>, deleted: bool, isSentinel: bool)

  datatype ListValue = ListValue(sentinel: nat, tail: Option<nat>)

  datatype HeapValue = HeapValue(nodes: seq<Header>, lists: seq<Option<ListValue>>)
  {
    predicate Has(a: Option<nat>) {
      a.Some? ==> a.value < |nodes|
    }

    /** No dangling pointer. */
    predicate Wf() {
      && (forall i | 0 <= i < |nodes| :: Has(nodes[i].prev) && Has(nodes[i].next)
                                         && nodes[i].list < |lists| && lists[nodes[i].list].Some?)
      && (forall t | 0 <= t < |lists| && lists[t].Some? :: lists[t].value.sentinel < |nodes| && Has(lists[t].value.tail))
    }
  }

  /** `g_lists.resize(idx + 1, nullptr)`. */
  function Grow<T>(lists: seq<Option<T>>, t: nat): (r: seq<Option<T>>)
    ensures |r| > t && lists <= r && forall u | |lists| <= u < |r| :: r[u].None?
  {
    if t < |lists| then lists else lists + seq(t + 1 - |lists|, _ => None)
  }

  function EnsureList(h: HeapValue, t: nat): (r: HeapValue)
    requires h.Wf()
    ensures r.Wf() && t < |r.lists| && r.lists[t].Some?
  {
    var lists := Grow(h.lists, t);
    if lists[t].Some? then h.(lists := lists)
    else HeapValue(h.nodes + [Header(t, None, None, false, true)], lists[t := Some(ListValue(|h.nodes|, None))])
  }

  /** Link a new node behind the tail of an existing list. */
  function Append(h: HeapValue, t: nat): (r: HeapValue)
    requires h.Wf() && t < |h.lists| && h.lists[t].Some?
    ensures r.Wf() && |r.nodes| == |h.nodes| + 1
  {
    var l := h.lists[t].value;
    var prev := if l.tail.Some? then l.tail.value else l.sentinel;
    var node := |h.nodes|;
    HeapValue(h.nodes[prev := h.nodes[prev].(next := Some(node))] + [Header(t, Some(prev), None, false, false)],
              h.lists[t := Some(l.(tail := Some(node)))])
  }

  /** `cb_rt_type_new`: the node returned is the last one of the result. */
  function New(h: HeapValue, t: nat): (r: HeapValue)
    requires h.Wf()
    ensures r.Wf() && |r.nodes| > 0
  {
    Append(EnsureList(h, t), t)
  }

  /** `cb_rt_type_check`. */
  function Check(h: HeapValue, node: Option<nat>): Outcome<()>
    requires h.Has(node)
  {
    if node.None? then Trapped(NullDeref)
    else if h.nodes[node.value].deleted then Trapped(DeletedAccess)
    else if h.nodes[node.value].isSentinel then Trapped(NullDeref)
    else Done(())
  }

  function First(h: HeapValue, t: nat): Option<nat>
    requires h.Wf()
  {
    if t >= |h.lists| || h.lists[t].None? then None else h.nodes[h.lists[t].value.sentinel].next
  }

  function Last(h: HeapValue, t: nat): Option<nat> {
    if t >= |h.lists| || h.lists[t].None? then None else h.lists[t].value.tail
  }

  function Next(h: HeapValue, node: Option<nat>): Outcome<Option<nat>>
    requires h.Has(node)
  {
    if node.None? then Done(None)
    else if h.nodes[node.value].deleted then Trapped(DeletedAccess)
    else Done(h.nodes[node.value].next)
  }

  function Previous(h: HeapValue, node: Option<nat>): Outcome<Option<nat>>
    requires h.Wf() && h.Has(node)
  {
    if node.None? then Done(None)
    else if h.nodes[node.value].deleted then Trapped(DeletedAccess)
    else
      var prev := h.nodes[node.value].prev;
      if prev.None? || h.nodes[prev.value].isSentinel then Done(None) else Done(prev)
  }

  /** `unlink`: repair the neighbours and the cached tail; the node keeps its own links. */
  function Unlink(h: HeapValue, node: nat): (r: HeapValue)
    requires h.Wf() && node < |h.nodes|
    ensures r.Wf() && |r.nodes| == |h.nodes|
  {
    var prev, next, t := h.nodes[node].prev, h.nodes[node].next, h.nodes[node].list;
    var n1 := if prev.Some? then h.nodes[prev.value := h.nodes[prev.value].(next := next)] else h.nodes;
    var n2 := if next.Some? then n1[next.value := n1[next.value].(prev := prev)] else n1;
    var l := h.lists[t].value;
    var l' := if l.tail != Some(node) then l
              else l.(tail := if prev.Some? && !n2[prev.value].isSentinel then prev else None);
    HeapValue(n2, h.lists[t := Some(l')])
  }

  /** The two deletes: the second result is where a deleting variable is rewound to. */
  function Delete(h: HeapValue, node: Option<nat>): (r: Outcome<(HeapValue, nat)>)
    requires h.Wf() && h.Has(node)
    ensures r.Done? ==> r.state.0.Wf() && |r.state.0.nodes| == |h.nodes| && r.state.1 < |h.nodes|
    ensures !r.Panicked?
  {
    if node.None? then Trapped(NullDeref)
    else if h.nodes[node.value].deleted || h.nodes[node.value].isSentinel then Trapped(DoubleDelete)
    else
      var n := h.nodes[node.value];
      var prev := if n.prev.Some? then n.prev.value else h.lists[n.list].value.sentinel;
      var h1 := Unlink(h, node.value);
      Done((h1.(nodes := h1.nodes[node.value := h1.nodes[node.value].(deleted := true)]), prev))
  }
}
