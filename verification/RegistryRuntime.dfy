/** The registry as cb_object.cpp and cb_particle.h change it: process-global lists, loops and in-place compaction. */
module RegistryRuntime {
  import opened Common
  import opened Registry

  /** integrate_and_cull over the first `n` particles: survivors are compacted to the front. */
  method IntegrateAndCull(particles: array<int>, n: nat) returns (w: nat)
    requires n <= particles.Length
    modifies particles
    ensures w <= n && particles[..w] == Integrate(old(particles[..n]))
  {
    hide Integrate;
    w := 0;
    ghost var all := particles[..n];
    assert all[0..] == all;
    for r := 0 to n
      invariant w <= r
      invariant particles[r..n] == all[r..]
      invariant particles[..w] + Integrate(all[r..]) == Integrate(all)
    {
      IntegrateNext(all, r, particles[..w]);
      assert particles[r] == all[r..][0];
      assert particles[r + 1..n] == all[r..][1..];
      var p := particles[r] - 1;
      if p >= 0 {
        ghost var before := particles[..w];
        particles[w] := p;
        w := w + 1;
        assert particles[..w] == before + [p];
      }
      assert all[r..][1..] == all[r + 1..];
    }
    NoneLeft(all[n..]);
    assert particles[..w] + [] == particles[..w];
  }

  lemma IntegrateNext(all: seq<int>, r: nat, done: seq<int>)
    requires r < |all|
    ensures done + Integrate(all[r..]) == (if all[r] - 1 >= 0 then done + [all[r] - 1] else done) + Integrate(all[r + 1..])
  {
    assert all[r..][1..] == all[r + 1..];
    var rest := Integrate(all[r + 1..]);
    assert done + ([all[r] - 1] + rest) == (done + [all[r] - 1]) + rest;
    assert done + ([] + rest) == done + rest;
  }

  lemma NoneLeft(particles: seq<int>)
    requires particles == []
    ensures Integrate(particles) == []
  {
  }

  /** spawn_due on an emitter's fields. */
  method SpawnDueLoop(e: Emitter) returns (r: Emitter)
    ensures r == SpawnDue(e)
  {
    r := e;
    if e.density <= 0 { return; }
    while r.spawnCounter > r.density
      invariant SpawnDue(r) == SpawnDue(e) && r.density == e.density
      decreases r.spawnCounter
    {
      var spawned: seq<int> := [];
      var i := 0;
      while i < r.count
        invariant 0 <= i && (i <= r.count || i == 0) && spawned == Repeat(r.particleLife, i)
        decreases r.count - i
      {
        spawned := spawned + [r.particleLife];
        i := i + 1;
      }
      r := r.(spawnCounter := r.spawnCounter - r.density, particles := r.particles + spawned);
    }
  }

  /** std::remove over a vector of handles. */
  method EraseFrom(v: seq<nat>, o: nat) returns (r: seq<nat>)
    ensures r == Erase(v, o)
  {
    r := [];
    assert v[0..] == v;
    for i := 0 to |v|
      invariant r + Erase(v[i..], o) == Erase(v, o)
    {
      assert v[i..][1..] == v[i + 1..];
      if v[i] != o { r := r + [v[i]]; }
    }
    assert r + [] == r;
  }

  /** The process-global registry. */
  class Objects {
    var heap: map<nat, Object>
    var next: nat
    ghost var freed: seq<nat>
    var live: seq<nat>
    var floor: seq<nat>
    var regular: seq<nat>
    var rogue: seq<nat>
    var checks: seq<Check>
    var pickables: seq<nat>
    var lastPicked: Option<nat>
    var enumIndex: nat

    constructor ()
      ensures View() == EMPTY
    {
      heap, next, freed, live, floor, regular, rogue := map[], 0, [], [], [], [], [];
      checks, pickables, lastPicked, enumIndex := [], [], None, 0;
    }

    ghost function View(): State
      reads this
    {
      State(heap, next, freed, live, floor, regular, rogue, checks, pickables, lastPicked, enumIndex)
    }

    method RegisterObject(obj: Object) returns (o: nat)
      modifies this
      ensures View() == Register(old(View()), obj) && o == old(next)
    {
      o := next;
      heap, next := heap[o := obj], next + 1;
      live := live + [o];
      if obj.isFloor { floor := floor + [o]; } else { regular := regular + [o]; }
    }

    /** `delete o`: the object must still be allocated. */
    method FreeObject(o: nat)
      requires o in heap
      modifies this`heap, this`freed
      ensures View() == Free(old(View()), o)
    {
      heap := heap - {o};
      freed := freed + [o];
    }

    method Unregister(o: nat)
      modifies this`live, this`pickables, this`lastPicked
      ensures live == Erase(old(live), o)
      ensures pickables == Erase(old(pickables), o) && lastPicked == if old(lastPicked) == Some(o) then None else old(lastPicked)
    {
      live := EraseFrom(live, o);
      pickables := EraseFrom(pickables, o);
      if lastPicked == Some(o) { lastPicked := None; }
    }

    method DeleteObject(o: nat)
      requires o in heap
      modifies this
      ensures View() == Delete(old(View()), o)
    {
      hide Erase, WithoutChecks;
      var obj := heap[o];
      Unregister(o);
      if Drains(obj) {
        heap := heap[o := obj.(emitter := Some(obj.emitter.value.(stop := true)))];
        rogue := rogue + [o];
      } else {
        floor := EraseFrom(floor, o);
        regular := EraseFrom(regular, o);
        rogue := EraseFrom(rogue, o);
        checks := WithoutChecks(checks, o);
        FreeObject(o);
      }
    }

    /** Both lists are freed, each object still allocated when its turn comes. */
    method FreeAll(objects: seq<nat>)
      requires Distinct(objects) && forall o | o in objects :: o in heap
      modifies this`heap, this`freed
      ensures heap == old(heap) - (set o | o in objects) && freed == old(freed) + objects
    {
      for i := 0 to |objects|
        invariant forall o | o in heap :: o in old(heap) && heap[o] == old(heap)[o]
        invariant forall o | o in old(heap) :: o in heap <==> o !in objects[..i]
        invariant freed == old(freed) + objects[..i]
      {
        assert objects[i] !in objects[..i];
        FreeObject(objects[i]);
        assert objects[..i + 1] == objects[..i] + [objects[i]];
      }
      assert objects[..|objects|] == objects;
    }

    method ClearObjects()
      requires Inv(View())
      modifies this
      ensures View() == Clear(old(View()))
    {
      FreeAll(live);
      FreeAll(rogue);
      live, floor, regular, rogue, pickables, checks := [], [], [], [], [], [];
      lastPicked, enumIndex := None, 0;
    }

    method ObjectOrder(o: nat, direction: int)
      requires o in heap
      modifies this
      ensures View() == Order(old(View()), o, direction)
    {
      if direction != 1 && direction != -1 { return; }
      var isFloor := heap[o].isFloor;
      var chain := if isFloor then floor else regular;
      if o !in chain { return; }
      var rest := EraseFrom(chain, o);
      chain := if direction == 1 then rest + [o] else [o] + rest;
      if isFloor { floor := chain; } else { regular := chain; }
    }

    method IntegrateEmitter(o: nat)
      requires o in heap && heap[o].emitter.Some?
      modifies this`heap
      ensures var obj := old(heap)[o];
        heap == old(heap)[o := obj.(emitter := Some(obj.emitter.value.(particles := Integrate(obj.emitter.value.particles))))]
    {
      var obj := heap[o];
      var e := obj.emitter.value;
      var n := |e.particles|;
      var buffer := new int[n](i requires 0 <= i < n => e.particles[i]);
      assert buffer[..n] == e.particles;
      var w := IntegrateAndCull(buffer, n);
      heap := heap[o := obj.(emitter := Some(e.(particles := buffer[..w])))];
    }

    /** One turn of the rogue loop; the index stays where an element was erased. */
    method DrainAt(i: nat) returns (k: nat)
      requires Inv(View()) && i < |rogue|
      modifies this
      ensures var o := old(rogue)[i];
        && o in old(heap) && old(heap)[o].emitter.Some?
        && View() == DrainOne(old(View()), o)
        && k == if o in rogue then i + 1 else i
    {
      hide Inv, Erase, Integrate;
      ghost var before := View();
      var o := rogue[i];
      InvRogue(before, i);
      DrainOneFacts(before, i);
      EraseAt(before.rogue, i);
      IntegrateEmitter(o);
      if heap[o].emitter.value.particles == [] {
        floor := EraseFrom(floor, o);
        regular := EraseFrom(regular, o);
        rogue := rogue[..i] + rogue[i + 1..];
        FreeObject(o);
        assert heap == before.heap - {o};
        k := i;
      } else {
        k := i + 1;
      }
    }

    method UpdateRogueEmitters()
      requires Inv(View())
      modifies this
      ensures View() == DrainFrom(old(View()), 0)
    {
      var i: nat := 0;
      while i < |rogue|
        invariant Inv(View()) && DrainFrom(View(), i) == DrainFrom(old(View()), 0)
        decreases |rogue| - i
      {
        ghost var before := View();
        DrainOneKeeps(before, rogue[i]);
        EraseShorter(rogue, rogue[i]);
        i := DrainAt(i);
        hide Inv;
      }
    }

    /** update_emitter. */
    method UpdateEmitter(o: nat)
      requires o in heap && heap[o].emitter.Some?
      modifies this`heap
      ensures heap == old(heap)[o := old(heap)[o].(emitter := Some(TickEmitter(old(heap)[o].emitter.value)))]
    {
      var obj := heap[o];
      var e := obj.emitter.value;
      heap := heap[o := obj.(emitter := Some(e.(spawnCounter := e.spawnCounter + 1)))];
      IntegrateEmitter(o);
      e := heap[o].emitter.value;
      if !e.stop { e := SpawnDueLoop(e); }
      heap := heap[o := obj.(emitter := Some(e))];
    }

    /** cb_object_life_tick; the counter wraps below zero. */
    method LifeTick(o: nat) returns (dead: bool)
      requires o in heap
      modifies this`heap
      ensures var obj := old(heap)[o];
        && heap == old(heap)[o := obj.(life := if !obj.usingLife then obj.life else if obj.life == 0 then U32 - 1 else obj.life - 1)]
        && (dead <==> obj.usingLife && heap[o].life == 0)
    {
      var obj := heap[o];
      if !obj.usingLife { return false; }
      var life := if obj.life == 0 then U32 - 1 else obj.life - 1;
      heap := heap[o := obj.(life := life)];
      dead := life == 0;
    }

    /** One turn of update_all's loop. */
    method UpdateObject(o: nat)
      requires o in heap
      modifies this
      ensures View() == UpdateOne(old(View()), o)
    {
      hide TickEmitter, Delete;
      ghost var obj := heap[o];
      if heap[o].emitter.Some? { UpdateEmitter(o); }
      var dead := LifeTick(o);
      assert heap == old(heap)[o := Ticked(obj)];
      if dead { DeleteObject(o); }
    }

    /** update_all: the snapshot is walked although deletions change the registry under way. */
    method UpdateTick()
      requires Inv(View())
      modifies this
      ensures View() == UpdateAll(old(View()))
    {
      var snapshot := live;
      UpdateLiveKeeps(View(), snapshot);
      assert snapshot[0..] == snapshot;
      for i := 0 to |snapshot|
        invariant Inv(View()) && Distinct(snapshot[i..]) && forall o | o in snapshot[i..] :: o in live
        invariant UpdateLive(View(), snapshot[i..]) == UpdateLive(old(View()), snapshot)
      {
        ghost var before := View();
        var o := snapshot[i];
        assert snapshot[i..][0] == o && snapshot[i..][1..] == snapshot[i + 1..];
        UpdateOneKeeps(before, o);
        TailDistinct(snapshot[i..]);
        UpdateObject(o);
        hide Inv;
      }
      assert snapshot[|snapshot|..] == [];
      UpdateRogueEmitters();
    }
  }
}
