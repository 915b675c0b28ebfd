/** The object registry of cb_object.cpp as a value: which objects exist, and which lists hold them. */
module Registry {
  import opened Common

  const U32 := 0x1_0000_0000

  /** A particle emitter; a particle is its remaining life. */
  datatype Emitter = Emitter(particleLife: int, density: int, count: int, spawnCounter: int, stop: bool, particles: seq<int>)

  datatype Object = Object(isFloor: bool, emitter: Option<Emitter>, usingLife: bool, life: nat)

  /** A registered collision check; no target means the tile map. */
  datatype Check = Check(a: nat, b: Option<nat>)

  /** `heap` are the allocated objects by allocation number, `freed` the log of deletions. */
  datatype State = State(
    heap: map<nat, Object>, next: nat, freed: seq<nat>,
    live: seq<nat>, floor: seq<nat>, regular: seq<nat>, rogue: seq<nat>,
    checks: seq<Check>, pickables: seq<nat>, lastPicked: Option<nat>, enumIndex: nat)

  const EMPTY := State(map[], 0, [], [], [], [], [], [], [], None, 0)

  // ── Lists ──────────────────────────────────────────────────────────────

  /** erase_from: every occurrence goes. */
  function Erase(v: seq<nat>, o: nat): (r: seq<nat>)
    ensures forall x :: x in r <==> x in v && x != o
  {
    if v == [] then []
    else if v[0] == o then Erase(v[1..], o)
    else [v[0]] + Erase(v[1..], o)
  }

  lemma {:induction false} EraseDistinct(v: seq<nat>, o: nat)
    requires Distinct(v)
    ensures Distinct(Erase(v, o))
  {
    if v != [] {
      assert Distinct(v[1..]) by { TailDistinct(v); }
      EraseDistinct(v[1..], o);
      TailDistinct(v);
      if v[0] != o { ConsDistinct(v[0], Erase(v[1..], o)); }
    }
  }

  lemma TailDistinct(v: seq<nat>)
    requires v != [] && Distinct(v)
    ensures Distinct(v[1..]) && v[0] !in v[1..]
  {
    forall i, j | 0 <= i < j < |v[1..]| ensures v[1..][i] != v[1..][j] { assert v[i + 1] != v[j + 1]; }
  }

  lemma ConsDistinct(x: nat, v: seq<nat>)
    requires Distinct(v) && x !in v
    ensures Distinct([x] + v)
  {
  }

  lemma SnocDistinct(v: seq<nat>, x: nat)
    requires Distinct(v) && x !in v
    ensures Distinct(v + [x])
  {
  }

  /** The checks that do not mention `o`. */
  function WithoutChecks(cs: seq<Check>, o: nat): (r: seq<Check>)
    ensures forall c :: c in r <==> c in cs && c.a != o && c.b != Some(o)
  {
    if cs == [] then []
    else if cs[0].a == o || cs[0].b == Some(o) then WithoutChecks(cs[1..], o)
    else [cs[0]] + WithoutChecks(cs[1..], o)
  }

  // ── Particles ──────────────────────────────────────────────────────────

  /** integrate_and_cull: a frame less for each; a life below zero is culled. */
  function Integrate(particles: seq<int>): seq<int> {
    if particles == [] then []
    else (if particles[0] - 1 >= 0 then [particles[0] - 1] else []) + Integrate(particles[1..])
  }

  function Repeat(x: int, n: int): seq<int> {
    if n <= 0 then [] else seq(n, _ => x)
  }

  /** spawn_due. */
  function SpawnDue(e: Emitter): Emitter
    decreases if e.density > 0 then e.spawnCounter else 0
  {
    if e.density <= 0 || e.spawnCounter <= e.density then e
    else SpawnDue(e.(spawnCounter := e.spawnCounter - e.density, particles := e.particles + Repeat(e.particleLife, e.count)))
  }

  /** update_emitter. */
  function TickEmitter(e: Emitter): Emitter {
    var e1 := e.(spawnCounter := e.spawnCounter + 1, particles := Integrate(e.particles));
    if e1.stop then e1 else SpawnDue(e1)
  }

  // ── Operations ─────────────────────────────────────────────────────────

  function Register(s: State, obj: Object): State {
    s.(heap := s.heap[s.next := obj], next := s.next + 1, live := s.live + [s.next],
       floor := if obj.isFloor then s.floor + [s.next] else s.floor,
       regular := if obj.isFloor then s.regular else s.regular + [s.next])
  }

  function FreshObject(isFloor: bool, emitter: Option<Emitter>): Object {
    Object(isFloor, emitter, false, 0)
  }

  function NewEmitter(particleLife: int): Emitter {
    Emitter(particleLife, 1, 1, 0, false, [])
  }

  /** `delete o`. */
  function Free(s: State, o: nat): State {
    s.(heap := s.heap - {o}, freed := s.freed + [o])
  }

  function Unpick(s: State, o: nat): State {
    s.(pickables := Erase(s.pickables, o), lastPicked := if s.lastPicked == Some(o) then None else s.lastPicked)
  }

  predicate Drains(obj: Object) {
    obj.emitter.Some? && !obj.emitter.value.stop && obj.emitter.value.particles != []
  }

  /** The emitter stops spawning and leaves the registry, but not its draw chain. */
  function Retire(s: State, o: nat): State
    requires o in s.heap && s.heap[o].emitter.Some?
  {
    var obj := s.heap[o];
    var stopped := obj.(emitter := Some(obj.emitter.value.(stop := true)));
    Unpick(s, o).(heap := s.heap[o := stopped], live := Erase(s.live, o), rogue := s.rogue + [o])
  }

  /** Every list is scrubbed and the object freed. */
  function Destroy(s: State, o: nat): State {
    var s1 := Unpick(s, o).(live := Erase(s.live, o), floor := Erase(s.floor, o), regular := Erase(s.regular, o),
                            rogue := Erase(s.rogue, o), checks := WithoutChecks(s.checks, o));
    Free(s1, o)
  }

  /** cb_rt_delete_object. */
  function Delete(s: State, o: nat): State
    requires o in s.heap
  {
    if Drains(s.heap[o]) then Retire(s, o) else Destroy(s, o)
  }

  /** cb_rt_clear_objects. */
  function Clear(s: State): State {
    State(s.heap - (set o | o in s.live) - (set o | o in s.rogue), s.next, s.freed + s.live + s.rogue,
          [], [], [], [], [], [], None, 0)
  }

  /** cb_rt_object_order. */
  function Order(s: State, o: nat, direction: int): State
    requires o in s.heap
  {
    if direction != 1 && direction != -1 then s
    else
      var chain := if s.heap[o].isFloor then s.floor else s.regular;
      if o !in chain then s
      else
        var moved := if direction == 1 then Erase(chain, o) + [o] else [o] + Erase(chain, o);
        if s.heap[o].isFloor then s.(floor := moved) else s.(regular := moved)
  }

  /** register_collision: types are 1 box, 2 circle, 4 map; handling 0 report, 1 stop, 2 slide. An invalid
      request registers nothing. */
  function SetupCollision(s: State, a: nat, typeA: int, b: Option<nat>, bIsMap: bool, typeB: int, handling: int): State
    requires a in s.heap && (b.Some? ==> b.value in s.heap)
  {
    var valid :=
      && s.heap[a].emitter.None? && (b.Some? ==> s.heap[b.value].emitter.None?)
      && (typeA == 1 || typeA == 2)
      && (if bIsMap then typeB == 4 else b.Some? && typeA == typeB)
      && (if handling == 1 then typeA == 2 else handling == 0 || handling == 2);
    if valid then s.(checks := s.checks + [Check(a, b)]) else s
  }

  /** cb_rt_object_pickable. */
  function Pickable(s: State, o: nat, style: int): State
    requires o in s.heap
  {
    if s.heap[o].emitter.Some? then s
    else if style == 0 then s.(pickables := Erase(s.pickables, o))
    else if 1 <= style <= 3 && o !in s.pickables then s.(pickables := s.pickables + [o])
    else s
  }

  /** ObjectPick: the nearest hit is a pickable object, or nothing; which one is geometry. */
  function Pick(s: State, picker: nat, nearest: Option<nat>): State {
    s.(lastPicked := if nearest.Some? && nearest.value in s.pickables && nearest.value != picker then nearest else None)
  }

  function SetLife(s: State, o: nat, frames: int): State
    requires o in s.heap
  {
    s.(heap := s.heap[o := s.heap[o].(usingLife := true, life := frames % U32)])
  }

  function SetEmission(s: State, o: nat, density: int, count: int): State
    requires o in s.heap
  {
    var obj := s.heap[o];
    if obj.emitter.None? then s
    else s.(heap := s.heap[o := obj.(emitter := Some(obj.emitter.value.(density := density, count := count)))])
  }

  // ── The update tick ────────────────────────────────────────────────────

  /** The object after its particle step and its life step; the life counter wraps below zero. */
  function Ticked(obj: Object): Object {
    var e := if obj.emitter.Some? then Some(TickEmitter(obj.emitter.value)) else None;
    obj.(emitter := e, life := if !obj.usingLife then obj.life else if obj.life == 0 then U32 - 1 else obj.life - 1)
  }

  /** One turn of update_all's loop. */
  function UpdateOne(s: State, o: nat): State
    requires o in s.heap
  {
    var obj := Ticked(s.heap[o]);
    var s1 := s.(heap := s.heap[o := obj]);
    if obj.usingLife && obj.life == 0 then Delete(s1, o) else s1
  }

  /** One turn of the rogue loop: the object leaves only its draw chain and the rogue list. */
  function DrainOne(s: State, o: nat): State
    requires o in s.heap && s.heap[o].emitter.Some?
  {
    var obj := s.heap[o];
    var e := obj.emitter.value.(particles := Integrate(obj.emitter.value.particles));
    if e.particles == [] then
      Free(s.(floor := Erase(s.floor, o), regular := Erase(s.regular, o), rogue := Erase(s.rogue, o)), o)
    else s.(heap := s.heap[o := obj.(emitter := Some(e))])
  }

  // ── The invariant ──────────────────────────────────────────────────────

  /** Allocated objects are exactly the live and the rogue ones, never both. */
  ghost predicate Members(s: State) {
    && Distinct(s.live) && Distinct(s.rogue)
    && (forall o :: o in s.heap <==> o in s.live || o in s.rogue)
    && (forall o | o in s.live :: o !in s.rogue)
  }

  /** The two draw chains hold exactly the allocated objects, each on its side. */
  ghost predicate Chains(s: State) {
    && Distinct(s.floor) && Distinct(s.regular)
    && (forall o :: o in s.floor <==> o in s.heap && s.heap[o].isFloor)
    && (forall o :: o in s.regular <==> o in s.heap && !s.heap[o].isFloor)
  }

  /** Rogues are stopped emitters with particles left; no live emitter is stopped. */
  ghost predicate Emitters(s: State) {
    forall o | o in s.heap ::
      if o in s.rogue then s.heap[o].emitter.Some? && s.heap[o].emitter.value.stop && s.heap[o].emitter.value.particles != []
      else s.heap[o].emitter.Some? ==> !s.heap[o].emitter.value.stop
  }

  /** A live object that is no emitter. */
  ghost predicate Plain(s: State, o: nat) {
    o in s.live && o in s.heap && s.heap[o].emitter.None?
  }

  /** Checks, pick list and last pick refer to live objects that are no emitters. */
  ghost predicate Referenced(s: State) {
    && (forall c | c in s.checks :: Plain(s, c.a) && (c.b.Some? ==> Plain(s, c.b.value)))
    && Distinct(s.pickables) && (forall o | o in s.pickables :: Plain(s, o))
    && (s.lastPicked.Some? ==> Plain(s, s.lastPicked.value))
  }

  /** Every allocation number handed out is either allocated or was freed, exactly once. */
  ghost predicate Logged(s: State) {
    && Distinct(s.freed)
    && (forall o: nat :: o in s.freed <==> o < s.next && o !in s.heap)
    && (forall o | o in s.heap :: o < s.next)
  }

  ghost predicate Inv(s: State) {
    Members(s) && Chains(s) && Emitters(s) && Referenced(s) && Logged(s)
  }

  // ── Every operation keeps it ───────────────────────────────────────────

  lemma RegisterKeeps(s: State, obj: Object)
    requires Inv(s) && (obj.emitter.Some? ==> !obj.emitter.value.stop)
    ensures Inv(Register(s, obj))
  {
    var t := Register(s, obj);
    assert s.next !in s.heap;
    SnocDistinct(s.live, s.next);
    if obj.isFloor { SnocDistinct(s.floor, s.next); } else { SnocDistinct(s.regular, s.next); }
    assert forall o :: Plain(s, o) ==> Plain(t, o);
  }

  /** Retiring an emitter: no list that only live plain objects may be in can hold it. */
  lemma RetireKeeps(s: State, o: nat)
    requires Inv(s) && o in s.live && Drains(s.heap[o])
    ensures Inv(Retire(s, o))
  {
    var t := Retire(s, o);
    EraseDistinct(s.live, o);
    EraseDistinct(s.pickables, o);
    SnocDistinct(s.rogue, o);
    assert forall x :: Plain(s, x) ==> x != o && Plain(t, x);
  }

  lemma DestroyKeeps(s: State, o: nat)
    requires Inv(s) && o in s.live
    ensures Inv(Destroy(s, o))
  {
    var t := Destroy(s, o);
    EraseDistinct(s.live, o);
    EraseDistinct(s.floor, o);
    EraseDistinct(s.regular, o);
    EraseDistinct(s.rogue, o);
    EraseDistinct(s.pickables, o);
    SnocDistinct(s.freed, o);
    assert forall x :: Plain(s, x) && x != o ==> Plain(t, x);
  }

  lemma DeleteKeeps(s: State, o: nat)
    requires Inv(s) && o in s.live
    ensures o in s.heap && Inv(Delete(s, o))
  {
    if Drains(s.heap[o]) { RetireKeeps(s, o); } else { DestroyKeeps(s, o); }
  }

  lemma ConcatDistinct(freed: seq<nat>, more: seq<nat>)
    requires Distinct(freed) && Distinct(more) && (forall o | o in more :: o !in freed)
    ensures Distinct(freed + more)
  {
    var all := freed + more;
    forall i, j | 0 <= i < j < |all| ensures all[i] != all[j] {
      if i < |freed| <= j { assert all[j] in more && all[i] in freed; }
    }
  }

  lemma ClearKeeps(s: State)
    requires Inv(s)
    ensures Inv(Clear(s)) && Clear(s).heap == map[] && multiset(Clear(s).freed) == multiset(s.freed) + multiset(s.live) + multiset(s.rogue)
  {
    ConcatDistinct(s.freed, s.live);
    ConcatDistinct(s.freed + s.live, s.rogue);
    assert Clear(s).heap == map[];
  }

  lemma OrderKeeps(s: State, o: nat, direction: int)
    requires Inv(s) && o in s.live
    ensures o in s.heap && Inv(Order(s, o, direction))
  {
    var t := Order(s, o, direction);
    var chain := if s.heap[o].isFloor then s.floor else s.regular;
    EraseDistinct(chain, o);
    ConsDistinct(o, Erase(chain, o));
    SnocDistinct(Erase(chain, o), o);
    assert forall x :: Plain(s, x) ==> Plain(t, x);
  }

  lemma SetupCollisionKeeps(s: State, a: nat, typeA: int, b: Option<nat>, bIsMap: bool, typeB: int, handling: int)
    requires Inv(s) && a in s.live && (b.Some? ==> b.value in s.live)
    ensures a in s.heap && (b.Some? ==> b.value in s.heap) && Inv(SetupCollision(s, a, typeA, b, bIsMap, typeB, handling))
  {
    var t := SetupCollision(s, a, typeA, b, bIsMap, typeB, handling);
    assert forall x :: Plain(s, x) ==> Plain(t, x);
  }

  lemma PickableKeeps(s: State, o: nat, style: int)
    requires Inv(s) && o in s.live
    ensures o in s.heap && Inv(Pickable(s, o, style))
  {
    LiveIsAllocated(s);
    var t := Pickable(s, o, style);
    assert Members(t) && Chains(t) && Emitters(t) && Logged(t);
    hide Members, Chains, Emitters, Logged;
    PickableRefers(s, o, style);
  }

  lemma PickableRefers(s: State, o: nat, style: int)
    requires Referenced(s) && o in s.live && o in s.heap
    ensures Referenced(Pickable(s, o, style))
  {
    var t := Pickable(s, o, style);
    EraseDistinct(s.pickables, o);
    if o !in s.pickables { SnocDistinct(s.pickables, o); }
    assert forall x :: Plain(s, x) ==> Plain(t, x);
  }

  lemma PickKeeps(s: State, picker: nat, nearest: Option<nat>)
    requires Inv(s)
    ensures Inv(Pick(s, picker, nearest))
  {
    var t := Pick(s, picker, nearest);
    assert forall x :: Plain(s, x) ==> Plain(t, x);
  }

  /** Replacing a live object by one of the same kind. */
  lemma ReplaceKeeps(s: State, o: nat, obj: Object)
    requires Inv(s) && o in s.live && o in s.heap
    requires obj.isFloor == s.heap[o].isFloor && obj.emitter.Some? == s.heap[o].emitter.Some?
    requires obj.emitter.Some? ==> !obj.emitter.value.stop
    ensures Inv(s.(heap := s.heap[o := obj]))
  {
    var t := s.(heap := s.heap[o := obj]);
    assert forall x :: Plain(s, x) ==> Plain(t, x);
  }

  lemma {:induction false} SpawnKeepsRunning(e: Emitter)
    ensures SpawnDue(e).stop == e.stop
    decreases if e.density > 0 then e.spawnCounter else 0
  {
    if e.density > 0 && e.spawnCounter > e.density {
      SpawnKeepsRunning(e.(spawnCounter := e.spawnCounter - e.density, particles := e.particles + Repeat(e.particleLife, e.count)));
    }
  }

  lemma UpdateOneKeeps(s: State, o: nat)
    requires Inv(s) && o in s.live
    ensures o in s.heap
    ensures var t := UpdateOne(s, o); Inv(t) && (forall x | x in s.live && x != o :: x in t.live) && (forall x | x in s.rogue :: x in t.rogue && t.heap[x] == s.heap[x])
    ensures s.freed <= UpdateOne(s, o).freed
  {
    var obj := Ticked(s.heap[o]);
    if obj.emitter.Some? {
      var e := s.heap[o].emitter.value;
      SpawnKeepsRunning(e.(spawnCounter := e.spawnCounter + 1, particles := Integrate(e.particles)));
    }
    ReplaceKeeps(s, o, obj);
    var s1 := s.(heap := s.heap[o := obj]);
    if obj.usingLife && obj.life == 0 { DeleteKeeps(s1, o); }
    hide Inv, Ticked;
    RogueApart(s, o);
  }

  lemma RogueApart(s: State, o: nat)
    requires Inv(s) && o in s.live
    ensures o !in s.rogue
  {
  }

  lemma DrainOneKeeps(s: State, o: nat)
    requires Inv(s) && o in s.rogue
    ensures o in s.heap && s.heap[o].emitter.Some? && Inv(DrainOne(s, o))
  {
    var obj := s.heap[o];
    var e := obj.emitter.value.(particles := Integrate(obj.emitter.value.particles));
    if e.particles == [] {
      DrainFreeKeeps(s, o);
    } else {
      DrainStepKeeps(s, o, obj.(emitter := Some(e)));
    }
    hide Inv;
  }

  lemma DrainStepKeeps(s: State, o: nat, obj: Object)
    requires Inv(s) && o in s.rogue && o in s.heap
    requires obj.isFloor == s.heap[o].isFloor && obj.emitter.Some? && obj.emitter.value.stop && obj.emitter.value.particles != []
    ensures Inv(s.(heap := s.heap[o := obj]))
  {
    var t := s.(heap := s.heap[o := obj]);
    assert forall x :: Plain(s, x) ==> x != o && Plain(t, x);
  }

  /** Freed without scrubbing checks and picks: neither can mention an emitter. */
  lemma DrainFreeKeeps(s: State, o: nat)
    requires Inv(s) && o in s.rogue
    ensures Inv(Free(s.(floor := Erase(s.floor, o), regular := Erase(s.regular, o), rogue := Erase(s.rogue, o)), o))
  {
    var t := Free(s.(floor := Erase(s.floor, o), regular := Erase(s.regular, o), rogue := Erase(s.rogue, o)), o);
    EraseDistinct(s.floor, o);
    EraseDistinct(s.regular, o);
    EraseDistinct(s.rogue, o);
    SnocDistinct(s.freed, o);
    assert forall x :: Plain(s, x) ==> x != o && Plain(t, x);
  }

  // ── A whole tick ───────────────────────────────────────────────────────

  /** update_all's loop over the snapshot. */
  ghost function UpdateLive(s: State, snapshot: seq<nat>): State
    requires Inv(s) && Distinct(snapshot) && forall o | o in snapshot :: o in s.live
    decreases |snapshot|
  {
    if snapshot == [] then s
    else
      UpdateOneKeeps(s, snapshot[0]);
      TailDistinct(snapshot);
      UpdateLive(UpdateOne(s, snapshot[0]), snapshot[1..])
  }

  /** update_rogue_emitters from index `i` on. */
  ghost function DrainFrom(s: State, i: nat): State
    requires Inv(s)
    decreases |s.rogue| - i
  {
    if i >= |s.rogue| then s
    else
      var o := s.rogue[i];
      DrainOneKeeps(s, o);
      EraseShorter(s.rogue, o);
      var t := DrainOne(s, o);
      DrainFrom(t, if o in t.rogue then i + 1 else i)
  }

  lemma {:induction false} EraseShorter(v: seq<nat>, o: nat)
    ensures |Erase(v, o)| <= |v| && (o in v ==> |Erase(v, o)| < |v|)
  {
    if v != [] { EraseShorter(v[1..], o); }
  }

  ghost function UpdateAll(s: State): State
    requires Inv(s)
  {
    UpdateLiveKeeps(s, s.live);
    DrainFrom(UpdateLive(s, s.live), 0)
  }

  lemma {:induction false} UpdateLiveKeeps(s: State, snapshot: seq<nat>)
    requires Inv(s) && Distinct(snapshot) && forall o | o in snapshot :: o in s.live
    ensures var t := UpdateLive(s, snapshot); Inv(t) && s.freed <= t.freed && (forall x | x in s.rogue :: x in t.rogue && x in t.heap && x in s.heap && t.heap[x] == s.heap[x])
    decreases |snapshot|
  {
    if snapshot != [] {
      UpdateOneKeeps(s, snapshot[0]);
      TailDistinct(snapshot);
      UpdateLiveKeeps(UpdateOne(s, snapshot[0]), snapshot[1..]);
    }
  }

  /** Erasing by value is erasing the one position. */
  lemma {:induction false} EraseAt(v: seq<nat>, i: nat)
    requires Distinct(v) && i < |v|
    ensures Erase(v, v[i]) == v[..i] + v[i + 1..]
  {
    TailDistinct(v);
    if i == 0 {
      EraseAbsent(v[1..], v[0]);
    } else {
      assert v[1..][i - 1] == v[i];
      EraseAt(v[1..], i - 1);
      assert v[i] in v[1..];
      assert v == [v[0]] + v[1..];
    }
  }

  lemma {:induction false} EraseAbsent(v: seq<nat>, o: nat)
    requires o !in v
    ensures Erase(v, o) == v
  {
    if v != [] { EraseAbsent(v[1..], o); }
  }

  function Particles(s: State, o: nat): seq<int> {
    if o in s.heap && s.heap[o].emitter.Some? then s.heap[o].emitter.value.particles else []
  }

  /** After one integration of `particles`, the rogue is freed if none is left, and else goes on with the rest. */
  ghost predicate Drained(t: State, o: nat, particles: seq<int>) {
    if Integrate(particles) == [] then o in t.freed else o in t.rogue && Particles(t, o) == Integrate(particles)
  }

  lemma DrainOneFacts(s: State, i: nat)
    requires Inv(s) && i < |s.rogue|
    ensures s.rogue[i] in s.heap && s.heap[s.rogue[i]].emitter.Some?
    ensures var o := s.rogue[i];
      var t := DrainOne(s, o);
      && Inv(t) && s.freed <= t.freed && t.live == s.live
      && Drained(t, o, Particles(s, o))
      && (forall x | x != o :: Particles(t, x) == Particles(s, x))
      && t.rogue == (if o in t.rogue then s.rogue else s.rogue[..i] + s.rogue[i + 1..])
      && (Integrate(Particles(s, o)) == [] <==> o !in t.rogue)
  {
    hide Inv, Erase;
    var o := s.rogue[i];
    InvRogue(s, i);
    DrainOneKeeps(s, o);
    EraseAt(s.rogue, i);
  }

  lemma InvRogue(s: State, i: nat)
    requires Inv(s) && i < |s.rogue|
    ensures s.rogue[i] in s.heap && Distinct(s.rogue) && s.rogue[i] !in s.rogue[..i] + s.rogue[i + 1..]
  {
  }

  /** The index loop drains each rogue behind the index once and leaves the others alone. */
  lemma {:induction false} DrainFromFacts(s: State, i: nat)
    requires Inv(s) && i <= |s.rogue|
    ensures var t := DrainFrom(s, i);
      && Inv(t) && s.freed <= t.freed && t.live == s.live
      && (forall x | x in s.rogue[i..] :: Drained(t, x, Particles(s, x)))
      && (forall x | x in s.rogue[..i] :: x in t.rogue)
      && (forall x | x !in s.rogue[i..] :: Particles(t, x) == Particles(s, x))
    decreases |s.rogue| - i
  {
    hide Inv, DrainOne, Drained, Particles, Erase;
    if i < |s.rogue| {
      var o := s.rogue[i];
      DrainOneFacts(s, i);
      EraseShorter(s.rogue, o);
      var t := DrainOne(s, o);
      var k := if o in t.rogue then i + 1 else i;
      InvRogue(s, i);
      if o in t.rogue {
        assert s.rogue[..i + 1] == s.rogue[..i] + [o];
      } else {
        assert t.rogue[..i] == s.rogue[..i] && t.rogue[i..] == s.rogue[i + 1..];
      }
      DrainFromFacts(t, k);
      DrainAssemble(s, i, t, k, DrainFrom(t, k));
    }
  }

  lemma DrainAssemble(s: State, i: nat, t: State, k: nat, u: State)
    requires Distinct(s.rogue) && i < |s.rogue| && k <= |t.rogue|
    requires s.freed <= t.freed <= u.freed
    requires Drained(t, s.rogue[i], Particles(s, s.rogue[i])) && forall x | x != s.rogue[i] :: Particles(t, x) == Particles(s, x)
    requires t.rogue[k..] == s.rogue[i + 1..] && t.rogue[..k] == if s.rogue[i] in t.rogue then s.rogue[..i] + [s.rogue[i]] else s.rogue[..i]
    requires Integrate(Particles(s, s.rogue[i])) == [] <==> s.rogue[i] !in t.rogue
    requires (forall x | x in t.rogue[k..] :: Drained(u, x, Particles(t, x)))
    requires (forall x | x in t.rogue[..k] :: x in u.rogue)
    requires (forall x | x !in t.rogue[k..] :: Particles(u, x) == Particles(t, x))
    ensures forall x | x in s.rogue[i..] :: Drained(u, x, Particles(s, x))
    ensures forall x | x in s.rogue[..i] :: x in u.rogue
    ensures forall x | x !in s.rogue[i..] :: Particles(u, x) == Particles(s, x)
  {
    var o := s.rogue[i];
    assert s.rogue[i..] == [o] + s.rogue[i + 1..];
    assert o !in s.rogue[i + 1..];
    forall x | x in s.rogue[i..] ensures Drained(u, x, Particles(s, x)) {
      if x == o {
        if o in t.rogue { assert o in t.rogue[..k]; }
      } else {
        assert x in t.rogue[k..];
      }
    }
  }

  // ── How long a rogue drains ────────────────────────────────────────────

  /** One more than the longest life left, counting a negative life as zero. */
  function DrainTicks(particles: seq<int>): nat {
    if particles == [] then 1
    else
      var rest := DrainTicks(particles[1..]);
      if particles[0] + 1 > rest then particles[0] + 1 else rest
  }

  lemma {:induction false} DrainTicksStep(particles: seq<int>)
    ensures DrainTicks(particles) >= 1
    ensures Integrate(particles) == [] <==> DrainTicks(particles) == 1
    ensures Integrate(particles) != [] ==> DrainTicks(Integrate(particles)) == DrainTicks(particles) - 1
  {
    if particles != [] {
      var p, rest := particles[0], particles[1..];
      DrainTicksStep(rest);
      if p - 1 >= 0 { assert ([p - 1] + Integrate(rest))[1..] == Integrate(rest); }
      else { assert [] + Integrate(rest) == Integrate(rest); }
    }
  }

  lemma UpdateAllKeeps(s: State)
    requires Inv(s)
    ensures Inv(UpdateAll(s)) && s.freed <= UpdateAll(s).freed
  {
    UpdateLiveKeeps(s, s.live);
    DrainFromFacts(UpdateLive(s, s.live), 0);
  }

  // ── Spawning ───────────────────────────────────────────────────────────

  /** `n` emissions, one after the other. */
  function Emitted(e: Emitter, n: nat): seq<int> {
    if n == 0 then [] else Repeat(e.particleLife, e.count) + Emitted(e, n - 1)
  }

  /** The number of emissions due at counter `c`: as many as leave at most one interval. */
  function Due(c: int, density: int): nat
    requires density > 0
  {
    if c <= density then 0 else 1 + Due(c - density, density)
  }

  /** All emissions that are due happen, the counter keeps the rest of the interval; none are due for a density
      that is not positive. */
  lemma {:induction false} SpawnsWhatIsDue(e: Emitter)
    ensures e.density <= 0 ==> SpawnDue(e) == e
    ensures e.density > 0 ==>
      var n := Due(e.spawnCounter, e.density);
      && SpawnDue(e) == e.(spawnCounter := e.spawnCounter - n * e.density, particles := e.particles + Emitted(e, n))
      && e.spawnCounter - n * e.density <= e.density
      && (n > 0 ==> 0 < e.spawnCounter - n * e.density)
    decreases e.spawnCounter
  {
    if e.density > 0 && e.spawnCounter > e.density {
      var f := e.(spawnCounter := e.spawnCounter - e.density, particles := e.particles + Repeat(e.particleLife, e.count));
      SpawnsWhatIsDue(f);
      var n := Due(f.spawnCounter, e.density);
      SameEmitted(e, f, n);
      assert (n + 1) * e.density == n * e.density + e.density;
      assert e.particles + (Repeat(e.particleLife, e.count) + Emitted(e, n)) == f.particles + Emitted(e, n);
    }
  }

  lemma {:induction false} SameEmitted(e: Emitter, f: Emitter, n: nat)
    requires e.particleLife == f.particleLife && e.count == f.count
    ensures Emitted(e, n) == Emitted(f, n)
  {
    if n > 0 { SameEmitted(e, f, n - 1); }
  }

  /** In steady state a running emitter emits once every `density` frames. */
  lemma SteadyEmission(e: Emitter)
    requires e.density > 0 && !e.stop && 0 <= e.spawnCounter <= e.density
    ensures var due := e.spawnCounter == e.density;
      TickEmitter(e) == e.(spawnCounter := if due then 1 else e.spawnCounter + 1,
                           particles := Integrate(e.particles) + if due then Repeat(e.particleLife, e.count) else [])
  {
    var e1 := e.(spawnCounter := e.spawnCounter + 1, particles := Integrate(e.particles));
    SpawnsWhatIsDue(e1);
    if e.spawnCounter == e.density {
      assert Due(e1.spawnCounter - e1.density, e1.density) == 0;
      assert Emitted(e1, 1) == Repeat(e.particleLife, e.count) + Emitted(e1, 0);
    }
  }

  // ── Runs ───────────────────────────────────────────────────────────────

  /** The commands that touch the registry; None is a Null handle. */
  datatype Command =
    | Make(isFloor: bool)
    | MakeEmitter(particleLife: int)
    | Clone(src: Option<nat>)
    | DeleteObject(o: Option<nat>)
    | ClearObjects
    | ObjectOrder(o: Option<nat>, direction: int)
    | AddCheck(a: Option<nat>, typeA: int, b: Option<nat>, bIsMap: bool, typeB: int, handling: int)
    | ClearCollisions
    | ObjectPickable(o: Option<nat>, style: int)
    | ObjectPick(o: Option<nat>, nearest: Option<nat>)
    | ObjectLife(o: Option<nat>, frames: int)
    | ParticleEmission(o: Option<nat>, density: int, count: int)
    | UpdateTick
    | InitObjectList
    | NextObject

  predicate Current(s: State, o: Option<nat>) {
    o.Some? ==> o.value in s.live
  }

  /** No stale handle is used. */
  predicate CommandOk(s: State, c: Command) {
    match c
    case Clone(o) => Current(s, o)
    case DeleteObject(o) => Current(s, o)
    case ObjectOrder(o, _) => Current(s, o)
    case AddCheck(a, _, b, _, _, _) => Current(s, a) && Current(s, b)
    case ObjectPickable(o, _) => Current(s, o)
    case ObjectPick(o, _) => Current(s, o)
    case ObjectLife(o, _) => Current(s, o)
    case ParticleEmission(o, _, _) => Current(s, o)
    case _ => true
  }

  lemma LiveIsAllocated(s: State)
    requires Inv(s)
    ensures forall o | o in s.live :: o in s.heap && o !in s.rogue
  {
  }

  ghost function Step(s: State, c: Command): State
    requires Inv(s) && CommandOk(s, c)
  {
    LiveIsAllocated(s);
    match c
    case Make(isFloor) => Register(s, FreshObject(isFloor, None))
    case MakeEmitter(life) => Register(s, FreshObject(false, Some(NewEmitter(life))))
    case Clone(o) => if o.None? then s else Register(s, FreshObject(s.heap[o.value].isFloor, None))
    case DeleteObject(o) => if o.None? then s else Delete(s, o.value)
    case ClearObjects => Clear(s)
    case ObjectOrder(o, d) => if o.None? then s else Order(s, o.value, d)
    case AddCheck(a, typeA, b, bIsMap, typeB, handling) => if a.None? then s else SetupCollision(s, a.value, typeA, b, bIsMap, typeB, handling)
    case ClearCollisions => s.(checks := [])
    case ObjectPickable(o, style) => if o.None? then s else Pickable(s, o.value, style)
    case ObjectPick(o, nearest) => if o.None? then s else Pick(s, o.value, nearest)
    case ObjectLife(o, frames) => if o.None? then s else SetLife(s, o.value, frames)
    case ParticleEmission(o, density, count) => if o.None? then s else SetEmission(s, o.value, density, count)
    case UpdateTick => UpdateAll(s)
    case InitObjectList => s.(enumIndex := 0)
    case NextObject => if s.enumIndex >= |s.live| then s else s.(enumIndex := s.enumIndex + 1)
  }

  lemma ClearChecksKeeps(s: State, n: nat)
    requires Inv(s)
    ensures Inv(s.(checks := [])) && Inv(s.(enumIndex := n))
  {
    assert forall x :: Plain(s, x) ==> Plain(s.(checks := []), x) && Plain(s.(enumIndex := n), x);
  }

  /** Every command keeps the invariant, and frees only objects that were allocated. */
  lemma StepKeeps(s: State, c: Command)
    requires Inv(s) && CommandOk(s, c)
    ensures Inv(Step(s, c)) && s.freed <= Step(s, c).freed
  {
    LiveIsAllocated(s);
    hide Inv;
    match c {
      case Make(isFloor) => RegisterKeeps(s, FreshObject(isFloor, None));
      case MakeEmitter(life) => RegisterKeeps(s, FreshObject(false, Some(NewEmitter(life))));
      case Clone(o) => if o.Some? { RegisterKeeps(s, FreshObject(s.heap[o.value].isFloor, None)); }
      case DeleteObject(o) => if o.Some? { DeleteKeeps(s, o.value); }
      case ClearObjects => ClearKeeps(s);
      case UpdateTick => UpdateAllKeeps(s);
      case _ => AdjustKeeps(s, c);
    }
    hide UpdateAll, Register, Order, Pick, Pickable, SetupCollision, SetLife, SetEmission;
  }

  lemma AdjustKeeps(s: State, c: Command)
    requires Inv(s) && CommandOk(s, c)
    requires !c.Make? && !c.MakeEmitter? && !c.Clone? && !c.DeleteObject? && !c.ClearObjects? && !c.UpdateTick?
    ensures Inv(Step(s, c)) && s.freed == Step(s, c).freed
  {
    LiveIsAllocated(s);
    hide Inv, UpdateAll, Register, Delete, Clear, SetLife, SetEmission;
    match c {
      case ObjectOrder(o, d) => if o.Some? { OrderKeeps(s, o.value, d); }
      case AddCheck(a, typeA, b, bIsMap, typeB, handling) =>
        if a.Some? { SetupCollisionKeeps(s, a.value, typeA, b, bIsMap, typeB, handling); }
      case ObjectPickable(o, style) => if o.Some? { PickableKeeps(s, o.value, style); }
      case ObjectPick(o, nearest) => if o.Some? { PickKeeps(s, o.value, nearest); }
      case _ => CountersKeep(s, c);
    }
  }

  lemma CountersKeep(s: State, c: Command)
    requires Inv(s) && CommandOk(s, c)
    requires c.ObjectLife? || c.ParticleEmission? || c.ClearCollisions? || c.InitObjectList? || c.NextObject?
    ensures Inv(Step(s, c)) && s.freed == Step(s, c).freed
  {
    LiveIsAllocated(s);
    hide Inv, UpdateAll, Register, Delete, Clear, Order, SetupCollision, Pickable, Pick;
    ClearChecksKeeps(s, 0);
    ClearChecksKeeps(s, s.enumIndex + 1);
    if c.ObjectLife? && c.o.Some? { SettersKeep(s, c.o.value, c.frames, 0, 0); }
    if c.ParticleEmission? && c.o.Some? { SettersKeep(s, c.o.value, 0, c.density, c.count); }
  }

  lemma SettersKeep(s: State, o: nat, frames: int, density: int, count: int)
    requires Inv(s) && o in s.live && o in s.heap
    ensures Inv(SetLife(s, o, frames)) && Inv(SetEmission(s, o, density, count))
  {
    LiveIsAllocated(s);
    var obj := s.heap[o];
    ReplaceKeeps(s, o, obj.(usingLife := true, life := frames % U32));
    if obj.emitter.Some? { ReplaceKeeps(s, o, obj.(emitter := Some(obj.emitter.value.(density := density, count := count)))); }
  }

  /** What one update tick does to every rogue that was there before it. */
  lemma TickDrains(s: State, o: nat)
    requires Inv(s) && o in s.rogue
    ensures var t := Step(s, UpdateTick);
      Inv(t) && s.freed <= t.freed && Drained(t, o, Particles(s, o))
  {
    hide Inv, Drained, UpdateLive, DrainFrom, Distinct;
    LiveDistinct(s);
    UpdateLiveKeeps(s, s.live);
    var m := UpdateLive(s, s.live);
    DrainFromFacts(m, 0);
    assert m.rogue[0..] == m.rogue;
    assert Particles(m, o) == Particles(s, o);
    TickIsDrain(s);
  }

  lemma LiveDistinct(s: State)
    requires Inv(s)
    ensures Distinct(s.live)
  {
  }

  lemma TickIsDrain(s: State)
    requires Inv(s) && Distinct(s.live)
    ensures Inv(UpdateLive(s, s.live)) && Step(s, UpdateTick) == DrainFrom(UpdateLive(s, s.live), 0)
  {
    UpdateLiveKeeps(s, s.live);
    hide Inv, UpdateLive, DrainFrom, Distinct;
  }

  ghost predicate RunOk(s: State, cs: seq<Command>)
    requires Inv(s)
    decreases |cs|, 0
  {
    cs == [] || (RunOk(s, cs[..|cs| - 1]) && CommandOk(Run(s, cs[..|cs| - 1]), cs[|cs| - 1]))
  }

  ghost function Run(s: State, cs: seq<Command>): (t: State)
    requires Inv(s) && RunOk(s, cs)
    ensures Inv(t) && s.freed <= t.freed
    decreases |cs|, 1
  {
    if cs == [] then s
    else
      var m := Run(s, cs[..|cs| - 1]);
      StepKeeps(m, cs[|cs| - 1]);
      Step(m, cs[|cs| - 1])
  }

  lemma EmptyInv()
    ensures Inv(EMPTY)
  {
  }

  /** A run from program start. */
  ghost predicate FromStart(cs: seq<Command>) {
    EmptyInv();
    RunOk(EMPTY, cs)
  }

  ghost function After(cs: seq<Command>): State
    requires FromStart(cs)
  {
    EmptyInv();
    Run(EMPTY, cs)
  }

  /** Safety of every run without stale handles: each allocated object is live or draining, never both, and
      in exactly one draw chain; checks and picks refer to live objects that are no emitters; each object is
      freed at most once, and none is lost. */
  lemma RegistrySafe(cs: seq<Command>)
    requires FromStart(cs)
    ensures var t := After(cs);
      && (forall o :: o in t.heap <==> o in t.live || o in t.rogue)
      && (forall o | o in t.live :: o !in t.rogue)
      && (forall o :: o in t.heap <==> o in t.floor || o in t.regular)
      && (forall o | o in t.floor :: o !in t.regular)
      && (forall c | c in t.checks :: Plain(t, c.a) && (c.b.Some? ==> Plain(t, c.b.value)))
      && (forall o | o in t.pickables :: Plain(t, o))
      && (t.lastPicked.Some? ==> Plain(t, t.lastPicked.value))
      && Distinct(t.live) && Distinct(t.rogue) && Distinct(t.floor) && Distinct(t.regular)
      && Distinct(t.freed) && forall o: nat :: o in t.freed <==> o < t.next && o !in t.heap
  {
    EmptyInv();
  }

  function Ticks(cs: seq<Command>): nat {
    if cs == [] then 0 else Ticks(cs[..|cs| - 1]) + if cs[|cs| - 1].UpdateTick? then 1 else 0
  }

  /** A command other than the tick and ClearObjects does not touch a rogue. */
  lemma StepSparesRogues(s: State, c: Command, o: nat)
    requires Inv(s) && CommandOk(s, c) && o in s.rogue && !c.UpdateTick? && !c.ClearObjects?
    ensures o in Step(s, c).rogue && Particles(Step(s, c), o) == Particles(s, o)
  {
    LiveIsAllocated(s);
    assert o in s.heap && o < s.next;
    hide Inv;
  }

  lemma PrefixMember(v: seq<nat>, w: seq<nat>, o: nat)
    requires v <= w && o in v
    ensures o in w
  {
    var i :| 0 <= i < |v| && v[i] == o;
    assert w[i] == o;
  }

  /** A rogue is freed exactly at the tick after its longest particle life, whatever else the program does. */
  lemma {:induction false} RogueDrains(s: State, cs: seq<Command>, o: nat)
    requires Inv(s) && RunOk(s, cs) && o in s.rogue && ClearObjects !in cs
    ensures var t, n, ticks := Run(s, cs), Ticks(cs), DrainTicks(Particles(s, o));
      if n < ticks then o in t.rogue && DrainTicks(Particles(t, o)) == ticks - n else o in t.freed
    decreases |cs|
  {
    if cs == [] {
      DrainTicksStep(Particles(s, o));
    } else {
      var front, c := cs[..|cs| - 1], cs[|cs| - 1];
      RogueDrains(s, front, o);
      var m := Run(s, front);
      StepKeeps(m, c);
      var t := Step(m, c);
      assert Run(s, cs) == t;
      assert Ticks(cs) == Ticks(front) + if c.UpdateTick? then 1 else 0;
      hide Inv, Step, DrainTicks, Particles, Run, RunOk, Ticks;
      if o in m.freed {
        PrefixMember(m.freed, t.freed, o);
        FreedIsGone(m, o);
      } else if c.UpdateTick? {
        TickDrains(m, o);
        DrainTicksStep(Particles(m, o));
      } else {
        StepSparesRogues(m, c, o);
      }
    }
  }

  lemma FreedIsGone(s: State, o: nat)
    requires Inv(s) && o in s.freed
    ensures o !in s.rogue
  {
  }
}
