/** What each registry command does, list by list, and what that means for single objects over whole runs. */
module RegistryEffects {
  import opened Common
  import opened Registry

  // ── Lists with something taken out ─────────────────────────────────────

  /** `r` is `v` without `o`, the rest in order. */
  ghost predicate Removed(v: seq<nat>, o: nat, r: seq<nat>) {
    if o in v then exists i | 0 <= i < |v| :: v[i] == o && r == v[..i] + v[i + 1..] else r == v
  }

  lemma EraseRemoves(v: seq<nat>, o: nat)
    requires Distinct(v)
    ensures Removed(v, o, Erase(v, o))
  {
    if o in v {
      var i :| 0 <= i < |v| && v[i] == o;
      EraseAt(v, i);
    } else {
      EraseAbsent(v, o);
    }
  }

  predicate Mentions(c: Check, o: nat) {
    c.a == o || c.b == Some(o)
  }

  /** Positions in increasing order. */
  ghost predicate Increasing(at: seq<nat>) {
    forall i, j | 0 <= i < j < |at| :: at[i] < at[j]
  }

  /** `r` is `cs` without the checks that mention `o`: `at` are the positions of the others, in order. */
  ghost predicate WithoutMention(cs: seq<Check>, o: nat, r: seq<Check>, at: seq<nat>) {
    && |at| == |r| && Increasing(at)
    && (forall k | 0 <= k < |r| :: at[k] < |cs| && r[k] == cs[at[k]])
    && forall i: nat | i < |cs| :: i in at <==> !Mentions(cs[i], o)
  }

  function Shifted(at: seq<nat>): (r: seq<nat>)
    ensures |r| == |at| && forall k | 0 <= k < |at| :: r[k] == at[k] + 1
  {
    seq(|at|, k requires 0 <= k < |at| => at[k] + 1)
  }

  /** Positions in a list, seen from one position further left. */
  lemma ShiftFacts(at: seq<nat>)
    requires Increasing(at)
    ensures Increasing(Shifted(at)) && Increasing([0] + Shifted(at))
    ensures forall i: nat :: i in Shifted(at) <==> i > 0 && i - 1 in at
  {
    forall i: nat ensures i in Shifted(at) <==> i > 0 && i - 1 in at {
      if i > 0 && i - 1 in at {
        var k :| 0 <= k < |at| && at[k] == i - 1;
        assert Shifted(at)[k] == i;
      }
    }
  }

  lemma {:induction false} ChecksKept(cs: seq<Check>, o: nat) returns (at: seq<nat>)
    ensures WithoutMention(cs, o, WithoutChecks(cs, o), at)
  {
    if cs == [] {
      at := [];
    } else {
      var rest := ChecksKept(cs[1..], o);
      hide WithoutMention;
      if Mentions(cs[0], o) {
        at := Shifted(rest);
        CheckDropped(cs, o, rest, WithoutChecks(cs[1..], o));
      } else {
        at := [0] + Shifted(rest);
        CheckPrepended(cs, o, rest, WithoutChecks(cs[1..], o));
      }
    }
  }

  lemma CheckDropped(cs: seq<Check>, o: nat, rest: seq<nat>, r: seq<Check>)
    requires cs != [] && WithoutMention(cs[1..], o, r, rest) && Mentions(cs[0], o)
    ensures WithoutMention(cs, o, r, Shifted(rest))
  {
    hide Mentions, Increasing;
    ShiftFacts(rest);
    var at := Shifted(rest);
    forall k | 0 <= k < |r| ensures at[k] < |cs| && r[k] == cs[at[k]] {
      assert cs[1..][rest[k]] == cs[at[k]];
    }
    assert 0 !in at;
    forall i: nat | 0 < i < |cs| ensures i in at <==> !Mentions(cs[i], o) {
      assert cs[1..][i - 1] == cs[i];
    }
  }

  lemma CheckPrepended(cs: seq<Check>, o: nat, rest: seq<nat>, r: seq<Check>)
    requires cs != [] && WithoutMention(cs[1..], o, r, rest) && !Mentions(cs[0], o)
    ensures WithoutMention(cs, o, [cs[0]] + r, [0] + Shifted(rest))
  {
    hide Mentions, Increasing;
    ShiftFacts(rest);
    forall i: nat | i < |cs| ensures i in [0] + Shifted(rest) <==> !Mentions(cs[i], o) {
      assert i > 0 ==> cs[1..][i - 1] == cs[i];
    }
  }

  // ── Deleting ───────────────────────────────────────────────────────────

  /** The object is an emitter that still spawns and has particles. */
  predicate Running(s: State, o: nat) {
    && o in s.heap && s.heap[o].emitter.Some? && !s.heap[o].emitter.value.stop && s.heap[o].emitter.value.particles != []
  }

  /** The objects other than `o` are allocated as before, with the same contents. */
  ghost predicate OthersKept(s: State, t: State, o: nat) {
    forall x | x != o :: (x in t.heap <==> x in s.heap) && (x in s.heap ==> t.heap[x] == s.heap[x])
  }

  /** No list and no check is left that knows the object. */
  ghost predicate Forgotten(t: State, o: nat) {
    && o !in t.heap && o !in t.live && o !in t.rogue && o !in t.floor && o !in t.regular && o !in t.pickables
    && t.lastPicked != Some(o) && forall c | c in t.checks :: !Mentions(c, o)
  }

  /** Deleting an object that is no running emitter takes it out of every list and frees it; all others stay, in order. */
  lemma DeleteDestroys(s: State, o: nat) returns (at: seq<nat>)
    requires Inv(s) && o in s.live && !Running(s, o)
    ensures o in s.heap
    ensures var t := Delete(s, o);
      && Forgotten(t, o) && OthersKept(s, t, o) && t.freed == s.freed + [o]
      && Removed(s.live, o, t.live) && Removed(s.floor, o, t.floor) && Removed(s.regular, o, t.regular)
      && Removed(s.pickables, o, t.pickables) && t.rogue == s.rogue
      && WithoutMention(s.checks, o, t.checks, at) && t.lastPicked == (if s.lastPicked == Some(o) then None else s.lastPicked)
      && t.next == s.next && t.enumIndex == s.enumIndex
  {
    hide Removed, WithoutMention, Distinct, Erase, WithoutChecks, Inv;
    ListsDistinct(s);
    LiveIsAllocated(s);
    EraseRemoves(s.live, o);
    EraseRemoves(s.floor, o);
    EraseRemoves(s.regular, o);
    EraseRemoves(s.pickables, o);
    EraseAbsent(s.rogue, o);
    at := ChecksKept(s.checks, o);
  }

  lemma ListsDistinct(s: State)
    requires Inv(s)
    ensures Distinct(s.live) && Distinct(s.floor) && Distinct(s.regular) && Distinct(s.pickables)
  {
  }

  /** Deleting a running emitter stops it and moves it from the live objects to the end of the draining ones. It keeps its
      particles and its place in the draw chain, and nothing is freed. */
  lemma DeleteRetires(s: State, o: nat)
    requires Inv(s) && o in s.live && Running(s, o)
    ensures var t, e := Delete(s, o), s.heap[o].emitter.value;
      && Removed(s.live, o, t.live) && o !in t.live && t.rogue == s.rogue + [o]
      && t.floor == s.floor && t.regular == s.regular && t.checks == s.checks
      && t.pickables == s.pickables && t.lastPicked == s.lastPicked
      && o in t.heap && t.heap[o].emitter == Some(e.(stop := true)) && t.heap[o].isFloor == s.heap[o].isFloor
      && t.heap[o].usingLife == s.heap[o].usingLife && t.heap[o].life == s.heap[o].life
      && OthersKept(s, t, o) && t.freed == s.freed && t.next == s.next && t.enumIndex == s.enumIndex
  {
    EraseRemoves(s.live, o);
    assert !Plain(s, o);
    EraseAbsent(s.pickables, o);
    hide Removed;
  }

  // ── The other commands ─────────────────────────────────────────────────

  /** Everything but the named parts is as before. */
  ghost predicate SameLists(s: State, t: State) {
    && t.live == s.live && t.floor == s.floor && t.regular == s.regular && t.rogue == s.rogue
    && t.next == s.next && t.freed == s.freed
  }

  ghost predicate SameRefs(s: State, t: State) {
    t.checks == s.checks && t.pickables == s.pickables && t.lastPicked == s.lastPicked && t.enumIndex == s.enumIndex
  }

  /** A new object gets the next number, and is last among the live objects and in its draw chain. */
  lemma CreatesLast(s: State, c: Command)
    requires Inv(s) && CommandOk(s, c) && (c.Make? || c.MakeEmitter? || (c.Clone? && c.src.Some?))
    ensures c.Clone? ==> c.src.value in s.heap
    ensures var t, n := Step(s, c), s.next;
      var floor := if c.Make? then c.isFloor else c.Clone? && s.heap[c.src.value].isFloor;
      && n !in s.heap && n in t.heap && OthersKept(s, t, n) && t.next == n + 1 && t.freed == s.freed
      && t.live == s.live + [n] && t.rogue == s.rogue && SameRefs(s, t)
      && t.floor == (if floor then s.floor + [n] else s.floor) && t.regular == (if floor then s.regular else s.regular + [n])
      && t.heap[n].isFloor == floor && !t.heap[n].usingLife && t.heap[n].life == 0
      && (if c.MakeEmitter? then
            t.heap[n].emitter == Some(Emitter(c.particleLife, 1, 1, 0, false, []))
          else t.heap[n].emitter == None)
  {
    LiveIsAllocated(s);
    assert s.next !in s.heap;
    hide UpdateAll;
  }

  /** Direction 1 puts an object at the end of its draw chain, so that it is drawn last, -1 at the beginning; the others
      keep their order, and any other direction changes nothing. */
  lemma OrderMoves(s: State, o: nat, direction: int)
    requires Inv(s) && o in s.live
    ensures o in s.heap
    ensures var t := Order(s, o, direction);
      var (was, now) := if s.heap[o].isFloor then (s.floor, t.floor) else (s.regular, t.regular);
      && o in was
      && (if direction == 1 then exists r :: Removed(was, o, r) && now == r + [o]
          else if direction == -1 then exists r :: Removed(was, o, r) && now == [o] + r
          else t == s)
      && (if s.heap[o].isFloor then t.regular == s.regular else t.floor == s.floor)
      && t.heap == s.heap && t.live == s.live && t.rogue == s.rogue && t.next == s.next && t.freed == s.freed && SameRefs(s, t)
  {
    var chain := if s.heap[o].isFloor then s.floor else s.regular;
    EraseRemoves(chain, o);
    hide Removed;
  }

  /** The pairings a check can have: box with box, circle with circle, either with the map; stopping is for circles. */
  const LEGAL_CHECKS: set<(int, bool, int, int)> := {
    (1, false, 1, 0), (1, false, 1, 2), (2, false, 2, 0), (2, false, 2, 1), (2, false, 2, 2),
    (1, true, 4, 0), (1, true, 4, 2), (2, true, 4, 0), (2, true, 4, 1), (2, true, 4, 2)}

  /** A collision request is registered, behind the others, exactly when its pairing is legal, neither object is an
      emitter, and a target is given where the map is not it. */
  lemma CollisionRegisters(s: State, a: nat, typeA: int, b: Option<nat>, bIsMap: bool, typeB: int, handling: int)
    requires a in s.heap && (b.Some? ==> b.value in s.heap)
    ensures var legal := (typeA, bIsMap, typeB, handling) in LEGAL_CHECKS && s.heap[a].emitter.None?
                         && (if b.None? then bIsMap else s.heap[b.value].emitter.None?);
      SetupCollision(s, a, typeA, b, bIsMap, typeB, handling) == if legal then s.(checks := s.checks + [Check(a, b)]) else s
  {
  }

  /** Style 0 takes an object off the pick list, styles 1 to 3 put it at the end unless it is on it; emitters are never
      on it, and other styles change nothing. */
  lemma PickableListed(s: State, o: nat, style: int)
    requires Inv(s) && o in s.live
    ensures o in s.heap
    ensures var t := Pickable(s, o, style);
      && t == s.(pickables := t.pickables)
      && (if s.heap[o].emitter.Some? then t.pickables == s.pickables
          else if style == 0 then Removed(s.pickables, o, t.pickables) && o !in t.pickables
          else if style in {1, 2, 3} then t.pickables == (if o in s.pickables then s.pickables else s.pickables + [o])
          else t.pickables == s.pickables)
  {
    EraseRemoves(s.pickables, o);
    hide Removed;
  }

  /** A pick is what the ray hits, if that is on the pick list and not the picker itself, and nothing otherwise. */
  lemma PickRemembers(s: State, picker: nat, nearest: Option<nat>)
    ensures var t := Pick(s, picker, nearest);
      && t == s.(lastPicked := t.lastPicked) && (t.lastPicked.Some? ==> t.lastPicked == nearest)
      && (t.lastPicked.Some? <==> nearest.Some? && nearest != Some(picker) && nearest.value in s.pickables)
  {
  }

  /** The two setters change their fields of one object only; a life is taken modulo 2^32. */
  lemma SettersSet(s: State, o: nat, frames: int, density: int, count: int)
    requires o in s.heap
    ensures var t, obj := SetLife(s, o, frames), s.heap[o];
      && OthersKept(s, t, o) && SameLists(s, t) && SameRefs(s, t)
      && o in t.heap && t.heap[o].usingLife && t.heap[o].emitter == obj.emitter && t.heap[o].isFloor == obj.isFloor
      && t.heap[o].life < 0x1_0000_0000 && (0 <= frames < 0x1_0000_0000 ==> t.heap[o].life == frames)
      && (-0x1_0000_0000 <= frames < 0 ==> t.heap[o].life == frames + 0x1_0000_0000)
    ensures var t, obj := SetEmission(s, o, density, count), s.heap[o];
      && OthersKept(s, t, o) && SameLists(s, t) && SameRefs(s, t)
      && o in t.heap && t.heap[o].usingLife == obj.usingLife && t.heap[o].life == obj.life && t.heap[o].isFloor == obj.isFloor
      && (if obj.emitter.None? then t.heap[o].emitter == None
          else t.heap[o].emitter == Some(obj.emitter.value.(density := density, count := count)))
  {
  }

  /** ClearObjects leaves nothing, and starts the enumeration over. */
  lemma ClearEmpties(s: State)
    requires Inv(s)
    ensures var t := Clear(s);
      && t.heap == map[] && t.live == [] && t.floor == [] && t.regular == [] && t.rogue == []
      && t.checks == [] && t.pickables == [] && t.lastPicked == None && t.enumIndex == 0
      && t.freed == s.freed + s.live + s.rogue && t.next == s.next
  {
    ClearKeeps(s);
    hide Inv;
  }

  // ── One tick, object by object ─────────────────────────────────────────

  /** `r` are the particles with life left, each a frame older: `at` are their positions, in order. */
  ghost predicate Survivors(particles: seq<int>, r: seq<int>, at: seq<nat>) {
    && |at| == |r| && Increasing(at)
    && (forall k | 0 <= k < |r| :: at[k] < |particles| && r[k] == particles[at[k]] - 1)
    && forall i: nat | i < |particles| :: i in at <==> particles[i] > 0
  }

  lemma {:induction false} IntegrateKeeps(particles: seq<int>) returns (at: seq<nat>)
    ensures Survivors(particles, Integrate(particles), at)
  {
    if particles == [] {
      at := [];
    } else {
      var rest := IntegrateKeeps(particles[1..]);
      hide Survivors;
      assert [] + Integrate(particles[1..]) == Integrate(particles[1..]);
      if particles[0] > 0 {
        at := [0] + Shifted(rest);
        ParticlePrepended(particles, rest, Integrate(particles[1..]));
      } else {
        at := Shifted(rest);
        ParticleDropped(particles, rest, Integrate(particles[1..]));
      }
    }
  }

  lemma ParticleDropped(particles: seq<int>, rest: seq<nat>, r: seq<int>)
    requires particles != [] && Survivors(particles[1..], r, rest) && particles[0] <= 0
    ensures Survivors(particles, r, Shifted(rest))
  {
    hide Increasing;
    ShiftFacts(rest);
    var at := Shifted(rest);
    forall k | 0 <= k < |r| ensures at[k] < |particles| && r[k] == particles[at[k]] - 1 {
      assert particles[1..][rest[k]] == particles[at[k]];
    }
    assert 0 !in at;
    forall i: nat | 0 < i < |particles| ensures i in at <==> particles[i] > 0 {
      assert particles[1..][i - 1] == particles[i];
    }
  }

  lemma ParticlePrepended(particles: seq<int>, rest: seq<nat>, r: seq<int>)
    requires particles != [] && Survivors(particles[1..], r, rest) && particles[0] > 0
    ensures Survivors(particles, [particles[0] - 1] + r, [0] + Shifted(rest))
  {
    hide Increasing;
    ShiftFacts(rest);
    forall i: nat | i < |particles| ensures i in [0] + Shifted(rest) <==> particles[i] > 0 {
      assert i > 0 ==> particles[1..][i - 1] == particles[i];
    }
  }

  /** `n` emissions are `n` times as many new particles as one emission has, and each has its whole life. */
  lemma {:induction false} EmittedParticles(e: Emitter, n: nat)
    ensures |Emitted(e, n)| == n * (if e.count > 0 then e.count else 0)
    ensures forall k | 0 <= k < |Emitted(e, n)| :: Emitted(e, n)[k] == e.particleLife
  {
    if n > 0 { EmittedParticles(e, n - 1); }
  }

  /** The ticks an object has left: a life of zero wraps first. */
  function LifeTicks(life: nat): nat {
    if life == 0 then 0x1_0000_0000 else life
  }

  /** The object's life ends in the next tick. */
  predicate Expires(obj: Object) {
    obj.usingLife && LifeTicks(obj.life) == 1
  }

  /** An object after a tick it survives: a frame older if it uses life; an emitter's particles age, and those due follow. */
  lemma TickAges(obj: Object)
    ensures var t := Ticked(obj);
      && t.isFloor == obj.isFloor && t.usingLife == obj.usingLife && t.emitter.Some? == obj.emitter.Some?
      && (if obj.usingLife && !Expires(obj) then LifeTicks(t.life) == LifeTicks(obj.life) - 1 && t.life > 0
          else if obj.usingLife then t.life == 0
          else t.life == obj.life)
      && (obj.emitter.Some? ==>
            var e := obj.emitter.value;
            var due := if e.stop || e.density <= 0 then 0 else Due(e.spawnCounter + 1, e.density);
            t.emitter.value == e.(spawnCounter := e.spawnCounter + 1 - due * e.density,
                                  particles := Integrate(e.particles) + Emitted(e, due)))
  {
    if obj.emitter.Some? {
      var e := obj.emitter.value;
      var e1 := e.(spawnCounter := e.spawnCounter + 1, particles := Integrate(e.particles));
      SpawnsWhatIsDue(e1);
      if !e.stop && e.density > 0 { SameEmitted(e, e1, Due(e1.spawnCounter, e.density)); }
      assert Integrate(e.particles) + [] == Integrate(e.particles);
    }
    hide SpawnDue, Integrate, Due;
  }

  /** One turn of the tick's loop: the object is aged, and deleted if its life ends; no other object is touched. */
  lemma UpdateOneFacts(s: State, o: nat)
    requires Inv(s) && o in s.live
    ensures o in s.heap
    ensures var t := UpdateOne(s, o);
      && OthersKept(s, t, o) && (forall x | x != o :: x in t.live <==> x in s.live) && t.next == s.next
      && (if Expires(s.heap[o]) then o !in t.live else t.live == s.live && o in t.heap && t.heap[o] == Ticked(s.heap[o]))
      && (Ascending(s.live) ==> Ascending(t.live))
  {
    hide Inv, Ticked, Ascending, Erase, WithoutChecks;
    LiveIsAllocated(s);
    ExpiryOf(s.heap[o]);
    if Ascending(s.live) { EraseAscending(s.live, o); }
  }

  lemma ExpiryOf(obj: Object)
    ensures Expires(obj) <==> Ticked(obj).usingLife && Ticked(obj).life == 0
  {
    TickAges(obj);
    hide Ticked, TickEmitter, Integrate, Emitted, Due;
  }

  lemma {:induction false} UpdateLiveFacts(s: State, snapshot: seq<nat>, o: nat)
    requires Inv(s) && Distinct(snapshot) && (forall x | x in snapshot :: x in s.live) && o in s.live
    ensures o in s.heap
    ensures var t := UpdateLive(s, snapshot);
      if o in snapshot && Expires(s.heap[o]) then o !in t.live
      else o in t.live && o in t.heap && t.heap[o] == if o in snapshot then Ticked(s.heap[o]) else s.heap[o]
    decreases |snapshot|
  {
    LiveIsAllocated(s);
    if snapshot != [] {
      var x := snapshot[0];
      UpdateOneKeeps(s, x);
      UpdateOneFacts(s, x);
      TailDistinct(snapshot);
      var t := UpdateOne(s, x);
      hide Inv, UpdateOne, Ticked, Distinct;
      if o in t.live {
        UpdateLiveFacts(t, snapshot[1..], o);
      } else {
        UpdateLiveShrinks(t, snapshot[1..]);
      }
    }
  }

  lemma {:induction false} UpdateLiveShrinks(s: State, snapshot: seq<nat>)
    requires Inv(s) && Distinct(snapshot) && forall x | x in snapshot :: x in s.live
    ensures var t := UpdateLive(s, snapshot);
      (forall x | x in t.live :: x in s.live) && t.next == s.next && (Ascending(s.live) ==> Ascending(t.live))
    decreases |snapshot|
  {
    if snapshot != [] {
      UpdateOneKeeps(s, snapshot[0]);
      UpdateOneFacts(s, snapshot[0]);
      TailDistinct(snapshot);
      hide Inv, UpdateOne, Distinct;
      UpdateLiveShrinks(UpdateOne(s, snapshot[0]), snapshot[1..]);
    }
  }

  lemma DrainOneSpares(s: State, o: nat, x: nat)
    requires Inv(s) && o in s.rogue && x in s.live
    ensures o in s.heap && s.heap[o].emitter.Some? && x in s.heap
    ensures var t := DrainOne(s, o); t.live == s.live && t.next == s.next && x in t.heap && t.heap[x] == s.heap[x]
  {
    LiveIsAllocated(s);
  }

  lemma {:induction false} DrainFromSpares(s: State, i: nat)
    requires Inv(s)
    ensures var t := DrainFrom(s, i);
      t.live == s.live && t.next == s.next && forall x | x in s.live :: x in s.heap && x in t.heap && t.heap[x] == s.heap[x]
    decreases |s.rogue| - i
  {
    LiveIsAllocated(s);
    if i < |s.rogue| {
      var o := s.rogue[i];
      DrainOneKeeps(s, o);
      EraseShorter(s.rogue, o);
      var t := DrainOne(s, o);
      forall x | x in s.live ensures x in t.heap && t.heap[x] == s.heap[x] { DrainOneSpares(s, o, x); }
      assert t.live == s.live && t.next == s.next;
      hide Inv, DrainOne;
      DrainFromSpares(t, if o in t.rogue then i + 1 else i);
    }
  }

  /** A whole tick ages every live object once; those whose life ends are no longer live, all others stay. */
  lemma TickFacts(s: State, o: nat)
    requires Inv(s) && o in s.live
    ensures o in s.heap
    ensures var t := Step(s, UpdateTick);
      if Expires(s.heap[o]) then o !in t.live else o in t.live && o in t.heap && t.heap[o] == Ticked(s.heap[o])
  {
    hide Inv, UpdateLive, DrainFrom, Distinct, Ticked;
    LiveIsAllocated(s);
    LiveDistinct(s);
    TickIsDrain(s);
    UpdateLiveFacts(s, s.live, o);
    DrainFromSpares(UpdateLive(s, s.live), 0);
  }

  // ── Single objects over whole runs ─────────────────────────────────────

  /** No command but a creation makes an object live. */
  lemma StepMakesNothingLive(s: State, c: Command)
    requires Inv(s) && CommandOk(s, c)
    ensures var t := Step(s, c); s.next <= t.next && forall x | x in t.live :: x in s.live || (s.next <= x < t.next)
    ensures Ascending(s.live) ==> Ascending(Step(s, c).live)
  {
    hide UpdateAll, Ascending;
    LiveIsAllocated(s);
    if c.UpdateTick? {
      TickMakesNothingLive(s);
    } else if c.DeleteObject? {
      if c.o.Some? && Ascending(s.live) { EraseAscending(s.live, c.o.value); }
    } else if c.Make? || c.MakeEmitter? || c.Clone? {
      if Ascending(s.live) { SnocAscending(s); }
    } else {
      if c.ClearObjects? { EmptyAscending(); }
    }
    hide Inv;
  }

  lemma TickMakesNothingLive(s: State)
    requires Inv(s)
    ensures var t := Step(s, UpdateTick); s.next == t.next && forall x | x in t.live :: x in s.live
    ensures Ascending(s.live) ==> Ascending(Step(s, UpdateTick).live)
  {
    hide Inv, UpdateLive, DrainFrom, Distinct, Ascending;
    LiveDistinct(s);
    TickIsDrain(s);
    UpdateLiveShrinks(s, s.live);
    DrainFromSpares(UpdateLive(s, s.live), 0);
  }

  lemma SnocAscending(s: State)
    requires Inv(s) && Ascending(s.live)
    ensures Ascending(s.live + [s.next])
  {
    forall i | 0 <= i < |s.live| ensures s.live[i] < s.next { assert s.live[i] in s.live && s.live[i] in s.heap; }
  }

  lemma EmptyAscending()
    ensures Ascending([])
  {
  }

  /** An object once deleted is never live again. */
  lemma {:induction false} NeverLiveAgain(s: State, cs: seq<Command>, o: nat)
    requires Inv(s) && RunOk(s, cs) && o < s.next && o !in s.live
    ensures o !in Run(s, cs).live && o < Run(s, cs).next
    decreases |cs|
  {
    if cs != [] {
      var front := cs[..|cs| - 1];
      NeverLiveAgain(s, front, o);
      StepMakesNothingLive(Run(s, front), cs[|cs| - 1]);
      hide Inv, Step;
    }
  }

  /** Whatever the program does after `DeleteObject(o)`, no list of live objects has `o` again. */
  lemma DeletedForGood(s: State, o: nat, cs: seq<Command>)
    requires Inv(s) && o in s.live && Inv(Step(s, DeleteObject(Some(o)))) && RunOk(Step(s, DeleteObject(Some(o))), cs)
    ensures o !in Run(Step(s, DeleteObject(Some(o))), cs).live
  {
    var t := Step(s, DeleteObject(Some(o)));
    LiveIsAllocated(s);
    assert o !in t.live && o < t.next;
    NeverLiveAgain(t, cs, o);
  }

  /** The live objects are listed in the order of their creation. */
  ghost predicate Ascending(v: seq<nat>) {
    forall i, j | 0 <= i < j < |v| :: v[i] < v[j]
  }

  lemma {:induction false} EraseAscending(v: seq<nat>, o: nat)
    requires Ascending(v)
    ensures Ascending(Erase(v, o))
  {
    if v != [] {
      assert forall i | 0 <= i < |v| - 1 :: v[1..][i] == v[i + 1];
      EraseAscending(v[1..], o);
      forall x | x in Erase(v[1..], o) ensures v[0] < x {
        var i :| 0 <= i < |v[1..]| && v[1..][i] == x;
        assert v[i + 1] == x;
      }
      ConsAscending(v[0], Erase(v[1..], o));
      hide Ascending;
    }
  }

  lemma ConsAscending(x: nat, v: seq<nat>)
    requires Ascending(v) && forall y | y in v :: x < y
    ensures Ascending([x] + v)
  {
    forall i | 0 <= i < |v| ensures x < v[i] { assert v[i] in v; }
  }

  lemma {:induction false} CreationOrder(cs: seq<Command>)
    requires FromStart(cs)
    ensures Ascending(After(cs).live)
    decreases |cs|
  {
    EmptyInv();
    if cs != [] {
      var front := cs[..|cs| - 1];
      CreationOrder(front);
      StepMakesNothingLive(After(front), cs[|cs| - 1]);
      hide Inv, Step;
    }
  }

  /** A command that does not concern a live object leaves it as it is. */
  lemma SparesObject(s: State, c: Command, o: nat)
    requires Inv(s) && CommandOk(s, c) && o in s.live && !c.UpdateTick? && !c.ClearObjects? && c != DeleteObject(Some(o))
    requires !(c.ObjectLife? && c.o == Some(o))
    ensures var t := Step(s, c);
      o in s.heap && o in t.live && o in t.heap && t.heap[o].usingLife == s.heap[o].usingLife && t.heap[o].life == s.heap[o].life
  {
    LiveIsAllocated(s);
    BelowNext(s, o);
    if c.DeleteObject? {
      DeleteSpares(s, c.o, o);
    }
    hide Inv, UpdateAll, Delete;
  }

  lemma DeleteSpares(s: State, x: Option<nat>, o: nat)
    requires Inv(s) && CommandOk(s, DeleteObject(x)) && o in s.live && x != Some(o)
    ensures var t := Step(s, DeleteObject(x)); o in s.heap && o in t.live && o in t.heap && t.heap[o] == s.heap[o]
  {
    LiveIsAllocated(s);
    hide Inv, UpdateAll;
  }

  /** Nothing in the run ends or resets the life of `o`. */
  predicate Untouched(cs: seq<Command>, o: nat) {
    ClearObjects !in cs && DeleteObject(Some(o)) !in cs && forall c | c in cs && c.ObjectLife? :: c.o != Some(o)
  }

  /** An object with a life of `n` frames is live exactly until the n-th tick, whatever else the program does; a life of
      zero lasts 2^32 ticks. An object without a life stays. */
  lemma {:induction false} LifeEnds(s: State, cs: seq<Command>, o: nat)
    requires Inv(s) && RunOk(s, cs) && o in s.live && o in s.heap && Untouched(cs, o)
    ensures var t, n, life := Run(s, cs), Ticks(cs), LifeTicks(s.heap[o].life);
      var ended := s.heap[o].usingLife && n >= life;
      && o < t.next && (o in t.live <==> !ended)
      && (!ended ==>
            && o in t.heap && t.heap[o].usingLife == s.heap[o].usingLife
            && (s.heap[o].usingLife ==> LifeTicks(t.heap[o].life) == life - n))
    decreases |cs|
  {
    if cs == [] {
      LiveIsAllocated(s);
      assert o < s.next;
    } else {
      var front, c := cs[..|cs| - 1], cs[|cs| - 1];
      assert c in cs && forall d | d in front :: d in cs;
      LifeEnds(s, front, o);
      var m := Run(s, front);
      assert Run(s, cs) == Step(m, c);
      assert Ticks(cs) == Ticks(front) + if c.UpdateTick? then 1 else 0;
      hide Inv, Step, Run, RunOk, Ticks;
      if o !in m.live {
        StepMakesNothingLive(m, c);
      } else if c.UpdateTick? {
        TickFacts(m, o);
        TickAges(m.heap[o]);
        StepMakesNothingLive(m, c);
        BelowNext(m, o);
        hide Ticked;
      } else {
        SparesObject(m, c, o);
      }
    }
  }

  lemma BelowNext(s: State, o: nat)
    requires Inv(s) && o in s.live
    ensures o < s.next
  {
  }

  // ── Enumeration ────────────────────────────────────────────────────────

  /** What NextObject returns. */
  function NextHandle(s: State): Option<nat> {
    if s.enumIndex >= |s.live| then None else Some(s.live[s.enumIndex])
  }

  /** `k` times NextObject. */
  ghost function Enumerated(s: State, k: nat): (t: State)
    requires Inv(s)
    ensures Inv(t)
  {
    if k == 0 then s
    else
      var m := Enumerated(s, k - 1);
      StepKeeps(m, NextObject);
      Step(m, NextObject)
  }

  /** InitObjectList and then NextObject again and again yields every live object once, in the order of creation, and
      then Null. */
  lemma {:induction false} EnumerationVisitsAll(s: State, k: nat)
    requires Inv(s) && Inv(Step(s, InitObjectList))
    ensures NextHandle(Enumerated(Step(s, InitObjectList), k)) == if k < |s.live| then Some(s.live[k]) else None
    ensures var t := Enumerated(Step(s, InitObjectList), k);
      t.live == s.live && t.enumIndex == if k < |s.live| then k else |s.live|
  {
    hide Inv, UpdateAll;
    if k > 0 { EnumerationVisitsAll(s, k - 1); }
  }
}
