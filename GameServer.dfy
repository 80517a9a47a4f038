/**
 * The server's scheduler (`GameServer` in server/server.js): the tick gate,
 * the update's timeout flagging, the remove-while-iterating loop and the
 * attack cooldown. Clock readings (`Date.now()`) are parameters in
 * milliseconds; rescheduling the next tick is not part of this model.
 */
module GameServers {
  import opened Geometry
  import opened Wrappers
  import opened Inputs
  import opened Entities
  import opened EntityLists
  import opened ServerEntities

  /** `tickLengthMs = 1000 / 20`. */
  const TickLengthMs: int := 50

  /** `PLAYER_TIMEOUT * 1000`: 30 seconds without input logs a player out. */
  const PlayerTimeoutMs: int := 30 * 1000

  const PlayerSpawn: Vec := Vec(2.0, -2.0)

  /** The tick gate: an update runs once a full tick length has passed. */
  predicate UpdateDue(previousTick: int, now: int) {
    previousTick + TickLengthMs <= now
  }

  /** A player times out when strictly more than the timeout has passed since its last input. */
  predicate TimedOut(lastInputTime: int, now: int) {
    now - lastInputTime > PlayerTimeoutMs
  }

  /** The attack gate: the cooldown has elapsed since the last attack. */
  predicate AttackReady(lastAttackTime: int, attackDelay: int, now: int) {
    !(now - lastAttackTime < attackDelay)
  }

  /**
   * The attack time a visit leaves on `e`, whose attack time was `last`:
   * a player holding attack whose cooldown has elapsed attacks now; every
   * other entity keeps its attack time.
   */
  function AttackTimeAfter(e: Entity, last: int, now: int): int
    reads e`input, e`attackDelay
  {
    if e.IsPlayer() && Held(e.input.attack) && AttackReady(last, e.attackDelay, now) then now else last
  }

  /** The elements of `s` outside `removed`, in order. */
  function Without(s: seq<Entity>, removed: set<Entity>): (r: seq<Entity>)
    ensures |r| <= |s|
    ensures forall k :: 0 <= k < |r| ==> r[k] in s && r[k] !in removed
    ensures forall k :: 0 <= k < |s| && s[k] !in removed ==> s[k] in r
  {
    if s == [] then []
    else Without(s[..|s| - 1], removed) + (if s[|s| - 1] in removed then [] else [s[|s| - 1]])
  }

  /** The entities of `s` flagged for removal. */
  ghost function Flagged(s: seq<Entity>): set<Entity>
    reads (set e | e in s)`isBeingRemoved
  {
    set e | e in s && e.isBeingRemoved
  }

  /** Removing an element of `removed` does not change what survives. */
  lemma {:induction false} WithoutRemoveAt(s: seq<Entity>, i: nat, removed: set<Entity>)
    requires i < |s| && s[i] in removed
    ensures Without(RemoveAt(s, i), removed) == Without(s, removed)
  {
    var r := RemoveAt(s, i);
    var last := s[|s| - 1];
    var tail := if last in removed then [] else [last];
    assert Without(s, removed) == Without(s[..|s| - 1], removed) + tail;
    if i < |s| - 1 {
      assert r[..|r| - 1] == RemoveAt(s[..|s| - 1], i);
      assert r[|r| - 1] == last;
      assert Without(r, removed) == Without(r[..|r| - 1], removed) + tail;
      WithoutRemoveAt(s[..|s| - 1], i, removed);
    } else {
      assert r == s[..|s| - 1];
    }
  }

  /** Removing an element keeps every remaining element within a list that held them all. */
  lemma RemoveAtStaysWithin(s: seq<Entity>, i: nat, within: seq<Entity>)
    requires i < |s| && forall k :: 0 <= k < |s| ==> s[k] in within
    ensures forall k :: 0 <= k < |RemoveAt(s, i)| ==> RemoveAt(s, i)[k] in within
  {
  }

  /** A list with nothing in `removed` survives whole. */
  lemma {:induction false} WithoutNoneRemoved(s: seq<Entity>, removed: set<Entity>)
    requires forall k :: 0 <= k < |s| ==> s[k] !in removed
    ensures Without(s, removed) == s
  {
    if s != [] {
      WithoutNoneRemoved(s[..|s| - 1], removed);
    }
  }

  /**
   * One pass of the update loop as written, at `index`: a flagged entity is
   * spliced out at its `entityId` and the index stays where it is; any other
   * entity moves the index on. The result is the new list and index.
   */
  ghost function AsWrittenStep(s: seq<Entity>, index: nat): (seq<Entity>, nat)
    requires index < |s|
    reads s[index]
  {
    if s[index].isBeingRemoved then (SpliceOne(s, s[index].entityId), index) else (s, index + 1)
  }

  /**
   * With the splice as written, a flagged last entity whose `entityId` is the
   * list's length is a fixed point of the loop: neither the list nor the
   * index moves, and the index is still below the length, so the loop
   * condition holds again and the loop never ends.
   */
  lemma AsWrittenRemovalStalls(s: seq<Entity>, index: nat)
    requires index == |s| - 1 && s[index].isBeingRemoved && s[index].entityId == |s|
    ensures AsWrittenStep(s, index) == (s, index) && index < |s|
  {
    SpliceAtLengthKeepsAll(s);
  }

  class GameServer {
    const entityManager: ServerEntityManager
    var frame: int
    var previousTick: int

    constructor (registered: set<string>, now: int)
      ensures fresh(entityManager) && entityManager.Valid()
      ensures entityManager.entities == [] && entityManager.registered == registered
      ensures frame == 0 && previousTick == now
    {
      entityManager := new ServerEntityManager(registered);
      frame := 0;
      previousTick := now;
    }

    /**
     * `tick`: the frame counter always advances; when an update is due the
     * update runs with the elapsed seconds as delta, the previous tick
     * becomes now and the frame counter restarts at 0.
     */
    method Tick(now: int) returns (updated: bool, delta: real, simulated: seq<Entity>)
      requires entityManager.Valid()
      modifies this`frame, this`previousTick, entityManager`entities, entityManager`players
      modifies (set p | p in entityManager.players)`laggedOut, (set p | p in entityManager.players)`isBeingRemoved
      modifies (set e | e in entityManager.entities)`lastAttackTime
      ensures entityManager.Valid()
      ensures updated <==> UpdateDue(old(previousTick), now)
      ensures updated ==> previousTick == now && frame == 0 && delta == (now - old(previousTick)) as real / 1000.0
      ensures updated ==> delta >= 0.05
      ensures !updated ==> previousTick == old(previousTick) && frame == old(frame) + 1
      ensures !updated ==> entityManager.entities == old(entityManager.entities) && simulated == []
      ensures updated ==> simulated == entityManager.entities
      ensures updated ==> forall p :: p in old(entityManager.players) && TimedOut(p.lastInputTime, now) ==> p !in simulated
      ensures updated ==> forall e :: (e in old(entityManager.entities) && !old(e.isBeingRemoved) &&
                 !(e in old(entityManager.players) && TimedOut(e.lastInputTime, now))) ==> e in simulated
      ensures updated ==> forall p :: (p in old(entityManager.players) && p in old(entityManager.entities) &&
                 (old(p.isBeingRemoved) || TimedOut(p.lastInputTime, now))) ==> p !in entityManager.players
      ensures updated ==> forall p :: (p in old(entityManager.players) && !old(p.isBeingRemoved) &&
                 !TimedOut(p.lastInputTime, now)) ==> p in entityManager.players
      ensures !updated ==> entityManager.players == old(entityManager.players)
      ensures updated ==> forall e :: e in old(entityManager.entities) ==>
                e.lastAttackTime == AttackTimeAfter(e, old(e.lastAttackTime), now)
      ensures !updated ==> forall e :: e in old(entityManager.entities) ==> e.lastAttackTime == old(e.lastAttackTime)
    {
      // The program increments the counter first and, on an update, sets the
      // previous tick before updating and resets the counter after it. The
      // update reads neither field, so the writes are made after it here.
      updated := false;
      delta := 0.0;
      simulated := [];
      if previousTick + TickLengthMs <= now {
        simulated := Update(now);
        updated := true;
        delta := (now - previousTick) as real / 1000.0;
        previousTick := now;
        frame := 0;
      } else {
        frame := frame + 1;
      }
    }

    /**
     * `validateConnectedPlayers`: every player that timed out is flagged as
     * lagged out and being removed; no other player changes.
     */
    method ValidateConnectedPlayers(now: int)
      modifies (set p | p in entityManager.players)`laggedOut, (set p | p in entityManager.players)`isBeingRemoved
      ensures forall p :: p in entityManager.players && TimedOut(p.lastInputTime, now) ==> p.laggedOut && p.isBeingRemoved
      ensures forall p :: p in entityManager.players && !TimedOut(p.lastInputTime, now) ==>
                p.laggedOut == old(p.laggedOut) && p.isBeingRemoved == old(p.isBeingRemoved)
    {
      var players := entityManager.players;
      var i := 0;
      while i < |players|
        invariant 0 <= i <= |players|
        invariant forall k :: 0 <= k < i && TimedOut(players[k].lastInputTime, now) ==>
                    players[k].laggedOut && players[k].isBeingRemoved
        invariant forall p :: p in players && !TimedOut(p.lastInputTime, now) ==>
                    p.laggedOut == old(p.laggedOut) && p.isBeingRemoved == old(p.isBeingRemoved)
      {
        var player := players[i];
        if now - player.lastInputTime > PlayerTimeoutMs {
          player.laggedOut := true;
          player.ShouldRemove(true);
        }
        i := i + 1;
      }
    }

    /**
     * `playerAttack`, its cooldown: nothing happens before `attackDelay`
     * has passed since the last attack; otherwise the attack time becomes
     * now and the attack fires.
     */
    method PlayerAttack(player: Entity, now: int) returns (fired: bool)
      modifies player`lastAttackTime
      ensures fired <==> AttackReady(old(player.lastAttackTime), player.attackDelay, now)
      ensures fired ==> player.lastAttackTime == now
      ensures !fired ==> player.lastAttackTime == old(player.lastAttackTime)
    {
      if now - player.lastAttackTime < player.attackDelay {
        return false;
      }
      player.lastAttackTime := now;
      fired := true;
    }

    /**
     * `update`: flag timed-out players, then walk the entity list, letting
     * attacking players attack and removing flagged entities in place. The
     * list handed to the physics step is the list as it stood after the
     * flagging, without the flagged entities, in the original order.
     */
    method Update(now: int) returns (simulated: seq<Entity>)
      requires entityManager.Valid()
      modifies entityManager`entities, entityManager`players
      modifies (set p | p in entityManager.players)`laggedOut, (set p | p in entityManager.players)`isBeingRemoved
      modifies (set e | e in entityManager.entities)`lastAttackTime
      ensures entityManager.Valid()
      ensures simulated == entityManager.entities
      ensures simulated == Without(old(entityManager.entities), Flagged(old(entityManager.entities)))
      ensures forall k :: 0 <= k < |simulated| ==> !simulated[k].isBeingRemoved
      ensures forall p :: p in old(entityManager.players) && TimedOut(p.lastInputTime, now) ==> p !in simulated
      ensures forall e :: (e in old(entityManager.entities) && !old(e.isBeingRemoved) &&
                 !(e in old(entityManager.players) && TimedOut(e.lastInputTime, now))) ==> e in simulated
      ensures forall p :: (p in old(entityManager.players) && p in old(entityManager.entities) &&
                 (old(p.isBeingRemoved) || TimedOut(p.lastInputTime, now))) ==> p !in entityManager.players
      ensures forall p :: (p in old(entityManager.players) && !old(p.isBeingRemoved) &&
                 !TimedOut(p.lastInputTime, now)) ==> p in entityManager.players
      ensures forall e :: e in old(entityManager.entities) ==> e.lastAttackTime == AttackTimeAfter(e, old(e.lastAttackTime), now)
    {
      ValidateConnectedPlayers(now);
      simulated := RemoveFlagged(now);
    }

    /**
     * One step of the update loop at `index`: a player holding attack
     * attacks; a flagged entity then leaves the list at that position (the
     * loop keeps its index), any other entity stays (the loop moves on).
     */
    method Visit(index: nat, now: int) returns (removed: bool)
      requires entityManager.Valid() && index < |entityManager.entities|
      modifies entityManager`entities, entityManager`players, (set e | e in entityManager.entities)`lastAttackTime
      ensures entityManager.Valid()
      ensures removed == old(entityManager.entities)[index].isBeingRemoved
      ensures removed ==> entityManager.entities == RemoveAt(old(entityManager.entities), index)
      ensures !removed ==> entityManager.entities == old(entityManager.entities)
      ensures var e := old(entityManager.entities)[index];
              removed && e.IsPlayer() ==> match FirstWithId(old(entityManager.players), e.uniqueId)
              case None => entityManager.players == old(entityManager.players)
              case Some(i) => entityManager.players == RemoveAt(old(entityManager.players), i)
      ensures var e := old(entityManager.entities)[index];
              !(removed && e.IsPlayer()) ==> entityManager.players == old(entityManager.players)
      ensures var e := old(entityManager.entities)[index];
              e.lastAttackTime == AttackTimeAfter(e, old(e.lastAttackTime), now)
      ensures forall x :: x in old(entityManager.entities) && x != old(entityManager.entities)[index] ==>
                x.lastAttackTime == old(x.lastAttackTime)
    {
      var entity := entityManager.entities[index];
      if entity.IsPlayer() && Held(entity.input.attack) {
        var fired := PlayerAttack(entity, now);
      }
      removed := entity.isBeingRemoved;
      if removed {
        var disconnected := entityManager.RemoveEntityAt(entity, index);
      }
    }

    /**
     * One pass of the update loop at `index` as written: the removal goes
     * through `removeEntity`, which splices at the entity's `entityId`.
     */
    method VisitAsWritten(index: nat, now: int) returns (next: nat)
      requires entityManager.Valid() && index < |entityManager.entities|
      modifies entityManager`entities, entityManager`players, (set e | e in entityManager.entities)`lastAttackTime
      ensures entityManager.Valid()
      ensures (entityManager.entities, next) == old(AsWrittenStep(entityManager.entities, index))
      ensures var e := old(entityManager.entities)[index];
              e.isBeingRemoved && e.IsPlayer() ==> match FirstWithId(old(entityManager.players), e.uniqueId)
              case None => entityManager.players == old(entityManager.players)
              case Some(i) => entityManager.players == RemoveAt(old(entityManager.players), i)
      ensures var e := old(entityManager.entities)[index];
              !(e.isBeingRemoved && e.IsPlayer()) ==> entityManager.players == old(entityManager.players)
      ensures var e := old(entityManager.entities)[index];
              e.lastAttackTime == AttackTimeAfter(e, old(e.lastAttackTime), now)
      ensures forall x :: x in old(entityManager.entities) && x != old(entityManager.entities)[index] ==>
                x.lastAttackTime == old(x.lastAttackTime)
    {
      var entity := entityManager.entities[index];
      if entity.IsPlayer() && Held(entity.input.attack) {
        var fired := PlayerAttack(entity, now);
      }
      if entity.isBeingRemoved {
        var disconnected := entityManager.RemoveEntity(entity);
        next := index;
      } else {
        next := index + 1;
      }
    }

    /**
     * The loop of `update`: the entities that survive are exactly the
     * unflagged ones, in order.
     */
    method RemoveFlagged(now: int) returns (simulated: seq<Entity>)
      requires entityManager.Valid()
      modifies entityManager`entities, entityManager`players
      modifies (set e | e in entityManager.entities)`lastAttackTime
      ensures entityManager.Valid()
      ensures simulated == entityManager.entities
      ensures simulated == Without(old(entityManager.entities), Flagged(old(entityManager.entities)))
      ensures forall k :: 0 <= k < |simulated| ==> !simulated[k].isBeingRemoved
      ensures forall p :: p in old(entityManager.players) && p in old(entityManager.entities) && p.isBeingRemoved ==>
                p !in entityManager.players
      ensures forall p :: p in old(entityManager.players) && !p.isBeingRemoved ==> p in entityManager.players
      ensures forall e :: e in old(entityManager.entities) ==> e.lastAttackTime == AttackTimeAfter(e, old(e.lastAttackTime), now)
    {
      ghost var start := entityManager.entities;
      ghost var startPlayers := entityManager.players;
      ghost var startTime: map<Entity, int> := map e: Entity | e in start :: e.lastAttackTime;
      ghost var flagged := Flagged(start);
      var index := 0;
      SweepStarts(start, flagged);
      while index < |entityManager.entities|
        modifies entityManager`entities, entityManager`players, (set e | e in start)`lastAttackTime
        invariant entityManager.Valid()
        invariant Flagged(start) == flagged
        invariant Sweeping(entityManager.entities, index, start, flagged)
        invariant PlayersKept(entityManager.players, entityManager.entities, startPlayers, start)
        invariant AttacksDone(entityManager.entities, index, startTime, now)
        decreases |entityManager.entities| - index
      {
        index := SweepStep(index, now, start, startPlayers, startTime, flagged);
      }
      SweepEnds(entityManager.entities, start, flagged);
      simulated := entityManager.entities;
      AttacksEnd(entityManager.entities, startTime, now);
      assert forall e :: e in start ==> e in startTime && startTime[e] == old(e.lastAttackTime);
    }

    /** One `Visit` of the update loop keeps the loop's state and makes progress. */
    method SweepStep(index: nat, now: int, ghost start: seq<Entity>, ghost startPlayers: seq<Entity>,
                     ghost startTime: map<Entity, int>, ghost flagged: set<Entity>) returns (next: nat)
      requires entityManager.Valid() && Flagged(start) == flagged
      requires Sweeping(entityManager.entities, index, start, flagged) && index < |entityManager.entities|
      requires PlayersKept(entityManager.players, entityManager.entities, startPlayers, start)
      requires AttacksDone(entityManager.entities, index, startTime, now)
      modifies entityManager`entities, entityManager`players, (set e | e in start)`lastAttackTime
      ensures entityManager.Valid()
      ensures Sweeping(entityManager.entities, next, start, flagged)
      ensures PlayersKept(entityManager.players, entityManager.entities, startPlayers, start)
      ensures AttacksDone(entityManager.entities, next, startTime, now)
      ensures |entityManager.entities| - next < old(|entityManager.entities|) - index
    {
      ghost var before := entityManager.entities;
      ghost var playersBefore := entityManager.players;
      assert before[index] in start;
      ghost var visited := before[index];
      VisitedLeavesRest(before, index);
      var removed := Visit(index, now);
      next := if removed then index else index + 1;
      assert Sweeping(entityManager.entities, next, start, flagged)
          && PlayersKept(entityManager.players, entityManager.entities, startPlayers, start) by {
        if removed {
          SweepRemoves(before, index, start, flagged);
          PlayersRemoves(playersBefore, before, index, entityManager.players, startPlayers, start);
        } else {
          SweepKeeps(before, index, start, flagged);
        }
      }
      assert AttacksDone(entityManager.entities, next, startTime, now) by {
        assert entityManager.entities[next..] == before[index + 1..];
        forall e | e in startTime
          ensures e.lastAttackTime == if e in before[index + 1..] then startTime[e] else AttackTimeAfter(e, startTime[e], now)
        {
          assert old(e.lastAttackTime) == if e in before[index..] then startTime[e] else AttackTimeAfter(e, startTime[e], now);
          if e == visited {
            assert e in before[index..] && e !in before[index + 1..];
          } else {
            assert e.lastAttackTime == old(e.lastAttackTime);
            assert e in before[index..] <==> e in before[index + 1..];
          }
        }
      }
    }
  }

  /**
   * The state of the update loop at `index`: every entity left was there at
   * the start, none before `index` is flagged, and the survivors are still
   * the unflagged entities of the start.
   */
  ghost predicate Sweeping(current: seq<Entity>, index: int, start: seq<Entity>, flagged: set<Entity>) {
    && 0 <= index <= |current|
    && (forall k :: 0 <= k < |current| ==> current[k] in start)
    && (forall k :: 0 <= k < index ==> current[k] !in flagged)
    && Without(current, flagged) == Without(start, flagged)
  }

  /**
   * The player list during the update loop: every unflagged player of the
   * start is still there, and a player of the start that has left the
   * entity list has left the player list too.
   */
  ghost predicate PlayersKept(players: seq<Entity>, current: seq<Entity>, startPlayers: seq<Entity>, start: seq<Entity>)
    reads (set p | p in startPlayers)`isBeingRemoved
  {
    && (forall p :: p in startPlayers && !p.isBeingRemoved ==> p in players)
    && (forall p :: p in startPlayers && p in start && p !in current ==> p !in players)
  }

  /** Removing one position keeps every other element. */
  lemma RemoveAtKeepsOthers<T>(s: seq<T>, i: nat, x: T)
    requires i < |s| && x in s && x != s[i]
    ensures x in RemoveAt(s, i)
  {
    var k :| 0 <= k < |s| && s[k] == x;
    if k < i {
      assert RemoveAt(s, i)[k] == x;
    } else {
      assert RemoveAt(s, i)[k - 1] == x;
    }
  }

  /**
   * Removing the flagged entity at `index`, and then the first player with
   * its id, takes that entity off both lists and no other player: with ids
   * shared only by the same entity, the player found is the entity itself.
   */
  lemma PlayersRemoves(players: seq<Entity>, current: seq<Entity>, index: nat, after: seq<Entity>,
                       startPlayers: seq<Entity>, start: seq<Entity>)
    requires IdsIncreasing(players) && IdsIncreasing(current)
    requires SharedIdsSameEntity(players, current) && AllPlayers(players)
    requires index < |current| && current[index].isBeingRemoved
    requires PlayersKept(players, current, startPlayers, start)
    requires current[index].IsPlayer() ==> match FirstWithId(players, current[index].uniqueId)
             case None => after == players
             case Some(i) => after == RemoveAt(players, i)
    requires !current[index].IsPlayer() ==> after == players
    ensures PlayersKept(after, RemoveAt(current, index), startPlayers, start)
  {
    var e := current[index];
    var rest := RemoveAt(current, index);
    RemoveAtDropsIt(current, index);
    assert e !in after && forall p :: p in after ==> p in players by {
      if e.IsPlayer() && FirstWithId(players, e.uniqueId).Some? {
        var i := FirstWithId(players, e.uniqueId).value;
        assert players[i] == e;
        RemoveAtDropsIt(players, i);
      }
    }
    forall p | p in startPlayers && !p.isBeingRemoved
      ensures p in after
    {
      if e.IsPlayer() && FirstWithId(players, e.uniqueId).Some? {
        var i := FirstWithId(players, e.uniqueId).value;
        assert players[i] == e;
        RemoveAtKeepsOthers(players, i, p);
      }
    }
    forall p | p in startPlayers && p in start && p !in rest
      ensures p !in after
    {
    }
  }

  /**
   * The attack times during the update loop: an entity still waiting at or
   * after `index` keeps the time it had at the start, every other entity of
   * the start has had its visit.
   */
  ghost predicate AttacksDone(current: seq<Entity>, index: int, startTime: map<Entity, int>, now: int)
    requires 0 <= index <= |current|
    reads startTime.Keys`lastAttackTime, startTime.Keys`input, startTime.Keys`attackDelay
  {
    forall e :: e in startTime ==>
      e.lastAttackTime == if e in current[index..] then startTime[e] else AttackTimeAfter(e, startTime[e], now)
  }

  /** When the loop ends, every entity of the start has had its visit. */
  lemma AttacksEnd(current: seq<Entity>, startTime: map<Entity, int>, now: int)
    requires AttacksDone(current, |current|, startTime, now)
    ensures forall e :: e in startTime ==> e.lastAttackTime == AttackTimeAfter(e, startTime[e], now)
  {
  }

  /** In a list with increasing ids, the entity at `index` is not met again after it. */
  lemma VisitedLeavesRest(current: seq<Entity>, index: nat)
    requires IdsIncreasing(current) && index < |current|
    ensures current[index] !in current[index + 1..]
    ensures RemoveAt(current, index)[index..] == current[index + 1..]
    ensures forall e :: e in current[index..] && e != current[index] ==> e in current[index + 1..]
  {
    forall k | index + 1 <= k < |current|
      ensures current[k] != current[index]
    {
      assert current[index].uniqueId < current[k].uniqueId;
    }
    forall e | e in current[index..] && e != current[index]
      ensures e in current[index + 1..]
    {
      var k :| index <= k < |current| && current[k] == e;
      assert current[index + 1..][k - index - 1] == e;
    }
  }

  lemma SweepStarts(start: seq<Entity>, flagged: set<Entity>)
    ensures Sweeping(start, 0, start, flagged)
  {
  }

  /** Removing the flagged entity at `index` keeps the loop state, at the same index. */
  lemma SweepRemoves(current: seq<Entity>, index: nat, start: seq<Entity>, flagged: set<Entity>)
    requires Sweeping(current, index, start, flagged) && index < |current| && current[index] in flagged
    ensures Sweeping(RemoveAt(current, index), index, start, flagged)
  {
    WithoutRemoveAt(current, index, flagged);
    RemoveAtStaysWithin(current, index, start);
  }

  /** Passing an unflagged entity keeps the loop state, at the next index. */
  lemma SweepKeeps(current: seq<Entity>, index: nat, start: seq<Entity>, flagged: set<Entity>)
    requires Sweeping(current, index, start, flagged) && index < |current| && current[index] !in flagged
    ensures Sweeping(current, index + 1, start, flagged)
  {
  }

  /** When the loop ends, the list is the unflagged entities of the start, in order. */
  lemma SweepEnds(current: seq<Entity>, start: seq<Entity>, flagged: set<Entity>)
    requires Sweeping(current, |current|, start, flagged)
    ensures current == Without(start, flagged)
    ensures forall k :: 0 <= k < |current| ==> current[k] in start && current[k] !in flagged
  {
    WithoutNoneRemoved(current, flagged);
  }
}
