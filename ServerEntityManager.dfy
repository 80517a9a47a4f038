/**
 * The server's entity bookkeeping (`EntityManager` in
 * server/lib/entity-manager.js): creation with id allocation, removal by
 * splice, and lookup by unique id. The registry that `registerEntities`
 * builds by scanning the entity folders is given as the set of registered
 * class names.
 */
module ServerEntities {
  import opened Wrappers
  import opened Entities
  import opened EntityLists

  /** Unique ids strictly increase along the list. */
  predicate IdsIncreasing(s: seq<Entity>) {
    forall a, b :: 0 <= a < b < |s| ==> s[a].uniqueId < s[b].uniqueId
  }

  /** Removing one element keeps the ids increasing. */
  lemma RemoveAtKeepsIdsIncreasing(s: seq<Entity>, i: nat)
    requires IdsIncreasing(s) && i < |s|
    ensures IdsIncreasing(RemoveAt(s, i))
  {
    var r := RemoveAt(s, i);
    forall a, b | 0 <= a < b < |r|
      ensures r[a].uniqueId < r[b].uniqueId
    {
      var a' := if a < i then a else a + 1;
      var b' := if b < i then b else b + 1;
      assert r[a] == s[a'] && r[b] == s[b'] && a' < b';
    }
  }

  /** Every id in `s` lies in `[0, bound)`. */
  predicate IdsBelow(s: seq<Entity>, bound: int) {
    forall k :: 0 <= k < |s| ==> 0 <= s[k].uniqueId < bound
  }

  /** Whatever `splice(start, 1)` removes, the ids stay increasing and in range. */
  lemma SpliceKeepsIds(s: seq<Entity>, start: int, bound: int)
    requires IdsIncreasing(s) && IdsBelow(s, bound)
    ensures IdsIncreasing(SpliceOne(s, start)) && IdsBelow(SpliceOne(s, start), bound)
  {
    var actual := if start < 0 then (if |s| + start < 0 then 0 else |s| + start) else start;
    if actual < |s| {
      RemoveAtKeepsIdsIncreasing(s, actual);
      assert SpliceOne(s, start) == RemoveAt(s, actual);
    }
  }

  /** Only player entities are on the player list. */
  predicate AllPlayers(players: seq<Entity>) {
    forall k :: 0 <= k < |players| ==> players[k].IsPlayer()
  }

  /** An id on both lists belongs to one and the same entity. */
  predicate SharedIdsSameEntity(players: seq<Entity>, entities: seq<Entity>) {
    forall i, j :: 0 <= i < |players| && 0 <= j < |entities| && players[i].uniqueId == entities[j].uniqueId ==>
      players[i] == entities[j]
  }

  /** Removing an element of a list with increasing ids removes its only occurrence. */
  lemma RemoveAtDropsIt(s: seq<Entity>, i: nat)
    requires IdsIncreasing(s) && i < |s|
    ensures s[i] !in RemoveAt(s, i)
  {
    var r := RemoveAt(s, i);
    forall k | 0 <= k < |r|
      ensures r[k] != s[i]
    {
      var k' := if k < i then k else k + 1;
      assert r[k] == s[k'] && k' != i;
    }
  }

  /** An entity with a fresh id above every id in `s` keeps the ids increasing when appended. */
  lemma AppendKeepsIds(s: seq<Entity>, e: Entity, bound: int)
    requires IdsIncreasing(s) && IdsBelow(s, bound) && 0 <= e.uniqueId == bound
    ensures IdsIncreasing(s + [e]) && IdsBelow(s + [e], bound + 1)
  {
  }

  /**
   * Appending a freshly created entity, with the creation counter as id, to
   * the entity list and (when it joins) to the player list keeps the lists'
   * invariants.
   */
  lemma CreationKeepsLists(players: seq<Entity>, entities: seq<Entity>, e: Entity, bound: int, joins: bool)
    requires IdsIncreasing(players) && IdsIncreasing(entities) && IdsBelow(players, bound) && IdsBelow(entities, bound)
    requires SharedIdsSameEntity(players, entities) && AllPlayers(players)
    requires 0 <= e.uniqueId == bound && (joins ==> e.IsPlayer())
    ensures var players' := players + (if joins then [e] else []);
            && IdsIncreasing(players') && IdsBelow(players', bound + 1)
            && IdsIncreasing(entities + [e]) && IdsBelow(entities + [e], bound + 1)
            && SharedIdsSameEntity(players', entities + [e]) && AllPlayers(players')
  {
    AppendKeepsIds(entities, e, bound);
    if joins {
      AppendKeepsIds(players, e, bound);
    } else {
      assert players + [] == players;
    }
  }

  class ServerEntityManager {
    var entities: seq<Entity>
    var players: seq<Entity>
    var entitiesCreated: int
    var registered: set<string>

    /**
     * Ids are allocated in creation order and never reused: along both
     * lists they strictly increase and stay below the creation counter, and
     * an id found on both lists names the same entity. Only players are on
     * the player list.
     */
    ghost predicate Valid()
      reads this
    {
      && entitiesCreated >= 0
      && IdsIncreasing(entities) && IdsIncreasing(players)
      && IdsBelow(entities, entitiesCreated) && IdsBelow(players, entitiesCreated)
      && SharedIdsSameEntity(players, entities) && AllPlayers(players)
    }

    /** An empty manager over the classes the registry scan found. */
    constructor (registered: set<string>)
      ensures Valid()
      ensures entities == [] && players == [] && entitiesCreated == 0 && this.registered == registered
    {
      entities := [];
      players := [];
      entitiesCreated := 0;
      this.registered := registered;
    }

    /**
     * `createEntity`: nothing for an unregistered class; otherwise a new
     * entity with the pre-increment counter as unique id, appended to
     * `entities` with the new (1-based) length as `entityId`, and appended
     * to `players` exactly when its class is "player".
     */
    method CreateEntity(className: string, now: int) returns (e: Entity?)
      requires Valid()
      modifies this`entities, this`players, this`entitiesCreated
      ensures Valid()
      ensures className !in registered ==>
                e == null && entities == old(entities) && players == old(players) && entitiesCreated == old(entitiesCreated)
      ensures className in registered ==> e != null && fresh(e)
      ensures className in registered ==>
                && e.className == className && e.uniqueId == old(entitiesCreated)
                && entitiesCreated == old(entitiesCreated) + 1
                && entities == old(entities) + [e] && e.entityId == |entities|
                && players == old(players) + (if className == PlayerClass then [e] else [])
                && e.modelName == ServerModel(className) && e.lastInputTime == now
    {
      if className !in registered {
        return null;
      }
      e := new Entity(className, entitiesCreated, ServerModel(className), now);
      CreationKeepsLists(players, entities, e, entitiesCreated, className == PlayerClass);
      entitiesCreated := entitiesCreated + 1;
      entities := entities + [e];
      e.entityId := |entities|;
      if className == PlayerClass {
        players := players + [e];
      }
    }

    /**
     * The player loop of `removeEntity`: the first player with the entity's
     * unique id leaves `players` and is handed to the disconnect handler.
     */
    method RemovePlayer(uniqueId: int) returns (disconnected: Option<Entity>)
      requires Valid()
      modifies this`players
      ensures Valid()
      ensures match FirstWithId(old(players), uniqueId)
              case None => players == old(players) && disconnected == None
              case Some(i) => players == RemoveAt(old(players), i) && disconnected == Some(old(players)[i])
    {
      var i := 0;
      while i < |players|
        invariant 0 <= i <= |players| && players == old(players)
        invariant forall k :: 0 <= k < i ==> players[k].uniqueId != uniqueId
      {
        var player := players[i];
        if player.uniqueId == uniqueId {
          FirstIsUnique(players, uniqueId, i);
          RemoveAtKeepsIdsIncreasing(players, i);
          players := RemoveAt(players, i);
          return Some(player);
        }
        i := i + 1;
      }
      return None;
    }

    /**
     * `removeEntity` as written: it splices `entities` at `entity.entityId`,
     * the 1-based length `push` returned, not at the entity's position.
     * For a player it then removes the first player with the same id.
     */
    method RemoveEntity(entity: Entity) returns (disconnected: Option<Entity>)
      requires Valid()
      modifies this`entities, this`players
      ensures Valid()
      ensures entities == SpliceOne(old(entities), entity.entityId)
      ensures !entity.IsPlayer() ==> players == old(players) && disconnected == None
      ensures entity.IsPlayer() ==> match FirstWithId(old(players), entity.uniqueId)
              case None => players == old(players) && disconnected == None
              case Some(i) => players == RemoveAt(old(players), i) && disconnected == Some(old(players)[i])
    {
      var index := entity.entityId;
      SpliceKeepsIds(entities, index, entitiesCreated);
      entities := SpliceOne(entities, index);
      disconnected := None;
      if entity.IsPlayer() {
        disconnected := RemovePlayer(entity.uniqueId);
      }
    }

    /**
     * `removeEntity` as intended: the caller's index (which the update loop
     * passes and the source ignores) says where the entity is, and exactly
     * that element leaves `entities`.
     */
    method RemoveEntityAt(entity: Entity, index: nat) returns (disconnected: Option<Entity>)
      requires Valid()
      requires index < |entities| && entities[index] == entity
      modifies this`entities, this`players
      ensures Valid()
      ensures entities == RemoveAt(old(entities), index)
      ensures !entity.IsPlayer() ==> players == old(players) && disconnected == None
      ensures entity.IsPlayer() ==> match FirstWithId(old(players), entity.uniqueId)
              case None => players == old(players) && disconnected == None
              case Some(i) => players == RemoveAt(old(players), i) && disconnected == Some(old(players)[i])
    {
      RemoveAtKeepsIdsIncreasing(entities, index);
      entities := RemoveAt(entities, index);
      disconnected := None;
      if entity.IsPlayer() {
        disconnected := RemovePlayer(entity.uniqueId);
      }
    }

    /** `getEntityById`: the first entity with the id, or null. */
    method GetEntityById(uniqueId: int) returns (e: Entity?)
      ensures e == EntityWithId(entities, uniqueId)
      ensures e == null <==> forall k :: 0 <= k < |entities| ==> entities[k].uniqueId != uniqueId
    {
      e := FindById(entities, uniqueId);
    }
  }

  /**
   * An entity sitting at position `k` with the id `push` gave it (`k + 1`)
   * survives the splice `removeEntity` performs: the element after it is
   * removed instead, or nothing when it is the last one.
   */
  lemma SpliceAtEntityIdMissesEntity(s: seq<Entity>, k: nat)
    requires k < |s|
    ensures var r := SpliceOne(s, k + 1);
            k < |r| && r[k] == s[k]
    ensures k + 1 < |s| ==> SpliceOne(s, k + 1) == RemoveAt(s, k + 1)
    ensures k + 1 == |s| ==> SpliceOne(s, k + 1) == s
  {
  }

  /** With ids allocated this way, two creations never share an id. */
  lemma ValidIdsAreDistinct(m: ServerEntityManager, a: nat, b: nat)
    requires m.Valid() && a < b < |m.entities|
    ensures m.entities[a].uniqueId != m.entities[b].uniqueId && m.entities[a] != m.entities[b]
  {
  }
}
