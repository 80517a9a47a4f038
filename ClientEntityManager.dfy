/**
 * The client's entity bookkeeping (`ClientEntityManager` in
 * client/lib/entity-manager.js): the decoder that turns a model file's flat
 * coordinate array into vertices, creation with a server-assigned id,
 * updates from the server, removal by splice and lookup by id. The class
 * registry that `registerEntities` builds is given as the set of registered
 * class names.
 */
module ClientEntities {
  import opened Geometry
  import opened Wrappers
  import opened PhysicsStates
  import opened Entities
  import opened EntityLists

  // ---------------------------------------------------------------------
  // Mesh decoding
  // ---------------------------------------------------------------------

  /**
   * A vertex the decoder builds: an odd-length array leaves the last
   * vertex without a y coordinate (`rawMesh[i + 1]` is undefined).
   */
  datatype RawVertex = RawVertex(x: real, y: Option<real>)

  /** The vertex the decoder builds from the coordinates starting at `i`. */
  function VertexAt(raw: seq<real>, i: nat): RawVertex
    requires i < |raw|
  {
    RawVertex(raw[i], if i + 1 < |raw| then Some(raw[i + 1]) else None)
  }

  /**
   * The step-2 loop of `registerModels`: one vertex per pair of
   * coordinates, in order, so ceil(n/2) vertices for n coordinates.
   */
  method DecodeMesh(raw: seq<real>) returns (mesh: seq<RawVertex>)
    ensures |mesh| == (|raw| + 1) / 2
    ensures forall k :: 0 <= k < |mesh| ==> 2 * k < |raw| && mesh[k] == VertexAt(raw, 2 * k)
  {
    mesh := [];
    var i := 0;
    while i < |raw|
      invariant 0 <= i <= |raw| + 1 && i % 2 == 0
      invariant |mesh| == i / 2
      invariant forall k :: 0 <= k < |mesh| ==> 2 * k < |raw| && mesh[k] == VertexAt(raw, 2 * k)
    {
      mesh := mesh + [VertexAt(raw, i)];
      i := i + 2;
    }
  }

  /** The flat layout of a model file: x0, y0, x1, y1, ... */
  function Flatten(vertices: seq<Vec>): (raw: seq<real>) {
    if vertices == [] then [] else [vertices[0].x, vertices[0].y] + Flatten(vertices[1..])
  }

  /** Each vertex occupies two consecutive coordinates of the flat layout. */
  lemma {:induction false} FlattenLayout(vertices: seq<Vec>)
    ensures |Flatten(vertices)| == 2 * |vertices|
    ensures forall k :: 0 <= k < |vertices| ==>
              Flatten(vertices)[2 * k] == vertices[k].x && Flatten(vertices)[2 * k + 1] == vertices[k].y
  {
    if vertices != [] {
      FlattenLayout(vertices[1..]);
      var rest := Flatten(vertices[1..]);
      forall k | 1 <= k < |vertices|
        ensures Flatten(vertices)[2 * k] == vertices[k].x && Flatten(vertices)[2 * k + 1] == vertices[k].y
      {
        assert Flatten(vertices)[2 * k] == rest[2 * (k - 1)];
        assert Flatten(vertices)[2 * k + 1] == rest[2 * (k - 1) + 1];
      }
    }
  }

  /**
   * Decoding a flattened mesh gives back every vertex, in order, each with
   * its y coordinate.
   */
  lemma DecodeFlattenRoundTrip(vertices: seq<Vec>)
    ensures (|Flatten(vertices)| + 1) / 2 == |vertices|
    ensures forall k :: 0 <= k < |vertices| ==>
              2 * k < |Flatten(vertices)| && VertexAt(Flatten(vertices), 2 * k) == RawVertex(vertices[k].x, Some(vertices[k].y))
  {
    FlattenLayout(vertices);
  }

  /** Only an odd-length array leaves a vertex without a y coordinate, and only the last one. */
  lemma MissingCoordinateIsLast(raw: seq<real>, k: nat)
    requires 2 * k < |raw|
    ensures VertexAt(raw, 2 * k).y.None? <==> |raw| % 2 == 1 && k == |raw| / 2
  {
  }

  // ---------------------------------------------------------------------
  // The manager
  // ---------------------------------------------------------------------

  class ClientEntityManager {
    var entities: seq<Entity>
    var registered: set<string>

    /** An empty manager over the classes the registry scan found. */
    constructor (registered: set<string>)
      ensures entities == [] && this.registered == registered
    {
      entities := [];
      this.registered := registered;
    }

    /**
     * `createEntity`: an entity of a registered class, with the id the
     * server chose and the model it named, appended to the list. For an
     * unregistered class the source fails before changing anything; the
     * model returns null.
     */
    method CreateEntity(entityClass: string, uniqueId: int, model: string, now: int) returns (e: Entity?)
      modifies this`entities
      ensures entityClass !in registered ==> e == null && entities == old(entities)
      ensures entityClass in registered ==> e != null && fresh(e) && entities == old(entities) + [e]
      ensures e != null ==> e.className == entityClass && e.uniqueId == uniqueId && e.modelName == model
    {
      if entityClass !in registered {
        return null;
      }
      e := new Entity(entityClass, uniqueId, model, now);
      entities := entities + [e];
    }

    /**
     * `updateEntity`: the first entity with the id takes the new position
     * and angle and rebuilds its box with the corrected `buildAABB`
     * (`sin`/`cos` are those of the new angle); an unknown id changes
     * nothing and gives null.
     */
    method UpdateEntity(uniqueId: int, x: real, y: real, angle: real, sin: real, cos: real) returns (updated: Entity?)
      modifies set e | e in entities :: e.physicsState`position
      modifies set e | e in entities :: e.physicsState`angle
      modifies set e | e in entities :: e.physicsState`aabbMin
      modifies set e | e in entities :: e.physicsState`aabbMax
      ensures updated == EntityWithId(entities, uniqueId)
      ensures updated == null <==> forall k :: 0 <= k < |entities| ==> entities[k].uniqueId != uniqueId
      ensures updated != null ==>
                && updated.physicsState.position == Vec(x, y) && updated.physicsState.angle == angle
                && (updated.physicsState.aabbMax.x, updated.physicsState.aabbMax.y) ==
                   EnclosingExtents(updated.physicsState.halfWidth, updated.physicsState.halfHeight, sin, cos)
                && updated.physicsState.aabbMin == Vec(-updated.physicsState.aabbMax.x, -updated.physicsState.aabbMax.y)
      ensures forall k :: 0 <= k < |entities| && (updated == null || entities[k].physicsState != updated.physicsState) ==>
                var s := entities[k].physicsState;
                s.position == old(s.position) && s.angle == old(s.angle) && s.aabbMin == old(s.aabbMin) && s.aabbMax == old(s.aabbMax)
    {
      updated := FindById(entities, uniqueId);
      if updated == null {
        return;
      }
      updated.SetPos(Vec(x, y));
      updated.SetAngle(angle);
      updated.physicsState.BuildEnclosingAABB(sin, cos);
    }

    /**
     * `removeEntity`: the first entity with the id leaves the list and is
     * returned; without one the list is unchanged and the result is null.
     */
    method RemoveEntity(uniqueId: int) returns (entity: Entity?)
      modifies this`entities
      ensures match FirstWithId(old(entities), uniqueId)
              case None => entity == null && entities == old(entities)
              case Some(i) => entity == old(entities)[i] && entities == RemoveAt(old(entities), i)
    {
      entity := null;
      var i := 0;
      while i < |entities|
        invariant 0 <= i <= |entities| && entities == old(entities)
        invariant forall k :: 0 <= k < i ==> entities[k].uniqueId != uniqueId
      {
        if entities[i].uniqueId == uniqueId {
          FirstIsUnique(entities, uniqueId, i);
          entity := entities[i];
          entities := RemoveAt(entities, i);
          return;
        }
        i := i + 1;
      }
    }

    /** `getEntityById`: the first entity with the id, or null. */
    method GetEntityById(uniqueId: int) returns (e: Entity?)
      ensures e == EntityWithId(entities, uniqueId)
      ensures e == null <==> forall k :: 0 <= k < |entities| ==> entities[k].uniqueId != uniqueId
    {
      e := FindById(entities, uniqueId);
    }
  }

  /** Ids that occur at most once along the list. */
  predicate IdsDistinct(s: seq<Entity>) {
    forall a, b :: 0 <= a < b < |s| ==> s[a].uniqueId != s[b].uniqueId
  }

  /**
   * With distinct ids (the server never reuses one), removing the entity
   * the search finds leaves no entity with that id, and every other entity
   * stays in order.
   */
  lemma RemovedIdIsGone(s: seq<Entity>, uniqueId: int, i: nat)
    requires IdsDistinct(s) && FirstWithId(s, uniqueId) == Some(i)
    ensures forall k :: 0 <= k < |RemoveAt(s, i)| ==> RemoveAt(s, i)[k].uniqueId != uniqueId
    ensures EntityWithId(RemoveAt(s, i), uniqueId) == null
  {
    var r := RemoveAt(s, i);
    forall k | 0 <= k < |r|
      ensures r[k].uniqueId != uniqueId
    {
      if k < i {
        assert r[k] == s[k];
      } else {
        assert r[k] == s[k + 1];
      }
    }
  }

  /** An entity created with an id not yet in the list is what a later search for that id finds. */
  lemma CreatedIsFound(s: seq<Entity>, e: Entity)
    requires forall k :: 0 <= k < |s| ==> s[k].uniqueId != e.uniqueId
    ensures EntityWithId(s + [e], e.uniqueId) == e
  {
    FirstIsUnique(s + [e], e.uniqueId, |s|);
  }
}
