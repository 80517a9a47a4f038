/**
 * The rule-based parts of `Physics.collisionCheck` (server/physics.js): the
 * sweep of every entity against the tile map, the all-pairs collision
 * collection with its broad-phase box test, and the "already separating"
 * gate of the impulse resolution. The narrow phase (a separating-axis test
 * on the world meshes) is a parameter `narrow`: for two entities it answers
 * `None` or the translation vector of their overlap.
 */
module Physics {
  import opened Geometry
  import opened Wrappers
  import opened WorldMap
  import opened PhysicsStates
  import opened Entities

  // ---------------------------------------------------------------------
  // Tile sweep
  // ---------------------------------------------------------------------

  /**
   * Where a blocked entity ends up, moving from `last` (its position at the
   * previous tick) towards `current`: first keep the x move unless the
   * x-only probe is blocked and x moved, then the y move likewise with the
   * resolved x, and fall back to `last` when the combined probe is still
   * blocked.
   */
  function Unblock(last: Vec, current: Vec): (r: Vec)
    ensures (r.x == current.x || r.x == last.x) && (r.y == current.y || r.y == last.y)
    ensures IsOpen(GetTileAtPos(r)) || r == last
  {
    var xProbe := Vec(current.x, last.y);
    var x := if !IsOpen(GetTileAtPos(xProbe)) && current.x != last.x then last.x else current.x;
    var yProbe := Vec(x, current.y);
    var y := if !IsOpen(GetTileAtPos(yProbe)) && current.y != last.y then last.y else current.y;
    if IsOpen(GetTileAtPos(Vec(x, y))) then Vec(x, y) else last
  }

  /**
   * The sweep's verdict for one entity: an entity on open floor stays put;
   * otherwise each coordinate becomes the new value or the last-tick value,
   * and the entity ends on open floor or back at its last-tick position.
   */
  function SweepResult(current: Vec, last: Vec): (r: Vec)
    ensures IsOpen(GetTileAtPos(current)) ==> r == current
    ensures (r.x == current.x || r.x == last.x) && (r.y == current.y || r.y == last.y)
    ensures IsOpen(GetTileAtPos(r)) || r == last
  {
    if IsOpen(GetTileAtPos(current)) then current else Unblock(last, current)
  }

  /**
   * The x move survives when the x-only probe is open, unless the final
   * fallback returns to the last position; likewise the y move when the
   * y probe (at the resolved x) is open.
   */
  lemma SweepKeepsOpenProbes(current: Vec, last: Vec)
    requires !IsOpen(GetTileAtPos(current))
    ensures var r := SweepResult(current, last);
            IsOpen(GetTileAtPos(Vec(current.x, last.y))) ==> r.x == current.x || r == last
    ensures var r := SweepResult(current, last);
            var x := if !IsOpen(GetTileAtPos(Vec(current.x, last.y))) && current.x != last.x then last.x else current.x;
            IsOpen(GetTileAtPos(Vec(x, current.y))) ==> r.y == current.y || r == last
  {
  }

  /** When both single-axis probes are blocked, the entity goes back to its last position. */
  lemma SweepRevertsFullyBlocked(current: Vec, last: Vec)
    requires !IsOpen(GetTileAtPos(current))
    requires !IsOpen(GetTileAtPos(Vec(current.x, last.y))) && !IsOpen(GetTileAtPos(Vec(last.x, current.y)))
    ensures SweepResult(current, last) == last
  {
    var r := SweepResult(current, last);
    if current.x == last.x {
      assert Vec(current.x, last.y) == Vec(last.x, last.y);
    }
  }

  /** No two entities of the list share a physics state, and no state is also some entity's last state. */
  predicate SeparateStates(entities: seq<Entity>)
    reads set e | e in entities
  {
    && (forall i, j :: 0 <= i < j < |entities| ==> entities[i].physicsState != entities[j].physicsState)
    && (forall i, j :: 0 <= i < |entities| && 0 <= j < |entities| ==> entities[i].physicsState != entities[j].lastPhysicsState)
  }

  /**
   * The blocked-entity branch of the first loop, for one entity whose tile
   * is not open: the probe position is built field by field, as the source
   * does, and then copied into the entity's position.
   */
  method UnblockEntity(entity: Entity)
    requires entity.physicsState != entity.lastPhysicsState
    modifies entity.physicsState`position
    ensures entity.physicsState.position == Unblock(entity.lastPhysicsState.position, old(entity.physicsState.position))
  {
    var oldPos := entity.lastPhysicsState.position;
    var newPos := entity.GetPos();
    var movement := Sub(newPos, oldPos);
    var potential := oldPos;
    potential := Vec(newPos.x, potential.y);
    var projected := GetTileAtPos(potential);
    if !IsOpen(projected) && (movement.x > 0.0 || movement.x < 0.0) {
      potential := Vec(oldPos.x, potential.y);
    }
    potential := Vec(potential.x, newPos.y);
    projected := GetTileAtPos(potential);
    if !IsOpen(projected) && (movement.y > 0.0 || movement.y < 0.0) {
      potential := Vec(potential.x, oldPos.y);
    }
    projected := GetTileAtPos(potential);
    if !IsOpen(projected) {
      potential := entity.lastPhysicsState.position;
    }
    entity.SetPos(potential);
  }

  /**
   * One pass of the first loop of `collisionCheck`, at `i`: an entity off
   * open floor is unblocked. No other entity's position and no last-tick
   * position moves.
   */
  method SweepEntity(entities: seq<Entity>, i: nat)
    requires i < |entities| && SeparateStates(entities)
    modifies entities[i].physicsState`position
    ensures entities[i].physicsState.position
            == SweepResult(old(entities[i].physicsState.position), entities[i].lastPhysicsState.position)
    ensures forall k :: 0 <= k < |entities| && k != i ==>
              entities[k].physicsState.position == old(entities[k].physicsState.position)
    ensures forall k :: 0 <= k < |entities| ==>
              entities[k].lastPhysicsState.position == old(entities[k].lastPhysicsState.position)
  {
    var entity := entities[i];
    var currentTile := GetTileAtPos(entity.GetPos());
    if !IsOpen(currentTile) {
      UnblockEntity(entity);
    }
  }

  /** The first loop of `collisionCheck`: every entity is swept against the map, in order. */
  method TileSweep(entities: seq<Entity>)
    requires SeparateStates(entities)
    modifies (set e | e in entities :: e.physicsState)`position
    ensures forall k :: 0 <= k < |entities| ==>
              entities[k].physicsState.position
              == SweepResult(old(entities[k].physicsState.position), entities[k].lastPhysicsState.position)
  {
    // Where each entity starts, stood at the last tick, and must end up.
    ghost var start := seq(|entities|, k requires 0 <= k < |entities|
                             reads set e | e in entities, set e | e in entities :: e.physicsState =>
                             entities[k].physicsState.position);
    ghost var last := seq(|entities|, k requires 0 <= k < |entities|
                            reads set e | e in entities, set e | e in entities :: e.lastPhysicsState =>
                            entities[k].lastPhysicsState.position);
    ghost var target := seq(|entities|, k requires 0 <= k < |entities| => SweepResult(start[k], last[k]));
    var i := 0;
    while i < |entities|
      invariant 0 <= i <= |entities|
      invariant forall k :: 0 <= k < |entities| ==> entities[k].lastPhysicsState.position == last[k]
      invariant forall k :: 0 <= k < i ==> entities[k].physicsState.position == target[k]
      invariant forall k :: i <= k < |entities| ==> entities[k].physicsState.position == start[k]
    {
      SweepEntity(entities, i);
      i := i + 1;
    }
  }

  // ---------------------------------------------------------------------
  // Broad phase and pair collection
  // ---------------------------------------------------------------------

  /**
   * `isAABBColliding`: false when the x intervals or the y intervals are
   * apart. For well-formed boxes, equivalently, the intersection of the two
   * x intervals and that of the two y intervals are both non-empty.
   */
  predicate IsAABBColliding(a: AABB, b: AABB)
    ensures WellFormed(a) && WellFormed(b) ==>
              (IsAABBColliding(a, b) <==>
               Max(a.min.x, b.min.x) <= Min(a.max.x, b.max.x) && Max(a.min.y, b.min.y) <= Min(a.max.y, b.max.y))
  {
    if a.max.x < b.min.x || a.min.x > b.max.x then false
    else !(a.max.y < b.min.y || a.min.y > b.max.y)
  }

  predicate Inside(p: Vec, box: AABB) {
    box.min.x <= p.x <= box.max.x && box.min.y <= p.y <= box.max.y
  }

  /** Two well-formed boxes collide exactly when some point lies in both (closed) boxes. */
  lemma AABBCollidingIffCommonPoint(a: AABB, b: AABB)
    requires WellFormed(a) && WellFormed(b)
    ensures IsAABBColliding(a, b) <==> exists p :: Inside(p, a) && Inside(p, b)
  {
    if IsAABBColliding(a, b) {
      var p := Vec(Max(a.min.x, b.min.x), Max(a.min.y, b.min.y));
      assert Inside(p, a) && Inside(p, b);
    }
  }

  lemma AABBCollidingSymmetric(a: AABB, b: AABB)
    ensures IsAABBColliding(a, b) == IsAABBColliding(b, a)
  {
  }

  /** Boxes that only touch along an edge collide: the tests are strict. */
  lemma TouchingBoxesCollide(a: AABB, b: AABB)
    requires WellFormed(a) && WellFormed(b)
    requires a.max.x == b.min.x && a.min.y == b.min.y
    ensures IsAABBColliding(a, b)
  {
  }

  /** `isColliding`: the box test first, then the narrow phase. */
  function IsColliding(a: Entity, b: Entity, narrow: (Entity, Entity) -> Option<Vec>): (r: Option<Vec>)
    reads a.physicsState, b.physicsState
    ensures !IsAABBColliding(a.GetAABB(), b.GetAABB()) ==> r == None
    ensures r.Some? ==> r == narrow(a, b)
  {
    if !IsAABBColliding(a.GetAABB(), b.GetAABB()) then None else narrow(a, b)
  }

  /** One recorded collision: the translation vector and the two entities, in check order. */
  datatype Collision = Collision(translation: Vec, entity1: Entity, entity2: Entity)

  function States(entities: seq<Entity>): set<PhysicsState> {
    set e | e in entities :: e.physicsState
  }

  /** The collision of `a` against `b`, if the inner loop records one. */
  function Hit(a: Entity, b: Entity, narrow: (Entity, Entity) -> Option<Vec>): seq<Collision>
    reads a.physicsState, b.physicsState
  {
    if b == a then []
    else match IsColliding(a, b, narrow)
      case None => []
      case Some(v) => [Collision(v, a, b)]
  }

  /** The collisions the inner loop records for `a` against `others`, in order. */
  function RowCollisions(a: Entity, others: seq<Entity>, narrow: (Entity, Entity) -> Option<Vec>): seq<Collision>
    reads a.physicsState, States(others)
  {
    if others == [] then []
    else RowCollisions(a, others[..|others| - 1], narrow) + Hit(a, others[|others| - 1], narrow)
  }

  /** The collisions the nested loops record for every entity of `firsts` against `entities`. */
  function AllCollisions(firsts: seq<Entity>, entities: seq<Entity>, narrow: (Entity, Entity) -> Option<Vec>): seq<Collision>
    reads States(firsts), States(entities)
  {
    if firsts == [] then []
    else AllCollisions(firsts[..|firsts| - 1], entities, narrow) + RowCollisions(firsts[|firsts| - 1], entities, narrow)
  }

  /** The second loop of `collisionCheck`: every ordered pair of distinct entities goes through the collision test. */
  method CollectCollisions(entities: seq<Entity>, narrow: (Entity, Entity) -> Option<Vec>) returns (collisions: seq<Collision>)
    ensures collisions == AllCollisions(entities, entities, narrow)
  {
    collisions := [];
    var i := 0;
    while i < |entities|
      invariant 0 <= i <= |entities|
      invariant collisions == AllCollisions(entities[..i], entities, narrow)
    {
      ghost var expected := AllCollisions(entities[..i + 1], entities, narrow);
      AllStep(entities, i, narrow);
      label Before:
      var row := CollectRow(entities[i], entities, narrow);
      assert unchanged@Before(States(entities));
      assert unchanged@Before(States(entities[..i + 1]));
      assert AllCollisions(entities[..i + 1], entities, narrow) == expected;
      collisions := collisions + row;
      i := i + 1;
    }
    assert entities[..i] == entities;
  }

  /** The inner loop of the pair collection: `entity` against every other entity, in order. */
  method CollectRow(entity: Entity, entities: seq<Entity>, narrow: (Entity, Entity) -> Option<Vec>) returns (row: seq<Collision>)
    ensures row == RowCollisions(entity, entities, narrow)
  {
    row := [];
    var j := 0;
    while j < |entities|
      invariant 0 <= j <= |entities|
      invariant row == RowCollisions(entity, entities[..j], narrow)
    {
      var entity2 := entities[j];
      var hit: seq<Collision> := [];
      if entity2 != entity {
        var colliding := IsColliding(entity, entity2, narrow);
        if colliding.Some? {
          hit := [Collision(colliding.value, entity, entity2)];
        }
      }
      assert hit == Hit(entity, entity2, narrow);
      RowStep(entity, entities, j, narrow);
      row := row + hit;
      j := j + 1;
    }
    assert entities[..j] == entities;
  }

  /** One more entity compared with `a` adds its hit, if any. */
  lemma RowStep(a: Entity, others: seq<Entity>, j: nat, narrow: (Entity, Entity) -> Option<Vec>)
    requires j < |others|
    ensures RowCollisions(a, others[..j + 1], narrow) == RowCollisions(a, others[..j], narrow) + Hit(a, others[j], narrow)
  {
    assert others[..j + 1][..j] == others[..j];
  }

  /** One more row of the outer loop adds that entity's collisions. */
  lemma AllStep(entities: seq<Entity>, i: nat, narrow: (Entity, Entity) -> Option<Vec>)
    requires i < |entities|
    ensures AllCollisions(entities[..i + 1], entities, narrow) ==
              AllCollisions(entities[..i], entities, narrow) + RowCollisions(entities[i], entities, narrow)
  {
    assert entities[..i + 1][..i] == entities[..i];
  }

  /** A collision is recorded for `a` against `others` exactly when the inner loop meets a colliding `b`. */
  lemma {:induction false} RowMembership(a: Entity, others: seq<Entity>, narrow: (Entity, Entity) -> Option<Vec>, c: Collision)
    ensures c in RowCollisions(a, others, narrow) <==>
              c.entity1 == a && c.entity2 in others && c.entity2 != a &&
              IsColliding(a, c.entity2, narrow) == Some(c.translation)
  {
    if others != [] {
      var init := others[..|others| - 1];
      var b := others[|others| - 1];
      RowMembership(a, init, narrow, c);
      assert others == init + [b];
      assert c.entity2 in others <==> c.entity2 in init || c.entity2 == b;
    }
  }

  /**
   * A collision is recorded exactly for each ordered pair of distinct
   * entities, the first from `firsts`, that the box test and the narrow
   * phase accept.
   */
  lemma {:induction false} CollisionMembership(firsts: seq<Entity>, entities: seq<Entity>,
                                               narrow: (Entity, Entity) -> Option<Vec>, c: Collision)
    ensures c in AllCollisions(firsts, entities, narrow) <==>
              c.entity1 in firsts && c.entity2 in entities && c.entity1 != c.entity2 &&
              IsColliding(c.entity1, c.entity2, narrow) == Some(c.translation)
  {
    if firsts != [] {
      var init := firsts[..|firsts| - 1];
      var a := firsts[|firsts| - 1];
      CollisionMembership(init, entities, narrow, c);
      RowMembership(a, entities, narrow, c);
      assert firsts == init + [a];
      assert c.entity1 in firsts <==> c.entity1 in init || c.entity1 == a;
    }
  }

  /** No entity is ever paired with itself. */
  lemma NoSelfCollision(entities: seq<Entity>, narrow: (Entity, Entity) -> Option<Vec>, c: Collision)
    requires c in AllCollisions(entities, entities, narrow)
    ensures c.entity1 != c.entity2
  {
    CollisionMembership(entities, entities, narrow, c);
  }

  /**
   * With the duplicate check disabled, a colliding pair is recorded in both
   * orders whenever the narrow phase agrees on both orders.
   */
  lemma BothOrdersRecorded(entities: seq<Entity>, narrow: (Entity, Entity) -> Option<Vec>, a: Entity, b: Entity)
    requires a in entities && b in entities && a != b
    requires IsAABBColliding(a.GetAABB(), b.GetAABB())
    requires narrow(a, b).Some? && narrow(b, a).Some?
    ensures Collision(narrow(a, b).value, a, b) in AllCollisions(entities, entities, narrow)
    ensures Collision(narrow(b, a).value, b, a) in AllCollisions(entities, entities, narrow)
  {
    AABBCollidingSymmetric(a.GetAABB(), b.GetAABB());
    CollisionMembership(entities, entities, narrow, Collision(narrow(a, b).value, a, b));
    CollisionMembership(entities, entities, narrow, Collision(narrow(b, a).value, b, a));
  }

  // ---------------------------------------------------------------------
  // Impulse gate
  // ---------------------------------------------------------------------

  /** The restitution the resolution uses (`e = 0.8`). */
  const Restitution: real := 0.8

  /** The relative velocity of the two entities along the translation vector. */
  function ContactVelocity(velocityA: Vec, velocityB: Vec, normal: Vec): real {
    Dot(Sub(velocityA, velocityB), normal)
  }

  /**
   * What the resolution does with one collision: nothing when the bodies
   * already separate; otherwise the impulse `j n` with
   * `j = -(1 + e) cv / (n . (n (invMassA + invMassB)))`. A zero denominator
   * makes the source's division non-finite; that case is `Degenerate`.
   */
  datatype Response = Separating | Degenerate | Push(impulse: Vec)

  function CollisionResponse(velocityA: Vec, velocityB: Vec, normal: Vec, inverseMassA: real, inverseMassB: real): (r: Response)
    ensures r == Separating <==> ContactVelocity(velocityA, velocityB, normal) >= 0.0
  {
    var contactVelocity := ContactVelocity(velocityA, velocityB, normal);
    if contactVelocity >= 0.0 then Separating
    else
      var massSum := inverseMassA + inverseMassB;
      var denominator := Dot(normal, Scale(normal, massSum));
      if denominator == 0.0 then Degenerate
      else Push(Scale(normal, -(1.0 + Restitution) * contactVelocity / denominator))
  }

  /** Adding `j m n` to the relative velocity adds `j (n . n m)` to the contact velocity. */
  lemma ContactAfterImpulse(relative: Vec, normal: Vec, j: real, massSum: real)
    ensures Dot(Add(relative, Scale(normal, j * massSum)), normal)
            == Dot(relative, normal) + j * Dot(normal, Scale(normal, massSum))
  {
    assert (relative.x + normal.x * (j * massSum)) * normal.x == relative.x * normal.x + j * (normal.x * (normal.x * massSum));
    assert (relative.y + normal.y * (j * massSum)) * normal.y == relative.y * normal.y + j * (normal.y * (normal.y * massSum));
  }

  /**
   * Pushing A by `j n` through its inverse mass and B by `-j n` through its
   * own changes the contact velocity by `j (n . n (invMassA + invMassB))`.
   */
  lemma ContactAfterPush(velocityA: Vec, velocityB: Vec, normal: Vec, inverseMassA: real, inverseMassB: real, j: real)
    ensures var impulse := Scale(normal, j);
            ContactVelocity(Add(velocityA, Scale(impulse, inverseMassA)), Sub(velocityB, Scale(impulse, inverseMassB)), normal)
            == ContactVelocity(velocityA, velocityB, normal) + j * Dot(normal, Scale(normal, inverseMassA + inverseMassB))
  {
    var massSum := inverseMassA + inverseMassB;
    var impulse := Scale(normal, j);
    var a2 := Add(velocityA, Scale(impulse, inverseMassA));
    var b2 := Sub(velocityB, Scale(impulse, inverseMassB));
    assert a2.x - b2.x == velocityA.x - velocityB.x + normal.x * (j * massSum);
    assert a2.y - b2.y == velocityA.y - velocityB.y + normal.y * (j * massSum);
    assert Sub(a2, b2) == Add(Sub(velocityA, velocityB), Scale(normal, j * massSum));
    ContactAfterImpulse(Sub(velocityA, velocityB), normal, j, massSum);
  }

  /**
   * The intended effect of a push: when the impulse is added to A's momentum
   * and taken from B's, and each velocity follows its momentum through the
   * inverse mass, the contact velocity becomes `-e` times what it was.
   */
  lemma PushReversesContact(velocityA: Vec, velocityB: Vec, normal: Vec, inverseMassA: real, inverseMassB: real)
    requires CollisionResponse(velocityA, velocityB, normal, inverseMassA, inverseMassB).Push?
    ensures var impulse := CollisionResponse(velocityA, velocityB, normal, inverseMassA, inverseMassB).impulse;
            ContactVelocity(Add(velocityA, Scale(impulse, inverseMassA)), Sub(velocityB, Scale(impulse, inverseMassB)), normal)
            == -Restitution * ContactVelocity(velocityA, velocityB, normal)
  {
    var cv := ContactVelocity(velocityA, velocityB, normal);
    var d := Dot(normal, Scale(normal, inverseMassA + inverseMassB));
    var j := -(1.0 + Restitution) * cv / d;
    assert j * d == -(1.0 + Restitution) * cv;
    ContactAfterPush(velocityA, velocityB, normal, inverseMassA, inverseMassB, j);
  }
}
