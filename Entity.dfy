/**
 * Entity records: the base entity of entities/base/shared.js, with the
 * player's additions of entities/player/shared.js. The source builds an
 * entity by merging prototype objects chosen by a class name ("base",
 * "player", "longblock"); here one class carries every field, and the class
 * name decides which behaviour applies. The player-only fields exist on every
 * entity of the model, and only players use them.
 */
module Entities {
  import opened Geometry
  import opened Inputs
  import opened PhysicsStates

  const PlayerClass: string := "player"
  const LongBlockClass: string := "longblock"

  /** The distance `physicsSimulate` moves per held direction key. */
  const WalkDistance: real := 5.0

  /** The player's default attack cooldown in milliseconds. */
  const DefaultAttackDelay: int := 500

  const DefaultName: string := "Unnamed Player"

  /** A JavaScript number flag is truthy when it is not 0. */
  predicate Held(flag: int) { flag != 0 }

  /**
   * The walk velocity a player's input asks for: `WalkDistance` along y for
   * up, against it for down, along x for right, against it for left. Each
   * component is -5, 0 or 5; opposite keys cancel, so a component is 0
   * exactly when its two keys are both held or both released, and it is
   * positive exactly when only the key along the axis is held.
   */
  function WalkVelocity(input: Input): (v: Vec)
    ensures v.x in {-WalkDistance, 0.0, WalkDistance} && v.y in {-WalkDistance, 0.0, WalkDistance}
    ensures v.x == 0.0 <==> (Held(input.left) <==> Held(input.right))
    ensures v.y == 0.0 <==> (Held(input.up) <==> Held(input.down))
    ensures v.x > 0.0 <==> Held(input.right) && !Held(input.left)
    ensures v.y > 0.0 <==> Held(input.up) && !Held(input.down)
  {
    Vec((if Held(input.right) then WalkDistance else 0.0) - (if Held(input.left) then WalkDistance else 0.0),
        (if Held(input.up) then WalkDistance else 0.0) - (if Held(input.down) then WalkDistance else 0.0))
  }

  /** The model name an entity of the class gets from its server-side `init`. */
  function ServerModel(className: string): (model: string)
    ensures model == LongBlockClass <==> className == LongBlockClass
    ensures model != LongBlockClass ==> model == "base"
  {
    if className == LongBlockClass then LongBlockClass else "base"
  }

  class Entity {
    const className: string
    const uniqueId: int
    /** The 1-based position `push` returned when the server manager stored the entity. */
    var entityId: int
    var isBeingRemoved: bool
    var modelName: string
    var appliedForce: Vec
    var appliedTorque: Vec
    const physicsState: PhysicsState
    var lastPhysicsState: PhysicsState

    // Player fields, set by the player's `init`.
    var lastInputTime: int
    var input: Input
    var lastAttackTime: int
    var walkVelocity: Vec
    var attackDelay: int
    var name: string
    var laggedOut: bool

    /**
     * `_internalInit` followed by `init`: zero applied force and torque, two
     * fresh default physics states, and for a player the idle input, no
     * walk velocity, a 500 ms attack delay, the default name and the current
     * time as the last input time. Only players run that `init` in the
     * program; here every entity gets the player fields, which is harmless
     * because every read of them is guarded by `IsPlayer()`.
     */
    constructor (className: string, uniqueId: int, modelName: string, now: int)
      ensures this.className == className && this.uniqueId == uniqueId && this.modelName == modelName
      ensures entityId == 0 && !isBeingRemoved && !laggedOut
      ensures appliedForce == Zero && appliedTorque == Zero
      ensures fresh(physicsState) && fresh(lastPhysicsState) && physicsState != lastPhysicsState
      ensures physicsState.position == Zero && physicsState.momentum == Zero && physicsState.velocity == Zero
      ensures physicsState.mass == 1.0 && physicsState.inverseMass == 1.0
      ensures physicsState.aabbMin == Zero && physicsState.aabbMax == Zero
      ensures lastPhysicsState.position == Zero
      ensures lastInputTime == now && input == Idle && lastAttackTime == 0 && walkVelocity == Zero
      ensures attackDelay == DefaultAttackDelay && name == DefaultName
    {
      this.className := className;
      this.uniqueId := uniqueId;
      this.modelName := modelName;
      entityId := 0;
      isBeingRemoved := false;
      laggedOut := false;
      appliedForce := Zero;
      appliedTorque := Zero;
      physicsState := new PhysicsState();
      lastPhysicsState := new PhysicsState();
      lastInputTime := now;
      input := Idle;
      lastAttackTime := 0;
      walkVelocity := Zero;
      attackDelay := DefaultAttackDelay;
      name := DefaultName;
    }

    predicate IsPlayer() {
      className == PlayerClass
    }

    method ShouldRemove(remove: bool)
      modifies this`isBeingRemoved
      ensures isBeingRemoved == remove
    {
      isBeingRemoved := remove;
    }

    /**
     * Adds the impulse to the momentum and recalculates; `sin`/`cos` are the
     * sine and cosine of the angle that `buildAABB` evaluates.
     */
    method ApplyImpulse(impulse: Vec, sin: real, cos: real)
      modifies physicsState`momentum, physicsState`velocity, physicsState`angularVelocity
      modifies physicsState`aabbMin, physicsState`aabbMax
      ensures physicsState.momentum == Add(old(physicsState.momentum), impulse)
      ensures physicsState.velocity == Scale(physicsState.momentum, physicsState.inverseMass)
    {
      physicsState.momentum := Add(physicsState.momentum, impulse);
      physicsState.Recalculate(sin, cos);
    }

    /** Copies both components into the position; nothing else changes. */
    method SetPos(v: Vec)
      modifies physicsState`position
      ensures physicsState.position == v
    {
      physicsState.position := Vec(v.x, physicsState.position.y);
      physicsState.position := Vec(physicsState.position.x, v.y);
    }

    method SetAngle(angle: real)
      modifies physicsState`angle
      ensures physicsState.angle == angle
    {
      physicsState.angle := angle;
    }

    method SetName(newName: string)
      modifies this`name
      ensures name == newName
    {
      name := newName;
    }

    /** The position, as a value: later changes to the result cannot reach the entity. */
    function GetPos(): (p: Vec)
      reads physicsState
      ensures p == physicsState.position
    {
      physicsState.position
    }

    /** The world box: the position plus the local box corners. */
    function GetAABB(): (box: AABB)
      reads physicsState
      ensures box.max.x - box.min.x == physicsState.aabbMax.x - physicsState.aabbMin.x
      ensures box.max.y - box.min.y == physicsState.aabbMax.y - physicsState.aabbMin.y
      ensures WellFormed(AABB(physicsState.aabbMin, physicsState.aabbMax)) ==> WellFormed(box)
    {
      AABB(Add(GetPos(), physicsState.aabbMin), Add(GetPos(), physicsState.aabbMax))
    }

    /**
     * For a player the physics velocity plus the walk velocity; otherwise the
     * physics velocity. Only a player's walk makes the two differ, so a
     * player standing still under the idle input moves at its physics
     * velocity.
     */
    function GetVelocity(): (v: Vec)
      reads this, physicsState
      ensures Sub(v, physicsState.velocity) == if IsPlayer() then walkVelocity else Zero
      ensures walkVelocity == WalkVelocity(Idle) ==> v == physicsState.velocity
    {
      if IsPlayer() then Add(physicsState.velocity, walkVelocity) else physicsState.velocity
    }

    method ClearAppliedForce()
      modifies this`appliedForce
      ensures appliedForce == Zero
    {
      appliedForce := Vec(0.0, appliedForce.y);
      appliedForce := Vec(appliedForce.x, 0.0);
    }

    method ClearAppliedTorque()
      modifies this`appliedTorque
      ensures appliedTorque == Zero
    {
      appliedTorque := Vec(0.0, appliedTorque.y);
      appliedTorque := Vec(appliedTorque.x, 0.0);
    }

    /**
     * `physicsSimulate`: the internal force, always zero. A player instead
     * rebuilds its walk velocity from the current input alone, step by step
     * as the source does; any other entity changes nothing.
     */
    method PhysicsSimulate() returns (force: Vec)
      modifies this`walkVelocity
      ensures force == Zero
      ensures IsPlayer() ==> walkVelocity == WalkVelocity(input)
      ensures !IsPlayer() ==> walkVelocity == old(walkVelocity)
    {
      if IsPlayer() {
        var position := Zero;
        if Held(input.down) {
          position := Vec(position.x, position.y - WalkDistance);
        }
        if Held(input.up) {
          position := Vec(position.x, position.y + WalkDistance);
        }
        if Held(input.right) {
          position := Vec(position.x + WalkDistance, position.y);
        }
        if Held(input.left) {
          position := Vec(position.x - WalkDistance, position.y);
        }
        walkVelocity := position;
      }
      force := Zero;
    }
  }

  /**
   * A box built by `buildAABB` (`aabbMin == -aabbMax`, extents at least 0)
   * gives a world box centred on the position.
   */
  lemma CentredWorldBox(e: Entity)
    requires e.physicsState.aabbMin == Vec(-e.physicsState.aabbMax.x, -e.physicsState.aabbMax.y)
    requires e.physicsState.aabbMax.x >= 0.0 && e.physicsState.aabbMax.y >= 0.0
    ensures var box := e.GetAABB();
            WellFormed(box) && Add(box.min, box.max) == Scale(e.GetPos(), 2.0)
  {
  }
}
