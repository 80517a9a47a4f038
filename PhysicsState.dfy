/**
 * The per-entity kinematic state (`PhysicsState` in common/physicsState.js):
 * the mesh fold of `setMesh`, `setMass`, `recalculate`, `clone` and the
 * bounding box of `buildAABB`. The trigonometry of `buildAABB` is abstracted:
 * the sine and cosine of the angle are parameters, arbitrary reals.
 */
module PhysicsStates {
  import opened Geometry

  /** The starting values of the `setMesh` fold: `minX = 99999`, `maxX = -99999`. */
  const Sentinel: real := 99999.0

  /** The constructor's unit square, centred on the origin. */
  const DefaultMesh: seq<Vec> := [Vec(-0.5, 0.5), Vec(0.5, 0.5), Vec(0.5, -0.5), Vec(-0.5, -0.5)]

  function Xs(mesh: seq<Vec>): (xs: seq<real>)
    ensures |xs| == |mesh| && forall k :: 0 <= k < |mesh| ==> xs[k] == mesh[k].x
  {
    seq(|mesh|, k requires 0 <= k < |mesh| => mesh[k].x)
  }

  function Ys(mesh: seq<Vec>): (ys: seq<real>)
    ensures |ys| == |mesh| && forall k :: 0 <= k < |mesh| ==> ys[k] == mesh[k].y
  {
    seq(|mesh|, k requires 0 <= k < |mesh| => mesh[k].y)
  }

  /** The fold `if (v < m) m = v` over `xs`, in order, from `m`. */
  function Least(xs: seq<real>, m: real): real {
    if xs == [] then m else Least(xs[1..], if xs[0] < m then xs[0] else m)
  }

  /** The fold `if (v > m) m = v` over `xs`, in order, from `m`. */
  function Greatest(xs: seq<real>, m: real): real {
    if xs == [] then m else Greatest(xs[1..], if xs[0] > m then xs[0] else m)
  }

  /** The `Least` fold is below its start and every element, and is one of them. */
  lemma {:induction false} LeastBounds(xs: seq<real>, m: real)
    ensures var r := Least(xs, m);
            r <= m && (forall k :: 0 <= k < |xs| ==> r <= xs[k]) && (r == m || r in xs)
  {
    if xs != [] {
      LeastBounds(xs[1..], if xs[0] < m then xs[0] else m);
      assert forall k :: 1 <= k < |xs| ==> xs[k] == xs[1..][k - 1];
    }
  }

  /** The `Greatest` fold is above its start and every element, and is one of them. */
  lemma {:induction false} GreatestBounds(xs: seq<real>, m: real)
    ensures var r := Greatest(xs, m);
            r >= m && (forall k :: 0 <= k < |xs| ==> r >= xs[k]) && (r == m || r in xs)
  {
    if xs != [] {
      GreatestBounds(xs[1..], if xs[0] > m then xs[0] else m);
      assert forall k :: 1 <= k < |xs| ==> xs[k] == xs[1..][k - 1];
    }
  }

  /** One step of the `Least` fold, taken at position `i`. */
  lemma LeastStep(xs: seq<real>, i: int, m: real)
    requires 0 <= i < |xs|
    ensures Least(xs[i..], m) == Least(xs[i + 1..], if xs[i] < m then xs[i] else m)
  {
    assert xs[i..][1..] == xs[i + 1..];
  }

  /** One step of the `Greatest` fold, taken at position `i`. */
  lemma GreatestStep(xs: seq<real>, i: int, m: real)
    requires 0 <= i < |xs|
    ensures Greatest(xs[i..], m) == Greatest(xs[i + 1..], if xs[i] > m then xs[i] else m)
  {
    assert xs[i..][1..] == xs[i + 1..];
  }

  /** `(max - min) / 2` as `setMesh` computes it for one axis, from the sentinels. */
  function HalfExtent(xs: seq<real>): real {
    (Greatest(xs, -Sentinel) - Least(xs, Sentinel)) / 2.0
  }

  /** Over a non-empty mesh the half extent is never negative. */
  lemma HalfExtentNonNegative(xs: seq<real>)
    requires |xs| > 0
    ensures HalfExtent(xs) >= 0.0
  {
    LeastBounds(xs, Sentinel);
    GreatestBounds(xs, -Sentinel);
  }

  /**
   * With every coordinate strictly inside the sentinels, the two folds that
   * `HalfExtent` subtracts are the smallest and the largest coordinate.
   */
  lemma HalfExtentIsSpread(xs: seq<real>)
    requires |xs| > 0
    requires forall k :: 0 <= k < |xs| ==> -Sentinel < xs[k] < Sentinel
    ensures var lo, hi := Least(xs, Sentinel), Greatest(xs, -Sentinel);
            lo in xs && hi in xs && forall k :: 0 <= k < |xs| ==> lo <= xs[k] <= hi
  {
    LeastBounds(xs, Sentinel);
    GreatestBounds(xs, -Sentinel);
  }

  /** An empty mesh leaves the sentinels in place: both half extents are -99999. */
  lemma EmptyMeshExtent()
    ensures HalfExtent(Xs([])) == -Sentinel && HalfExtent(Ys([])) == -Sentinel
  {
  }

  /** The unit square has half extents 0.5. */
  lemma DefaultMeshExtent()
    ensures HalfExtent(Xs(DefaultMesh)) == 0.5 && HalfExtent(Ys(DefaultMesh)) == 0.5
  {
    var xs, ys := Xs(DefaultMesh), Ys(DefaultMesh);
    assert xs == [-0.5, 0.5, 0.5, -0.5];
    assert ys == [0.5, 0.5, -0.5, -0.5];
    assert Least(xs, Sentinel) == Least([0.5, 0.5, -0.5], -0.5) == Least([0.5, -0.5], -0.5) == -0.5;
    assert Greatest(xs, -Sentinel) == Greatest([0.5, 0.5, -0.5], -0.5) == Greatest([0.5, -0.5], 0.5) == 0.5;
    assert Least(ys, Sentinel) == Least([0.5, -0.5, -0.5], 0.5) == Least([-0.5, -0.5], 0.5) == -0.5;
    assert Greatest(ys, -Sentinel) == Greatest([0.5, -0.5, -0.5], 0.5) == Greatest([-0.5, -0.5], 0.5) == 0.5;
  }

  /** The rotation `buildAABB` applies to a corner: `(x cos - y sin, x sin + y cos)`. */
  function Rotate(v: Vec, sin: real, cos: real): Vec {
    Vec(v.x * cos - v.y * sin, v.x * sin + v.y * cos)
  }

  /**
   * The half extents `(ex, ey)` that `buildAABB` computes: the absolute
   * coordinates of ONE corner, `(-halfWidth, -halfHeight)`, rotated, and of
   * the opposite corner, rotated.
   */
  function BoxExtents(halfWidth: real, halfHeight: real, sin: real, cos: real): (e: (real, real))
    ensures e.0 >= 0.0 && e.1 >= 0.0
  {
    var c1 := Rotate(Vec(-halfWidth, -halfHeight), sin, cos);
    var c2 := Rotate(Vec(halfWidth, halfHeight), sin, cos);
    (Max(Abs(c1.x), Abs(c1.y)), Max(Abs(c2.x), Abs(c2.y)))
  }

  /** The two corners are opposite, so the box `buildAABB` builds is always square. */
  lemma BoxIsSquare(halfWidth: real, halfHeight: real, sin: real, cos: real)
    ensures BoxExtents(halfWidth, halfHeight, sin, cos).0 == BoxExtents(halfWidth, halfHeight, sin, cos).1
  {
  }

  /**
   * A 4-by-1 mesh rotated by the angle whose cosine is 0.8 and sine 0.6:
   * its corner (2, -0.5) lands at x = 1.9, outside the box [-1.6, 1.6]
   * that `buildAABB` builds.
   */
  lemma BoxMissesRotatedCorner()
    ensures BoxExtents(2.0, 0.5, 0.6, 0.8) == (1.6, 1.6)
    ensures Rotate(Vec(2.0, -0.5), 0.6, 0.8).x == 1.9
  {
  }

  /** The intended half extents: those of the rotated rectangle `halfWidth x halfHeight`. */
  function EnclosingExtents(halfWidth: real, halfHeight: real, sin: real, cos: real): (e: (real, real))
    ensures halfWidth >= 0.0 && halfHeight >= 0.0 ==> e.0 >= 0.0 && e.1 >= 0.0
  {
    (halfWidth * Abs(cos) + halfHeight * Abs(sin), halfWidth * Abs(sin) + halfHeight * Abs(cos))
  }

  /** For a non-negative h and a value t, `-h |t| <= h t <= h |t|`. */
  lemma ScaledBetween(h: real, t: real)
    requires h >= 0.0
    ensures -(h * Abs(t)) <= h * t <= h * Abs(t)
  {
    if t >= 0.0 {
      assert Abs(t) == t;
      assert h * t >= 0.0;
    } else {
      assert Abs(t) == -t;
      assert h * -t >= 0.0;
      assert h * Abs(t) == -(h * t);
    }
  }

  lemma CornerTerm(c: real, h: real, t: real)
    requires h >= 0.0 && (c == h || c == -h)
    ensures -(h * Abs(t)) <= c * t <= h * Abs(t)
  {
    ScaledBetween(h, t);
    if c == -h {
      assert c * t == -(h * t);
    }
  }

  /** The rotated x coordinate of a corner lies within `hw |cos| + hh |sin|`. */
  lemma RotatedCornerX(halfWidth: real, halfHeight: real, sin: real, cos: real, corner: Vec)
    requires halfWidth >= 0.0 && halfHeight >= 0.0
    requires (corner.x == halfWidth || corner.x == -halfWidth) && (corner.y == halfHeight || corner.y == -halfHeight)
    ensures var px := Rotate(corner, sin, cos).x;
            -(halfWidth * Abs(cos) + halfHeight * Abs(sin)) <= px <= halfWidth * Abs(cos) + halfHeight * Abs(sin)
  {
    CornerTerm(corner.x, halfWidth, cos);
    CornerTerm(corner.y, halfHeight, sin);
  }

  /** The rotated y coordinate of a corner lies within `hw |sin| + hh |cos|`. */
  lemma RotatedCornerY(halfWidth: real, halfHeight: real, sin: real, cos: real, corner: Vec)
    requires halfWidth >= 0.0 && halfHeight >= 0.0
    requires (corner.x == halfWidth || corner.x == -halfWidth) && (corner.y == halfHeight || corner.y == -halfHeight)
    ensures var py := Rotate(corner, sin, cos).y;
            -(halfWidth * Abs(sin) + halfHeight * Abs(cos)) <= py <= halfWidth * Abs(sin) + halfHeight * Abs(cos)
  {
    CornerTerm(corner.x, halfWidth, sin);
    CornerTerm(corner.y, halfHeight, cos);
  }

  /** Every rotated corner of the rectangle lies inside the corrected box. */
  lemma EnclosingExtentsEnclose(halfWidth: real, halfHeight: real, sin: real, cos: real, corner: Vec)
    requires halfWidth >= 0.0 && halfHeight >= 0.0
    requires (corner.x == halfWidth || corner.x == -halfWidth) && (corner.y == halfHeight || corner.y == -halfHeight)
    ensures var p := Rotate(corner, sin, cos);
            var e := EnclosingExtents(halfWidth, halfHeight, sin, cos);
            -e.0 <= p.x <= e.0 && -e.1 <= p.y <= e.1
  {
    var e := EnclosingExtents(halfWidth, halfHeight, sin, cos);
    assert e.0 == halfWidth * Abs(cos) + halfHeight * Abs(sin) && e.1 == halfWidth * Abs(sin) + halfHeight * Abs(cos);
    RotatedCornerX(halfWidth, halfHeight, sin, cos, corner);
    RotatedCornerY(halfWidth, halfHeight, sin, cos, corner);
  }

  /** The sign `Math.sign` would give, with 0 counted as positive. */
  function Sign(r: real): (s: real)
    ensures s * r == Abs(r) && (s == 1.0 || s == -1.0)
  {
    if r >= 0.0 then 1.0 else -1.0
  }

  /** `Sign(t) h t == h |t|`. */
  lemma SignScaled(h: real, t: real)
    ensures Sign(t) * h * t == h * Abs(t)
  {
    assert Sign(t) * h * t == h * (Sign(t) * t);
  }

  /**
   * The corrected box is the smallest: the corner `(±halfWidth, ∓halfHeight)`
   * chosen by the signs of cos and sin reaches its x edge.
   */
  lemma EnclosingExtentsTightX(halfWidth: real, halfHeight: real, sin: real, cos: real)
    ensures Rotate(Vec(Sign(cos) * halfWidth, -Sign(sin) * halfHeight), sin, cos).x
            == EnclosingExtents(halfWidth, halfHeight, sin, cos).0
  {
    var p := Rotate(Vec(Sign(cos) * halfWidth, -Sign(sin) * halfHeight), sin, cos);
    assert p.x == Sign(cos) * halfWidth * cos - -Sign(sin) * halfHeight * sin;
    SignScaled(halfWidth, cos);
    SignScaled(halfHeight, sin);
    assert -Sign(sin) * halfHeight * sin == -(Sign(sin) * halfHeight * sin);
  }

  /** Likewise the corner `(±halfWidth, ±halfHeight)` reaches the y edge. */
  lemma EnclosingExtentsTightY(halfWidth: real, halfHeight: real, sin: real, cos: real)
    ensures Rotate(Vec(Sign(sin) * halfWidth, Sign(cos) * halfHeight), sin, cos).y
            == EnclosingExtents(halfWidth, halfHeight, sin, cos).1
  {
    var p := Rotate(Vec(Sign(sin) * halfWidth, Sign(cos) * halfHeight), sin, cos);
    assert p.y == Sign(sin) * halfWidth * sin + Sign(cos) * halfHeight * cos;
    SignScaled(halfWidth, sin);
    SignScaled(halfHeight, cos);
  }

  class PhysicsState {
    var position: Vec
    var momentum: Vec
    var angle: real
    var angularMomentum: real
    var velocity: Vec
    var angularVelocity: real
    var spin: real
    var size: real
    var mass: real
    var inverseMass: real
    var inertia: real
    var inverseInertia: real
    var time: real
    var elasticity: real
    var vertices: seq<Vec>
    var halfWidth: real
    var halfHeight: real
    var aabbMin: Vec
    var aabbMax: Vec

    /** The half extents are those `setMesh` folded from the current mesh. */
    ghost predicate Valid()
      reads this
    {
      && halfWidth == HalfExtent(Xs(vertices))
      && halfHeight == HalfExtent(Ys(vertices))
    }

    /**
     * The constructor's values of every field besides the kinematics, the
     * angle and the mesh: `clone` leaves these at their defaults.
     */
    ghost predicate DefaultDynamics()
      reads this`angularMomentum, this`angularVelocity, this`spin, this`size, this`mass, this`inverseMass
      reads this`inertia, this`inverseInertia, this`time, this`elasticity
    {
      && angularMomentum == 0.0 && angularVelocity == 0.0 && spin == 0.0
      && size == 1.0 && mass == 1.0 && inverseMass == 1.0 && inertia == 1.0 && inverseInertia == 1.0
      && time == 0.0 && elasticity == 0.5
    }

    constructor ()
      ensures Valid() && DefaultDynamics()
      ensures position == Zero && momentum == Zero && velocity == Zero
      ensures angle == 0.0 && angularMomentum == 0.0 && angularVelocity == 0.0 && spin == 0.0
      ensures size == 1.0 && mass == 1.0 && inverseMass == 1.0 && inertia == 1.0 && inverseInertia == 1.0
      ensures time == 0.0 && elasticity == 0.5
      ensures vertices == DefaultMesh && halfWidth == 0.5 && halfHeight == 0.5
      ensures aabbMin == Zero && aabbMax == Zero
    {
      position := Zero;
      momentum := Zero;
      angle := 0.0;
      angularMomentum := 0.0;
      velocity := Zero;
      angularVelocity := 0.0;
      spin := 0.0;
      size := 1.0;
      mass := 1.0;
      inverseMass := 1.0;
      inertia := 1.0;
      inverseInertia := 1.0;
      time := 0.0;
      elasticity := 0.5;
      new;
      SetMesh(DefaultMesh);
      DefaultMeshExtent();
    }

    /**
     * Replaces the mesh and folds its vertices into min/max per axis; the half
     * extents become half the spread, and the local box is reset to (0,0).
     */
    method SetMesh(mesh: seq<Vec>)
      modifies this`vertices, this`halfWidth, this`halfHeight, this`aabbMin, this`aabbMax
      ensures Valid() && vertices == mesh
      ensures halfWidth == HalfExtent(Xs(mesh)) && halfHeight == HalfExtent(Ys(mesh))
      ensures aabbMin == Zero && aabbMax == Zero
    {
      var minX, maxX, minY, maxY := Sentinel, -Sentinel, Sentinel, -Sentinel;
      vertices := mesh;
      var xs, ys := Xs(mesh), Ys(mesh);
      var i := 0;
      while i < |vertices|
        invariant vertices == mesh && 0 <= i <= |mesh|
        invariant Least(xs[i..], minX) == Least(xs, Sentinel)
        invariant Greatest(xs[i..], maxX) == Greatest(xs, -Sentinel)
        invariant Least(ys[i..], minY) == Least(ys, Sentinel)
        invariant Greatest(ys[i..], maxY) == Greatest(ys, -Sentinel)
      {
        var vertex := vertices[i];
        LeastStep(xs, i, minX);
        GreatestStep(xs, i, maxX);
        LeastStep(ys, i, minY);
        GreatestStep(ys, i, maxY);
        if vertex.x < minX {
          minX := vertex.x;
        }
        if vertex.x > maxX {
          maxX := vertex.x;
        }
        if vertex.y < minY {
          minY := vertex.y;
        }
        if vertex.y > maxY {
          maxY := vertex.y;
        }
        i := i + 1;
      }
      assert xs[i..] == [] && ys[i..] == [];
      halfHeight := (maxY - minY) / 2.0;
      halfWidth := (maxX - minX) / 2.0;
      aabbMin := Zero;
      aabbMax := Zero;
    }

    /** The per-vertex copy loop of `clone` (`clonedMesh.push(vertex.clone())`). */
    static method CopyVertices(source: seq<Vec>) returns (copy: seq<Vec>)
      ensures copy == source
    {
      copy := [];
      var i := 0;
      while i < |source|
        invariant 0 <= i <= |source| && copy == source[..i]
      {
        copy := copy + [source[i]];
        i := i + 1;
      }
    }

    /** The four assignments `clone` makes to the fresh state before its mesh is set. */
    method CopyKinematics(angle: real, momentum: Vec, position: Vec, velocity: Vec)
      modifies this`angle, this`momentum, this`position, this`velocity
      ensures this.angle == angle && this.momentum == momentum && this.position == position && this.velocity == velocity
    {
      this.angle := angle;
      this.momentum := momentum;
      this.position := position;
      this.velocity := velocity;
    }

    /**
     * `clone` as written: a fresh default state with angle, momentum,
     * position and velocity copied. The copy loop walks `this.mesh`, a
     * property that is never assigned (the mesh lives in `vertices`), so it
     * walks nothing and the clone gets an empty mesh.
     */
    method Clone() returns (c: PhysicsState)
      ensures fresh(c)
      ensures c.angle == angle && c.momentum == momentum && c.position == position && c.velocity == velocity
      ensures c.vertices == [] && c.halfWidth == -Sentinel && c.halfHeight == -Sentinel
      ensures c.DefaultDynamics()
      ensures c.aabbMin == Zero && c.aabbMax == Zero
    {
      c := new PhysicsState();
      c.CopyKinematics(angle, momentum, position, velocity);
      var unassignedMesh: seq<Vec> := [];
      var clonedMesh := CopyVertices(unassignedMesh);
      assert clonedMesh == [];
      EmptyMeshExtent();
      c.SetMesh(clonedMesh);
    }

    /** `clone` as intended: the copy loop walks the mesh itself. */
    method CloneWithMesh() returns (c: PhysicsState)
      requires Valid()
      ensures fresh(c) && c.Valid()
      ensures c.angle == angle && c.momentum == momentum && c.position == position && c.velocity == velocity
      ensures c.vertices == vertices && c.halfWidth == halfWidth && c.halfHeight == halfHeight
      ensures c.DefaultDynamics()
      ensures c.aabbMin == Zero && c.aabbMax == Zero
    {
      c := new PhysicsState();
      c.CopyKinematics(angle, momentum, position, velocity);
      var clonedMesh := CopyVertices(vertices);
      c.SetMesh(clonedMesh);
    }

    method SetMass(newMass: real)
      requires newMass != 0.0
      modifies this`mass, this`inverseMass
      ensures mass == newMass && inverseMass == 1.0 / newMass
    {
      mass := newMass;
      inverseMass := 1.0 / newMass;
    }

    /**
     * `buildAABB` with `sin`/`cos` the sine and cosine of `angle`: the local
     * box is centred, `aabbMin == -aabbMax`, with non-negative extents.
     */
    method BuildAABB(sin: real, cos: real)
      modifies this`aabbMin, this`aabbMax
      ensures aabbMin == Vec(-aabbMax.x, -aabbMax.y)
      ensures aabbMax.x >= 0.0 && aabbMax.y >= 0.0
      ensures (aabbMax.x, aabbMax.y) == BoxExtents(halfWidth, halfHeight, sin, cos)
    {
      // The source names the rotated first corner's coordinates xformed1x and
      // xformed2x, and the rotated opposite corner's xformed1y and xformed2y.
      var xformed1 := Rotate(Vec(-halfWidth, -halfHeight), sin, cos);
      var xformed2 := Rotate(Vec(halfWidth, halfHeight), sin, cos);
      var ex := Max(Abs(xformed1.x), Abs(xformed1.y));
      var ey := Max(Abs(xformed2.x), Abs(xformed2.y));
      aabbMin := Vec(-ex, -ey);
      aabbMax := Vec(ex, ey);
    }

    /**
     * `buildAABB` as intended: the box reaches exactly as far as the
     * rotated mesh rectangle does along each axis.
     */
    method BuildEnclosingAABB(sin: real, cos: real)
      modifies this`aabbMin, this`aabbMax
      ensures aabbMin == Vec(-aabbMax.x, -aabbMax.y)
      ensures (aabbMax.x, aabbMax.y) == EnclosingExtents(halfWidth, halfHeight, sin, cos)
      ensures halfWidth >= 0.0 && halfHeight >= 0.0 ==> aabbMax.x >= 0.0 && aabbMax.y >= 0.0
    {
      var e := EnclosingExtents(halfWidth, halfHeight, sin, cos);
      aabbMin := Vec(-e.0, -e.1);
      aabbMax := Vec(e.0, e.1);
    }

    /**
     * Derives velocity from momentum and angular velocity from angular
     * momentum, then rebuilds the box, with the corrected `buildAABB`.
     */
    method Recalculate(sin: real, cos: real)
      modifies this`velocity, this`angularVelocity, this`aabbMin, this`aabbMax
      ensures velocity == Scale(momentum, inverseMass)
      ensures angularVelocity == angularMomentum * inverseInertia
      ensures aabbMin == Vec(-aabbMax.x, -aabbMax.y)
      ensures (aabbMax.x, aabbMax.y) == EnclosingExtents(halfWidth, halfHeight, sin, cos)
      ensures halfWidth >= 0.0 && halfHeight >= 0.0 ==> aabbMax.x >= 0.0 && aabbMax.y >= 0.0
    {
      velocity := Vec(momentum.x * inverseMass, momentum.y * inverseMass);
      angularVelocity := angularMomentum * inverseInertia;
      BuildEnclosingAABB(sin, cos);
    }
  }

  /** The default state's clone has half extents -99999 where the original has 0.5. */
  lemma CloneDropsMesh()
    ensures HalfExtent(Xs(DefaultMesh)) == 0.5 && HalfExtent(Xs([])) == -Sentinel
  {
    DefaultMeshExtent();
  }
}
