/**
 * The 2D vector values every component works with. The vector library's
 * instances are treated as values: an operation returns a new vector, and a
 * component that the source assigns in place is modelled by reassigning the
 * whole field that holds the vector.
 */
module Geometry {
  datatype Vec = Vec(x: real, y: real)

  const Zero: Vec := Vec(0.0, 0.0)

  function Add(a: Vec, b: Vec): Vec { Vec(a.x + b.x, a.y + b.y) }

  function Sub(a: Vec, b: Vec): Vec { Vec(a.x - b.x, a.y - b.y) }

  function Scale(a: Vec, k: real): Vec { Vec(a.x * k, a.y * k) }

  function Dot(a: Vec, b: Vec): real { a.x * b.x + a.y * b.y }

  function Abs(r: real): real { if r < 0.0 then -r else r }

  function Max(a: real, b: real): real { if a < b then b else a }

  function Min(a: real, b: real): real { if a < b then a else b }

  /** An axis-aligned bounding box, as `getAABB` returns it: `{min, max}`. */
  datatype AABB = AABB(min: Vec, max: Vec)

  predicate WellFormed(b: AABB) {
    b.min.x <= b.max.x && b.min.y <= b.max.y
  }
}
