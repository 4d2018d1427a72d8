/** Plane vectors, the movable and static boxes of the game, and the AABB overlap test. */
module Geometry {

  /** A 2D point or displacement (Bevy's Vec2), with exact real coordinates. */
  datatype Vec = Vec(x: real, y: real)

  datatype Axis = X | Y

  /** Player, enemy or bullet: Transform translation, Velocity and Size. */
  datatype Mover = Mover(pos: Vec, vel: Vec, size: Vec)

  /** A wall tile: Transform translation and Size. */
  datatype Box = Box(pos: Vec, size: Vec)

  function Add(a: Vec, b: Vec): Vec { Vec(a.x + b.x, a.y + b.y) }

  function Scale(v: Vec, k: real): Vec { Vec(v.x * k, v.y * k) }

  function LengthSquared(v: Vec): real { v.x * v.x + v.y * v.y }

  /** Half-extents of a box of the given size (`size * 0.5`). */
  function Half(size: Vec): Vec { Scale(size, 0.5) }

  /** Moves `p` by `d` along one axis only. */
  function Shift(p: Vec, axis: Axis, d: real): Vec {
    match axis
    case X => Vec(p.x + d, p.y)
    case Y => Vec(p.x, p.y + d)
  }

  function Abs(r: real): real { if r < 0.0 then -r else r }

  /** aabb_overlap: centre distance on each axis at most the sum of half-extents (closed test). */
  predicate AabbOverlap(aPos: Vec, aHalf: Vec, bPos: Vec, bHalf: Vec) {
    && Abs(aPos.x - bPos.x) <= aHalf.x + bHalf.x
    && Abs(aPos.y - bPos.y) <= aHalf.y + bHalf.y
  }

  /** `p` lies in the closed rectangle with centre `c` and half-extents `h`. */
  predicate InBox(p: Vec, c: Vec, h: Vec) {
    && c.x - h.x <= p.x <= c.x + h.x
    && c.y - h.y <= p.y <= c.y + h.y
  }

  /** The test does not depend on which box comes first. */
  lemma OverlapSymmetric(aPos: Vec, aHalf: Vec, bPos: Vec, bHalf: Vec)
    ensures AabbOverlap(aPos, aHalf, bPos, bHalf) == AabbOverlap(bPos, bHalf, aPos, aHalf)
  {
  }

  /** Boxes that exactly touch on both axes count as overlapping. */
  lemma TouchingOverlaps(aPos: Vec, aHalf: Vec, bPos: Vec, bHalf: Vec)
    requires Abs(aPos.x - bPos.x) == aHalf.x + bHalf.x
    requires Abs(aPos.y - bPos.y) == aHalf.y + bHalf.y
    ensures AabbOverlap(aPos, aHalf, bPos, bHalf)
  {
  }

  /** For boxes with non-negative extents, the test holds exactly when the two closed
      rectangles share a point. */
  lemma OverlapIffCommonPoint(aPos: Vec, aHalf: Vec, bPos: Vec, bHalf: Vec)
    requires aHalf.x >= 0.0 && aHalf.y >= 0.0 && bHalf.x >= 0.0 && bHalf.y >= 0.0
    ensures AabbOverlap(aPos, aHalf, bPos, bHalf) <==>
            exists p :: InBox(p, aPos, aHalf) && InBox(p, bPos, bHalf)
  {
    if AabbOverlap(aPos, aHalf, bPos, bHalf) {
      var px := if aPos.x <= bPos.x then Min(aPos.x + aHalf.x, bPos.x) else Max(aPos.x - aHalf.x, bPos.x);
      var py := if aPos.y <= bPos.y then Min(aPos.y + aHalf.y, bPos.y) else Max(aPos.y - aHalf.y, bPos.y);
      assert InBox(Vec(px, py), aPos, aHalf) && InBox(Vec(px, py), bPos, bHalf);
    }
  }

  function Min(a: real, b: real): real { if a <= b then a else b }

  function Max(a: real, b: real): real { if a >= b then a else b }
}
