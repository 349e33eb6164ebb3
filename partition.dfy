/** Axis-aligned boxes given by a centre and a half-dimension, with the closed
    containment and overlap tests that both quadtrees and the grid rely on.
    Coordinates are exact reals: float rounding is not modelled. */
module Partition {

  datatype Vec2 = Vec2(x: real, y: real)

  datatype Vec3 = Vec3(x: real, y: real, z: real)

  datatype AABB = AABB(center: Vec2, half: Vec2)

  datatype BoundingBox3 = BoundingBox3(center: Vec3, half: Vec3)

  function Dist(a: real, b: real): (d: real)
    ensures d >= 0.0 && (d == a - b || d == b - a)
  {
    if a < b then b - a else a - b
  }

  /** AABB::contains: the point is within the half-dimension of the centre on
      both axes, boundary included. */
  predicate Contains(b: AABB, p: Vec2)
  {
    Dist(p.x, b.center.x) <= b.half.x && Dist(p.y, b.center.y) <= b.half.y
  }

  /** AABB::intersects: the centres are no further apart than the sum of the
      half-dimensions on both axes, touching included. */
  predicate Intersects(a: AABB, b: AABB)
  {
    Dist(b.center.x, a.center.x) <= a.half.x + b.half.x &&
    Dist(b.center.y, a.center.y) <= a.half.y + b.half.y
  }

  /** Box-in-box containment. The line quadtree calls `contains` with a box,
      but only point containment is declared; this closed test (per axis,
      centre distance plus inner half-dimension at most the outer
      half-dimension) is the assumption the model makes for that call. */
  predicate ContainsBox(outer: AABB, inner: AABB)
  {
    Dist(inner.center.x, outer.center.x) + inner.half.x <= outer.half.x &&
    Dist(inner.center.y, outer.center.y) + inner.half.y <= outer.half.y
  }

  predicate Contains3(b: BoundingBox3, p: Vec3)
  {
    Dist(p.x, b.center.x) <= b.half.x &&
    Dist(p.y, b.center.y) <= b.half.y &&
    Dist(p.z, b.center.z) <= b.half.z
  }

  predicate Intersects3(a: BoundingBox3, b: BoundingBox3)
  {
    Dist(b.center.x, a.center.x) <= a.half.x + b.half.x &&
    Dist(b.center.y, a.center.y) <= a.half.y + b.half.y &&
    Dist(b.center.z, a.center.z) <= a.half.z + b.half.z
  }

  // The four quadrants a node is split into: half the half-dimension,
  // centred a quarter of the node's extent away from its centre.

  function NW(b: AABB): AABB
  {
    AABB(Vec2(b.center.x - b.half.x * 0.5, b.center.y - b.half.y * 0.5), Vec2(b.half.x * 0.5, b.half.y * 0.5))
  }

  function NE(b: AABB): AABB
  {
    AABB(Vec2(b.center.x + b.half.x * 0.5, b.center.y - b.half.y * 0.5), Vec2(b.half.x * 0.5, b.half.y * 0.5))
  }

  function SW(b: AABB): AABB
  {
    AABB(Vec2(b.center.x - b.half.x * 0.5, b.center.y + b.half.y * 0.5), Vec2(b.half.x * 0.5, b.half.y * 0.5))
  }

  function SE(b: AABB): AABB
  {
    AABB(Vec2(b.center.x + b.half.x * 0.5, b.center.y + b.half.y * 0.5), Vec2(b.half.x * 0.5, b.half.y * 0.5))
  }

  /** A point exactly on the boundary is inside: the test is closed. */
  lemma ContainsIsClosed(b: AABB, p: Vec2)
    requires Dist(p.x, b.center.x) == b.half.x && Dist(p.y, b.center.y) == b.half.y
    ensures Contains(b, p)
  {
  }

  /** A box with non-negative half-dimensions contains its own centre and
      intersects itself. */
  lemma ContainsOwnCentre(b: AABB)
    requires b.half.x >= 0.0 && b.half.y >= 0.0
    ensures Contains(b, b.center) && Intersects(b, b)
  {
  }

  lemma IntersectsSymmetric(a: AABB, b: AABB)
    ensures Intersects(a, b) <==> Intersects(b, a)
  {
  }

  /** Two boxes sharing a point overlap. */
  lemma CommonPointIntersects(a: AABB, b: AABB, p: Vec2)
    requires Contains(a, p) && Contains(b, p)
    ensures Intersects(a, b)
  {
  }

  /** The contrapositive used to prune a query: nothing inside a box that
      misses the area can lie in the area. */
  lemma DisjointExcludes(node: AABB, area: AABB, p: Vec2)
    requires !Intersects(node, area) && Contains(node, p)
    ensures !Contains(area, p)
  {
    if Contains(area, p) {
      CommonPointIntersects(node, area, p);
    }
  }

  /** A box inside a node that overlaps an area makes the node overlap it. */
  lemma ContainedBoxIntersects(outer: AABB, inner: AABB, area: AABB)
    requires ContainsBox(outer, inner) && Intersects(area, inner)
    ensures Intersects(outer, area)
  {
  }

  /** A box inside a node that misses an area misses it too. */
  lemma KidMissesArea(outer: AABB, inner: AABB, area: AABB)
    requires ContainsBox(outer, inner) && !Intersects(outer, area)
    ensures !Intersects(inner, area)
  {
    if Intersects(inner, area) {
      IntersectsSymmetric(inner, area);
      ContainedBoxIntersects(outer, inner, area);
    }
  }

  /** With exact arithmetic the four closed quadrants cover their parent. */
  lemma QuadrantsCover(b: AABB, p: Vec2)
    requires Contains(b, p)
    ensures Contains(NW(b), p) || Contains(NE(b), p) || Contains(SW(b), p) || Contains(SE(b), p)
  {
  }

  /** Each quadrant lies inside its parent. */
  lemma QuadrantsInside(b: AABB)
    requires b.half.x >= 0.0 && b.half.y >= 0.0
    ensures ContainsBox(b, NW(b)) && ContainsBox(b, NE(b)) && ContainsBox(b, SW(b)) && ContainsBox(b, SE(b))
  {
  }

  /** Containment in a box inside a parent implies containment in the parent. */
  lemma ContainsBoxTransfers(outer: AABB, inner: AABB, p: Vec2)
    requires ContainsBox(outer, inner) && Contains(inner, p)
    ensures Contains(outer, p)
  {
  }

  /** Box-in-box containment is transitive: a box inside a child is inside
      the child's parent. */
  lemma ContainsBoxTransitive(outer: AABB, mid: AABB, inner: AABB)
    requires ContainsBox(outer, mid) && ContainsBox(mid, inner)
    ensures ContainsBox(outer, inner)
  {
  }

  /** BoundingBox3 runs the same closed tests with a third axis added. */
  lemma Box3ExtendsBox2(b: BoundingBox3, c: BoundingBox3, p: Vec3)
    ensures Contains3(b, p) <==>
      Contains(AABB(Vec2(b.center.x, b.center.y), Vec2(b.half.x, b.half.y)), Vec2(p.x, p.y)) &&
      Dist(p.z, b.center.z) <= b.half.z
    ensures Intersects3(b, c) <==>
      Intersects(AABB(Vec2(b.center.x, b.center.y), Vec2(b.half.x, b.half.y)),
                 AABB(Vec2(c.center.x, c.center.y), Vec2(c.half.x, c.half.y))) &&
      Dist(c.center.z, b.center.z) <= b.half.z + c.half.z
  {
  }

  lemma Intersects3Symmetric(a: BoundingBox3, b: BoundingBox3)
    ensures Intersects3(a, b) <==> Intersects3(b, a)
  {
  }

  lemma CommonPointIntersects3(a: BoundingBox3, b: BoundingBox3, p: Vec3)
    requires Contains3(a, p) && Contains3(b, p)
    ensures Intersects3(a, b)
  {
  }
}
