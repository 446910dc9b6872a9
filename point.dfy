/**
 * Points in 3D space: distances, midpoints, translation by a vector and the
 * vector between two points.
 */
module Points {
  import opened Float
  import opened Vectors

  datatype Point3D = Point3D(x: real, y: real, z: real)

  function Origin(): Point3D { Point3D(0.0, 0.0, 0.0) }

  function DistanceSquaredTo(p: Point3D, q: Point3D): (r: real)
    ensures r >= 0.0
  {
    var dx := p.x - q.x;
    var dy := p.y - q.y;
    var dz := p.z - q.z;
    dx * dx + dy * dy + dz * dz
  }

  /** The Euclidean distance, through the platform square root `sqrt`. */
  function DistanceTo(p: Point3D, q: Point3D, sqrt: real -> real): real
  {
    sqrt(DistanceSquaredTo(p, q))
  }

  /** The point as far from `p` as from `q`, in the same direction. */
  function Midpoint(p: Point3D, q: Point3D): (m: Point3D)
    ensures Minus(m, p) == Minus(q, m)
  {
    Point3D((p.x + q.x) * 0.5, (p.y + q.y) * 0.5, (p.z + q.z) * 0.5)
  }

  /** `translate`, and equally `Add<Vector3D>`: move `p` by `v`. */
  function Translate(p: Point3D, v: Vector3D): Point3D
  {
    Point3D(p.x + v.x, p.y + v.y, p.z + v.z)
  }

  /** `Sub<Point3D>`: the vector from `q` to `p`. */
  function Minus(p: Point3D, q: Point3D): Vector3D
  {
    Vector3D(p.x - q.x, p.y - q.y, p.z - q.z)
  }

  /** `Vector3D::from_points`: the vector from `from` to `to`. */
  function FromPoints(from: Point3D, to: Point3D): (v: Vector3D)
    ensures Translate(from, v) == to
  {
    Vector3D(to.x - from.x, to.y - from.y, to.z - from.z)
  }

  /** `PartialEq`: every coordinate within `EPSILON`. */
  predicate ApproxEqual(p: Point3D, q: Point3D)
  {
    ApproxEq(p.x, q.x) && ApproxEq(p.y, q.y) && ApproxEq(p.z, q.z)
  }

  // ---------------------------------------------------------------------
  // Properties

  /** The squared distance is the squared magnitude of the difference vector. */
  lemma DistanceSquaredIsMagnitude(p: Point3D, q: Point3D)
    ensures DistanceSquaredTo(p, q) == MagnitudeSquared(Minus(p, q))
    ensures DistanceSquaredTo(p, q) == DistanceSquaredTo(q, p)
  {
    assert (p.x - q.x) * (p.x - q.x) == (q.x - p.x) * (q.x - p.x);
    assert (p.y - q.y) * (p.y - q.y) == (q.y - p.y) * (q.y - p.y);
    assert (p.z - q.z) * (p.z - q.z) == (q.z - p.z) * (q.z - p.z);
  }

  /** Two points are at squared distance zero exactly when they are the same point. */
  lemma DistanceSquaredZero(p: Point3D, q: Point3D)
    ensures DistanceSquaredTo(p, q) == 0.0 <==> p == q
  {
    DistanceSquaredIsMagnitude(p, q);
    MagnitudeSquaredZero(Minus(p, q));
    MinusZero(p, q);
  }

  lemma MinusZero(p: Point3D, q: Point3D)
    ensures Minus(p, q) == Zero() <==> p == q
  {
    if Minus(p, q) == Zero() {
      assert p.x == q.x && p.y == q.y && p.z == q.z;
    }
  }

  lemma DistanceToSelf(p: Point3D, sqrt: real -> real)
    requires IsSqrt(sqrt)
    ensures DistanceTo(p, p, sqrt) == 0.0
  {
    DistanceSquaredZero(p, p);
    SqrtOfSquare(sqrt, 0.0);
  }

  lemma DistanceExample(sqrt: real -> real)
    requires IsSqrt(sqrt)
    ensures DistanceTo(Origin(), Point3D(3.0, 4.0, 0.0), sqrt) == 5.0
  {
    assert DistanceSquaredTo(Origin(), Point3D(3.0, 4.0, 0.0)) == 5.0 * 5.0;
    SqrtOfSquare(sqrt, 5.0);
  }

  /** The midpoint is halfway: a quarter of the squared distance from each end. */
  lemma MidpointHalfway(p: Point3D, q: Point3D)
    ensures DistanceSquaredTo(p, Midpoint(p, q)) == DistanceSquaredTo(p, q) / 4.0
    ensures DistanceSquaredTo(Midpoint(p, q), q) == DistanceSquaredTo(p, q) / 4.0
    ensures Midpoint(p, q) == Midpoint(q, p)
    ensures Midpoint(p, p) == p
  {
    var m := Midpoint(p, q);
    assert (p.x - m.x) * (p.x - m.x) == (p.x - q.x) * (p.x - q.x) / 4.0;
    assert (p.y - m.y) * (p.y - m.y) == (p.y - q.y) * (p.y - q.y) / 4.0;
    assert (p.z - m.z) * (p.z - m.z) == (p.z - q.z) * (p.z - q.z) / 4.0;
    assert (m.x - q.x) * (m.x - q.x) == (p.x - q.x) * (p.x - q.x) / 4.0;
    assert (m.y - q.y) * (m.y - q.y) == (p.y - q.y) * (p.y - q.y) / 4.0;
    assert (m.z - q.z) * (m.z - q.z) == (p.z - q.z) * (p.z - q.z) / 4.0;
  }

  lemma MidpointExample()
    ensures Midpoint(Origin(), Point3D(2.0, 4.0, 6.0)) == Point3D(1.0, 2.0, 3.0)
  {
  }

  /** Translating by the difference of two points lands on the other point, and back. */
  lemma TranslateMinusRoundTrip(p: Point3D, q: Point3D, v: Vector3D)
    ensures Translate(q, Minus(p, q)) == p
    ensures Minus(Translate(p, v), p) == v
    ensures FromPoints(q, p) == Minus(p, q)
    ensures Translate(Translate(p, v), Neg(v)) == p
  {
  }

  /** Translation preserves distances. */
  lemma TranslatePreservesDistance(p: Point3D, q: Point3D, v: Vector3D)
    ensures DistanceSquaredTo(Translate(p, v), Translate(q, v)) == DistanceSquaredTo(p, q)
  {
    assert Minus(Translate(p, v), Translate(q, v)) == Minus(p, q);
    DistanceSquaredIsMagnitude(p, q);
    DistanceSquaredIsMagnitude(Translate(p, v), Translate(q, v));
  }

  lemma ApproxEqualReflexiveSymmetric(p: Point3D, q: Point3D)
    ensures ApproxEqual(p, p)
    ensures ApproxEqual(p, q) <==> ApproxEqual(q, p)
  {
  }
}
