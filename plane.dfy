/**
 * Planes `normal · p + d = 0` with a normalised normal: construction from a
 * normal, from a point and a normal, and from three points; signed distance,
 * closest point, containment, flipping and the parallel test.
 */
module Planes {
  import opened Float
  import opened Errors
  import opened Vectors
  import opened Points

  datatype Plane = Plane(normal: Vector3D, d: real)

  /** Normalise `normal`; fails exactly when that does. */
  function New(normal: Vector3D, d: real, sqrt: real -> real): (r: Result<Plane>)
    ensures r.Err? <==> Normalize(normal, sqrt).Err?
    ensures r.Err? ==> r.error.DivisionByZero?
    ensures r.Ok? ==> r.value == Plane(Normalize(normal, sqrt).value, d)
  {
    var n := Normalize(normal, sqrt);
    if n.Err? then Err(n.error) else Ok(Plane(n.value, d))
  }

  /** The plane through `point` with normal direction `normal`: `d = -(n · point)`. */
  function FromPointNormal(point: Point3D, normal: Vector3D, sqrt: real -> real): (r: Result<Plane>)
    ensures r.Err? <==> Normalize(normal, sqrt).Err?
    ensures r.Err? ==> r.error.DivisionByZero?
    ensures r.Ok? ==> r.value.normal == Normalize(normal, sqrt).value
  {
    var n := Normalize(normal, sqrt);
    if n.Err? then Err(n.error)
    else
      var u := n.value;
      Ok(Plane(u, -(u.x * point.x + u.y * point.y + u.z * point.z)))
  }

  /** The normal of the plane through three points, before normalisation. */
  function ThreePointNormal(p1: Point3D, p2: Point3D, p3: Point3D): Vector3D
  {
    Cross(FromPoints(p1, p2), FromPoints(p1, p3))
  }

  /**
   * The plane through three points; collinear points (a cross product whose
   * squared magnitude is within `EPSILON` of zero) are a degenerate case.
   */
  function FromThreePoints(p1: Point3D, p2: Point3D, p3: Point3D, sqrt: real -> real): (r: Result<Plane>)
    ensures ApproxZero(MagnitudeSquared(ThreePointNormal(p1, p2, p3))) ==> r.Err? && r.error.DegenerateCase?
    ensures !ApproxZero(MagnitudeSquared(ThreePointNormal(p1, p2, p3))) ==>
              r == FromPointNormal(p1, ThreePointNormal(p1, p2, p3), sqrt)
  {
    var normal := ThreePointNormal(p1, p2, p3);
    if ApproxZero(MagnitudeSquared(normal)) then
      Err(DegenerateCase("Points are collinear, cannot define a unique plane"))
    else
      FromPointNormal(p1, normal, sqrt)
  }

  /** The signed distance `n · p + d` (a true distance when the normal is a unit vector). */
  function DistanceToPoint(plane: Plane, p: Point3D): real
  {
    plane.normal.x * p.x + plane.normal.y * p.y + plane.normal.z * p.z + plane.d
  }

  /** Move `p` against the normal by its signed distance. */
  function ClosestPoint(plane: Plane, p: Point3D): Point3D
  {
    var dist := DistanceToPoint(plane, p);
    Translate(p, Scale(Scale(plane.normal, dist), -1.0))
  }

  predicate ContainsPoint(plane: Plane, p: Point3D)
  {
    ApproxZero(DistanceToPoint(plane, p))
  }

  function FlipNormal(plane: Plane): Plane
  {
    Plane(Neg(plane.normal), -plane.d)
  }

  predicate IsParallel(a: Plane, b: Plane)
  {
    Vectors.IsParallel(a.normal, b.normal)
  }

  /** `PartialEq`: normals approximately equal and offsets within `EPSILON`. */
  predicate ApproxEqual(a: Plane, b: Plane)
  {
    Vectors.ApproxEqual(a.normal, b.normal) && ApproxEq(a.d, b.d)
  }

  // ---------------------------------------------------------------------
  // Properties

  /** The signed distance is the dot product of the normal with the offset from any point of the plane. */
  lemma DistanceFromPointOnPlane(point: Point3D, normal: Vector3D, p: Point3D, sqrt: real -> real)
    requires FromPointNormal(point, normal, sqrt).Ok?
    ensures DistanceToPoint(FromPointNormal(point, normal, sqrt).value, p)
            == Dot(Normalize(normal, sqrt).value, FromPoints(point, p))
  {
  }

  /** The defining point lies on the plane, at signed distance exactly zero. */
  lemma FromPointNormalContainsPoint(point: Point3D, normal: Vector3D, sqrt: real -> real)
    requires FromPointNormal(point, normal, sqrt).Ok?
    ensures DistanceToPoint(FromPointNormal(point, normal, sqrt).value, point) == 0.0
    ensures ContainsPoint(FromPointNormal(point, normal, sqrt).value, point)
  {
    DistanceFromPointOnPlane(point, normal, point, sqrt);
  }

  /** Dividing a vector by `m` divides its dot products by `m`. */
  lemma DotOfQuotient(n: Vector3D, m: real, v: Vector3D)
    requires m != 0.0
    ensures Dot(Vector3D(n.x / m, n.y / m, n.z / m), v) == Dot(n, v) / m
  {
    assert (n.x / m) * v.x == (n.x * v.x) / m;
    assert (n.y / m) * v.y == (n.y * v.y) / m;
    assert (n.z / m) * v.z == (n.z * v.z) / m;
  }

  /** The plane through three non-collinear points contains all three, at signed distance exactly zero. */
  lemma FromThreePointsContainsPoints(p1: Point3D, p2: Point3D, p3: Point3D, sqrt: real -> real)
    requires FromThreePoints(p1, p2, p3, sqrt).Ok?
    ensures var plane := FromThreePoints(p1, p2, p3, sqrt).value;
            DistanceToPoint(plane, p1) == 0.0 && DistanceToPoint(plane, p2) == 0.0
            && DistanceToPoint(plane, p3) == 0.0
  {
    var normal := ThreePointNormal(p1, p2, p3);
    var m := Magnitude(normal, sqrt);
    var u := Normalize(normal, sqrt).value;
    assert u == Vector3D(normal.x / m, normal.y / m, normal.z / m);
    CrossOrthogonal(FromPoints(p1, p2), FromPoints(p1, p3));
    FromPointNormalContainsPoint(p1, normal, sqrt);
    DistanceFromPointOnPlane(p1, normal, p2, sqrt);
    DistanceFromPointOnPlane(p1, normal, p3, sqrt);
    DotOfQuotient(normal, m, FromPoints(p1, p2));
    DotOfQuotient(normal, m, FromPoints(p1, p3));
  }

  /**
   * When the square root is exact at the normal's squared magnitude, three
   * points give a plane exactly when they are not collinear.
   */
  lemma FromThreePointsSucceeds(p1: Point3D, p2: Point3D, p3: Point3D, sqrt: real -> real)
    requires SqrtAt(sqrt, MagnitudeSquared(ThreePointNormal(p1, p2, p3)))
    ensures FromThreePoints(p1, p2, p3, sqrt).Ok?
            <==> !ApproxZero(MagnitudeSquared(ThreePointNormal(p1, p2, p3)))
  {
    var normal := ThreePointNormal(p1, p2, p3);
    NormalizeFailsIffShort(normal, sqrt);
  }

  lemma CollinearPointsFail(sqrt: real -> real)
    ensures FromThreePoints(Origin(), Point3D(1.0, 0.0, 0.0), Point3D(2.0, 0.0, 0.0), sqrt).Err?
  {
    var v := Vector3D(1.0, 0.0, 0.0);
    assert FromPoints(Origin(), Point3D(1.0, 0.0, 0.0)) == v;
    assert FromPoints(Origin(), Point3D(2.0, 0.0, 0.0)) == Scale(v, 2.0);
    ParallelToMultiple(v, 2.0);
  }

  /** With a unit normal, the closest point lies on the plane and is offset from `p` along the normal. */
  lemma ClosestPointOnPlane(plane: Plane, p: Point3D)
    requires MagnitudeSquared(plane.normal) == 1.0
    ensures DistanceToPoint(plane, ClosestPoint(plane, p)) == 0.0
    ensures ContainsPoint(plane, ClosestPoint(plane, p))
    ensures Cross(Minus(p, ClosestPoint(plane, p)), plane.normal) == Zero()
  {
    var n := plane.normal;
    var dist := DistanceToPoint(plane, p);
    ClosestPointOffset(plane, p);
    ClosestPointDistance(n, plane.d, p, dist);
    ParallelToMultiple(n, dist);
    CrossAntisymmetric(n, Scale(n, dist));
  }

  /** The closest point is `p` moved back by `dist` along the normal. */
  lemma ClosestPointOffset(plane: Plane, p: Point3D)
    ensures Minus(p, ClosestPoint(plane, p)) == Scale(plane.normal, DistanceToPoint(plane, p))
    ensures ClosestPoint(plane, p) == Translate(p, Scale(plane.normal, -DistanceToPoint(plane, p)))
  {
  }

  lemma ClosestPointDistance(n: Vector3D, d: real, p: Point3D, dist: real)
    requires MagnitudeSquared(n) == 1.0
    requires dist == DistanceToPoint(Plane(n, d), p)
    ensures DistanceToPoint(Plane(n, d), Translate(p, Scale(n, -dist))) == 0.0
  {
    var q := Translate(p, Scale(n, -dist));
    calc {
      DistanceToPoint(Plane(n, d), q);
      == n.x * (p.x + n.x * -dist) + n.y * (p.y + n.y * -dist) + n.z * (p.z + n.z * -dist) + d;
      == dist - dist * (n.x * n.x + n.y * n.y + n.z * n.z);
      == dist - dist * MagnitudeSquared(n);
      == 0.0;
    }
  }

  /** With an exact square root, every constructed plane has a unit normal. */
  lemma FromPointNormalUnit(point: Point3D, normal: Vector3D, sqrt: real -> real)
    requires IsSqrt(sqrt) && FromPointNormal(point, normal, sqrt).Ok?
    ensures MagnitudeSquared(FromPointNormal(point, normal, sqrt).value.normal) == 1.0
  {
    NormalizeIsUnit(normal, sqrt);
  }

  /** A normal that is already a unit vector is stored unchanged, with `d = -(n · point)`. */
  lemma FromPointNormalKeepsUnitNormal(point: Point3D, normal: Vector3D, sqrt: real -> real)
    requires MagnitudeSquared(normal) == 1.0 && SqrtAt(sqrt, 1.0)
    ensures FromPointNormal(point, normal, sqrt)
            == Ok(Plane(normal, -(normal.x * point.x + normal.y * point.y + normal.z * point.z)))
  {
    NormalizeKeepsUnit(normal, sqrt);
    var u := Normalize(normal, sqrt).value;
    assert u.x == normal.x && u.y == normal.y && u.z == normal.z;
    assert u.x * point.x + u.y * point.y + u.z * point.z == normal.x * point.x + normal.y * point.y + normal.z * point.z;
    assert FromPointNormal(point, normal, sqrt).Ok?;
    assert FromPointNormal(point, normal, sqrt).value.normal == u;
    assert FromPointNormal(point, normal, sqrt).value.d == -(u.x * point.x + u.y * point.y + u.z * point.z);
  }

  /** Flipping negates every signed distance, keeps the plane parallel, and undoes itself. */
  lemma FlipNormalNegatesDistance(plane: Plane, p: Point3D)
    ensures DistanceToPoint(FlipNormal(plane), p) == -DistanceToPoint(plane, p)
    ensures ContainsPoint(FlipNormal(plane), p) <==> ContainsPoint(plane, p)
    ensures FlipNormal(FlipNormal(plane)) == plane
  {
  }

  lemma FlipNormalParallel(plane: Plane)
    ensures IsParallel(FlipNormal(plane), plane)
  {
    var n := plane.normal;
    var c := Cross(Neg(n), n);
    assert c.x == 0.0 && c.y == 0.0 && c.z == 0.0;
    assert c == Zero();
  }

  lemma DistanceExample(sqrt: real -> real)
    requires SqrtAt(sqrt, 1.0)
    ensures FromPointNormal(Origin(), UnitZ(), sqrt).Ok?
    ensures DistanceToPoint(FromPointNormal(Origin(), UnitZ(), sqrt).value, Point3D(0.0, 0.0, 5.0)) == 5.0
  {
    assert MagnitudeSquared(UnitZ()) == 1.0 * 1.0;
    SqrtOfSquare(sqrt, 1.0);
  }
}
