/**
 * Rays: an origin and a direction that construction normalises.
 */
module Rays {
  import opened Float
  import opened Errors
  import opened Vectors
  import opened Points

  datatype Ray = Ray(origin: Point3D, direction: Vector3D)

  /** Construction normalises the direction and fails exactly when that does. */
  function New(origin: Point3D, direction: Vector3D, sqrt: real -> real): (r: Result<Ray>)
    ensures r.Err? <==> Normalize(direction, sqrt).Err?
    ensures r.Err? ==> r.error.DivisionByZero?
    ensures r.Ok? ==> r.value == Ray(origin, Normalize(direction, sqrt).value)
  {
    var n := Normalize(direction, sqrt);
    if n.Err? then Err(n.error) else Ok(Ray(origin, n.value))
  }

  /** The point `origin + direction * t`. */
  function PointAt(ray: Ray, t: real): Point3D
  {
    Point3D(ray.origin.x + ray.direction.x * t,
            ray.origin.y + ray.direction.y * t,
            ray.origin.z + ray.direction.z * t)
  }

  /** `PartialEq`: origins and directions approximately equal. */
  predicate ApproxEqual(r1: Ray, r2: Ray)
  {
    Points.ApproxEqual(r1.origin, r2.origin) && Vectors.ApproxEqual(r1.direction, r2.direction)
  }

  // ---------------------------------------------------------------------
  // Properties

  /** With an exact square root, a constructed ray has a unit direction. */
  lemma NewHasUnitDirection(origin: Point3D, direction: Vector3D, sqrt: real -> real)
    requires IsSqrt(sqrt)
    requires New(origin, direction, sqrt).Ok?
    ensures MagnitudeSquared(New(origin, direction, sqrt).value.direction) == 1.0
  {
    NormalizeIsUnit(direction, sqrt);
  }

  /** With an exact square root, construction fails exactly for a direction shorter than `EPSILON`. */
  lemma NewFailsIffShort(origin: Point3D, direction: Vector3D, sqrt: real -> real)
    requires IsSqrt(sqrt)
    ensures New(origin, direction, sqrt).Err? <==> MagnitudeSquared(direction) < EPSILON * EPSILON
  {
    NormalizeFailsIffShort(direction, sqrt);
  }

  /** A direction that is already a unit vector is stored unchanged. */
  lemma NewKeepsUnitDirection(origin: Point3D, direction: Vector3D, sqrt: real -> real)
    requires MagnitudeSquared(direction) == 1.0 && SqrtAt(sqrt, 1.0)
    ensures New(origin, direction, sqrt) == Ok(Ray(origin, direction))
  {
    NormalizeKeepsUnit(direction, sqrt);
  }

  lemma ZeroDirectionFails(origin: Point3D, sqrt: real -> real)
    requires SqrtAt(sqrt, 0.0)
    ensures New(origin, Zero(), sqrt).Err?
  {
    SqrtOfSquare(sqrt, 0.0);
  }

  /** Direction (3, 4, 0) is stored as (0.6, 0.8, 0). */
  lemma NewNormalizesExample(sqrt: real -> real)
    requires IsSqrt(sqrt)
    ensures New(Origin(), Vector3D(3.0, 4.0, 0.0), sqrt).Ok?
    ensures New(Origin(), Vector3D(3.0, 4.0, 0.0), sqrt).value.direction == Vector3D(0.6, 0.8, 0.0)
  {
    MagnitudeExample(sqrt);
  }

  /** Rays built from parallel directions of different lengths are equal. */
  lemma EqualityIgnoresDirectionLength(sqrt: real -> real)
    requires IsSqrt(sqrt)
    ensures New(Origin(), Vector3D(1.0, 0.0, 0.0), sqrt).Ok?
    ensures New(Origin(), Vector3D(2.0, 0.0, 0.0), sqrt).Ok?
    ensures New(Origin(), Vector3D(1.0, 0.0, 0.0), sqrt).value
            == New(Origin(), Vector3D(2.0, 0.0, 0.0), sqrt).value
  {
    assert MagnitudeSquared(Vector3D(1.0, 0.0, 0.0)) == 1.0 * 1.0;
    assert MagnitudeSquared(Vector3D(2.0, 0.0, 0.0)) == 2.0 * 2.0;
    SqrtOfSquare(sqrt, 1.0);
    SqrtOfSquare(sqrt, 2.0);
  }

  lemma PointAtExamples()
    ensures PointAt(Ray(Point3D(1.0, 2.0, 3.0), UnitX()), 0.0) == Point3D(1.0, 2.0, 3.0)
    ensures PointAt(Ray(Point3D(1.0, 2.0, 3.0), UnitX()), 5.0) == Point3D(6.0, 2.0, 3.0)
    ensures PointAt(Ray(Point3D(1.0, 2.0, 3.0), UnitX()), -2.0) == Point3D(-1.0, 2.0, 3.0)
  {
  }

  /** Along a unit direction the parameter is the distance travelled. */
  lemma PointAtDistance(ray: Ray, t: real)
    requires MagnitudeSquared(ray.direction) == 1.0
    ensures DistanceSquaredTo(ray.origin, PointAt(ray, t)) == t * t
  {
    var d := ray.direction;
    DistanceSquaredIsMagnitude(ray.origin, PointAt(ray, t));
    assert Minus(PointAt(ray, t), ray.origin) == Scale(d, t);
    ScaledMagnitude(d, t);
  }
}
