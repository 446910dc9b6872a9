/**
 * Spheres given by a center and a radius that construction requires to be
 * positive: volume, surface area, the inclusive containment test and the
 * distance from the surface.
 */
module Spheres {
  import opened Float
  import opened Errors
  import opened Points

  datatype Sphere = Sphere(center: Point3D, radius: real)

  function New(center: Point3D, radius: real): (r: Result<Sphere>)
    ensures r.Ok? <==> radius > 0.0
    ensures r.Ok? ==> r.value == Sphere(center, radius)
    ensures r.Err? ==> r.error.InvalidConstruction?
  {
    if radius <= 0.0 then Err(InvalidConstruction("Sphere radius must be positive"))
    else Ok(Sphere(center, radius))
  }

  /** `(4/3) π r³`. */
  function Volume(s: Sphere): real
  {
    (4.0 / 3.0) * PI * (s.radius * s.radius * s.radius)
  }

  /** `4 π r²`. */
  function SurfaceArea(s: Sphere): real
  {
    4.0 * PI * (s.radius * s.radius)
  }

  /** Inclusive: points on the surface are contained. */
  predicate ContainsPoint(s: Sphere, p: Point3D)
  {
    DistanceSquaredTo(s.center, p) <= s.radius * s.radius
  }

  /** The distance from the surface, zero inside. */
  function DistanceToPoint(s: Sphere, p: Point3D, sqrt: real -> real): (d: real)
    ensures d >= 0.0
    ensures d == 0.0 || d == DistanceTo(s.center, p, sqrt) - s.radius
  {
    Max(DistanceTo(s.center, p, sqrt) - s.radius, 0.0)
  }

  /** `PartialEq`: centers approximately equal and radii within `EPSILON`. */
  predicate ApproxEqual(a: Sphere, b: Sphere)
  {
    Points.ApproxEqual(a.center, b.center) && ApproxEq(a.radius, b.radius)
  }

  // ---------------------------------------------------------------------
  // Properties

  lemma NewExamples()
    ensures New(Origin(), 5.0) == Ok(Sphere(Origin(), 5.0))
    ensures New(Origin(), 0.0).Err? && New(Origin(), -1.0).Err?
  {
  }

  /** The center of a sphere is always contained. */
  lemma CenterContained(s: Sphere)
    ensures ContainsPoint(s, s.center)
  {
    DistanceSquaredZero(s.center, s.center);
  }

  lemma ContainsExamples()
    ensures ContainsPoint(Sphere(Origin(), 5.0), Point3D(3.0, 0.0, 0.0))
    ensures ContainsPoint(Sphere(Origin(), 5.0), Point3D(5.0, 0.0, 0.0))
    ensures !ContainsPoint(Sphere(Origin(), 5.0), Point3D(6.0, 0.0, 0.0))
  {
  }

  /** For non-negative `a` and positive `r`: `a * a <= r * r` exactly when `a <= r`. */
  lemma SquareMonotone(a: real, r: real)
    requires a >= 0.0 && r > 0.0
    ensures a * a <= r * r <==> a <= r
  {
    if a > r {
      assert a * a > r * a > r * r;
    } else {
      assert a * a <= r * a <= r * r;
    }
  }

  /**
   * With a square root exact at the squared distance, a point of a valid
   * sphere is at surface distance zero exactly when it is contained.
   */
  lemma DistanceZeroIffContained(s: Sphere, p: Point3D, sqrt: real -> real)
    requires s.radius > 0.0
    requires SqrtAt(sqrt, DistanceSquaredTo(s.center, p))
    ensures DistanceToPoint(s, p, sqrt) == 0.0 <==> ContainsPoint(s, p)
  {
    var d := DistanceTo(s.center, p, sqrt);
    SquareMonotone(d, s.radius);
  }

  /** Outside the sphere the distance is exactly how far beyond the radius the point lies. */
  lemma DistanceOutside(s: Sphere, p: Point3D, sqrt: real -> real)
    requires s.radius > 0.0
    requires SqrtAt(sqrt, DistanceSquaredTo(s.center, p))
    requires !ContainsPoint(s, p)
    ensures DistanceToPoint(s, p, sqrt) == DistanceTo(s.center, p, sqrt) - s.radius > 0.0
  {
    var d := DistanceTo(s.center, p, sqrt);
    SquareMonotone(d, s.radius);
  }

  lemma VolumeAndAreaOfUnitSphere()
    ensures Volume(Sphere(Origin(), 1.0)) == (4.0 / 3.0) * PI
    ensures SurfaceArea(Sphere(Origin(), 1.0)) == 4.0 * PI
  {
  }

  /** A valid sphere has positive volume and surface area, and scaling the radius by `k` scales them by `k³` and `k²`. */
  lemma VolumeAndAreaScale(s: Sphere, k: real)
    ensures s.radius > 0.0 ==> Volume(s) > 0.0 && SurfaceArea(s) > 0.0
    ensures Volume(Sphere(s.center, s.radius * k)) == Volume(s) * (k * k * k)
    ensures SurfaceArea(Sphere(s.center, s.radius * k)) == SurfaceArea(s) * (k * k)
  {
    var r := s.radius;
    if r > 0.0 {
      assert r * r > 0.0;
      assert r * r * r > 0.0;
    }
    assert (r * k) * (r * k) * (r * k) == (r * r * r) * (k * k * k);
    assert (r * k) * (r * k) == (r * r) * (k * k);
  }
}
