/**
 * Intersection queries between primitives: ray against plane, sphere,
 * triangle (Moller-Trumbore) and box (the slab method), and the overlap
 * tests between two boxes and between two spheres.
 */
module Intersections {
  import opened Float
  import opened Errors
  import opened Vectors
  import opened Points
  import Rays
  import Planes
  import Spheres
  import Triangles
  import Boxes

  // ---------------------------------------------------------------------
  // Ray against plane

  /** `n · direction`: how fast the signed distance changes along the ray. */
  function PlaneDenominator(ray: Rays.Ray, plane: Planes.Plane): real
  {
    Dot(plane.normal, ray.direction)
  }

  /** The ray parameter at which the signed distance `n · p + d` vanishes. */
  function PlaneParameter(ray: Rays.Ray, plane: Planes.Plane): real
    requires PlaneDenominator(ray, plane) != 0.0
  {
    var originAsVector := Vector3D(ray.origin.x, ray.origin.y, ray.origin.z);
    -(Dot(plane.normal, originAsVector) + plane.d) / PlaneDenominator(ray, plane)
  }

  /**
   * The point where the ray meets the plane: none when the ray is parallel
   * to it (denominator within `EPSILON` of zero) or when the plane lies
   * behind the origin.
   */
  function RayPlane(ray: Rays.Ray, plane: Planes.Plane): (r: Option<Point3D>)
    ensures ApproxZero(PlaneDenominator(ray, plane)) ==> r.None?
    ensures r.Some? ==> !ApproxZero(PlaneDenominator(ray, plane)) && PlaneParameter(ray, plane) >= 0.0
                        && r.value == Rays.PointAt(ray, PlaneParameter(ray, plane))
    ensures !ApproxZero(PlaneDenominator(ray, plane)) && PlaneParameter(ray, plane) >= 0.0 ==> r.Some?
  {
    var denom := PlaneDenominator(ray, plane);
    if ApproxZero(denom) then None
    else
      var t := PlaneParameter(ray, plane);
      if t < 0.0 then None else Some(Rays.PointAt(ray, t))
  }

  /** The signed distance grows linearly along the ray, at rate `PlaneDenominator`. */
  lemma DistanceAlongRay(ray: Rays.Ray, plane: Planes.Plane, t: real)
    ensures Planes.DistanceToPoint(plane, Rays.PointAt(ray, t))
            == Planes.DistanceToPoint(plane, ray.origin) + t * PlaneDenominator(ray, plane)
  {
    var n, o, d := plane.normal, ray.origin, ray.direction;
    assert n.x * (o.x + d.x * t) == n.x * o.x + t * (n.x * d.x);
    assert n.y * (o.y + d.y * t) == n.y * o.y + t * (n.y * d.y);
    assert n.z * (o.z + d.z * t) == n.z * o.z + t * (n.z * d.z);
  }

  /** The point found lies on the plane: its signed distance is exactly zero. */
  lemma RayPlaneHitOnPlane(ray: Rays.Ray, plane: Planes.Plane)
    requires RayPlane(ray, plane).Some?
    ensures Planes.DistanceToPoint(plane, RayPlane(ray, plane).value) == 0.0
    ensures Planes.ContainsPoint(plane, RayPlane(ray, plane).value)
  {
    var denom := PlaneDenominator(ray, plane);
    var k := Planes.DistanceToPoint(plane, ray.origin);
    var t := PlaneParameter(ray, plane);
    assert t == -k / denom;
    assert t * denom == -k;
    DistanceAlongRay(ray, plane, t);
  }

  /**
   * Every point of the ray (parameter `s >= 0`) on a plane the ray is not
   * parallel to is the point found.
   */
  lemma RayPlaneFindsEveryHit(ray: Rays.Ray, plane: Planes.Plane, s: real)
    requires !ApproxZero(PlaneDenominator(ray, plane))
    requires s >= 0.0 && Planes.DistanceToPoint(plane, Rays.PointAt(ray, s)) == 0.0
    ensures RayPlane(ray, plane) == Some(Rays.PointAt(ray, s))
  {
    var denom := PlaneDenominator(ray, plane);
    var k := Planes.DistanceToPoint(plane, ray.origin);
    DistanceAlongRay(ray, plane, s);
    assert s * denom == -k;
    assert s == -k / denom;
    assert PlaneParameter(ray, plane) == s;
  }

  /** The test scene: the plane `z = 5` built from a point and the normal +z. */
  lemma RayPlaneSceneConstruction(sqrt: real -> real)
    requires SqrtAt(sqrt, 1.0)
    ensures Planes.FromPointNormal(Point3D(0.0, 0.0, 5.0), UnitZ(), sqrt) == Ok(Planes.Plane(UnitZ(), -5.0))
  {
    assert MagnitudeSquared(UnitZ()) == 1.0;
    Planes.FromPointNormalKeepsUnitNormal(Point3D(0.0, 0.0, 5.0), UnitZ(), sqrt);
  }

  /**
   * A ray from `(x, y, 0)` along `+z` at speed `s` meets the plane `z = k`
   * (normal `(0, 0, n)`, `n > 0`, offset `-k n`) at `(x, y, k)` when `k >= 0`.
   */
  lemma RayPlaneAxisHit(x: real, y: real, s: real, n: real, k: real)
    requires s > 0.0 && n > 0.0 && s * n > EPSILON && k >= 0.0
    ensures RayPlane(Rays.Ray(Point3D(x, y, 0.0), Vector3D(0.0, 0.0, s)), Planes.Plane(Vector3D(0.0, 0.0, n), -(k * n)))
            == Some(Point3D(x, y, k))
  {
    var ray, plane := Rays.Ray(Point3D(x, y, 0.0), Vector3D(0.0, 0.0, s)), Planes.Plane(Vector3D(0.0, 0.0, n), -(k * n));
    assert PlaneDenominator(ray, plane) == n * s;
    assert PlaneParameter(ray, plane) == (k * n) / (n * s);
    assert (k * n) / (n * s) == k / s;
    assert s * (k / s) == k;
    assert Rays.PointAt(ray, k / s) == Point3D(x, y, k);
  }

  /** The ray from the origin along `+z` meets the plane `z = 5` at `(0, 0, 5)`. */
  lemma RayPlaneHitExample()
    ensures RayPlane(Rays.Ray(Origin(), UnitZ()), Planes.Plane(UnitZ(), -5.0)) == Some(Point3D(0.0, 0.0, 5.0))
  {
    RayPlaneAxisHit(0.0, 0.0, 1.0, 1.0, 5.0);
  }

  /** A ray along `x` never meets a plane whose normal is along `z`. */
  lemma RayPlaneAxisParallel(o: Point3D, s: real, n: real, d: real)
    ensures RayPlane(Rays.Ray(o, Vector3D(s, 0.0, 0.0)), Planes.Plane(Vector3D(0.0, 0.0, n), d)).None?
  {
    assert PlaneDenominator(Rays.Ray(o, Vector3D(s, 0.0, 0.0)), Planes.Plane(Vector3D(0.0, 0.0, n), d)) == 0.0;
  }

  /** The ray from the origin along `+x` is parallel to the plane `z = 5`. */
  lemma RayPlaneParallelExample()
    ensures RayPlane(Rays.Ray(Origin(), UnitX()), Planes.Plane(UnitZ(), -5.0)).None?
  {
    RayPlaneAxisParallel(Origin(), 1.0, 1.0, -5.0);
  }

  // ---------------------------------------------------------------------
  // Ray against sphere

  /** The coefficients of `a t² + b t + c`, whose roots are where the ray's line meets the sphere. */
  function QuadA(ray: Rays.Ray): real
  {
    Dot(ray.direction, ray.direction)
  }

  function QuadB(ray: Rays.Ray, sphere: Spheres.Sphere): real
  {
    2.0 * Dot(Minus(ray.origin, sphere.center), ray.direction)
  }

  function QuadC(ray: Rays.Ray, sphere: Spheres.Sphere): real
  {
    var oc := Minus(ray.origin, sphere.center);
    Dot(oc, oc) - sphere.radius * sphere.radius
  }

  function Discriminant(ray: Rays.Ray, sphere: Spheres.Sphere): real
  {
    var b := QuadB(ray, sphere);
    b * b - 4.0 * QuadA(ray) * QuadC(ray, sphere)
  }

  /**
   * Both roots of the quadratic, smaller first, or none when the
   * discriminant is negative.  Roots behind the origin are kept.  The
   * direction must not be the zero vector, because the roots divide by
   * `2 a`; a ray built by `Rays.New` has a unit direction.
   */
  function RaySphere(ray: Rays.Ray, sphere: Spheres.Sphere, sqrt: real -> real): (r: Option<(real, real)>)
    requires QuadA(ray) != 0.0
    ensures r.None? <==> Discriminant(ray, sphere) < 0.0
  {
    var a := QuadA(ray);
    var b := QuadB(ray, sphere);
    var discriminant := Discriminant(ray, sphere);
    if discriminant < 0.0 then None
    else
      var sqrtDisc := sqrt(discriminant);
      var t1 := (-b - sqrtDisc) / (2.0 * a);
      var t2 := (-b + sqrtDisc) / (2.0 * a);
      Some((t1, t2))
  }

  /** Along the ray, the squared distance to the center minus `r²` is the quadratic. */
  lemma SquaredDistanceAlongRay(ray: Rays.Ray, sphere: Spheres.Sphere, t: real)
    ensures DistanceSquaredTo(sphere.center, Rays.PointAt(ray, t)) - sphere.radius * sphere.radius
            == QuadA(ray) * t * t + QuadB(ray, sphere) * t + QuadC(ray, sphere)
  {
    var c, o, d, p := sphere.center, ray.origin, ray.direction, Rays.PointAt(ray, t);
    var oc := Minus(o, c);
    QuadraticAlong(c.x, c.y, c.z, o.x, o.y, o.z, d.x, d.y, d.z, oc.x, oc.y, oc.z, p.x, p.y, p.z, sphere.radius, t,
                   DistanceSquaredTo(c, p), QuadA(ray), QuadB(ray, sphere), QuadC(ray, sphere));
  }

  /** The identity behind `SquaredDistanceAlongRay`, coordinate by coordinate. */
  lemma QuadraticAlong(cx: real, cy: real, cz: real, ox: real, oy: real, oz: real, dx: real, dy: real, dz: real,
                       ocx: real, ocy: real, ocz: real, px: real, py: real, pz: real, r: real, t: real,
                       dist: real, a: real, b: real, c: real)
    requires ocx == ox - cx && ocy == oy - cy && ocz == oz - cz
    requires px == ox + dx * t && py == oy + dy * t && pz == oz + dz * t
    requires dist == (cx - px) * (cx - px) + (cy - py) * (cy - py) + (cz - pz) * (cz - pz)
    requires a == dx * dx + dy * dy + dz * dz
    requires b == 2.0 * (ocx * dx + ocy * dy + ocz * dz)
    requires c == (ocx * ocx + ocy * ocy + ocz * ocz) - r * r
    ensures dist - r * r == a * t * t + b * t + c
  {
    SquareAlong(cx, ox, dx, t);
    SquareAlong(cy, oy, dy, t);
    SquareAlong(cz, oz, dz, t);
  }

  lemma SquareAlong(c: real, o: real, d: real, t: real)
    ensures (c - (o + d * t)) * (c - (o + d * t)) == (o - c) * (o - c) + 2.0 * t * ((o - c) * d) + t * t * (d * d)
  {
  }

  /** `(-b ± s) / 2a` are roots of `a t² + b t + c` when `s² = b² - 4ac`. */
  lemma QuadraticRoot(a: real, b: real, c: real, s: real, t: real)
    requires a != 0.0 && s * s == b * b - 4.0 * a * c
    requires t == (-b - s) / (2.0 * a) || t == (-b + s) / (2.0 * a)
    ensures a * t * t + b * t + c == 0.0
  {
    assert 2.0 * a * t + b == s || 2.0 * a * t + b == -s;
    assert (2.0 * a * t + b) * (2.0 * a * t + b) == s * s;
    assert 4.0 * a * (a * t * t + b * t + c) == (2.0 * a * t + b) * (2.0 * a * t + b) - (b * b - 4.0 * a * c);
  }

  /** A root `t` of `a t² + b t + c` makes the discriminant the square `(2at + b)²`. */
  lemma DiscriminantOfRoot(a: real, b: real, c: real, t: real)
    requires a * t * t + b * t + c == 0.0
    ensures b * b - 4.0 * a * c == (2.0 * a * t + b) * (2.0 * a * t + b)
  {
    assert (2.0 * a * t + b) * (2.0 * a * t + b) == 4.0 * a * (a * t * t + b * t + c) + b * b - 4.0 * a * c;
  }

  /** With `a > 0` and `s >= 0`, `(-b - s) / 2a <= (-b + s) / 2a`. */
  lemma RootsOrdered(a: real, b: real, s: real)
    requires a > 0.0 && s >= 0.0
    ensures (-b - s) / (2.0 * a) <= (-b + s) / (2.0 * a)
  {
    assert (-b + s) / (2.0 * a) - (-b - s) / (2.0 * a) == s / a;
  }

  lemma ZeroProduct(x: real, y: real)
    requires x * y == 0.0
    ensures x == 0.0 || y == 0.0
  {
    if x != 0.0 {
      assert y == x * y / x;
    }
  }

  /** A non-zero direction has `a = direction · direction > 0`. */
  lemma QuadAPositive(ray: Rays.Ray)
    requires QuadA(ray) != 0.0
    ensures QuadA(ray) > 0.0
  {
    DotSymmetric(ray.direction, ray.direction);
  }

  /**
   * With an exact square root of the discriminant, the two parameters
   * returned are ordered and both are points of the sphere's surface.
   */
  lemma RaySphereRootsOnSurface(ray: Rays.Ray, sphere: Spheres.Sphere, sqrt: real -> real)
    requires QuadA(ray) != 0.0
    requires RaySphere(ray, sphere, sqrt).Some?
    requires SqrtAt(sqrt, Discriminant(ray, sphere))
    ensures RaySphere(ray, sphere, sqrt).value.0 <= RaySphere(ray, sphere, sqrt).value.1
    ensures DistanceSquaredTo(sphere.center, Rays.PointAt(ray, RaySphere(ray, sphere, sqrt).value.0))
            == sphere.radius * sphere.radius
    ensures DistanceSquaredTo(sphere.center, Rays.PointAt(ray, RaySphere(ray, sphere, sqrt).value.1))
            == sphere.radius * sphere.radius
  {
    var a, b, c := QuadA(ray), QuadB(ray, sphere), QuadC(ray, sphere);
    var s := sqrt(Discriminant(ray, sphere));
    var t1, t2 := RaySphere(ray, sphere, sqrt).value.0, RaySphere(ray, sphere, sqrt).value.1;
    assert t1 == (-b - s) / (2.0 * a) && t2 == (-b + s) / (2.0 * a);
    QuadAPositive(ray);
    RootsOrdered(a, b, s);
    QuadraticRoot(a, b, c, s, t1);
    QuadraticRoot(a, b, c, s, t2);
    SquaredDistanceAlongRay(ray, sphere, t1);
    SquaredDistanceAlongRay(ray, sphere, t2);
  }

  /**
   * Conversely, every point of the ray's line on the surface is reported:
   * the result is present and, with an exact square root, the point's
   * parameter is one of the two returned.
   */
  lemma RaySphereFindsEverySurfacePoint(ray: Rays.Ray, sphere: Spheres.Sphere, sqrt: real -> real, t: real)
    requires QuadA(ray) != 0.0
    requires DistanceSquaredTo(sphere.center, Rays.PointAt(ray, t)) == sphere.radius * sphere.radius
    requires SqrtAt(sqrt, Discriminant(ray, sphere))
    ensures RaySphere(ray, sphere, sqrt).Some?
    ensures t == RaySphere(ray, sphere, sqrt).value.0 || t == RaySphere(ray, sphere, sqrt).value.1
  {
    SquaredDistanceAlongRay(ray, sphere, t);
    QuadAPositive(ray);
    RootIsOneOfTwo(QuadA(ray), QuadB(ray, sphere), QuadC(ray, sphere), sqrt(Discriminant(ray, sphere)), t);
  }

  /** A root of `a t² + b t + c` is `(-b - s) / 2a` or `(-b + s) / 2a` when `s ≥ 0` and `s² = b² - 4ac`. */
  lemma RootIsOneOfTwo(a: real, b: real, c: real, s: real, t: real)
    requires a != 0.0 && s >= 0.0 && s * s == b * b - 4.0 * a * c
    requires a * t * t + b * t + c == 0.0
    ensures t == (-b - s) / (2.0 * a) || t == (-b + s) / (2.0 * a)
  {
    DiscriminantOfRoot(a, b, c, t);
    var e := 2.0 * a * t + b;
    assert (s - e) * (s + e) == 0.0;
    ZeroProduct(s - e, s + e);
    if s == e {
      assert t == (-b + s) / (2.0 * a);
    } else {
      assert t == (-b - s) / (2.0 * a);
    }
  }


  /**
   * A ray along `+z` at speed `s` toward a sphere of radius `r` whose center
   * lies `c > r` ahead meets it at parameters `(c - r) / s` and `(c + r) / s`,
   * given a square root exact at the discriminant `4 s² r²`.
   */
  lemma RaySphereAxisHit(o: Point3D, s: real, c: real, r: real, sqrt: real -> real)
    requires s > 0.0 && c > r > 0.0 && sqrt(4.0 * ((s * r) * (s * r))) == 2.0 * (s * r)
    ensures QuadA(Rays.Ray(o, Vector3D(0.0, 0.0, s))) > 0.0
            && RaySphere(Rays.Ray(o, Vector3D(0.0, 0.0, s)), Spheres.Sphere(Point3D(o.x, o.y, o.z + c), r), sqrt)
               == Some(((c - r) / s, (c + r) / s))
  {
    var ray, sphere := Rays.Ray(o, Vector3D(0.0, 0.0, s)), Spheres.Sphere(Point3D(o.x, o.y, o.z + c), r);
    AxisCoefficients(o, s, c, r);
    SquarePositive(s);
    AxisDiscriminant(s, c, r, QuadA(ray), QuadB(ray, sphere), QuadC(ray, sphere), Discriminant(ray, sphere));
    AxisRoots(s, c, r, QuadA(ray), QuadB(ray, sphere), sqrt(Discriminant(ray, sphere)));
  }

  /** The coefficients of the quadratic for a ray along `+z` toward a center `c` ahead. */
  lemma AxisCoefficients(o: Point3D, s: real, c: real, r: real)
    ensures QuadA(Rays.Ray(o, Vector3D(0.0, 0.0, s))) == s * s
    ensures QuadB(Rays.Ray(o, Vector3D(0.0, 0.0, s)), Spheres.Sphere(Point3D(o.x, o.y, o.z + c), r)) == -2.0 * (c * s)
    ensures QuadC(Rays.Ray(o, Vector3D(0.0, 0.0, s)), Spheres.Sphere(Point3D(o.x, o.y, o.z + c), r)) == c * c - r * r
  {
  }

  lemma SquarePositive(s: real)
    requires s != 0.0
    ensures s * s > 0.0
  {
  }

  lemma AxisDiscriminant(s: real, c: real, r: real, a: real, b: real, q: real, disc: real)
    requires a == s * s && b == -2.0 * (c * s) && q == c * c - r * r && disc == b * b - 4.0 * a * q
    ensures disc == 4.0 * ((s * r) * (s * r))
  {
  }

  lemma AxisRoots(s: real, c: real, r: real, a: real, b: real, root: real)
    requires s > 0.0 && a == s * s && b == -2.0 * (c * s) && root == 2.0 * (s * r)
    ensures a > 0.0
    ensures (-b - root) / (2.0 * a) == (c - r) / s
    ensures (-b + root) / (2.0 * a) == (c + r) / s
  {
    SquarePositive(s);
    CancelFactor(2.0 * s, c - r, s, -b - root, 2.0 * a);
    CancelFactor(2.0 * s, c + r, s, -b + root, 2.0 * a);
  }

  /** `(k p) / (k q) = p / q`. */
  lemma CancelFactor(k: real, p: real, q: real, x: real, y: real)
    requires k != 0.0 && q != 0.0 && x == k * p && y == k * q
    ensures y != 0.0 && x / y == p / q
  {
    var w := p / q;
    assert w * q == p;
    assert w * y == k * (w * q);
    assert (x / y) * y == x;
  }

  /** The ray from the origin along `+z` meets the unit sphere at `(0, 0, 5)` at parameters 4 and 6. */
  lemma RaySphereHitExample(sqrt: real -> real)
    requires sqrt(4.0) == 2.0
    ensures RaySphere(Rays.Ray(Origin(), UnitZ()), Spheres.Sphere(Point3D(0.0, 0.0, 5.0), 1.0), sqrt) == Some((4.0, 6.0))
  {
    RaySphereAxisHit(Origin(), 1.0, 5.0, 1.0, sqrt);
  }

  /** A ray along `x` misses every sphere centered `c > r` off its line along `y`. */
  lemma RaySphereAxisMiss(o: Point3D, s: real, c: real, r: real, sqrt: real -> real)
    requires s != 0.0 && c > r > 0.0
    ensures QuadA(Rays.Ray(o, Vector3D(s, 0.0, 0.0))) > 0.0
            && RaySphere(Rays.Ray(o, Vector3D(s, 0.0, 0.0)), Spheres.Sphere(Point3D(o.x, o.y + c, o.z), r), sqrt).None?
  {
    var ray, sphere := Rays.Ray(o, Vector3D(s, 0.0, 0.0)), Spheres.Sphere(Point3D(o.x, o.y + c, o.z), r);
    CrossAxisCoefficients(o, s, c, r);
    NegativeDiscriminant(s, c, r);
    MagnitudeSquaredPositive(ray.direction);
    assert QuadA(ray) == MagnitudeSquared(ray.direction);
  }

  /** The coefficients of the quadratic for a ray along `x` and a center `c` off its line along `y`. */
  lemma CrossAxisCoefficients(o: Point3D, s: real, c: real, r: real)
    ensures QuadA(Rays.Ray(o, Vector3D(s, 0.0, 0.0))) == s * s
    ensures QuadB(Rays.Ray(o, Vector3D(s, 0.0, 0.0)), Spheres.Sphere(Point3D(o.x, o.y + c, o.z), r)) == 0.0
    ensures QuadC(Rays.Ray(o, Vector3D(s, 0.0, 0.0)), Spheres.Sphere(Point3D(o.x, o.y + c, o.z), r)) == c * c - r * r
  {
  }

  /** With the center farther from the line than the radius, the discriminant `0² - 4 s² (c² - r²)` is negative. */
  lemma NegativeDiscriminant(s: real, c: real, r: real)
    requires s != 0.0 && c > r > 0.0
    ensures s * s > 0.0
    ensures 0.0 * 0.0 - 4.0 * (s * s) * (c * c - r * r) < 0.0
  {
    assert s * s > 0.0;
    assert c * c > r * r by { assert c * c > c * r > r * r; }
    assert (s * s) * (c * c - r * r) > 0.0;
  }

  /** The ray from the origin along `+x` misses the unit sphere at `(0, 10, 0)`. */
  lemma RaySphereMissExample(sqrt: real -> real)
    ensures RaySphere(Rays.Ray(Origin(), UnitX()), Spheres.Sphere(Point3D(0.0, 10.0, 0.0), 1.0), sqrt).None?
  {
    RaySphereAxisMiss(Origin(), 1.0, 10.0, 1.0, sqrt);
  }

  // ---------------------------------------------------------------------
  // Ray against triangle (Moller-Trumbore)

  /** `edge1 · (direction × edge2)`: zero when the ray is parallel to the triangle's plane. */
  function Determinant(ray: Rays.Ray, tri: Triangles.Triangle): real
  {
    Dot(Minus(tri.b, tri.a), Cross(ray.direction, Minus(tri.c, tri.a)))
  }

  /** The barycentric weight of `b` at the crossing. */
  function WeightU(ray: Rays.Ray, tri: Triangles.Triangle): real
    requires Determinant(ray, tri) != 0.0
  {
    Dot(Minus(ray.origin, tri.a), Cross(ray.direction, Minus(tri.c, tri.a))) / Determinant(ray, tri)
  }

  /** The barycentric weight of `c` at the crossing. */
  function WeightV(ray: Rays.Ray, tri: Triangles.Triangle): real
    requires Determinant(ray, tri) != 0.0
  {
    Dot(ray.direction, Cross(Minus(ray.origin, tri.a), Minus(tri.b, tri.a))) / Determinant(ray, tri)
  }

  /** The ray parameter of the crossing with the triangle's plane. */
  function Distance(ray: Rays.Ray, tri: Triangles.Triangle): real
    requires Determinant(ray, tri) != 0.0
  {
    Dot(Minus(tri.c, tri.a), Cross(Minus(ray.origin, tri.a), Minus(tri.b, tri.a))) / Determinant(ray, tri)
  }

  /**
   * The parameter at which the ray crosses the triangle: none when the ray
   * is parallel to it, when the crossing is outside it, or when it is not
   * strictly ahead of the origin.
   */
  function RayTriangle(ray: Rays.Ray, tri: Triangles.Triangle): (r: Option<real>)
    ensures ApproxZero(Determinant(ray, tri)) ==> r.None?
    ensures r.Some? ==> !ApproxZero(Determinant(ray, tri))
                        && 0.0 <= WeightU(ray, tri) <= 1.0 && WeightV(ray, tri) >= 0.0
                        && WeightU(ray, tri) + WeightV(ray, tri) <= 1.0
                        && r.value == Distance(ray, tri) > 0.0
  {
    if ApproxZero(Determinant(ray, tri)) then None
    else
      var u := WeightU(ray, tri);
      if !(0.0 <= u <= 1.0) then None
      else
        var v := WeightV(ray, tri);
        if v < 0.0 || u + v > 1.0 then None
        else
          var t := Distance(ray, tri);
          if t > 0.0 then Some(t) else None
  }

  /**
   * Moller-Trumbore solves `o - a = u e1 + v e2 - t d` by Cramer's rule.
   * With `s = o - a`, `h = d × e2`, `q = s × e1` and `det = e1 · h`, this is
   * the rule for each coordinate: `det s + (e2 · q) d = (s · h) e1 + (d · q) e2`.
   */
  lemma CramerX(e1: Vector3D, e2: Vector3D, d: Vector3D, s: Vector3D)
    ensures Dot(e1, Cross(d, e2)) * s.x + Dot(e2, Cross(s, e1)) * d.x
            == Dot(s, Cross(d, e2)) * e1.x + Dot(d, Cross(s, e1)) * e2.x
  {
  }

  lemma CramerY(e1: Vector3D, e2: Vector3D, d: Vector3D, s: Vector3D)
    ensures Dot(e1, Cross(d, e2)) * s.y + Dot(e2, Cross(s, e1)) * d.y
            == Dot(s, Cross(d, e2)) * e1.y + Dot(d, Cross(s, e1)) * e2.y
  {
  }

  lemma CramerZ(e1: Vector3D, e2: Vector3D, d: Vector3D, s: Vector3D)
    ensures Dot(e1, Cross(d, e2)) * s.z + Dot(e2, Cross(s, e1)) * d.z
            == Dot(s, Cross(d, e2)) * e1.z + Dot(d, Cross(s, e1)) * e2.z
  {
  }

  lemma DivideThrough(det: real, su: real, dq: real, eq: real, s: real, d: real, e1: real, e2: real,
                      u: real, v: real, t: real)
    requires det != 0.0 && det * u == su && det * v == dq && det * t == eq
    requires det * s + eq * d == su * e1 + dq * e2
    ensures s + d * t == e1 * u + e2 * v
  {
    assert det * (s + d * t) == det * (e1 * u + e2 * v);
    assert s + d * t == (det * (s + d * t)) / det;
  }

  /** Each computed quantity times the determinant is its Cramer numerator. */
  lemma WeightUTimesDeterminant(ray: Rays.Ray, tri: Triangles.Triangle)
    requires Determinant(ray, tri) != 0.0
    ensures Determinant(ray, tri) * WeightU(ray, tri)
            == Dot(Minus(ray.origin, tri.a), Cross(ray.direction, Minus(tri.c, tri.a)))
  {
    TimesQuotient(Determinant(ray, tri), Dot(Minus(ray.origin, tri.a), Cross(ray.direction, Minus(tri.c, tri.a))), WeightU(ray, tri));
  }

  lemma WeightVTimesDeterminant(ray: Rays.Ray, tri: Triangles.Triangle)
    requires Determinant(ray, tri) != 0.0
    ensures Determinant(ray, tri) * WeightV(ray, tri)
            == Dot(ray.direction, Cross(Minus(ray.origin, tri.a), Minus(tri.b, tri.a)))
  {
    TimesQuotient(Determinant(ray, tri), Dot(ray.direction, Cross(Minus(ray.origin, tri.a), Minus(tri.b, tri.a))), WeightV(ray, tri));
  }

  lemma DistanceTimesDeterminant(ray: Rays.Ray, tri: Triangles.Triangle)
    requires Determinant(ray, tri) != 0.0
    ensures Determinant(ray, tri) * Distance(ray, tri)
            == Dot(Minus(tri.c, tri.a), Cross(Minus(ray.origin, tri.a), Minus(tri.b, tri.a)))
  {
    TimesQuotient(Determinant(ray, tri), Dot(Minus(tri.c, tri.a), Cross(Minus(ray.origin, tri.a), Minus(tri.b, tri.a))), Distance(ray, tri));
  }

  lemma TimesQuotient(det: real, p: real, w: real)
    requires det != 0.0 && w == p / det
    ensures det * w == p
  {
  }

  /**
   * Wherever the ray crosses the triangle's plane, the point there is
   * `a + u (b - a) + v (c - a)` for the computed weights; in particular the
   * parameter `RayTriangle` reports is where the ray meets the triangle.
   */
  lemma RayTriangleHitPoint(ray: Rays.Ray, tri: Triangles.Triangle)
    requires Determinant(ray, tri) != 0.0
    ensures Rays.PointAt(ray, Distance(ray, tri)) == Triangles.Combination(tri, WeightU(ray, tri), WeightV(ray, tri))
  {
    WeightUTimesDeterminant(ray, tri);
    WeightVTimesDeterminant(ray, tri);
    DistanceTimesDeterminant(ray, tri);
    SolutionOfNumerators(Minus(tri.b, tri.a), Minus(tri.c, tri.a), ray.direction, Minus(ray.origin, tri.a),
                         WeightU(ray, tri), WeightV(ray, tri), Distance(ray, tri));
    HitPointOfSolution(ray, tri, WeightU(ray, tri), WeightV(ray, tri), Distance(ray, tri));
  }

  /** Cramer's rule divided by `det`: the offset `s` is `u e1 + v e2 - t d`. */
  lemma SolutionOfNumerators(e1: Vector3D, e2: Vector3D, d: Vector3D, s: Vector3D, u: real, v: real, t: real)
    requires Dot(e1, Cross(d, e2)) != 0.0
    requires Dot(e1, Cross(d, e2)) * u == Dot(s, Cross(d, e2))
    requires Dot(e1, Cross(d, e2)) * v == Dot(d, Cross(s, e1))
    requires Dot(e1, Cross(d, e2)) * t == Dot(e2, Cross(s, e1))
    ensures s == Solution(e1, e2, d, u, v, t)
  {
    OffsetOfNumerators(e1, e2, d, s, u, v, t);
  }

  /** The converse of `SolutionOfHitPoint`: a solution of `o - a = u e1 + v e2 - t d` gives the hit point. */
  lemma HitPointOfSolution(ray: Rays.Ray, tri: Triangles.Triangle, u: real, v: real, t: real)
    requires Minus(ray.origin, tri.a) == Solution(Minus(tri.b, tri.a), Minus(tri.c, tri.a), ray.direction, u, v, t)
    ensures Rays.PointAt(ray, t) == Triangles.Combination(tri, u, v)
  {
    var o, d, a, b, c := ray.origin, ray.direction, tri.a, tri.b, tri.c;
    assert o.x - a.x == (b.x - a.x) * u + (c.x - a.x) * v - d.x * t;
    assert o.y - a.y == (b.y - a.y) * u + (c.y - a.y) * v - d.y * t;
    assert o.z - a.z == (b.z - a.z) * u + (c.z - a.z) * v - d.z * t;
  }

  /** Dividing Cramer's rule by `det`: `s + t d = u e1 + v e2`. */
  lemma OffsetOfNumerators(e1: Vector3D, e2: Vector3D, d: Vector3D, s: Vector3D, u: real, v: real, t: real)
    requires Dot(e1, Cross(d, e2)) != 0.0
    requires Dot(e1, Cross(d, e2)) * u == Dot(s, Cross(d, e2))
    requires Dot(e1, Cross(d, e2)) * v == Dot(d, Cross(s, e1))
    requires Dot(e1, Cross(d, e2)) * t == Dot(e2, Cross(s, e1))
    ensures s.x + d.x * t == e1.x * u + e2.x * v
    ensures s.y + d.y * t == e1.y * u + e2.y * v
    ensures s.z + d.z * t == e1.z * u + e2.z * v
  {
    CramerX(e1, e2, d, s);
    CramerY(e1, e2, d, s);
    CramerZ(e1, e2, d, s);
    DivideAll(Dot(e1, Cross(d, e2)), Dot(s, Cross(d, e2)), Dot(d, Cross(s, e1)), Dot(e2, Cross(s, e1)),
              s.x, s.y, s.z, d.x, d.y, d.z, e1.x, e1.y, e1.z, e2.x, e2.y, e2.z, u, v, t);
  }

  lemma DivideAll(det: real, su: real, dq: real, eq: real, sx: real, sy: real, sz: real, dx: real, dy: real, dz: real,
                  e1x: real, e1y: real, e1z: real, e2x: real, e2y: real, e2z: real, u: real, v: real, t: real)
    requires det != 0.0 && det * u == su && det * v == dq && det * t == eq
    requires det * sx + eq * dx == su * e1x + dq * e2x
    requires det * sy + eq * dy == su * e1y + dq * e2y
    requires det * sz + eq * dz == su * e1z + dq * e2z
    ensures sx + dx * t == e1x * u + e2x * v
    ensures sy + dy * t == e1y * u + e2y * v
    ensures sz + dz * t == e1z * u + e2z * v
  {
    DivideThrough(det, su, dq, eq, sx, dx, e1x, e2x, u, v, t);
    DivideThrough(det, su, dq, eq, sy, dy, e1y, e2y, u, v, t);
    DivideThrough(det, su, dq, eq, sz, dz, e1z, e2z, u, v, t);
  }

  /**
   * The converse of `RayTriangleHitPoint`: when the ray is not parallel and
   * meets the triangle at a point `a + u (b - a) + v (c - a)` with `u`, `v`
   * in the triangle and `t` strictly ahead, the test reports exactly `t`.
   */
  lemma RayTriangleFindsEveryHit(ray: Rays.Ray, tri: Triangles.Triangle, u: real, v: real, t: real)
    requires !ApproxZero(Determinant(ray, tri))
    requires 0.0 <= u <= 1.0 && v >= 0.0 && u + v <= 1.0 && t > 0.0
    requires Rays.PointAt(ray, t) == Triangles.Combination(tri, u, v)
    ensures RayTriangle(ray, tri) == Some(t)
  {
    WeightsOfHit(ray, tri, u, v, t);
  }

  /** At a crossing `a + u (b - a) + v (c - a)` of parameter `t`, the computed weights and distance are `u`, `v`, `t`. */
  lemma WeightsOfHit(ray: Rays.Ray, tri: Triangles.Triangle, u: real, v: real, t: real)
    requires Determinant(ray, tri) != 0.0
    requires Rays.PointAt(ray, t) == Triangles.Combination(tri, u, v)
    ensures WeightU(ray, tri) == u && WeightV(ray, tri) == v && Distance(ray, tri) == t
  {
    var e1, e2, s, d := Minus(tri.b, tri.a), Minus(tri.c, tri.a), Minus(ray.origin, tri.a), ray.direction;
    SolutionOfHitPoint(ray, tri, u, v, t);
    NumeratorOfU(e1, e2, d, s, u, v, t);
    NumeratorOfV(e1, e2, d, s, u, v, t);
    NumeratorOfT(e1, e2, d, s, u, v, t);
    QuotientOfProduct(Determinant(ray, tri), Dot(s, Cross(d, e2)), u);
    QuotientOfProduct(Determinant(ray, tri), Dot(d, Cross(s, e1)), v);
    QuotientOfProduct(Determinant(ray, tri), Dot(e2, Cross(s, e1)), t);
  }

  /**
   * A triangle with legs of length `p` along `x` and `y` in the plane
   * `z = h`, and a ray climbing along `z` from `k` below the point of
   * weights `u`, `v`: it is hit at `k / s` exactly when `u`, `v` lie in
   * the triangle.
   */
  lemma RayTriangleAxis(ax: real, ay: real, h: real, p: real, s: real, k: real, u: real, v: real)
    requires s > 0.0 && k > 0.0 && Abs(s * (p * p)) >= EPSILON
    ensures RayTriangle(Rays.Ray(Point3D(ax + u * p, ay + v * p, h - k), Vector3D(0.0, 0.0, s)),
                        Triangles.Triangle(Point3D(ax, ay, h), Point3D(ax + p, ay, h), Point3D(ax, ay + p, h)))
            == if 0.0 <= u <= 1.0 && v >= 0.0 && u + v <= 1.0 then Some(k / s) else None
  {
    var ray := Rays.Ray(Point3D(ax + u * p, ay + v * p, h - k), Vector3D(0.0, 0.0, s));
    var tri := Triangles.Triangle(Point3D(ax, ay, h), Point3D(ax + p, ay, h), Point3D(ax, ay + p, h));
    AxisDeterminant(ax, ay, h, p, s, k, u, v);
    AxisHitPoint(ax, ay, h, p, s, k, u, v);
    WeightsOfHit(ray, tri, u, v, k / s);
    assert k / s > 0.0;
  }

  lemma AxisDeterminant(ax: real, ay: real, h: real, p: real, s: real, k: real, u: real, v: real)
    ensures Determinant(Rays.Ray(Point3D(ax + u * p, ay + v * p, h - k), Vector3D(0.0, 0.0, s)),
                        Triangles.Triangle(Point3D(ax, ay, h), Point3D(ax + p, ay, h), Point3D(ax, ay + p, h)))
            == -(s * (p * p))
  {
  }

  lemma AxisHitPoint(ax: real, ay: real, h: real, p: real, s: real, k: real, u: real, v: real)
    requires s > 0.0
    ensures Rays.PointAt(Rays.Ray(Point3D(ax + u * p, ay + v * p, h - k), Vector3D(0.0, 0.0, s)), k / s)
            == Triangles.Combination(Triangles.Triangle(Point3D(ax, ay, h), Point3D(ax + p, ay, h), Point3D(ax, ay + p, h)), u, v)
  {
    assert s * (k / s) == k;
  }

  /** `u e1 + v e2 - t d`, the offset from `a` that the hit-point equation gives. */
  function Solution(e1: Vector3D, e2: Vector3D, d: Vector3D, u: real, v: real, t: real): Vector3D
  {
    Sub(Add(Scale(e1, u), Scale(e2, v)), Scale(d, t))
  }

  /** The hit-point equation read back as `o - a = u e1 + v e2 - t d`. */
  lemma SolutionOfHitPoint(ray: Rays.Ray, tri: Triangles.Triangle, u: real, v: real, t: real)
    requires Rays.PointAt(ray, t) == Triangles.Combination(tri, u, v)
    ensures Minus(ray.origin, tri.a) == Solution(Minus(tri.b, tri.a), Minus(tri.c, tri.a), ray.direction, u, v, t)
  {
    var o, d, a, b, c := ray.origin, ray.direction, tri.a, tri.b, tri.c;
    assert o.x + d.x * t == a.x + ((b.x - a.x) * u + (c.x - a.x) * v);
    assert o.y + d.y * t == a.y + ((b.y - a.y) * u + (c.y - a.y) * v);
    assert o.z + d.z * t == a.z + ((b.z - a.z) * u + (c.z - a.z) * v);
  }

  /** With `s = u e1 + v e2 - t d`, Cramer's numerators are `u`, `v` and `t` times `det = e1 · (d × e2)`. */
  lemma NumeratorOfU(e1: Vector3D, e2: Vector3D, d: Vector3D, s: Vector3D, u: real, v: real, t: real)
    requires s == Solution(e1, e2, d, u, v, t)
    ensures Dot(s, Cross(d, e2)) == Dot(e1, Cross(d, e2)) * u
  {
    DotOfSolution(e1, e2, d, Cross(d, e2), u, v, t);
    TripleRepeatedFirst(d, e2);
    TripleRepeatedSecond(d, e2);
  }

  lemma NumeratorOfV(e1: Vector3D, e2: Vector3D, d: Vector3D, s: Vector3D, u: real, v: real, t: real)
    requires s == Solution(e1, e2, d, u, v, t)
    ensures Dot(d, Cross(s, e1)) == Dot(e1, Cross(d, e2)) * v
  {
    TripleRotate(d, s, e1);
    DotOfSolution(e1, e2, d, Cross(e1, d), u, v, t);
    TripleRepeatedFirst(e1, d);
    TripleRepeatedSecond(e1, d);
    TripleRotate(e2, e1, d);
  }

  lemma NumeratorOfT(e1: Vector3D, e2: Vector3D, d: Vector3D, s: Vector3D, u: real, v: real, t: real)
    requires s == Solution(e1, e2, d, u, v, t)
    ensures Dot(e2, Cross(s, e1)) == Dot(e1, Cross(d, e2)) * t
  {
    TripleRotate(e2, s, e1);
    DotOfSolution(e1, e2, d, Cross(e1, e2), u, v, t);
    TripleRepeatedFirst(e1, e2);
    TripleRepeatedSecond(e1, e2);
    TripleRotate(d, e1, e2);
    TripleSwap(e1, d, e2);
    NegatedFactor(Dot(d, Cross(e1, e2)), Dot(e1, Cross(d, e2)), t);
  }

  lemma DotOfSolution(e1: Vector3D, e2: Vector3D, d: Vector3D, h: Vector3D, u: real, v: real, t: real)
    ensures Dot(Solution(e1, e2, d, u, v, t), h) == Dot(e1, h) * u + Dot(e2, h) * v - Dot(d, h) * t
  {
  }

  /** The scalar triple product is invariant under rotation: `a · (b × c) = b · (c × a)`. */
  lemma TripleRotate(a: Vector3D, b: Vector3D, c: Vector3D)
    ensures Dot(a, Cross(b, c)) == Dot(b, Cross(c, a))
  {
  }

  /** It changes sign when two factors are swapped. */
  lemma TripleSwap(a: Vector3D, b: Vector3D, c: Vector3D)
    ensures Dot(a, Cross(c, b)) == -Dot(a, Cross(b, c))
  {
  }

  /** It vanishes when a factor repeats. */
  lemma TripleRepeatedFirst(a: Vector3D, b: Vector3D)
    ensures Dot(a, Cross(a, b)) == 0.0
  {
  }

  lemma TripleRepeatedSecond(a: Vector3D, b: Vector3D)
    ensures Dot(b, Cross(a, b)) == 0.0
  {
  }

  lemma NegatedFactor(y: real, det: real, t: real)
    requires y == -det
    ensures -(y * t) == det * t
  {
  }

  lemma QuotientOfProduct(det: real, p: real, w: real)
    requires det != 0.0 && p == det * w
    ensures p / det == w
  {
  }

  // ---------------------------------------------------------------------
  // Ray against box (the slab method)

  /** A bound on the ray parameter; `Unbounded` is negative infinity for a lower and positive infinity for an upper bound. */
  datatype Bound = Unbounded | At(t: real)

  /** Coordinate `i` of a point: `x`, `y`, and `z` for every other index. */
  function Coordinate(p: Point3D, i: nat): real
  {
    if i == 0 then p.x else if i == 1 then p.y else p.z
  }

  /** Component `i` of a vector, chosen as `Coordinate` chooses. */
  function Component(v: Vector3D, i: nat): real
  {
    if i == 0 then v.x else if i == 1 then v.y else v.z
  }

  /** `tmin.max(t)`. */
  function RaiseLower(lo: Bound, t: real): (r: Bound)
    ensures r.At? && r.t >= t
  {
    if lo.Unbounded? then At(t) else At(Max(lo.t, t))
  }

  /** `tmax.min(t)`. */
  function LowerUpper(hi: Bound, t: real): (r: Bound)
    ensures r.At? && r.t <= t
  {
    if hi.Unbounded? then At(t) else At(Min(hi.t, t))
  }

  /** `tmin > tmax`; an infinite bound is never past the other one. */
  predicate Crossed(lo: Bound, hi: Bound)
  {
    lo.At? && hi.At? && lo.t > hi.t
  }

  /** `t` lies between a lower and an upper bound, both inclusive. */
  predicate Within(lo: Bound, hi: Bound, t: real)
  {
    (lo.Unbounded? || lo.t <= t) && (hi.Unbounded? || t <= hi.t)
  }

  /**
   * One pass of the loop, on an axis where the origin has coordinate `o`,
   * the direction component `d` and the box the range `mn` to `mx`: a ray
   * nearly parallel to the slab is rejected when its origin lies outside
   * it, and otherwise the slab's entry and exit parameters narrow the
   * bounds.
   */
  function ClipAxis(o: real, d: real, mn: real, mx: real, lo: Bound, hi: Bound): Option<(Bound, Bound)>
  {
    if ApproxZero(d) then
      if o < mn || o > mx then None else Some((lo, hi))
    else
      var (near, far) := Entry(o, d, mn, mx);
      var lo', hi' := RaiseLower(lo, near), LowerUpper(hi, far);
      if Crossed(lo', hi') then None else Some((lo', hi'))
  }

  /** The parameters where the ray enters and leaves the slab, in that order. */
  function Entry(o: real, d: real, mn: real, mx: real): (real, real)
    requires d != 0.0
  {
    var t0, t1 := (mn - o) * (1.0 / d), (mx - o) * (1.0 / d);
    if t0 > t1 then (t1, t0) else (t0, t1)
  }

  /** `Entry` computed the way the loop computes it, through the reciprocal of the direction. */
  lemma SortedEntry(o: real, d: real, mn: real, mx: real, t0: real, t1: real)
    requires d != 0.0 && t0 == (mn - o) * (1.0 / d) && t1 == (mx - o) * (1.0 / d)
    ensures Entry(o, d, mn, mx) == if t0 > t1 then (t1, t0) else (t0, t1)
  {
  }

  /** The bounds after the first `n` axes, or `None` once one of them has rejected the ray. */
  function Clipped(ray: Rays.Ray, box: Boxes.AABB, n: nat): Option<(Bound, Bound)>
  {
    if n == 0 then Some((Unbounded, Unbounded))
    else
      var prev := Clipped(ray, box, n - 1);
      if prev.None? then None
      else ClipAxis(Coordinate(ray.origin, n - 1), Component(ray.direction, n - 1),
                    Coordinate(box.min, n - 1), Coordinate(box.max, n - 1), prev.value.0, prev.value.1)
  }

  /** The interval of parameters inside the box, dropped when it lies wholly behind the origin. */
  function SlabHits(ray: Rays.Ray, box: Boxes.AABB): Option<(Bound, Bound)>
  {
    var c := Clipped(ray, box, 3);
    if c.None? then None
    else if c.value.1.At? && c.value.1.t < 0.0 then None
    else c
  }

  /** The slab test over the three axes, leaving the loop as soon as an axis rejects the ray. */
  method RayAabb(ray: Rays.Ray, box: Boxes.AABB) returns (r: Option<(Bound, Bound)>)
    ensures r == SlabHits(ray, box)
  {
    var tmin, tmax := Unbounded, Unbounded;
    for i := 0 to 3
      invariant Clipped(ray, box, i) == Some((tmin, tmax))
    {
      var o, d := Coordinate(ray.origin, i), Component(ray.direction, i);
      var mn, mx := Coordinate(box.min, i), Coordinate(box.max, i);
      assert Clipped(ray, box, i + 1) == ClipAxis(o, d, mn, mx, tmin, tmax);
      if ApproxZero(d) {
        if o < mn || o > mx {
          RejectionIsFinal(ray, box, i + 1);
          return None;
        }
      } else {
        ghost var lo, hi := tmin, tmax;
        var inv := 1.0 / d;
        var t0 := (mn - o) * inv;
        var t1 := (mx - o) * inv;
        SortedEntry(o, d, mn, mx, t0, t1);
        if t0 > t1 {
          t0, t1 := t1, t0;
        }
        assert (t0, t1) == Entry(o, d, mn, mx);
        tmin := RaiseLower(tmin, t0);
        tmax := LowerUpper(tmax, t1);
        if Crossed(tmin, tmax) {
          assert ClipAxis(o, d, mn, mx, lo, hi).None?;
          RejectionIsFinal(ray, box, i + 1);
          return None;
        }
        assert ClipAxis(o, d, mn, mx, lo, hi) == Some((tmin, tmax));
      }
    }
    if tmax.At? && tmax.t < 0.0 {
      return None;
    }
    return Some((tmin, tmax));
  }

  /** Once an axis has rejected the ray, so have all later ones. */
  lemma {:induction false} RejectionIsFinal(ray: Rays.Ray, box: Boxes.AABB, n: nat)
    requires 1 <= n <= 3 && Clipped(ray, box, n).None?
    ensures Clipped(ray, box, 3).None?
    decreases 3 - n
  {
    if n < 3 {
      RejectionIsFinal(ray, box, n + 1);
    }
  }

  /**
   * Parameter `t` is in the slab from `mn` to `mx` of an axis: for an axis
   * the ray runs nearly parallel to, the origin lies in the slab; otherwise
   * so does the point at `t`.
   */
  predicate InSlab(o: real, d: real, mn: real, mx: real, t: real)
  {
    mn <= SlabCoordinate(o, d, t) <= mx
  }

  /** The coordinate the slab test examines at parameter `t`: the origin's on a nearly parallel axis. */
  function SlabCoordinate(o: real, d: real, t: real): real
  {
    if ApproxZero(d) then o else o + d * t
  }

  /** Parameter `t` is in each of the first `n` slabs of the box. */
  predicate InSlabs(ray: Rays.Ray, box: Boxes.AABB, n: nat, t: real)
  {
    n == 0
    || (InSlabs(ray, box, n - 1, t)
        && InSlab(Coordinate(ray.origin, n - 1), Component(ray.direction, n - 1),
                  Coordinate(box.min, n - 1), Coordinate(box.max, n - 1), t))
  }

  /** `q * inv <= t` and `t <= q * inv` turned into comparisons with `d * t`, for `inv = 1 / d`. */
  lemma ScaledComparison(q: real, d: real, t: real)
    requires d != 0.0
    ensures d > 0.0 ==> (q * (1.0 / d) <= t <==> q <= d * t) && (t <= q * (1.0 / d) <==> d * t <= q)
    ensures d < 0.0 ==> (q * (1.0 / d) <= t <==> d * t <= q) && (t <= q * (1.0 / d) <==> q <= d * t)
  {
    var inv := 1.0 / d;
    assert d * inv == 1.0;
    assert d * (q * inv) == q;
    if d > 0.0 {
      assert inv > 0.0;
      ProductOrder(d, q * inv, t);
    } else {
      assert inv < 0.0;
      ProductOrder(-d, t, q * inv);
    }
  }

  /** Multiplying by a positive factor preserves order both ways. */
  lemma ProductOrder(k: real, x: real, y: real)
    requires k > 0.0
    ensures x <= y <==> k * x <= k * y
  {
    if x <= y {
      assert k * (y - x) >= 0.0;
    } else {
      assert k * (x - y) > 0.0;
    }
  }

  /** On an axis the ray is not parallel to, the entry and exit parameters bound exactly the parameters in the slab. */
  lemma EntryInterval(o: real, d: real, mn: real, mx: real, t: real)
    requires !ApproxZero(d) && mn <= mx
    ensures Entry(o, d, mn, mx).0 <= t <= Entry(o, d, mn, mx).1 <==> InSlab(o, d, mn, mx, t)
  {
    ScaledComparison(mn - o, d, t);
    ScaledComparison(mx - o, d, t);
    ScaledComparison(mx - o - (mn - o), d, 0.0);
  }

  /** Raising the lower bound to `near` and lowering the upper one to `far` intersects the bounds with `[near, far]`. */
  lemma NarrowBounds(lo: Bound, hi: Bound, near: real, far: real)
    ensures forall t :: Within(RaiseLower(lo, near), LowerUpper(hi, far), t) <==> Within(lo, hi, t) && near <= t <= far
    ensures Crossed(RaiseLower(lo, near), LowerUpper(hi, far)) ==> forall t :: !(Within(lo, hi, t) && near <= t <= far)
  {
  }

  /**
   * One pass of the loop keeps the bounds exact: the new bounds (if any)
   * hold exactly the parameters that were within the old ones and in the
   * slab, and they do not cross.
   */
  lemma ClipAxisExact(o: real, d: real, mn: real, mx: real, lo: Bound, hi: Bound)
    requires mn <= mx && !Crossed(lo, hi)
    ensures ClipAxis(o, d, mn, mx, lo, hi).None? ==> forall t :: !(Within(lo, hi, t) && InSlab(o, d, mn, mx, t))
    ensures ClipAxis(o, d, mn, mx, lo, hi).Some? ==>
              var (lo', hi') := ClipAxis(o, d, mn, mx, lo, hi).value;
              !Crossed(lo', hi') && forall t :: Within(lo', hi', t) <==> Within(lo, hi, t) && InSlab(o, d, mn, mx, t)
  {
    if !ApproxZero(d) {
      var (near, far) := Entry(o, d, mn, mx);
      NarrowBounds(lo, hi, near, far);
      forall t
        ensures InSlab(o, d, mn, mx, t) <==> near <= t <= far
      {
        EntryInterval(o, d, mn, mx, t);
      }
    }
  }

  /**
   * The loop's invariant, stated as what the bounds mean: after `n` axes
   * the bounds hold exactly the parameters in the first `n` slabs, and a
   * rejection means no parameter is in all of them.
   */
  lemma {:induction false} ClippedExact(ray: Rays.Ray, box: Boxes.AABB, n: nat)
    requires Boxes.Ordered(box)
    ensures Clipped(ray, box, n).None? ==> forall t :: !InSlabs(ray, box, n, t)
    ensures Clipped(ray, box, n).Some? ==>
              var (lo, hi) := Clipped(ray, box, n).value;
              !Crossed(lo, hi) && forall t :: InSlabs(ray, box, n, t) <==> Within(lo, hi, t)
  {
    if n > 0 {
      ClippedExact(ray, box, n - 1);
      var prev := Clipped(ray, box, n - 1);
      if prev.Some? {
        assert Coordinate(box.min, n - 1) <= Coordinate(box.max, n - 1);
        ClipAxisExact(Coordinate(ray.origin, n - 1), Component(ray.direction, n - 1),
                      Coordinate(box.min, n - 1), Coordinate(box.max, n - 1), prev.value.0, prev.value.1);
      }
    }
  }

  /**
   * When the box is ordered, `SlabHits` is exact: it rejects the ray
   * exactly when no parameter at or ahead of the origin is in all three
   * slabs, and otherwise reports bounds that do not cross, an upper bound
   * not behind the origin, and exactly the parameters in all three slabs.
   */
  lemma SlabHitsExact(ray: Rays.Ray, box: Boxes.AABB)
    requires Boxes.Ordered(box)
    ensures SlabHits(ray, box).None? ==> forall t :: t >= 0.0 ==> !InSlabs(ray, box, 3, t)
    ensures SlabHits(ray, box).Some? ==>
              var (lo, hi) := SlabHits(ray, box).value;
              !Crossed(lo, hi) && (hi.Unbounded? || hi.t >= 0.0)
              && (exists t :: t >= 0.0 && InSlabs(ray, box, 3, t))
              && forall t :: InSlabs(ray, box, 3, t) <==> Within(lo, hi, t)
  {
    ClippedExact(ray, box, 3);
    var c := Clipped(ray, box, 3);
    if c.Some? {
      var (lo, hi) := c.value;
      if hi.Unbounded? || hi.t >= 0.0 {
        var w := if lo.At? then Max(lo.t, 0.0) else 0.0;
        assert Within(lo, hi, w);
        assert InSlabs(ray, box, 3, w);
      } else {
        forall t | InSlabs(ray, box, 3, t)
          ensures t < 0.0
        {
          assert Within(lo, hi, t);
        }
      }
    }
  }

  /** For any box, ordered or not, reported bounds do not cross and the upper one is not behind the origin. */
  lemma SlabHitsBounds(ray: Rays.Ray, box: Boxes.AABB)
    ensures SlabHits(ray, box).Some? ==>
              !Crossed(SlabHits(ray, box).value.0, SlabHits(ray, box).value.1)
              && (SlabHits(ray, box).value.1.Unbounded? || SlabHits(ray, box).value.1.t >= 0.0)
  {
    ClippedNotCrossed(ray, box, 3);
  }

  lemma {:induction false} ClippedNotCrossed(ray: Rays.Ray, box: Boxes.AABB, n: nat)
    ensures Clipped(ray, box, n).Some? ==> !Crossed(Clipped(ray, box, n).value.0, Clipped(ray, box, n).value.1)
  {
    if n > 0 {
      ClippedNotCrossed(ray, box, n - 1);
    }
  }

  /** A ray nearly parallel to an axis whose origin lies outside that axis's slab misses the box. */
  lemma ParallelOutsideMisses(ray: Rays.Ray, box: Boxes.AABB, i: nat)
    requires i < 3 && ApproxZero(Component(ray.direction, i))
    requires Coordinate(ray.origin, i) < Coordinate(box.min, i) || Coordinate(ray.origin, i) > Coordinate(box.max, i)
    ensures SlabHits(ray, box).None?
  {
    if Clipped(ray, box, i).None? {
      RejectionIsFinal(ray, box, i);
    } else {
      RejectionIsFinal(ray, box, i + 1);
    }
  }

  /** Every direction component is either exactly zero or at least `EPSILON` in magnitude. */
  predicate NoNearZeroComponent(v: Vector3D)
  {
    (v.x == 0.0 || !ApproxZero(v.x)) && (v.y == 0.0 || !ApproxZero(v.y)) && (v.z == 0.0 || !ApproxZero(v.z))
  }

  /**
   * For such a direction the three slabs are the box: the point at `t` is
   * in the box exactly when `t` is in every slab.  (A nonzero component
   * below `EPSILON` is treated as parallel, so only the origin is compared on
   * that axis.)
   */
  lemma InSlabsIsContainment(ray: Rays.Ray, box: Boxes.AABB, t: real)
    requires NoNearZeroComponent(ray.direction)
    ensures InSlab(ray.origin.x, ray.direction.x, box.min.x, box.max.x, t)
            && InSlab(ray.origin.y, ray.direction.y, box.min.y, box.max.y, t)
            && InSlab(ray.origin.z, ray.direction.z, box.min.z, box.max.z, t)
            <==> Boxes.ContainsPoint(box, Rays.PointAt(ray, t))
  {
    var o, d, p := ray.origin, ray.direction, Rays.PointAt(ray, t);
    SlabIsRange(o.x, d.x, t);
    SlabIsRange(o.y, d.y, t);
    SlabIsRange(o.z, d.z, t);
    assert SlabCoordinate(o.x, d.x, t) == p.x;
    assert SlabCoordinate(o.y, d.y, t) == p.y;
    assert SlabCoordinate(o.z, d.z, t) == p.z;
  }

  lemma SlabIsRange(o: real, d: real, t: real)
    requires d == 0.0 || !ApproxZero(d)
    ensures SlabCoordinate(o, d, t) == o + d * t
  {
    if ApproxZero(d) {
      assert d * t == 0.0;
    }
  }

  /** The three slabs one by one. */
  lemma InSlabsOfThree(ray: Rays.Ray, box: Boxes.AABB, t: real)
    ensures InSlabs(ray, box, 3, t)
            <==> InSlab(ray.origin.x, ray.direction.x, box.min.x, box.max.x, t)
                 && InSlab(ray.origin.y, ray.direction.y, box.min.y, box.max.y, t)
                 && InSlab(ray.origin.z, ray.direction.z, box.min.z, box.max.z, t)
  {
    assert InSlabs(ray, box, 1, t) <==> InSlab(ray.origin.x, ray.direction.x, box.min.x, box.max.x, t);
  }

  /** Every parameter within the reported bounds gives a point of the box. */
  lemma RayAabbHitsTheBox(ray: Rays.Ray, box: Boxes.AABB, t: real)
    requires Boxes.Ordered(box) && NoNearZeroComponent(ray.direction)
    requires SlabHits(ray, box).Some? && Within(SlabHits(ray, box).value.0, SlabHits(ray, box).value.1, t)
    ensures Boxes.ContainsPoint(box, Rays.PointAt(ray, t))
  {
    SlabHitsExact(ray, box);
    InSlabsOfThree(ray, box, t);
    InSlabsIsContainment(ray, box, t);
  }

  /** Every parameter at or ahead of the origin whose point is in the box is reported, within the bounds. */
  lemma RayAabbFindsEveryHit(ray: Rays.Ray, box: Boxes.AABB, t: real)
    requires Boxes.Ordered(box) && NoNearZeroComponent(ray.direction)
    requires t >= 0.0 && Boxes.ContainsPoint(box, Rays.PointAt(ray, t))
    ensures SlabHits(ray, box).Some?
    ensures Within(SlabHits(ray, box).value.0, SlabHits(ray, box).value.1, t)
  {
    SlabHitsExact(ray, box);
    InSlabsOfThree(ray, box, t);
    InSlabsIsContainment(ray, box, t);
  }

  lemma RayAabbHitExample()
    ensures SlabHits(Rays.Ray(Origin(), UnitX()), Boxes.AABB(Point3D(1.0, -1.0, -1.0), Point3D(3.0, 1.0, 1.0)))
            == Some((At(1.0), At(3.0)))
  {
  }

  lemma RayAabbMissExample()
    ensures SlabHits(Rays.Ray(Origin(), UnitX()), Boxes.AABB(Point3D(1.0, 5.0, 5.0), Point3D(3.0, 6.0, 6.0))).None?
  {
  }

  // ---------------------------------------------------------------------
  // Box against box, sphere against sphere

  /** Two boxes overlap exactly when the box overlap test says so. */
  predicate AabbAabb(a: Boxes.AABB, b: Boxes.AABB)
  {
    Boxes.Intersects(a, b)
  }

  /** Two ordered boxes pass the test exactly when they share a point. */
  lemma AabbAabbSharedPoint(a: Boxes.AABB, b: Boxes.AABB)
    requires Boxes.Ordered(a) && Boxes.Ordered(b)
    ensures AabbAabb(a, b) <==> exists p :: Boxes.ContainsPoint(a, p) && Boxes.ContainsPoint(b, p)
  {
    if AabbAabb(a, b) {
      var p := Point3D(Max(a.min.x, b.min.x), Max(a.min.y, b.min.y), Max(a.min.z, b.min.z));
      assert Boxes.ContainsPoint(a, p) && Boxes.ContainsPoint(b, p);
    }
    forall p | Boxes.ContainsPoint(a, p) && Boxes.ContainsPoint(b, p)
      ensures AabbAabb(a, b)
    {
      Boxes.IntersectsSymmetric(a, b, p);
    }
  }

  lemma AabbAabbExamples()
    ensures AabbAabb(Boxes.AABB(Origin(), Point3D(2.0, 2.0, 2.0)), Boxes.AABB(Point3D(1.0, 1.0, 1.0), Point3D(3.0, 3.0, 3.0)))
    ensures !AabbAabb(Boxes.AABB(Origin(), Point3D(1.0, 1.0, 1.0)), Boxes.AABB(Point3D(2.0, 2.0, 2.0), Point3D(3.0, 3.0, 3.0)))
  {
  }

  /** Two spheres overlap when the squared distance between their centers is at most the squared sum of their radii. */
  predicate SphereSphere(s1: Spheres.Sphere, s2: Spheres.Sphere)
  {
    DistanceSquaredTo(s1.center, s2.center) <= (s1.radius + s2.radius) * (s1.radius + s2.radius)
  }

  /** The test does not depend on the order of the spheres, and spheres that just touch pass it. */
  lemma SphereSphereSymmetric(s1: Spheres.Sphere, s2: Spheres.Sphere)
    ensures SphereSphere(s1, s2) <==> SphereSphere(s2, s1)
    ensures DistanceSquaredTo(s1.center, s2.center) == (s1.radius + s2.radius) * (s1.radius + s2.radius) ==> SphereSphere(s1, s2)
  {
    DistanceSquaredIsMagnitude(s1.center, s2.center);
    assert (s1.radius + s2.radius) * (s1.radius + s2.radius) == (s2.radius + s1.radius) * (s2.radius + s1.radius);
  }

  /** With a square root exact at the squared distance, the test compares the distance between the centers with the sum of the radii. */
  lemma SphereSphereByDistance(s1: Spheres.Sphere, s2: Spheres.Sphere, sqrt: real -> real)
    requires s1.radius > 0.0 && s2.radius > 0.0
    requires SqrtAt(sqrt, DistanceSquaredTo(s1.center, s2.center))
    ensures SphereSphere(s1, s2) <==> DistanceTo(s1.center, s2.center, sqrt) <= s1.radius + s2.radius
  {
    Spheres.SquareMonotone(DistanceTo(s1.center, s2.center, sqrt), s1.radius + s2.radius);
  }

  /**
   * Spheres of non-negative radii that pass the test share a point: the
   * point dividing the segment between the centers in the ratio of the
   * radii.
   */
  lemma SphereSphereSharedPoint(s1: Spheres.Sphere, s2: Spheres.Sphere)
    requires s1.radius >= 0.0 && s2.radius >= 0.0 && s1.radius + s2.radius > 0.0
    requires SphereSphere(s1, s2)
    ensures Spheres.ContainsPoint(s1, DividingPoint(s1, s2)) && Spheres.ContainsPoint(s2, DividingPoint(s1, s2))
  {
    RatioParts(s1.radius, s2.radius, s1.radius / (s1.radius + s2.radius));
    DividingPointWithin(s1.center, s2.center, s1.radius, s2.radius, s1.radius / (s1.radius + s2.radius));
  }

  /** The point `c1 + k (c2 - c1)` is within `r1` of `c1` and within `r2` of `c2`, for `k` the share of `r1` in `r1 + r2`. */
  lemma DividingPointWithin(c1: Point3D, c2: Point3D, r1: real, r2: real, k: real)
    requires k * (r1 + r2) == r1 && (1.0 - k) * (r1 + r2) == r2
    requires DistanceSquaredTo(c1, c2) <= (r1 + r2) * (r1 + r2)
    ensures DistanceSquaredTo(c1, Translate(c1, Scale(Minus(c2, c1), k))) <= r1 * r1
    ensures DistanceSquaredTo(c2, Translate(c1, Scale(Minus(c2, c1), k))) <= r2 * r2
  {
    var w, p := Minus(c2, c1), Translate(c1, Scale(Minus(c2, c1), k));
    DividingOffsets(c1, c2, k);
    DistanceSquaredIsMagnitude(c2, c1);
    WithinScaled(p, c1, w, k, r1 + r2, r1);
    WithinScaled(c2, p, w, 1.0 - k, r1 + r2, r2);
  }

  /** The point `c1 + k (c2 - c1)` is `k (c2 - c1)` from `c1` and `(1 - k) (c2 - c1)` short of `c2`. */
  lemma DividingOffsets(c1: Point3D, c2: Point3D, k: real)
    ensures Minus(Translate(c1, Scale(Minus(c2, c1), k)), c1) == Scale(Minus(c2, c1), k)
    ensures Minus(c2, Translate(c1, Scale(Minus(c2, c1), k))) == Scale(Minus(c2, c1), 1.0 - k)
  {
  }

  lemma RatioParts(r1: real, r2: real, k: real)
    requires r1 + r2 > 0.0 && k == r1 / (r1 + r2)
    ensures k * (r1 + r2) == r1 && (1.0 - k) * (r1 + r2) == r2
  {
  }

  /** A point offset by `k w` is within `r` when `|w| <= s` and `k s = r`. */
  lemma WithinScaled(x: Point3D, y: Point3D, w: Vector3D, k: real, s: real, r: real)
    requires Minus(x, y) == Scale(w, k) && MagnitudeSquared(w) <= s * s && k * s == r
    ensures DistanceSquaredTo(x, y) <= r * r && DistanceSquaredTo(y, x) <= r * r
  {
    DistanceSquaredIsMagnitude(x, y);
    ScaledMagnitude(w, k);
    ScaledBound(k, MagnitudeSquared(w), s, r);
  }

  /** `c1 + (c2 - c1) r1 / (r1 + r2)`. */
  function DividingPoint(s1: Spheres.Sphere, s2: Spheres.Sphere): Point3D
    requires s1.radius + s2.radius > 0.0
  {
    Translate(s1.center, Scale(Minus(s2.center, s1.center), s1.radius / (s1.radius + s2.radius)))
  }

  lemma ScaledBound(k: real, m: real, s: real, r: real)
    requires 0.0 <= m <= s * s && k * s == r
    ensures m * (k * k) <= r * r
  {
    assert k * k >= 0.0;
    assert m * (k * k) <= (s * s) * (k * k);
    assert (s * s) * (k * k) == (k * s) * (k * s);
  }

  /**
   * Conversely, spheres of non-negative radii that share a point pass the
   * test: by the Cauchy-Schwarz inequality the centers are at most
   * `r1 + r2` apart.
   */
  lemma SphereSphereOfSharedPoint(s1: Spheres.Sphere, s2: Spheres.Sphere, p: Point3D)
    requires s1.radius >= 0.0 && s2.radius >= 0.0
    requires Spheres.ContainsPoint(s1, p) && Spheres.ContainsPoint(s2, p)
    ensures SphereSphere(s1, s2)
  {
    var a, b := Minus(p, s1.center), Minus(s2.center, p);
    DistanceSquaredIsMagnitude(p, s1.center);
    DistanceSquaredIsMagnitude(s1.center, p);
    DistanceSquaredIsMagnitude(s2.center, p);
    DistanceSquaredIsMagnitude(s2.center, s1.center);
    DistanceSquaredIsMagnitude(s1.center, s2.center);
    assert Add(a, b) == Minus(s2.center, s1.center);
    MagnitudeOfSum(a, b);
    CauchySchwarz(a, b);
    DotBound(Dot(a, b), MagnitudeSquared(a), MagnitudeSquared(b), s1.radius, s2.radius);
  }

  lemma MagnitudeOfSum(a: Vector3D, b: Vector3D)
    ensures MagnitudeSquared(Add(a, b)) == MagnitudeSquared(a) + 2.0 * Dot(a, b) + MagnitudeSquared(b)
  {
  }

  /** Lagrange's identity `|a|^2 |b|^2 = (a . b)^2 + |a x b|^2` gives `(a . b)^2 <= |a|^2 |b|^2`. */
  lemma CauchySchwarz(a: Vector3D, b: Vector3D)
    ensures Dot(a, b) * Dot(a, b) <= MagnitudeSquared(a) * MagnitudeSquared(b)
  {
    assert MagnitudeSquared(a) * MagnitudeSquared(b) == Dot(a, b) * Dot(a, b) + MagnitudeSquared(Cross(a, b));
  }

  /** From `x^2 <= A B` with `A <= r1^2` and `B <= r2^2`: `x <= r1 r2`, and so `A + 2x + B <= (r1 + r2)^2`. */
  lemma DotBound(x: real, ma: real, mb: real, r1: real, r2: real)
    requires x * x <= ma * mb && 0.0 <= ma <= r1 * r1 && 0.0 <= mb <= r2 * r2 && r1 >= 0.0 && r2 >= 0.0
    ensures ma + 2.0 * x + mb <= (r1 + r2) * (r1 + r2)
  {
    assert ma * mb <= (r1 * r1) * mb <= (r1 * r1) * (r2 * r2) == (r1 * r2) * (r1 * r2);
    assert r1 * r2 >= 0.0;
    if x > r1 * r2 {
      SquareStrict(x, r1 * r2);
      assert false;
    }
    assert (r1 + r2) * (r1 + r2) == r1 * r1 + 2.0 * (r1 * r2) + r2 * r2;
  }

  lemma SquareStrict(x: real, q: real)
    requires x > q >= 0.0
    ensures x * x > q * q
  {
    Boxes.PositiveProduct(x - q, x + q);
    assert x * x - q * q == (x - q) * (x + q);
  }

  lemma SphereSphereExamples()
    ensures SphereSphere(Spheres.Sphere(Origin(), 2.0), Spheres.Sphere(Point3D(3.0, 0.0, 0.0), 2.0))
    ensures !SphereSphere(Spheres.Sphere(Origin(), 1.0), Spheres.Sphere(Point3D(10.0, 0.0, 0.0), 1.0))
  {
  }
}
