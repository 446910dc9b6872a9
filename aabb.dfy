/**
 * Axis-aligned bounding boxes.  Only `New` checks that `min < max` on every
 * axis; the boxes derived by `FromPoints`, `Union`, `ExpandByPoint` and
 * `ExpandByScalar` are built directly, so the invariant they keep (when they
 * keep one) is the weak `min <= max` of `Ordered`.
 */
module Boxes {
  import opened Float
  import opened Errors
  import opened Vectors
  import opened Points

  datatype AABB = AABB(min: Point3D, max: Point3D)

  /** The check `New` performs: `min < max` on all three axes. */
  predicate StrictlyOrdered(min: Point3D, max: Point3D)
  {
    min.x < max.x && min.y < max.y && min.z < max.z
  }

  /** The weak invariant that derived boxes keep: `min <= max` on all three axes. */
  predicate Ordered(b: AABB)
  {
    b.min.x <= b.max.x && b.min.y <= b.max.y && b.min.z <= b.max.z
  }

  function New(min: Point3D, max: Point3D): (r: Result<AABB>)
    ensures r.Ok? <==> StrictlyOrdered(min, max)
    ensures r.Ok? ==> r.value == AABB(min, max) && Ordered(r.value)
    ensures r.Err? ==> r.error.InvalidConstruction?
  {
    if min.x >= max.x || min.y >= max.y || min.z >= max.z then
      Err(InvalidConstruction("AABB min must be less than max in all dimensions"))
    else
      Ok(AABB(min, max))
  }

  function MinPoint(p: Point3D, q: Point3D): Point3D
  {
    Point3D(Min(p.x, q.x), Min(p.y, q.y), Min(p.z, q.z))
  }

  function MaxPoint(p: Point3D, q: Point3D): Point3D
  {
    Point3D(Max(p.x, q.x), Max(p.y, q.y), Max(p.z, q.z))
  }

  /** The componentwise minimum of a non-empty list, folded from the front. */
  function Lower(points: seq<Point3D>): (r: Point3D)
    requires |points| > 0
    decreases |points|
  {
    if |points| == 1 then points[0] else MinPoint(Lower(points[..|points| - 1]), points[|points| - 1])
  }

  /** The componentwise maximum of a non-empty list, folded from the front. */
  function Upper(points: seq<Point3D>): (r: Point3D)
    requires |points| > 0
    decreases |points|
  {
    if |points| == 1 then points[0] else MaxPoint(Upper(points[..|points| - 1]), points[|points| - 1])
  }

  /** What `from_points` returns, stated on the whole list. */
  function FromPointsSpec(points: seq<Point3D>): Result<AABB>
  {
    if |points| == 0 then Err(InvalidParameter("Cannot create AABB from empty point list"))
    else if Points.ApproxEqual(Lower(points), Upper(points)) then
      Err(DegenerateCase("All points are identical, cannot create AABB with volume"))
    else Ok(AABB(Lower(points), Upper(points)))
  }

  /** `from_points`: one pass that widens a running box point by point. */
  method FromPoints(points: seq<Point3D>) returns (r: Result<AABB>)
    ensures r == FromPointsSpec(points)
  {
    if |points| == 0 {
      return Err(InvalidParameter("Cannot create AABB from empty point list"));
    }
    var min := points[0];
    var max := points[0];
    var i := 1;
    while i < |points|
      invariant 1 <= i <= |points|
      invariant min == Lower(points[..i]) && max == Upper(points[..i])
    {
      var point := points[i];
      assert points[..i + 1][..i] == points[..i];
      min := min.(x := Min(min.x, point.x));
      min := min.(y := Min(min.y, point.y));
      min := min.(z := Min(min.z, point.z));
      max := max.(x := Max(max.x, point.x));
      max := max.(y := Max(max.y, point.y));
      max := max.(z := Max(max.z, point.z));
      i := i + 1;
    }
    assert points[..i] == points;
    if Points.ApproxEqual(min, max) {
      return Err(DegenerateCase("All points are identical, cannot create AABB with volume"));
    }
    return Ok(AABB(min, max));
  }

  /** Halfway between the corners: the offset from `min` equals the offset to `max`. */
  function Center(b: AABB): (c: Point3D)
    ensures Points.FromPoints(b.min, c) == Points.FromPoints(c, b.max)
  {
    Midpoint(b.min, b.max)
  }

  /** The offset that moves `min` onto `max`. */
  function Size(b: AABB): (s: Vector3D)
    ensures Translate(b.min, s) == b.max
  {
    Points.FromPoints(b.min, b.max)
  }

  function Volume(b: AABB): (v: real)
    ensures Ordered(b) ==> v >= 0.0
  {
    var size := Size(b);
    NonNegativeProducts(size.x, size.y, size.z);
    size.x * size.y * size.z
  }

  function SurfaceArea(b: AABB): (a: real)
    ensures Ordered(b) ==> a >= 0.0
  {
    var size := Size(b);
    NonNegativeProducts(size.x, size.y, size.z);
    2.0 * (size.x * size.y + size.y * size.z + size.z * size.x)
  }

  lemma NonNegativeProducts(a: real, b: real, c: real)
    ensures a >= 0.0 && b >= 0.0 && c >= 0.0 ==>
              a * b >= 0.0 && b * c >= 0.0 && c * a >= 0.0 && a * b * c >= 0.0
  {
    if a >= 0.0 && b >= 0.0 && c >= 0.0 {
      assert a * b >= 0.0;
      assert (a * b) * c >= 0.0;
    }
  }

  function Diagonal(b: AABB, sqrt: real -> real): real
  {
    DistanceTo(b.min, b.max, sqrt)
  }

  /** Inclusive on all six faces; only an ordered box contains any point. */
  predicate ContainsPoint(b: AABB, p: Point3D)
    ensures ContainsPoint(b, p) ==> Ordered(b)
  {
    p.x >= b.min.x && p.x <= b.max.x
    && p.y >= b.min.y && p.y <= b.max.y
    && p.z >= b.min.z && p.z <= b.max.z
  }

  /**
   * Overlap test; boxes that only touch intersect.  Boxes sharing a point
   * pass it, and ordered boxes that pass it share the corner made of the
   * larger `min` coordinates.
   */
  predicate Intersects(a: AABB, b: AABB)
    ensures forall p :: ContainsPoint(a, p) && ContainsPoint(b, p) ==> Intersects(a, b)
    ensures Intersects(a, b) && Ordered(a) && Ordered(b) ==>
              ContainsPoint(a, MaxPoint(a.min, b.min)) && ContainsPoint(b, MaxPoint(a.min, b.min))
  {
    a.min.x <= b.max.x && a.max.x >= b.min.x
    && a.min.y <= b.max.y && a.max.y >= b.min.y
    && a.min.z <= b.max.z && a.max.z >= b.min.z
  }

  /** The componentwise hull of both boxes; ordered as soon as one of them is. */
  function Union(a: AABB, b: AABB): (u: AABB)
    ensures Ordered(a) || Ordered(b) ==> Ordered(u)
  {
    AABB(MinPoint(a.min, b.min), MaxPoint(a.max, b.max))
  }

  /** Widen `b` to take in `p`; the result is ordered whatever `b` is. */
  function ExpandByPoint(b: AABB, p: Point3D): (e: AABB)
    ensures Ordered(e)
  {
    AABB(MinPoint(b.min, p), MaxPoint(b.max, p))
  }

  /** Move every face out by `amount`: same center, each side longer by `2 * amount`. */
  function ExpandByScalar(b: AABB, amount: real): (e: AABB)
    ensures Center(e) == Center(b)
    ensures Size(e) == Add(Size(b), Vector3D(2.0 * amount, 2.0 * amount, 2.0 * amount))
  {
    AABB(Point3D(b.min.x - amount, b.min.y - amount, b.min.z - amount),
         Point3D(b.max.x + amount, b.max.y + amount, b.max.z + amount))
  }

  /** `PartialEq`: both corners approximately equal. */
  predicate ApproxEqual(a: AABB, b: AABB)
  {
    Points.ApproxEqual(a.min, b.min) && Points.ApproxEqual(a.max, b.max)
  }

  // ---------------------------------------------------------------------
  // Properties

  /** `Lower` is below every point of the list and is attained on each axis. */
  lemma {:induction false} LowerIsMinimum(points: seq<Point3D>) returns (ix: nat, iy: nat, iz: nat)
    requires |points| > 0
    ensures forall i :: 0 <= i < |points| ==>
              Lower(points).x <= points[i].x && Lower(points).y <= points[i].y && Lower(points).z <= points[i].z
    ensures ix < |points| && iy < |points| && iz < |points|
    ensures Lower(points).x == points[ix].x && Lower(points).y == points[iy].y && Lower(points).z == points[iz].z
    decreases |points|
  {
    var last := |points| - 1;
    if last == 0 {
      return 0, 0, 0;
    }
    var front := points[..last];
    ix, iy, iz := LowerIsMinimum(front);
    assert forall i :: 0 <= i < |front| ==> front[i] == points[i];
    var l := Lower(points);
    if l.x == points[last].x { ix := last; }
    if l.y == points[last].y { iy := last; }
    if l.z == points[last].z { iz := last; }
  }

  /** `Upper` is above every point of the list and is attained on each axis. */
  lemma {:induction false} UpperIsMaximum(points: seq<Point3D>) returns (ix: nat, iy: nat, iz: nat)
    requires |points| > 0
    ensures forall i :: 0 <= i < |points| ==>
              Upper(points).x >= points[i].x && Upper(points).y >= points[i].y && Upper(points).z >= points[i].z
    ensures ix < |points| && iy < |points| && iz < |points|
    ensures Upper(points).x == points[ix].x && Upper(points).y == points[iy].y && Upper(points).z == points[iz].z
    decreases |points|
  {
    var last := |points| - 1;
    if last == 0 {
      return 0, 0, 0;
    }
    var front := points[..last];
    ix, iy, iz := UpperIsMaximum(front);
    assert forall i :: 0 <= i < |front| ==> front[i] == points[i];
    var u := Upper(points);
    if u.x == points[last].x { ix := last; }
    if u.y == points[last].y { iy := last; }
    if u.z == points[last].z { iz := last; }
  }

  /**
   * The box from a list contains every point of the list and satisfies the
   * weak invariant `min <= max`; the errors are exactly the empty list and
   * coincident corners.
   */
  lemma FromPointsContainsAll(points: seq<Point3D>)
    ensures FromPointsSpec(points).Err? <==>
              |points| == 0 || Points.ApproxEqual(Lower(points), Upper(points))
    ensures |points| == 0 ==> FromPointsSpec(points).Err? && FromPointsSpec(points).error.InvalidParameter?
    ensures FromPointsSpec(points).Ok? ==> Ordered(FromPointsSpec(points).value)
    ensures FromPointsSpec(points).Ok? ==>
              forall i :: 0 <= i < |points| ==> ContainsPoint(FromPointsSpec(points).value, points[i])
  {
    if |points| > 0 {
      var _, _, _ := LowerIsMinimum(points);
      var _, _, _ := UpperIsMaximum(points);
    }
  }

  /** The coincident-corner error is a `DegenerateCase`. */
  lemma FromPointsIdentical(p: Point3D)
    ensures FromPointsSpec([p, p, p]).Err? && FromPointsSpec([p, p, p]).error.DegenerateCase?
  {
    var ps := [p, p, p];
    assert ps[..2] == [p, p];
    assert [p, p][..1] == [p];
    assert Lower([p, p]) == p && Upper([p, p]) == p;
  }

  lemma FromPointsExample()
    ensures FromPointsSpec([Origin(), Point3D(1.0, 2.0, 3.0), Point3D(-1.0, 1.0, 2.0)])
            == Ok(AABB(Point3D(-1.0, 0.0, 0.0), Point3D(1.0, 2.0, 3.0)))
  {
    var ps := [Origin(), Point3D(1.0, 2.0, 3.0), Point3D(-1.0, 1.0, 2.0)];
    var front := [Origin(), Point3D(1.0, 2.0, 3.0)];
    assert ps[..2] == front;
    assert front[..1] == [Origin()];
    assert Lower(front) == Origin() && Upper(front) == Point3D(1.0, 2.0, 3.0);
    assert Lower(ps) == Point3D(-1.0, 0.0, 0.0) && Upper(ps) == Point3D(1.0, 2.0, 3.0);
  }

  /** A box flat on one axis is returned: `from_points` does not enforce `min < max`. */
  lemma FromPointsMayBeFlat()
    ensures FromPointsSpec([Origin(), Point3D(1.0, 1.0, 0.0)]).Ok?
    ensures var b := FromPointsSpec([Origin(), Point3D(1.0, 1.0, 0.0)]).value;
            b.min.z == b.max.z && New(b.min, b.max).Err?
  {
    var ps := [Origin(), Point3D(1.0, 1.0, 0.0)];
    assert ps[..1] == [Origin()];
  }

  lemma NewExamples()
    ensures New(Origin(), Point3D(1.0, 1.0, 1.0)) == Ok(AABB(Origin(), Point3D(1.0, 1.0, 1.0)))
    ensures New(Point3D(1.0, 0.0, 0.0), Point3D(0.0, 1.0, 1.0)).Err?
  {
  }

  /** An ordered box contains its corners and its center, and has non-negative size. */
  lemma CenterContained(b: AABB)
    requires Ordered(b)
    ensures ContainsPoint(b, Center(b))
    ensures ContainsPoint(b, b.min) && ContainsPoint(b, b.max)
    ensures Size(b).x >= 0.0 && Size(b).y >= 0.0 && Size(b).z >= 0.0
  {
  }

  /** The diagonal is the length of the size vector, whatever the square root. */
  lemma DiagonalIsSizeMagnitude(b: AABB, sqrt: real -> real)
    ensures Diagonal(b, sqrt) == Magnitude(Size(b), sqrt)
  {
    var s := Size(b);
    assert (b.min.x - b.max.x) * (b.min.x - b.max.x) == s.x * s.x;
    assert (b.min.y - b.max.y) * (b.min.y - b.max.y) == s.y * s.y;
    assert (b.min.z - b.max.z) * (b.min.z - b.max.z) == s.z * s.z;
    assert DistanceSquaredTo(b.min, b.max) == MagnitudeSquared(s);
  }

  /** A box built by `New` has positive volume and surface area. */
  lemma VolumePositive(min: Point3D, max: Point3D)
    requires New(min, max).Ok?
    ensures Volume(New(min, max).value) > 0.0
    ensures SurfaceArea(New(min, max).value) > 0.0
  {
    var s := Size(AABB(min, max));
    PositiveProduct(s.x, s.y);
    PositiveProduct(s.x * s.y, s.z);
    PositiveProduct(s.y, s.z);
    PositiveProduct(s.z, s.x);
  }

  lemma PositiveProduct(a: real, b: real)
    requires a > 0.0 && b > 0.0
    ensures a * b > 0.0
  {
  }

  lemma VolumeExample()
    ensures Volume(AABB(Origin(), Point3D(2.0, 3.0, 4.0))) == 24.0
    ensures Center(AABB(Origin(), Point3D(2.0, 2.0, 2.0))) == Point3D(1.0, 1.0, 1.0)
  {
    var s := Size(AABB(Origin(), Point3D(2.0, 3.0, 4.0)));
    assert s == Vector3D(2.0, 3.0, 4.0);
    assert s.x * s.y * s.z == 24.0;
  }

  lemma ContainsExamples()
    ensures ContainsPoint(AABB(Origin(), Point3D(1.0, 1.0, 1.0)), Point3D(0.5, 0.5, 0.5))
    ensures !ContainsPoint(AABB(Origin(), Point3D(1.0, 1.0, 1.0)), Point3D(2.0, 0.5, 0.5))
  {
  }

  /** Overlap is symmetric, a box meets itself when ordered, and a shared point implies overlap. */
  lemma IntersectsSymmetric(a: AABB, b: AABB, p: Point3D)
    ensures Intersects(a, b) <==> Intersects(b, a)
    ensures Ordered(a) ==> Intersects(a, a)
    ensures ContainsPoint(a, p) && ContainsPoint(b, p) ==> Intersects(a, b)
  {
  }

  lemma IntersectsExamples()
    ensures Intersects(AABB(Origin(), Point3D(1.0, 1.0, 1.0)), AABB(Point3D(0.5, 0.5, 0.5), Point3D(1.5, 1.5, 1.5)))
    ensures !Intersects(AABB(Origin(), Point3D(1.0, 1.0, 1.0)), AABB(Point3D(2.0, 0.0, 0.0), Point3D(3.0, 1.0, 1.0)))
    ensures Intersects(AABB(Origin(), Point3D(1.0, 1.0, 1.0)), AABB(Point3D(1.0, 0.0, 0.0), Point3D(2.0, 1.0, 1.0)))
  {
  }

  /** The union contains every point of either box and keeps the weak invariant. */
  lemma UnionContainsBoth(a: AABB, b: AABB, p: Point3D)
    ensures ContainsPoint(a, p) || ContainsPoint(b, p) ==> ContainsPoint(Union(a, b), p)
    ensures Ordered(a) ==> ContainsPoint(Union(a, b), a.min) && ContainsPoint(Union(a, b), a.max)
    ensures Ordered(b) ==> ContainsPoint(Union(a, b), b.min) && ContainsPoint(Union(a, b), b.max)
    ensures Ordered(a) || Ordered(b) ==> Ordered(Union(a, b))
  {
  }

  /** Expanding by a point contains that point and everything the box contained. */
  lemma ExpandByPointContains(b: AABB, p: Point3D, q: Point3D)
    ensures ContainsPoint(ExpandByPoint(b, p), p)
    ensures ContainsPoint(b, q) ==> ContainsPoint(ExpandByPoint(b, p), q)
    ensures Ordered(b) ==> ContainsPoint(ExpandByPoint(b, p), b.min) && ContainsPoint(ExpandByPoint(b, p), b.max)
    ensures Ordered(ExpandByPoint(b, p))
  {
  }

  /** A non-negative amount grows the box; a negative one can invert it. */
  lemma ExpandByScalarLaws(b: AABB, amount: real, q: Point3D)
    ensures amount >= 0.0 && Ordered(b) ==> Ordered(ExpandByScalar(b, amount))
    ensures amount >= 0.0 && ContainsPoint(b, q) ==> ContainsPoint(ExpandByScalar(b, amount), q)
    ensures ExpandByScalar(ExpandByScalar(b, amount), -amount) == b
  {
  }

  lemma ExpandByScalarInverts()
    ensures !Ordered(ExpandByScalar(AABB(Origin(), Point3D(1.0, 1.0, 1.0)), -1.0))
  {
  }
}
