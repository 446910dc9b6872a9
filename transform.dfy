/**
 * The `Transformable` laws: translation by a vector and uniform scaling about
 * a center, for points, segments, spheres, boxes and triangles. Each shape is
 * rebuilt through its checked constructor and the result is unwrapped with
 * `expect`, which panics when the transformed shape is degenerate; each
 * operation therefore requires exactly the condition that constructor checks,
 * and the lemmas say when that condition holds.
 */
module Transforms {
  import opened Float
  import opened Vectors
  import opened Points
  import Segments
  import Spheres
  import Boxes
  import Triangles
  import Planes

  // ---------------------------------------------------------------------
  // Points

  /** `center + (p - center) * factor`: the offset from the center is scaled. */
  function ScalePoint(p: Point3D, center: Point3D, factor: real): (r: Point3D)
    ensures FromPoints(center, r) == Vectors.Scale(FromPoints(center, p), factor)
  {
    Point3D(ScaleCoordinate(p.x, center.x, factor), ScaleCoordinate(p.y, center.y, factor),
            ScaleCoordinate(p.z, center.z, factor))
  }

  /** One coordinate moved `factor` times as far from the center's. */
  function ScaleCoordinate(v: real, c: real, factor: real): real
  {
    c + (v - c) * factor
  }

  /** Translating by `v` and then by `-v` gives the point back; translations compose by adding. */
  lemma TranslatePointRoundTrip(p: Point3D, v: Vector3D, w: Vector3D)
    ensures Translate(Translate(p, v), Neg(v)) == p
    ensures Translate(Translate(p, v), w) == Translate(p, Add(v, w))
  {
  }

  /** The center is fixed by every scaling, and a factor of 1 is the identity. */
  lemma ScaleFixesCenter(p: Point3D, center: Point3D, factor: real)
    ensures ScalePoint(center, center, factor) == center
    ensures ScalePoint(p, center, 1.0) == p
  {
  }

  /** Scaling by `f` and then by `g` about the same center is scaling by `f * g`. */
  lemma ScalePointComposes(p: Point3D, center: Point3D, f: real, g: real)
    ensures ScalePoint(ScalePoint(p, center, f), center, g) == ScalePoint(p, center, f * g)
  {
    assert ((p.x - center.x) * f) * g == (p.x - center.x) * (f * g);
    assert ((p.y - center.y) * f) * g == (p.y - center.y) * (f * g);
    assert ((p.z - center.z) * f) * g == (p.z - center.z) * (f * g);
  }

  /** A non-zero factor is undone by its reciprocal. */
  lemma ScalePointRoundTrip(p: Point3D, center: Point3D, factor: real)
    requires factor != 0.0
    ensures ScalePoint(ScalePoint(p, center, factor), center, 1.0 / factor) == p
  {
    ScalePointComposes(p, center, factor, 1.0 / factor);
  }

  /** Differences of scaled points are the scaled differences. */
  lemma ScaledDifference(p: Point3D, q: Point3D, center: Point3D, factor: real)
    ensures FromPoints(ScalePoint(p, center, factor), ScalePoint(q, center, factor))
            == Vectors.Scale(FromPoints(p, q), factor)
  {
    assert (q.x - center.x) * factor - (p.x - center.x) * factor == (q.x - p.x) * factor;
    assert (q.y - center.y) * factor - (p.y - center.y) * factor == (q.y - p.y) * factor;
    assert (q.z - center.z) * factor - (p.z - center.z) * factor == (q.z - p.z) * factor;
  }

  /** Scaling multiplies squared distances by `factor²`. */
  lemma ScaledDistance(p: Point3D, q: Point3D, center: Point3D, factor: real)
    ensures DistanceSquaredTo(ScalePoint(p, center, factor), ScalePoint(q, center, factor))
            == DistanceSquaredTo(p, q) * (factor * factor)
  {
    var p', q' := ScalePoint(p, center, factor), ScalePoint(q, center, factor);
    ScaledDifference(q, p, center, factor);
    DistanceSquaredIsMagnitude(p', q');
    DistanceSquaredIsMagnitude(p, q);
    assert Minus(p', q') == FromPoints(q', p');
    assert Minus(p, q) == FromPoints(q, p);
    ScaledMagnitude(FromPoints(q, p), factor);
  }

  /** The unit-test values: (1,2,3) moved by (1,1,1); (3,3,3) doubled about (1,1,1). */
  lemma PointExamples(p: Point3D, v: Vector3D, q: Point3D, c: Point3D, f: real)
    requires p == Point3D(1.0, 2.0, 3.0) && v == Vector3D(1.0, 1.0, 1.0)
    requires q == Point3D(3.0, 3.0, 3.0) && c == Point3D(1.0, 1.0, 1.0) && f == 2.0
    ensures Translate(p, v) == Point3D(2.0, 3.0, 4.0)
    ensures ScalePoint(q, c, f) == Point3D(5.0, 5.0, 5.0)
    ensures ScalePoint(Point3D(2.0, 4.0, 6.0), Origin(), f) == Point3D(4.0, 8.0, 12.0)
  {
  }

  // ---------------------------------------------------------------------
  // Line segments

  /** Each endpoint translated; `new` must accept the result. */
  function TranslateSegment(seg: Segments.LineSegment, v: Vector3D): (r: Segments.LineSegment)
    requires Segments.New(Translate(seg.start, v), Translate(seg.end, v)).Ok?
    ensures r.start == Translate(seg.start, v) && r.end == Translate(seg.end, v)
    ensures !Points.ApproxEqual(r.start, r.end)
  {
    Segments.New(Translate(seg.start, v), Translate(seg.end, v)).value
  }

  /** Each endpoint scaled; `new` must accept the result. */
  function ScaleSegment(seg: Segments.LineSegment, center: Point3D, factor: real): (r: Segments.LineSegment)
    requires Segments.New(ScalePoint(seg.start, center, factor), ScalePoint(seg.end, center, factor)).Ok?
    ensures r.start == ScalePoint(seg.start, center, factor) && r.end == ScalePoint(seg.end, center, factor)
    ensures !Points.ApproxEqual(r.start, r.end)
  {
    Segments.New(ScalePoint(seg.start, center, factor), ScalePoint(seg.end, center, factor)).value
  }

  /** Translation never trips the `expect`: it succeeds exactly on non-degenerate segments, and `-v` undoes it. */
  lemma TranslateSegmentDefined(seg: Segments.LineSegment, v: Vector3D)
    ensures Segments.New(Translate(seg.start, v), Translate(seg.end, v)).Ok?
            <==> !Points.ApproxEqual(seg.start, seg.end)
    ensures !Points.ApproxEqual(seg.start, seg.end) ==>
              TranslateSegment(TranslateSegment(seg, v), Neg(v)) == seg
  {
    var s, e := Translate(seg.start, v), Translate(seg.end, v);
    assert s.x - e.x == seg.start.x - seg.end.x;
    assert s.y - e.y == seg.start.y - seg.end.y;
    assert s.z - e.z == seg.start.z - seg.end.z;
    if !Points.ApproxEqual(seg.start, seg.end) {
      TranslatePointRoundTrip(seg.start, v, v);
      TranslatePointRoundTrip(seg.end, v, v);
      assert Segments.New(Translate(s, Neg(v)), Translate(e, Neg(v))).Ok?;
    }
  }

  /** A positive factor keeps the sign of `d` and a negative one flips it. */
  lemma ProductSign(d: real, f: real)
    requires f != 0.0
    ensures f > 0.0 ==> (d * f >= 0.0 <==> d >= 0.0) && (d * f > 0.0 <==> d > 0.0)
    ensures f < 0.0 ==> (d * f >= 0.0 <==> d <= 0.0) && (d * f > 0.0 <==> d < 0.0)
  {
    if d > 0.0 && f > 0.0 {
      Boxes.PositiveProduct(d, f);
    } else if d < 0.0 && f > 0.0 {
      Boxes.PositiveProduct(-d, f);
      assert (-d) * f == -(d * f);
    } else if d > 0.0 && f < 0.0 {
      Boxes.PositiveProduct(d, -f);
      assert d * (-f) == -(d * f);
    } else if d < 0.0 && f < 0.0 {
      Boxes.PositiveProduct(-d, -f);
      assert (-d) * (-f) == d * f;
    }
  }

  /** The difference of two scaled offsets is the scaled difference. */
  lemma OffsetDifference(c: real, u: real, w: real, f: real)
    ensures (c + (u - c) * f) - (c + (w - c) * f) == (u - w) * f
  {
  }

  /** `|e| >= |d|` for `e = d * f` with `|f| >= 1`. */
  lemma AbsGrows(d: real, f: real, e: real)
    requires Abs(f) >= 1.0 && e == d * f
    ensures Abs(e) >= Abs(d)
  {
    var g := Abs(f) - 1.0;
    assert Abs(e) == Abs(d) * Abs(f) by {
      if f < 0.0 { assert d * f == (-d) * (-f); }
    }
    assert Abs(d) * Abs(f) == Abs(d) + Abs(d) * g;
    Segments.ProductNonNegative(Abs(d), g);
  }

  /** On one axis: factor 0 makes all coordinates equal; a factor of magnitude at least 1 keeps apart coordinates apart. */
  lemma ScaleCoordinatesApart(u: real, w: real, c: real, factor: real)
    ensures factor == 0.0 ==> ApproxEq(ScaleCoordinate(u, c, factor), ScaleCoordinate(w, c, factor))
    ensures Abs(factor) >= 1.0 && ApproxEq(ScaleCoordinate(u, c, factor), ScaleCoordinate(w, c, factor)) ==> ApproxEq(u, w)
  {
    OffsetDifference(c, u, w, factor);
    if Abs(factor) >= 1.0 {
      AbsGrows(u - w, factor, ScaleCoordinate(u, c, factor) - ScaleCoordinate(w, c, factor));
    }
  }

  /** Both endpoints scale to the center with factor 0, and no factor of magnitude at least 1 makes a valid segment degenerate. */
  lemma ScaleSegmentDefined(seg: Segments.LineSegment, center: Point3D, factor: real)
    ensures factor == 0.0 ==>
              Segments.New(ScalePoint(seg.start, center, factor), ScalePoint(seg.end, center, factor)).Err?
    ensures Abs(factor) >= 1.0 && !Points.ApproxEqual(seg.start, seg.end) ==>
              Segments.New(ScalePoint(seg.start, center, factor), ScalePoint(seg.end, center, factor)).Ok?
  {
    ScaleCoordinatesApart(seg.start.x, seg.end.x, center.x, factor);
    ScaleCoordinatesApart(seg.start.y, seg.end.y, center.y, factor);
    ScaleCoordinatesApart(seg.start.z, seg.end.z, center.z, factor);
  }

  /** The unit-test segment (0,0,0)–(1,0,0) moved by (1,2,3). */
  lemma TranslateSegmentExample(seg: Segments.LineSegment, v: Vector3D)
    requires seg == Segments.LineSegment(Origin(), Point3D(1.0, 0.0, 0.0)) && v == Vector3D(1.0, 2.0, 3.0)
    ensures Segments.New(Translate(seg.start, v), Translate(seg.end, v)).Ok?
            && TranslateSegment(seg, v) == Segments.LineSegment(Point3D(1.0, 2.0, 3.0), Point3D(2.0, 2.0, 3.0))
  {
  }

  /**
   * Doubling the segment (x,0,0)–(x+1,0,0) about the origin gives
   * (2x,0,0)–(2x+2,0,0); the unit test is the case x = 1. (The family is
   * stated for a symbolic `x`: fully literal instances of the scaled shapes
   * are beyond the verifier's resource limit.)
   */
  lemma ScaleSegmentExample(x: real)
    ensures var seg := Segments.LineSegment(Point3D(x, 0.0, 0.0), Point3D(x + 1.0, 0.0, 0.0));
            Segments.New(ScalePoint(seg.start, Origin(), 2.0), ScalePoint(seg.end, Origin(), 2.0)).Ok?
            && ScaleSegment(seg, Origin(), 2.0)
               == Segments.LineSegment(Point3D(2.0 * x, 0.0, 0.0), Point3D(2.0 * x + 2.0, 0.0, 0.0))
  {
  }

  // ---------------------------------------------------------------------
  // Spheres

  /** The center moves and the radius is kept; `new` needs that radius positive. */
  function TranslateSphere(s: Spheres.Sphere, v: Vector3D): (r: Spheres.Sphere)
    requires s.radius > 0.0
    ensures r.center == Translate(s.center, v) && r.radius == s.radius
  {
    Spheres.New(Translate(s.center, v), s.radius).value
  }

  /** The center is scaled and the radius multiplied by `|factor|`; `new` needs that product positive. */
  function ScaleSphere(s: Spheres.Sphere, center: Point3D, factor: real): (r: Spheres.Sphere)
    requires s.radius * Abs(factor) > 0.0
    ensures r.center == ScalePoint(s.center, center, factor) && r.radius == s.radius * Abs(factor)
    ensures r.radius > 0.0
  {
    Spheres.New(ScalePoint(s.center, center, factor), s.radius * Abs(factor)).value
  }

  /** For a valid sphere the scale `expect` holds exactly when the factor is non-zero. */
  lemma ScaleSphereDefined(s: Spheres.Sphere, factor: real)
    requires s.radius > 0.0
    ensures s.radius * Abs(factor) > 0.0 <==> factor != 0.0
  {
    if factor != 0.0 {
      assert Abs(factor) > 0.0;
      assert s.radius * Abs(factor) > 0.0 * Abs(factor);
    }
  }

  /** Translation carries containment along: `p` in `s` exactly when `p + v` is in the translated sphere. */
  lemma TranslateSphereContains(s: Spheres.Sphere, v: Vector3D, p: Point3D)
    requires s.radius > 0.0
    ensures Spheres.ContainsPoint(s, p) <==> Spheres.ContainsPoint(TranslateSphere(s, v), Translate(p, v))
  {
    var c, q := Translate(s.center, v), Translate(p, v);
    assert c.x - q.x == s.center.x - p.x;
    assert c.y - q.y == s.center.y - p.y;
    assert c.z - q.z == s.center.z - p.z;
  }

  /** When `k > 0`: `a * k <= b * k` exactly when `a <= b`. */
  lemma PositiveScaleOrder(a: real, b: real, k: real)
    requires k > 0.0
    ensures a * k <= b * k <==> a <= b
  {
    ProductSign(b - a, k);
    Distribute(b, a, k);
  }

  lemma Distribute(b: real, a: real, k: real)
    ensures b * k - a * k == (b - a) * k
  {
  }

  /** `|f|² == f²`. */
  lemma AbsSquare(f: real)
    ensures Abs(f) * Abs(f) == f * f
  {
    if f < 0.0 {
      assert (-f) * (-f) == f * f;
    }
  }

  /**
   * Multiplying both sides of `d <= r²` by `a² > 0` keeps the comparison:
   * with `dd = d·a²` and `rr = r·a`, `d <= r²` exactly when `dd <= rr²`.
   */
  lemma ScaledComparison(d: real, r: real, dd: real, rr: real, a: real)
    requires a > 0.0 && dd == d * (a * a) && rr == r * a
    ensures d <= r * r <==> dd <= rr * rr
  {
    PositiveScaleOrder(d, r * r, a);
    PositiveScaleOrder(d * a, (r * r) * a, a);
    Regroup(d, r, a);
    SquareOf(rr, r * a);
    SameComparison(dd, (d * a) * a, rr * rr, ((r * r) * a) * a);
  }

  lemma Regroup(d: real, r: real, a: real)
    ensures (d * a) * a == d * (a * a)
    ensures ((r * r) * a) * a == (r * a) * (r * a)
  {
  }

  lemma SquareOf(a: real, b: real)
    requires a == b
    ensures a * a == b * b
  {
  }

  /** Replacing both sides of a comparison by equal values. */
  lemma SameComparison(x: real, x': real, y: real, y': real)
    requires x == x' && y == y'
    ensures (x <= y) == (x' <= y')
  {
  }

  lemma ScaleByAbsSquare(d: real, f: real, af: real)
    requires af == Abs(f)
    ensures d * (f * f) == d * (af * af)
  {
  }

  /** `ScaledDistance` with the factor's square written as the square of its magnitude. */
  lemma ScaledDistanceAbs(p: Point3D, q: Point3D, center: Point3D, factor: real)
    ensures DistanceSquaredTo(ScalePoint(p, center, factor), ScalePoint(q, center, factor))
            == DistanceSquaredTo(p, q) * (Abs(factor) * Abs(factor))
  {
    ScaledDistance(p, q, center, factor);
    ScaleByAbsSquare(DistanceSquaredTo(p, q), factor, Abs(factor));
  }

  lemma NonZeroFactor(r: real, a: real)
    requires r * a > 0.0 && a >= 0.0
    ensures a > 0.0
  {
  }

  /** Scaling carries containment along: `p` in `s` exactly when its image is in the scaled sphere. */
  lemma ScaleSphereContains(s: Spheres.Sphere, center: Point3D, factor: real, p: Point3D)
    requires s.radius * Abs(factor) > 0.0
    ensures Spheres.ContainsPoint(s, p)
            <==> Spheres.ContainsPoint(ScaleSphere(s, center, factor), ScalePoint(p, center, factor))
  {
    var af := Abs(factor);
    NonZeroFactor(s.radius, af);
    ScaledDistanceAbs(s.center, p, center, factor);
    ScaledComparison(DistanceSquaredTo(s.center, p), s.radius,
                     DistanceSquaredTo(ScalePoint(s.center, center, factor), ScalePoint(p, center, factor)),
                     ScaleSphere(s, center, factor).radius, af);
  }

  /** The unit-test sphere of radius 1 at the origin moved by (5,5,5). */
  lemma TranslateSphereExample(s: Spheres.Sphere, v: Vector3D)
    requires s == Spheres.Sphere(Origin(), 1.0) && v == Vector3D(5.0, 5.0, 5.0)
    ensures TranslateSphere(s, v) == Spheres.Sphere(Point3D(5.0, 5.0, 5.0), 1.0)
  {
  }

  /** Tripling the sphere of radius 2 at (x,0,0) about the origin gives radius 6 at (3x,0,0); the unit test is x = 1. */
  lemma ScaleSphereExample(x: real)
    ensures 2.0 * Abs(3.0) > 0.0
    ensures ScaleSphere(Spheres.Sphere(Point3D(x, 0.0, 0.0), 2.0), Origin(), 3.0)
            == Spheres.Sphere(Point3D(3.0 * x, 0.0, 0.0), 6.0)
  {
  }

  // ---------------------------------------------------------------------
  // Axis-aligned boxes

  /** Both corners translated; `new` must accept the result. */
  function TranslateAabb(box: Boxes.AABB, v: Vector3D): (r: Boxes.AABB)
    requires Boxes.StrictlyOrdered(Translate(box.min, v), Translate(box.max, v))
    ensures r.min == Translate(box.min, v) && r.max == Translate(box.max, v)
    ensures Boxes.StrictlyOrdered(r.min, r.max)
  {
    Boxes.New(Translate(box.min, v), Translate(box.max, v)).value
  }

  /** The corners of the scaled box: the scaled corners re-sorted on each axis. */
  function ScaledCorners(box: Boxes.AABB, center: Point3D, factor: real): (Point3D, Point3D)
  {
    var smin, smax := ScalePoint(box.min, center, factor), ScalePoint(box.max, center, factor);
    (Boxes.MinPoint(smin, smax), Boxes.MaxPoint(smin, smax))
  }

  /** Both corners scaled and re-sorted per axis, so a negative factor swaps them; `new` must accept the result. */
  function ScaleAabb(box: Boxes.AABB, center: Point3D, factor: real): (r: Boxes.AABB)
    requires Boxes.StrictlyOrdered(ScaledCorners(box, center, factor).0, ScaledCorners(box, center, factor).1)
    ensures r.min == ScaledCorners(box, center, factor).0 && r.max == ScaledCorners(box, center, factor).1
    ensures Boxes.StrictlyOrdered(r.min, r.max)
  {
    var (lo, hi) := ScaledCorners(box, center, factor);
    Boxes.New(lo, hi).value
  }

  /** Translation never trips the `expect` of a valid box, keeps containment and is undone by `-v`. */
  lemma TranslateAabbLaws(box: Boxes.AABB, v: Vector3D, p: Point3D)
    ensures Boxes.StrictlyOrdered(Translate(box.min, v), Translate(box.max, v))
            <==> Boxes.StrictlyOrdered(box.min, box.max)
    ensures Boxes.StrictlyOrdered(box.min, box.max) ==>
              TranslateAabb(TranslateAabb(box, v), Neg(v)) == box
    ensures Boxes.StrictlyOrdered(box.min, box.max) ==>
              (Boxes.ContainsPoint(box, p) <==> Boxes.ContainsPoint(TranslateAabb(box, v), Translate(p, v)))
  {
    if Boxes.StrictlyOrdered(box.min, box.max) {
      TranslatePointRoundTrip(box.min, v, v);
      TranslatePointRoundTrip(box.max, v, v);
    }
  }

  /**
   * `y` lies between `a` and `b` exactly when `u, v >= 0`, where `y - a = u·f`
   * and `b - y = v·f` with `f != 0` and `u + v >= 0`.
   */
  lemma BetweenScaled(a: real, b: real, y: real, u: real, v: real, f: real)
    requires f != 0.0 && u + v >= 0.0 && y - a == u * f && b - y == v * f
    ensures Min(a, b) <= y <= Max(a, b) <==> u >= 0.0 && v >= 0.0
  {
    ProductSign(u, f);
    ProductSign(v, f);
  }

  /** On one axis: the interval between the scaled ends holds the scaled `x` exactly when `[mn, mx]` holds `x`. */
  lemma ScaleInterval(c: real, mn: real, mx: real, x: real, f: real)
    requires mn <= mx && f != 0.0
    ensures Min(c + (mn - c) * f, c + (mx - c) * f) <= c + (x - c) * f <= Max(c + (mn - c) * f, c + (mx - c) * f)
            <==> mn <= x <= mx
  {
    OffsetDifference(c, x, mn, f);
    OffsetDifference(c, mx, x, f);
    BetweenScaled(c + (mn - c) * f, c + (mx - c) * f, c + (x - c) * f, x - mn, mx - x, f);
  }

  /** `ScaleInterval` with the scaled ends `a`, `b`, their order `lo`, `hi` and the scaled point `q` as atoms. */
  lemma ScaleIntervalAt(c: real, mn: real, mx: real, x: real, f: real, lo: real, hi: real, q: real)
    requires mn <= mx && f != 0.0
    requires lo == Min(ScaleCoordinate(mn, c, f), ScaleCoordinate(mx, c, f))
    requires hi == Max(ScaleCoordinate(mn, c, f), ScaleCoordinate(mx, c, f))
    requires q == ScaleCoordinate(x, c, f)
    ensures q >= lo && q <= hi <==> x >= mn && x <= mx
  {
    ScaleInterval(c, mn, mx, x, f);
  }

  /** A non-zero factor maps an ordered box onto the box of the scaled points: containment is carried along. */
  lemma ScaleAabbContains(box: Boxes.AABB, center: Point3D, factor: real, p: Point3D)
    requires Boxes.Ordered(box) && factor != 0.0
    ensures Boxes.ContainsPoint(box, p)
            <==> Boxes.ContainsPoint(Boxes.AABB(ScaledCorners(box, center, factor).0, ScaledCorners(box, center, factor).1),
                                     ScalePoint(p, center, factor))
  {
    var (lo, hi) := ScaledCorners(box, center, factor);
    var q := ScalePoint(p, center, factor);
    ScaleIntervalAt(center.x, box.min.x, box.max.x, p.x, factor, lo.x, hi.x, q.x);
    ScaleIntervalAt(center.y, box.min.y, box.max.y, p.y, factor, lo.y, hi.y, q.y);
    ScaleIntervalAt(center.z, box.min.z, box.max.z, p.z, factor, lo.z, hi.z, q.z);
  }

  /** Strict a-b ordering survives a non-zero factor after re-sorting, and collapses under factor 0. */
  lemma StrictAfterScale(c: real, mn: real, mx: real, f: real)
    requires mn < mx
    ensures var a, b := c + (mn - c) * f, c + (mx - c) * f;
            Min(a, b) < Max(a, b) <==> f != 0.0
  {
    var a, b := c + (mn - c) * f, c + (mx - c) * f;
    assert b - a == (mx - mn) * f;
    if f > 0.0 {
      Boxes.PositiveProduct(mx - mn, f);
    } else if f < 0.0 {
      Boxes.PositiveProduct(mx - mn, -f);
    }
  }

  /** For a valid box the scale `expect` holds exactly when the factor is non-zero. */
  lemma ScaleAabbDefined(box: Boxes.AABB, center: Point3D, factor: real)
    requires Boxes.StrictlyOrdered(box.min, box.max)
    ensures Boxes.StrictlyOrdered(ScaledCorners(box, center, factor).0, ScaledCorners(box, center, factor).1)
            <==> factor != 0.0
  {
    StrictAfterScale(center.x, box.min.x, box.max.x, factor);
    StrictAfterScale(center.y, box.min.y, box.max.y, factor);
    StrictAfterScale(center.z, box.min.z, box.max.z, factor);
  }

  /** The unit-test boxes: [0,1]³ moved by (2,2,2); [1,2]³ scaled about the origin by 2 and by -1, which swaps the corners. */
  lemma AabbExamples(box: Boxes.AABB, v: Vector3D, box2: Boxes.AABB, f: real, g: real)
    requires box == Boxes.AABB(Origin(), Point3D(1.0, 1.0, 1.0)) && v == Vector3D(2.0, 2.0, 2.0)
    requires box2 == Boxes.AABB(Point3D(1.0, 1.0, 1.0), Point3D(2.0, 2.0, 2.0)) && f == 2.0 && g == -1.0
    ensures Boxes.StrictlyOrdered(Translate(box.min, v), Translate(box.max, v))
            && TranslateAabb(box, v) == Boxes.AABB(Point3D(2.0, 2.0, 2.0), Point3D(3.0, 3.0, 3.0))
    ensures ScaledCorners(box2, Origin(), f) == (Point3D(2.0, 2.0, 2.0), Point3D(4.0, 4.0, 4.0))
            && ScaleAabb(box2, Origin(), f) == Boxes.AABB(Point3D(2.0, 2.0, 2.0), Point3D(4.0, 4.0, 4.0))
    ensures ScaledCorners(box2, Origin(), g) == (Point3D(-2.0, -2.0, -2.0), Point3D(-1.0, -1.0, -1.0))
            && ScaleAabb(box2, Origin(), g) == Boxes.AABB(Point3D(-2.0, -2.0, -2.0), Point3D(-1.0, -1.0, -1.0))
  {
  }

  // ---------------------------------------------------------------------
  // Triangles

  /** Each vertex translated, in order; `new` must accept the result. */
  function TranslateTriangle(t: Triangles.Triangle, v: Vector3D): (r: Triangles.Triangle)
    requires !Triangles.Collinear(Translate(t.a, v), Translate(t.b, v), Translate(t.c, v))
    ensures r.a == Translate(t.a, v) && r.b == Translate(t.b, v) && r.c == Translate(t.c, v)
  {
    Triangles.New(Translate(t.a, v), Translate(t.b, v), Translate(t.c, v)).value
  }

  /** Each vertex scaled, in order; `new` must accept the result. */
  function ScaleTriangle(t: Triangles.Triangle, center: Point3D, factor: real): (r: Triangles.Triangle)
    requires !Triangles.Collinear(ScalePoint(t.a, center, factor), ScalePoint(t.b, center, factor),
                                  ScalePoint(t.c, center, factor))
    ensures r.a == ScalePoint(t.a, center, factor) && r.b == ScalePoint(t.b, center, factor)
    ensures r.c == ScalePoint(t.c, center, factor)
  {
    Triangles.New(ScalePoint(t.a, center, factor), ScalePoint(t.b, center, factor),
                  ScalePoint(t.c, center, factor)).value
  }

  /** Translation leaves the edge vectors, hence collinearity, unchanged: the `expect` holds for every valid triangle. */
  lemma TranslateTriangleDefined(t: Triangles.Triangle, v: Vector3D)
    ensures Triangles.Collinear(Translate(t.a, v), Translate(t.b, v), Translate(t.c, v))
            <==> Triangles.Collinear(t.a, t.b, t.c)
  {
    assert FromPoints(Translate(t.a, v), Translate(t.b, v)) == FromPoints(t.a, t.b);
    assert FromPoints(Translate(t.a, v), Translate(t.c, v)) == FromPoints(t.a, t.c);
  }

  /** Scaling both edges by `f` scales their cross product by `f²`. */
  lemma CrossOfScaled(x: Vector3D, y: Vector3D, f: real)
    ensures Cross(Vectors.Scale(x, f), Vectors.Scale(y, f)) == Vectors.Scale(Cross(x, y), f * f)
  {
    var c, l := Cross(x, y), Cross(Vectors.Scale(x, f), Vectors.Scale(y, f));
    ScaledMinor(x.y, y.z, x.z, y.y, f, c.x, l.x);
    ScaledMinor(x.z, y.x, x.x, y.z, f, c.y, l.y);
    ScaledMinor(x.x, y.y, x.y, y.x, f, c.z, l.z);
  }

  /** One component of the cross product: a 2×2 minor, scaled by `f²` when both edges are scaled by `f`. */
  lemma ScaledMinor(a: real, b: real, c: real, d: real, f: real, m: real, n: real)
    requires m == a * b - c * d && n == (a * f) * (b * f) - (c * f) * (d * f)
    ensures n == m * (f * f)
  {
  }

  /** The squared cross magnitude of the scaled triangle is the original times `factor⁴`. */
  lemma ScaledCrossMagnitude(t: Triangles.Triangle, center: Point3D, factor: real)
    ensures MagnitudeSquared(Planes.ThreePointNormal(ScalePoint(t.a, center, factor), ScalePoint(t.b, center, factor),
                                                     ScalePoint(t.c, center, factor)))
            == MagnitudeSquared(Planes.ThreePointNormal(t.a, t.b, t.c)) * ((factor * factor) * (factor * factor))
  {
    var sa, sb, sc := ScalePoint(t.a, center, factor), ScalePoint(t.b, center, factor), ScalePoint(t.c, center, factor);
    ScaledDifference(t.a, t.b, center, factor);
    ScaledDifference(t.a, t.c, center, factor);
    CrossOfScaled(FromPoints(t.a, t.b), FromPoints(t.a, t.c), factor);
    assert Planes.ThreePointNormal(sa, sb, sc) == Vectors.Scale(Planes.ThreePointNormal(t.a, t.b, t.c), factor * factor);
    ScaledMagnitude(Planes.ThreePointNormal(t.a, t.b, t.c), factor * factor);
  }

  /** `f⁴ >= 1` when `|f| >= 1`. */
  lemma FourthPowerGrows(f: real)
    requires Abs(f) >= 1.0
    ensures (f * f) * (f * f) >= 1.0
  {
    var a := Abs(f);
    AbsSquare(f);
    GrowsByFactor(a, a);
    GrowsByFactor(a * a, a * a);
    Regroup4(a, f);
  }

  lemma Regroup4(a: real, f: real)
    requires a * a == f * f
    ensures (a * a) * (a * a) == (f * f) * (f * f)
  {
  }

  /** `m * k >= m` for `m >= 0` and `k >= 1`. */
  lemma GrowsByFactor(m: real, k: real)
    requires m >= 0.0 && k >= 1.0
    ensures m * k >= m
  {
    Segments.ProductNonNegative(m, k - 1.0);
    assert m * k == m + m * (k - 1.0);
  }

  /** Factor 0 always trips the scale `expect`; a factor of magnitude at least 1 never does on a valid triangle. */
  lemma ScaleTriangleDefined(t: Triangles.Triangle, center: Point3D, factor: real)
    ensures factor == 0.0 ==>
              Triangles.Collinear(ScalePoint(t.a, center, factor), ScalePoint(t.b, center, factor),
                                  ScalePoint(t.c, center, factor))
    ensures Abs(factor) >= 1.0 && !Triangles.Collinear(t.a, t.b, t.c) ==>
              !Triangles.Collinear(ScalePoint(t.a, center, factor), ScalePoint(t.b, center, factor),
                                   ScalePoint(t.c, center, factor))
  {
    ScaledCrossMagnitude(t, center, factor);
    var m := MagnitudeSquared(Planes.ThreePointNormal(t.a, t.b, t.c));
    if Abs(factor) >= 1.0 {
      FourthPowerGrows(factor);
      GrowsByFactor(m, (factor * factor) * (factor * factor));
    }
  }

  /** The right triangle with legs of length 1 along the x and y axes, placed at (x,0,0). */
  function RightTriangleAt(x: real): Triangles.Triangle
  {
    Triangles.Triangle(Point3D(x, 0.0, 0.0), Point3D(x + 1.0, 0.0, 0.0), Point3D(x, 1.0, 0.0))
  }

  /** The legs of the right triangle at (x,0,0) are the x and y unit vectors, whose cross product is the z unit vector. */
  lemma RightTriangleEdgeCross(a: Point3D, b: Point3D, c: Point3D, x: real)
    requires a == Point3D(x, 0.0, 0.0) && b == Point3D(x + 1.0, 0.0, 0.0) && c == Point3D(x, 1.0, 0.0)
    ensures Cross(FromPoints(a, b), FromPoints(a, c)) == UnitZ()
  {
    assert FromPoints(a, b) == UnitX() && FromPoints(a, c) == UnitY();
    CyclicCross(UnitX(), UnitY(), UnitZ());
  }

  /** Edges crossing to the z unit vector give squared cross magnitude 1. */
  lemma UnitEdgeCross(a: Point3D, b: Point3D, c: Point3D)
    requires Cross(FromPoints(a, b), FromPoints(a, c)) == UnitZ()
    ensures MagnitudeSquared(Planes.ThreePointNormal(a, b, c)) == 1.0
    ensures !Triangles.Collinear(a, b, c)
  {
    Triangles.UnitCrossNotCollinear(a, b, c);
    assert MagnitudeSquared(UnitZ()) == 1.0;
  }

  /** The right triangle has squared cross magnitude 1, so `new` accepts it. */
  lemma RightTriangleCross(x: real)
    ensures MagnitudeSquared(Planes.ThreePointNormal(RightTriangleAt(x).a, RightTriangleAt(x).b, RightTriangleAt(x).c)) == 1.0
    ensures !Triangles.Collinear(RightTriangleAt(x).a, RightTriangleAt(x).b, RightTriangleAt(x).c)
  {
    var t := RightTriangleAt(x);
    RightTriangleEdgeCross(t.a, t.b, t.c, x);
    UnitEdgeCross(t.a, t.b, t.c);
  }

  /**
   * A valid triangle with squared cross magnitude 1 (such as `RightTriangleAt(x)`,
   * by `RightTriangleCross`) scaled by `10⁻⁵` has magnitude `10⁻²⁰ < EPSILON`,
   * so the scale `expect` panics although the factor is non-zero.
   */
  lemma ScaleTriangleTooSmall(t: Triangles.Triangle, center: Point3D, factor: real)
    requires MagnitudeSquared(Planes.ThreePointNormal(t.a, t.b, t.c)) == 1.0 && factor == 0.00001
    ensures !Triangles.Collinear(t.a, t.b, t.c)
    ensures Triangles.Collinear(ScalePoint(t.a, center, factor), ScalePoint(t.b, center, factor),
                                ScalePoint(t.c, center, factor))
  {
    ScaledCrossMagnitude(t, center, factor);
    assert (factor * factor) * (factor * factor) == 0.00000000000000000001;
  }

  /** Translating the right triangle at (x,0,0) by (1,1,1) moves each vertex; the unit test is x = 0. */
  lemma TranslateTriangleExample(x: real)
    ensures var t, v := RightTriangleAt(x), Vector3D(1.0, 1.0, 1.0);
            !Triangles.Collinear(Translate(t.a, v), Translate(t.b, v), Translate(t.c, v))
            && TranslateTriangle(t, v)
               == Triangles.Triangle(Point3D(x + 1.0, 1.0, 1.0), Point3D(x + 2.0, 1.0, 1.0), Point3D(x + 1.0, 2.0, 1.0))
  {
    RightTriangleCross(x);
    TranslateTriangleDefined(RightTriangleAt(x), Vector3D(1.0, 1.0, 1.0));
  }

  /** Doubling the right triangle at (x,0,0) about the origin keeps it valid. */
  lemma ScaleTriangleDoubledDefined(x: real)
    ensures var t := RightTriangleAt(x);
            !Triangles.Collinear(ScalePoint(t.a, Origin(), 2.0), ScalePoint(t.b, Origin(), 2.0), ScalePoint(t.c, Origin(), 2.0))
  {
    RightTriangleCross(x);
    ScaleTriangleDefined(RightTriangleAt(x), Origin(), 2.0);
  }

  /** Doubling the right triangle at (x,0,0) about the origin doubles each vertex; the unit test is x = 1. */
  lemma ScaleTriangleExample(x: real)
    ensures !Triangles.Collinear(ScalePoint(RightTriangleAt(x).a, Origin(), 2.0), ScalePoint(RightTriangleAt(x).b, Origin(), 2.0),
                                 ScalePoint(RightTriangleAt(x).c, Origin(), 2.0))
    ensures ScaleTriangle(RightTriangleAt(x), Origin(), 2.0)
            == Triangles.Triangle(Point3D(2.0 * x, 0.0, 0.0), Point3D(2.0 * x + 2.0, 0.0, 0.0), Point3D(2.0 * x, 2.0, 0.0))
  {
    ScaleTriangleDoubledDefined(x);
  }
}
