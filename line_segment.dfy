/**
 * Line segments between two distinct points: length, direction, midpoint,
 * the point at a parameter, and the closest point of the segment to a given
 * point.
 */
module Segments {
  import opened Float
  import opened Errors
  import opened Vectors
  import opened Points

  datatype LineSegment = LineSegment(start: Point3D, end: Point3D)

  /** Construction fails when the two endpoints are approximately equal. */
  function New(start: Point3D, end: Point3D): (r: Result<LineSegment>)
    ensures r.Ok? <==> !Points.ApproxEqual(start, end)
    ensures r.Ok? ==> r.value == LineSegment(start, end)
    ensures r.Err? ==> r.error.DegenerateCase?
  {
    if Points.ApproxEqual(start, end) then
      Err(DegenerateCase("Line segment start and end points must be different"))
    else
      Ok(LineSegment(start, end))
  }

  function Length(seg: LineSegment, sqrt: real -> real): real
  {
    DistanceTo(seg.start, seg.end, sqrt)
  }

  /** The offset from start to end. */
  function Direction(seg: LineSegment): (d: Vector3D)
    ensures Translate(seg.start, d) == seg.end
  {
    FromPoints(seg.start, seg.end)
  }

  /** The midpoint is the point at parameter one half. */
  function SegmentMidpoint(seg: LineSegment): (m: Point3D)
    ensures m == PointAt(seg, 0.5)
  {
    Midpoint(seg.start, seg.end)
  }

  /** The point `start + direction * t`; `t` in [0, 1] walks from start to end. */
  function PointAt(seg: LineSegment, t: real): Point3D
  {
    Translate(seg.start, Scale(Direction(seg), t))
  }

  /**
   * The parameter of the closest point: the projection of `point` onto the
   * segment's line, clamped to [0, 1]; 0 when the segment has zero length.
   */
  function ClosestParameter(seg: LineSegment, point: Point3D): (t: real)
    ensures 0.0 <= t <= 1.0
  {
    var dir := Direction(seg);
    var toPoint := FromPoints(seg.start, point);
    var lengthSq := MagnitudeSquared(dir);
    var t := if lengthSq > 0.0 then Dot(toPoint, dir) / lengthSq else 0.0;
    Clamp(t, 0.0, 1.0)
  }

  /** A point of the segment: the one at `ClosestParameter`. */
  function ClosestPoint(seg: LineSegment, point: Point3D): (c: Point3D)
    ensures exists t :: 0.0 <= t <= 1.0 && c == PointAt(seg, t)
  {
    PointAt(seg, ClosestParameter(seg, point))
  }

  function DistanceToPoint(seg: LineSegment, point: Point3D, sqrt: real -> real): real
  {
    DistanceTo(point, ClosestPoint(seg, point), sqrt)
  }

  /** `PartialEq`: both endpoints approximately equal. */
  predicate ApproxEqual(s1: LineSegment, s2: LineSegment)
  {
    Points.ApproxEqual(s1.start, s2.start) && Points.ApproxEqual(s1.end, s2.end)
  }

  // ---------------------------------------------------------------------
  // Properties

  lemma PointAtEnds(seg: LineSegment)
    ensures PointAt(seg, 0.0) == seg.start
    ensures PointAt(seg, 1.0) == seg.end
    ensures PointAt(seg, 0.5) == SegmentMidpoint(seg)
  {
  }

  /** The squared distance to `start + t * d`, as a quadratic in `t`. */
  function Quadratic(w: real, dot: real, lenSq: real, t: real): real
  {
    w - 2.0 * t * dot + t * t * lenSq
  }

  lemma DistanceAlongSegment(seg: LineSegment, point: Point3D, t: real)
    ensures DistanceSquaredTo(point, PointAt(seg, t))
            == Quadratic(MagnitudeSquared(FromPoints(seg.start, point)),
                         Dot(FromPoints(seg.start, point), Direction(seg)),
                         MagnitudeSquared(Direction(seg)), t)
  {
    PointsAlong(point, seg.start, Direction(seg), PointAt(seg, t), t);
  }

  /** `DistanceAlongSegment` for any start and direction. */
  lemma PointsAlong(p: Point3D, s: Point3D, d: Vector3D, q: Point3D, t: real)
    requires q == Translate(s, Scale(d, t))
    ensures DistanceSquaredTo(p, q)
            == Quadratic(MagnitudeSquared(FromPoints(s, p)), Dot(FromPoints(s, p), d), MagnitudeSquared(d), t)
  {
    DistanceSquaredIsMagnitude(p, q);
    assert Minus(p, q) == Sub(FromPoints(s, p), Scale(d, t));
    MagnitudeAlong(FromPoints(s, p), d, t);
  }

  /** The squared length of `w - t * d`, as a quadratic in `t`. */
  lemma MagnitudeAlong(w: Vector3D, d: Vector3D, t: real)
    ensures MagnitudeSquared(Sub(w, Scale(d, t)))
            == Quadratic(MagnitudeSquared(w), Dot(w, d), MagnitudeSquared(d), t)
  {
    var u := Sub(w, Scale(d, t));
    SquareAlong(w.x, d.x, t, u.x);
    SquareAlong(w.y, d.y, t, u.y);
    SquareAlong(w.z, d.z, t, u.z);
    SumOfQuadratics(u, w, d, t);
  }

  /** Three one-coordinate quadratics add up to one quadratic. */
  lemma SumOfQuadratics(u: Vector3D, w: Vector3D, d: Vector3D, t: real)
    requires u.x * u.x == Quadratic(w.x * w.x, w.x * d.x, d.x * d.x, t)
    requires u.y * u.y == Quadratic(w.y * w.y, w.y * d.y, d.y * d.y, t)
    requires u.z * u.z == Quadratic(w.z * w.z, w.z * d.z, d.z * d.z, t)
    ensures MagnitudeSquared(u) == Quadratic(MagnitudeSquared(w), Dot(w, d), MagnitudeSquared(d), t)
  {
    SumOfThree(u.x * u.x, u.y * u.y, u.z * u.z, w.x * w.x, w.y * w.y, w.z * w.z,
               w.x * d.x, w.y * d.y, w.z * d.z, d.x * d.x, d.y * d.y, d.z * d.z, t);
  }

  lemma SumOfThree(a1: real, a2: real, a3: real, w1: real, w2: real, w3: real,
                   d1: real, d2: real, d3: real, l1: real, l2: real, l3: real, t: real)
    requires a1 == Quadratic(w1, d1, l1, t)
    requires a2 == Quadratic(w2, d2, l2, t)
    requires a3 == Quadratic(w3, d3, l3, t)
    ensures a1 + a2 + a3 == Quadratic(w1 + w2 + w3, d1 + d2 + d3, l1 + l2 + l3, t)
  {
    assert 2.0 * t * (d1 + d2 + d3) == 2.0 * t * d1 + 2.0 * t * d2 + 2.0 * t * d3;
    assert t * t * (l1 + l2 + l3) == t * t * l1 + t * t * l2 + t * t * l3;
  }

  /** One coordinate of `MagnitudeAlong`. */
  lemma SquareAlong(w: real, d: real, t: real, u: real)
    requires u == w - d * t
    ensures u * u == Quadratic(w * w, w * d, d * d, t)
  {
  }

  lemma QuadraticDifference(w: real, dot: real, lenSq: real, t: real, c: real)
    ensures Quadratic(w, dot, lenSq, t) - Quadratic(w, dot, lenSq, c)
            == (t - c) * ((t + c) * lenSq - 2.0 * dot)
  {
  }

  lemma ProductNonNegative(a: real, b: real)
    requires (a >= 0.0 && b >= 0.0) || (a <= 0.0 && b <= 0.0)
    ensures a * b >= 0.0
  {
    if a <= 0.0 && b <= 0.0 {
      assert a * b == (-a) * (-b);
    }
  }

  /**
   * Over t in [0, 1], the quadratic is smallest at the clamped vertex
   * parameter, the value `ClosestParameter` computes.
   */
  lemma {:induction false} ClampedVertexMinimizes(w: real, dot: real, lenSq: real, t: real)
    requires 0.0 <= t <= 1.0 && lenSq >= 0.0 && (lenSq == 0.0 ==> dot == 0.0)
    ensures var c := Clamp(if lenSq > 0.0 then dot / lenSq else 0.0, 0.0, 1.0);
            Quadratic(w, dot, lenSq, c) <= Quadratic(w, dot, lenSq, t)
  {
    var v := if lenSq > 0.0 then dot / lenSq else 0.0;
    var c := Clamp(v, 0.0, 1.0);
    QuadraticDifference(w, dot, lenSq, t, c);
    if lenSq == 0.0 {
      assert (t + c) * lenSq - 2.0 * dot == 0.0;
    } else if v < 0.0 {
      assert dot == v * lenSq;
      assert dot < 0.0;
      assert c == 0.0;
      assert (t + c) * lenSq - 2.0 * dot >= 0.0;
      ProductNonNegative(t - c, (t + c) * lenSq - 2.0 * dot);
    } else if v > 1.0 {
      assert dot == v * lenSq;
      assert dot > lenSq;
      assert c == 1.0;
      assert (t + c) * lenSq <= 2.0 * lenSq;
      ProductNonNegative(t - c, (t + c) * lenSq - 2.0 * dot);
    } else {
      assert c == v && dot == c * lenSq;
      assert (t + c) * lenSq - 2.0 * dot == (t - c) * lenSq;
      ProductNonNegative(t - c, (t - c) * lenSq);
    }
  }

  /** No point of the segment is closer to `point` than `ClosestPoint`. */
  lemma ClosestPointIsClosest(seg: LineSegment, point: Point3D, t: real)
    requires 0.0 <= t <= 1.0
    ensures DistanceSquaredTo(point, ClosestPoint(seg, point)) <= DistanceSquaredTo(point, PointAt(seg, t))
  {
    var w := FromPoints(seg.start, point);
    var d := Direction(seg);
    var ww, wd, dd := MagnitudeSquared(w), Dot(w, d), MagnitudeSquared(d);
    var c := ClosestParameter(seg, point);
    assert c == Clamp(if dd > 0.0 then wd / dd else 0.0, 0.0, 1.0);
    ZeroDirectionHasZeroDot(w, d);
    DistanceAlongSegment(seg, point, t);
    DistanceAlongSegment(seg, point, c);
    assert DistanceSquaredTo(point, PointAt(seg, t)) == Quadratic(ww, wd, dd, t);
    assert DistanceSquaredTo(point, ClosestPoint(seg, point)) == Quadratic(ww, wd, dd, c);
    ClampedVertexMinimizes(ww, wd, dd, t);
  }

  lemma ZeroDirectionHasZeroDot(w: Vector3D, d: Vector3D)
    ensures MagnitudeSquared(d) == 0.0 ==> Dot(w, d) == 0.0
  {
    if MagnitudeSquared(d) == 0.0 {
      MagnitudeSquaredZero(d);
      DotWithZero(w, d);
    }
  }

  lemma DotWithZero(w: Vector3D, d: Vector3D)
    requires d == Zero()
    ensures Dot(w, d) == 0.0
  {
  }

  /** With an exact square root, `DistanceToPoint` is the least distance to any point of the segment. */
  lemma DistanceToPointIsMinimal(seg: LineSegment, point: Point3D, t: real, sqrt: real -> real)
    requires IsSqrt(sqrt) && 0.0 <= t <= 1.0
    ensures DistanceToPoint(seg, point, sqrt) <= DistanceTo(point, PointAt(seg, t), sqrt)
  {
    ClosestPointIsClosest(seg, point, t);
    SqrtMonotone(sqrt, DistanceSquaredTo(point, ClosestPoint(seg, point)),
                 DistanceSquaredTo(point, PointAt(seg, t)));
  }

  /** A point of the segment is its own closest point, hence at distance zero. */
  lemma ClosestPointOfSegmentPoint(seg: LineSegment, t: real)
    requires 0.0 <= t <= 1.0
    ensures DistanceSquaredTo(PointAt(seg, t), ClosestPoint(seg, PointAt(seg, t))) == 0.0
  {
    var p := PointAt(seg, t);
    ClosestPointIsClosest(seg, p, t);
    DistanceSquaredZero(p, p);
  }

  lemma NewExamples()
    ensures New(Origin(), Point3D(1.0, 0.0, 0.0)).Ok?
    ensures New(Origin(), Origin()).Err?
  {
  }

  lemma LengthExample(sqrt: real -> real)
    requires IsSqrt(sqrt)
    ensures Length(LineSegment(Origin(), Point3D(3.0, 4.0, 0.0)), sqrt) == 5.0
  {
    DistanceExample(sqrt);
  }

  lemma PointAtExample()
    ensures PointAt(LineSegment(Origin(), Point3D(10.0, 0.0, 0.0)), 0.5) == Point3D(5.0, 0.0, 0.0)
  {
  }
}
