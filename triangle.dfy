/**
 * Triangles given by three vertices: construction rejects collinear
 * vertices; normal, area, centroid, supporting plane, bounding box,
 * barycentric coordinates and the point-in-triangle test.
 */
module Triangles {
  import opened Float
  import opened Errors
  import opened Vectors
  import opened Points
  import Planes
  import Boxes

  datatype Triangle = Triangle(a: Point3D, b: Point3D, c: Point3D)

  /** `(b - a) × (c - a)`: twice the area, in the direction of the normal. */
  function EdgeCross(t: Triangle): Vector3D
  {
    Planes.ThreePointNormal(t.a, t.b, t.c)
  }

  /** The test `new` applies: the edge cross product is approximately zero. */
  predicate Collinear(a: Point3D, b: Point3D, c: Point3D)
  {
    ApproxZero(MagnitudeSquared(Planes.ThreePointNormal(a, b, c)))
  }

  function New(a: Point3D, b: Point3D, c: Point3D): (r: Result<Triangle>)
    ensures r.Err? <==> Collinear(a, b, c)
    ensures r.Err? ==> r.error.DegenerateCase?
    ensures r.Ok? ==> r.value == Triangle(a, b, c)
  {
    var cross := Cross(Points.FromPoints(a, b), Points.FromPoints(a, c));
    if ApproxZero(MagnitudeSquared(cross)) then Err(DegenerateCase("Triangle vertices are collinear"))
    else Ok(Triangle(a, b, c))
  }

  /** The unit normal, or `UnitZ` when the edge cross product cannot be normalised. */
  function Normal(t: Triangle, sqrt: real -> real): (n: Vector3D)
    ensures Normalize(EdgeCross(t), sqrt).Ok? ==> n == Normalize(EdgeCross(t), sqrt).value
    ensures Normalize(EdgeCross(t), sqrt).Err? ==> n == UnitZ()
  {
    var r := Normalize(EdgeCross(t), sqrt);
    if r.Ok? then r.value else UnitZ()
  }

  /**
   * For vertices `New` accepts, and an exact square root, the normal has
   * unit length and is orthogonal to both edges leaving `a`.
   */
  lemma NormalIsUnitAndOrthogonal(t: Triangle, sqrt: real -> real)
    requires !Collinear(t.a, t.b, t.c)
    requires SqrtAt(sqrt, MagnitudeSquared(EdgeCross(t))) && SqrtAt(sqrt, 1.0)
    ensures MagnitudeSquared(Normal(t, sqrt)) == 1.0
    ensures Dot(Normal(t, sqrt), Points.FromPoints(t.a, t.b)) == 0.0
    ensures Dot(Normal(t, sqrt), Points.FromPoints(t.a, t.c)) == 0.0
  {
    var e := EdgeCross(t);
    NormalizeFailsIffShort(e, sqrt);
    assert EPSILON * EPSILON < EPSILON;
    assert Normalize(e, sqrt).Ok?;
    NormalizeIsUnit(e, sqrt);
    var n := Normal(t, sqrt);
    var m := Magnitude(e, sqrt);
    assert Scale(n, m) == e;
    assert m != 0.0;
    CrossOrthogonal(Points.FromPoints(t.a, t.b), Points.FromPoints(t.a, t.c));
    DotOfScaleZero(n, m, Points.FromPoints(t.a, t.b));
    DotOfScaleZero(n, m, Points.FromPoints(t.a, t.c));
  }

  /** A vector whose non-zero multiple is orthogonal to `x` is itself orthogonal to `x`. */
  lemma DotOfScaleZero(n: Vector3D, m: real, x: Vector3D)
    requires m != 0.0 && Dot(Scale(n, m), x) == 0.0
    ensures Dot(n, x) == 0.0
  {
    assert Dot(Scale(n, m), x) == m * Dot(n, x);
  }

  function Area(t: Triangle, sqrt: real -> real): real
  {
    Magnitude(EdgeCross(t), sqrt) * 0.5
  }

  function Centroid(t: Triangle): Point3D
  {
    Point3D((t.a.x + t.b.x + t.c.x) / 3.0, (t.a.y + t.b.y + t.c.y) / 3.0, (t.a.z + t.b.z + t.c.z) / 3.0)
  }

  /**
   * The plane through the three vertices.  The source unwraps the result,
   * relying on the vertices having been checked by `New`; that check and an
   * exact square root at the cross product's squared magnitude are the
   * precondition.
   */
  function ToPlane(t: Triangle, sqrt: real -> real): (p: Planes.Plane)
    requires !Collinear(t.a, t.b, t.c)
    requires SqrtAt(sqrt, MagnitudeSquared(EdgeCross(t)))
    ensures Planes.FromThreePoints(t.a, t.b, t.c, sqrt) == Ok(p)
  {
    Planes.FromThreePointsSucceeds(t.a, t.b, t.c, sqrt);
    Planes.FromThreePoints(t.a, t.b, t.c, sqrt).value
  }

  /** The tight componentwise bounds of the three vertices. */
  function TightMin(t: Triangle): Point3D
  {
    Boxes.MinPoint(Boxes.MinPoint(t.a, t.b), t.c)
  }

  function TightMax(t: Triangle): Point3D
  {
    Boxes.MaxPoint(Boxes.MaxPoint(t.a, t.b), t.c)
  }

  /**
   * The tight box when it is valid; otherwise the tight bounds padded by
   * 0.001 on every side, which are always valid, so the second unwrap never
   * fails.
   */
  function BoundingBox(t: Triangle): (b: Boxes.AABB)
    ensures Boxes.StrictlyOrdered(b.min, b.max)
  {
    var lo := TightMin(t);
    var hi := TightMax(t);
    var tight := Boxes.New(lo, hi);
    if tight.Ok? then tight.value
    else
      Boxes.New(Point3D(lo.x - 0.001, lo.y - 0.001, lo.z - 0.001),
                Point3D(hi.x + 0.001, hi.y + 0.001, hi.z + 0.001)).value
  }

  /** Barycentric coordinates `(u, v, w)` of `p` with respect to `(a, b, c)`. */
  function BarycentricCoords(t: Triangle, p: Point3D): (real, real, real)
  {
    EdgeCoords(Points.FromPoints(t.a, t.b), Points.FromPoints(t.a, t.c), Points.FromPoints(t.a, p))
  }

  /** The coordinates of `v2` in the basis of edges `v0`, `v1`, through their dot products. */
  function EdgeCoords(v0: Vector3D, v1: Vector3D, v2: Vector3D): (real, real, real)
  {
    SolveCoords(Dot(v0, v0), Dot(v0, v1), Dot(v1, v1), Dot(v2, v0), Dot(v2, v1))
  }

  /** Cramer's rule on the 2×2 Gram system; `(1, 0, 0)` when its determinant is approximately zero. */
  function SolveCoords(d00: real, d01: real, d11: real, d20: real, d21: real): (real, real, real)
  {
    var denom := d00 * d11 - d01 * d01;
    if ApproxZero(denom) then (1.0, 0.0, 0.0)
    else
      var v := (d11 * d20 - d01 * d21) / denom;
      var w := (d00 * d21 - d01 * d20) / denom;
      (1.0 - v - w, v, w)
  }

  /** The Gram determinant `|b - a|² |c - a|² - ((b - a)·(c - a))²` of the two edges. */
  function GramDenominator(t: Triangle): real
  {
    Gram(Points.FromPoints(t.a, t.b), Points.FromPoints(t.a, t.c))
  }

  function Gram(x: Vector3D, y: Vector3D): real
  {
    Dot(x, x) * Dot(y, y) - Dot(x, y) * Dot(x, y)
  }

  /** On the supporting plane and all barycentric coordinates non-negative. */
  predicate ContainsPoint(t: Triangle, p: Point3D, sqrt: real -> real)
    requires !Collinear(t.a, t.b, t.c)
    requires SqrtAt(sqrt, MagnitudeSquared(EdgeCross(t)))
  {
    Planes.ContainsPoint(ToPlane(t, sqrt), p)
    && var (u, v, w) := BarycentricCoords(t, p);
       u >= 0.0 && v >= 0.0 && w >= 0.0
  }

  /** `PartialEq`: the vertices approximately equal, in order. */
  predicate ApproxEqual(t1: Triangle, t2: Triangle)
  {
    Points.ApproxEqual(t1.a, t2.a) && Points.ApproxEqual(t1.b, t2.b) && Points.ApproxEqual(t1.c, t2.c)
  }

  /** The point `a + v (b - a) + w (c - a)`. */
  function Combination(t: Triangle, v: real, w: real): Point3D
  {
    Translate(t.a, Add(Scale(Points.FromPoints(t.a, t.b), v), Scale(Points.FromPoints(t.a, t.c), w)))
  }

  // ---------------------------------------------------------------------
  // Properties

  /** Construction fails exactly on collinear vertices, as a degenerate case. */
  lemma CollinearRejected(a: Point3D, b: Point3D, c: Point3D)
    ensures Collinear(a, b, c) ==> New(a, b, c).Err? && New(a, b, c).error.DegenerateCase?
    ensures !Collinear(a, b, c) ==> New(a, b, c) == Ok(Triangle(a, b, c))
  {
  }

  lemma ZeroCrossCollinear(a: Point3D, b: Point3D, c: Point3D)
    requires Cross(Points.FromPoints(a, b), Points.FromPoints(a, c)) == Zero()
    ensures Collinear(a, b, c)
  {
    assert MagnitudeSquared(Zero()) == 0.0;
  }

  lemma UnitCrossNotCollinear(a: Point3D, b: Point3D, c: Point3D)
    requires Cross(Points.FromPoints(a, b), Points.FromPoints(a, c)) == UnitZ()
    ensures !Collinear(a, b, c)
  {
    assert MagnitudeSquared(UnitZ()) == 1.0;
  }

  lemma RightTriangleEdges(a: Point3D, b: Point3D, c: Point3D)
    requires a == Origin() && b == Point3D(1.0, 0.0, 0.0) && c == Point3D(0.0, 1.0, 0.0)
    ensures Cross(Points.FromPoints(a, b), Points.FromPoints(a, c)) == UnitZ()
  {
    assert Points.FromPoints(a, b) == UnitX() && Points.FromPoints(a, c) == UnitY();
    CyclicCross(UnitX(), UnitY(), UnitZ());
  }

  lemma CollinearEdges(a: Point3D, b: Point3D, c: Point3D)
    requires a == Origin() && b == Point3D(1.0, 0.0, 0.0) && c == Point3D(2.0, 0.0, 0.0)
    ensures Cross(Points.FromPoints(a, b), Points.FromPoints(a, c)) == Zero()
  {
    assert Points.FromPoints(a, b) == UnitX() && Points.FromPoints(a, c) == Scale(UnitX(), 2.0);
    ParallelToMultiple(UnitX(), 2.0);
  }

  /** The right triangle (0,0,0), (1,0,0), (0,1,0) is accepted. */
  lemma NewAcceptsExample(a: Point3D, b: Point3D, c: Point3D)
    requires a == Origin() && b == Point3D(1.0, 0.0, 0.0) && c == Point3D(0.0, 1.0, 0.0)
    ensures New(a, b, c) == Ok(Triangle(a, b, c))
  {
    RightTriangleEdges(a, b, c);
    UnitCrossNotCollinear(a, b, c);
    CollinearRejected(a, b, c);
  }

  /** The collinear points (0,0,0), (1,0,0), (2,0,0) are rejected. */
  lemma NewRejectsCollinearExample(a: Point3D, b: Point3D, c: Point3D)
    requires a == Origin() && b == Point3D(1.0, 0.0, 0.0) && c == Point3D(2.0, 0.0, 0.0)
    ensures New(a, b, c).Err? && New(a, b, c).error.DegenerateCase?
  {
    CollinearEdges(a, b, c);
    ZeroCrossCollinear(a, b, c);
    CollinearRejected(a, b, c);
  }

  /** The centroid is the average of the vertices: a third of the way from `a` to the sum of the edges. */
  lemma CentroidIsAverage(t: Triangle)
    ensures Centroid(t) == Combination(t, 1.0 / 3.0, 1.0 / 3.0)
    ensures Centroid(Triangle(t.b, t.c, t.a)) == Centroid(t)
  {
  }

  lemma CentroidExample()
    ensures Centroid(Triangle(Origin(), Point3D(3.0, 0.0, 0.0), Point3D(0.0, 3.0, 0.0))) == Point3D(1.0, 1.0, 0.0)
  {
  }

  /** With a square root exact at `|(b - a) × (c - a)|²`, the area is half the cross product's length. */
  lemma AreaIsHalfCross(t: Triangle, sqrt: real -> real, m: real)
    requires 0.0 <= m && MagnitudeSquared(EdgeCross(t)) == m * m
    requires SqrtAt(sqrt, m * m)
    ensures Area(t, sqrt) == m * 0.5
  {
    SqrtOfSquare(sqrt, m);
  }

  /** The right triangle with legs of length 2 has area 2. */
  lemma AreaExample(t: Triangle, sqrt: real -> real)
    requires t == Triangle(Origin(), Point3D(2.0, 0.0, 0.0), Point3D(0.0, 2.0, 0.0))
    requires SqrtAt(sqrt, 16.0)
    ensures Area(t, sqrt) == 2.0
  {
    AreaExampleCross(t);
    AreaOfCrossFour(t, sqrt);
  }

  lemma AreaOfCrossFour(t: Triangle, sqrt: real -> real)
    requires MagnitudeSquared(EdgeCross(t)) == 4.0 * 4.0
    requires SqrtAt(sqrt, 16.0)
    ensures Area(t, sqrt) == 2.0
  {
    AreaIsHalfCross(t, sqrt, 4.0);
  }

  lemma AreaExampleCross(t: Triangle)
    requires t == Triangle(Origin(), Point3D(2.0, 0.0, 0.0), Point3D(0.0, 2.0, 0.0))
    ensures MagnitudeSquared(EdgeCross(t)) == 4.0 * 4.0
  {
    calc {
      MagnitudeSquared(EdgeCross(t));
      == { AreaExampleEdges(t); }
      MagnitudeSquared(Vector3D(0.0, 0.0, 4.0));
      == 4.0 * 4.0;
    }
  }

  lemma AreaExampleEdges(t: Triangle)
    requires t == Triangle(Origin(), Point3D(2.0, 0.0, 0.0), Point3D(0.0, 2.0, 0.0))
    ensures EdgeCross(t) == Vector3D(0.0, 0.0, 4.0)
  {
    assert Points.FromPoints(t.a, t.b) == Vector3D(2.0, 0.0, 0.0);
    assert Points.FromPoints(t.a, t.c) == Vector3D(0.0, 2.0, 0.0);
    CrossOfLegs(Points.FromPoints(t.a, t.b), Points.FromPoints(t.a, t.c));
  }

  /** The edges are parameters pinned by the precondition, which keeps the solver's products on plain numbers. */
  lemma CrossOfLegs(x: Vector3D, y: Vector3D)
    requires x == Vector3D(2.0, 0.0, 0.0) && y == Vector3D(0.0, 2.0, 0.0)
    ensures Cross(x, y) == Vector3D(0.0, 0.0, 4.0)
  {
  }

  /** The box contains all three vertices and is always valid in the strict sense of `Boxes.New`. */
  lemma BoundingBoxContainsVertices(t: Triangle)
    ensures Boxes.ContainsPoint(BoundingBox(t), t.a)
    ensures Boxes.ContainsPoint(BoundingBox(t), t.b)
    ensures Boxes.ContainsPoint(BoundingBox(t), t.c)
    ensures Boxes.New(BoundingBox(t).min, BoundingBox(t).max).Ok?
    ensures Boxes.StrictlyOrdered(TightMin(t), TightMax(t)) ==>
              BoundingBox(t) == Boxes.AABB(TightMin(t), TightMax(t))
  {
  }

  /** A triangle in the plane z = 0 gets a box padded by 0.001 in z. */
  lemma BoundingBoxPadsFlat()
    ensures BoundingBox(Triangle(Origin(), Point3D(1.0, 0.0, 0.0), Point3D(0.0, 1.0, 0.0)))
            == Boxes.AABB(Point3D(-0.001, -0.001, -0.001), Point3D(1.001, 1.001, 0.001))
  {
  }

  /** The coordinates always sum to one, and are `(1, 0, 0)` when the edges are (nearly) dependent. */
  lemma BarycentricSumsToOne(t: Triangle, p: Point3D)
    ensures var (u, v, w) := BarycentricCoords(t, p); u + v + w == 1.0
    ensures ApproxZero(GramDenominator(t)) ==> BarycentricCoords(t, p) == (1.0, 0.0, 0.0)
  {
  }

  lemma DotOfCombination(e0: Vector3D, e1: Vector3D, v: real, w: real, x: Vector3D)
    ensures Dot(Add(Scale(e0, v), Scale(e1, w)), x) == v * Dot(e0, x) + w * Dot(e1, x)
  {
  }

  /** Cramer's rule solves the system: right-hand sides built from `v`, `w` give back `v`, `w`. */
  lemma SolveGram(d00: real, d01: real, d11: real, d20: real, d21: real, g: real, v: real, w: real)
    requires g == d00 * d11 - d01 * d01 && !ApproxZero(g)
    requires d20 == v * d00 + w * d01
    requires d21 == v * d01 + w * d11
    ensures SolveCoords(d00, d01, d11, d20, d21) == (1.0 - v - w, v, w)
  {
    var denom := d00 * d11 - d01 * d01;
    var nv := d11 * d20 - d01 * d21;
    var nw := d00 * d21 - d01 * d20;
    assert nv == v * denom;
    assert nw == w * denom;
    DivideProduct(nv, v, denom);
    DivideProduct(nw, w, denom);
  }

  lemma DivideProduct(n: real, q: real, d: real)
    requires d != 0.0 && n == q * d
    ensures n / d == q
  {
  }

  /** Solving for the coordinates of `v x + w y` gives back `v` and `w`. */
  lemma EdgeCoordsOfCombination(x: Vector3D, y: Vector3D, v: real, w: real)
    requires !ApproxZero(Gram(x, y))
    ensures EdgeCoords(x, y, Add(Scale(x, v), Scale(y, w))) == (1.0 - v - w, v, w)
  {
    DotOfCombination(x, y, v, w, x);
    DotOfCombination(x, y, v, w, y);
    DotSymmetric(x, y);
    var q := Add(Scale(x, v), Scale(y, w));
    SolveGram(Dot(x, x), Dot(x, y), Dot(y, y), Dot(q, x), Dot(q, y), Gram(x, y), v, w);
  }

  /**
   * When the Gram determinant is not approximately zero, the coordinates of
   * `a + v (b - a) + w (c - a)` are `(1 - v - w, v, w)`: the function inverts
   * the combination.
   */
  lemma BarycentricRecoversCombination(t: Triangle, v: real, w: real)
    requires !ApproxZero(GramDenominator(t))
    ensures BarycentricCoords(t, Combination(t, v, w)) == (1.0 - v - w, v, w)
  {
    var v0 := Points.FromPoints(t.a, t.b);
    var v1 := Points.FromPoints(t.a, t.c);
    var q := Add(Scale(v0, v), Scale(v1, w));
    TranslateMinusRoundTrip(t.a, t.a, q);
    assert Points.FromPoints(t.a, Combination(t, v, w)) == q;
    EdgeCoordsOfCombination(v0, v1, v, w);
  }

  lemma CombinationOfB(t: Triangle)
    ensures Combination(t, 1.0, 0.0) == t.b
  {
    var e0 := Points.FromPoints(t.a, t.b);
    var e1 := Points.FromPoints(t.a, t.c);
    assert Add(Scale(e0, 1.0), Scale(e1, 0.0)) == e0;
  }

  lemma CombinationOfC(t: Triangle)
    ensures Combination(t, 0.0, 1.0) == t.c
  {
    var e0 := Points.FromPoints(t.a, t.b);
    var e1 := Points.FromPoints(t.a, t.c);
    assert Add(Scale(e0, 0.0), Scale(e1, 1.0)) == e1;
  }

  /** Vertex `a` has coordinates (1, 0, 0), whatever the edges. */
  lemma BarycentricOfA(t: Triangle)
    ensures BarycentricCoords(t, t.a) == (1.0, 0.0, 0.0)
  {
    assert Points.FromPoints(t.a, t.a) == Zero();
    EdgeCoordsOfZero(Points.FromPoints(t.a, t.b), Points.FromPoints(t.a, t.c));
  }

  lemma EdgeCoordsOfZero(x: Vector3D, y: Vector3D)
    ensures EdgeCoords(x, y, Zero()) == (1.0, 0.0, 0.0)
  {
    assert Dot(Zero(), x) == 0.0 && Dot(Zero(), y) == 0.0;
    SolveAtOrigin(Dot(x, x), Dot(x, y), Dot(y, y));
  }

  lemma SolveAtOrigin(d00: real, d01: real, d11: real)
    ensures SolveCoords(d00, d01, d11, 0.0, 0.0) == (1.0, 0.0, 0.0)
  {
    var denom := d00 * d11 - d01 * d01;
    assert d11 * 0.0 - d01 * 0.0 == 0.0 && d00 * 0.0 - d01 * 0.0 == 0.0;
    if !ApproxZero(denom) {
      assert 0.0 / denom == 0.0;
    }
  }

  /** Vertex `b` has coordinates (0, 1, 0) when the edges are independent. */
  lemma BarycentricOfB(t: Triangle)
    requires !ApproxZero(GramDenominator(t))
    ensures BarycentricCoords(t, t.b) == (0.0, 1.0, 0.0)
  {
    CombinationOfB(t);
    BarycentricRecoversCombination(t, 1.0, 0.0);
  }

  /** Vertex `c` has coordinates (0, 0, 1) when the edges are independent. */
  lemma BarycentricOfC(t: Triangle)
    requires !ApproxZero(GramDenominator(t))
    ensures BarycentricCoords(t, t.c) == (0.0, 0.0, 1.0)
  {
    CombinationOfC(t);
    BarycentricRecoversCombination(t, 0.0, 1.0);
  }

  /** Lagrange's identity: `|x|²|y|² - (x·y)² = |x × y|²`. */
  lemma Lagrange(x: Vector3D, y: Vector3D)
    ensures Gram(x, y) == MagnitudeSquared(Cross(x, y))
  {
  }

  /** A triangle that `New` accepts has a Gram determinant that is not approximately zero. */
  lemma GramOfNonCollinear(t: Triangle)
    requires !Collinear(t.a, t.b, t.c)
    ensures !ApproxZero(GramDenominator(t))
  {
    GramIsCrossMagnitude(t);
  }

  /** The Gram determinant of the edges is the squared magnitude of their cross product. */
  lemma GramIsCrossMagnitude(t: Triangle)
    ensures GramDenominator(t) == MagnitudeSquared(EdgeCross(t))
  {
    Lagrange(Points.FromPoints(t.a, t.b), Points.FromPoints(t.a, t.c));
  }

  /** A point off the supporting plane is never contained. */
  lemma OffPlaneNotContained(t: Triangle, p: Point3D, sqrt: real -> real)
    requires !Collinear(t.a, t.b, t.c)
    requires SqrtAt(sqrt, MagnitudeSquared(EdgeCross(t)))
    ensures !Planes.ContainsPoint(ToPlane(t, sqrt), p) ==> !ContainsPoint(t, p, sqrt)
  {
  }

  /** Every vertex of a triangle accepted by `New` is contained in it. */
  lemma VerticesContained(t: Triangle, sqrt: real -> real)
    requires !Collinear(t.a, t.b, t.c)
    requires SqrtAt(sqrt, MagnitudeSquared(EdgeCross(t)))
    ensures ContainsPoint(t, t.a, sqrt) && ContainsPoint(t, t.b, sqrt) && ContainsPoint(t, t.c, sqrt)
  {
    Planes.FromThreePointsSucceeds(t.a, t.b, t.c, sqrt);
    Planes.FromThreePointsContainsPoints(t.a, t.b, t.c, sqrt);
    GramOfNonCollinear(t);
    BarycentricOfA(t);
    BarycentricOfB(t);
    BarycentricOfC(t);
  }
}
