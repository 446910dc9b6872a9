/**
 * The projection pipeline of the SVG renderer: 4x4 matrix products,
 * matrix-point products in homogeneous coordinates, the perspective divide
 * and the map from normalised device coordinates to the screen.
 */
module Projection {
  import opened Float
  import opened Vectors
  import opened Points
  import opened Matrices
  import opened Cameras

  /** `multiply_matrix_point`: the matrix applied to `[p.x, p.y, p.z, 1]`. */
  function MultiplyMatrixPoint(m: Matrix4, p: Point3D): Vec4
  {
    [m[0][0] * p.x + m[0][1] * p.y + m[0][2] * p.z + m[0][3],
     m[1][0] * p.x + m[1][1] * p.y + m[1][2] * p.z + m[1][3],
     m[2][0] * p.x + m[2][1] * p.y + m[2][2] * p.z + m[2][3],
     m[3][0] * p.x + m[3][1] * p.y + m[3][2] * p.z + m[3][3]]
  }

  /** The homogeneous coordinate of a point. */
  function Homogeneous(p: Point3D): Vec4
  {
    [p.x, p.y, p.z, 1.0]
  }

  /** A row of a matrix times a homogeneous vector. */
  function RowTimes(row: seq<real>, v: Vec4): real
    requires |row| == 4
  {
    row[0] * v[0] + row[1] * v[1] + row[2] * v[2] + row[3] * v[3]
  }

  /** The matrix applied to an arbitrary homogeneous vector. */
  function Apply(m: Matrix4, v: Vec4): Vec4
  {
    [RowTimes(m[0], v), RowTimes(m[1], v), RowTimes(m[2], v), RowTimes(m[3], v)]
  }

  // ---------------------------------------------------------------------
  // Matrix products

  /** `a[i][0] * b[0][j] + ... + a[i][n-1] * b[n-1][j]`, summed from `k = 0` upwards as the iterator's `sum` does. */
  function PartialDot(a: Matrix4, b: Matrix4, i: nat, j: nat, n: nat): real
    requires i < 4 && j < 4 && n <= 4
  {
    if n == 0 then 0.0 else PartialDot(a, b, i, j, n - 1) + a[i][n - 1] * b[n - 1][j]
  }

  /** Entry `(i, j)` of the product: the sum over `k` of `a[i][k] * b[k][j]`. */
  function Entry(a: Matrix4, b: Matrix4, i: nat, j: nat): real
    requires i < 4 && j < 4
  {
    PartialDot(a, b, i, j, 4)
  }

  /** The matrix product, entry by entry. */
  function Product(a: Matrix4, b: Matrix4): (r: Matrix4)
    ensures forall i, j | 0 <= i < 4 && 0 <= j < 4 :: r[i][j] == Entry(a, b, i, j)
  {
    seq(4, i requires 0 <= i < 4 => seq(4, j requires 0 <= j < 4 => Entry(a, b, i, j)))
  }

  /** `multiply_matrices`: fills a zero matrix entry by entry, row by row. */
  method MultiplyMatrices(a: Matrix4, b: Matrix4) returns (result: Matrix4)
    ensures result == Product(a, b)
  {
    result := ZeroMatrix();
    for i := 0 to 4
      invariant forall r, c | 0 <= r < i && 0 <= c < 4 :: result[r][c] == Entry(a, b, r, c)
    {
      for j := 0 to 4
        invariant forall r, c | 0 <= r < i && 0 <= c < 4 :: result[r][c] == Entry(a, b, r, c)
        invariant forall c | 0 <= c < j :: result[i][c] == Entry(a, b, i, c)
      {
        result := result[i := result[i][j := Entry(a, b, i, j)]];
      }
    }
    assert forall r | 0 <= r < 4 :: result[r] == Product(a, b)[r];
  }

  // ---------------------------------------------------------------------
  // Perspective divide and screen mapping

  /** `perspective_divide`: `x, y, z` divided by `w`, or returned as they are when `|w| < 1e-10`. */
  function PerspectiveDivide(h: Vec4): (r: (real, real, real))
    ensures Abs(h[3]) < 0.0000000001 ==> r == (h[0], h[1], h[2])
    ensures Abs(h[3]) >= 0.0000000001 ==> r.0 * h[3] == h[0] && r.1 * h[3] == h[1] && r.2 * h[3] == h[2]
  {
    if Abs(h[3]) < 0.0000000001 then
      (h[0], h[1], h[2])
    else
      (h[0] / h[3], h[1] / h[3], h[2] / h[3])
  }

  /**
   * Normalised device coordinates to pixels: x grows to the right from
   * `-1 -> 0` to `1 -> width`, y is flipped so that `1 -> 0` is the top row.
   */
  function NdcToScreen(ndcX: real, ndcY: real, width: nat, height: nat): (r: (real, real))
    ensures width > 0 ==> (-1.0 <= ndcX <= 1.0 <==> 0.0 <= r.0 <= width as real)
    ensures height > 0 ==> (-1.0 <= ndcY <= 1.0 <==> 0.0 <= r.1 <= height as real)
    ensures ndcX == 0.0 && ndcY == 0.0 ==> r == (width as real / 2.0, height as real / 2.0)
  {
    var sx := (ndcX + 1.0) * 0.5 * width as real;
    var sy := (1.0 - ndcY) * 0.5 * height as real;
    HalfScaled(ndcX + 1.0, width as real, sx);
    HalfScaled(1.0 - ndcY, height as real, sy);
    (sx, sy)
  }

  /** `t * 0.5 * w` lies in `[0, w]` exactly when `t` lies in `[0, 2]`. */
  lemma HalfScaled(t: real, w: real, s: real)
    requires s == t * 0.5 * w
    ensures w > 0.0 ==> (0.0 <= s <= w <==> 0.0 <= t <= 2.0)
  {
    if w > 0.0 {
      var h := t * 0.5;
      assert s == h * w;
      assert s - w == (h - 1.0) * w;
      if h < 0.0 { assert h * w < 0.0; }
      if h > 1.0 { assert (h - 1.0) * w > 0.0; }
      if 0.0 <= h { assert h * w >= 0.0; }
      if h <= 1.0 { assert (h - 1.0) * w <= 0.0; }
    }
  }

  /** The product of the projection and the view matrix of the camera. */
  function ViewProjection(camera: Camera, sqrt: real -> real, tan: real -> real): Matrix4
    requires ProjectionDefined(camera, tan)
  {
    Product(ProjectionMatrix(camera, tan), ViewMatrix(camera, sqrt))
  }

  /** `project_point`: through the view-projection matrix and the divide onto the screen. */
  function ProjectPoint(point: Point3D, camera: Camera, width: nat, height: nat,
                        sqrt: real -> real, tan: real -> real): (real, real)
    requires ProjectionDefined(camera, tan)
  {
    var homogeneous := MultiplyMatrixPoint(ViewProjection(camera, sqrt, tan), point);
    var (ndcX, ndcY, _) := PerspectiveDivide(homogeneous);
    NdcToScreen(ndcX, ndcY, width, height)
  }

  // ---------------------------------------------------------------------
  // Properties of the matrix products

  /** The product of a matrix with a point is the matrix applied to the point's homogeneous coordinate. */
  lemma PointIsHomogeneous(m: Matrix4, p: Point3D)
    ensures MultiplyMatrixPoint(m, p) == Apply(m, Homogeneous(p))
  {
    var l, r := MultiplyMatrixPoint(m, p), Apply(m, Homogeneous(p));
    RowTimesPoint(m[0], p);
    RowTimesPoint(m[1], p);
    RowTimesPoint(m[2], p);
    RowTimesPoint(m[3], p);
    assert l[0] == r[0] && l[1] == r[1] && l[2] == r[2] && l[3] == r[3];
  }

  lemma RowTimesPoint(row: seq<real>, p: Point3D)
    requires |row| == 4
    ensures RowTimes(row, Homogeneous(p)) == row[0] * p.x + row[1] * p.y + row[2] * p.z + row[3]
  {
    assert row[3] * 1.0 == row[3];
  }

  /** The identity maps a point to its homogeneous coordinate `[x, y, z, 1]`. */
  lemma IdentityPoint(p: Point3D)
    ensures MultiplyMatrixPoint(Identity(), p) == [p.x, p.y, p.z, 1.0]
  {
    var m := Identity();
    var r := MultiplyMatrixPoint(m, p);
    assert r[0] == 1.0 * p.x + 0.0 * p.y + 0.0 * p.z + 0.0 == p.x;
    assert r[1] == 0.0 * p.x + 1.0 * p.y + 0.0 * p.z + 0.0 == p.y;
    assert r[2] == 0.0 * p.x + 0.0 * p.y + 1.0 * p.z + 0.0 == p.z;
    assert r[3] == 0.0 * p.x + 0.0 * p.y + 0.0 * p.z + 1.0 == 1.0;
  }

  /** An entry of the product written out as its four products. */
  lemma EntryExpanded(a: Matrix4, b: Matrix4, i: nat, j: nat)
    requires i < 4 && j < 4
    ensures Entry(a, b, i, j) == a[i][0] * b[0][j] + a[i][1] * b[1][j] + a[i][2] * b[2][j] + a[i][3] * b[3][j]
  {
    assert PartialDot(a, b, i, j, 1) == a[i][0] * b[0][j];
    assert PartialDot(a, b, i, j, 2) == PartialDot(a, b, i, j, 1) + a[i][1] * b[1][j];
    assert PartialDot(a, b, i, j, 3) == PartialDot(a, b, i, j, 2) + a[i][2] * b[2][j];
  }

  /** Row `i` of the product applied to `v` is row `i` of `a` applied to `b v`. */
  lemma ApplyProductRow(a: Matrix4, b: Matrix4, v: Vec4, i: nat)
    requires i < 4
    ensures RowTimes(Product(a, b)[i], v) == RowTimes(a[i], Apply(b, v))
  {
    EntryExpanded(a, b, i, 0);
    EntryExpanded(a, b, i, 1);
    EntryExpanded(a, b, i, 2);
    EntryExpanded(a, b, i, 3);
  }

  /** Applying a product applies its factors in turn, right factor first. */
  lemma ApplyProduct(a: Matrix4, b: Matrix4, v: Vec4)
    ensures Apply(Product(a, b), v) == Apply(a, Apply(b, v))
  {
    ApplyProductRow(a, b, v, 0);
    ApplyProductRow(a, b, v, 1);
    ApplyProductRow(a, b, v, 2);
    ApplyProductRow(a, b, v, 3);
  }

  /** The identity is neutral on both sides of the product. */
  lemma IdentityNeutral(m: Matrix4)
    ensures Product(Identity(), m) == m
    ensures Product(m, Identity()) == m
  {
    forall i, j | 0 <= i < 4 && 0 <= j < 4
      ensures Product(Identity(), m)[i][j] == m[i][j] && Product(m, Identity())[i][j] == m[i][j]
    {
      EntryExpanded(Identity(), m, i, j);
      EntryExpanded(m, Identity(), i, j);
    }
    assert forall i | 0 <= i < 4 :: Product(Identity(), m)[i] == m[i];
    assert forall i | 0 <= i < 4 :: Product(m, Identity())[i] == m[i];
  }

  /** The product of two affine matrices is affine: its bottom row is `[0, 0, 0, 1]`. */
  lemma AffineProduct(a: Matrix4, b: Matrix4)
    requires a[3] == AffineRow() && b[3] == AffineRow()
    ensures Product(a, b)[3] == AffineRow()
  {
    EntryExpanded(a, b, 3, 0);
    EntryExpanded(a, b, 3, 1);
    EntryExpanded(a, b, 3, 2);
    EntryExpanded(a, b, 3, 3);
  }

  /** The unit test's product: identity times identity is the identity. */
  lemma IdentitySquared()
    ensures Product(Identity(), Identity()) == Identity()
  {
    IdentityNeutral(Identity());
  }

  // ---------------------------------------------------------------------
  // Properties of the view transform

  /** A basis row applied to a point is the dot product of the basis vector with the point's offset from the camera. */
  lemma BasisRowAt(b: Vector3D, c: Camera, q: Point3D)
    ensures RowTimes(BasisRow(b, c), Homogeneous(q)) == Dot(b, FromPoints(c.position, q))
  {
    assert -Dot(b, PositionVector(c)) * 1.0 == -Dot(b, PositionVector(c));
  }

  lemma DotOfScaled(b: Vector3D, f: Vector3D, m: real)
    ensures Dot(b, Scale(f, m)) == m * Dot(b, f)
  {
  }

  /** Applying the look-at matrix to a point gives the offset of the point from the camera in the frame's coordinates. */
  lemma LookAtApplied(r: Vector3D, f: Vector3D, c: Camera, q: Point3D)
    ensures MultiplyMatrixPoint(LookAt(r, f, PositionVector(c)), q) ==
      [Dot(r, FromPoints(c.position, q)), Dot(Cross(r, f), FromPoints(c.position, q)),
       Dot(Neg(f), FromPoints(c.position, q)), 1.0]
  {
    var m := LookAt(r, f, PositionVector(c));
    LookAtRows(r, f, c);
    PointIsHomogeneous(m, q);
    BasisRowAt(r, c, q);
    BasisRowAt(Cross(r, f), c, q);
    BasisRowAt(Neg(f), c, q);
    assert RowTimes(AffineRow(), Homogeneous(q)) == 1.0;
  }

  /** The look-at matrix maps the eye point to the origin of view space. */
  lemma LookAtEye(r: Vector3D, f: Vector3D, c: Camera)
    ensures MultiplyMatrixPoint(LookAt(r, f, PositionVector(c)), c.position) == [0.0, 0.0, 0.0, 1.0]
  {
    LookAtApplied(r, f, c, c.position);
    assert FromPoints(c.position, c.position) == Zero();
  }

  /** The camera sits at the origin of view space. */
  lemma ViewMapsPositionToOrigin(c: Camera, sqrt: real -> real)
    ensures MultiplyMatrixPoint(ViewMatrix(c, sqrt), c.position) == [0.0, 0.0, 0.0, 1.0]
  {
    LookAtEye(Right(c, sqrt), Forward(c, sqrt), c);
  }

  /**
   * A point at distance `m` along a unit forward vector that is perpendicular
   * to right is mapped onto the negative z axis of view space, at depth `-m`.
   */
  lemma LookAtAxis(r: Vector3D, f: Vector3D, m: real, c: Camera)
    requires Dot(r, f) == 0.0 && Dot(f, f) == 1.0
    requires FromPoints(c.position, c.target) == Scale(f, m)
    ensures MultiplyMatrixPoint(LookAt(r, f, PositionVector(c)), c.target) == [0.0, 0.0, -m, 1.0]
  {
    var u := Cross(r, f);
    LookAtApplied(r, f, c, c.target);
    DotOfScaled(r, f, m);
    DotOfScaled(u, f, m);
    DotOfScaled(Neg(f), f, m);
    CrossOrthogonal(r, f);
    DotOfNegated(f, f);
  }

  lemma DotOfNegated(f: Vector3D, g: Vector3D)
    ensures Dot(Neg(f), g) == -Dot(f, g)
  {
  }

  /**
   * When neither forward nor right falls back, the target lies on the
   * negative z axis of view space, at minus its distance from the camera.
   */
  lemma ViewMapsTargetToAxis(c: Camera, sqrt: real -> real)
    requires SqrtAt(sqrt, MagnitudeSquared(FromPoints(c.position, c.target))) && SqrtAt(sqrt, 1.0)
    requires Normalize(FromPoints(c.position, c.target), sqrt).Ok?
    requires Normalize(Cross(Forward(c, sqrt), c.up), sqrt).Ok?
    ensures MultiplyMatrixPoint(ViewMatrix(c, sqrt), c.target) ==
      [0.0, 0.0, -Magnitude(FromPoints(c.position, c.target), sqrt), 1.0]
  {
    ForwardTowardsTarget(c, sqrt);
    BasisOrthogonal(c, sqrt);
    LookAtAxis(Right(c, sqrt), Forward(c, sqrt), Magnitude(FromPoints(c.position, c.target), sqrt), c);
  }

  // ---------------------------------------------------------------------
  // Properties of the whole projection

  /** Projecting with the view-projection product is projecting the point's view-space coordinate. */
  lemma ViewThenProjection(point: Point3D, c: Camera, sqrt: real -> real, tan: real -> real)
    requires ProjectionDefined(c, tan)
    ensures MultiplyMatrixPoint(ViewProjection(c, sqrt, tan), point) ==
      Apply(ProjectionMatrix(c, tan), MultiplyMatrixPoint(ViewMatrix(c, sqrt), point))
  {
    var p, v := ProjectionMatrix(c, tan), ViewMatrix(c, sqrt);
    PointIsHomogeneous(Product(p, v), point);
    ApplyProduct(p, v, Homogeneous(point));
    PointIsHomogeneous(v, point);
  }

  /** An affine matrix gives `w = 1`, so the perspective divide passes x, y and z through. */
  lemma AffineWIsOne(m: Matrix4, point: Point3D)
    requires m[3] == AffineRow()
    ensures MultiplyMatrixPoint(m, point)[3] == 1.0
    ensures PerspectiveDivide(MultiplyMatrixPoint(m, point)) ==
      (MultiplyMatrixPoint(m, point)[0], MultiplyMatrixPoint(m, point)[1], MultiplyMatrixPoint(m, point)[2])
  {
    RowTimesPoint(m[3], point);
    assert RowTimes(AffineRow(), Homogeneous(point)) == 1.0;
  }

  /**
   * For the orthographic camera `w` is 1 for every point, so the perspective
   * divide passes x, y and z through unchanged.
   */
  lemma OrthographicWIsOne(point: Point3D, c: Camera, sqrt: real -> real, tan: real -> real)
    requires c.Orthographic? && ProjectionDefined(c, tan)
    ensures MultiplyMatrixPoint(ViewProjection(c, sqrt, tan), point)[3] == 1.0
    ensures var h := MultiplyMatrixPoint(ViewProjection(c, sqrt, tan), point);
      PerspectiveDivide(h) == (h[0], h[1], h[2])
  {
    OrthographicRows(c, tan);
    ViewMatrixRows(c, sqrt);
    AffineProduct(ProjectionMatrix(c, tan), ViewMatrix(c, sqrt));
    AffineWIsOne(ViewProjection(c, sqrt, tan), point);
  }

  lemma Cancel(x: real, y: real, k: real)
    requires k != 0.0 && x * k == y * k
    ensures x == y
  {
    assert x == (x * k) / k;
    assert y == (y * k) / k;
  }

  /** The depth coefficients send `z = -near` to `-near` and `z = -far` to `far`. */
  lemma DepthCoefficients(cc: real, d: real, near: real, far: real)
    requires far - near != 0.0
    requires cc * (far - near) == -(far + near) && d * (far - near) == -(2.0 * far * near)
    ensures cc * -near + d == -near
    ensures cc * -far + d == far
  {
    var k := far - near;
    assert (cc * -near + d) * k == -near * (cc * k) + d * k;
    assert -near * -(far + near) + -(2.0 * far * near) == -near * k;
    Cancel(cc * -near + d, -near, k);
    assert (cc * -far + d) * k == -far * (cc * k) + d * k;
    assert -far * -(far + near) + -(2.0 * far * near) == far * k;
    Cancel(cc * -far + d, far, k);
  }

  /** The divided depth of `[x, y, z, 1]` under a matrix whose last two rows are `[0, 0, _, _]` and `[0, 0, -1, 0]`. */
  lemma DividedDepth(m: Matrix4, x: real, y: real, z: real, depth: real)
    requires m[2][0] == m[2][1] == 0.0 && m[3] == [0.0, 0.0, -1.0, 0.0]
    requires m[2][2] * z + m[2][3] == depth
    requires Abs(z) >= 0.0000000001
    ensures PerspectiveDivide(Apply(m, [x, y, z, 1.0])).2 * -z == depth
  {
    var h := Apply(m, [x, y, z, 1.0]);
    assert h[2] == depth;
    assert h[3] == -z;
  }

  /** A view-space depth `z` that the depth row sends to `z` ends at -1 after the divide. */
  lemma NearDepth(m: Matrix4, x: real, y: real, z: real)
    requires m[2][0] == m[2][1] == 0.0 && m[3] == [0.0, 0.0, -1.0, 0.0]
    requires m[2][2] * z + m[2][3] == z && Abs(z) >= 0.0000000001
    ensures PerspectiveDivide(Apply(m, [x, y, z, 1.0])).2 == -1.0
  {
    var r := PerspectiveDivide(Apply(m, [x, y, z, 1.0])).2;
    DividedDepth(m, x, y, z, z);
    assert -z != 0.0 && r * -z == -1.0 * -z;
    Cancel(r, -1.0, -z);
  }

  /** A view-space depth `z` that the depth row sends to `-z` ends at 1 after the divide. */
  lemma FarDepth(m: Matrix4, x: real, y: real, z: real)
    requires m[2][0] == m[2][1] == 0.0 && m[3] == [0.0, 0.0, -1.0, 0.0]
    requires m[2][2] * z + m[2][3] == -z && Abs(z) >= 0.0000000001
    ensures PerspectiveDivide(Apply(m, [x, y, z, 1.0])).2 == 1.0
  {
    var r := PerspectiveDivide(Apply(m, [x, y, z, 1.0])).2;
    DividedDepth(m, x, y, z, -z);
    assert -z != 0.0 && r * -z == 1.0 * -z;
    Cancel(r, 1.0, -z);
  }

  /** The perspective projection maps the near plane `z = -near` of view space to depth -1. */
  lemma PerspectiveNearPlane(c: Camera, tan: real -> real, x: real, y: real)
    requires c.Perspective? && ProjectionDefined(c, tan) && Abs(c.near) >= 0.0000000001
    ensures PerspectiveDivide(Apply(ProjectionMatrix(c, tan), [x, y, -c.near, 1.0])).2 == -1.0
  {
    var m := ProjectionMatrix(c, tan);
    PerspectiveRows(c, tan);
    DepthCoefficients(m[2][2], m[2][3], c.near, c.far);
    NearDepth(m, x, y, -c.near);
  }

  /** The perspective projection maps the far plane `z = -far` of view space to depth 1. */
  lemma PerspectiveFarPlane(c: Camera, tan: real -> real, x: real, y: real)
    requires c.Perspective? && ProjectionDefined(c, tan) && Abs(c.far) >= 0.0000000001
    ensures PerspectiveDivide(Apply(ProjectionMatrix(c, tan), [x, y, -c.far, 1.0])).2 == 1.0
  {
    var m := ProjectionMatrix(c, tan);
    PerspectiveRows(c, tan);
    DepthCoefficients(m[2][2], m[2][3], c.near, c.far);
    FarDepth(m, x, y, -c.far);
  }

  /** A matrix that reads x only from x and y only from y keeps a point of the z axis on the axis through the divide. */
  lemma AxisStaysCentred(m: Matrix4, v: Vec4)
    requires m[0][1] == m[0][2] == m[0][3] == 0.0 && m[1][0] == m[1][2] == m[1][3] == 0.0
    requires v[0] == 0.0 && v[1] == 0.0
    ensures PerspectiveDivide(Apply(m, v)).0 == 0.0 && PerspectiveDivide(Apply(m, v)).1 == 0.0
  {
    var h := Apply(m, v);
    assert h[0] == m[0][0] * 0.0 + 0.0 * 0.0 + 0.0 * v[2] + 0.0 * v[3] == 0.0;
    assert h[1] == 0.0 * 0.0 + m[1][1] * 0.0 + 0.0 * v[2] + 0.0 * v[3] == 0.0;
  }

  /**
   * When neither forward nor right falls back, the camera's target is drawn
   * at the centre of the screen, for both kinds of camera.
   */
  lemma TargetProjectsToCentre(c: Camera, width: nat, height: nat, sqrt: real -> real, tan: real -> real)
    requires ProjectionDefined(c, tan)
    requires SqrtAt(sqrt, MagnitudeSquared(FromPoints(c.position, c.target))) && SqrtAt(sqrt, 1.0)
    requires Normalize(FromPoints(c.position, c.target), sqrt).Ok?
    requires Normalize(Cross(Forward(c, sqrt), c.up), sqrt).Ok?
    ensures ProjectPoint(c.target, c, width, height, sqrt, tan) == (width as real / 2.0, height as real / 2.0)
  {
    var p := ProjectionMatrix(c, tan);
    var v := MultiplyMatrixPoint(ViewMatrix(c, sqrt), c.target);
    ViewThenProjection(c.target, c, sqrt, tan);
    ViewMapsTargetToAxis(c, sqrt);
    if c.Perspective? {
      PerspectiveRows(c, tan);
      assert p[0][1] == p[0][1..][0];
    } else {
      OrthographicRows(c, tan);
    }
    AxisStaysCentred(p, v);
  }

  /** The unit test's divide: `[2, 4, 6, 2]` becomes `(1, 2, 3)`. */
  lemma PerspectiveDivideExample()
    ensures PerspectiveDivide([2.0, 4.0, 6.0, 2.0]) == (1.0, 2.0, 3.0)
  {
  }

  /** Below the threshold the divide returns the raw coordinates. */
  lemma PerspectiveDivideAtInfinity()
    ensures PerspectiveDivide([2.0, 4.0, 6.0, 0.0]) == (2.0, 4.0, 6.0)
  {
  }

  /** The divide ignores a common non-zero factor of all four coordinates (when both `w`s reach the threshold). */
  lemma DivideIsProjective(h: Vec4, s: real)
    requires Abs(h[3]) >= 0.0000000001 && Abs(s * h[3]) >= 0.0000000001
    ensures PerspectiveDivide([s * h[0], s * h[1], s * h[2], s * h[3]]) == PerspectiveDivide(h)
  {
    assert s != 0.0;
    var g: Vec4 := [s * h[0], s * h[1], s * h[2], s * h[3]];
    assert PerspectiveDivide(g) == (g[0] / g[3], g[1] / g[3], g[2] / g[3]);
    assert PerspectiveDivide(h) == (h[0] / h[3], h[1] / h[3], h[2] / h[3]);
    QuotientOfScaled(h[0], h[3], s);
    QuotientOfScaled(h[1], h[3], s);
    QuotientOfScaled(h[2], h[3], s);
    assert g[0] / g[3] == h[0] / h[3] && g[1] / g[3] == h[1] / h[3] && g[2] / g[3] == h[2] / h[3];
  }

  lemma QuotientOfScaled(x: real, w: real, s: real)
    requires s != 0.0 && w != 0.0
    ensures (s * x) / (s * w) == x / w
  {
    var q := x / w;
    assert q * w == x;
    assert q * (s * w) == s * (q * w);
  }

  lemma QuotientOfProduct(a: real, t: real, w: real)
    requires w != 0.0 && a == t * w
    ensures a / w == t
  {
  }

  /** The screen mapping is inverted by `ndc_x = 2 x / width - 1` and `ndc_y = 1 - 2 y / height`. */
  lemma NdcToScreenInverse(ndcX: real, ndcY: real, width: nat, height: nat)
    requires width > 0 && height > 0
    ensures var (x, y) := NdcToScreen(ndcX, ndcY, width, height);
      2.0 * x / width as real - 1.0 == ndcX && 1.0 - 2.0 * y / height as real == ndcY
  {
    var w, h := width as real, height as real;
    var (x, y) := NdcToScreen(ndcX, ndcY, width, height);
    assert 2.0 * x == (ndcX + 1.0) * w;
    assert 2.0 * y == (1.0 - ndcY) * h;
    QuotientOfProduct(2.0 * x, ndcX + 1.0, w);
    QuotientOfProduct(2.0 * y, 1.0 - ndcY, h);
  }

  /** The forward vector of a camera five units from its target along minus z. */
  lemma TestCameraForward(c: Camera, sqrt: real -> real)
    requires FromPoints(c.position, c.target) == Vector3D(0.0, 0.0, -5.0) && SqrtAt(sqrt, 25.0)
    ensures Normalize(FromPoints(c.position, c.target), sqrt).Ok?
    ensures Forward(c, sqrt) == Vector3D(0.0, 0.0, -1.0)
  {
    SqrtOfSquare(sqrt, 5.0);
    assert MagnitudeSquared(FromPoints(c.position, c.target)) == 5.0 * 5.0;
  }

  lemma TestCameraOffset(p: Point3D, t: Point3D)
    requires p == Point3D(0.0, 0.0, 5.0) && t == Origin()
    ensures FromPoints(p, t) == Vector3D(0.0, 0.0, -5.0)
  {
  }

  lemma TestCameraCross(f: Vector3D, up: Vector3D)
    requires f == Vector3D(0.0, 0.0, -1.0) && up == UnitY()
    ensures Cross(f, up) == UnitX()
  {
  }

  /**
   * The camera of the unit tests, five units up the z axis looking at the
   * origin with up vector y, has a normalisable forward and right.
   */
  lemma TestCameraFrame(c: Camera, sqrt: real -> real)
    requires FromPoints(c.position, c.target) == Vector3D(0.0, 0.0, -5.0) && c.up == UnitY()
    requires SqrtAt(sqrt, 25.0) && SqrtAt(sqrt, 1.0)
    ensures Normalize(FromPoints(c.position, c.target), sqrt).Ok?
    ensures Normalize(Cross(Forward(c, sqrt), c.up), sqrt).Ok?
  {
    TestCameraForward(c, sqrt);
    TestCameraCross(Forward(c, sqrt), c.up);
    UnitXNormalizes(Cross(Forward(c, sqrt), c.up), sqrt);
  }

  lemma UnitXNormalizes(v: Vector3D, sqrt: real -> real)
    requires v == UnitX() && SqrtAt(sqrt, 1.0)
    ensures Normalize(v, sqrt).Ok?
  {
    assert MagnitudeSquared(v) == 1.0;
    NormalizeKeepsUnit(v, sqrt);
  }

  /**
   * The unit tests project the origin with both test cameras onto an
   * 800 x 600 screen and expect a point on the screen; it is the centre.
   * Stated for any camera whose target lies five units down the z axis
   * from its position with up vector y; `TestCameraOffset` shows the test
   * cameras at (0, 0, 5) looking at the origin are such cameras.
   */
  lemma ProjectPointExamples(c: Camera, sqrt: real -> real, tan: real -> real)
    requires FromPoints(c.position, c.target) == Vector3D(0.0, 0.0, -5.0) && c.up == UnitY()
    requires SqrtAt(sqrt, 25.0) && SqrtAt(sqrt, 1.0) && ProjectionDefined(c, tan)
    ensures ProjectPoint(c.target, c, 800, 600, sqrt, tan) == (400.0, 300.0)
  {
    TestCameraFrame(c, sqrt);
    TargetProjectsToCentre(c, 800, 600, sqrt, tan);
  }
}
