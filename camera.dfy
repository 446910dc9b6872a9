/**
 * The virtual camera of the SVG renderer: a look-at view transform built
 * from position, target and up vector, and either a perspective projection
 * (field of view, aspect ratio, near and far planes) or an orthographic one
 * (width and height of the view volume).
 *
 * The square root behind normalisation and the tangent of the half field of
 * view are calls into the floating-point library and are parameters.
 */
module Cameras {
  import opened Float
  import opened Errors
  import opened Vectors
  import opened Points
  import opened Matrices

  datatype Camera =
    | Perspective(position: Point3D, target: Point3D, up: Vector3D,
                  fov: real, aspect: real, near: real, far: real)
    | Orthographic(position: Point3D, target: Point3D, up: Vector3D,
                   width: real, height: real)

  /** `Camera::perspective`: every argument is kept as given. */
  function NewPerspective(position: Point3D, target: Point3D, up: Vector3D,
                          fov: real, aspect: real, near: real, far: real): (c: Camera)
    ensures c.Perspective?
    ensures c.position == position && c.target == target && c.up == up
    ensures c.fov == fov && c.aspect == aspect && c.near == near && c.far == far
  {
    Perspective(position, target, up, fov, aspect, near, far)
  }

  /** `Camera::orthographic`: every argument is kept as given. */
  function NewOrthographic(position: Point3D, target: Point3D, up: Vector3D,
                           width: real, height: real): (c: Camera)
    ensures c.Orthographic?
    ensures c.position == position && c.target == target && c.up == up
    ensures c.width == width && c.height == height
  {
    Orthographic(position, target, up, width, height)
  }

  // ---------------------------------------------------------------------
  // The view transform

  /** The unit viewing direction, or `(0, 0, -1)` when the target cannot be normalised against the position. */
  function Forward(c: Camera, sqrt: real -> real): Vector3D
  {
    match Normalize(FromPoints(c.position, c.target), sqrt)
    case Ok(f) => f
    case Err(_) => Vector3D(0.0, 0.0, -1.0)
  }

  /** The unit `forward x up` of the frame, or `(1, 0, 0)` when that cross product cannot be normalised. */
  function RightOf(forward: Vector3D, up: Vector3D, sqrt: real -> real): Vector3D
  {
    match Normalize(Cross(forward, up), sqrt)
    case Ok(r) => r
    case Err(_) => UnitX()
  }

  function Right(c: Camera, sqrt: real -> real): Vector3D
  {
    RightOf(Forward(c, sqrt), c.up, sqrt)
  }

  function CameraUp(c: Camera, sqrt: real -> real): Vector3D
  {
    Cross(Right(c, sqrt), Forward(c, sqrt))
  }

  function PositionVector(c: Camera): Vector3D
  {
    Vector3D(c.position.x, c.position.y, c.position.z)
  }

  /** A row `[b.x, b.y, b.z, -(b . position)]` of the view matrix for the basis vector `b`. */
  function BasisRow(b: Vector3D, c: Camera): Vec4
  {
    [b.x, b.y, b.z, -Dot(b, PositionVector(c))]
  }

  /**
   * The look-at matrix of an orthonormal frame: rows `right`, `right x
   * forward` and `-forward`, each with its translation, then `[0, 0, 0, 1]`.
   */
  function LookAt(right: Vector3D, forward: Vector3D, p: Vector3D): Matrix4
  {
    var up := Cross(right, forward);
    [[right.x, right.y, right.z, -Dot(right, p)],
     [up.x, up.y, up.z, -Dot(up, p)],
     [-forward.x, -forward.y, -forward.z, Dot(forward, p)],
     [0.0, 0.0, 0.0, 1.0]]
  }

  /** `view_matrix`. */
  function ViewMatrix(c: Camera, sqrt: real -> real): Matrix4
  {
    LookAt(Right(c, sqrt), Forward(c, sqrt), PositionVector(c))
  }

  // ---------------------------------------------------------------------
  // The projection transform

  /** `tan(fov.to_radians() / 2)`. */
  function HalfFovTangent(fov: real, tan: real -> real): real
  {
    tan(DegreesToRadians(fov) / 2.0)
  }

  /**
   * The divisions of `projection_matrix` have non-zero divisors.  Outside
   * this the source divides by zero and produces infinities or NaN.
   */
  predicate ProjectionDefined(c: Camera, tan: real -> real)
  {
    match c
    case Perspective(_, _, _, fov, aspect, near, far) =>
      aspect * HalfFovTangent(fov, tan) != 0.0 && HalfFovTangent(fov, tan) != 0.0 && far - near != 0.0
    case Orthographic(_, _, _, width, height) =>
      width != 0.0 && height != 0.0
  }

  /** `projection_matrix`. */
  function ProjectionMatrix(c: Camera, tan: real -> real): Matrix4
    requires ProjectionDefined(c, tan)
  {
    match c
    case Perspective(_, _, _, fov, aspect, near, far) =>
      var tanHalfFov := HalfFovTangent(fov, tan);
      var a := 1.0 / (aspect * tanHalfFov);
      var b := 1.0 / tanHalfFov;
      var cc := -(far + near) / (far - near);
      var d := -(2.0 * far * near) / (far - near);
      [[a, 0.0, 0.0, 0.0],
       [0.0, b, 0.0, 0.0],
       [0.0, 0.0, cc, d],
       [0.0, 0.0, -1.0, 0.0]]
    case Orthographic(_, _, _, width, height) =>
      var right := width / 2.0;
      var left := -right;
      var top := height / 2.0;
      var bottom := -top;
      var near := -1.0;
      var far := 1.0;
      [[2.0 / (right - left), 0.0, 0.0, -(right + left) / (right - left)],
       [0.0, 2.0 / (top - bottom), 0.0, -(top + bottom) / (top - bottom)],
       [0.0, 0.0, -2.0 / (far - near), -(far + near) / (far - near)],
       [0.0, 0.0, 0.0, 1.0]]
  }

  // ---------------------------------------------------------------------
  // Properties of the view transform

  /**
   * The first three rows of the view matrix are the camera basis right,
   * camera up and minus forward, each paired with minus its dot product
   * with the position; the last row is affine.
   */
  lemma ViewMatrixRows(c: Camera, sqrt: real -> real)
    ensures ViewMatrix(c, sqrt)[0] == BasisRow(Right(c, sqrt), c)
    ensures ViewMatrix(c, sqrt)[1] == BasisRow(CameraUp(c, sqrt), c)
    ensures ViewMatrix(c, sqrt)[2] == BasisRow(Neg(Forward(c, sqrt)), c)
    ensures ViewMatrix(c, sqrt)[3] == AffineRow()
  {
    LookAtRows(Right(c, sqrt), Forward(c, sqrt), c);
  }

  lemma LookAtRows(r: Vector3D, f: Vector3D, c: Camera)
    ensures LookAt(r, f, PositionVector(c))[0] == BasisRow(r, c)
    ensures LookAt(r, f, PositionVector(c))[1] == BasisRow(Cross(r, f), c)
    ensures LookAt(r, f, PositionVector(c))[2] == BasisRow(Neg(f), c)
    ensures LookAt(r, f, PositionVector(c))[3] == AffineRow()
  {
    assert -Dot(Neg(f), PositionVector(c)) == Dot(f, PositionVector(c));
  }

  /**
   * Forward falls back to `(0, 0, -1)` exactly when the target is within
   * `EPSILON` of the position (in distance), in particular when they coincide.
   */
  lemma ForwardFallback(c: Camera, sqrt: real -> real)
    requires SqrtAt(sqrt, DistanceSquaredTo(c.position, c.target))
    ensures DistanceSquaredTo(c.position, c.target) < EPSILON * EPSILON ==> Forward(c, sqrt) == Vector3D(0.0, 0.0, -1.0)
    ensures DistanceSquaredTo(c.position, c.target) >= EPSILON * EPSILON ==>
      Normalize(FromPoints(c.position, c.target), sqrt).Ok? &&
      Forward(c, sqrt) == Normalize(FromPoints(c.position, c.target), sqrt).value
    ensures c.position == c.target ==> Forward(c, sqrt) == Vector3D(0.0, 0.0, -1.0)
  {
    var v := FromPoints(c.position, c.target);
    DistanceSquaredIsMagnitude(c.target, c.position);
    assert MagnitudeSquared(v) == DistanceSquaredTo(c.position, c.target);
    NormalizeFailsIffShort(v, sqrt);
  }

  /** A normalised forward is a unit vector pointing from the position to the target. */
  lemma ForwardTowardsTarget(c: Camera, sqrt: real -> real)
    requires SqrtAt(sqrt, MagnitudeSquared(FromPoints(c.position, c.target))) && SqrtAt(sqrt, 1.0)
    requires Normalize(FromPoints(c.position, c.target), sqrt).Ok?
    ensures MagnitudeSquared(Forward(c, sqrt)) == 1.0
    ensures Scale(Forward(c, sqrt), Magnitude(FromPoints(c.position, c.target), sqrt)) == FromPoints(c.position, c.target)
  {
    NormalizeIsUnit(FromPoints(c.position, c.target), sqrt);
  }

  /** Taking the dot product commutes with dividing the first factor by `m`. */
  lemma DotOfQuotient(v: Vector3D, w: Vector3D, m: real)
    requires m != 0.0
    ensures Dot(Vector3D(v.x / m, v.y / m, v.z / m), w) == Dot(v, w) / m
  {
    assert (v.x / m) * w.x == (v.x * w.x) / m;
    assert (v.y / m) * w.y == (v.y * w.y) / m;
    assert (v.z / m) * w.z == (v.z * w.z) / m;
  }

  /**
   * When `forward x up` can be normalised, right is perpendicular to both
   * forward and up.  Camera up is perpendicular to right and forward always.
   */
  lemma FrameOrthogonal(f: Vector3D, up: Vector3D, sqrt: real -> real)
    ensures Normalize(Cross(f, up), sqrt).Ok? ==>
      Dot(RightOf(f, up, sqrt), f) == 0.0 && Dot(RightOf(f, up, sqrt), up) == 0.0
    ensures Dot(Cross(RightOf(f, up, sqrt), f), RightOf(f, up, sqrt)) == 0.0
    ensures Dot(Cross(RightOf(f, up, sqrt), f), f) == 0.0
  {
    var n := Cross(f, up);
    if Normalize(n, sqrt).Ok? {
      var m := Magnitude(n, sqrt);
      CrossOrthogonal(f, up);
      DotOfQuotient(n, f, m);
      DotOfQuotient(n, up, m);
    }
    CrossOrthogonal(RightOf(f, up, sqrt), f);
  }

  /** The camera's basis is orthogonal whenever right did not fall back. */
  lemma BasisOrthogonal(c: Camera, sqrt: real -> real)
    ensures Normalize(Cross(Forward(c, sqrt), c.up), sqrt).Ok? ==>
      Dot(Right(c, sqrt), Forward(c, sqrt)) == 0.0 && Dot(Right(c, sqrt), c.up) == 0.0
    ensures Dot(CameraUp(c, sqrt), Right(c, sqrt)) == 0.0
    ensures Dot(CameraUp(c, sqrt), Forward(c, sqrt)) == 0.0
  {
    FrameOrthogonal(Forward(c, sqrt), c.up, sqrt);
  }

  /** Right falls back to `(1, 0, 0)` exactly when `forward x up` is shorter than `EPSILON`. */
  lemma RightFallback(f: Vector3D, up: Vector3D, sqrt: real -> real)
    requires SqrtAt(sqrt, MagnitudeSquared(Cross(f, up)))
    ensures MagnitudeSquared(Cross(f, up)) < EPSILON * EPSILON <==> Normalize(Cross(f, up), sqrt).Err?
    ensures MagnitudeSquared(Cross(f, up)) < EPSILON * EPSILON ==> RightOf(f, up, sqrt) == UnitX()
  {
    NormalizeFailsIffShort(Cross(f, up), sqrt);
  }

  /** An up vector parallel to forward (zero cross product) makes right fall back to `(1, 0, 0)`. */
  lemma ParallelUpFallsBack(f: Vector3D, up: Vector3D, sqrt: real -> real)
    requires SqrtAt(sqrt, 0.0)
    requires Cross(f, up) == Zero()
    ensures RightOf(f, up, sqrt) == UnitX()
  {
    var n := Cross(f, up);
    MagnitudeSquaredZero(n);
    NormalizeFailsIffShort(n, sqrt);
  }

  lemma CrossSelf(v: Vector3D)
    ensures Cross(v, v) == Zero()
  {
  }

  // ---------------------------------------------------------------------
  // Properties of the projection transform

  /**
   * The perspective matrix scales x by `1 / (aspect * tan(fov/2))` and y by
   * `1 / tan(fov/2)`, maps depth with `c = -(far+near)/(far-near)` and
   * `d = -2*far*near/(far-near)`, and its bottom row copies `-z` into `w`;
   * every other entry is zero.
   */
  lemma PerspectiveRows(c: Camera, tan: real -> real)
    requires c.Perspective? && ProjectionDefined(c, tan)
    ensures var m := ProjectionMatrix(c, tan);
      m[0][0] * (c.aspect * HalfFovTangent(c.fov, tan)) == 1.0 && m[0][1..] == [0.0, 0.0, 0.0]
    ensures var m := ProjectionMatrix(c, tan);
      m[1][1] * HalfFovTangent(c.fov, tan) == 1.0 && m[1][0] == m[1][2] == m[1][3] == 0.0
    ensures var m := ProjectionMatrix(c, tan);
      m[2][0] == m[2][1] == 0.0 &&
      m[2][2] * (c.far - c.near) == -(c.far + c.near) &&
      m[2][3] * (c.far - c.near) == -(2.0 * c.far * c.near)
    ensures ProjectionMatrix(c, tan)[3] == [0.0, 0.0, -1.0, 0.0]
  {
    var t := HalfFovTangent(c.fov, tan);
    var m := ProjectionMatrix(c, tan);
    assert m[0][0] == 1.0 / (c.aspect * t);
    assert m[1][1] == 1.0 / t;
    assert m[2][2] == -(c.far + c.near) / (c.far - c.near);
    assert m[2][3] == -(2.0 * c.far * c.near) / (c.far - c.near);
  }

  /**
   * The orthographic matrix is diagonal, `diag(2/width, 2/height, -1, 1)`:
   * the view volume is centred, so the translation column is zero.
   */
  lemma OrthographicRows(c: Camera, tan: real -> real)
    requires c.Orthographic? && ProjectionDefined(c, tan)
    ensures ProjectionMatrix(c, tan)[0] == [2.0 / c.width, 0.0, 0.0, 0.0]
    ensures ProjectionMatrix(c, tan)[1] == [0.0, 2.0 / c.height, 0.0, 0.0]
    ensures ProjectionMatrix(c, tan)[2] == [0.0, 0.0, -1.0, 0.0]
    ensures ProjectionMatrix(c, tan)[3] == AffineRow()
  {
    var right := c.width / 2.0;
    var top := c.height / 2.0;
    assert right - -right == c.width && right + -right == 0.0;
    assert top - -top == c.height && top + -top == 0.0;
  }

  // ---------------------------------------------------------------------
  // Examples

  /** The cameras of the unit tests keep their field of view, aspect ratio, width and height. */
  lemma CreationExamples()
    ensures NewPerspective(Point3D(0.0, 0.0, 5.0), Origin(), UnitY(), 60.0, 16.0 / 9.0, 0.1, 100.0).fov == 60.0
    ensures NewPerspective(Point3D(0.0, 0.0, 5.0), Origin(), UnitY(), 60.0, 16.0 / 9.0, 0.1, 100.0).aspect == 16.0 / 9.0
    ensures NewOrthographic(Point3D(0.0, 0.0, 5.0), Origin(), UnitY(), 10.0, 10.0).width == 10.0
    ensures NewOrthographic(Point3D(0.0, 0.0, 5.0), Origin(), UnitY(), 10.0, 10.0).height == 10.0
  {
  }

  /** A target two units along x from the position gives the forward vector `(1, 0, 0)`. */
  lemma ForwardAlongX(c: Camera, sqrt: real -> real)
    requires FromPoints(c.position, c.target) == Vector3D(2.0, 0.0, 0.0) && SqrtAt(sqrt, 4.0)
    ensures Forward(c, sqrt) == UnitX()
  {
    SqrtOfSquare(sqrt, 2.0);
    assert Magnitude(FromPoints(c.position, c.target), sqrt) == 2.0;
  }

  /**
   * A camera looking along x with up vector `(1, 0, 0)` gets the fallback
   * right vector, which is its forward vector, so camera up vanishes and the
   * view matrix flattens the scene onto a line.
   */
  lemma FallbackBasisCanDegenerate(c: Camera, sqrt: real -> real)
    requires SqrtAt(sqrt, 0.0)
    requires Forward(c, sqrt) == UnitX() && c.up == UnitX()
    ensures Right(c, sqrt) == UnitX()
    ensures CameraUp(c, sqrt) == Zero()
  {
    CrossSelf(UnitX());
    ParallelUpFallsBack(UnitX(), UnitX(), sqrt);
  }
}
