/**
 * Free vectors in 3D space and their arithmetic: magnitude, normalisation,
 * dot and cross products, projection, the parallel and perpendicular tests,
 * approximate equality and the componentwise operators.
 */
module Vectors {
  import opened Float
  import opened Errors

  datatype Vector3D = Vector3D(x: real, y: real, z: real)

  function Zero(): Vector3D { Vector3D(0.0, 0.0, 0.0) }
  function UnitX(): Vector3D { Vector3D(1.0, 0.0, 0.0) }
  function UnitY(): Vector3D { Vector3D(0.0, 1.0, 0.0) }
  function UnitZ(): Vector3D { Vector3D(0.0, 0.0, 1.0) }

  function MagnitudeSquared(v: Vector3D): (r: real)
    ensures r >= 0.0
  {
    v.x * v.x + v.y * v.y + v.z * v.z
  }

  /** The squared magnitude is zero exactly for the zero vector. */
  lemma MagnitudeSquaredZero(v: Vector3D)
    ensures MagnitudeSquared(v) == 0.0 <==> v == Zero()
  {
    if v != Zero() {
      MagnitudeSquaredPositive(v);
    }
  }

  lemma MagnitudeSquaredPositive(v: Vector3D)
    requires v != Zero()
    ensures MagnitudeSquared(v) > 0.0
  {
    calc {
      MagnitudeSquared(v);
      == v.x * v.x + v.y * v.y + v.z * v.z;
      > { SumOfSquaresPositive(v.x, v.y, v.z); }
      0.0;
    }
  }

  lemma SumOfSquaresPositive(a: real, b: real, c: real)
    requires a != 0.0 || b != 0.0 || c != 0.0
    ensures a * a + b * b + c * c > 0.0
  {
  }

  /** The magnitude, through the platform square root `sqrt`. */
  function Magnitude(v: Vector3D, sqrt: real -> real): real
  {
    sqrt(MagnitudeSquared(v))
  }

  /**
   * Divide by the magnitude; a magnitude within `EPSILON` of zero is a
   * division by zero.
   */
  function Normalize(v: Vector3D, sqrt: real -> real): (r: Result<Vector3D>)
    ensures r.Err? <==> ApproxZero(Magnitude(v, sqrt))
    ensures r.Err? ==> r.error.DivisionByZero?
    ensures r.Ok? ==> Scale(r.value, Magnitude(v, sqrt)) == v
  {
    var mag := Magnitude(v, sqrt);
    if ApproxZero(mag) then
      Err(DivisionByZero("Cannot normalize zero vector"))
    else
      Ok(Vector3D(v.x / mag, v.y / mag, v.z / mag))
  }

  function Dot(a: Vector3D, b: Vector3D): real
  {
    a.x * b.x + a.y * b.y + a.z * b.z
  }

  function Cross(a: Vector3D, b: Vector3D): Vector3D
  {
    Vector3D(a.y * b.z - a.z * b.y,
             a.z * b.x - a.x * b.z,
             a.x * b.y - a.y * b.x)
  }

  /** The cross product is orthogonal to both of its arguments. */
  lemma CrossOrthogonal(a: Vector3D, b: Vector3D)
    ensures Dot(Cross(a, b), a) == 0.0 && Dot(Cross(a, b), b) == 0.0
  {
  }

  /** The cosine that `Angle` hands to `acos`: the normalised dot product clamped to [-1, 1]. */
  function AngleCosine(a: Vector3D, b: Vector3D, sqrt: real -> real): (c: real)
    requires !ApproxZero(Magnitude(a, sqrt) * Magnitude(b, sqrt))
    ensures -1.0 <= c <= 1.0
  {
    Clamp(Dot(a, b) / (Magnitude(a, sqrt) * Magnitude(b, sqrt)), -1.0, 1.0)
  }

  /** The angle between two vectors, through the platform `sqrt` and `acos`; 0 for a zero-length vector. */
  function Angle(a: Vector3D, b: Vector3D, sqrt: real -> real, acos: real -> real): (r: real)
    ensures ApproxZero(Magnitude(a, sqrt) * Magnitude(b, sqrt)) ==> r == 0.0
    ensures !ApproxZero(Magnitude(a, sqrt) * Magnitude(b, sqrt)) ==> r == acos(AngleCosine(a, b, sqrt))
  {
    var magProduct := Magnitude(a, sqrt) * Magnitude(b, sqrt);
    if ApproxZero(magProduct) then 0.0
    else acos(AngleCosine(a, b, sqrt))
  }

  /**
   * The component of `v` along `other`: a multiple of `other` whose
   * difference from `v` is orthogonal to `other`; the zero vector when
   * `other` is (approximately) zero.
   */
  function ProjectOnto(v: Vector3D, other: Vector3D): Vector3D
  {
    var otherMagSq := MagnitudeSquared(other);
    if ApproxZero(otherMagSq) then Zero()
    else Scale(other, Dot(v, other) / otherMagSq)
  }

  /**
   * The projection is the zero vector for an (approximately) zero `other`;
   * otherwise it is a multiple of `other` and what remains of `v` is
   * orthogonal to `other`.
   */
  lemma ProjectOntoSpec(v: Vector3D, other: Vector3D)
    ensures ApproxZero(MagnitudeSquared(other)) ==> ProjectOnto(v, other) == Zero()
    ensures !ApproxZero(MagnitudeSquared(other)) ==>
              (exists k :: ProjectOnto(v, other) == Scale(other, k))
              && Dot(Sub(v, ProjectOnto(v, other)), other) == 0.0
  {
    var m := MagnitudeSquared(other);
    if !ApproxZero(m) {
      var k := Dot(v, other) / m;
      assert ProjectOnto(v, other) == Scale(other, k);
      ResidualOrthogonal(v, other, k);
    }
  }

  /** Subtracting `s * other` from `v` lowers its dot product with `other` by `s * |other|^2`. */
  lemma ResidualDot(v: Vector3D, other: Vector3D, s: real)
    ensures Dot(Sub(v, Scale(other, s)), other) == Dot(v, other) - s * MagnitudeSquared(other)
  {
    assert (v.x - other.x * s) * other.x == v.x * other.x - s * (other.x * other.x);
    assert (v.y - other.y * s) * other.y == v.y * other.y - s * (other.y * other.y);
    assert (v.z - other.z * s) * other.z == v.z * other.z - s * (other.z * other.z);
  }

  /** The projection scalar makes the residual orthogonal to `other`. */
  lemma ResidualOrthogonal(v: Vector3D, other: Vector3D, s: real)
    requires MagnitudeSquared(other) != 0.0 && s == Dot(v, other) / MagnitudeSquared(other)
    ensures Dot(Sub(v, Scale(other, s)), other) == 0.0
  {
    ResidualDot(v, other, s);
    assert s * MagnitudeSquared(other) == Dot(v, other);
  }

  predicate IsParallel(a: Vector3D, b: Vector3D)
  {
    ApproxZero(MagnitudeSquared(Cross(a, b)))
  }

  predicate IsPerpendicular(a: Vector3D, b: Vector3D)
  {
    ApproxZero(Dot(a, b))
  }

  /** `PartialEq`: every component within `EPSILON`. */
  predicate ApproxEqual(a: Vector3D, b: Vector3D)
  {
    ApproxEq(a.x, b.x) && ApproxEq(a.y, b.y) && ApproxEq(a.z, b.z)
  }

  function Add(a: Vector3D, b: Vector3D): Vector3D
  {
    Vector3D(a.x + b.x, a.y + b.y, a.z + b.z)
  }

  function Sub(a: Vector3D, b: Vector3D): Vector3D
  {
    Vector3D(a.x - b.x, a.y - b.y, a.z - b.z)
  }

  /** `Mul<f64>`: multiply every component by `s`. */
  function Scale(v: Vector3D, s: real): Vector3D
  {
    Vector3D(v.x * s, v.y * s, v.z * s)
  }

  /** `Div<f64>`; a zero divisor is outside the model (see README). */
  function Div(v: Vector3D, s: real): (r: Vector3D)
    requires s != 0.0
    ensures Scale(r, s) == v
  {
    Vector3D(v.x / s, v.y / s, v.z / s)
  }

  function Neg(v: Vector3D): Vector3D
  {
    Vector3D(-v.x, -v.y, -v.z)
  }

  // ---------------------------------------------------------------------
  // Properties

  /** A vector that is already of unit length is normalised to itself. */
  lemma NormalizeKeepsUnit(v: Vector3D, sqrt: real -> real)
    requires MagnitudeSquared(v) == 1.0 && SqrtAt(sqrt, 1.0)
    ensures Normalize(v, sqrt) == Ok(v)
  {
    SqrtOfSquare(sqrt, 1.0);
    DivideByOne(v, Magnitude(v, sqrt));
  }

  lemma DivideByOne(v: Vector3D, m: real)
    requires m == 1.0
    ensures Vector3D(v.x / m, v.y / m, v.z / m) == v
  {
  }

  /** With an exact square root, a successful normalisation has magnitude 1. */
  lemma {:induction false} NormalizeIsUnit(v: Vector3D, sqrt: real -> real)
    requires SqrtAt(sqrt, MagnitudeSquared(v)) && SqrtAt(sqrt, 1.0)
    requires Normalize(v, sqrt).Ok?
    ensures MagnitudeSquared(Normalize(v, sqrt).value) == 1.0
    ensures Magnitude(Normalize(v, sqrt).value, sqrt) == 1.0
  {
    var m := Magnitude(v, sqrt);
    var u := Normalize(v, sqrt).value;
    assert m * m == MagnitudeSquared(v) && m != 0.0;
    ScaledMagnitude(u, m);
    assert MagnitudeSquared(u) * (m * m) == 1.0 * (m * m);
    assert MagnitudeSquared(u) == 1.0;
    SqrtOfSquare(sqrt, 1.0);
  }

  /** Scaling by `s` scales the squared magnitude by `s * s`. */
  lemma ScaledMagnitude(v: Vector3D, s: real)
    ensures MagnitudeSquared(Scale(v, s)) == MagnitudeSquared(v) * (s * s)
  {
    assert (v.x * s) * (v.x * s) == (v.x * v.x) * (s * s);
    assert (v.y * s) * (v.y * s) == (v.y * v.y) * (s * s);
    assert (v.z * s) * (v.z * s) == (v.z * v.z) * (s * s);
  }

  /** With an exact square root, normalisation fails exactly when |v|^2 < EPSILON^2. */
  lemma NormalizeFailsIffShort(v: Vector3D, sqrt: real -> real)
    requires SqrtAt(sqrt, MagnitudeSquared(v))
    ensures Normalize(v, sqrt).Err? <==> MagnitudeSquared(v) < EPSILON * EPSILON
  {
    SqrtApproxZero(sqrt, MagnitudeSquared(v));
  }

  lemma MagnitudeExample(sqrt: real -> real)
    requires IsSqrt(sqrt)
    ensures Magnitude(Vector3D(3.0, 4.0, 0.0), sqrt) == 5.0
  {
    assert MagnitudeSquared(Vector3D(3.0, 4.0, 0.0)) == 5.0 * 5.0;
    SqrtOfSquare(sqrt, 5.0);
  }

  lemma UnitCrossProducts()
    ensures Cross(UnitX(), UnitY()) == UnitZ()
    ensures Cross(UnitY(), UnitZ()) == UnitX()
    ensures Cross(UnitZ(), UnitX()) == UnitY()
  {
    CyclicCross(UnitX(), UnitY(), UnitZ());
  }

  lemma CyclicCross(i: Vector3D, j: Vector3D, k: Vector3D)
    requires i == UnitX() && j == UnitY() && k == UnitZ()
    ensures Cross(i, j) == k && Cross(j, k) == i && Cross(k, i) == j
  {
  }

  lemma UnitPerpendicular()
    ensures Dot(UnitX(), UnitY()) == 0.0 && IsPerpendicular(UnitX(), UnitY())
  {
  }

  /** Any vector is parallel to every multiple of itself: the cross product is exactly zero. */
  lemma ParallelToMultiple(v: Vector3D, k: real)
    ensures Cross(v, Scale(v, k)) == Zero()
    ensures IsParallel(v, Scale(v, k))
  {
  }

  lemma ParallelExample()
    ensures IsParallel(Vector3D(1.0, 2.0, 3.0), Vector3D(2.0, 4.0, 6.0))
  {
    ParallelToMultiple(Vector3D(1.0, 2.0, 3.0), 2.0);
  }

  lemma CrossAntisymmetric(a: Vector3D, b: Vector3D)
    ensures Cross(b, a) == Neg(Cross(a, b))
    ensures Cross(a, a) == Zero()
  {
  }

  lemma DotSymmetric(a: Vector3D, b: Vector3D)
    ensures Dot(a, b) == Dot(b, a)
    ensures Dot(a, a) == MagnitudeSquared(a)
  {
  }

  lemma ArithmeticLaws(a: Vector3D, b: Vector3D, s: real)
    ensures Sub(a, a) == Zero()
    ensures Neg(Neg(a)) == a
    ensures Add(Sub(a, b), b) == a
    ensures Add(a, Neg(a)) == Zero()
    ensures s != 0.0 ==> Div(Scale(a, s), s) == a
  {
  }

  lemma ApproxEqualReflexiveSymmetric(a: Vector3D, b: Vector3D)
    ensures ApproxEqual(a, a)
    ensures ApproxEqual(a, b) <==> ApproxEqual(b, a)
  {
  }
}
