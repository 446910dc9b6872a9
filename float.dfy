/**
 * Scalar tolerance utilities used by every other component: the epsilon
 * comparisons, clamping, and the degree/radian conversions.
 *
 * Scalars are modelled as `real`.  The floating-point library functions that
 * are not rational (square root, tangent, arc cosine) are not defined here:
 * the operations that use them take them as function parameters, and the
 * one law assumed of the square root is the hypothesis `IsSqrt`.
 */
module Float {

  /** Tolerance of every approximate comparison (1e-10). */
  const EPSILON: real := 0.0000000001

  /** The `f64` constant pi, written out exactly. */
  const PI: real := 3.141592653589793115997963468544185161590576171875

  function Abs(a: real): (r: real)
    ensures r >= 0.0
    ensures r == a || r == -a
  {
    if a < 0.0 then -a else a
  }

  /** `f64::min` restricted to real numbers (no NaN). */
  function Min(a: real, b: real): (r: real)
    ensures r <= a && r <= b
    ensures r == a || r == b
  {
    if a <= b then a else b
  }

  /** `f64::max` restricted to real numbers (no NaN). */
  function Max(a: real, b: real): (r: real)
    ensures r >= a && r >= b
    ensures r == a || r == b
  {
    if a >= b then a else b
  }

  predicate ApproxEq(a: real, b: real)
  {
    Abs(a - b) < EPSILON
  }

  predicate ApproxZero(a: real)
  {
    Abs(a) < EPSILON
  }

  /**
   * Clamp `value` into `[min, max]`.  The lower bound is compared first, so
   * when `min > max` a value below `min` yields `min` and any other value
   * above `max` yields `max`.
   */
  function Clamp(value: real, min: real, max: real): (r: real)
    ensures min <= max ==> min <= r <= max
    ensures min <= value <= max ==> r == value
    ensures value < min ==> r == min
    ensures !(value < min) && value > max ==> r == max
  {
    if value < min then min
    else if value > max then max
    else value
  }

  function DegreesToRadians(degrees: real): real
  {
    degrees * PI / 180.0
  }

  function RadiansToDegrees(radians: real): real
  {
    radians * 180.0 / PI
  }

  /** The square root law at one point: `sqrt(x)` is the non-negative root of `x`. */
  ghost predicate SqrtAt(sqrt: real -> real, x: real)
  {
    0.0 <= sqrt(x) && sqrt(x) * sqrt(x) == x
  }

  /** The platform square root is exact on every non-negative real. */
  ghost predicate IsSqrt(sqrt: real -> real)
  {
    forall x: real :: 0.0 <= x ==> 0.0 <= sqrt(x) && sqrt(x) * sqrt(x) == x
  }

  // ---------------------------------------------------------------------
  // Properties

  lemma ApproxEqIff(a: real, b: real)
    ensures ApproxEq(a, b) <==> -EPSILON < a - b < EPSILON
    ensures ApproxEq(a, b) <==> ApproxEq(b, a)
  {
  }

  lemma ApproxZeroExamples()
    ensures ApproxZero(0.0)
    ensures ApproxZero(EPSILON / 2.0)
    ensures !ApproxZero(EPSILON * 2.0)
    ensures ApproxEq(1.0, 1.0 + EPSILON / 2.0)
    ensures !ApproxEq(1.0, 1.0 + EPSILON * 2.0)
  {
  }

  lemma ClampExamples()
    ensures Clamp(5.0, 0.0, 10.0) == 5.0
    ensures Clamp(-5.0, 0.0, 10.0) == 0.0
    ensures Clamp(15.0, 0.0, 10.0) == 10.0
  {
  }

  lemma AngleRoundTrip(degrees: real, radians: real)
    ensures RadiansToDegrees(DegreesToRadians(degrees)) == degrees
    ensures DegreesToRadians(RadiansToDegrees(radians)) == radians
    ensures DegreesToRadians(180.0) == PI && RadiansToDegrees(PI) == 180.0
  {
  }

  /** Two non-negative reals with the same square are equal. */
  lemma {:induction false} RootUnique(r: real, s: real)
    requires 0.0 <= r && 0.0 <= s && r * r == s * s
    ensures r == s
  {
    assert (r - s) * (r + s) == r * r - s * s == 0.0;
    if r + s != 0.0 {
      assert r - s == (r - s) * (r + s) / (r + s);
    }
  }

  /** An exact square root of a perfect square `a * a` is `a`. */
  lemma SqrtOfSquare(sqrt: real -> real, a: real)
    requires 0.0 <= a && SqrtAt(sqrt, a * a)
    ensures sqrt(a * a) == a
  {
    RootUnique(sqrt(a * a), a);
  }

  /** An exact square root is below `EPSILON` exactly when its radicand is below `EPSILON` squared. */
  lemma SqrtApproxZero(sqrt: real -> real, x: real)
    requires 0.0 <= x && SqrtAt(sqrt, x)
    ensures ApproxZero(sqrt(x)) <==> x < EPSILON * EPSILON
  {
    var s := sqrt(x);
    assert x == s * s;
    if s < EPSILON {
      calc {
        x;
        s * s;
      <= s * EPSILON;
      < EPSILON * EPSILON;
      }
    } else {
      assert s * s >= s * EPSILON;
      assert s * EPSILON >= EPSILON * EPSILON;
    }
  }

  /** Exact square roots are monotone. */
  lemma SqrtMonotone(sqrt: real -> real, x: real, y: real)
    requires 0.0 <= x <= y && SqrtAt(sqrt, x) && SqrtAt(sqrt, y)
    ensures sqrt(x) <= sqrt(y)
  {
    var a, b := sqrt(x), sqrt(y);
    assert (a - b) * (a + b) == x - y;
  }
}
