/**
 * The numeric helpers every animation of the page uses: `Math.min`,
 * `Math.max`, `Math.abs`, `THREE.MathUtils.clamp` and linear interpolation.
 * JavaScript numbers are modelled as exact reals; rounding is not modelled.
 */
module Numeric {

  /** `Math.min(a, b)`. */
  function Min(a: real, b: real): (r: real)
    ensures r <= a && r <= b
    ensures r == a || r == b
  {
    if a <= b then a else b
  }

  /** `Math.max(a, b)`. */
  function Max(a: real, b: real): (r: real)
    ensures r >= a && r >= b
    ensures r == a || r == b
  {
    if a >= b then a else b
  }

  /** `Math.abs(x)`. */
  function Abs(x: real): (r: real)
    ensures r >= 0.0
    ensures r == x || r == -x
  {
    if x >= 0.0 then x else -x
  }

  /**
   * `THREE.MathUtils.clamp(v, lo, hi)`, which is `Math.max(lo, Math.min(hi, v))`:
   * when the bounds are crossed (`lo > hi`) the lower bound wins.
   */
  function Clamp(v: real, lo: real, hi: real): (r: real)
    ensures lo <= hi ==> lo <= r <= hi
    ensures lo <= v <= hi ==> r == v
    ensures lo <= hi && v < lo ==> r == lo
    ensures lo <= hi && v > hi ==> r == hi
    ensures lo > hi ==> r == lo
  {
    Max(lo, Min(hi, v))
  }

  /**
   * Linear interpolation from `a` towards `b` by the fraction `t`. This is
   * `THREE.MathUtils.lerp(a, b, t) = (1 - t) * a + t * b` and also the
   * page's hand-written `a += (b - a) * t`: in exact arithmetic the two agree.
   */
  function Lerp(a: real, b: real, t: real): (r: real)
    ensures r - b == (1.0 - t) * (a - b)
  {
    a + (b - a) * t
  }

  /** `x` lies between `a` and `b`, whichever order they come in. */
  predicate Between(x: real, a: real, b: real)
  {
    Min(a, b) <= x <= Max(a, b)
  }

  /** A product of two non-negative reals is non-negative. */
  lemma MulNonNegative(x: real, y: real)
    requires x >= 0.0 && y >= 0.0
    ensures x * y >= 0.0
  {
  }

  /** Scaling by a fraction in [0, 1] keeps a value between 0 and itself. */
  lemma ScaleByFraction(x: real, t: real)
    requires 0.0 <= t <= 1.0
    ensures x >= 0.0 ==> 0.0 <= x * t <= x
    ensures x <= 0.0 ==> x <= x * t <= 0.0
  {
    if x >= 0.0 {
      MulNonNegative(x, t);
      MulNonNegative(x, 1.0 - t);
    } else {
      MulNonNegative(-x, t);
      MulNonNegative(-x, 1.0 - t);
    }
  }

  /** With `t` in [0, 1], interpolation never leaves the segment between its ends. */
  lemma LerpBetween(a: real, b: real, t: real)
    requires 0.0 <= t <= 1.0
    ensures Between(Lerp(a, b, t), a, b)
    ensures Abs(Lerp(a, b, t) - b) <= Abs(a - b)
  {
    var d := b - a;
    ScaleByFraction(d, t);
    var p := d * t;
    var q := (a - b) * (1.0 - t);
    ScaleByFraction(a - b, 1.0 - t);
    assert Lerp(a, b, t) == a + p;
    assert Lerp(a, b, t) - b == q;
    if d >= 0.0 {
      assert Min(a, b) == a && Max(a, b) == b;
      assert 0.0 <= p <= d;
      assert Abs(Lerp(a, b, t) - b) == -q && Abs(a - b) == d;
    } else {
      assert Min(a, b) == b && Max(a, b) == a;
      assert d <= p <= 0.0;
      assert Abs(Lerp(a, b, t) - b) == q && Abs(a - b) == -d;
    }
  }
}
