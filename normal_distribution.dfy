/** The standard normal distribution as the pricing engine computes it:
    the Abramowitz & Stegun polynomial approximation (formula 26.2.17 of
    their Handbook of Mathematical Functions) for the distribution function,
    and the Gaussian density.

    The elementary functions the engine calls (exp, the natural logarithm,
    the square root) are not computed here: they are supplied as a value of
    `MathFns`. The formulas need only one fact about them, required where it
    is used: the square root of a positive number is positive. The range
    lemmas also require that exp is positive, and at most 1 on non-positive
    arguments. */
module NormalDistribution {

  /** The elementary real functions the engine relies on. */
  datatype MathFns = MathFns(exp: real -> real, ln: real -> real, sqrt: real -> real)

  /** The one property of the square root that the formulas need: they
      divide by sqrt(T) for T > 0 and by sqrt(2 pi). */
  ghost predicate SqrtPositive(m: MathFns) {
    forall t :: 0.0 < t ==> 0.0 < m.sqrt(t)
  }

  /** The double closest to pi, as the host language's `Math.PI`. */
  const Pi: real := 3.141592653589793

  function Abs(x: real): (a: real)
    ensures 0.0 <= a && (a == x || a == -x)
  {
    if x < 0.0 then -x else x
  }

  /** The tail term `prob` of the approximation: the density at x times a
      degree-five polynomial in t = 1 / (1 + 0.2316419 |x|). It depends on
      x only through |x| and x * x. */
  function Tail(x: real, m: MathFns): real {
    var t := 1.0 / (1.0 + 0.2316419 * Abs(x));
    var d := 0.3989423 * m.exp(-x * x / 2.0);
    d * t * Poly(t)
  }

  /** The polynomial factor of the tail term, in Horner form. */
  function Poly(t: real): real {
    0.3193815 + t * (-0.3565638 + t * (1.781478 + t * (-1.821256 + t * 1.330274)))
  }

  /** normalCDF: the upper branch is taken only for strictly positive x. */
  function Cdf(x: real, m: MathFns): real {
    var prob := Tail(x, m);
    if x > 0.0 then 1.0 - prob else prob
  }

  /** The tail term is an even function of x. */
  lemma TailEven(x: real, m: MathFns)
    ensures Tail(-x, m) == Tail(x, m)
  {
    assert Abs(-x) == Abs(x);
    assert -(-x) * (-x) / 2.0 == -x * x / 2.0;
  }

  /** Antisymmetry of the approximation away from zero: the two calls share
      the tail term and exactly one of them takes the `1 - prob` branch. */
  lemma CdfAntisymmetric(x: real, m: MathFns)
    requires x != 0.0
    ensures Cdf(x, m) + Cdf(-x, m) == 1.0
  {
    TailEven(x, m);
  }

  /** At zero neither call takes the `1 - prob` branch, so the sum is twice
      the tail term; t is 1 there, the polynomial sums its coefficients to
      1.2533137, and the value is the density constant times exp(0) times
      that sum. */
  lemma CdfAtZero(m: MathFns)
    ensures Cdf(0.0, m) + Cdf(-0.0, m) == 2.0 * Tail(0.0, m)
    ensures Poly(1.0) == 1.2533137
    ensures Cdf(0.0, m) == 0.3989423 * m.exp(0.0) * 1.2533137
  {
  }

  /** With exp(0) = 1 the approximation at zero is 0.49999985009951: it
      falls short of 1/2 by about 1.5e-7, so antisymmetry fails there. */
  lemma CdfAtZeroBelowHalf(m: MathFns)
    requires m.exp(0.0) == 1.0
    ensures Cdf(0.0, m) == 0.49999985009951
    ensures Cdf(0.0, m) < 0.49999986 && Cdf(0.0, m) + Cdf(-0.0, m) != 1.0
  {
    CdfAtZero(m);
  }

  /** What the bounds on the distribution function need of exp: it is
      positive, and at most 1 at non-positive arguments. */
  ghost predicate ExpBounded(m: MathFns) {
    forall y :: 0.0 < m.exp(y) && (y <= 0.0 ==> m.exp(y) <= 1.0)
  }

  lemma SquareNonNegative(u: real)
    ensures 0.0 <= u * u
  {
    if u < 0.0 {
      assert u * u == (-u) * (-u);
    }
  }

  lemma MulMonotone(a: real, b: real, c: real)
    requires 0.0 <= a && b <= c
    ensures a * b <= a * c
  {
  }

  /** The quadratic inner factor 1.781478 - 1.821256 t + 1.330274 t^2 of the
      polynomial has no real root; on (0, 1] it lies in [1.1, 1.781478]. */
  lemma InnerFactorBounds(t: real)
    requires 0.0 < t <= 1.0
    ensures 1.1 <= 1.781478 + t * (-1.821256 + t * 1.330274) <= 1.781478
  {
    var q4 := -1.821256 + t * 1.330274;
    var q3 := 1.781478 + t * q4;
    var u := t - 0.6845;
    SquareNonNegative(u);
    assert q3 == 1.330274 * (u * u) + 1.1581910874715 - 0.000110894 * t;
    MulMonotone(t, q4, 0.0);
    assert q3 <= 1.781478;
  }

  /** On (0, 1], where t always lies, the polynomial is positive and at
      most 1.75. */
  lemma PolyBounds(t: real)
    requires 0.0 < t <= 1.0
    ensures 0.0 < Poly(t) <= 1.75
  {
    var q3 := 1.781478 + t * (-1.821256 + t * 1.330274);
    var q2 := -0.3565638 + t * q3;
    InnerFactorBounds(t);
    // Lower bound: t^2 q3 >= 1.1 t^2, and 0.3193815 - 0.3565638 t + 1.1 t^2
    // has no real root.
    var v := t - 0.1621;
    SquareNonNegative(v);
    MulMonotone(t * t, 1.1, q3);
    calc {
      Poly(t);
      0.3193815 - 0.3565638 * t + (t * t) * q3;
    >= 0.3193815 - 0.3565638 * t + (t * t) * 1.1;
    ==
      1.1 * (v * v) + 0.290477449 + 0.0000562 * t;
    > 0.0;
    }
    // Upper bound: t q3 <= q3 <= 1.781478, so q2 <= 1.4249142, and t q2 is at
    // most that.
    assert t * q3 <= q3;
    assert t * q2 <= 1.4249142;
  }

  /** For an exp with those bounds, the tail term lies strictly between 0
      and 0.7: the density factor is in (0, 0.3989423], t in (0, 1]. */
  lemma TailBounds(x: real, m: MathFns)
    requires ExpBounded(m)
    ensures 0.0 < Tail(x, m) < 0.7
  {
    var t := 1.0 / (1.0 + 0.2316419 * Abs(x));
    var e := m.exp(-x * x / 2.0);
    assert -x * x / 2.0 <= 0.0;
    assert 0.0 < e <= 1.0;
    assert 0.0 < t <= 1.0;
    PolyBounds(t);
    var d := 0.3989423 * e;
    assert 0.0 < d <= 0.3989423;
    assert 0.0 < t * Poly(t) <= 1.75;
    assert d * (t * Poly(t)) <= 0.3989423 * (t * Poly(t));
    assert Tail(x, m) == d * (t * Poly(t));
  }

  /** The approximate distribution function takes values strictly between 0
      and 1. */
  lemma CdfBounds(x: real, m: MathFns)
    requires ExpBounded(m)
    ensures 0.0 < Cdf(x, m) < 1.0
  {
    TailBounds(x, m);
  }

  /** The density exp(-x^2 / 2) / sqrt(2 pi), as computed for gamma, theta
      and vega. */
  function Pdf(x: real, m: MathFns): real
    requires SqrtPositive(m)
  {
    assert 0.0 < m.sqrt(2.0 * Pi);
    m.exp(-x * x / 2.0) / m.sqrt(2.0 * Pi)
  }
}
