/** Black–Scholes valuation and first-order sensitivities of a single
    European call or put, as `calculateBlackScholes` and `calculateGreeks`
    compute them, with the expiry fallback they both take when T <= 0. */
module BlackScholes {
  import opened NormalDistribution

  datatype OptionType = Call | Put

  /** The sensitivities `calculateGreeks` returns; theta is per calendar
      day (annual theta / 365) and vega per percentage point (/ 100). */
  datatype Greeks = Greeks(delta: real, gamma: real, theta: real, vega: real)

  function Max(a: real, b: real): (c: real)
    ensures c >= a && c >= b && (c == a || c == b)
  {
    if a >= b then a else b
  }

  /** Immediate exercise value: max(S - K, 0) for a call, max(K - S, 0)
      for a put. It is never negative, and it is positive exactly when the
      contract is in the money. */
  function Intrinsic(S: real, K: real, kind: OptionType): (v: real)
    ensures 0.0 <= v
    ensures kind == Call ==> (0.0 < v <==> S > K) && (0.0 < v ==> v == S - K)
    ensures kind == Put ==> (0.0 < v <==> S < K) && (0.0 < v ==> v == K - S)
  {
    if kind == Call then Max(S - K, 0.0) else Max(K - S, 0.0)
  }

  /** Before expiry (T > 0), the division by K inside ln(S / K) and by
      sigma * sqrt(T) in d1 needs these, for a call and a put alike. */
  ghost predicate PricingDomain(K: real, T: real, sigma: real, m: MathFns) {
    SqrtPositive(m) && (0.0 < T ==> K != 0.0 && sigma != 0.0)
  }

  function D1(S: real, K: real, T: real, r: real, sigma: real, m: MathFns): real
    requires PricingDomain(K, T, sigma, m) && 0.0 < T
  {
    assert 0.0 < m.sqrt(T);
    (m.ln(S / K) + (r + 0.5 * sigma * sigma) * T) / (sigma * m.sqrt(T))
  }

  function D2(S: real, K: real, T: real, r: real, sigma: real, m: MathFns): real
    requires PricingDomain(K, T, sigma, m) && 0.0 < T
  {
    D1(S, K, T, r, sigma, m) - sigma * m.sqrt(T)
  }

  /** The discount factor exp(-r T). */
  function Discount(T: real, r: real, m: MathFns): real {
    m.exp(-r * T)
  }

  /** calculateBlackScholes. */
  function Price(S: real, K: real, T: real, r: real, sigma: real, kind: OptionType, m: MathFns): real
    requires PricingDomain(K, T, sigma, m)
  {
    if T <= 0.0 then Intrinsic(S, K, kind)
    else
      var d1 := D1(S, K, T, r, sigma, m);
      var d2 := D2(S, K, T, r, sigma, m);
      if kind == Call then S * Cdf(d1, m) - K * Discount(T, r, m) * Cdf(d2, m)
      else K * Discount(T, r, m) * Cdf(-d2, m) - S * Cdf(-d1, m)
  }

  /** Gamma also divides by S. */
  ghost predicate GreeksDomain(S: real, K: real, T: real, sigma: real, m: MathFns) {
    PricingDomain(K, T, sigma, m) && (0.0 < T ==> S != 0.0)
  }

  /** calculateGreeks. */
  function ComputeGreeks(S: real, K: real, T: real, r: real, sigma: real, kind: OptionType, m: MathFns): Greeks
    requires GreeksDomain(S, K, T, sigma, m)
  {
    if T <= 0.0 then Greeks(0.0, 0.0, 0.0, 0.0)
    else
      var d1 := D1(S, K, T, r, sigma, m);
      var d2 := D2(S, K, T, r, sigma, m);
      var nd1 := Cdf(d1, m);
      var npd1 := Pdf(d1, m);
      var sqrtT := m.sqrt(T);
      assert 0.0 < sqrtT;
      var delta := if kind == Call then nd1 else nd1 - 1.0;
      var gamma := npd1 / (S * sigma * sqrtT);
      var theta := if kind == Call
        then (-S * npd1 * sigma / (2.0 * sqrtT) - r * K * Discount(T, r, m) * Cdf(d2, m)) / 365.0
        else (-S * npd1 * sigma / (2.0 * sqrtT) + r * K * Discount(T, r, m) * Cdf(-d2, m)) / 365.0;
      var vega := S * npd1 * sqrtT / 100.0;
      Greeks(delta, gamma, theta, vega)
  }

  /** At or past expiry the price is exactly the intrinsic value and every
      sensitivity is exactly zero; no formula is evaluated. */
  lemma BoundaryCollapse(S: real, K: real, T: real, r: real, sigma: real, kind: OptionType, m: MathFns)
    requires SqrtPositive(m) && T <= 0.0
    ensures Price(S, K, T, r, sigma, kind, m) == Intrinsic(S, K, kind)
    ensures kind == Call ==> Price(S, K, T, r, sigma, kind, m) == Max(S - K, 0.0)
    ensures kind == Put ==> Price(S, K, T, r, sigma, kind, m) == Max(K - S, 0.0)
    ensures ComputeGreeks(S, K, T, r, sigma, kind, m) == Greeks(0.0, 0.0, 0.0, 0.0)
  {
  }

  /** Put–call parity before expiry: whenever neither d1 nor d2 is zero the
      approximate CDF is exactly antisymmetric at both, and the difference of
      the two prices is the forward value S - K exp(-r T). */
  lemma PutCallParity(S: real, K: real, T: real, r: real, sigma: real, m: MathFns)
    requires PricingDomain(K, T, sigma, m) && 0.0 < T
    requires D1(S, K, T, r, sigma, m) != 0.0 && D2(S, K, T, r, sigma, m) != 0.0
    ensures Price(S, K, T, r, sigma, Call, m) - Price(S, K, T, r, sigma, Put, m)
            == S - K * Discount(T, r, m)
  {
    var d1 := D1(S, K, T, r, sigma, m);
    var d2 := D2(S, K, T, r, sigma, m);
    CdfAntisymmetric(d1, m);
    CdfAntisymmetric(d2, m);
    CallBeforeExpiry(S, K, T, r, sigma, m);
    PutBeforeExpiry(S, K, T, r, sigma, m);
    CancelPairs(Price(S, K, T, r, sigma, Call, m), Price(S, K, T, r, sigma, Put, m),
                S, K * Discount(T, r, m), Cdf(d1, m), Cdf(-d1, m), Cdf(d2, m), Cdf(-d2, m));
  }

  /** The call branch before expiry. */
  lemma CallBeforeExpiry(S: real, K: real, T: real, r: real, sigma: real, m: MathFns)
    requires PricingDomain(K, T, sigma, m) && 0.0 < T
    ensures Price(S, K, T, r, sigma, Call, m)
            == S * Cdf(D1(S, K, T, r, sigma, m), m) - K * Discount(T, r, m) * Cdf(D2(S, K, T, r, sigma, m), m)
  {
  }

  /** The put branch before expiry. */
  lemma PutBeforeExpiry(S: real, K: real, T: real, r: real, sigma: real, m: MathFns)
    requires PricingDomain(K, T, sigma, m) && 0.0 < T
    ensures Price(S, K, T, r, sigma, Put, m)
            == K * Discount(T, r, m) * Cdf(-D2(S, K, T, r, sigma, m), m) - S * Cdf(-D1(S, K, T, r, sigma, m), m)
  {
  }

  /** The algebra behind parity: two weights that sum to one on each side. */
  lemma CancelPairs(call: real, put: real, s: real, k: real, a: real, b: real, c: real, d: real)
    requires call == s * a - k * c && put == k * d - s * b
    requires a + b == 1.0 && c + d == 1.0
    ensures call - put == s - k
  {
    assert s * a + s * b == s * (a + b);
    assert k * c + k * d == k * (c + d);
  }

  /** Parity at or past expiry: max(S - K, 0) - max(K - S, 0) = S - K. */
  lemma ExpiredParity(S: real, K: real, T: real, r: real, sigma: real, m: MathFns)
    requires SqrtPositive(m) && T <= 0.0
    ensures Price(S, K, T, r, sigma, Call, m) - Price(S, K, T, r, sigma, Put, m) == S - K
  {
  }

  /** Before expiry the call and put delta differ by exactly one, and gamma
      and vega do not depend on the option type. */
  lemma GreeksSymmetry(S: real, K: real, T: real, r: real, sigma: real, m: MathFns)
    requires GreeksDomain(S, K, T, sigma, m) && 0.0 < T
    ensures ComputeGreeks(S, K, T, r, sigma, Call, m).delta
            - ComputeGreeks(S, K, T, r, sigma, Put, m).delta == 1.0
    ensures ComputeGreeks(S, K, T, r, sigma, Call, m).gamma
            == ComputeGreeks(S, K, T, r, sigma, Put, m).gamma
    ensures ComputeGreeks(S, K, T, r, sigma, Call, m).vega
            == ComputeGreeks(S, K, T, r, sigma, Put, m).vega
  {
  }

  /** The two theta branches share the decay term; when d2 is not zero they
      differ by exactly the daily carry -r K exp(-r T) / 365. */
  lemma ThetaParity(S: real, K: real, T: real, r: real, sigma: real, m: MathFns)
    requires GreeksDomain(S, K, T, sigma, m) && 0.0 < T
    requires D2(S, K, T, r, sigma, m) != 0.0
    ensures ComputeGreeks(S, K, T, r, sigma, Call, m).theta
            - ComputeGreeks(S, K, T, r, sigma, Put, m).theta
            == -r * K * Discount(T, r, m) / 365.0
  {
    var d2 := D2(S, K, T, r, sigma, m);
    var a := r * K * Discount(T, r, m);
    CdfAntisymmetric(d2, m);
    assert a * Cdf(d2, m) + a * Cdf(-d2, m) == a;
  }

  /** Delta range: a call's delta lies in [0, 1] and a put's in [-1, 0]
      (strictly inside before expiry, exactly 0 at or past it). */
  lemma DeltaRange(S: real, K: real, T: real, r: real, sigma: real, m: MathFns)
    requires GreeksDomain(S, K, T, sigma, m) && ExpBounded(m)
    ensures 0.0 <= ComputeGreeks(S, K, T, r, sigma, Call, m).delta <= 1.0
    ensures -1.0 <= ComputeGreeks(S, K, T, r, sigma, Put, m).delta <= 0.0
    ensures 0.0 < T ==> 0.0 < ComputeGreeks(S, K, T, r, sigma, Call, m).delta < 1.0
    ensures 0.0 < T ==> -1.0 < ComputeGreeks(S, K, T, r, sigma, Put, m).delta < 0.0
  {
    if 0.0 < T {
      CdfBounds(D1(S, K, T, r, sigma, m), m);
    }
  }

  lemma PositiveProduct(a: real, b: real)
    requires 0.0 < a && 0.0 < b
    ensures 0.0 < a * b
  {
  }

  /** For a positive spot and volatility, gamma and vega are positive before
      expiry. */
  lemma GammaVegaPositive(S: real, K: real, T: real, r: real, sigma: real, kind: OptionType, m: MathFns)
    requires PricingDomain(K, T, sigma, m) && ExpBounded(m)
    requires 0.0 < S && 0.0 < sigma && 0.0 < T
    ensures 0.0 < ComputeGreeks(S, K, T, r, sigma, kind, m).gamma
    ensures 0.0 < ComputeGreeks(S, K, T, r, sigma, kind, m).vega
  {
    var d1 := D1(S, K, T, r, sigma, m);
    var npd1 := Pdf(d1, m);
    var sqrtT := m.sqrt(T);
    assert 0.0 < sqrtT && 0.0 < m.sqrt(2.0 * Pi);
    assert 0.0 < m.exp(-d1 * d1 / 2.0);
    assert 0.0 < npd1;
    PositiveProduct(S, sigma);
    PositiveProduct(S * sigma, sqrtT);
    PositiveProduct(S, npd1);
    PositiveProduct(S * npd1, sqrtT);
  }

  /** For a positive spot, strike and volatility and a non-negative rate a
      long call loses value every day before expiry: its theta is negative. */
  lemma CallThetaNegative(S: real, K: real, T: real, r: real, sigma: real, m: MathFns)
    requires PricingDomain(K, T, sigma, m) && ExpBounded(m)
    requires 0.0 < S && 0.0 < K && 0.0 < sigma && 0.0 <= r && 0.0 < T
    ensures ComputeGreeks(S, K, T, r, sigma, Call, m).theta < 0.0
  {
    var d1 := D1(S, K, T, r, sigma, m);
    var d2 := D2(S, K, T, r, sigma, m);
    var npd1 := Pdf(d1, m);
    var sqrtT := m.sqrt(T);
    assert 0.0 < sqrtT && 0.0 < m.sqrt(2.0 * Pi);
    assert 0.0 < m.exp(-d1 * d1 / 2.0);
    assert 0.0 < npd1;
    CdfBounds(d2, m);
    var e := Discount(T, r, m);
    assert 0.0 < e;
    PositiveProduct(S, npd1);
    PositiveProduct(S * npd1, sigma);
    var decay := S * npd1 * sigma / (2.0 * sqrtT);
    assert 0.0 < decay;
    PositiveProduct(K, e);
    PositiveProduct(K * e, Cdf(d2, m));
    assert 0.0 <= r * K * e * Cdf(d2, m) by {
      assert r * K * e * Cdf(d2, m) == r * (K * e * Cdf(d2, m));
    }
    assert ComputeGreeks(S, K, T, r, sigma, Call, m).theta
        == (-S * npd1 * sigma / (2.0 * sqrtT) - r * K * e * Cdf(d2, m)) / 365.0;
    assert -S * npd1 * sigma / (2.0 * sqrtT) == -decay;
  }
}
