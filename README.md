# Options-chain pricing engine, modelled in Dafny

The dashboard `LiveOptionsPricing` (sheshoptions.py, a React component) has a
small pricing engine under its UI. This project models that engine over exact
reals and proves facts about its structure:

- `normalCDF`: the Abramowitz & Stegun polynomial approximation (formula
  26.2.17 of their *Handbook of Mathematical Functions*) to the standard
  normal distribution function. Module `NormalDistribution`.
- `calculateBlackScholes` and `calculateGreeks`: the Black–Scholes price and
  the delta, gamma, theta (per day) and vega (per percentage point) of one
  European call or put. Both fall back to exact values when `T <= 0`. Module
  `BlackScholes`.
- `generateOptions`: expands one spot price into 3 expiries × 7 strikes ×
  {call, put} = 42 rows. Each row holds a price, intrinsic and time value,
  Greeks, an in-the-money flag and a display code such as
  `RELIANCE 30 Dec 25 2850 CE`. Module `OptionChain`. `GenerateOptions` is
  the function with its loop over the expiries. `PushExpiryRows` is the
  expiry callback, with its loop over the strikes. `PushStrikeRows` is the
  strike callback, with its loop over `['call', 'put']`. Each loop appends
  to a sequence, as the source's `push` does. The three expiries (date and
  label) are the constant `Expirations`, and the rate and volatility are the
  constants `RiskFreeRate` and `Volatility`.
- the `filteredOptions` search: keeps the rows whose lower-cased code or
  underlying symbol contains the lower-cased query. Module `OptionSearch`.
- the string operations these use: ASCII `toLowerCase`, `includes`,
  first-occurrence `replace`, and writing an integer into a template literal.
  Module `Text`.

`exp`, `ln` and `sqrt` are not computed. They are the fields of a value
`MathFns` that every pricing call takes as an argument. The only assumption
the formulas need is `SqrtPositive`: the square root of a positive number is
positive. The range lemmas also assume `ExpBounded`: `exp` is positive, and at
most 1 for arguments ≤ 0. `Math.PI` is the decimal 3.141592653589793.
`Math.round(x)` is `Floor(x + 1/2)`.

The year fraction `T` of each expiry is computed from the wall clock at
sheshoptions.py:103. Here it is a parameter `yearsUntil: string -> real`,
applied to the expiry's date string. The rate 0.065 and the volatility 0.30
are the source's constants.

The pricing functions require `K != 0` and `sigma != 0` when `T > 0`, and the
Greeks also require `S != 0`. Those are the divisions in the formulas; the
source does not trap them, and in floating point they give Infinity or NaN.
The generator requires the same of each of its 21 (expiry, strike) pairs
(`ChainDomain`). Only an expiry with `T > 0` divides by the spot and the
strike, so a strike that rounds to 0 is harmless at an expiry that has
passed. A spot of at least 10/17 makes every strike at least 1, and that is
enough whatever the expiry times are (`ChainDomainLargeSpot`). When every
expiry has passed, every spot is accepted (`ChainDomainExpired`).

At x = 0 the code gives normalCDF(0) = 0.3989423 · exp(0) · 1.2533137, which
is 0.49999985009951 when exp(0) = 1. That is about 1.5e-7 below 1/2. An
expectation that normalCDF(0) is 1/2 within 1e-9 does not hold for this code.
The model follows the code (`CdfAtZero`, `CdfAtZeroBelowHalf`).

## Model

| member | source | states |
|---|---|---|
| NormalDistribution.Cdf | sheshoptions.py:21-26 | `normalCDF`; no contract of its own. CdfAntisymmetric, CdfAtZero, CdfAtZeroBelowHalf and CdfBounds state its properties |
| NormalDistribution.Tail | sheshoptions.py:22-24 | the term `prob`; no contract of its own. TailEven and TailBounds state its properties |
| NormalDistribution.Poly | sheshoptions.py:24 | the Horner polynomial of `prob`; no contract of its own. InnerFactorBounds and PolyBounds bound it |
| NormalDistribution.Pdf | sheshoptions.py:47 | `npd1`, the density exp(−x²/2)/√(2π); no contract of its own. GammaVegaPositive and CallThetaNegative use that it is positive |
| NormalDistribution.TailEven | sheshoptions.py:22-24 | the tail term `prob` is the same at x and -x: it depends only on \|x\| and x·x |
| NormalDistribution.CdfAntisymmetric | sheshoptions.py:21-26 | for every x ≠ 0, normalCDF(x) + normalCDF(-x) = 1 exactly |
| NormalDistribution.CdfAtZero | sheshoptions.py:21-26 | at x = 0 neither call takes the `1 - prob` branch, so the sum is 2·prob(0); t is 1, the polynomial is 1.2533137, and normalCDF(0) = 0.3989423 · exp(0) · 1.2533137 |
| NormalDistribution.CdfAtZeroBelowHalf | sheshoptions.py:21-26 | with exp(0) = 1, normalCDF(0) is exactly 0.49999985009951: below 0.49999986, so normalCDF(0) + normalCDF(-0) ≠ 1 |
| NormalDistribution.InnerFactorBounds | sheshoptions.py:24 | the inner quadratic factor of the Horner polynomial lies in [1.1, 1.781478] for t in (0, 1] |
| NormalDistribution.PolyBounds | sheshoptions.py:24 | for t in (0, 1] the polynomial is in (0, 1.75] |
| NormalDistribution.TailBounds | sheshoptions.py:22-24 | if exp is bounded, prob lies strictly between 0 and 0.7 for every x |
| NormalDistribution.CdfBounds | sheshoptions.py:21-26 | if exp is bounded, 0 < normalCDF(x) < 1 for every x |
| BlackScholes.D1 | sheshoptions.py:31 | d1, and also line 44; no contract of its own. It is shared by Price and ComputeGreeks, which is what PutCallParity, GreeksSymmetry and ThetaParity use |
| BlackScholes.D2 | sheshoptions.py:32 | d2 = d1 − sigma·√T, and also line 45; no contract of its own |
| BlackScholes.Price | sheshoptions.py:28-39 | `calculateBlackScholes`; no contract of its own. BoundaryCollapse, PutCallParity and ExpiredParity state its properties |
| BlackScholes.ComputeGreeks | sheshoptions.py:41-57 | `calculateGreeks`; no contract of its own. BoundaryCollapse, GreeksSymmetry, ThetaParity, DeltaRange, GammaVegaPositive and CallThetaNegative state its properties |
| BlackScholes.Intrinsic | sheshoptions.py:108-110 | intrinsic value is ≥ 0; it is positive exactly when spot > strike for a call or spot < strike for a put, and then equals the difference |
| BlackScholes.BoundaryCollapse | sheshoptions.py:28-42 | if T ≤ 0, the price is exactly max(S-K, 0) for a call and max(K-S, 0) for a put, and all four Greeks are 0 |
| BlackScholes.PutCallParity | sheshoptions.py:31-38 | if T > 0, d1 ≠ 0 and d2 ≠ 0, call price − put price = S − K·exp(−rT) |
| BlackScholes.ExpiredParity | sheshoptions.py:29 | if T ≤ 0, call price − put price = S − K |
| BlackScholes.GreeksSymmetry | sheshoptions.py:49-54 | if T > 0, call delta − put delta = 1, and gamma and vega are the same for a call and a put |
| BlackScholes.ThetaParity | sheshoptions.py:51-53 | if T > 0 and d2 ≠ 0, call theta − put theta = −r·K·exp(−rT)/365 |
| BlackScholes.DeltaRange | sheshoptions.py:42-49 | if exp is bounded, call delta ∈ [0, 1] and put delta ∈ [−1, 0], strictly inside when T > 0 |
| BlackScholes.GammaVegaPositive | sheshoptions.py:47-54 | if exp is bounded and S, sigma, T > 0, gamma and vega are positive |
| BlackScholes.CallThetaNegative | sheshoptions.py:51-52 | if exp is bounded, S, K, sigma, T > 0 and r ≥ 0, a call's theta is negative |
| Text.ToLower | sheshoptions.py:179-180 | `toLowerCase` on ASCII: the same length, and each character is mapped by LowerChar (A–Z to a–z, all others kept) |
| Text.Includes | sheshoptions.py:179-180 | `includes`; no contract of its own. IncludesIff characterises it |
| Text.RemoveFirst | sheshoptions.py:114 | `replace('.NS', '')`; no contract of its own. RemoveFirstAt and RemoveFirstAbsent characterise it |
| Text.NatToString | sheshoptions.py:114 | the decimal digits of a strike; no contract of its own. NatRoundTrip states its properties |
| Text.IntToString | sheshoptions.py:114 | `${strike}` in the template literal; no contract of its own. IntRoundTrip states its properties |
| Text.ToLowerIdempotent | sheshoptions.py:178-181 | lower-casing twice is the same as lower-casing once |
| Text.IncludesIff | sheshoptions.py:179-180 | `includes` is true exactly when the query occurs at some position; the empty query occurs everywhere |
| Text.RemoveFirstAbsent | sheshoptions.py:114 | `replace('.NS', '')` leaves a symbol unchanged when it does not contain `.NS` |
| Text.RemoveFirstAt | sheshoptions.py:114 | if the first `.NS` is at position i, replace removes exactly that occurrence and keeps the text before and after it |
| Text.NatRoundTrip | sheshoptions.py:114 | the digits written for a natural number are non-empty decimal digits that read back as the number, with no leading zero when the number is positive |
| Text.IntRoundTrip | sheshoptions.py:114 | the integer written into the code is a space-free literal that reads back as the strike |
| Text.TrailingTokenAfterSpace | sheshoptions.py:114 | the field after the last space of a space-joined string is recovered exactly |
| OptionChain.Strikes | sheshoptions.py:82-90 | the strike list: exactly seven strikes. StrikesOrdered, StrikesPositive, SmallSpotDuplicates and ExactFactorStrikes state the rest |
| OptionChain.Round | sheshoptions.py:83-89 | Math.round(x) is the integer n with n ≤ x + 1/2 < n + 1 |
| OptionChain.StrikesOrdered | sheshoptions.py:82-90 | for a positive spot, the seven strikes are non-decreasing and the middle one is round(spot) |
| OptionChain.StrikesPositive | sheshoptions.py:82-90 | every strike is ≥ 1 exactly when the lowest one is, which is exactly when spot ≥ 10/17 |
| OptionChain.ExactFactorStrikes | sheshoptions.py:89 | with exact factors, spot 50 has top strike 58 and spot 90 has top strike 104 |
| OptionChain.SmallSpotDuplicates | sheshoptions.py:82-90 | no strike is dropped even when strikes coincide: a spot of 1 gives seven strikes of 1 |
| OptionChain.MakeRow | sheshoptions.py:107-129 | the body of the `['call', 'put']` callback: one row; no contract of its own. MakeRowFacts states its properties |
| OptionChain.RowAt | sheshoptions.py:102-129 | the closed form of the row at index i: expiry i/14, strike (i/2) mod 7, a call exactly when i is even; no contract of its own. GenerateOptions is proved equal to it, and RowAtFacts, RowAtPosition and GridComplete state its properties |
| OptionChain.MakeRowFacts | sheshoptions.py:107-129 | every row has intrinsic value ≥ 0 and time value = price − intrinsic; itm holds exactly when intrinsic > 0 and exactly by the moneyness rule; code, underlying, spot, expiry label and date, strike and type are copied in; price and Greeks come from the two pricing functions |
| OptionChain.ChainDomainLargeSpot | sheshoptions.py:82-90 | a spot of at least 10/17 puts every (expiry, strike) pair in the pricing domain, whatever the expiry times |
| OptionChain.ChainDomainExpired | sheshoptions.py:28-42 | when every expiry has T ≤ 0, every spot is accepted: no formula divides |
| OptionChain.ExpiredSmallSpot | sheshoptions.py:82-90 | a spot of 0.5 has lowest strike 0 and middle strike 1, and with every expiry passed it is still accepted |
| OptionChain.RowAtPosition | sheshoptions.py:102-106 | the row at index 14e + 2k + t is built from expiry e, strike k and type t (call for t = 0) |
| OptionChain.PushStrikeRows | sheshoptions.py:106-130 | the callback over `['call', 'put']` pushes exactly two rows, and afterwards row i is still the row for index i, for every i |
| OptionChain.PushExpiryRows | sheshoptions.py:105-131 | the callback over the strikes pushes exactly 14 rows, and afterwards row i is still the row for index i, for every i |
| OptionChain.GenerateOptions | sheshoptions.py:81-135 | returns exactly 42 rows; row i is built from expiry i/14, strike (i/2) mod 7, and is a call exactly when i is even, so expiry is outermost, then strike, then call before put; every row keeps the row invariants and carries the code derived from its own fields |
| OptionChain.GridComplete | sheshoptions.py:102-106 | every (expiry e, strike k, type t) combination appears, at index 14e + 2k + t, with that expiry label, that strike and that type (call for t = 0) |
| OptionChain.OptionCode | sheshoptions.py:114 | the display code; no contract of its own. RemoveFirstAt and RemoveFirstAbsent cover the `.NS` strip, IntRoundTrip the strike digits, CodeTailRoundTrip the recovery of strike and type, and ExampleCode a whole code |
| OptionChain.TagRoundTrip | sheshoptions.py:114 | the CE/PE tag has two characters and identifies the option type |
| OptionChain.DecodeFields | sheshoptions.py:114 | any string ending in " <integer> <CE or PE>" decodes to that integer and type |
| OptionChain.CodeTailRoundTrip | sheshoptions.py:114 | the strike and type can be read back from every display code, whatever the symbol and expiry label contain |
| OptionChain.ExampleSymbolStripped | sheshoptions.py:114 | `RELIANCE.NS` becomes `RELIANCE` in the code |
| OptionChain.ExampleStrikeDigits | sheshoptions.py:114 | strike 2850 is written as `2850` |
| OptionChain.ExampleCode | sheshoptions.py:114 | the December call at strike 2850 on `RELIANCE.NS` has the code `RELIANCE 30 Dec 25 2850 CE` |
| OptionSearch.Matches | sheshoptions.py:179-180 | the filter's predicate on one row; no contract of its own. FilterMembership states what it selects |
| OptionSearch.Filter | sheshoptions.py:178-181 | `optionsData.filter(...)`; no contract of its own. The Filter lemmas below state its properties |
| OptionSearch.FilterIsSubsequence | sheshoptions.py:178-181 | the filtered rows are an order-preserving subsequence of the rows |
| OptionSearch.FilterCounts | sheshoptions.py:178-181 | a matching row is kept as many times as it occurs; a non-matching row is never kept |
| OptionSearch.FilterMembership | sheshoptions.py:178-181 | a row is in the result exactly when it is one of the rows and its lower-cased code or underlying contains the lower-cased query |
| OptionSearch.FilterEmptyQuery | sheshoptions.py:178-181 | the empty query keeps every row, in order |
| OptionSearch.FilterCaseInsensitive | sheshoptions.py:178-181 | filtering by the lower-cased query gives the same rows as filtering by the query |
| OptionSearch.FilterIdempotent | sheshoptions.py:178-181 | filtering the result again by the same query changes nothing |

## Left out

- `fetchStockPrice` (sheshoptions.py:59-79): an HTTP request to a market-data endpoint and a JSON parse. This is I/O.
- `fetchAllOptions` (sheshoptions.py:137-161): an async loop that sets React state. It concatenates the outputs of `generateOptions` for the symbols whose fetch succeeded. That is I/O and UI state.
- The auto-refresh `useEffect`/`setInterval` (sheshoptions.py:163-176), all JSX rendering and the `toFixed` display formatting (sheshoptions.py:183-375). These are timers and UI.
- The date arithmetic at sheshoptions.py:103 (`new Date(exp.date) - new Date()`). It reads the clock and parses dates. `T` is supplied by the `yearsUntil` parameter instead.
- Floating-point behaviour. All arithmetic is exact over the reals. NaN, Infinity and signed zero are not modelled. The decimal factors 0.85 … 1.15 are exact here, not the nearest doubles, and this can change a strike and hence the display code. In doubles, 50 · 1.15 = 57.49999999999999 rounds to 57, but here 57.5 rounds to 58. Likewise spot 90 gives 103 in doubles and 104 here (ExactFactorStrikes).
- OptionChain.GenerateOptions: requires every expiry with T > 0 to have a non-zero spot and non-zero strikes, so it excludes finite rows the source does produce. With T > 0, a spot below 10/17 rounds a strike to 0. The source then computes S/K = Infinity, so d1 = d2 = Infinity and normalCDF gives 1 or 0. The call row then has price S and delta 1, the put row has price and delta 0, gamma, vega and theta are zero (the call theta is −0). The model does not carry IEEE infinities through ln and the CDF, so it does not cover those rows. Expiries with T ≤ 0 accept every spot.
- BlackScholes.Price, BlackScholes.ComputeGreeks: require K ≠ 0 and sigma ≠ 0 (and S ≠ 0 for the Greeks) when T > 0, because real division by zero is undefined. `ln` of a non-positive ratio is left to the uninterpreted `ln`.
- How accurate the CDF approximation is away from 0, and the limits as K → 0 or K → ∞. These are numerical analysis, and exp is uninterpreted.
- Number-to-string conversion for integers of magnitude ≥ 10^21, which JavaScript writes in exponent form. `IntToString` always writes plain decimal digits.
- `toLowerCase` beyond ASCII. Only `A`–`Z` are mapped.
- Rho, configurable strike/expiry grids and vendor-supplied volatility. None of these exist in this component.
