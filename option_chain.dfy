/** The chain generator `generateOptions`: one spot price expands into a
    fixed grid of three expiries, seven strikes around the spot and both
    option types, each row priced with the Black–Scholes model at a 6.5%
    rate and 30% volatility. The year fraction to each expiry is read from
    the clock in the source; here it is the parameter `yearsUntil`, applied
    to the expiry's date string. */
module OptionChain {
  import opened NormalDistribution
  import opened BlackScholes
  import opened Text

  datatype Expiration = Expiration(date: string, labelText: string)

  /** The three expiry anchors, in the order the generator visits them. */
  const Expirations: seq<Expiration> := [
    Expiration("2025-12-30", "30 Dec 25"),
    Expiration("2026-01-30", "30 Jan 26"),
    Expiration("2026-03-27", "27 Mar 26")
  ]

  const RiskFreeRate: real := 0.065
  const Volatility: real := 0.30

  /** Number of rows one spot price expands into: 3 expiries x 7 strikes x 2 types. */
  const ChainLength: nat := 42

  /** `Math.round`: the nearest integer, halves rounded up. */
  function Round(x: real): (n: int)
    ensures n as real <= x + 0.5 < n as real + 1.0
  {
    (x + 0.5).Floor
  }

  lemma RoundMonotone(x: real, y: real)
    requires x <= y
    ensures Round(x) <= Round(y)
  {
  }

  /** The seven strikes: the spot scaled by 0.85 ... 1.15 in steps of 0.05,
      each rounded to an integer. None is dropped, even when two coincide. */
  function Strikes(price: real): (ks: seq<int>)
    ensures |ks| == 7
  {
    [Round(price * 0.85), Round(price * 0.90), Round(price * 0.95), Round(price),
     Round(price * 1.05), Round(price * 1.10), Round(price * 1.15)]
  }

  /** For a positive spot the strike list is non-decreasing and its middle
      entry is the rounded spot. */
  lemma StrikesOrdered(price: real, i: nat, j: nat)
    requires 0.0 < price && i <= j < 7
    ensures Strikes(price)[i] <= Strikes(price)[j]
    ensures Strikes(price)[3] == Round(price)
  {
    var factors := [0.85, 0.90, 0.95, 1.0, 1.05, 1.10, 1.15];
    assert forall k :: 0 <= k < 7 ==> Strikes(price)[k] == Round(price * factors[k]);
    assert price * factors[i] <= price * factors[j];
    RoundMonotone(price * factors[i], price * factors[j]);
  }

  /** Every strike is at least 1 exactly when the lowest one is, which is
      exactly when the spot is at least 10/17. */
  lemma StrikesPositive(price: real)
    ensures 1 <= Strikes(price)[0] <==> 10.0 <= 17.0 * price
    ensures 1 <= Strikes(price)[0] ==> forall k :: 0 <= k < 7 ==> 1 <= Strikes(price)[k]
  {
    if 1 <= Strikes(price)[0] {
      forall k | 0 <= k < 7 ensures 1 <= Strikes(price)[k] {
        StrikesOrdered(price, 0, k);
      }
    }
  }

  /** For small spots several strikes coincide: a spot of 1 gives seven
      strikes of 1. */
  lemma SmallSpotDuplicates()
    ensures Strikes(1.0) == [1, 1, 1, 1, 1, 1, 1]
  {
  }

  /** The factors are exact here: a spot of 50 has top strike round(57.5) =
      58, and a spot of 90 has round(103.5) = 104. In binary floating point
      the products fall just below the half and round down. */
  lemma ExactFactorStrikes()
    ensures Strikes(50.0)[6] == 58 && Strikes(90.0)[6] == 104
  {
  }

  function TypeTag(kind: OptionType): string {
    if kind == Call then "CE" else "PE"
  }

  /** The display code: the symbol with its first ".NS" removed, the expiry
      label, the integer strike and CE or PE, separated by single spaces. */
  function OptionCode(symbol: string, expiryLabel: string, strike: int, kind: OptionType): string {
    RemoveFirst(symbol, ".NS") + " " + expiryLabel + " " + IntToString(strike) + " " + TypeTag(kind)
  }

  /** One row of the chain, with the fields the generator pushes (the
      sensitivities spread in from `calculateGreeks`). */
  datatype OptionRow = OptionRow(
    code: string,
    underlying: string,
    strike: int,
    kind: OptionType,
    expiry: string,
    expiryDate: string,
    spotPrice: real,
    theoreticalPrice: real,
    intrinsicValue: real,
    timeValue: real,
    delta: real,
    gamma: real,
    theta: real,
    vega: real,
    itm: bool)

  /** What every row satisfies: intrinsic value never negative, time value
      the excess of the theoretical price over it, and the in-the-money flag
      both equal to "intrinsic value positive" and to the moneyness rule. */
  predicate RowInvariants(row: OptionRow) {
    && 0.0 <= row.intrinsicValue
    && row.timeValue == row.theoreticalPrice - row.intrinsicValue
    && (row.itm <==> 0.0 < row.intrinsicValue)
    && (row.itm <==> if row.kind == Call then row.spotPrice > row.strike as real
                     else row.spotPrice < row.strike as real)
  }

  /** The domain the pricing formulas need for one row. */
  ghost predicate RowDomain(price: real, T: real, strike: int, m: MathFns) {
    SqrtPositive(m) && (0.0 < T ==> price != 0.0 && strike != 0)
  }

  /** The body of the innermost loop: price, intrinsic and time value,
      Greeks, code and moneyness of one contract. */
  function MakeRow(symbol: string, price: real, exp: Expiration, T: real, strike: int,
                   kind: OptionType, m: MathFns): OptionRow
    requires RowDomain(price, T, strike, m)
  {
    var K := strike as real;
    var theoretical := Price(price, K, T, RiskFreeRate, Volatility, kind, m);
    var intrinsic := Intrinsic(price, K, kind);
    var greeks := ComputeGreeks(price, K, T, RiskFreeRate, Volatility, kind, m);
    OptionRow(
      OptionCode(symbol, exp.labelText, strike, kind), symbol, strike, kind, exp.labelText, exp.date,
      price, theoretical, intrinsic, theoretical - intrinsic,
      greeks.delta, greeks.gamma, greeks.theta, greeks.vega,
      if kind == Call then price > K else price < K)
  }

  /** What a row holds: the row invariants, the inputs copied in, the code
      built from them, and the price and Greeks of the two pricing functions
      at the chain's rate and volatility. */
  lemma MakeRowFacts(symbol: string, price: real, exp: Expiration, T: real, strike: int,
                     kind: OptionType, m: MathFns)
    requires RowDomain(price, T, strike, m)
    ensures var row := MakeRow(symbol, price, exp, T, strike, kind, m);
            && RowInvariants(row)
            && row.code == OptionCode(symbol, exp.labelText, strike, kind)
            && row.underlying == symbol && row.spotPrice == price
            && row.expiry == exp.labelText && row.expiryDate == exp.date
            && row.strike == strike && row.kind == kind
            && row.theoreticalPrice == Price(price, strike as real, T, RiskFreeRate, Volatility, kind, m)
            && Greeks(row.delta, row.gamma, row.theta, row.vega)
               == ComputeGreeks(price, strike as real, T, RiskFreeRate, Volatility, kind, m)
  {
  }

  /** The preconditions of the generator: the square root behaves, and each
      of the 21 (expiry, strike) pairs is in the pricing domain. Only an
      expiry with T > 0 divides by the spot and the strike, so a zero strike
      is harmless at an expiry that has passed. */
  ghost predicate ChainDomain(price: real, yearsUntil: string -> real, m: MathFns) {
    && SqrtPositive(m)
    && forall e: nat, k: nat | e < 3 && k < 7 ::
         RowDomain(price, yearsUntil(Expirations[e].date), Strikes(price)[k], m)
  }

  lemma ChainDomainRows(price: real, yearsUntil: string -> real, e: nat, k: nat, m: MathFns)
    requires ChainDomain(price, yearsUntil, m) && e < 3 && k < 7
    ensures RowDomain(price, yearsUntil(Expirations[e].date), Strikes(price)[k], m)
  {
  }

  /** A spot of at least 10/17 makes every strike at least 1, which is enough
      whatever the expiry times are. */
  lemma ChainDomainLargeSpot(price: real, yearsUntil: string -> real, m: MathFns)
    requires SqrtPositive(m) && 10.0 <= 17.0 * price
    ensures ChainDomain(price, yearsUntil, m)
  {
    StrikesPositive(price);
  }

  /** When every expiry has passed, no formula divides, so every spot is
      accepted, including those whose lowest strikes round to 0. */
  lemma ChainDomainExpired(price: real, yearsUntil: string -> real, m: MathFns)
    requires SqrtPositive(m)
    requires forall e: nat | e < 3 :: yearsUntil(Expirations[e].date) <= 0.0
    ensures ChainDomain(price, yearsUntil, m)
  {
  }

  /** A spot of 0.5 with every expiry passed: the lowest strike is 0 and the
      chain is still in the domain. */
  lemma ExpiredSmallSpot(m: MathFns)
    requires SqrtPositive(m)
    ensures Strikes(0.5)[0] == 0 && Strikes(0.5)[3] == 1
    ensures ChainDomain(0.5, (date: string) => -1.0, m)
  {
    ChainDomainExpired(0.5, (date: string) => -1.0, m);
  }

  /** The row the generator produces at index i: expiry i / 14, strike
      (i / 2) % 7, a call exactly when i is even. */
  function RowAt(symbol: string, price: real, yearsUntil: string -> real, m: MathFns, i: nat): OptionRow
    requires ChainDomain(price, yearsUntil, m) && i < ChainLength
  {
    var exp := Expirations[i / 14];
    ChainDomainRows(price, yearsUntil, i / 14, (i / 2) % 7, m);
    MakeRow(symbol, price, exp, yearsUntil(exp.date), Strikes(price)[(i / 2) % 7],
            if i % 2 == 0 then Call else Put, m)
  }

  /** Loop position (expiry e, strike k, type t) sits at index 14 e + 2 k + t. */
  lemma GridIndex(e: nat, k: nat, t: nat)
    requires e < 3 && k < 7 && t < 2
    ensures (14 * e + 2 * k + t) / 14 == e
    ensures ((14 * e + 2 * k + t) / 2) % 7 == k
    ensures (14 * e + 2 * k + t) % 2 == t
  {
  }

  /** What the row at index i of a chain holds: the row invariants, the grid
      position (expiry i / 14, strike (i / 2) % 7, a call exactly when i is
      even), the copied inputs and the display code. */
  predicate RowFacts(symbol: string, price: real, row: OptionRow, i: nat)
    requires i < ChainLength
  {
    && RowInvariants(row)
    && row.expiry == Expirations[i / 14].labelText
    && row.expiryDate == Expirations[i / 14].date
    && row.strike == Strikes(price)[(i / 2) % 7]
    && (row.kind == Call <==> i % 2 == 0)
    && row.underlying == symbol && row.spotPrice == price
    && row.code == OptionCode(symbol, row.expiry, row.strike, row.kind)
  }

  lemma RowAtFacts(symbol: string, price: real, yearsUntil: string -> real, m: MathFns, i: nat)
    requires ChainDomain(price, yearsUntil, m) && i < ChainLength
    ensures RowFacts(symbol, price, RowAt(symbol, price, yearsUntil, m, i), i)
  {
    var exp := Expirations[i / 14];
    ChainDomainRows(price, yearsUntil, i / 14, (i / 2) % 7, m);
    MakeRowFacts(symbol, price, exp, yearsUntil(exp.date), Strikes(price)[(i / 2) % 7],
                 if i % 2 == 0 then Call else Put, m);
  }

  /** The row at index 14 e + 2 k + t is built from expiry e, strike k and
      type t (0 for a call, 1 for a put). */
  lemma RowAtPosition(symbol: string, price: real, yearsUntil: string -> real, m: MathFns,
                      e: nat, k: nat, t: nat, exp: Expiration, T: real, strike: int, kind: OptionType)
    requires ChainDomain(price, yearsUntil, m) && e < 3 && k < 7 && t < 2
    requires exp == Expirations[e] && T == yearsUntil(exp.date) && strike == Strikes(price)[k]
    requires kind == [Call, Put][t]
    ensures RowDomain(price, T, strike, m)
    ensures RowAt(symbol, price, yearsUntil, m, 14 * e + 2 * k + t)
            == MakeRow(symbol, price, exp, T, strike, kind, m)
  {
    GridIndex(e, k, t);
    ChainDomainRows(price, yearsUntil, e, k, m);
  }

  /** Appending the row for the next index keeps "row i is RowAt(i)". */
  lemma ExtendChain(symbol: string, price: real, yearsUntil: string -> real, m: MathFns,
                    options: seq<OptionRow>, row: OptionRow)
    requires ChainDomain(price, yearsUntil, m) && |options| < ChainLength
    requires forall i :: 0 <= i < |options| ==> options[i] == RowAt(symbol, price, yearsUntil, m, i)
    requires row == RowAt(symbol, price, yearsUntil, m, |options|)
    ensures forall i :: 0 <= i < |options| + 1 ==> (options + [row])[i] == RowAt(symbol, price, yearsUntil, m, i)
  {
  }

  /** "Row i is RowAt(i)" for every row built so far. */
  ghost predicate ChainPrefix(symbol: string, price: real, yearsUntil: string -> real, m: MathFns,
                              options: seq<OptionRow>)
  {
    && ChainDomain(price, yearsUntil, m) && |options| <= ChainLength
    && forall i :: 0 <= i < |options| ==> options[i] == RowAt(symbol, price, yearsUntil, m, i)
  }

  /** The strike callback, run for strike k of expiry e: its loop over
      `['call', 'put']` pushes the call row, then the put row. */
  method PushStrikeRows(symbol: string, price: real, yearsUntil: string -> real, m: MathFns,
                        e: nat, k: nat, exp: Expiration, T: real, strike: int, options: seq<OptionRow>)
    returns (options': seq<OptionRow>)
    requires ChainDomain(price, yearsUntil, m) && e < 3 && k < 7
    requires exp == Expirations[e] && T == yearsUntil(exp.date) && strike == Strikes(price)[k]
    requires |options| == 14 * e + 2 * k && ChainPrefix(symbol, price, yearsUntil, m, options)
    ensures |options'| == |options| + 2
    ensures ChainPrefix(symbol, price, yearsUntil, m, options')
  {
    var types := [Call, Put];
    options' := options;
    var t := 0;
    while t < |types|
      invariant 0 <= t <= 2
      invariant |options'| == 14 * e + 2 * k + t
      invariant ChainPrefix(symbol, price, yearsUntil, m, options')
    {
      RowAtPosition(symbol, price, yearsUntil, m, e, k, t, exp, T, strike, types[t]);
      var row := MakeRow(symbol, price, exp, T, strike, types[t], m);
      ExtendChain(symbol, price, yearsUntil, m, options', row);
      options' := options' + [row];
      t := t + 1;
    }
  }

  /** The expiry callback, run for expiry e: its loop over the strikes runs
      the strike callback for each strike, lowest strike first. */
  method PushExpiryRows(symbol: string, price: real, yearsUntil: string -> real, m: MathFns,
                        e: nat, options: seq<OptionRow>)
    returns (options': seq<OptionRow>)
    requires ChainDomain(price, yearsUntil, m) && e < 3
    requires |options| == 14 * e && ChainPrefix(symbol, price, yearsUntil, m, options)
    ensures |options'| == |options| + 14
    ensures ChainPrefix(symbol, price, yearsUntil, m, options')
  {
    var strikes := Strikes(price);
    var exp := Expirations[e];
    var T := yearsUntil(exp.date);
    options' := options;
    var k := 0;
    while k < |strikes|
      invariant 0 <= k <= 7
      invariant |options'| == 14 * e + 2 * k
      invariant ChainPrefix(symbol, price, yearsUntil, m, options')
    {
      options' := PushStrikeRows(symbol, price, yearsUntil, m, e, k, exp, T, strikes[k], options');
      k := k + 1;
    }
  }

  /** `generateOptions`: the outer loop over the expiries, expiry outermost,
      then strike, call before put. */
  method GenerateOptions(symbol: string, price: real, yearsUntil: string -> real, m: MathFns)
    returns (options: seq<OptionRow>)
    requires ChainDomain(price, yearsUntil, m)
    ensures |options| == ChainLength
    ensures forall i :: 0 <= i < |options| ==> options[i] == RowAt(symbol, price, yearsUntil, m, i)
    ensures forall i :: 0 <= i < |options| ==> RowFacts(symbol, price, options[i], i)
  {
    var expirations := Expirations;
    options := [];
    var e := 0;
    while e < |expirations|
      invariant 0 <= e <= 3
      invariant |options| == 14 * e
      invariant ChainPrefix(symbol, price, yearsUntil, m, options)
    {
      options := PushExpiryRows(symbol, price, yearsUntil, m, e, options);
      e := e + 1;
    }
    forall i | 0 <= i < |options| ensures RowFacts(symbol, price, options[i], i) {
      RowAtFacts(symbol, price, yearsUntil, m, i);
    }
  }

  /** Every grid position appears: the row for expiry e, strike k and type
      t is at index 14 e + 2 k + t. */
  lemma GridComplete(symbol: string, price: real, yearsUntil: string -> real, m: MathFns,
                     e: nat, k: nat, t: nat)
    requires ChainDomain(price, yearsUntil, m) && e < 3 && k < 7 && t < 2
    ensures 14 * e + 2 * k + t < ChainLength
    ensures RowAt(symbol, price, yearsUntil, m, 14 * e + 2 * k + t).expiry == Expirations[e].labelText
    ensures RowAt(symbol, price, yearsUntil, m, 14 * e + 2 * k + t).strike == Strikes(price)[k]
    ensures RowAt(symbol, price, yearsUntil, m, 14 * e + 2 * k + t).kind == [Call, Put][t]
  {
    var i := 14 * e + 2 * k + t;
    GridIndex(e, k, t);
    RowAtFacts(symbol, price, yearsUntil, m, i);
    var row := RowAt(symbol, price, yearsUntil, m, i);
    assert i / 14 == e && (i / 2) % 7 == k;
    assert row.kind == Call <==> t == 0;
  }

  /** The option type a two-letter tag stands for. */
  function TagType(tag: string): Option<OptionType> {
    if tag == "CE" then Some(Call) else if tag == "PE" then Some(Put) else None
  }

  lemma TagRoundTrip(kind: OptionType)
    ensures |TypeTag(kind)| == 2 && TagType(TypeTag(kind)) == Some(kind)
  {
  }

  /** Reads the strike and the type back from the last two fields of a
      display code. */
  function DecodeCodeTail(code: string): Option<(int, OptionType)> {
    if |code| < 3 || code[|code| - 3] != ' ' then None
    else
      var kind := TagType(code[|code| - 2..]);
      var token := TrailingToken(code[..|code| - 3]);
      if kind.None? || !IsIntLiteral(token) then None
      else Some((ParseInt(token), kind.value))
  }

  /** Decoding a code whose last two fields are an integer literal and a
      type tag, whatever comes before them. */
  lemma DecodeFields(head: string, digits: string, kind: OptionType)
    requires IsIntLiteral(digits) && ' ' !in digits
    ensures DecodeCodeTail(head + " " + digits + " " + TypeTag(kind)) == Some((ParseInt(digits), kind))
  {
    var p := head + " " + digits;
    var code := p + " " + TypeTag(kind);
    TagRoundTrip(kind);
    SplitLastField(p, TypeTag(kind));
    TrailingTokenAfterSpace(head, digits);
    assert TrailingToken(code[..|code| - 3]) == digits;
  }

  /** The strike and type a code is built from can be read back from it,
      whatever the symbol and label hold. */
  lemma CodeTailRoundTrip(symbol: string, expiryLabel: string, strike: int, kind: OptionType)
    ensures DecodeCodeTail(OptionCode(symbol, expiryLabel, strike, kind)) == Some((strike, kind))
  {
    IntRoundTrip(strike);
    DecodeFields(RemoveFirst(symbol, ".NS") + " " + expiryLabel, IntToString(strike), kind);
  }

  /** The separator before, and the text of, a two-character last field. */
  lemma SplitLastField(p: string, tag: string)
    requires |tag| == 2
    ensures var c := p + " " + tag;
            c[|c| - 3] == ' ' && c[|c| - 2..] == tag && c[..|c| - 3] == p
  {
  }

  /** The symbol of the example contract in the search placeholder loses
      its exchange suffix ... */
  lemma ExampleSymbolStripped()
    ensures RemoveFirst("RELIANCE.NS", ".NS") == "RELIANCE"
  {
    var s := "RELIANCE.NS";
    assert OccursAt(s, ".NS", 8);
    forall j: nat | j < 8 ensures !OccursAt(s, ".NS", j) {
      assert s[j] != '.';
    }
    RemoveFirstAt(s, ".NS", 8);
  }

  /** ... and its strike is written as plain decimal digits. */
  lemma ExampleStrikeDigits()
    ensures IntToString(2850) == "2850"
  {
    assert NatToString(2) == "2";
    assert NatToString(28) == "28";
    assert NatToString(285) == "285";
  }

  /** The display code from its parts. */
  lemma OptionCodeFromParts(symbol: string, expiryLabel: string, strike: int, kind: OptionType,
                            stripped: string, digits: string)
    requires RemoveFirst(symbol, ".NS") == stripped && IntToString(strike) == digits
    ensures OptionCode(symbol, expiryLabel, strike, kind)
            == stripped + " " + expiryLabel + " " + digits + " " + TypeTag(kind)
  {
  }

  /** The parts of the example code, joined by single spaces. */
  lemma CodeLiteral()
    ensures "RELIANCE" + " " + "30 Dec 25" + " " + "2850" + " " + "CE" == "RELIANCE 30 Dec 25 2850 CE"
  {
  }

  /** The call at strike 2850 of the December expiry on RELIANCE.NS. */
  lemma ExampleCode()
    ensures OptionCode("RELIANCE.NS", "30 Dec 25", 2850, Call) == "RELIANCE 30 Dec 25 2850 CE"
  {
    ExampleSymbolStripped();
    ExampleStrikeDigits();
    OptionCodeFromParts("RELIANCE.NS", "30 Dec 25", 2850, Call, "RELIANCE", "2850");
    CodeLiteral();
  }
}
