/** The rate of an oracle: one hop for each group of sources, folded from the left
    (`programs/oracle/src/helper.rs`, with `Price.get` from `state/structs.rs`). */
module OracleRates {
  import opened Common
  import opened OracleSources
  import WideDivision
  import WideWords

  const RATE_OUTPUT_DECIMALS: nat := 15
  const RATE_ONE: nat := 1_000_000_000_000_000
  const RATE_ONE_SQUARED: nat := 1_000_000_000_000_000_000_000_000_000_000

  /** A reader's answer: a price and the decimals it carries, if it is not at the output's already. */
  datatype Price = Price(price: nat, exponent: Option<nat>)

  /** Prices come from outside: what the readers say of each group, at its place. */
  type Readings = seq<Result<Price, OracleError>>

  function TenTo(n: nat): (p: nat)
    ensures p > 0
  {
    if n == 0 then 1 else 10 * TenTo(n - 1)
  }

  /** Ten to the 39th no longer fits 128 bits, and raising to it panics. */
  function GetMultiplierAndDivisor(exponent: nat): Result<(nat, nat), OracleError> {
    if exponent > RATE_OUTPUT_DECIMALS then
      if exponent - RATE_OUTPUT_DECIMALS > 38 then Err(Overflow) else Ok((1, TenTo(exponent - RATE_OUTPUT_DECIMALS)))
    else Ok((TenTo(RATE_OUTPUT_DECIMALS - exponent), 1))
  }

  function PriceParts(p: Price): (r: Result<(nat, nat, nat), OracleError>)
    ensures r.Ok? ==> r.value.0 == p.price && r.value.2 > 0
  {
    match p.exponent
    case None => Ok((p.price, 1, 1))
    case Some(exponent) =>
      var parts :- GetMultiplierAndDivisor(exponent);
      Ok((p.price, parts.0, parts.1))
  }

  /** A source's own rate at fifteen decimals, inverted if the source says so. */
  function HopFactor(reading: Result<Price, OracleError>, info: Sources): Result<nat, OracleError> {
    var price :- reading;
    var (rate, multiplier, divisor) :- PriceParts(price);
    if rate * multiplier > U128_MAX then Err(MathError)
    else Ok(InvertIf(info.invert, FloorDiv(rate * multiplier, divisor)))
  }

  function InvertIf(invert: bool, rate: nat): nat {
    if rate > 0 && invert then RATE_ONE_SQUARED / rate else rate
  }

  /** `get_exchange_rate_for_hop`. */
  function ExchangeRateForHop(reading: Result<Price, OracleError>, info: Sources, current: nat): Result<nat, OracleError> {
    var factor :- HopFactor(reading, info);
    if factor * current / RATE_ONE > U128_MAX then Err(NumberDownCast) else Ok(factor * current / RATE_ONE)
  }

  lemma FactorFits(reading: Result<Price, OracleError>, info: Sources)
    requires HopFactor(reading, info).Ok?
    ensures HopFactor(reading, info).value <= U128_MAX
  {
    hide PriceParts, InvertIf, FloorDiv;
    var parts := PriceParts(reading.value).value;
    QuotientFits(parts.0 * parts.1, parts.2);
    InvertFits(info.invert, FloorDiv(parts.0 * parts.1, parts.2));
  }

  lemma QuotientFits(n: nat, d: nat)
    requires d > 0
    ensures FloorDiv(n, d) <= n
  {
    MulAtMost(1, d, FloorDiv(n, d));
  }

  lemma InvertFits(invert: bool, rate: nat)
    requires rate <= U128_MAX
    ensures InvertIf(invert, rate) <= U128_MAX
  {
    if rate > 0 {
      QuotientFits(RATE_ONE_SQUARED, rate);
    }
  }

  method GetExchangeRateForHop(reading: Result<Price, OracleError>, info: Sources, current: WideWords.Double)
    returns (r: Result<nat, OracleError>)
    ensures r == ExchangeRateForHop(reading, info, current)
    ensures r.Ok? ==> r.value <= U128_MAX
  {
    var factor := HopFactor(reading, info);
    if factor.Err? {
      return Err(factor.error);
    }
    FactorFits(reading, info);
    hide HopFactor;
    var rate := WideDivision.SafeMultiplyDivide(factor.value, current, RATE_ONE);
    return if rate.Ok? then Ok(rate.value) else Err(NumberDownCast);
  }

  predicate InRange(infos: seq<Sources>, starts: seq<nat>) {
    forall g :: 0 <= g < |starts| ==> starts[g] < |infos|
  }

  /** The hops of the first `n` groups, in order, each multiplied into the rate so far. The source a group starts with says
      whether to invert. */
  function Fold(infos: seq<Sources>, starts: seq<nat>, readings: Readings, n: nat): Result<nat, OracleError>
    requires |readings| == |starts| && n <= |starts| && InRange(infos, starts)
    decreases n
  {
    if n == 0 then Ok(RATE_ONE)
    else
      var sofar :- Fold(infos, starts, readings, n - 1);
      var rate :- ExchangeRateForHop(readings[n - 1], infos[starts[n - 1]], sofar);
      if rate == 0 then Err(RateZero) else Ok(rate)
  }

  /** An error on the way ends the fold. */
  lemma {:induction false} FoldStops(infos: seq<Sources>, starts: seq<nat>, readings: Readings, n: nat, m: nat)
    requires |readings| == |starts| && n <= m <= |starts| && InRange(infos, starts)
    requires Fold(infos, starts, readings, n).Err?
    ensures Fold(infos, starts, readings, m) == Fold(infos, starts, readings, n)
    decreases m
  {
    if n < m {
      FoldStops(infos, starts, readings, n, m - 1);
    }
  }

  lemma {:induction false} BoundariesInRange(infos: seq<Sources>, i: nat)
    ensures InRange(infos, Boundaries(infos, i))
    decreases |infos| - i
  {
    if i < |infos| {
      BoundariesInRange(infos, i + GroupLength(infos[i]));
    }
  }

  /** The rate a list of sources gives, from what the readers say of its groups. */
  function RateOf(infos: seq<Sources>, readings: Readings): Result<nat, OracleError>
    requires |readings| == |Boundaries(infos, 0)|
  {
    BoundariesInRange(infos, 0);
    Fold(infos, Boundaries(infos, 0), readings, |readings|)
  }

  lemma AcceptedLoads(infos: seq<Sources>, accounts: seq<Pubkey>)
    ensures AcceptedFrom(infos, 0) && AccountsMatch(infos, accounts) ==> MatchedFrom(infos, accounts, 0)
  {
    if AcceptedFrom(infos, 0) && AccountsMatch(infos, accounts) {
      LoaderAgrees(infos, accounts, 0);
    }
  }

  /** `get_hops_exchange_rate`. Whatever accounts it is given, a list that loads has the one rate of its sources; an
      accepted list loads with the accounts its sources name. */
  method GetHopsExchangeRate(infos: seq<Sources>, accounts: seq<Pubkey>, readings: Readings)
    returns (r: Result<nat, OracleError>)
    requires |readings| == |Boundaries(infos, 0)|
    ensures |accounts| == |infos| && MatchedFrom(infos, accounts, 0) ==> r == RateOf(infos, readings)
    ensures AcceptedFrom(infos, 0) && AccountsMatch(infos, accounts) ==> r == RateOf(infos, readings)
    ensures !(|accounts| == |infos| && MatchedFrom(infos, accounts, 0)) ==>
              r.Err? && r.error in {InvalidParams, InvalidSource, IndexOutOfRange}
  {
    hide ExchangeRateForHop, Boundaries, MatchedFrom, AcceptedFrom, LoadFrom;
    var rate: WideWords.Double := RATE_ONE;
    AcceptedLoads(infos, accounts);
    var loaded := LoadSourcesFromRemainingAccounts(infos, accounts);
    if loaded.Err? {
      return Err(loaded.error);
    }
    var groups := loaded.value;
    ghost var starts := Boundaries(infos, 0);
    LoadedCutsAreBoundaries(infos, accounts, 0);
    BoundariesInRange(infos, 0);
    for n := 0 to |groups|
      invariant Fold(infos, starts, readings, n) == Ok(rate)
    {
      assert groups[n].index == starts[n];
      var hop := GetExchangeRateForHop(readings[n], infos[groups[n].index], rate);
      if hop.Err? || hop.value == 0 {
        r := if hop.Err? then hop else Err(RateZero);
        FoldStops(infos, starts, readings, n + 1, |groups|);
        return r;
      }
      rate := hop.value;
    }
    return Ok(rate);
  }

  // ---------------------------------------------------------------- what a hop means

  lemma {:induction false} TenToAdd(m: nat, n: nat)
    ensures TenTo(m + n) == TenTo(m) * TenTo(n)
  {
    if m > 0 {
      TenToAdd(m - 1, n);
    }
  }

  lemma TenToFifteen()
    ensures TenTo(15) == RATE_ONE && TenTo(30) == RATE_ONE_SQUARED
  {
    assert TenTo(5) == 100_000;
    TenToAdd(5, 5);
    TenToAdd(10, 5);
    TenToAdd(15, 15);
  }

  /** Multiplier and divisor move a price of any number of decimals to fifteen, rounding down once. */
  lemma PriceAtFifteenDecimals(price: nat, exponent: nat)
    requires GetMultiplierAndDivisor(exponent).Ok?
    ensures var (multiplier, divisor) := GetMultiplierAndDivisor(exponent).value;
            && divisor > 0
            && price * multiplier / divisor == price * RATE_ONE / TenTo(exponent)
  {
    hide TenTo;
    TenToFifteen();
    if exponent > RATE_OUTPUT_DECIMALS {
      var rest := exponent - RATE_OUTPUT_DECIMALS;
      TenToAdd(rest, RATE_OUTPUT_DECIMALS);
      DivCancel(price, TenTo(rest), RATE_ONE);
    } else {
      var rest := RATE_OUTPUT_DECIMALS - exponent;
      TenToAdd(rest, exponent);
      DivCancel(price * TenTo(rest), 1, TenTo(exponent));
      MulAssociate(price, TenTo(rest), TenTo(exponent));
    }
  }

  /** An inverted hop is the largest whose product with the rate stays within ten to the thirtieth; one of rate zero is
      left alone. */
  lemma InvertedHop(reading: Result<Price, OracleError>, info: Sources)
    requires info.invert && HopFactor(reading, info).Ok?
    ensures var inverse := HopFactor(reading, info).value;
            var plain := HopFactor(reading, info.(invert := false));
            && plain.Ok?
            && (plain.value == 0 ==> inverse == 0)
            && (plain.value > 0 ==> plain.value * inverse <= RATE_ONE_SQUARED < plain.value * (inverse + 1))
  {
    hide PriceParts;
    var plain := HopFactor(reading, info.(invert := false)).value;
    if plain > 0 {
      var q := FloorDiv(RATE_ONE_SQUARED, plain);
      assert plain * q == q * plain && plain * (q + 1) == (q + 1) * plain;
    }
  }

  /** A price at fifteen decimals, rounded down. */
  function AtFifteen(p: Price): nat {
    match p.exponent
    case None => p.price
    case Some(exponent) => FloorDiv(p.price * RATE_ONE, TenTo(exponent))
  }

  /** Prices that can be brought to fifteen decimals in 128 bits. */
  predicate Fits(p: Price) {
    match p.exponent
    case None => p.price <= U128_MAX
    case Some(exponent) =>
      exponent <= 53 && p.price * (if exponent <= RATE_OUTPUT_DECIMALS then TenTo(RATE_OUTPUT_DECIMALS - exponent) else 1) <= U128_MAX
  }

  /** `factor` is the price at fifteen decimals or, for a source that inverts, the largest number whose product with it
      stays within ten to the thirtieth. */
  predicate HopOf(p: Price, invert: bool, factor: nat) {
    if !invert || AtFifteen(p) == 0 then factor == AtFifteen(p)
    else AtFifteen(p) * factor <= RATE_ONE_SQUARED < AtFifteen(p) * (factor + 1)
  }

  /** When a source has a rate of its own, and which. */
  lemma HopFactorIs(reading: Result<Price, OracleError>, info: Sources)
    ensures HopFactor(reading, info).Ok? <==> reading.Ok? && Fits(reading.value)
    ensures HopFactor(reading, info).Ok? ==> HopOf(reading.value, info.invert, HopFactor(reading, info).value)
  {
    hide TenTo, AtFifteen;
    if reading.Ok? && PriceParts(reading.value).Ok? {
      PartsAtFifteen(reading.value);
      var (rate, multiplier, divisor) := PriceParts(reading.value).value;
      InvertIs(info.invert, FloorDiv(rate * multiplier, divisor));
    }
  }

  lemma PartsAtFifteen(p: Price)
    requires PriceParts(p).Ok?
    ensures var (rate, multiplier, divisor) := PriceParts(p).value; FloorDiv(rate * multiplier, divisor) == AtFifteen(p)
  {
    hide TenTo;
    if p.exponent.Some? {
      PriceAtFifteenDecimals(p.price, p.exponent.value);
    }
  }

  lemma InvertIs(invert: bool, rate: nat)
    ensures var factor := InvertIf(invert, rate);
            if !invert || rate == 0 then factor == rate
            else rate * factor <= RATE_ONE_SQUARED < rate * (factor + 1)
  {
    if invert && rate > 0 {
      var q := FloorDiv(RATE_ONE_SQUARED, rate);
      assert rate * q == q * rate && rate * (q + 1) == (q + 1) * rate;
    }
  }

  lemma HopIsUnique(p: Price, invert: bool, factor: nat, other: nat)
    requires HopOf(p, invert, factor) && HopOf(p, invert, other)
    ensures factor == other
  {
    hide AtFifteen;
    var rate := AtFifteen(p);
    if invert && rate > 0 {
      assert rate * factor == factor * rate && rate * (factor + 1) == (factor + 1) * rate;
      assert rate * other == other * rate && rate * (other + 1) == (other + 1) * rate;
      MulCancelLess(factor, other + 1, rate);
      MulCancelLess(other, factor + 1, rate);
    }
  }

  /** One hop from the price and its decimals: when it succeeds, and the rate it makes of the one so far. */
  lemma HopRateIs(reading: Result<Price, OracleError>, info: Sources, current: nat, factor: nat)
    requires reading.Ok? ==> HopOf(reading.value, info.invert, factor)
    ensures var r := ExchangeRateForHop(reading, info, current);
            && (r.Ok? <==> reading.Ok? && Fits(reading.value) && factor * current < (U128_MAX + 1) * RATE_ONE)
            && (r.Ok? ==> r.value * RATE_ONE <= factor * current < (r.value + 1) * RATE_ONE)
            && (reading.Err? ==> r == Err(reading.error))
  {
    hide HopOf, Fits, HopFactor;
    HopFactorIs(reading, info);
    if HopFactor(reading, info).Ok? {
      HopIsUnique(reading.value, info.invert, factor, HopFactor(reading, info).value);
    } else if reading.Err? {
      ReadingFails(reading, info);
    }
  }

  lemma ReadingFails(reading: Result<Price, OracleError>, info: Sources)
    requires reading.Err?
    ensures HopFactor(reading, info) == Err(reading.error)
  {
  }

  // ---------------------------------------------------------------- the whole rate

  /** The factor of each hop. */
  predicate FactorsOf(infos: seq<Sources>, starts: seq<nat>, readings: Readings, factors: seq<nat>)
    requires |readings| == |starts| && InRange(infos, starts)
  {
    && |factors| == |starts|
    && forall g :: 0 <= g < |starts| ==> HopFactor(readings[g], infos[starts[g]]) == Ok(factors[g])
  }

  function Hop(factor: nat): real {
    factor as real / RATE_ONE as real
  }

  function Hops(factors: seq<nat>): (hops: seq<real>)
    ensures |hops| == |factors| && forall k :: 0 <= k < |hops| ==> hops[k] == Hop(factors[k])
  {
    seq(|factors|, k requires 0 <= k < |factors| => Hop(factors[k]))
  }

  /** The product of the first `n` hops, unrounded. */
  ghost function ExactRate(factors: seq<nat>, n: nat): real
    requires n <= |factors|
  {
    Exact(RATE_ONE as real, Hops(factors)[..n])
  }

  lemma ExactRateStart(factors: seq<nat>)
    ensures ExactRate(factors, 0) == RATE_ONE as real
  {
  }

  lemma ExactRateStep(factors: seq<nat>, n: nat)
    requires 0 < n <= |factors|
    ensures ExactRate(factors, n) == Hop(factors[n - 1]) * ExactRate(factors, n - 1)
  {
    assert Hops(factors)[..n][..n - 1] == Hops(factors)[..n - 1];
  }

  /** What the roundings may have cost: one unit a hop, carried through the hops after it. */
  function Loss(factors: seq<nat>, n: nat): real
    requires n <= |factors|
    decreases n
  {
    if n == 0 then 0.0 else Hop(factors[n - 1]) * Loss(factors, n - 1) + 1.0
  }

  /** One multiply-down loses less than one unit of the output. */
  lemma HopLoss(factor: nat, current: nat)
    ensures var out := factor * current / RATE_ONE;
            out as real <= Hop(factor) * current as real < out as real + 1.0
  {
    FloorReal(factor * current, RATE_ONE);
    CastProduct(factor, current);
    assert Hop(factor) * current as real == (factor * current) as real / RATE_ONE as real;
  }

  /** The rate is the product of the hops, short by no more than the roundings account for and never above it. */
  lemma {:induction false} FoldAccuracy(infos: seq<Sources>, starts: seq<nat>, readings: Readings, factors: seq<nat>,
                                        n: nat)
    requires |readings| == |starts| && n <= |starts| && InRange(infos, starts)
    requires FactorsOf(infos, starts, readings, factors) && Fold(infos, starts, readings, n).Ok?
    ensures var rate := Fold(infos, starts, readings, n).value as real;
            ExactRate(factors, n) - Loss(factors, n) <= rate <= ExactRate(factors, n)
    decreases n
  {
    hide HopFactor, Hop, ExactRate, Hops, Exact;
    ExactRateStart(factors);
    if n > 0 {
      FoldAccuracy(infos, starts, readings, factors, n - 1);
      ExactRateStep(factors, n);
      var sofar, factor := Fold(infos, starts, readings, n - 1).value, factors[n - 1];
      HopLoss(factor, sofar);
      HopPositive(factor);
      Scale(Hop(factor), ExactRate(factors, n - 1), Loss(factors, n - 1), sofar as real);
    }
  }

  lemma HopPositive(factor: nat)
    ensures Hop(factor) >= 0.0
  {
  }

  lemma Scale(h: real, exact: real, loss: real, current: real)
    requires h >= 0.0 && exact - loss <= current <= exact
    ensures h * exact - h * loss <= h * current <= h * exact
  {
    MulMonotone(exact - loss, current, h);
    MulMonotone(current, exact, h);
  }

  /** The rate of an accepted list lies within the roundings of the exact product of its groups' hops, one for each group
      it was accepted with. */
  lemma AcceptedListRates(infos: seq<Sources>, accounts: seq<Pubkey>, readings: Readings, factors: seq<nat>)
    requires AcceptedFrom(infos, 0) && AccountsMatch(infos, accounts) && |readings| == |Boundaries(infos, 0)|
    requires InRange(infos, Boundaries(infos, 0)) && FactorsOf(infos, Boundaries(infos, 0), readings, factors)
    requires RateOf(infos, readings).Ok?
    ensures MatchedFrom(infos, accounts, 0) && Starts(LoadFrom(infos, accounts, 0)) == Boundaries(infos, 0)
    ensures var n := |Boundaries(infos, 0)|;
            var rate := RateOf(infos, readings).value as real;
            ExactRate(factors, n) - Loss(factors, n) <= rate <= ExactRate(factors, n)
  {
    hide Fold, FactorsOf, ExactRate, Loss;
    LoaderAgrees(infos, accounts, 0);
    FoldAccuracy(infos, Boundaries(infos, 0), readings, factors, |readings|);
  }

  /** The hops of an accepted list, from the prices its readers give and their decimals. */
  ghost predicate HopsOf(infos: seq<Sources>, starts: seq<nat>, readings: Readings, factors: seq<nat>)
    requires |readings| == |starts| && InRange(infos, starts)
  {
    && |factors| == |starts|
    && forall g :: 0 <= g < |starts| ==> readings[g].Ok? && HopOf(readings[g].value, infos[starts[g]].invert, factors[g])
  }

  /** So the rate comes from the prices themselves: their hops, which the prices determine, exist at every group, and the rate
      lies within the roundings of their exact product. */
  lemma RateFromPrices(infos: seq<Sources>, accounts: seq<Pubkey>, readings: Readings) returns (factors: seq<nat>)
    requires AcceptedFrom(infos, 0) && AccountsMatch(infos, accounts) && |readings| == |Boundaries(infos, 0)|
    requires RateOf(infos, readings).Ok?
    ensures InRange(infos, Boundaries(infos, 0)) && HopsOf(infos, Boundaries(infos, 0), readings, factors)
    ensures var n := |Boundaries(infos, 0)|;
            var rate := RateOf(infos, readings).value as real;
            ExactRate(factors, n) - Loss(factors, n) <= rate <= ExactRate(factors, n)
  {
    hide HopOf, HopFactor, ExactRate, Loss, Fold;
    var starts := Boundaries(infos, 0);
    BoundariesInRange(infos, 0);
    forall g | 0 <= g < |starts|
      ensures HopFactor(readings[g], infos[starts[g]]).Ok?
      ensures readings[g].Ok? && HopOf(readings[g].value, infos[starts[g]].invert, HopFactor(readings[g], infos[starts[g]]).value)
    {
      FoldNeeds(infos, starts, readings, |readings|, g);
      HopFactorIs(readings[g], infos[starts[g]]);
    }
    factors := seq(|starts|, g requires 0 <= g < |starts| => HopFactor(readings[g], infos[starts[g]]).value);
    AcceptedListRates(infos, accounts, readings, factors);
  }

  /** A rate that comes out has a factor at every hop. */
  lemma {:induction false} FoldNeeds(infos: seq<Sources>, starts: seq<nat>, readings: Readings, n: nat, g: nat)
    requires |readings| == |starts| && g < n <= |starts| && InRange(infos, starts) && Fold(infos, starts, readings, n).Ok?
    ensures HopFactor(readings[g], infos[starts[g]]).Ok?
    decreases n
  {
    hide HopFactor;
    if g < n - 1 {
      FoldNeeds(infos, starts, readings, n - 1, g);
    }
  }
}
