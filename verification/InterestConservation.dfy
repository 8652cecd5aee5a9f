/** For which totals of supply and borrowing an accrual never credits suppliers with more than borrowers are charged: in
    every sound market, at every price, rate, fee and time, or not in all of them. */
module InterestConservation {
  import opened Common
  import opened ExchangePrices

  ghost predicate OverCredits(r: TokenReserve, now: nat) {
    && PricedAt(r, now).Ok?
    && Credited(r, PricedAt(r, now).value) > Charged(r, PricedAt(r, now).value)
  }

  ghost predicate Conserves(r: TokenReserve) {
    forall now: nat :: now >= r.lastUpdateTimestamp ==> !OverCredits(r, now)
  }

  lemma ConservesAtOne(r: TokenReserve)
    requires Sound(r) && r.supplyInterestFree <= r.supplyInterest
    requires YieldWithin(RatioSupplyYield(GetExchangePricesAndConfig(r)), SupplyWithInterest(r), BorrowWithInterest(r), 1, 1)
    ensures Conserves(r)
  {
    hide Sound, RatioSupplyYield, YieldWithin, PricedAt, Credited, Charged;
    assert r.supplyExchangePrice > 0 && r.borrowExchangePrice > 0 && r.fee <= FOUR_DECIMALS by {
      SoundPrices(r);
    }
    forall now: nat | now >= r.lastUpdateTimestamp
      ensures !OverCredits(r, now)
    {
      AccrualWithin(r, now, 1, 1);
    }
  }

  lemma SoundPrices(r: TokenReserve)
    requires Sound(r)
    ensures r.supplyExchangePrice > 0 && r.borrowExchangePrice >= PRICES_PRECISION && r.fee <= FOUR_DECIMALS
  {
  }

  /** An accrual that leaves the supply price alone. */
  lemma ConservesUncredited(r: TokenReserve)
    requires Sound(r) && Uncredited(r)
    ensures Conserves(r)
  {
    hide Sound, Uncredited, PricedAt, Credited, Charged;
    SoundPrices(r);
    forall now: nat | now >= r.lastUpdateTimestamp
      ensures !OverCredits(r, now)
    {
      UncreditedAt(r, now);
    }
  }

  predicate Uncredited(r: TokenReserve) {
    var c := GetExchangePricesAndConfig(r);
    c.borrowRatio == 1 || (c.supplyRatioInverse && c.supplyRatio == 0)
  }

  lemma UncreditedAt(r: TokenReserve, now: nat)
    requires r.supplyExchangePrice > 0 && r.borrowExchangePrice > 0 && Uncredited(r) && now >= r.lastUpdateTimestamp
    ensures !OverCredits(r, now)
  {
    hide BorrowIncrease, SupplyIncrease, GetRatio, Credited, Charged;
    var elapsed: nat := now - r.lastUpdateTimestamp;
    var gb := BorrowIncrease(GetExchangePricesAndConfig(r), elapsed);
    GainNonNegative(r, elapsed, gb);
    CreditedIs(r, 0, gb, now);
    CreditedIs(r, 0, 0, now);
    MulBoth(0, gb, r.borrowInterest);
  }

  lemma GainNonNegative(r: TokenReserve, elapsed: nat, gb: int)
    requires gb == BorrowIncrease(GetExchangePricesAndConfig(r), elapsed)
    ensures gb >= 0
  {
    BorrowIncreaseBound(r.borrowExchangePrice, r.borrowRate, elapsed, gb);
  }

  // ---------------------------------------------------------------- the totals of borrowing

  /** Borrowing of which four decimals do not overstate the paying part: all with interest, mostly free of it, or of a
      ratio they hold without loss. */
  predicate RatioHolds(raw: nat, free: nat) {
    free == 0 || raw < free || free * FOUR_DECIMALS % raw == 0
  }

  /** The same, or the one ratio at which the resolver credits nothing. */
  predicate BorrowStated(raw: nat, free: nat) {
    RatioHolds(raw, free) || GetRatio(raw, free) == 1
  }

  ghost predicate InterestSupplyMarket(r: TokenReserve, raw: nat, free: nat) {
    && Sound(r) && InterestSupply(r) && r.lastStoredUtilization <= U16_MAX
    && r.borrowInterest == raw && r.borrowInterestFree == free
  }

  /** What the rounded parts make of the utilization, exactly: the yield times the whole of borrowing is within it. */
  lemma YieldTimesWhole(u: nat, ratio: nat, part: nat, earned: nat)
    requires u <= U16_MAX && ratio <= FOUR_DECIMALS && part <= RATE_PRECISION
    requires part * (FOUR_DECIMALS + ratio) <= RATE_PRECISION * FOUR_DECIMALS + 2 * FOUR_DECIMALS
    requires earned == YieldOf(u * 100_000_000_000_000, part)
    ensures earned == u * part / RATE_PRECISION && earned * (FOUR_DECIMALS + ratio) <= FOUR_DECIMALS * u
  {
    var whole := FOUR_DECIMALS + ratio;
    YieldInOne(u, part);
    var y := FloorDiv(u * part, RATE_PRECISION);
    MulAtMost(y * RATE_PRECISION, u * part, whole);
    MulBoth(part * whole, RATE_PRECISION * FOUR_DECIMALS + 2 * FOUR_DECIMALS, u);
    MulAssociate(u, part, whole);
    assert y * RATE_PRECISION * whole == (y * whole) * RATE_PRECISION;
    WithinOne(y * whole, u);
  }

  lemma WithinOne(x: nat, u: nat)
    requires u <= U16_MAX
    requires x * RATE_PRECISION <= u * (RATE_PRECISION * FOUR_DECIMALS + 2 * FOUR_DECIMALS)
    ensures x <= FOUR_DECIMALS * u
  {
  }

  lemma YieldInOne(u: nat, part: nat)
    ensures YieldOf(u * 100_000_000_000_000, part) == u * part / RATE_PRECISION
  {
    var w := u * part;
    assert u * 100_000_000_000_000 * part * FOUR_DECIMALS == w * RATE_PRECISION;
    DivUnique(w * RATE_PRECISION, RATE_PRECISION, w);
  }

  /** The parts of a market with interest supply and mostly interest-bearing borrowing. */
  lemma PartsOf(r: TokenReserve, ratio: nat, part: nat, earned: nat)
    requires InterestSupply(r) && r.lastStoredUtilization <= U16_MAX && 0 < r.borrowInterestFree <= r.borrowInterest
    requires ratio == GetRatio(r.borrowInterest, r.borrowInterestFree)
    requires part == PayingPart(GetExchangePricesAndConfig(r)) && earned == RatioSupplyYield(GetExchangePricesAndConfig(r))
    ensures ratio <= FOUR_DECIMALS && earned == r.lastStoredUtilization * part / RATE_PRECISION
    ensures earned * (FOUR_DECIMALS + ratio) <= FOUR_DECIMALS * r.lastStoredUtilization
    ensures RATE_PRECISION * FOUR_DECIMALS <= part * (FOUR_DECIMALS + ratio)
  {
    hide GetRatio, YieldOf;
    var u, whole := r.lastStoredUtilization, FOUR_DECIMALS + ratio;
    var floor := FloorDiv(ratio * RATE_PRECISION, whole);
    PartTimesWhole(ratio, floor, part);
    assert part * whole == RATE_PRECISION * whole - floor * whole;
    LenderOfInterest(u);
    YieldTimesWhole(u, ratio, part, earned);
  }

  lemma LenderOfInterest(u: nat)
    ensures u * RATE_PRECISION * FOUR_DECIMALS / BPS_SQUARED == u * 100_000_000_000_000
  {
  }

  /** With a ratio of four decimals or fewer, what suppliers earn stays within what borrowers owe. */
  lemma ExactRatioYield(r: TokenReserve)
    requires InterestSupplyMarket(r, r.borrowInterest, r.borrowInterestFree) && 0 < r.borrowInterestFree <= r.borrowInterest
    requires r.borrowInterestFree * FOUR_DECIMALS % r.borrowInterest == 0
    ensures YieldWithin(RatioSupplyYield(GetExchangePricesAndConfig(r)), SupplyWithInterest(r), BorrowWithInterest(r), 1, 1)
  {
    var raw, free, price := r.borrowInterest, r.borrowInterestFree, r.borrowExchangePrice;
    var ratio := GetRatio(raw, free);
    var c := GetExchangePricesAndConfig(r);
    RatioExact(raw, free);
    var si, s, bi, b := SupplyWithInterest(r), TotalSupply(r), BorrowWithInterest(r), TotalBorrow(r);
    hide GetRatio, PayingPart, RatioSupplyYield, TotalBorrow, TotalSupply;
    var earned := RatioSupplyYield(c);
    PartsOf(r, ratio, PayingPart(c), earned);
    assert si <= s && b == bi + free * PRICES_PRECISION by {
      TotalsAre(r);
    }
    WholeOfBorrow(ratio, raw, free, price, bi, b);
    YieldByWhole(earned, FOUR_DECIMALS + ratio, r.lastStoredUtilization, si, s, bi, b);
  }

  lemma TotalsAre(r: TokenReserve)
    ensures SupplyWithInterest(r) <= TotalSupply(r)
    ensures TotalBorrow(r) == BorrowWithInterest(r) + r.borrowInterestFree * PRICES_PRECISION
  {
  }

  lemma RatioExact(raw: nat, free: nat)
    requires 0 < free <= raw && free * FOUR_DECIMALS % raw == 0
    ensures GetRatio(raw, free) * raw == free * FOUR_DECIMALS
  {
    hide GetRatio;
    RatioIs(raw, free);
    Remainder(free * FOUR_DECIMALS, raw);
  }

  lemma RatioIs(raw: nat, free: nat)
    requires 0 < free <= raw
    ensures GetRatio(raw, free) == free * FOUR_DECIMALS / raw
  {
    if raw == free {
      DivUnique(raw * FOUR_DECIMALS, raw, FOUR_DECIMALS);
    }
  }

  lemma Remainder(a: nat, d: nat)
    requires d > 0
    ensures a == a / d * d + a % d && 0 <= a % d < d
  {
  }

  lemma WholeOfBorrow(ratio: nat, raw: nat, free: nat, price: nat, bi: nat, b: nat)
    requires ratio * raw == free * FOUR_DECIMALS && price >= PRICES_PRECISION
    requires bi == raw * price && b == bi + free * PRICES_PRECISION
    ensures FOUR_DECIMALS * b <= (FOUR_DECIMALS + ratio) * bi
  {
    MulBoth(PRICES_PRECISION, price, free);
    assert ratio * bi == (ratio * raw) * price == FOUR_DECIMALS * (free * price);
    assert (FOUR_DECIMALS + ratio) * bi == FOUR_DECIMALS * bi + ratio * bi;
  }

  lemma YieldByWhole(earned: nat, whole: nat, u: nat, si: nat, s: nat, bi: nat, b: nat)
    requires whole > 0 && earned * whole <= FOUR_DECIMALS * u && si <= s && u * s <= FOUR_DECIMALS * b
    requires FOUR_DECIMALS * b <= whole * bi
    ensures YieldWithin(earned, si, bi, 1, 1)
  {
    calc {
      (earned * si) * whole;
      == (earned * whole) * si;
      <= { MulAtMost(earned * whole, FOUR_DECIMALS * u, si); }
      FOUR_DECIMALS * u * si;
      <= { MulBoth(si, s, FOUR_DECIMALS * u); }
      FOUR_DECIMALS * u * s;
      == { MulAssociate(FOUR_DECIMALS, u, s); }
      FOUR_DECIMALS * (u * s);
      <= FOUR_DECIMALS * (whole * bi);
      == { MulAssociate(FOUR_DECIMALS, whole, bi); }
      (FOUR_DECIMALS * bi) * whole;
    }
    CancelFactor(earned * si, FOUR_DECIMALS * bi, whole);
  }

  lemma BorrowStatedConserves(r: TokenReserve, raw: nat, free: nat)
    requires InterestSupplyMarket(r, raw, free) && BorrowStated(raw, free)
    ensures Conserves(r)
  {
    if free == 0 || raw < free {
      hide Sound, GetRatio, RatioSupplyYield;
      AccrualYield(r, RatioSupplyYield(GetExchangePricesAndConfig(r)));
      ConservesAtOne(r);
    } else if free * FOUR_DECIMALS % raw == 0 {
      hide Sound, GetRatio, RatioSupplyYield;
      ExactRatioYield(r);
      ConservesAtOne(r);
    } else {
      hide Sound, GetRatio;
      ConservesUncredited(r);
    }
  }

  /** A market of one unit of supply over any other borrowing, in which the utilization makes up for the ratio's lost
      digits. */
  function LostDigits(raw: nat, free: nat): TokenReserve
    requires 0 < free <= raw
  {
    var whole := FOUR_DECIMALS + GetRatio(raw, free);
    TokenReserve(1, 0, raw, free, FloorDiv(FOUR_DECIMALS * PRICES_PRECISION * (raw + free), whole), PRICES_PRECISION,
                 FOUR_DECIMALS, 0, whole, 0)
  }

  lemma LostDigitsMarket(raw: nat, free: nat)
    requires 0 < free <= raw
    ensures InterestSupplyMarket(LostDigits(raw, free), raw, free)
  {
    var whole := FOUR_DECIMALS + GetRatio(raw, free);
    hide GetRatio;
    NoRatio(1);
    var top := FOUR_DECIMALS * PRICES_PRECISION * (raw + free);
    FloorBounds(top, whole);
    var price := top / whole;
    assert whole * price == price * whole && (price + 1) * whole == price * whole + whole;
    MulCancelLess(1, price + 1, whole);
  }

  /** There the yield is the whole utilization, and a year at 100% credits more than it charges. */
  lemma LostDigitsOverCredit(raw: nat, free: nat)
    requires !BorrowStated(raw, free)
    ensures OverCredits(LostDigits(raw, free), SECONDS_PER_YEAR)
  {
    var r := LostDigits(raw, free);
    var c := GetExchangePricesAndConfig(r);
    var ratio := GetRatio(raw, free);
    LostDigitsMarket(raw, free);
    RatioCut(raw, free);
    hide GetRatio, PayingPart, RatioSupplyYield;
    NoRatio(1);
    PartsOf(r, ratio, PayingPart(c), RatioSupplyYield(c));
    WholeYield(FOUR_DECIMALS + ratio, PayingPart(c), RatioSupplyYield(c));
    YearAtFull(r.supplyExchangePrice);
    PriceAbove(raw, free, ratio, r.supplyExchangePrice);
  }

  lemma RatioCut(raw: nat, free: nat)
    requires 0 < free <= raw && free * FOUR_DECIMALS % raw != 0
    ensures GetRatio(raw, free) * raw < free * FOUR_DECIMALS
  {
    hide GetRatio;
    RatioIs(raw, free);
    Remainder(free * FOUR_DECIMALS, raw);
  }

  lemma WholeYield(whole: nat, part: nat, earned: nat)
    requires whole > 0 && earned == whole * part / RATE_PRECISION
    requires earned * whole <= FOUR_DECIMALS * whole && RATE_PRECISION * FOUR_DECIMALS <= part * whole
    ensures earned == FOUR_DECIMALS
  {
    CancelFactor(earned, FOUR_DECIMALS, whole);
    assert whole * part == part * whole;
    DivMonotone(FOUR_DECIMALS * RATE_PRECISION, part * whole, RATE_PRECISION);
  }

  /** A year at a rate of 100%, a yield of 100% and no fee doubles both prices. */
  lemma YearAtFull(price: nat)
    ensures DivUp(PRICES_PRECISION * FOUR_DECIMALS * SECONDS_PER_YEAR, YEAR_BPS) == PRICES_PRECISION
    ensures TruncDiv(TruncDiv(price * (FOUR_DECIMALS * FOUR_DECIMALS * FOUR_DECIMALS) * SECONDS_PER_YEAR, YEAR_BPS),
                     BPS_SQUARED) == price
  {
  }

  lemma PriceAbove(raw: nat, free: nat, ratio: nat, price: nat)
    requires ratio <= FOUR_DECIMALS && ratio * raw < free * FOUR_DECIMALS
    requires price == FloorDiv(FOUR_DECIMALS * PRICES_PRECISION * (raw + free), FOUR_DECIMALS + ratio)
    ensures price > raw * PRICES_PRECISION
  {
    var whole := FOUR_DECIMALS + ratio;
    assert whole * raw == FOUR_DECIMALS * raw + ratio * raw;
    assert FOUR_DECIMALS * PRICES_PRECISION * (raw + free) >= PRICES_PRECISION * (whole * raw + 1);
    assert PRICES_PRECISION * (whole * raw) == (raw * PRICES_PRECISION) * whole;
    assert (price + 1) * whole > (raw * PRICES_PRECISION + 1) * whole;
    MulCancelLess(raw * PRICES_PRECISION + 1, price + 1, whole);
  }

  /** With supply that all bears interest, or all but dust: interest is conserved in every market of these totals of
      borrowing if and only if the source states them without loss. */
  lemma BorrowTotalsExact(raw: nat, free: nat)
    ensures (forall r :: InterestSupplyMarket(r, raw, free) ==> Conserves(r)) <==> BorrowStated(raw, free)
  {
    hide InterestSupplyMarket, Conserves, BorrowStated;
    if BorrowStated(raw, free) {
      forall r | InterestSupplyMarket(r, raw, free)
        ensures Conserves(r)
      {
        BorrowStatedConserves(r, raw, free);
      }
    } else {
      NotStated(raw, free);
      LostDigitsMarket(raw, free);
      LostDigitsOverCredit(raw, free);
      NotConserved(LostDigits(raw, free), SECONDS_PER_YEAR);
    }
  }

  lemma NotStated(raw: nat, free: nat)
    requires !BorrowStated(raw, free)
    ensures 0 < free <= raw
  {
  }

  lemma NotConserved(r: TokenReserve, now: nat)
    requires OverCredits(r, now) && now >= r.lastUpdateTimestamp
    ensures !Conserves(r)
  {
  }

  // ---------------------------------------------------------------- the totals of supply

  ghost predicate InterestBorrowMarket(r: TokenReserve, raw: nat, free: nat) {
    && Sound(r) && r.lastStoredUtilization <= U16_MAX && r.borrowInterestFree == 0
    && r.supplyInterest == raw && r.supplyInterestFree == free
  }

  lemma NoRatioConserves(r: TokenReserve, raw: nat, free: nat)
    requires InterestBorrowMarket(r, raw, free) && GetRatio(raw, free) == 0
    ensures Conserves(r)
  {
    hide GetRatio, RatioSupplyYield;
    if free <= raw {
      AccrualYield(r, RatioSupplyYield(GetExchangePricesAndConfig(r)));
      ConservesAtOne(r);
    } else {
      ConservesUncredited(r);
    }
  }

  /** A market lent out in full, at a supply price that makes its free supply small. */
  function FreeSupply(raw: nat, free: nat): TokenReserve {
    var price := FOUR_DECIMALS * (free * PRICES_PRECISION + 1);
    TokenReserve(raw, free, 1, 0, price, raw * price + free * PRICES_PRECISION, FOUR_DECIMALS, 0, FOUR_DECIMALS, 0)
  }

  lemma RatioOfBoth(raw: nat, free: nat)
    requires GetRatio(raw, free) > 0
    ensures raw > 0 && free > 0
  {
    MulAtMost(1, GetRatio(raw, free), Max(raw, free));
    assert Max(raw, free) <= FOUR_DECIMALS * Min(raw, free);
  }

  lemma FreeSupplyMarket(raw: nat, free: nat)
    requires GetRatio(raw, free) > 0
    ensures InterestBorrowMarket(FreeSupply(raw, free), raw, free)
  {
    RatioOfBoth(raw, free);
    MulAtMost(1, raw, FOUR_DECIMALS * (free * PRICES_PRECISION + 1));
  }

  /** Whatever the ratio, the yield is above the utilization. */
  lemma FreeSupplyYield(raw: nat, free: nat)
    requires GetRatio(raw, free) > 0
    ensures RatioSupplyYield(GetExchangePricesAndConfig(FreeSupply(raw, free))) > FOUR_DECIMALS
  {
    var c := GetExchangePricesAndConfig(FreeSupply(raw, free));
    hide GetRatio, YieldOf;
    NoRatio(1);
    assert PayingPart(c) == RATE_PRECISION;
    if raw < free {
      InverseLender(c.supplyRatio);
    } else {
      DirectLender(c.supplyRatio);
    }
  }

  lemma DirectLender(ratio: nat)
    requires ratio > 0
    ensures YieldOf(FOUR_DECIMALS * RATE_PRECISION * (FOUR_DECIMALS + ratio) / BPS_SQUARED, RATE_PRECISION) > FOUR_DECIMALS
  {
    assert FOUR_DECIMALS * RATE_PRECISION * (FOUR_DECIMALS + ratio) / BPS_SQUARED
        == 100_000_000_000_000 * (FOUR_DECIMALS + ratio);
  }

  lemma InverseLender(ratio: nat)
    requires 0 < ratio <= FOUR_DECIMALS
    ensures var lender := FOUR_DECIMALS * (RATE_PRECISION + RATE_PRECISION * FOUR_DECIMALS / ratio) / FOUR_DECIMALS;
            lender >= 0 && YieldOf(lender, RATE_PRECISION) > FOUR_DECIMALS
  {
    DivAntitone(RATE_PRECISION * FOUR_DECIMALS, ratio, FOUR_DECIMALS);
    var inverse := RATE_PRECISION * FOUR_DECIMALS / ratio;
    assert inverse >= RATE_PRECISION;
    EarnedAtLeast(RATE_PRECISION + inverse);
  }

  lemma EarnedAtLeast(lender: nat)
    requires lender >= 2 * RATE_PRECISION
    ensures YieldOf(lender, RATE_PRECISION) > FOUR_DECIMALS
  {
  }

  /** A year at 100% on a price of whole basis points. */
  lemma YearOnBasisPoints(w: nat, earned: nat, price: nat)
    ensures TruncDiv(TruncDiv(FOUR_DECIMALS * w * (FOUR_DECIMALS * earned * FOUR_DECIMALS) * SECONDS_PER_YEAR, YEAR_BPS),
                     BPS_SQUARED) == w * earned
    ensures DivUp(price * FOUR_DECIMALS * SECONDS_PER_YEAR, YEAR_BPS) == price
  {
    var x := w * earned;
    assert FOUR_DECIMALS * w * (FOUR_DECIMALS * earned * FOUR_DECIMALS) == FOUR_DECIMALS * FOUR_DECIMALS * FOUR_DECIMALS * x;
  }

  lemma FreeSupplyOverCredit(raw: nat, free: nat)
    requires GetRatio(raw, free) > 0
    ensures OverCredits(FreeSupply(raw, free), SECONDS_PER_YEAR)
  {
    var r := FreeSupply(raw, free);
    var c := GetExchangePricesAndConfig(r);
    var earned, w := RatioSupplyYield(c), free * PRICES_PRECISION + 1;
    RatioOfBoth(raw, free);
    FreeSupplyMarket(raw, free);
    FreeSupplyYield(raw, free);
    hide GetRatio, RatioSupplyYield, FreeSupply;
    NoRatio(1);
    YearOnBasisPoints(w, earned, r.borrowExchangePrice);
    CreditAbove(raw, w, earned);
    hide Credited, Charged, DivUp, TruncDiv;
    var n := PricedAt(r, SECONDS_PER_YEAR).value;
    FreeSupplyPrices(raw, free);
    CreditedIs(r, w * earned, r.borrowExchangePrice, SECONDS_PER_YEAR);
  }

  lemma FreeSupplyPrices(raw: nat, free: nat)
    ensures var r := FreeSupply(raw, free);
            && r.supplyExchangePrice == FOUR_DECIMALS * (free * PRICES_PRECISION + 1) && r.supplyInterest == raw
            && r.borrowExchangePrice == raw * r.supplyExchangePrice + free * PRICES_PRECISION && r.borrowInterest == 1
            && r.borrowRate == FOUR_DECIMALS && r.fee == 0 && r.lastUpdateTimestamp == 0
  {
  }

  lemma CreditAbove(raw: nat, w: nat, earned: nat)
    requires raw > 0 && w > 0 && earned > FOUR_DECIMALS
    ensures raw * (w * earned) > raw * (FOUR_DECIMALS * w) + w - 1
  {
    var more := earned - FOUR_DECIMALS;
    assert w * earned == FOUR_DECIMALS * w + w * more;
    MulAtMost(1, more, w);
    MulBoth(FOUR_DECIMALS * w + w, w * earned, raw);
    MulAtMost(1, raw, w);
    assert raw * (FOUR_DECIMALS * w + w) == raw * (FOUR_DECIMALS * w) + raw * w;
  }

  /** With borrowing that all bears interest: interest is conserved in every market of these totals of supply if and only
      if their ratio vanishes in basis points. */
  lemma SupplyTotalsExact(raw: nat, free: nat)
    ensures (forall r :: InterestBorrowMarket(r, raw, free) ==> Conserves(r)) <==> GetRatio(raw, free) == 0
  {
    hide InterestBorrowMarket, Conserves, GetRatio;
    if GetRatio(raw, free) == 0 {
      forall r | InterestBorrowMarket(r, raw, free)
        ensures Conserves(r)
      {
        NoRatioConserves(r, raw, free);
      }
    } else {
      FreeSupplyMarket(raw, free);
      FreeSupplyOverCredit(raw, free);
      NotConserved(FreeSupply(raw, free), SECONDS_PER_YEAR);
    }
  }

  /** Mostly interest-free supply: the ratio keeps a single digit, and suppliers are credited almost twice what
      borrowers are charged. */
  lemma FreeSupplyOverCredits()
    ensures var r := TokenReserve(19_999, 100_000_000, 50_000_000, 0, PRICES_PRECISION, PRICES_PRECISION, 1_000, 0, 4_999, 0);
            && Sound(r) && !InterestSupply(r) && PlainBorrow(r) && CalcUtilization(r) == Ok(4_999)
            && PricedAt(r, SECONDS_PER_YEAR).Ok?
            && 10 * Credited(r, PricedAt(r, SECONDS_PER_YEAR).value) > 19 * Charged(r, PricedAt(r, SECONDS_PER_YEAR).value)
  {
    var r := TokenReserve(19_999, 100_000_000, 50_000_000, 0, PRICES_PRECISION, PRICES_PRECISION, 1_000, 0, 4_999, 0);
    var c := GetExchangePricesAndConfig(r);
    assert c.supplyRatio == 1 && c.borrowRatio == 0;
    assert RatioSupplyYield(c) == 49_994_999;
  }

  /** Mostly interest-bearing borrowing with some that is free: the ratio is rounded down, and suppliers get slightly
      more than is charged. */
  lemma MixedBorrowOverCredits()
    ensures var r := TokenReserve(2_982, 0, 2_188, 149, PRICES_PRECISION, PRICES_PRECISION, 1_000, 0, 7_837, 0);
            && Sound(r) && InterestSupply(r) && !PlainBorrow(r) && CalcUtilization(r) == Ok(7_837)
            && PricedAt(r, SECONDS_PER_YEAR).Ok?
            && Credited(r, PricedAt(r, SECONDS_PER_YEAR).value) > Charged(r, PricedAt(r, SECONDS_PER_YEAR).value)
  {
    var r := TokenReserve(2_982, 0, 2_188, 149, PRICES_PRECISION, PRICES_PRECISION, 1_000, 0, 7_837, 0);
    var c := GetExchangePricesAndConfig(r);
    assert c.supplyRatio == 0 && c.borrowRatio == 680;
    assert RatioSupplyYield(c) == 7_338;
  }
}
