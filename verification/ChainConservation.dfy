/** For which reserves the program's own accrual conserves interest, and by how much either formula misses: the counterpart
    of `InterestConservation` for `programs/liquidity/src/state/token_reserve.rs`. */
module ChainConservation {
  import opened Common
  import opened ExchangePrices
  import opened InterestConservation
  import opened ReserveAccrual

  ghost predicate ChainOverCredits(r: TokenReserve, now: nat) {
    && UpdateExchangePrice(OnChain, r, now).Ok?
    && Credited(r, UpdateExchangePrice(OnChain, r, now).value) > Charged(r, UpdateExchangePrice(OnChain, r, now).value)
  }

  ghost predicate ChainConserves(r: TokenReserve) {
    forall now: nat :: now >= r.lastUpdateTimestamp ==> !ChainOverCredits(r, now)
  }

  // ---------------------------------------------------------------- both formulas by the yield they credit

  /** A supply that on chain earns nothing. */
  predicate Unpaid(r: TokenReserve) {
    r.supplyInterest == 0 || (r.supplyInterest < r.supplyInterestFree && GetRatio(r.supplyInterest, r.supplyInterestFree) == 0)
  }

  /** The yield a formula credits suppliers with: none where it leaves their price alone. */
  function CreditYield(f: Formula, r: TokenReserve): nat {
    match f
    case Resolver => if Uncredited(r) then 0 else RatioSupplyYield(GetExchangePricesAndConfig(r))
    case OnChain => if r.borrowInterest == 0 || Unpaid(r) then 0 else ChainYield(r)
  }

  function BorrowGain(f: Formula, r: TokenReserve, elapsed: nat): nat {
    if f == OnChain && r.borrowInterest == 0 then 0 else ChainBorrowGain(r, elapsed)
  }

  predicate Priced(r: TokenReserve) {
    r.supplyExchangePrice > 0 && r.borrowExchangePrice > 0 && r.fee <= FOUR_DECIMALS
  }

  /** The reserve grown by a formula's yield, in prices of any size. */
  function Grown(f: Formula, r: TokenReserve, now: nat): TokenReserve
    requires Priced(r) && now >= r.lastUpdateTimestamp
  {
    var elapsed: nat := now - r.lastUpdateTimestamp;
    r.(supplyExchangePrice := r.supplyExchangePrice + ChainSupplyGain(r, CreditYield(f, r), elapsed),
       borrowExchangePrice := r.borrowExchangePrice + BorrowGain(f, r, elapsed), lastUpdateTimestamp := now)
  }

  lemma NoGain(r: TokenReserve, earned: nat, elapsed: nat)
    requires r.fee <= FOUR_DECIMALS && (elapsed == 0 || r.borrowRate == 0)
    ensures ChainSupplyGain(r, earned, elapsed) == 0 && ChainBorrowGain(r, elapsed) == 0
  {
    var kept: nat := FOUR_DECIMALS - r.fee;
    assert r.supplyExchangePrice * (r.borrowRate * earned * kept) * elapsed == 0;
    assert r.borrowExchangePrice * r.borrowRate * elapsed == 0;
  }

  lemma NothingEarned(r: TokenReserve, elapsed: nat)
    requires r.fee <= FOUR_DECIMALS
    ensures ChainSupplyGain(r, 0, elapsed) == 0
  {
  }

  lemma IncreasesAre(r: TokenReserve, elapsed: nat)
    requires r.fee <= FOUR_DECIMALS
    ensures BorrowIncrease(GetExchangePricesAndConfig(r), elapsed) == ChainBorrowGain(r, elapsed)
    ensures var c := GetExchangePricesAndConfig(r);
            (c.supplyRatioInverse ==> c.supplyRatio > 0) ==>
              SupplyIncrease(c, elapsed) == ChainSupplyGain(r, RatioSupplyYield(c), elapsed)
  {
    hide RatioSupplyYield, GetRatio, DivCeil, DivUp, TruncDiv;
    var c := GetExchangePricesAndConfig(r);
    BorrowInterestIs(r.borrowExchangePrice, r.borrowRate, elapsed);
    if c.supplyRatioInverse ==> c.supplyRatio > 0 {
      var earned := RatioSupplyYield(c);
      SupplyTop(r.supplyExchangePrice, r.borrowRate, earned, FOUR_DECIMALS - r.fee, elapsed);
      NonNegative(r.supplyExchangePrice * (r.borrowRate * earned * (FOUR_DECIMALS - r.fee)) * elapsed);
    }
  }

  lemma NonNegative(top: nat)
    ensures TruncDiv(TruncDiv(top, YEAR_BPS), BPS_SQUARED) == top / YEAR_BPS / BPS_SQUARED
  {
  }

  /** Each formula stores those prices; the program, if they fit 64 bits. */
  lemma GrownBy(f: Formula, r: TokenReserve, now: nat)
    requires Priced(r) && now >= r.lastUpdateTimestamp
    ensures var n := Grown(f, r, now);
            && (UpdateExchangePrice(f, r, now).Ok? ==> UpdateExchangePrice(f, r, now).value == n)
            && (f == Resolver || (n.supplyExchangePrice <= U64_MAX && n.borrowExchangePrice <= U64_MAX) ==>
                  UpdateExchangePrice(f, r, now).Ok?)
            && (f == OnChain && r.supplyExchangePrice <= U64_MAX && r.borrowExchangePrice <= U64_MAX ==>
                  (UpdateExchangePrice(f, r, now).Ok? <==> n.supplyExchangePrice <= U64_MAX && n.borrowExchangePrice <= U64_MAX))
  {
    hide GetRatio, RatioSupplyYield, ChainYield, ChainSupplyGain, ChainBorrowGain, BorrowIncrease, SupplyIncrease;
    var elapsed: nat := now - r.lastUpdateTimestamp;
    IncreasesAre(r, elapsed);
    NothingEarned(r, elapsed);
    if elapsed == 0 || r.borrowRate == 0 {
      NoGain(r, CreditYield(f, r), elapsed);
    }
  }

  /** When there are no prices to grow: one is zero; or, on chain, the clock is before the last update, or a fee above 100%
      would be taken. */
  lemma UpdateFails(f: Formula, r: TokenReserve, now: nat)
    ensures r.supplyExchangePrice == 0 || r.borrowExchangePrice == 0 ==>
              UpdateExchangePrice(f, r, now) == Err(ExchangePriceIsZero)
    ensures r.supplyExchangePrice > 0 && r.borrowExchangePrice > 0 && now < r.lastUpdateTimestamp ==>
              UpdateExchangePrice(OnChain, r, now) == Err(MathError)
    ensures r.supplyExchangePrice > 0 && r.borrowExchangePrice > 0 && now > r.lastUpdateTimestamp && r.fee > FOUR_DECIMALS
            && r.borrowRate > 0 && r.borrowInterest > 0 && !Unpaid(r) ==>
              UpdateExchangePrice(OnChain, r, now) == Err(MathError)
  {
    hide GetRatio;
  }

  // ---------------------------------------------------------------- the totals of borrowing

  /** One unit of price on as much supply as the ratio's lost digits let a year's utilization count for. */
  function ChainLostDigits(raw: nat, free: nat): TokenReserve
    requires 0 < free <= raw
  {
    var whole := FOUR_DECIMALS + GetRatio(raw, free);
    TokenReserve(FloorDiv(FOUR_DECIMALS * PRICES_PRECISION * (raw + free), whole), 0, raw, free, 1, PRICES_PRECISION,
                 FOUR_DECIMALS, 0, whole, 0)
  }

  lemma ChainLostDigitsMarket(raw: nat, free: nat)
    requires 0 < free <= raw
    ensures InterestSupplyMarket(ChainLostDigits(raw, free), raw, free)
  {
    var whole := FOUR_DECIMALS + GetRatio(raw, free);
    hide GetRatio;
    var top := FOUR_DECIMALS * PRICES_PRECISION * (raw + free);
    var supply := FloorDiv(top, whole);
    NoRatio(supply);
    assert whole * supply == supply * whole;
  }

  /** The yield there is the whole. */
  lemma ChainWholeYield(whole: nat, part: nat)
    requires FOUR_DECIMALS <= whole <= U16_MAX
    requires CHAIN_PRECISION * FOUR_DECIMALS <= part * whole <= CHAIN_PRECISION * FOUR_DECIMALS + 2 * FOUR_DECIMALS
    ensures ChainYieldOf(whole * 10_000_000_000_000, part) == FOUR_DECIMALS
  {
    var earned := ChainYieldOf(whole * 10_000_000_000_000, part);
    ChainYieldBound(whole, part);
    assert part * whole == whole * part;
    ChainYieldTimesWhole(whole, whole, part, earned);
    CancelFactor(earned, FOUR_DECIMALS, whole);
    YieldReached(whole * part, whole * 10_000_000_000_000 * part);
  }

  lemma YieldReached(w: nat, top: nat)
    requires CHAIN_PRECISION * FOUR_DECIMALS <= w && top == w * 10_000_000_000_000
    ensures top / CHAIN_PRECISION * FOUR_DECIMALS / CHAIN_PRECISION >= FOUR_DECIMALS
  {
  }

  lemma ChainPartOf(r: TokenReserve, whole: nat)
    requires 0 < r.borrowInterestFree <= r.borrowInterest
    requires whole == FOUR_DECIMALS + GetRatio(r.borrowInterest, r.borrowInterestFree)
    ensures CHAIN_PRECISION * FOUR_DECIMALS <= ChainPart(r) * whole <= CHAIN_PRECISION * FOUR_DECIMALS + 2 * FOUR_DECIMALS
  {
    var ratio := GetRatio(r.borrowInterest, r.borrowInterestFree);
    hide GetRatio;
    var part, floor := ChainPart(r), FloorDiv(ratio * CHAIN_PRECISION, whole);
    assert part == CHAIN_PRECISION - floor;
    ChainPartTimesWhole(ratio, floor, part);
    assert part * whole == CHAIN_PRECISION * whole - floor * whole;
  }

  lemma ChainLostDigitsYield(raw: nat, free: nat)
    requires 0 < free <= raw
    ensures CreditYield(OnChain, ChainLostDigits(raw, free)) == FOUR_DECIMALS || ChainLostDigits(raw, free).supplyInterest == 0
  {
    var r := ChainLostDigits(raw, free);
    var whole := FOUR_DECIMALS + GetRatio(raw, free);
    hide GetRatio, ChainPart, ChainYieldOf;
    NoRatio(r.supplyInterest);
    ChainPartOf(r, whole);
    ChainLenderIs(whole);
    ChainWholeYield(whole, ChainPart(r));
  }

  /** A year at a rate of 100%, a yield of 100% and no fee doubles both prices. */
  lemma ChainYearAtFull(r: TokenReserve)
    requires r.borrowRate == FOUR_DECIMALS && r.fee == 0
    requires r.supplyExchangePrice == 1 && r.borrowExchangePrice == PRICES_PRECISION
    ensures ChainSupplyGain(r, FOUR_DECIMALS, SECONDS_PER_YEAR) == 1
    ensures ChainBorrowGain(r, SECONDS_PER_YEAR) == PRICES_PRECISION
  {
  }

  lemma ChainLostDigitsOverCredit(raw: nat, free: nat)
    requires !RatioHolds(raw, free)
    ensures ChainOverCredits(ChainLostDigits(raw, free), SECONDS_PER_YEAR)
  {
    var r := ChainLostDigits(raw, free);
    RatioCut(raw, free);
    hide GetRatio, ChainSupplyGain, ChainBorrowGain, Credited, Charged, ChainYield;
    PriceAbove(raw, free, GetRatio(raw, free), r.supplyInterest);
    ChainLostDigitsYield(raw, free);
    ChainYearAtFull(r);
    GrownBy(OnChain, r, SECONDS_PER_YEAR);
    CreditedIs(r, 1, PRICES_PRECISION, SECONDS_PER_YEAR);
  }

  lemma RatioHoldsConserves(r: TokenReserve, raw: nat, free: nat)
    requires InterestSupplyMarket(r, raw, free) && RatioHolds(raw, free)
    ensures ChainConserves(r)
  {
    hide Sound, InterestSupply, RatioHolds, Credited, Charged, UpdateExchangePrice;
    forall now: nat | now >= r.lastUpdateTimestamp
      ensures !ChainOverCredits(r, now)
    {
      if UpdateExchangePrice(OnChain, r, now).Ok? {
        ChainAccrues(r, now);
      }
    }
  }

  lemma ChainNotConserved(r: TokenReserve, now: nat)
    requires ChainOverCredits(r, now) && now >= r.lastUpdateTimestamp
    ensures !ChainConserves(r)
  {
  }

  /** With supply that all bears interest, or all but dust: on chain interest is conserved in every market of these totals of
      borrowing if and only if they are of one kind, mostly free of interest, or of a ratio that four decimals hold. */
  lemma ChainTotalsExact(raw: nat, free: nat)
    ensures (forall r :: InterestSupplyMarket(r, raw, free) ==> ChainConserves(r)) <==> RatioHolds(raw, free)
  {
    hide InterestSupplyMarket, ChainConserves;
    if RatioHolds(raw, free) {
      forall r | InterestSupplyMarket(r, raw, free)
        ensures ChainConserves(r)
      {
        RatioHoldsConserves(r, raw, free);
      }
    } else {
      ChainLostDigitsMarket(raw, free);
      ChainLostDigitsOverCredit(raw, free);
      ChainNotConserved(ChainLostDigits(raw, free), SECONDS_PER_YEAR);
    }
  }

  // ---------------------------------------------------------------- the totals of supply

  /** Lent out in full, at a supply price that has doubled. */
  function LentOut(raw: nat, free: nat): TokenReserve {
    TokenReserve(raw, free, 2 * raw + free, 0, 2 * PRICES_PRECISION, PRICES_PRECISION, FOUR_DECIMALS, 0, FOUR_DECIMALS, 0)
  }

  lemma LentOutMarket(raw: nat, free: nat)
    ensures InterestBorrowMarket(LentOut(raw, free), raw, free)
  {
  }

  /** What its lenders earn above the utilization, in basis points. */
  function Above(raw: nat, free: nat): nat
    requires GetRatio(raw, free) > 0
  {
    if raw < free then FloorDiv(BPS_SQUARED, GetRatio(raw, free)) else GetRatio(raw, free)
  }

  /** It is more than half of what the free supply comes to. */
  lemma AboveHalf(raw: nat, free: nat)
    requires GetRatio(raw, free) > 0
    ensures raw > 0 && 2 * (raw * Above(raw, free)) > FOUR_DECIMALS * free
  {
    var ratio := GetRatio(raw, free);
    RatioOfBoth(raw, free);
    assert ratio * Max(raw, free) <= FOUR_DECIMALS * Min(raw, free) < (ratio + 1) * Max(raw, free);
    hide GetRatio;
    if raw < free {
      var inverse := FloorDiv(BPS_SQUARED, ratio);
      InverseAtLeastOne(ratio, inverse);
      MulAtMost(BPS_SQUARED + 1, 2 * (inverse * ratio), raw);
      assert FOUR_DECIMALS * free * ratio <= BPS_SQUARED * raw;
      assert 2 * (raw * inverse) * ratio == 2 * (inverse * ratio) * raw;
      MulCancelLess(FOUR_DECIMALS * free, 2 * (raw * inverse), ratio);
    } else {
      MulAtMost(ratio + 1, 2 * ratio, raw);
      assert 2 * ratio * raw == 2 * (raw * ratio);
    }
  }

  lemma InverseAtLeastOne(ratio: nat, inverse: nat)
    requires 0 < ratio <= FOUR_DECIMALS && inverse * ratio <= BPS_SQUARED < (inverse + 1) * ratio
    ensures 2 * (inverse * ratio) > BPS_SQUARED
  {
    var x := inverse * ratio;
    assert (inverse + 1) * ratio == x + ratio;
  }

  lemma LentOutYield(raw: nat, free: nat)
    requires GetRatio(raw, free) > 0
    ensures CreditYield(OnChain, LentOut(raw, free)) == FOUR_DECIMALS + Above(raw, free)
    ensures Above(raw, free) <= BPS_SQUARED
  {
    var r, ratio := LentOut(raw, free), GetRatio(raw, free);
    RatioOfBoth(raw, free);
    NoRatio(r.borrowInterest);
    hide GetRatio, ChainYieldOf;
    assert ChainPart(r) == CHAIN_PRECISION;
    if raw < free {
      ChainInverse(ratio);
    } else {
      assert FOUR_DECIMALS * CHAIN_PRECISION * (FOUR_DECIMALS + ratio) / BPS_SQUARED
          == 10_000_000_000_000 * (FOUR_DECIMALS + ratio);
      ChainFull(10_000_000_000_000 * (FOUR_DECIMALS + ratio), 0, FOUR_DECIMALS + ratio);
    }
  }

  lemma ChainFull(lender: nat, rest: nat, earned: nat)
    requires lender == 10_000_000_000_000 * earned + rest && rest < 10_000_000_000_000
    ensures ChainYieldOf(lender, CHAIN_PRECISION) == earned
  {
    DivUnique(lender * CHAIN_PRECISION, CHAIN_PRECISION, lender);
  }

  lemma ChainInverse(ratio: nat)
    requires 0 < ratio <= FOUR_DECIMALS
    ensures ChainYieldOf(FloorDiv(FOUR_DECIMALS * (CHAIN_PRECISION + FloorDiv(CHAIN_PRECISION * FOUR_DECIMALS, ratio)),
                                  FOUR_DECIMALS), CHAIN_PRECISION)
         == FOUR_DECIMALS + FloorDiv(BPS_SQUARED, ratio)
    ensures FloorDiv(BPS_SQUARED, ratio) <= BPS_SQUARED
  {
    hide ChainYieldOf;
    var fine, coarse := FloorDiv(CHAIN_PRECISION * FOUR_DECIMALS, ratio), FloorDiv(BPS_SQUARED, ratio);
    var rest := fine - 10_000_000_000_000 * coarse;
    assert (10_000_000_000_000 * coarse) * ratio == 10_000_000_000_000 * (coarse * ratio);
    assert (10_000_000_000_000 * (coarse + 1)) * ratio == 10_000_000_000_000 * ((coarse + 1) * ratio);
    MulCancelLess(fine, 10_000_000_000_000 * (coarse + 1), ratio);
    MulCancelLess(10_000_000_000_000 * coarse, fine + 1, ratio);
    MulAtMost(1, ratio, coarse);
    ChainFull(CHAIN_PRECISION + fine, rest, FOUR_DECIMALS + coarse);
  }

  lemma LentOutYear(r: TokenReserve, earned: nat)
    requires r.borrowRate == FOUR_DECIMALS && r.fee == 0
    requires r.supplyExchangePrice == 2 * PRICES_PRECISION && r.borrowExchangePrice == PRICES_PRECISION
    ensures ChainSupplyGain(r, earned, SECONDS_PER_YEAR) == 200_000_000 * earned
    ensures ChainBorrowGain(r, SECONDS_PER_YEAR) == PRICES_PRECISION
  {
  }

  lemma CreditBeyond(raw: nat, free: nat, above: nat)
    requires 2 * (raw * above) > FOUR_DECIMALS * free
    ensures raw * (200_000_000 * (FOUR_DECIMALS + above)) > (2 * raw + free) * PRICES_PRECISION
  {
    var x := raw * above;
    assert raw * (200_000_000 * (FOUR_DECIMALS + above)) == 2 * PRICES_PRECISION * raw + 200_000_000 * x;
  }

  lemma LentOutPrices(raw: nat, free: nat)
    ensures var r := LentOut(raw, free);
            && Priced(r) && r.supplyInterest == raw && r.borrowInterest == 2 * raw + free && r.lastUpdateTimestamp == 0
            && r.borrowRate == FOUR_DECIMALS && r.fee == 0
            && r.supplyExchangePrice == 2 * PRICES_PRECISION && r.borrowExchangePrice == PRICES_PRECISION
  {
  }

  lemma LentOutOverCredit(raw: nat, free: nat)
    requires GetRatio(raw, free) > 0
    ensures ChainOverCredits(LentOut(raw, free), SECONDS_PER_YEAR)
  {
    var r, above := LentOut(raw, free), Above(raw, free);
    LentOutYield(raw, free);
    AboveHalf(raw, free);
    LentOutPrices(raw, free);
    hide LentOut, GetRatio, ChainSupplyGain, ChainBorrowGain, Credited, Charged, CreditYield, Above, UpdateExchangePrice;
    LentOutYear(r, FOUR_DECIMALS + above);
    GrownBy(OnChain, r, SECONDS_PER_YEAR);
    CreditedIs(r, 200_000_000 * (FOUR_DECIMALS + above), PRICES_PRECISION, SECONDS_PER_YEAR);
    CreditBeyond(raw, free, above);
  }

  lemma NoRatioChainConserves(r: TokenReserve, raw: nat, free: nat)
    requires InterestBorrowMarket(r, raw, free) && GetRatio(raw, free) == 0
    ensures ChainConserves(r)
  {
    hide GetRatio, Credited, Charged, UpdateExchangePrice, UtilizationHolds;
    forall now: nat | now >= r.lastUpdateTimestamp
      ensures !ChainOverCredits(r, now)
    {
      if UpdateExchangePrice(OnChain, r, now).Ok? {
        if free <= raw {
          ChainAccrues(r, now);
        } else {
          UnpaidConserves(r, now);
        }
      }
    }
  }

  lemma UnpaidConserves(r: TokenReserve, now: nat)
    requires Priced(r) && Unpaid(r) && now >= r.lastUpdateTimestamp
    ensures !ChainOverCredits(r, now)
  {
    hide Unpaid, ChainBorrowGain, ChainSupplyGain, ChainYield, Credited, Charged, UpdateExchangePrice;
    var elapsed: nat := now - r.lastUpdateTimestamp;
    var gb := BorrowGain(OnChain, r, elapsed);
    GrownBy(OnChain, r, now);
    NothingEarned(r, elapsed);
    CreditedIs(r, 0, gb, now);
    MulBoth(0, gb, r.borrowInterest);
  }

  /** With borrowing that all bears interest: on chain interest is conserved in every market of these totals of supply if and
      only if their ratio vanishes in basis points. */
  lemma ChainSupplyTotalsExact(raw: nat, free: nat)
    ensures (forall r :: InterestBorrowMarket(r, raw, free) ==> ChainConserves(r)) <==> GetRatio(raw, free) == 0
  {
    hide InterestBorrowMarket, ChainConserves, GetRatio;
    if GetRatio(raw, free) == 0 {
      forall r | InterestBorrowMarket(r, raw, free)
        ensures ChainConserves(r)
      {
        NoRatioChainConserves(r, raw, free);
      }
    } else {
      LentOutMarket(raw, free);
      LentOutOverCredit(raw, free);
      ChainNotConserved(LentOut(raw, free), SECONDS_PER_YEAR);
    }
  }

  // ---------------------------------------------------------------- any totals, by either formula

  /** At this rate, fee and time suppliers gain more than borrowers owe, in prices of any size. */
  ghost predicate Exceeds(f: Formula, r: TokenReserve, now: nat) {
    && Priced(r) && now >= r.lastUpdateTimestamp
    && Credited(r, Grown(f, r, now)) > Charged(r, Grown(f, r, now))
  }

  function AtTerms(r: TokenReserve, rate: nat, fee: nat): TokenReserve {
    r.(borrowRate := rate, fee := fee)
  }

  lemma GainBounds(r: TokenReserve, earned: nat, elapsed: nat)
    requires r.fee <= FOUR_DECIMALS
    ensures var top := r.supplyExchangePrice * (r.borrowRate * earned * (FOUR_DECIMALS - r.fee)) * elapsed;
            var gain := ChainSupplyGain(r, earned, elapsed);
            gain * YEAR_BPS_FEE <= top <= (gain + 1) * YEAR_BPS_FEE
    ensures var top := r.borrowExchangePrice * r.borrowRate * elapsed;
            top <= ChainBorrowGain(r, elapsed) * YEAR_BPS <= top + YEAR_BPS
  {
    SupplyTop(r.supplyExchangePrice, r.borrowRate, earned, FOUR_DECIMALS - r.fee, elapsed);
    var top: nat := r.supplyExchangePrice * (r.borrowRate * earned * (FOUR_DECIMALS - r.fee)) * elapsed;
    DivTwice(top);
  }

  /** What the yield promises suppliers beyond what borrowers pay, for a year at 100%, without rounding. */
  function Promised(r: TokenReserve, earned: nat): int
    requires r.fee <= FOUR_DECIMALS
  {
    PromisedSupply(r, earned) - PromisedBorrow(r)
  }

  function PromisedSupply(r: TokenReserve, earned: nat): nat
    requires r.fee <= FOUR_DECIMALS
  {
    var kept: nat := FOUR_DECIMALS - r.fee;
    earned * kept * SupplyWithInterest(r)
  }

  function PromisedBorrow(r: TokenReserve): nat {
    BPS_SQUARED * BorrowWithInterest(r)
  }

  lemma SupplyShare(raw: nat, price: nat, rate: nat, earned: nat, kept: nat, elapsed: nat, gain: nat, top: nat)
    requires top == price * (rate * earned * kept) * elapsed
    requires gain * YEAR_BPS_FEE <= top <= (gain + 1) * YEAR_BPS_FEE
    ensures raw * gain * YEAR_BPS_FEE <= rate * elapsed * (earned * kept * (raw * price)) <= (raw * gain + raw) * YEAR_BPS_FEE
  {
    assert raw * top == rate * elapsed * (earned * kept * (raw * price)) by {
      assert price * (rate * earned * kept) * elapsed == price * (rate * elapsed * (earned * kept));
      ShareOrder(raw, price, rate * elapsed, earned * kept);
    }
    MulBoth(gain * YEAR_BPS_FEE, top, raw);
    MulBoth(top, (gain + 1) * YEAR_BPS_FEE, raw);
    assert raw * (gain * YEAR_BPS_FEE) == raw * gain * YEAR_BPS_FEE;
    assert raw * ((gain + 1) * YEAR_BPS_FEE) == (raw * gain + raw) * YEAR_BPS_FEE;
  }

  lemma ShareOrder(raw: nat, price: nat, x: nat, y: nat)
    ensures raw * (price * (x * y)) == x * (y * (raw * price))
  {
    var z := x * y;
    assert raw * (price * z) == z * (raw * price);
  }

  lemma BorrowShare(raw: nat, price: nat, rate: nat, elapsed: nat, gain: nat, top: nat)
    requires top == price * rate * elapsed && top <= gain * YEAR_BPS <= top + YEAR_BPS
    ensures rate * elapsed * (BPS_SQUARED * (raw * price)) <= raw * gain * YEAR_BPS_FEE
    ensures raw * gain * YEAR_BPS_FEE <= rate * elapsed * (BPS_SQUARED * (raw * price)) + raw * YEAR_BPS_FEE
  {
    var x, owed, given := rate * elapsed, raw * price, raw * gain;
    assert raw * top == x * owed by {
      assert top == price * x;
    }
    MulBoth(top, gain * YEAR_BPS, raw);
    MulBoth(gain * YEAR_BPS, top + YEAR_BPS, raw);
    assert raw * (gain * YEAR_BPS) == given * YEAR_BPS;
    assert x * (BPS_SQUARED * owed) == BPS_SQUARED * (x * owed);
  }

  /** In any market and by either formula: what an accrual credits beyond what it charges is what the yield promises over
      the time, less under one unit of price for each raw unit. */
  lemma ExcessBounds(f: Formula, r: TokenReserve, now: nat)
    requires Priced(r) && now >= r.lastUpdateTimestamp && UpdateExchangePrice(f, r, now).Ok?
    ensures var n := UpdateExchangePrice(f, r, now).value;
            var excess := (Credited(r, n) - Charged(r, n)) * YEAR_BPS_FEE;
            var promised := r.borrowRate * (now - r.lastUpdateTimestamp) * Promised(r, CreditYield(f, r));
            excess <= promised <= excess + (r.supplyInterest + r.borrowInterest) * YEAR_BPS_FEE
  {
    hide UpdateExchangePrice, CreditYield, ChainSupplyGain, ChainBorrowGain, Credited, Charged;
    GrownBy(f, r, now);
    GrownExcess(f, r, now);
  }

  lemma GrownExcess(f: Formula, r: TokenReserve, now: nat)
    requires Priced(r) && now >= r.lastUpdateTimestamp
    ensures var n := Grown(f, r, now);
            var excess := (Credited(r, n) - Charged(r, n)) * YEAR_BPS_FEE;
            var promised := r.borrowRate * (now - r.lastUpdateTimestamp) * Promised(r, CreditYield(f, r));
            excess <= promised <= excess + (r.supplyInterest + r.borrowInterest) * YEAR_BPS_FEE
  {
    hide CreditYield, ChainSupplyGain, ChainBorrowGain, Credited, Charged;
    var elapsed: nat := now - r.lastUpdateTimestamp;
    var earned := CreditYield(f, r);
    var gs, gb := ChainSupplyGain(r, earned, elapsed), BorrowGain(f, r, elapsed);
    CreditedIs(r, gs, gb, now);
    SameOwed(f, r, elapsed);
    GainsExcess(r, earned, elapsed);
  }

  lemma SameOwed(f: Formula, r: TokenReserve, elapsed: nat)
    ensures r.borrowInterest * BorrowGain(f, r, elapsed) == r.borrowInterest * ChainBorrowGain(r, elapsed)
  {
  }

  lemma SupplyGainShare(r: TokenReserve, earned: nat, elapsed: nat)
    requires r.fee <= FOUR_DECIMALS
    ensures var given, x := r.supplyInterest * ChainSupplyGain(r, earned, elapsed), r.borrowRate * elapsed;
            given * YEAR_BPS_FEE <= x * PromisedSupply(r, earned) <= (given + r.supplyInterest) * YEAR_BPS_FEE
  {
    GainBounds(r, earned, elapsed);
    hide ChainSupplyGain, ChainBorrowGain;
    var kept: nat := FOUR_DECIMALS - r.fee;
    SupplyShare(r.supplyInterest, r.supplyExchangePrice, r.borrowRate, earned, kept, elapsed,
                ChainSupplyGain(r, earned, elapsed), r.supplyExchangePrice * (r.borrowRate * earned * kept) * elapsed);
  }

  lemma BorrowGainShare(r: TokenReserve, elapsed: nat)
    ensures var taken, x := r.borrowInterest * ChainBorrowGain(r, elapsed), r.borrowRate * elapsed;
            x * PromisedBorrow(r) <= taken * YEAR_BPS_FEE <= x * PromisedBorrow(r) + r.borrowInterest * YEAR_BPS_FEE
  {
    hide DivCeil;
    BorrowShare(r.borrowInterest, r.borrowExchangePrice, r.borrowRate, elapsed, ChainBorrowGain(r, elapsed),
                r.borrowExchangePrice * r.borrowRate * elapsed);
  }

  lemma GainsExcess(r: TokenReserve, earned: nat, elapsed: nat)
    requires r.fee <= FOUR_DECIMALS
    ensures var given, taken := r.supplyInterest * ChainSupplyGain(r, earned, elapsed), r.borrowInterest * ChainBorrowGain(r, elapsed);
            var promised := r.borrowRate * elapsed * Promised(r, earned);
            (given - taken) * YEAR_BPS_FEE <= promised
              <= (given - taken) * YEAR_BPS_FEE + (r.supplyInterest + r.borrowInterest) * YEAR_BPS_FEE
  {
    SupplyGainShare(r, earned, elapsed);
    BorrowGainShare(r, elapsed);
    hide ChainSupplyGain, ChainBorrowGain, PromisedSupply, PromisedBorrow;
    Difference(r.borrowRate * elapsed, PromisedSupply(r, earned), PromisedBorrow(r),
               r.supplyInterest * ChainSupplyGain(r, earned, elapsed), r.borrowInterest * ChainBorrowGain(r, elapsed),
               r.supplyInterest, r.borrowInterest);
  }

  lemma Difference(x: nat, a: nat, b: nat, given: nat, taken: nat, s: nat, raw: nat)
    requires given * YEAR_BPS_FEE <= x * a <= (given + s) * YEAR_BPS_FEE
    requires x * b <= taken * YEAR_BPS_FEE <= x * b + raw * YEAR_BPS_FEE
    ensures (given - taken) * YEAR_BPS_FEE <= x * (a - b) <= (given - taken) * YEAR_BPS_FEE + (s + raw) * YEAR_BPS_FEE
  {
    assert x * (a - b) == x * a - x * b;
  }

  /** Ten thousand years at 100% and no fee: the increases have nothing to round. */
  lemma ExactIncreases(r: TokenReserve, earned: nat)
    requires r.borrowRate == FOUR_DECIMALS && r.fee == 0
    ensures ChainSupplyGain(r, earned, FOUR_DECIMALS * SECONDS_PER_YEAR) == r.supplyExchangePrice * earned
    ensures ChainBorrowGain(r, FOUR_DECIMALS * SECONDS_PER_YEAR) == r.borrowExchangePrice * FOUR_DECIMALS
  {
    var x := r.supplyExchangePrice * earned;
    assert r.supplyExchangePrice * (FOUR_DECIMALS * earned * FOUR_DECIMALS) == FOUR_DECIMALS * FOUR_DECIMALS * x;
  }

  /** Whatever the totals and by either formula: interest is conserved at every rate, fee and time, in prices of any size,
      if and only if the yield on what bears interest is within what is borrowed with interest. */
  lemma AnyTotalsExact(f: Formula, r: TokenReserve)
    requires Priced(r)
    ensures (forall rate: nat, fee: nat, now: nat :: !Exceeds(f, AtTerms(r, rate, fee), now))
       <==> YieldWithin(CreditYield(f, r), SupplyWithInterest(r), BorrowWithInterest(r), 1, 1)
  {
    if YieldWithin(CreditYield(f, r), SupplyWithInterest(r), BorrowWithInterest(r), 1, 1) {
      forall rate: nat, fee: nat, now: nat
        ensures !Exceeds(f, AtTerms(r, rate, fee), now)
      {
        WithinNeverExceeds(f, r, rate, fee, now);
      }
    } else {
      BeyondExceeds(f, r);
    }
  }

  lemma SameYield(f: Formula, r: TokenReserve, rate: nat, fee: nat)
    ensures CreditYield(f, AtTerms(r, rate, fee)) == CreditYield(f, r)
    ensures SupplyWithInterest(AtTerms(r, rate, fee)) == SupplyWithInterest(r)
    ensures BorrowWithInterest(AtTerms(r, rate, fee)) == BorrowWithInterest(r)
  {
    hide GetRatio, YieldOf, ChainYieldOf;
  }

  lemma WithinNeverExceeds(f: Formula, r: TokenReserve, rate: nat, fee: nat, now: nat)
    requires YieldWithin(CreditYield(f, r), SupplyWithInterest(r), BorrowWithInterest(r), 1, 1)
    ensures !Exceeds(f, AtTerms(r, rate, fee), now)
  {
    hide CreditYield, ChainSupplyGain, ChainBorrowGain, Credited, Charged, YieldWithin, SupplyWithInterest, BorrowWithInterest;
    var t := AtTerms(r, rate, fee);
    SameYield(f, r, rate, fee);
    if Priced(t) && now >= t.lastUpdateTimestamp {
      var elapsed: nat := now - t.lastUpdateTimestamp;
      GainsWithin(t, CreditYield(f, t), elapsed);
      CreditedIs(t, ChainSupplyGain(t, CreditYield(f, t), elapsed), BorrowGain(f, t, elapsed), now);
      assert t.borrowInterest * BorrowGain(f, t, elapsed) == t.borrowInterest * ChainBorrowGain(t, elapsed);
    }
  }

  lemma BeyondExceeds(f: Formula, r: TokenReserve)
    requires Priced(r) && !YieldWithin(CreditYield(f, r), SupplyWithInterest(r), BorrowWithInterest(r), 1, 1)
    ensures Exceeds(f, AtTerms(r, FOUR_DECIMALS, 0), r.lastUpdateTimestamp + FOUR_DECIMALS * SECONDS_PER_YEAR)
  {
    hide CreditYield, ChainSupplyGain, ChainBorrowGain, Credited, Charged;
    var t := AtTerms(r, FOUR_DECIMALS, 0);
    SameYield(f, r, FOUR_DECIMALS, 0);
    var earned, elapsed := CreditYield(f, r), FOUR_DECIMALS * SECONDS_PER_YEAR;
    ExactIncreases(t, earned);
    CreditedIs(t, ChainSupplyGain(t, earned, elapsed), BorrowGain(f, t, elapsed), r.lastUpdateTimestamp + elapsed);
    assert t.borrowInterest * BorrowGain(f, t, elapsed) == t.borrowInterest * (t.borrowExchangePrice * FOUR_DECIMALS);
    assert r.supplyInterest * (r.supplyExchangePrice * earned) == earned * (r.supplyInterest * r.supplyExchangePrice);
    assert r.borrowInterest * (r.borrowExchangePrice * FOUR_DECIMALS) == FOUR_DECIMALS * (r.borrowInterest * r.borrowExchangePrice);
  }
}
