/** Interest accrual of a token at Liquidity as the resolver works it out: `ts-sdk/liquidity/resolver/resolver.ts` and
    `types.ts`. */
module ExchangePrices {
  import opened Common

  const YEAR_BPS: nat := 315_360_000_000
  const BPS_SQUARED: nat := 100_000_000
  const YEAR_BPS_FEE: nat := 31_536_000_000_000_000_000
  const RATE_PRECISION: nat := 1_000_000_000_000_000_000
  const U16_MAX: nat := 65_535

  datatype PriceError = ExchangePriceIsZero | CastError | MathError

  /** A token's reserve: raw totals, and what the last update stored. */
  datatype TokenReserve = TokenReserve(
    supplyInterest: nat, supplyInterestFree: nat, borrowInterest: nat, borrowInterestFree: nat,
    supplyExchangePrice: nat, borrowExchangePrice: nat,
    borrowRate: nat, fee: nat, lastStoredUtilization: nat, lastUpdateTimestamp: nat)

  datatype Config = Config(
    supplyExchangePrice: nat, borrowExchangePrice: nat,
    borrowRate: nat, fee: nat, lastStoredUtilization: nat, lastUpdateTimestamp: nat,
    supplyRatio: nat, supplyRatioInverse: bool, borrowRatio: nat, borrowRatioInverse: bool)

  datatype Prices = Prices(supply: int, borrow: int)

  /** The resolver's `divCeil`: one more than the quotient whenever a remainder is left. */
  function DivUp(a: int, d: nat): int
    requires d > 0
  {
    if TruncDiv(a, d) * d == a then TruncDiv(a, d) else TruncDiv(a, d) + 1
  }

  /** `getSupplyRatio` and `getBorrowRatio`: the smaller of the two totals in basis points of the larger. */
  function GetRatio(withInterest: nat, free: nat): (ratio: nat)
    ensures ratio <= FOUR_DECIMALS
    ensures ratio * Max(withInterest, free) <= FOUR_DECIMALS * Min(withInterest, free)
    ensures withInterest + free > 0 ==>
              FOUR_DECIMALS * Min(withInterest, free) < (ratio + 1) * Max(withInterest, free)
  {
    if withInterest > free then
      var ratio := FloorDiv(free * FOUR_DECIMALS, withInterest);
      MulCancelLess(ratio, FOUR_DECIMALS + 1, withInterest);
      ratio
    else if withInterest < free then
      var ratio := FloorDiv(withInterest * FOUR_DECIMALS, free);
      MulCancelLess(ratio, FOUR_DECIMALS + 1, free);
      ratio
    else if withInterest > 0 then FOUR_DECIMALS
    else 0
  }

  function GetExchangePricesAndConfig(r: TokenReserve): Config {
    Config(r.supplyExchangePrice, r.borrowExchangePrice, r.borrowRate, r.fee, r.lastStoredUtilization,
           r.lastUpdateTimestamp,
           GetRatio(r.supplyInterest, r.supplyInterestFree), r.supplyInterest < r.supplyInterestFree,
           GetRatio(r.borrowInterest, r.borrowInterestFree), r.borrowInterest < r.borrowInterestFree)
  }

  /** Utilization times the part of lenders that earns, at eighteen decimals of basis points. */
  function LenderYield(c: Config): nat
    requires c.supplyRatioInverse ==> c.supplyRatio > 0
  {
    if c.supplyRatioInverse then
      c.lastStoredUtilization * (RATE_PRECISION + RATE_PRECISION * FOUR_DECIMALS / c.supplyRatio) / FOUR_DECIMALS
    else
      c.lastStoredUtilization * RATE_PRECISION * (FOUR_DECIMALS + c.supplyRatio) / BPS_SQUARED
  }

  /** The part of borrowers that pays, at eighteen decimals. */
  function PayingPart(c: Config): (part: nat)
    ensures part <= RATE_PRECISION
  {
    var ratio := FloorDiv(c.borrowRatio * RATE_PRECISION, FOUR_DECIMALS + c.borrowRatio);
    MulCancelLess(ratio, RATE_PRECISION + 1, FOUR_DECIMALS + c.borrowRatio);
    if c.borrowRatioInverse then ratio else RATE_PRECISION - ratio
  }

  function YieldOf(lender: nat, part: nat): nat {
    lender * part * FOUR_DECIMALS / RATE_PRECISION / RATE_PRECISION
  }

  function RatioSupplyYield(c: Config): nat
    requires c.supplyRatioInverse ==> c.supplyRatio > 0
  {
    YieldOf(LenderYield(c), PayingPart(c))
  }

  function BorrowIncrease(c: Config, elapsed: int): int {
    DivUp(c.borrowExchangePrice * c.borrowRate * elapsed, YEAR_BPS)
  }

  function SupplyIncrease(c: Config, elapsed: int): int
    requires c.supplyRatioInverse ==> c.supplyRatio > 0
  {
    var supplyRate := c.borrowRate * RatioSupplyYield(c) * (FOUR_DECIMALS - c.fee);
    TruncDiv(TruncDiv(c.supplyExchangePrice * supplyRate * elapsed, YEAR_BPS), BPS_SQUARED)
  }

  function CalculateExchangePrice(c: Config, now: nat): Result<Prices, PriceError> {
    var elapsed := now - c.lastUpdateTimestamp;
    if c.supplyExchangePrice == 0 || c.borrowExchangePrice == 0 then Err(ExchangePriceIsZero)
    else if elapsed == 0 || c.borrowRate == 0 then Ok(Prices(c.supplyExchangePrice, c.borrowExchangePrice))
    else
      var borrow := c.borrowExchangePrice + BorrowIncrease(c, elapsed);
      if c.borrowRatio == 1 || (c.supplyRatioInverse && c.supplyRatio == 0) then
        Ok(Prices(c.supplyExchangePrice, borrow))
      else
        Ok(Prices(c.supplyExchangePrice + SupplyIncrease(c, elapsed), borrow))
  }

  // ---------------------------------------------------------------- amounts in a market

  /** What suppliers and borrowers hold in units of 1e-12 tokens. */
  function SupplyWithInterest(r: TokenReserve): nat {
    r.supplyInterest * r.supplyExchangePrice
  }

  function BorrowWithInterest(r: TokenReserve): nat {
    r.borrowInterest * r.borrowExchangePrice
  }

  function TotalSupply(r: TokenReserve): nat {
    SupplyWithInterest(r) + r.supplyInterestFree * PRICES_PRECISION
  }

  function TotalBorrow(r: TokenReserve): nat {
    BorrowWithInterest(r) + r.borrowInterestFree * PRICES_PRECISION
  }

  /** `calc_utilization`, without the caps that apply when an amount is being added. */
  function CalcUtilization(r: TokenReserve): Result<nat, PriceError> {
    if TotalSupply(r) == 0 then Ok(0)
    else
      var utilization := TotalBorrow(r) * FOUR_DECIMALS / TotalSupply(r);
      if utilization > U16_MAX then Err(CastError) else Ok(utilization)
  }

  /** `calcRevenue`: the supply rounded up against the borrow rounded down. */
  function CalcRevenue(r: TokenReserve, balance: nat): int {
    if balance == 0 then 0
    else
      var expected := DivCeil(SupplyWithInterest(r), PRICES_PRECISION) + r.supplyInterestFree
                    - (BorrowWithInterest(r) / PRICES_PRECISION + r.borrowInterestFree);
      if balance > expected then balance - expected else 0
  }

  /** The reserve at the prices of another time, when they are ones it can hold. */
  function PricedAt(r: TokenReserve, now: nat): Result<TokenReserve, PriceError> {
    var prices :- CalculateExchangePrice(GetExchangePricesAndConfig(r), now);
    if prices.supply < 0 || prices.borrow < 0 then Err(CastError)
    else Ok(r.(supplyExchangePrice := prices.supply, borrowExchangePrice := prices.borrow, lastUpdateTimestamp := now))
  }

  // ---------------------------------------------------------------- what one accrual credits and charges

  /** The stored utilization is no more than the market's. */
  ghost predicate UtilizationHolds(r: TokenReserve) {
    r.lastStoredUtilization * TotalSupply(r) <= FOUR_DECIMALS * TotalBorrow(r)
  }

  ghost predicate Sound(r: TokenReserve) {
    && r.supplyExchangePrice > 0 && r.borrowExchangePrice >= PRICES_PRECISION && r.fee <= FOUR_DECIMALS
    && UtilizationHolds(r)
  }

  /** Supply free of interest is absent, or too little to show in basis points. */
  predicate InterestSupply(r: TokenReserve) {
    r.supplyInterestFree <= r.supplyInterest && GetRatio(r.supplyInterest, r.supplyInterestFree) == 0
  }

  /** All borrowing bears interest, or most of it does not. */
  predicate PlainBorrow(r: TokenReserve) {
    r.borrowInterestFree == 0 || r.borrowInterest < r.borrowInterestFree
  }

  /** `q / p` bounds what may be credited for each unit charged: 1 in a plain market, 10000/9998 otherwise. */
  function BoundP(r: TokenReserve): nat {
    if PlainBorrow(r) then 1 else 9_998
  }

  function BoundQ(r: TokenReserve): nat {
    if PlainBorrow(r) then 1 else 10_000
  }

  /** Interest credited to suppliers and charged to borrowers between `r` and its update `n`. */
  function Credited(r: TokenReserve, n: TokenReserve): int {
    SupplyWithInterest(n) - SupplyWithInterest(r)
  }

  function Charged(r: TokenReserve, n: TokenReserve): int {
    BorrowWithInterest(n) - BorrowWithInterest(r)
  }

  lemma MulBoth(a: int, b: int, c: nat)
    requires a <= b
    ensures c * a <= c * b
  {
  }

  /** The paying part never overstates what bears interest: exactly, or by under two parts in ten thousand. */
  lemma PayingPartBound(r: TokenReserve, part: nat, bi: nat, b: nat)
    requires r.borrowExchangePrice >= PRICES_PRECISION
    requires part == PayingPart(GetExchangePricesAndConfig(r))
    requires bi == BorrowWithInterest(r) && b == TotalBorrow(r)
    ensures BoundP(r) * (part * b) <= BoundQ(r) * (RATE_PRECISION * bi)
  {
    var ratio := GetRatio(r.borrowInterest, r.borrowInterestFree);
    var floor := FloorDiv(ratio * RATE_PRECISION, FOUR_DECIMALS + ratio);
    var price, raw, free := r.borrowExchangePrice, r.borrowInterest, r.borrowInterestFree;
    assert floor * (FOUR_DECIMALS + ratio) <= ratio * RATE_PRECISION < (floor + 1) * (FOUR_DECIMALS + ratio);
    MulBoth(PRICES_PRECISION, price, raw);
    MulBoth(PRICES_PRECISION, price, free);
    if raw < free {
      MostlyFreeBorrow(ratio, floor, raw, free, bi, b);
    } else if free == 0 {
      if raw > 0 {
        assert ratio * raw <= 0;
        assert ratio == 0;
      }
      assert bi == b;
    } else {
      MostlyInterestBorrow(ratio, floor, raw, free, price, bi, b);
    }
  }

  lemma MostlyFreeBorrow(ratio: nat, part: nat, raw: nat, free: nat, bi: nat, b: nat)
    requires ratio * free <= FOUR_DECIMALS * raw && raw * PRICES_PRECISION <= bi && b == bi + free * PRICES_PRECISION
    requires part * (FOUR_DECIMALS + ratio) <= ratio * RATE_PRECISION
    ensures part * b <= RATE_PRECISION * bi
  {
    var whole := FOUR_DECIMALS + ratio;
    calc {
      ratio * b;
      ratio * bi + ratio * free * PRICES_PRECISION;
      <= ratio * bi + FOUR_DECIMALS * raw * PRICES_PRECISION;
      <= ratio * bi + FOUR_DECIMALS * bi;
      whole * bi;
    }
    calc {
      (part * b) * whole;
      (part * whole) * b;
      <= { MulAtMost(part * whole, ratio * RATE_PRECISION, b); }
      ratio * RATE_PRECISION * b;
      RATE_PRECISION * (ratio * b);
      <= { MulBoth(ratio * b, whole * bi, RATE_PRECISION); }
      RATE_PRECISION * (whole * bi);
      (RATE_PRECISION * bi) * whole;
    }
    CancelFactor(part * b, RATE_PRECISION * bi, whole);
  }

  lemma CancelFactor(a: int, b: int, w: nat)
    requires w > 0 && a * w <= b * w
    ensures a <= b
  {
    assert (b + 1) * w == b * w + w;
    MulCancelLess(a, b + 1, w);
  }

  lemma MostlyInterestBorrow(ratio: nat, floor: nat, raw: nat, free: nat, price: nat, bi: nat, b: nat)
    requires 0 < free <= raw && ratio <= FOUR_DECIMALS && FOUR_DECIMALS * free < (ratio + 1) * raw
    requires bi == raw * price && b == bi + free * PRICES_PRECISION && free * PRICES_PRECISION <= free * price
    requires floor <= RATE_PRECISION && ratio * RATE_PRECISION < (floor + 1) * (FOUR_DECIMALS + ratio)
    ensures 9_998 * ((RATE_PRECISION - floor) * b) <= 10_000 * (RATE_PRECISION * bi)
  {
    var part: nat := RATE_PRECISION - floor;
    var bound := RATE_PRECISION * FOUR_DECIMALS + 2 * FOUR_DECIMALS;
    PartTimesWhole(ratio, floor, part);
    PayingShare(ratio, raw, free, price, bi, b);
    MulBoth(9_999 * b, (FOUR_DECIMALS + ratio) * bi, part);
    MulAssociate(part, FOUR_DECIMALS + ratio, bi);
    MulAtMost(part * (FOUR_DECIMALS + ratio), bound, bi);
    RoundSlack(part, b, bi);
  }

  lemma PartTimesWhole(ratio: nat, floor: nat, part: nat)
    requires ratio <= FOUR_DECIMALS && part == RATE_PRECISION - floor
    requires ratio * RATE_PRECISION < (floor + 1) * (FOUR_DECIMALS + ratio)
    ensures part * (FOUR_DECIMALS + ratio) <= RATE_PRECISION * FOUR_DECIMALS + 2 * FOUR_DECIMALS
  {
    assert (floor + 1) * (FOUR_DECIMALS + ratio) == floor * (FOUR_DECIMALS + ratio) + FOUR_DECIMALS + ratio;
    assert part * (FOUR_DECIMALS + ratio) == RATE_PRECISION * (FOUR_DECIMALS + ratio) - floor * (FOUR_DECIMALS + ratio);
  }

  lemma PayingShare(ratio: nat, raw: nat, free: nat, price: nat, bi: nat, b: nat)
    requires 0 < free <= raw && FOUR_DECIMALS * free < (ratio + 1) * raw
    requires bi == raw * price && b == bi + free * PRICES_PRECISION && free * PRICES_PRECISION <= free * price
    ensures 9_999 * b <= (FOUR_DECIMALS + ratio) * bi
  {
    MulAtMost(FOUR_DECIMALS * free, (ratio + 1) * raw, price);
    MulAssociate(ratio + 1, raw, price);
    MulAssociate(FOUR_DECIMALS, free, price);
    assert (ratio + 1) * bi == ratio * bi + bi;
    assert (FOUR_DECIMALS + ratio) * bi == FOUR_DECIMALS * bi + ratio * bi;
  }

  lemma RoundSlack(part: nat, b: nat, bi: nat)
    requires part * (9_999 * b) <= (RATE_PRECISION * FOUR_DECIMALS + 2 * FOUR_DECIMALS) * bi
    ensures 9_998 * (part * b) <= 10_000 * (RATE_PRECISION * bi)
  {
    var w := part * b;
    assert part * (9_999 * b) == 9_999 * w;
  }

  /** One division by each constant, and the interest of the year, in one inequality. */
  lemma SupplyIncreaseBound(price: nat, rate: nat, earned: nat, kept: nat, elapsed: nat, gain: nat)
    requires kept <= FOUR_DECIMALS
    requires gain == price * (rate * earned * kept) * elapsed / YEAR_BPS / BPS_SQUARED
    ensures gain * YEAR_BPS * FOUR_DECIMALS <= earned * (price * (rate * elapsed))
  {
    var top := price * (rate * earned * kept) * elapsed;
    var q := FloorDiv(top, YEAR_BPS);
    var g := FloorDiv(q, BPS_SQUARED);
    var full := earned * (price * (rate * elapsed));
    assert top == full * kept by {
      assert rate * earned * kept == earned * kept * rate;
      assert price * (earned * kept * rate) * elapsed == earned * kept * (price * (rate * elapsed));
    }
    MulBoth(kept, FOUR_DECIMALS, full);
  }

  lemma BorrowIncreaseBound(price: nat, rate: nat, elapsed: nat, gain: int)
    requires gain == DivUp(price * rate * elapsed, YEAR_BPS)
    ensures gain >= 0 && gain * YEAR_BPS >= price * (rate * elapsed)
  {
    assert price * rate * elapsed == price * (rate * elapsed);
  }

  /** What the yield lets suppliers take, in terms of what borrowers owe. */
  lemma YieldBound(lender: nat, part: nat, earned: nat, u: nat, si: nat, s: nat, bi: nat, b: nat, p: nat, q: nat)
    requires lender * FOUR_DECIMALS * si <= u * RATE_PRECISION * s
    requires u * s <= FOUR_DECIMALS * b
    requires p * (part * b) <= q * (RATE_PRECISION * bi)
    requires earned == lender * part * FOUR_DECIMALS / RATE_PRECISION / RATE_PRECISION
    ensures p * (earned * si) <= FOUR_DECIMALS * (q * bi)
  {
    var top := lender * part * FOUR_DECIMALS;
    var half := FloorDiv(top, RATE_PRECISION);
    var full := FloorDiv(half, RATE_PRECISION);
    assert earned * (RATE_PRECISION * RATE_PRECISION) <= top;
    assert lender * si <= RATE_PRECISION * b by {
      assert u * RATE_PRECISION * s == RATE_PRECISION * (u * s);
      assert lender * FOUR_DECIMALS * si == FOUR_DECIMALS * (lender * si);
    }
    var e2 := RATE_PRECISION * RATE_PRECISION;
    calc {
      (earned * si) * e2;
      == (earned * e2) * si;
      <= { MulAtMost(earned * e2, top, si); }
      top * si;
      == { assert lender * part * FOUR_DECIMALS * si == FOUR_DECIMALS * (part * (lender * si)); }
      FOUR_DECIMALS * (part * (lender * si));
      <= { MulBoth(lender * si, RATE_PRECISION * b, part); }
      FOUR_DECIMALS * (part * (RATE_PRECISION * b));
      == { assert part * (RATE_PRECISION * b) == RATE_PRECISION * (part * b); }
      FOUR_DECIMALS * (RATE_PRECISION * (part * b));
    }
    var w := earned * si;
    calc {
      (p * w) * e2;
      == { MulAssociate(p, w, e2); }
      p * (w * e2);
      <= { MulBoth(w * e2, FOUR_DECIMALS * (RATE_PRECISION * (part * b)), p); }
      p * (FOUR_DECIMALS * (RATE_PRECISION * (part * b)));
      == { assert p * (FOUR_DECIMALS * (RATE_PRECISION * (part * b))) == FOUR_DECIMALS * RATE_PRECISION * (p * (part * b)); }
      FOUR_DECIMALS * RATE_PRECISION * (p * (part * b));
      <= FOUR_DECIMALS * RATE_PRECISION * (q * (RATE_PRECISION * bi));
      == { assert q * (RATE_PRECISION * bi) == RATE_PRECISION * (q * bi); }
      FOUR_DECIMALS * RATE_PRECISION * (RATE_PRECISION * (q * bi));
      == FOUR_DECIMALS * (q * bi) * e2;
    }
    CancelFactor(p * w, FOUR_DECIMALS * (q * bi), e2);
  }

  /** The two increases, weighed by what they apply to. */
  lemma CombineIncreases(rawS: nat, sp: nat, rawB: nat, bp: nat, earned: nat, year: nat, gs: nat, gb: nat, p: nat, q: nat)
    requires gs * YEAR_BPS * FOUR_DECIMALS <= earned * (sp * year)
    requires gb * YEAR_BPS >= bp * year
    requires p * (earned * (rawS * sp)) <= FOUR_DECIMALS * (q * (rawB * bp))
    ensures p * (rawS * gs) <= q * (rawB * gb)
  {
    var c := YEAR_BPS * FOUR_DECIMALS;
    var ys, bi := earned * (rawS * sp), rawB * bp;
    calc {
      (rawS * gs) * c;
      == rawS * (gs * YEAR_BPS * FOUR_DECIMALS);
      <= { MulBoth(gs * YEAR_BPS * FOUR_DECIMALS, earned * (sp * year), rawS); }
      rawS * (earned * (sp * year));
      == { assert rawS * (earned * (sp * year)) == earned * (rawS * sp) * year; }
      ys * year;
    }
    var x := rawS * gs;
    calc {
      (p * x) * c;
      == { MulAssociate(p, x, c); }
      p * (x * c);
      <= { MulBoth(x * c, ys * year, p); }
      p * (ys * year);
      == { MulAssociate(p, ys, year); }
      p * ys * year;
      <= { MulAtMost(p * ys, FOUR_DECIMALS * (q * bi), year); }
      FOUR_DECIMALS * (q * bi) * year;
      == { assert FOUR_DECIMALS * (q * bi) * year == FOUR_DECIMALS * (q * (bi * year)); }
      FOUR_DECIMALS * (q * (bi * year));
      == { assert bi * year == rawB * (bp * year); }
      FOUR_DECIMALS * (q * (rawB * (bp * year)));
      <= { MulBoth(bp * year, gb * YEAR_BPS, rawB); MulBoth(rawB * (bp * year), rawB * (gb * YEAR_BPS), q); }
      FOUR_DECIMALS * (q * (rawB * (gb * YEAR_BPS)));
      == { assert rawB * (gb * YEAR_BPS) == YEAR_BPS * (rawB * gb);
           assert q * (YEAR_BPS * (rawB * gb)) == YEAR_BPS * (q * (rawB * gb)); }
      (q * (rawB * gb)) * c;
    }
    CancelFactor(p * x, q * (rawB * gb), c);
  }

  /** Without interest-free supply an accrual never credits suppliers with more than borrowers are charged when the
      borrowing is all with interest or mostly without, and within two parts in ten thousand otherwise. Neither price
      falls. */
  lemma AccrualConserves(r: TokenReserve, now: nat)
    requires Sound(r) && InterestSupply(r) && now >= r.lastUpdateTimestamp
    ensures PricedAt(r, now).Ok?
    ensures var n := PricedAt(r, now).value;
            && n.supplyExchangePrice >= r.supplyExchangePrice && n.borrowExchangePrice >= r.borrowExchangePrice
            && 9_998 * Credited(r, n) <= 10_000 * Charged(r, n)
            && (r.borrowInterestFree == 0 || r.borrowInterest < r.borrowInterestFree ==> Credited(r, n) <= Charged(r, n))
  {
    hide RatioSupplyYield, GetRatio, BoundP, BoundQ, Credited, Charged, UtilizationHolds, PricedAt;
    AccrualYield(r, RatioSupplyYield(GetExchangePricesAndConfig(r)));
    AccrualWithin(r, now, BoundP(r), BoundQ(r));
    assert BoundP(r) == (if PlainBorrow(r) then 1 else 9_998) && BoundQ(r) == (if PlainBorrow(r) then 1 else 10_000) by {
      BoundsAre(r);
    }
    ChargedNonNegative(r, now);
  }

  lemma ChargedNonNegative(r: TokenReserve, now: nat)
    requires PricedAt(r, now).Ok? && PricedAt(r, now).value.borrowExchangePrice >= r.borrowExchangePrice
    ensures Charged(r, PricedAt(r, now).value) >= 0
  {
    hide CalculateExchangePrice;
    MulBoth(r.borrowExchangePrice, PricedAt(r, now).value.borrowExchangePrice, r.borrowInterest);
  }

  lemma BoundsAre(r: TokenReserve)
    ensures BoundP(r) == (if PlainBorrow(r) then 1 else 9_998) && BoundQ(r) == (if PlainBorrow(r) then 1 else 10_000)
  {
  }

  /** An accrual keeps to `q / p` when the yield does. */
  lemma AccrualWithin(r: TokenReserve, now: nat, p: nat, q: nat)
    requires r.supplyExchangePrice > 0 && r.borrowExchangePrice > 0 && r.fee <= FOUR_DECIMALS
    requires r.supplyInterestFree <= r.supplyInterest && now >= r.lastUpdateTimestamp
    requires YieldWithin(RatioSupplyYield(GetExchangePricesAndConfig(r)), SupplyWithInterest(r), BorrowWithInterest(r), p, q)
    ensures PricedAt(r, now).Ok?
    ensures var n := PricedAt(r, now).value;
            && n.supplyExchangePrice >= r.supplyExchangePrice && n.borrowExchangePrice >= r.borrowExchangePrice
            && p * Credited(r, n) <= q * Charged(r, n)
  {
    hide RatioSupplyYield, GetRatio, BorrowIncrease, SupplyIncrease, Credited, Charged, YieldWithin;
    var c := GetExchangePricesAndConfig(r);
    var elapsed: nat := now - r.lastUpdateTimestamp;
    IncreasesWithin(r, elapsed, p, q);
    var gs, gb := SupplyIncrease(c, elapsed), BorrowIncrease(c, elapsed);
    CreditedIs(r, gs, gb, now);
    CreditedIs(r, 0, gb, now);
    CreditedIs(r, 0, 0, now);
    assert q * (r.borrowInterest * gb) >= 0;
  }

  /** What suppliers earn at this yield against what borrowers owe. */
  ghost predicate YieldWithin(earned: nat, si: nat, bi: nat, p: nat, q: nat) {
    p * (earned * si) <= FOUR_DECIMALS * (q * bi)
  }

  /** The increases of an accrual over `elapsed` seconds, had it to apply them both. */
  lemma IncreasesWithin(r: TokenReserve, elapsed: nat, p: nat, q: nat)
    requires r.supplyExchangePrice > 0 && r.borrowExchangePrice > 0 && r.fee <= FOUR_DECIMALS
    requires r.supplyInterestFree <= r.supplyInterest
    requires YieldWithin(RatioSupplyYield(GetExchangePricesAndConfig(r)), SupplyWithInterest(r), BorrowWithInterest(r), p, q)
    ensures var c := GetExchangePricesAndConfig(r);
            var gs, gb := SupplyIncrease(c, elapsed), BorrowIncrease(c, elapsed);
            gs >= 0 && gb >= 0 && p * (r.supplyInterest * gs) <= q * (r.borrowInterest * gb)
  {
    hide GetRatio, RatioSupplyYield;
    var c := GetExchangePricesAndConfig(r);
    var sp, bp, kept: nat := r.supplyExchangePrice, r.borrowExchangePrice, FOUR_DECIMALS - r.fee;
    var gb := BorrowIncrease(c, elapsed);
    BorrowIncreaseBound(bp, c.borrowRate, elapsed, gb);
    var earned := RatioSupplyYield(c);
    SupplyTop(sp, c.borrowRate, earned, kept, elapsed);
    var gs := SupplyIncrease(c, elapsed);
    SupplyIncreaseBound(sp, c.borrowRate, earned, kept, elapsed, gs);
    CombineIncreases(r.supplyInterest, sp, r.borrowInterest, bp, earned, c.borrowRate * elapsed, gs, gb, p, q);
  }

  lemma SupplyTop(price: nat, rate: nat, earned: nat, kept: nat, elapsed: nat)
    ensures price * (rate * earned * kept) * elapsed >= 0
  {
  }

  lemma CreditedIs(r: TokenReserve, gs: nat, gb: nat, now: nat)
    ensures var n := r.(supplyExchangePrice := r.supplyExchangePrice + gs,
                        borrowExchangePrice := r.borrowExchangePrice + gb, lastUpdateTimestamp := now);
            Credited(r, n) == r.supplyInterest * gs && Charged(r, n) == r.borrowInterest * gb
  {
  }

  lemma AccrualYield(r: TokenReserve, earned: nat)
    requires Sound(r) && InterestSupply(r)
    requires earned == RatioSupplyYield(GetExchangePricesAndConfig(r))
    ensures YieldWithin(earned, SupplyWithInterest(r), BorrowWithInterest(r), BoundP(r), BoundQ(r))
  {
    hide PayingPart, GetRatio, BoundP, BoundQ;
    var c := GetExchangePricesAndConfig(r);
    var u, si, s, bi, b := r.lastStoredUtilization, SupplyWithInterest(r), TotalSupply(r), BorrowWithInterest(r), TotalBorrow(r);
    var lender, part := LenderYield(c), PayingPart(c);
    PayingPartBound(r, part, bi, b);
    assert lender * BPS_SQUARED <= u * RATE_PRECISION * FOUR_DECIMALS;
    MulAtMost(lender * FOUR_DECIMALS, u * RATE_PRECISION, si);
    MulBoth(si, s, u * RATE_PRECISION);
    YieldBound(lender, part, earned, u, si, s, bi, b, BoundP(r), BoundQ(r));
  }

  // ---------------------------------------------------------------- what accrual comes to

  /** In a market of interest alone the yield is the stored utilization, with nothing lost on the way. */
  lemma InterestOnlyYield(r: TokenReserve)
    requires r.supplyInterestFree == 0 && r.borrowInterestFree == 0
    ensures RatioSupplyYield(GetExchangePricesAndConfig(r)) == r.lastStoredUtilization
  {
    var c := GetExchangePricesAndConfig(r);
    NoRatio(r.supplyInterest);
    NoRatio(r.borrowInterest);
    var u := r.lastStoredUtilization;
    assert PayingPart(c) == RATE_PRECISION;
    DivUnique(u * RATE_PRECISION * FOUR_DECIMALS, BPS_SQUARED, u * 100_000_000_000_000);
    DivUnique(u * 100_000_000_000_000 * RATE_PRECISION * FOUR_DECIMALS, RATE_PRECISION, u * RATE_PRECISION);
    DivUnique(u * RATE_PRECISION, RATE_PRECISION, u);
  }

  lemma NoRatio(total: nat)
    ensures GetRatio(total, 0) == 0
  {
  }

  lemma DivTwice(a: nat)
    ensures a / YEAR_BPS / BPS_SQUARED == a / YEAR_BPS_FEE
  {
  }

  /** There, prices grow by the interest of the elapsed time: borrowers' rounded up, suppliers' by the utilization less
      the fee and rounded down, once. */
  lemma InterestOnlyPrices(r: TokenReserve, now: nat)
    requires r.supplyInterestFree == 0 && r.borrowInterestFree == 0 && r.fee <= FOUR_DECIMALS
    requires r.supplyExchangePrice > 0 && r.borrowExchangePrice > 0 && now >= r.lastUpdateTimestamp
    ensures var elapsed: nat := now - r.lastUpdateTimestamp;
            var kept: nat := FOUR_DECIMALS - r.fee;
            PricedAt(r, now) == Ok(r.(
              supplyExchangePrice := r.supplyExchangePrice + SupplyInterest(r.supplyExchangePrice, r.borrowRate * r.lastStoredUtilization * kept, elapsed),
              borrowExchangePrice := r.borrowExchangePrice + BorrowInterest(r.borrowExchangePrice, r.borrowRate, elapsed),
              lastUpdateTimestamp := now))
  {
    hide GetRatio, SupplyIncrease, BorrowIncrease, SupplyInterest, BorrowInterest;
    NoRatio(r.supplyInterest);
    NoRatio(r.borrowInterest);
    InterestOnlyIncreases(r, now - r.lastUpdateTimestamp);
  }

  lemma InterestOnlyIncreases(r: TokenReserve, elapsed: nat)
    requires r.supplyInterestFree == 0 && r.borrowInterestFree == 0 && r.fee <= FOUR_DECIMALS
    ensures var c := GetExchangePricesAndConfig(r);
            var rate: nat := r.borrowRate * r.lastStoredUtilization * (FOUR_DECIMALS - r.fee);
            var gs, gb := SupplyInterest(r.supplyExchangePrice, rate, elapsed), BorrowInterest(r.borrowExchangePrice, r.borrowRate, elapsed);
            && !c.supplyRatioInverse && SupplyIncrease(c, elapsed) == gs && BorrowIncrease(c, elapsed) == gb
            && (elapsed == 0 || r.borrowRate == 0 ==> gs == 0 && gb == 0)
  {
    hide RatioSupplyYield, GetRatio, DivCeil, FloorDiv, TruncDiv, DivUp, SupplyInterest, BorrowInterest;
    InterestOnlyYield(r);
    var rate: nat := r.borrowRate * r.lastStoredUtilization * (FOUR_DECIMALS - r.fee);
    SupplyInterestIs(r.supplyExchangePrice, rate, elapsed);
    BorrowInterestIs(r.borrowExchangePrice, r.borrowRate, elapsed);
  }

  function SupplyInterest(price: nat, rate: nat, elapsed: nat): nat {
    FloorDiv(price * rate * elapsed, YEAR_BPS_FEE)
  }

  function BorrowInterest(price: nat, rate: nat, elapsed: nat): nat {
    DivCeil(price * rate * elapsed, YEAR_BPS)
  }

  lemma SupplyInterestIs(price: nat, rate: nat, elapsed: nat)
    ensures TruncDiv(TruncDiv(price * rate * elapsed, YEAR_BPS), BPS_SQUARED) == SupplyInterest(price, rate, elapsed)
    ensures elapsed == 0 || rate == 0 ==> SupplyInterest(price, rate, elapsed) == 0
  {
    var top := price * rate * elapsed;
    DivTwice(top);
  }

  lemma BorrowInterestIs(price: nat, rate: nat, elapsed: nat)
    ensures DivUp(price * rate * elapsed, YEAR_BPS) == BorrowInterest(price, rate, elapsed)
    ensures elapsed == 0 || rate == 0 ==> BorrowInterest(price, rate, elapsed) == 0
  {
    var top := price * rate * elapsed;
    FloorBounds(top, YEAR_BPS);
  }

  // ---------------------------------------------------------------- revenue

  /** Revenue never overstates what the balance holds beyond what suppliers are owed and borrowers owe, and understates
      it by less than two units. */
  lemma RevenueNeverOverstated(r: TokenReserve, balance: nat)
    requires balance > 0
    ensures var excess := balance * PRICES_PRECISION - (TotalSupply(r) - TotalBorrow(r));
            var revenue := CalcRevenue(r, balance);
            && 0 <= revenue * PRICES_PRECISION <= Max(excess, 0)
            && excess < (revenue + 2) * PRICES_PRECISION
  {
    hide DivCeil, SupplyWithInterest, BorrowWithInterest;
    var up := DivCeil(SupplyWithInterest(r), PRICES_PRECISION);
    FloorBounds(BorrowWithInterest(r), PRICES_PRECISION);
  }

  /** The supply rounded up less the borrow rounded down grows by at most one when the supply gains no more. */
  lemma RoundedGap(s: nat, s': nat, b: nat, b': nat, d: nat)
    requires d > 0 && 0 <= s' - s <= b' - b
    ensures DivCeil(s', d) - b' / d <= DivCeil(s, d) - b / d + 1
  {
    hide DivCeil;
    var p, p', q, q' := DivCeil(s, d), DivCeil(s', d), FloorDiv(b, d), FloorDiv(b', d);
    assert (p' - 1) * d < p * d + (q' + 1) * d - q * d by {
      assert (p' - 1) * d == p' * d - d;
    }
    assert p * d + (q' + 1) * d - q * d == (p + q' + 1 - q) * d;
    MulCancelLess(p' - 1, p + q' + 1 - q, d);
  }
}
