/** Accrual on chain, and runs of it: `programs/liquidity/src/state/token_reserve.rs`, with the way an operation stores a
    reserve in `programs/liquidity/src/module/user.rs`. */
module ReserveAccrual {
  import opened Common
  import opened ExchangePrices
  import opened InterestConservation

  /** The chain keeps one decimal less than the resolver. */
  const CHAIN_PRECISION: nat := 100_000_000_000_000_000

  /** Whose formula gives the prices: the resolver's or the program's own. */
  datatype Formula = Resolver | OnChain

  datatype Totals = Totals(supplyInterest: nat, supplyInterestFree: nat, borrowInterest: nat, borrowInterestFree: nat)

  /** The ways prices are written back. The second renews the stored utilization and rate; an operation changes the totals
      first. New rates are what the rate model makes of the utilization. */
  datatype Update =
    | PriceOnly(now: nat)
    | PriceAndRate(now: nat, newRate: nat)
    | Operate(now: nat, totals: Totals, newRate: nat)

  // ---------------------------------------------------------------- prices on chain

  function ChainLender(r: TokenReserve): nat
    requires r.supplyInterest < r.supplyInterestFree ==> GetRatio(r.supplyInterest, r.supplyInterestFree) > 0
  {
    var ratio := GetRatio(r.supplyInterest, r.supplyInterestFree);
    if r.supplyInterest < r.supplyInterestFree then
      FloorDiv(r.lastStoredUtilization * (CHAIN_PRECISION + FloorDiv(CHAIN_PRECISION * FOUR_DECIMALS, ratio)), FOUR_DECIMALS)
    else
      FloorDiv(r.lastStoredUtilization * CHAIN_PRECISION * (FOUR_DECIMALS + ratio), BPS_SQUARED)
  }

  function ChainPart(r: TokenReserve): (part: nat)
    ensures part <= CHAIN_PRECISION
  {
    var ratio := GetRatio(r.borrowInterest, r.borrowInterestFree);
    var floor := FloorDiv(ratio * CHAIN_PRECISION, FOUR_DECIMALS + ratio);
    MulCancelLess(floor, CHAIN_PRECISION + 1, FOUR_DECIMALS + ratio);
    if r.borrowInterest < r.borrowInterestFree then floor else CHAIN_PRECISION - floor
  }

  function ChainYieldOf(lender: nat, part: nat): nat {
    lender * part / CHAIN_PRECISION * FOUR_DECIMALS / CHAIN_PRECISION
  }

  function ChainYield(r: TokenReserve): nat
    requires r.supplyInterest < r.supplyInterestFree ==> GetRatio(r.supplyInterest, r.supplyInterestFree) > 0
  {
    ChainYieldOf(ChainLender(r), ChainPart(r))
  }

  /** The increases over `elapsed` seconds, before anything is added. */
  function ChainBorrowGain(r: TokenReserve, elapsed: nat): nat {
    DivCeil(r.borrowExchangePrice * r.borrowRate * elapsed, YEAR_BPS)
  }

  function ChainSupplyGain(r: TokenReserve, earned: nat, elapsed: nat): nat
    requires r.fee <= FOUR_DECIMALS
  {
    SupplyTop(r.supplyExchangePrice, r.borrowRate, earned, FOUR_DECIMALS - r.fee, elapsed);
    r.supplyExchangePrice * (r.borrowRate * earned * (FOUR_DECIMALS - r.fee)) * elapsed / YEAR_BPS / BPS_SQUARED
  }

  /** `calculate_exchange_prices`. Prices are stored in 64 bits. */
  function CalculateExchangePrices(r: TokenReserve, now: nat): Result<Prices, PriceError> {
    if r.supplyExchangePrice == 0 || r.borrowExchangePrice == 0 then Err(ExchangePriceIsZero)
    else if now < r.lastUpdateTimestamp then Err(MathError)
    else
      var elapsed: nat := now - r.lastUpdateTimestamp;
      if elapsed == 0 || r.borrowRate == 0 || r.borrowInterest == 0 then
        Ok(Prices(r.supplyExchangePrice, r.borrowExchangePrice))
      else
        var borrow := r.borrowExchangePrice + ChainBorrowGain(r, elapsed);
        if r.supplyInterest == 0
           || (r.supplyInterest < r.supplyInterestFree && GetRatio(r.supplyInterest, r.supplyInterestFree) == 0) then
          Stored(r.supplyExchangePrice, borrow)
        else if r.fee > FOUR_DECIMALS then Err(MathError)
        else Stored(r.supplyExchangePrice + ChainSupplyGain(r, ChainYield(r), elapsed), borrow)
  }

  function Stored(supply: nat, borrow: nat): Result<Prices, PriceError> {
    if supply > U64_MAX || borrow > U64_MAX then Err(CastError) else Ok(Prices(supply, borrow))
  }

  // ---------------------------------------------------------------- storing them

  /** `update_exchange_price`. */
  function UpdateExchangePrice(f: Formula, r: TokenReserve, now: nat): Result<TokenReserve, PriceError> {
    match f
    case Resolver => PricedAt(r, now)
    case OnChain =>
      var prices :- CalculateExchangePrices(r, now);
      Ok(r.(supplyExchangePrice := prices.supply, borrowExchangePrice := prices.borrow, lastUpdateTimestamp := now))
  }

  /** The utilization of a reserve, stored with the rate it leads to. */
  function Renewed(r: TokenReserve, newRate: nat): Result<TokenReserve, PriceError> {
    var utilization :- CalcUtilization(r);
    Ok(r.(lastStoredUtilization := utilization, borrowRate := newRate))
  }

  function WithTotals(r: TokenReserve, t: Totals): TokenReserve {
    r.(supplyInterest := t.supplyInterest, supplyInterestFree := t.supplyInterestFree,
       borrowInterest := t.borrowInterest, borrowInterestFree := t.borrowInterestFree)
  }

  function Apply(f: Formula, r: TokenReserve, update: Update): Result<TokenReserve, PriceError> {
    var priced :- UpdateExchangePrice(f, r, update.now);
    match update
    case PriceOnly(_) => Ok(priced)
    case PriceAndRate(_, newRate) => Renewed(priced, newRate)
    case Operate(_, totals, newRate) => Renewed(WithTotals(priced, totals), newRate)
  }

  function RunUpdates(f: Formula, r: TokenReserve, updates: seq<Update>): Result<TokenReserve, PriceError>
    decreases |updates|
  {
    if updates == [] then Ok(r)
    else
      var next :- Apply(f, r, updates[0]);
      RunUpdates(f, next, updates[1..])
  }

  /** The reserve account, updated in place. */
  class Reserve {
    var supplyInterest: nat
    var supplyInterestFree: nat
    var borrowInterest: nat
    var borrowInterestFree: nat
    var supplyExchangePrice: nat
    var borrowExchangePrice: nat
    var borrowRate: nat
    var fee: nat
    var lastUtilization: nat
    var lastUpdateTimestamp: nat

    function Current(): TokenReserve
      reads this
    {
      TokenReserve(supplyInterest, supplyInterestFree, borrowInterest, borrowInterestFree, supplyExchangePrice,
                   borrowExchangePrice, borrowRate, fee, lastUtilization, lastUpdateTimestamp)
    }

    /** `init`: both prices at one. */
    constructor (now: nat)
      ensures Current() == TokenReserve(0, 0, 0, 0, PRICES_PRECISION, PRICES_PRECISION, 0, 0, 0, now)
      ensures Sound(Current())
    {
      supplyInterest, supplyInterestFree, borrowInterest, borrowInterestFree := 0, 0, 0, 0;
      supplyExchangePrice, borrowExchangePrice := PRICES_PRECISION, PRICES_PRECISION;
      borrowRate, fee, lastUtilization, lastUpdateTimestamp := 0, 0, 0, now;
    }

    method UpdatePrice(now: nat) returns (r: Result<(), PriceError>)
      modifies this
      ensures r.Ok? <==> Apply(OnChain, old(Current()), PriceOnly(now)).Ok?
      ensures r.Err? ==> r.error == Apply(OnChain, old(Current()), PriceOnly(now)).error
      ensures Current() == if r.Ok? then Apply(OnChain, old(Current()), PriceOnly(now)).value else old(Current())
    {
      var prices := CalculateExchangePrices(Current(), now);
      if prices.Err? {
        return Err(prices.error);
      }
      supplyExchangePrice := prices.value.supply;
      borrowExchangePrice := prices.value.borrow;
      lastUpdateTimestamp := now;
      return Ok(());
    }

    method UpdatePricesAndRates(now: nat, newRate: nat) returns (r: Result<(), PriceError>)
      modifies this
      ensures r.Ok? <==> Apply(OnChain, old(Current()), PriceAndRate(now, newRate)).Ok?
      ensures r.Err? ==> r.error == Apply(OnChain, old(Current()), PriceAndRate(now, newRate)).error
      ensures Current() == if r.Ok? then Apply(OnChain, old(Current()), PriceAndRate(now, newRate)).value else old(Current())
    {
      var prices := CalculateExchangePrices(Current(), now);
      if prices.Err? {
        return Err(prices.error);
      }
      var priced := Current().(supplyExchangePrice := prices.value.supply, borrowExchangePrice := prices.value.borrow,
                               lastUpdateTimestamp := now);
      var utilization := CalcUtilization(priced);
      if utilization.Err? {
        return Err(utilization.error);
      }
      supplyExchangePrice := prices.value.supply;
      borrowExchangePrice := prices.value.borrow;
      lastUtilization := utilization.value;
      borrowRate := newRate;
      lastUpdateTimestamp := now;
      return Ok(());
    }

    /** The reserve's side of an operation: prices by the totals before it, utilization by those after it. */
    method OperateOn(now: nat, totals: Totals, newRate: nat) returns (r: Result<(), PriceError>)
      modifies this
      ensures r.Ok? <==> Apply(OnChain, old(Current()), Operate(now, totals, newRate)).Ok?
      ensures r.Err? ==> r.error == Apply(OnChain, old(Current()), Operate(now, totals, newRate)).error
      ensures Current() == if r.Ok? then Apply(OnChain, old(Current()), Operate(now, totals, newRate)).value else old(Current())
    {
      var prices := CalculateExchangePrices(Current(), now);
      if prices.Err? {
        return Err(prices.error);
      }
      var priced := Current().(supplyExchangePrice := prices.value.supply, borrowExchangePrice := prices.value.borrow,
                               lastUpdateTimestamp := now);
      var utilization := CalcUtilization(WithTotals(priced, totals));
      if utilization.Err? {
        return Err(utilization.error);
      }
      supplyInterest, supplyInterestFree := totals.supplyInterest, totals.supplyInterestFree;
      borrowInterest, borrowInterestFree := totals.borrowInterest, totals.borrowInterestFree;
      borrowRate := newRate;
      lastUtilization := utilization.value;
      lastUpdateTimestamp := now;
      supplyExchangePrice := prices.value.supply;
      borrowExchangePrice := prices.value.borrow;
      return Ok(());
    }
  }

  // ---------------------------------------------------------------- one accrual, by either formula

  /** No supply free of interest to speak of, borrowing whose ratio is held without loss, and a utilization of 16 bits. */
  ghost predicate Plain(r: TokenReserve) {
    Sound(r) && InterestSupply(r) && r.lastStoredUtilization <= U16_MAX && RatioHolds(r.borrowInterest, r.borrowInterestFree)
  }

  /** What no update of prices touches. */
  ghost predicate SameMarket(r: TokenReserve, n: TokenReserve) {
    && n.supplyInterest == r.supplyInterest && n.supplyInterestFree == r.supplyInterestFree
    && n.borrowInterest == r.borrowInterest && n.borrowInterestFree == r.borrowInterestFree && n.fee == r.fee
  }

  ghost predicate Accrued(r: TokenReserve, n: TokenReserve) {
    && SameMarket(r, n) && n.lastStoredUtilization == r.lastStoredUtilization
    && n.supplyExchangePrice >= r.supplyExchangePrice && n.borrowExchangePrice >= r.borrowExchangePrice
    && 0 <= Credited(r, n) <= Charged(r, n)
  }

  lemma ChainPartTimesWhole(ratio: nat, floor: nat, part: nat)
    requires ratio <= FOUR_DECIMALS && part == CHAIN_PRECISION - floor
    requires ratio * CHAIN_PRECISION < (floor + 1) * (FOUR_DECIMALS + ratio)
    ensures part * (FOUR_DECIMALS + ratio) <= CHAIN_PRECISION * FOUR_DECIMALS + 2 * FOUR_DECIMALS
  {
    assert (floor + 1) * (FOUR_DECIMALS + ratio) == floor * (FOUR_DECIMALS + ratio) + FOUR_DECIMALS + ratio;
    assert part * (FOUR_DECIMALS + ratio) == CHAIN_PRECISION * (FOUR_DECIMALS + ratio) - floor * (FOUR_DECIMALS + ratio);
  }

  /** The chain's two roundings leave at most the yield of one. */
  lemma ChainYieldBound(u: nat, part: nat)
    ensures ChainYieldOf(u * 10_000_000_000_000, part) * CHAIN_PRECISION <= u * part
  {
    var w := u * part;
    assert u * 10_000_000_000_000 * part == w * 10_000_000_000_000;
    var half := w * 10_000_000_000_000 / CHAIN_PRECISION;
    assert half * FOUR_DECIMALS <= w;
  }

  lemma ChainLenderIs(u: nat)
    ensures u * CHAIN_PRECISION * FOUR_DECIMALS / BPS_SQUARED == u * 10_000_000_000_000
  {
  }

  lemma ChainYieldTimesWhole(u: nat, whole: nat, part: nat, earned: nat)
    requires u <= U16_MAX && part * whole <= CHAIN_PRECISION * FOUR_DECIMALS + 2 * FOUR_DECIMALS
    requires earned * CHAIN_PRECISION <= u * part
    ensures earned * whole <= FOUR_DECIMALS * u
  {
    MulAtMost(earned * CHAIN_PRECISION, u * part, whole);
    MulAssociate(u, part, whole);
    MulBoth(part * whole, CHAIN_PRECISION * FOUR_DECIMALS + 2 * FOUR_DECIMALS, u);
    var x := earned * whole;
    assert earned * CHAIN_PRECISION * whole == x * CHAIN_PRECISION;
  }

  /** The yield when most borrowing is free of interest. */
  lemma ChainYieldByPart(u: nat, part: nat, earned: nat, si: nat, s: nat, bi: nat, b: nat)
    requires earned * CHAIN_PRECISION <= u * part && si <= s && u * s <= FOUR_DECIMALS * b
    requires part * b <= CHAIN_PRECISION * bi
    ensures YieldWithin(earned, si, bi, 1, 1)
  {
    calc {
      (earned * si) * CHAIN_PRECISION;
      == (earned * CHAIN_PRECISION) * si;
      <= { MulAtMost(earned * CHAIN_PRECISION, u * part, si); }
      u * part * si;
      <= { MulBoth(si, s, u * part); }
      u * part * s;
      == part * (u * s);
      <= { MulBoth(u * s, FOUR_DECIMALS * b, part); }
      part * (FOUR_DECIMALS * b);
      == FOUR_DECIMALS * (part * b);
      <= FOUR_DECIMALS * (CHAIN_PRECISION * bi);
    }
  }

  lemma ChainYieldWithin(r: TokenReserve)
    requires Plain(r)
    ensures YieldWithin(ChainYield(r), SupplyWithInterest(r), BorrowWithInterest(r), 1, 1)
  {
    var raw, free, price := r.borrowInterest, r.borrowInterestFree, r.borrowExchangePrice;
    var u, ratio, part, earned := r.lastStoredUtilization, GetRatio(raw, free), ChainPart(r), ChainYield(r);
    var floor := FloorDiv(ratio * CHAIN_PRECISION, FOUR_DECIMALS + ratio);
    var si, s, bi, b := SupplyWithInterest(r), TotalSupply(r), BorrowWithInterest(r), TotalBorrow(r);
    assert part == if raw < free then floor else CHAIN_PRECISION - floor;
    assert ratio * Max(raw, free) <= FOUR_DECIMALS * Min(raw, free);
    ChainLenderIs(u);
    ChainYieldBound(u, part);
    assert earned == ChainYieldOf(u * 10_000_000_000_000, part);
    TotalsAre(r);
    MulBoth(PRICES_PRECISION, price, raw);
    hide GetRatio, ChainPart, ChainYieldOf, TotalSupply, TotalBorrow, SupplyWithInterest;
    if raw < free {
      MostlyFreeBorrow(ratio, 10 * floor, raw, free, bi, b);
      TenTimes(floor, b, bi);
      ChainYieldByPart(u, part, earned, si, s, bi, b);
    } else {
      RatioHeld(raw, free);
      ChainPartTimesWhole(ratio, floor, part);
      ChainYieldTimesWhole(u, FOUR_DECIMALS + ratio, part, earned);
      WholeOfBorrow(ratio, raw, free, price, bi, b);
      YieldByWhole(earned, FOUR_DECIMALS + ratio, u, si, s, bi, b);
    }
  }

  lemma TenTimes(part: nat, b: nat, bi: nat)
    requires 10 * part * b <= RATE_PRECISION * bi
    ensures part * b <= CHAIN_PRECISION * bi
  {
    var w := part * b;
    assert 10 * part * b == 10 * w;
  }

  lemma RatioHeld(raw: nat, free: nat)
    requires RatioHolds(raw, free) && free <= raw
    ensures GetRatio(raw, free) * raw == free * FOUR_DECIMALS
  {
    if free > 0 {
      RatioExact(raw, free);
    } else {
      NoRatio(raw);
    }
  }

  lemma GainsWithin(r: TokenReserve, earned: nat, elapsed: nat)
    requires r.fee <= FOUR_DECIMALS && YieldWithin(earned, SupplyWithInterest(r), BorrowWithInterest(r), 1, 1)
    ensures r.supplyInterest * ChainSupplyGain(r, earned, elapsed) <= r.borrowInterest * ChainBorrowGain(r, elapsed)
  {
    var sp, bp, kept: nat := r.supplyExchangePrice, r.borrowExchangePrice, FOUR_DECIMALS - r.fee;
    var gs, gb := ChainSupplyGain(r, earned, elapsed), ChainBorrowGain(r, elapsed);
    SupplyIncreaseBound(sp, r.borrowRate, earned, kept, elapsed, gs);
    assert bp * r.borrowRate * elapsed == bp * (r.borrowRate * elapsed);
    hide DivCeil, ChainSupplyGain, ChainBorrowGain;
    CombineIncreases(r.supplyInterest, sp, r.borrowInterest, bp, earned, r.borrowRate * elapsed, gs, gb, 1, 1);
  }

  /** On chain too, an accrual credits at most what it charges. */
  lemma ChainAccrues(r: TokenReserve, now: nat)
    requires Plain(r) && UpdateExchangePrice(OnChain, r, now).Ok?
    ensures Accrued(r, UpdateExchangePrice(OnChain, r, now).value)
  {
    ChainYieldWithin(r);
    hide Sound, RatioHolds, GetRatio, ChainYield, ChainSupplyGain, ChainBorrowGain, Credited, Charged, YieldWithin;
    SoundPrices(r);
    var elapsed: nat := now - r.lastUpdateTimestamp;
    var gs, gb := ChainSupplyGain(r, ChainYield(r), elapsed), ChainBorrowGain(r, elapsed);
    GainsWithin(r, ChainYield(r), elapsed);
    CreditedIs(r, gs, gb, now);
    CreditedIs(r, 0, gb, now);
    CreditedIs(r, 0, 0, now);
    MulBoth(0, gs, r.supplyInterest);
    MulBoth(0, gb, r.borrowInterest);
  }

  lemma ResolverAccrues(r: TokenReserve, now: nat)
    requires Plain(r) && now >= r.lastUpdateTimestamp && UpdateExchangePrice(Resolver, r, now).Ok?
    ensures Accrued(r, UpdateExchangePrice(Resolver, r, now).value)
  {
    hide GetRatio, RatioSupplyYield, PricedAt, Credited, Charged, CalculateExchangePrice, Sound, YieldWithin;
    ResolverYieldWithin(r);
    SoundPrices(r);
    AccrualWithin(r, now, 1, 1);
    PricedKeeps(r, now);
    CreditedNonNegative(r, PricedAt(r, now).value);
  }

  lemma PricedKeeps(r: TokenReserve, now: nat)
    requires PricedAt(r, now).Ok?
    ensures SameMarket(r, PricedAt(r, now).value)
    ensures PricedAt(r, now).value.lastStoredUtilization == r.lastStoredUtilization
  {
    hide CalculateExchangePrice;
  }

  lemma ResolverYieldWithin(r: TokenReserve)
    requires Plain(r)
    ensures YieldWithin(RatioSupplyYield(GetExchangePricesAndConfig(r)), SupplyWithInterest(r), BorrowWithInterest(r), 1, 1)
  {
    if r.borrowInterestFree == 0 || r.borrowInterest < r.borrowInterestFree {
      hide GetRatio, RatioSupplyYield;
      AccrualYield(r, RatioSupplyYield(GetExchangePricesAndConfig(r)));
    } else {
      hide GetRatio, RatioSupplyYield;
      ExactRatioYield(r);
    }
  }

  lemma CreditedNonNegative(r: TokenReserve, n: TokenReserve)
    requires SameMarket(r, n)
    requires n.supplyExchangePrice >= r.supplyExchangePrice && n.borrowExchangePrice >= r.borrowExchangePrice
    ensures Credited(r, n) >= 0 && Charged(r, n) >= 0
  {
    MulBoth(r.supplyExchangePrice, n.supplyExchangePrice, r.supplyInterest);
    MulBoth(r.borrowExchangePrice, n.borrowExchangePrice, r.borrowInterest);
  }

  // ---------------------------------------------------------------- runs of updates and operations

  /** Clocks do not go back, a utilization above 100% is not kept across an update, and operations keep the totals such
      that the ratios in use lose nothing. */
  ghost predicate Orderly(f: Formula, r: TokenReserve, updates: seq<Update>)
    decreases |updates|
  {
    updates != [] ==>
      && updates[0].now >= r.lastUpdateTimestamp
      && (updates[0].PriceOnly? ==> r.lastStoredUtilization <= FOUR_DECIMALS)
      && (updates[0].Operate? ==>
            var t := updates[0].totals;
            && t.supplyInterestFree <= t.supplyInterest && GetRatio(t.supplyInterest, t.supplyInterestFree) == 0
            && RatioHolds(t.borrowInterest, t.borrowInterestFree))
      && (Apply(f, r, updates[0]).Ok? ==> Orderly(f, Apply(f, r, updates[0]).value, updates[1..]))
  }

  lemma UtilizationSurvives(u: nat, s: nat, b: nat, credited: nat, charged: nat)
    requires u <= FOUR_DECIMALS && u * s <= FOUR_DECIMALS * b && credited <= charged
    ensures u * (s + credited) <= FOUR_DECIMALS * (b + charged)
  {
    MulAtMost(u, FOUR_DECIMALS, credited);
  }

  lemma UtilizationRenewed(r: TokenReserve)
    requires CalcUtilization(r).Ok?
    ensures CalcUtilization(r).value * TotalSupply(r) <= FOUR_DECIMALS * TotalBorrow(r)
    ensures CalcUtilization(r).value <= U16_MAX
  {
    if TotalSupply(r) > 0 {
      FloorBounds(TotalBorrow(r) * FOUR_DECIMALS, TotalSupply(r));
    }
  }

  lemma TotalsMove(r: TokenReserve, n: TokenReserve)
    requires SameMarket(r, n)
    ensures TotalSupply(n) == TotalSupply(r) + Credited(r, n)
    ensures TotalBorrow(n) == TotalBorrow(r) + Charged(r, n)
  {
  }

  /** What an update of the rates stores: the rate it is given, and the utilization of the market in basis points, rounded
      down, which fails exactly when it does not fit its width. */
  lemma RenewedIs(r: TokenReserve, newRate: nat)
    ensures var total, lent := TotalSupply(r), TotalBorrow(r);
            && (Renewed(r, newRate).Ok? <==> total == 0 || FOUR_DECIMALS * lent < (U16_MAX + 1) * total)
            && (Renewed(r, newRate).Ok? ==>
                  var n := Renewed(r, newRate).value;
                  && SameMarket(r, n) && n.borrowRate == newRate && n.lastUpdateTimestamp == r.lastUpdateTimestamp
                  && n.supplyExchangePrice == r.supplyExchangePrice && n.borrowExchangePrice == r.borrowExchangePrice
                  && if total == 0 then n.lastStoredUtilization == 0
                     else n.lastStoredUtilization * total <= FOUR_DECIMALS * lent < (n.lastStoredUtilization + 1) * total)
  {
    hide TotalSupply, TotalBorrow;
    var total := TotalSupply(r);
    if total > 0 {
      var utilization := FloorDiv(TotalBorrow(r) * FOUR_DECIMALS, total);
      if utilization <= U16_MAX {
        MulAtMost(utilization + 1, U16_MAX + 1, total);
      } else {
        MulAtMost(U16_MAX + 1, utilization, total);
      }
    }
  }

  /** Storing a fresh utilization makes any reserve sound again. */
  lemma RenewedSound(r: TokenReserve, newRate: nat)
    requires r.supplyExchangePrice > 0 && r.borrowExchangePrice >= PRICES_PRECISION && r.fee <= FOUR_DECIMALS
    requires Renewed(r, newRate).Ok?
    ensures Sound(Renewed(r, newRate).value) && Renewed(r, newRate).value.lastStoredUtilization <= U16_MAX
    ensures SameMarket(r, Renewed(r, newRate).value)
  {
    hide CalcUtilization;
    UtilizationRenewed(r);
    SameTotals(r, Renewed(r, newRate).value);
  }

  lemma SameTotals(r: TokenReserve, n: TokenReserve)
    requires SameMarket(r, n) && n.supplyExchangePrice == r.supplyExchangePrice && n.borrowExchangePrice == r.borrowExchangePrice
    ensures TotalSupply(n) == TotalSupply(r) && TotalBorrow(n) == TotalBorrow(r)
  {
  }

  lemma KeptSound(r: TokenReserve, n: TokenReserve)
    requires Plain(r) && Accrued(r, n) && r.lastStoredUtilization <= FOUR_DECIMALS
    ensures Sound(n)
  {
    hide TotalSupply, TotalBorrow, Credited, Charged;
    TotalsMove(r, n);
    UtilizationSurvives(r.lastStoredUtilization, TotalSupply(r), TotalBorrow(r), Credited(r, n), Charged(r, n));
  }

  lemma Accrues(f: Formula, r: TokenReserve, now: nat)
    requires Plain(r) && now >= r.lastUpdateTimestamp && UpdateExchangePrice(f, r, now).Ok?
    ensures Accrued(r, UpdateExchangePrice(f, r, now).value)
  {
    hide Plain, Accrued, PricedAt;
    match f
    case Resolver => ResolverAccrues(r, now);
    case OnChain => ChainAccrues(r, now);
  }

  /** Each kind of update credits at most what it charges and leaves a market in which the next one does. */
  lemma UpdateSafe(f: Formula, r: TokenReserve, update: Update)
    requires Plain(r) && Orderly(f, r, [update]) && Apply(f, r, update).Ok?
    ensures UpdateExchangePrice(f, r, update.now).Ok? && Accrued(r, UpdateExchangePrice(f, r, update.now).value)
    ensures Plain(Apply(f, r, update).value)
  {
    hide UpdateExchangePrice, GetRatio, CalcUtilization, Credited, Charged, UtilizationHolds;
    Accrues(f, r, update.now);
    var p := UpdateExchangePrice(f, r, update.now).value;
    match update
    case PriceOnly(_) => KeptSound(r, p);
    case PriceAndRate(_, newRate) => RenewedSound(p, newRate);
    case Operate(_, totals, newRate) => RenewedSound(WithTotals(p, totals), newRate);
  }

  /** The interest credited and charged by the accruals of a run. */
  ghost function CreditedBy(f: Formula, r: TokenReserve, updates: seq<Update>): int
    requires RunUpdates(f, r, updates).Ok?
    decreases |updates|
  {
    if updates == [] then 0
    else
      Credited(r, UpdateExchangePrice(f, r, updates[0].now).value)
      + CreditedBy(f, Apply(f, r, updates[0]).value, updates[1..])
  }

  ghost function ChargedBy(f: Formula, r: TokenReserve, updates: seq<Update>): int
    requires RunUpdates(f, r, updates).Ok?
    decreases |updates|
  {
    if updates == [] then 0
    else
      Charged(r, UpdateExchangePrice(f, r, updates[0].now).value)
      + ChargedBy(f, Apply(f, r, updates[0]).value, updates[1..])
  }

  /** Over any run of updates, deposits, withdrawals, borrowing and payback, at any times and rates and by either formula,
      suppliers are credited no more than borrowers are charged. */
  lemma {:induction false} RunConserves(f: Formula, r: TokenReserve, updates: seq<Update>)
    requires Plain(r) && Orderly(f, r, updates) && RunUpdates(f, r, updates).Ok?
    ensures Plain(RunUpdates(f, r, updates).value)
    ensures 0 <= CreditedBy(f, r, updates) <= ChargedBy(f, r, updates)
    decreases |updates|
  {
    hide Apply, Plain, UpdateExchangePrice, Credited, Charged, SameMarket, GetRatio, RatioHolds;
    if updates != [] {
      assert Orderly(f, r, [updates[0]]);
      UpdateSafe(f, r, updates[0]);
      RunConserves(f, Apply(f, r, updates[0]).value, updates[1..]);
    }
  }

  // ---------------------------------------------------------------- revenue

  ghost predicate NoOperations(updates: seq<Update>) {
    forall k :: 0 <= k < |updates| ==> !updates[k].Operate?
  }

  /** Without operations, what the run credited and charged is what the market's amounts have moved by. */
  lemma {:induction false} AmountsMove(f: Formula, r: TokenReserve, updates: seq<Update>)
    requires Plain(r) && Orderly(f, r, updates) && RunUpdates(f, r, updates).Ok? && NoOperations(updates)
    ensures var n := RunUpdates(f, r, updates).value;
            && SameMarket(r, n)
            && Credited(r, n) == CreditedBy(f, r, updates) && Charged(r, n) == ChargedBy(f, r, updates)
    decreases |updates|
  {
    if updates != [] {
      assert Orderly(f, r, [updates[0]]);
      UpdateSafe(f, r, updates[0]);
      hide Plain, UpdateExchangePrice, GetRatio, RatioHolds, CalcUtilization;
      var p, n := UpdateExchangePrice(f, r, updates[0].now).value, Apply(f, r, updates[0]).value;
      AmountsMove(f, n, updates[1..]);
    }
  }

  /** Against a fixed balance the revenue over a whole run of updates drops by at most one unit, however long it is. */
  lemma RevenueKept(f: Formula, r: TokenReserve, updates: seq<Update>, balance: nat)
    requires Plain(r) && Orderly(f, r, updates) && RunUpdates(f, r, updates).Ok? && NoOperations(updates)
    ensures CalcRevenue(RunUpdates(f, r, updates).value, balance) >= CalcRevenue(r, balance) - 1
  {
    hide RunUpdates, Orderly, Plain, DivCeil;
    RunConserves(f, r, updates);
    AmountsMove(f, r, updates);
    var n := RunUpdates(f, r, updates).value;
    RoundedGap(SupplyWithInterest(r), SupplyWithInterest(n), BorrowWithInterest(r), BorrowWithInterest(n), PRICES_PRECISION);
  }
}
