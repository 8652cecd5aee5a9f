/** The share price as the test resolver means it: `_calculateNewTokenExchangePrice` and `getRateInfo` in
    `test-utils/typescript/lending/resolver.ts`, on fields of the rate model that are numbers. On an account it fetches they
    are BN, whose sum with `+` joins decimal strings; that reading is not modelled. */
module ResolverRewards {
  import opened Common
  import opened RewardPeriods

  const RETURN_PERCENT_PRECISION: nat := 1_000_000_000_000_000_000
  const TWO_TO_53: nat := 0x20_0000_0000_0000

  /** The integers a `number` holds exactly. */
  type Number = x: nat | x < TWO_TO_53

  datatype Lending = Lending(tokenExchangePrice: nat, liquidityExchangePrice: nat, lastUpdateTimestamp: Number)

  datatype RateModel = RateModel(startTime: Number, duration: Number, startTvl: nat, yearlyReward: nat,
                                 nextRewardAmount: nat, nextDuration: nat)

  /** `new BN(n)`, which throws on a number that may not be exact. */
  function FromNumber(n: nat): Result<nat, RewardError> {
    if n >= TWO_TO_53 then Err(NumberTooLarge) else Ok(n)
  }

  /** A rate for `reward` a year on `totalAssets`. */
  function RateOf(reward: nat, totalAssets: nat): Result<nat, RewardError> {
    var assets :- FromNumber(totalAssets);
    if assets == 0 then Err(DivisionByZero) else Ok(reward * RETURN_PERCENT_PRECISION / assets)
  }

  function CurrentRate(m: RateModel, totalAssets: nat, rateNow: nat): Result<nat, RewardError> {
    if 0 < m.startTime <= rateNow <= m.startTime + m.duration && totalAssets >= m.startTvl then
      RateOf(m.yearlyReward, totalAssets)
    else Ok(0)
  }

  function NextRate(m: RateModel, totalAssets: nat): Result<nat, RewardError> {
    if totalAssets >= m.startTvl then
      var amount :- FromNumber(m.nextRewardAmount);
      var duration :- FromNumber(m.nextDuration);
      if duration == 0 then Err(DivisionByZero)
      else RateOf(amount * SECONDS_PER_YEAR / duration, totalAssets)
    else Ok(0)
  }

  /** `getRateInfo`, which reads the wall clock as `rateNow`. */
  function GetRateInfo(m: RateModel, totalAssets: nat, rateNow: nat): Result<RateInfo, RewardError> {
    var end := m.startTime + m.duration;
    var current :- CurrentRate(m, totalAssets, rateNow);
    if m.nextRewardAmount > 0 && m.nextDuration > 0 then
      var next :- NextRate(m, totalAssets);
      Ok(RateInfo(current, m.startTime, end, next, end, end + m.nextDuration))
    else
      Ok(RateInfo(current, m.startTime, end, 0, 0, 0))
  }

  // ---------------------------------------------------------------- what is meant

  predicate RewardsEnded(info: RateInfo, now: nat) {
    && (info.currentStart == 0 || now > info.currentEnd)
    && (info.nextStart == 0 || info.nextEnd == 0 || now > info.nextEnd)
  }

  function TotalAssets(lending: Lending, totalSupply: nat): nat {
    lending.tokenExchangePrice * totalSupply / PRICES_PRECISION
  }

  /** Rewards are left out when there is no model, or when asking it for its rates throws. */
  function RewardsOf(lending: Lending, model: Option<RateModel>, totalSupply: nat, now: nat, rateNow: nat): (nat, bool) {
    if model.None? then (0, false)
    else
      match GetRateInfo(model.value, TotalAssets(lending, totalSupply), rateNow)
      case Err(_) => (0, false)
      case Ok(info) => (RewardsReturn(info, lending.lastUpdateTimestamp, now), RewardsEnded(info, now))
  }

  function LiquidityReturn(oldPrice: nat, newPrice: nat): nat
    requires 0 < oldPrice <= newPrice
  {
    (newPrice - oldPrice) * RETURN_PERCENT_PRECISION / oldPrice
  }

  function PriceAfter(price: nat, totalReturn: nat): nat {
    price + price * totalReturn / RETURN_PERCENT_PRECISION
  }

  function NewTokenExchangePrice(newLiquidityPrice: nat, lending: Lending, model: Option<RateModel>, totalSupply: nat,
                                 now: nat, rateNow: nat): Result<(nat, bool), RewardError> {
    if newLiquidityPrice < lending.liquidityExchangePrice then Err(LiquidityExchangePriceUnexpected)
    else if lending.liquidityExchangePrice == 0 then Err(DivisionByZero)
    else
      var (rewards, ended) := RewardsOf(lending, model, totalSupply, now, rateNow);
      Ok((PriceAfter(lending.tokenExchangePrice,
                     rewards + LiquidityReturn(lending.liquidityExchangePrice, newLiquidityPrice)), ended))
  }

  // ---------------------------------------------------------------- how it is computed

  method CalculateNewTokenExchangePrice(newLiquidityPrice: nat, lending: Lending, model: Option<RateModel>,
                                        totalSupply: nat, now: Number, rateNow: nat)
    returns (r: Result<(nat, bool), RewardError>)
    ensures r == NewTokenExchangePrice(newLiquidityPrice, lending, model, totalSupply, now, rateNow)
  {
    if newLiquidityPrice < lending.liquidityExchangePrice {
      return Err(LiquidityExchangePriceUnexpected);
    }
    var totalRewardsReturn, rewardsEnded := 0, false;
    if model.Some? {
      var info := GetRateInfo(model.value, TotalAssets(lending, totalSupply), rateNow);
      if info.Ok? {
        RatesInSequence(model.value, TotalAssets(lending, totalSupply), rateNow);
        totalRewardsReturn := AccrueRewards(info.value, lending.lastUpdateTimestamp, now);
        rewardsEnded := RewardsEnded(info.value, now);
      }
    }
    if lending.liquidityExchangePrice == 0 {
      return Err(DivisionByZero);
    }
    var liquidityReturn := LiquidityReturn(lending.liquidityExchangePrice, newLiquidityPrice);
    return Ok((PriceAfter(lending.tokenExchangePrice, totalRewardsReturn + liquidityReturn), rewardsEnded));
  }

  // ---------------------------------------------------------------- properties

  /** Whatever a rate model gives, every second since the last update pays at most one of its two rates. */
  lemma NeverCountedTwice(m: RateModel, totalAssets: nat, rateNow: nat, last: nat, now: nat)
    requires GetRateInfo(m, totalAssets, rateNow).Ok? && last <= now
    ensures var info := GetRateInfo(m, totalAssets, rateNow).value;
            && SecondsPaid(info, last, now) <= now - last
            && RewardsReturn(info, last, now)
            <= Max(EffectiveRate(info.currentRate), EffectiveRate(info.nextRate)) * SecondsPaid(info, last, now) / SECONDS_PER_YEAR
  {
    hide CurrentRate, NextRate, RewardsReturn, SecondsPaid, EffectiveRate;
    RatesInSequence(m, totalAssets, rateNow);
    PaidOnce(GetRateInfo(m, totalAssets, rateNow).value, last, now);
  }

  lemma RatesInSequence(m: RateModel, totalAssets: nat, rateNow: nat)
    requires GetRateInfo(m, totalAssets, rateNow).Ok?
    ensures InSequence(GetRateInfo(m, totalAssets, rateNow).value)
  {
    hide RateOf, NextRate;
  }

  /** The share price never falls. It fails to come out only when Liquidity's own price fell or was zero. */
  lemma TokenPriceNeverFalls(newLiquidityPrice: nat, lending: Lending, model: Option<RateModel>, totalSupply: nat,
                             now: nat, rateNow: nat)
    ensures var r := NewTokenExchangePrice(newLiquidityPrice, lending, model, totalSupply, now, rateNow);
            && (r.Ok? <==> 0 < lending.liquidityExchangePrice <= newLiquidityPrice)
            && (r.Ok? ==> r.value.0 >= lending.tokenExchangePrice)
  {
    hide RewardsOf;
    var was := lending.liquidityExchangePrice;
    if 0 < was <= newLiquidityPrice {
      var total := RewardsOf(lending, model, totalSupply, now, rateNow).0 + LiquidityReturn(was, newLiquidityPrice);
      assert lending.tokenExchangePrice * total >= 0;
    }
  }

  /** The assets the rates are worked out on: what the shares are worth at the old price, rounded down. */
  lemma AssetsAre(lending: Lending, totalSupply: nat)
    ensures var assets := TotalAssets(lending, totalSupply);
            assets * PRICES_PRECISION <= lending.tokenExchangePrice * totalSupply < (assets + 1) * PRICES_PRECISION
  {
    var worth := lending.tokenExchangePrice * totalSupply;
    FloorBounds(worth, PRICES_PRECISION);
  }

  /** Whether a model pays for its current period at the time its rates are asked for. */
  predicate Running(m: RateModel, totalAssets: nat, rateNow: nat) {
    0 < m.startTime <= rateNow <= m.startTime + m.duration && totalAssets >= m.startTvl
  }

  /** The rates and periods of a model, two-sided from rewards, times and assets, and exactly when they are thrown away. */
  lemma RatesAre(m: RateModel, totalAssets: nat, rateNow: nat)
    ensures var r := GetRateInfo(m, totalAssets, rateNow);
            var queued := m.nextRewardAmount > 0 && m.nextDuration > 0;
            var asked := Running(m, totalAssets, rateNow) || (queued && totalAssets >= m.startTvl);
            && (r.Ok? <==>
                  && (asked ==> 0 < totalAssets < TWO_TO_53)
                  && (queued && totalAssets >= m.startTvl ==> m.nextRewardAmount < TWO_TO_53 && m.nextDuration < TWO_TO_53))
            && (r.Ok? ==>
                  && r.value.currentStart == m.startTime && r.value.currentEnd == m.startTime + m.duration
                  && (if Running(m, totalAssets, rateNow) then
                        r.value.currentRate * totalAssets <= m.yearlyReward * RETURN_PERCENT_PRECISION < (r.value.currentRate + 1) * totalAssets
                      else r.value.currentRate == 0)
                  && (if queued then
                        && r.value.nextStart == r.value.currentEnd && r.value.nextEnd == r.value.nextStart + m.nextDuration
                        && (totalAssets < m.startTvl ==> r.value.nextRate == 0)
                        && (totalAssets >= m.startTvl ==>
                              var due := m.nextRewardAmount * SECONDS_PER_YEAR * RETURN_PERCENT_PRECISION;
                              r.value.nextRate * totalAssets * m.nextDuration <= due
                                < (r.value.nextRate + 1) * totalAssets * m.nextDuration + m.nextDuration * RETURN_PERCENT_PRECISION)
                      else r.value.nextRate == 0 && r.value.nextStart == 0 && r.value.nextEnd == 0))
  {
    hide RateOf;
    RateOfIs(m.yearlyReward, totalAssets);
    if m.nextDuration > 0 {
      RateOfIs(m.nextRewardAmount * SECONDS_PER_YEAR / m.nextDuration, totalAssets);
      if 0 < totalAssets < TWO_TO_53 {
        RateOfPeriod(m.nextRewardAmount, m.nextDuration, totalAssets);
      }
    }
  }

  lemma RateOfIs(reward: nat, totalAssets: nat)
    ensures RateOf(reward, totalAssets).Ok? <==> 0 < totalAssets < TWO_TO_53
    ensures RateOf(reward, totalAssets).Ok? ==>
              RateOf(reward, totalAssets).value * totalAssets <= reward * RETURN_PERCENT_PRECISION
                < (RateOf(reward, totalAssets).value + 1) * totalAssets
  {
    if totalAssets > 0 {
      FloorBounds(reward * RETURN_PERCENT_PRECISION, totalAssets);
      var rate := reward * RETURN_PERCENT_PRECISION / totalAssets;
      assert (rate + 1) * totalAssets == rate * totalAssets + totalAssets;
    }
  }

  lemma RateOfPeriod(amount: nat, duration: nat, totalAssets: nat)
    requires duration > 0 && 0 < totalAssets < TWO_TO_53
    ensures var r := RateOf(amount * SECONDS_PER_YEAR / duration, totalAssets);
            && r.Ok?
            && r.value * totalAssets * duration <= amount * SECONDS_PER_YEAR * RETURN_PERCENT_PRECISION
            && amount * SECONDS_PER_YEAR * RETURN_PERCENT_PRECISION
             < (r.value + 1) * totalAssets * duration + duration * RETURN_PERCENT_PRECISION
  {
    var yearly := FloorDiv(amount * SECONDS_PER_YEAR, duration);
    RateOfIs(yearly, totalAssets);
    var rate := RateOf(yearly, totalAssets).value;
    hide RateOf, FloorDiv;
    var scaled := yearly * RETURN_PERCENT_PRECISION;
    MulAtMost(rate * totalAssets, scaled, duration);
    MulAtMost(scaled, (rate + 1) * totalAssets, duration);
    assert scaled * duration == yearly * duration * RETURN_PERCENT_PRECISION;
    assert (yearly + 1) * duration == yearly * duration + duration;
  }

  /** Rewards have ended exactly when both periods lie wholly in the past, or are none; nothing is paid from then on. */
  lemma EndedExactly(info: RateInfo, now: nat)
    requires InSequence(info)
    ensures RewardsEnded(info, now) <==>
      !(info.currentStart > 0 && now <= info.currentEnd) && !(info.nextStart > 0 && now <= info.nextEnd)
    ensures RewardsEnded(info, now) ==> forall later: nat :: RewardsReturn(info, now, later) == 0
  {
    if RewardsEnded(info, now) {
      forall later: nat
        ensures RewardsReturn(info, now, later) == 0
      {
        hide Prorate;
        NothingProrated(info, now, later);
        assert info.currentStart > 0 ==> Overlap(now, later, info.currentStart, info.currentEnd) == 0;
        assert info.nextStart > 0 ==> Overlap(now, later, info.nextStart, info.nextEnd) == 0;
      }
    }
  }

  /** The new price from what the two returns are made of: the rewards, and Liquidity's rise over its old price. */
  lemma TokenPriceIs(newLiquidityPrice: nat, lending: Lending, model: Option<RateModel>, totalSupply: nat, now: nat,
                     rateNow: nat)
    requires 0 < lending.liquidityExchangePrice <= newLiquidityPrice
    ensures var n := NewTokenExchangePrice(newLiquidityPrice, lending, model, totalSupply, now, rateNow).value.0;
            n >= lending.tokenExchangePrice
            && GainIs(lending.tokenExchangePrice, lending.liquidityExchangePrice,
                      newLiquidityPrice - lending.liquidityExchangePrice,
                      RewardsOf(lending, model, totalSupply, now, rateNow).0, n - lending.tokenExchangePrice,
                      RETURN_PERCENT_PRECISION)
  {
    TokenPriceNeverFalls(newLiquidityPrice, lending, model, totalSupply, now, rateNow);
    hide RewardsOf, GainIs;
    var t, was := lending.tokenExchangePrice, lending.liquidityExchangePrice;
    var rewards, gain := RewardsOf(lending, model, totalSupply, now, rateNow).0, LiquidityReturn(was, newLiquidityPrice);
    GainBetween(t, was, newLiquidityPrice - was, rewards, gain, t * (rewards + gain) / RETURN_PERCENT_PRECISION,
                RETURN_PERCENT_PRECISION);
  }

  /** Without rewards the share price grows no faster than Liquidity's, and slower only by roundings. */
  lemma NoRewardsNoExcess(newLiquidityPrice: nat, lending: Lending, totalSupply: nat, now: nat, rateNow: nat)
    requires 0 < lending.liquidityExchangePrice <= newLiquidityPrice
    ensures var t, was := lending.tokenExchangePrice, lending.liquidityExchangePrice;
            var n := NewTokenExchangePrice(newLiquidityPrice, lending, None, totalSupply, now, rateNow).value.0;
            && n * was <= t * newLiquidityPrice
            && t * newLiquidityPrice * RETURN_PERCENT_PRECISION < (n + 1) * was * RETURN_PERCENT_PRECISION + t * was
  {
    TokenPriceIs(newLiquidityPrice, lending, None, totalSupply, now, rateNow);
    hide NewTokenExchangePrice, GainIs;
    var t, was := lending.tokenExchangePrice, lending.liquidityExchangePrice;
    var n := NewTokenExchangePrice(newLiquidityPrice, lending, None, totalSupply, now, rateNow).value.0;
    GainAlone(t, was, newLiquidityPrice - was, n - t, RETURN_PERCENT_PRECISION);
  }

  // ---------------------------------------------------------------- the maximum rate

  /** A positive reward pays nothing over any stretch of its period if and only if its rate is above the maximum. */
  lemma RewardUnpaidExactly(reward: nat, totalAssets: nat)
    requires reward > 0 && RateOf(reward, totalAssets).Ok?
    ensures var rate := RateOf(reward, totalAssets).value;
            (forall seconds: nat :: PeriodReturn(rate, seconds) == 0)
            <==> reward * RETURN_PERCENT_PRECISION / totalAssets > MAX_REWARDS_RATE
  {
    hide Prorate;
    var rate := RateOf(reward, totalAssets).value;
    RateIsPositive(reward, totalAssets);
    if rate > MAX_REWARDS_RATE {
      forall seconds: nat
        ensures PeriodReturn(rate, seconds) == 0
      {
        NothingAtZero(seconds);
      }
    } else {
      YearPays(rate);
      assert PeriodReturn(rate, SECONDS_PER_YEAR) == rate;
    }
  }

  lemma RateIsPositive(reward: nat, totalAssets: nat)
    requires reward > 0 && 0 < totalAssets < TWO_TO_53
    ensures reward * RETURN_PERCENT_PRECISION / totalAssets > 0
  {
    DivMonotone(totalAssets, reward * RETURN_PERCENT_PRECISION, totalAssets);
  }

  lemma NothingAtZero(seconds: nat)
    ensures Prorate(0, seconds) == 0
  {
  }

  lemma YearPays(rate: nat)
    ensures Prorate(rate, SECONDS_PER_YEAR) == rate
  {
  }

  /** So a tenth of a percent a year is already too much: at eighteen decimals the maximum is one part in twenty thousand. */
  lemma MaximumInShares(reward: nat, totalAssets: nat)
    requires totalAssets > 0
    ensures reward * RETURN_PERCENT_PRECISION / totalAssets > MAX_REWARDS_RATE <==>
            reward * RETURN_PERCENT_PRECISION >= (MAX_REWARDS_RATE + 1) * totalAssets
    ensures reward * 20_000 <= totalAssets ==> reward * RETURN_PERCENT_PRECISION / totalAssets <= MAX_REWARDS_RATE
    ensures reward * 1_000 >= totalAssets ==> reward * RETURN_PERCENT_PRECISION / totalAssets > MAX_REWARDS_RATE
  {
    var top := reward * RETURN_PERCENT_PRECISION;
    var rate := FloorDiv(top, totalAssets);
    if rate > MAX_REWARDS_RATE {
      MulAtMost(MAX_REWARDS_RATE + 1, rate, totalAssets);
    } else {
      MulAtMost(rate + 1, MAX_REWARDS_RATE + 1, totalAssets);
    }
  }

  /** A market of a million tokens of six decimals with a thousand a year in rewards is paid none of them. */
  lemma ThousandOnAMillionUnpaid()
    ensures var m := RateModel(1_700_000_000, SECONDS_PER_YEAR, 0, 1_000_000_000, 0, 0);
            var info := GetRateInfo(m, 1_000_000_000_000, 1_710_000_000);
            && info.Ok? && info.value.currentRate == 1_000_000_000_000_000
            && forall last: nat, now: nat :: RewardsReturn(info.value, last, now) == 0
  {
    var m := RateModel(1_700_000_000, SECONDS_PER_YEAR, 0, 1_000_000_000, 0, 0);
    var info := GetRateInfo(m, 1_000_000_000_000, 1_710_000_000).value;
    forall last: nat, now: nat
      ensures RewardsReturn(info, last, now) == 0
    {
      NothingAtZero(Overlap(last, now, info.currentStart, info.currentEnd));
    }
  }
}
