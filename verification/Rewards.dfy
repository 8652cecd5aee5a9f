/** The exchange price of a lending market's shares with rewards, as the programs work it out: `get_rate` in
    `programs/lendingRewardRateModel/src/state/state.rs` and `calculate_new_token_exchange_price` in
    `programs/lending/src/utils/helpers.rs`. */
module Rewards {
  import opened Common
  import opened RewardPeriods

  /** 100% at the precision of rates and returns. */
  const RETURN_PERCENT_PRECISION: nat := 100_000_000_000_000
  const MAX_RATE: nat := 50_000_000_000_000

  type U64 = x: nat | x <= U64_MAX

  datatype Lending = Lending(tokenExchangePrice: U64, liquidityExchangePrice: U64, lastUpdateTimestamp: U64)

  datatype RateModel = RateModel(startTvl: U64, duration: U64, startTime: U64, yearlyReward: U64, nextDuration: U64,
                                 nextRewardAmount: U64)

  // ---------------------------------------------------------------- rates

  /** A rate for `reward` a year on `totalAssets`, cut at the maximum. */
  function RateOf(reward: nat, totalAssets: U64): Result<nat, RewardError> {
    if reward * RETURN_PERCENT_PRECISION > U128_MAX || totalAssets == 0 then Err(MathError)
    else Ok(Min(reward * RETURN_PERCENT_PRECISION / totalAssets, MAX_RATE))
  }

  /** What a reward over a period comes to in a year. */
  function Yearly(amount: nat, duration: nat): Result<nat, RewardError> {
    if duration == 0 then Err(MathError) else Ok(amount * SECONDS_PER_YEAR / duration)
  }

  function CurrentRate(m: RateModel, totalAssets: U64): Result<nat, RewardError> {
    if totalAssets < m.startTvl then Ok(0) else RateOf(m.yearlyReward, totalAssets)
  }

  function NextRate(m: RateModel, totalAssets: U64): Result<nat, RewardError> {
    if totalAssets < m.startTvl then Ok(0)
    else
      var yearly :- Yearly(m.nextRewardAmount, m.nextDuration);
      RateOf(yearly, totalAssets)
  }

  /** `get_rate`. */
  function GetRate(m: RateModel, totalAssets: U64, now: U64): Result<RateInfo, RewardError> {
    var end := m.startTime + m.duration;
    if end > U64_MAX then Err(MathError)
    else if m.startTime == 0 || now < m.startTime then Ok(RateInfo(0, m.startTime, end, 0, 0, 0))
    else
      var current :- CurrentRate(m, totalAssets);
      if m.nextRewardAmount > 0 then
        if end + m.nextDuration > U64_MAX then Err(MathError)
        else
          var next :- NextRate(m, totalAssets);
          Ok(RateInfo(current, m.startTime, end, next, end, end + m.nextDuration))
      else
        Ok(RateInfo(current, m.startTime, end, 0, 0, 0))
  }

  // ---------------------------------------------------------------- the share price

  function TotalAssets(lending: Lending, totalSupply: U64): nat {
    lending.tokenExchangePrice * totalSupply / PRICES_PRECISION
  }

  function LiquidityReturn(oldPrice: nat, newPrice: nat): nat
    requires 0 < oldPrice <= newPrice
  {
    (newPrice - oldPrice) * RETURN_PERCENT_PRECISION / oldPrice
  }

  function Growth(price: nat, totalReturn: nat): nat {
    price * totalReturn / RETURN_PERCENT_PRECISION
  }

  /** The growth of the price, with the widths it passes through. */
  function GrowBy(price: U64, totalReturn: nat): Result<U64, RewardError> {
    if price * totalReturn > U128_MAX then Err(MathError)
    else if Growth(price, totalReturn) > U64_MAX then Err(CastError)
    else if price + Growth(price, totalReturn) > U64_MAX then Err(MathError)
    else Ok(price + Growth(price, totalReturn))
  }

  /** `calculate_new_token_exchange_price`, the accrual by what it is proved to give. */
  function NewTokenExchangePrice(newLiquidityPrice: U64, lending: Lending, m: RateModel, totalSupply: U64, now: U64)
    : Result<U64, RewardError>
  {
    if newLiquidityPrice < lending.liquidityExchangePrice then Err(LiquidityExchangePriceUnexpected)
    else if TotalAssets(lending, totalSupply) > U64_MAX then Err(CastError)
    else
      var info :- GetRate(m, TotalAssets(lending, totalSupply), now);
      if lending.liquidityExchangePrice == 0 then Err(MathError)
      else
        GrowBy(lending.tokenExchangePrice,
               RewardsReturn(info, lending.lastUpdateTimestamp, now)
               + LiquidityReturn(lending.liquidityExchangePrice, newLiquidityPrice))
  }

  method CalculateNewTokenExchangePrice(newLiquidityPrice: U64, lending: Lending, m: RateModel, totalSupply: U64, now: U64)
    returns (r: Result<U64, RewardError>)
    ensures r == NewTokenExchangePrice(newLiquidityPrice, lending, m, totalSupply, now)
  {
    if newLiquidityPrice < lending.liquidityExchangePrice {
      return Err(LiquidityExchangePriceUnexpected);
    }
    var totalAssets := TotalAssets(lending, totalSupply);
    if totalAssets > U64_MAX {
      return Err(CastError);
    }
    var info := GetRate(m, totalAssets, now);
    if info.Err? {
      return Err(info.error);
    }
    RatesInSequence(m, totalAssets, now);
    var totalRewardsReturn := AccrueRewards(info.value, lending.lastUpdateTimestamp, now);
    if lending.liquidityExchangePrice == 0 {
      return Err(MathError);
    }
    var liquidityReturn := LiquidityReturn(lending.liquidityExchangePrice, newLiquidityPrice);
    return GrowBy(lending.tokenExchangePrice, totalRewardsReturn + liquidityReturn);
  }

  // ---------------------------------------------------------------- properties of the rates

  /** The periods follow each other, and no rate is above the maximum, so that the payer's own limit never applies. */
  lemma RatesInSequence(m: RateModel, totalAssets: U64, now: U64)
    requires GetRate(m, totalAssets, now).Ok?
    ensures InSequence(GetRate(m, totalAssets, now).value)
    ensures var info := GetRate(m, totalAssets, now).value;
            EffectiveRate(info.currentRate) == info.currentRate && EffectiveRate(info.nextRate) == info.nextRate
  {
    hide Yearly;
  }

  /** Every second since the last update pays at most one of the two rates, and none more than the maximum. */
  lemma NeverCountedTwice(m: RateModel, totalAssets: U64, last: nat, now: U64)
    requires GetRate(m, totalAssets, now).Ok? && last <= now
    ensures var info := GetRate(m, totalAssets, now).value;
            && SecondsPaid(info, last, now) <= now - last
            && RewardsReturn(info, last, now) <= Max(info.currentRate, info.nextRate) * SecondsPaid(info, last, now) / SECONDS_PER_YEAR
            && RewardsReturn(info, last, now) <= MAX_RATE * (now - last) / SECONDS_PER_YEAR
  {
    var info := GetRate(m, totalAssets, now).value;
    RatesInSequence(m, totalAssets, now);
    AtMostMaximum(m, totalAssets, now);
    hide GetRate, RewardsReturn, SecondsPaid;
    PaidOnce(info, last, now);
    var most, seconds := Max(info.currentRate, info.nextRate), SecondsPaid(info, last, now);
    MulAtMost(most, MAX_RATE, seconds);
    MulBoth(seconds, now - last, MAX_RATE);
    DivMonotone(most * seconds, MAX_RATE * (now - last), SECONDS_PER_YEAR);
  }

  lemma AtMostMaximum(m: RateModel, totalAssets: U64, now: U64)
    requires GetRate(m, totalAssets, now).Ok?
    ensures GetRate(m, totalAssets, now).value.currentRate <= MAX_RATE
    ensures GetRate(m, totalAssets, now).value.nextRate <= MAX_RATE
  {
    hide Yearly;
  }

  lemma MulBoth(a: int, b: int, c: nat)
    requires a <= b
    ensures c * a <= c * b
  {
  }

  /** A rate is cut exactly from a yearly reward of half the assets on. */
  lemma CutFromHalf(reward: nat, totalAssets: U64)
    requires RateOf(reward, totalAssets).Ok?
    ensures RateOf(reward, totalAssets).value == MAX_RATE <==> 2 * reward >= totalAssets
    ensures 2 * reward < totalAssets ==>
              RateOf(reward, totalAssets).value * totalAssets <= reward * RETURN_PERCENT_PRECISION
                < (RateOf(reward, totalAssets).value + 1) * totalAssets
  {
    var rate := FloorDiv(reward * RETURN_PERCENT_PRECISION, totalAssets);
    if rate >= MAX_RATE {
      MulAtMost(MAX_RATE, rate, totalAssets);
    } else {
      MulAtMost(rate + 1, MAX_RATE, totalAssets);
    }
  }

  /** A model that has started gives rates if and only if there are assets or too few of them for rewards, its times fit 64
      bits, and what is queued has a duration and comes to a yearly reward that its width can hold. */
  lemma RatesExactly(m: RateModel, totalAssets: U64, now: U64)
    requires 0 < m.startTime <= now
    ensures GetRate(m, totalAssets, now).Ok? <==>
      && m.startTime + m.duration <= U64_MAX
      && (totalAssets > 0 || m.startTvl > 0)
      && (m.nextRewardAmount > 0 ==>
            && m.startTime + m.duration + m.nextDuration <= U64_MAX
            && (totalAssets >= m.startTvl ==>
                  && m.nextDuration > 0
                  && m.nextRewardAmount * SECONDS_PER_YEAR / m.nextDuration * RETURN_PERCENT_PRECISION <= U128_MAX))
  {
    MulAtMost(m.yearlyReward, U64_MAX, RETURN_PERCENT_PRECISION);
  }

  /** Before the start, giving no rates loses nothing: whatever they were, no second would have paid. */
  lemma NothingBeforeStart(m: RateModel, current: nat, next: nat, last: nat, now: U64)
    requires now < m.startTime
    ensures var end := m.startTime + m.duration;
            RewardsReturn(RateInfo(current, m.startTime, end, next, end, end + m.nextDuration), last, now) == 0
  {
    var end := m.startTime + m.duration;
    assert Overlap(last, now, m.startTime, end) == 0 && Overlap(last, now, end, end + m.nextDuration) == 0;
    assert EffectiveRate(current) * 0 == 0 && EffectiveRate(next) * 0 == 0;
  }

  // ---------------------------------------------------------------- properties of the price

  /** The price comes out if and only if Liquidity's was positive and has not fallen, the assets fit 64 bits, there are rates,
      and the grown price fits 64 bits: no width on the way fails before that one does. It never falls. */
  lemma TokenPriceExactly(newLiquidityPrice: U64, lending: Lending, m: RateModel, totalSupply: U64, now: U64)
    ensures var r := NewTokenExchangePrice(newLiquidityPrice, lending, m, totalSupply, now);
            var assets := TotalAssets(lending, totalSupply);
            && (r.Ok? <==>
                  && 0 < lending.liquidityExchangePrice <= newLiquidityPrice
                  && assets <= U64_MAX && GetRate(m, assets, now).Ok?
                  && lending.tokenExchangePrice
                     + Growth(lending.tokenExchangePrice,
                              RewardsReturn(GetRate(m, assets, now).value, lending.lastUpdateTimestamp, now)
                              + LiquidityReturn(lending.liquidityExchangePrice, newLiquidityPrice)) <= U64_MAX)
            && (r.Ok? ==> r.value >= lending.tokenExchangePrice)
  {
    hide GetRate, RewardsReturn, LiquidityReturn;
    var assets := TotalAssets(lending, totalSupply);
    if 0 < lending.liquidityExchangePrice <= newLiquidityPrice && assets <= U64_MAX && GetRate(m, assets, now).Ok? {
      WidthsHold(lending.tokenExchangePrice,
                 RewardsReturn(GetRate(m, assets, now).value, lending.lastUpdateTimestamp, now)
                 + LiquidityReturn(lending.liquidityExchangePrice, newLiquidityPrice));
    }
  }

  lemma WidthsHold(price: U64, total: nat)
    ensures GrowBy(price, total).Ok? <==> price + Growth(price, total) <= U64_MAX
    ensures GrowBy(price, total).Ok? ==> GrowBy(price, total).value >= price
  {
    var top := price * total;
    FloorBounds(top, RETURN_PERCENT_PRECISION);
  }

  /** The assets the rates are worked out on: what the shares are worth at the old price, rounded down. */
  lemma AssetsAre(lending: Lending, totalSupply: U64)
    ensures var assets := TotalAssets(lending, totalSupply);
            assets * PRICES_PRECISION <= lending.tokenExchangePrice * totalSupply < (assets + 1) * PRICES_PRECISION
  {
    var worth := lending.tokenExchangePrice * totalSupply;
    FloorBounds(worth, PRICES_PRECISION);
  }

  /** The new price from what the two returns are made of: the rewards, and Liquidity's rise over its old price. */
  lemma TokenPriceIs(newLiquidityPrice: U64, lending: Lending, m: RateModel, totalSupply: U64, now: U64)
    requires NewTokenExchangePrice(newLiquidityPrice, lending, m, totalSupply, now).Ok?
    ensures var info := GetRate(m, TotalAssets(lending, totalSupply), now).value;
            GainIs(lending.tokenExchangePrice, lending.liquidityExchangePrice, newLiquidityPrice - lending.liquidityExchangePrice,
                   RewardsReturn(info, lending.lastUpdateTimestamp, now),
                   NewTokenExchangePrice(newLiquidityPrice, lending, m, totalSupply, now).value - lending.tokenExchangePrice,
                   RETURN_PERCENT_PRECISION)
  {
    hide GetRate, RewardsReturn, GainIs;
    var t, was := lending.tokenExchangePrice, lending.liquidityExchangePrice;
    var rewards := RewardsReturn(GetRate(m, TotalAssets(lending, totalSupply), now).value, lending.lastUpdateTimestamp, now);
    var gain := LiquidityReturn(was, newLiquidityPrice);
    GainBetween(t, was, newLiquidityPrice - was, rewards, gain, Growth(t, rewards + gain), RETURN_PERCENT_PRECISION);
  }

  /** Without rewards the share price grows no faster than Liquidity's, and slower only by roundings. */
  lemma NoRewardsNoExcess(newLiquidityPrice: U64, lending: Lending, m: RateModel, totalSupply: U64, now: U64)
    requires m.yearlyReward == 0 && m.nextRewardAmount == 0
    requires NewTokenExchangePrice(newLiquidityPrice, lending, m, totalSupply, now).Ok?
    ensures var t, was := lending.tokenExchangePrice, lending.liquidityExchangePrice;
            var n := NewTokenExchangePrice(newLiquidityPrice, lending, m, totalSupply, now).value;
            && n * was <= t * newLiquidityPrice
            && t * newLiquidityPrice * RETURN_PERCENT_PRECISION < (n + 1) * was * RETURN_PERCENT_PRECISION + t * was
  {
    TokenPriceIs(newLiquidityPrice, lending, m, totalSupply, now);
    NoRewardsPaid(lending, m, totalSupply, now);
    hide NewTokenExchangePrice, GetRate, RewardsReturn, GainIs;
    var t, was := lending.tokenExchangePrice, lending.liquidityExchangePrice;
    var n := NewTokenExchangePrice(newLiquidityPrice, lending, m, totalSupply, now).value;
    TokenPriceExactly(newLiquidityPrice, lending, m, totalSupply, now);
    GainAlone(t, was, newLiquidityPrice - was, n - t, RETURN_PERCENT_PRECISION);
  }

  lemma NoRewardsPaid(lending: Lending, m: RateModel, totalSupply: U64, now: U64)
    requires m.yearlyReward == 0 && m.nextRewardAmount == 0 && TotalAssets(lending, totalSupply) <= U64_MAX
    requires GetRate(m, TotalAssets(lending, totalSupply), now).Ok?
    ensures RewardsReturn(GetRate(m, TotalAssets(lending, totalSupply), now).value, lending.lastUpdateTimestamp, now) == 0
  {
    var info := GetRate(m, TotalAssets(lending, totalSupply), now).value;
    assert info.currentRate == 0 && info.nextRate == 0 by {
      hide Yearly;
    }
    NothingProrated(info, lending.lastUpdateTimestamp, now);
    hide GetRate, Prorate, Overlap;
  }

  // ---------------------------------------------------------------- the rates, from rewards and assets

  /** `rate` is `reward / duration` for a year on the assets, each quotient rounded down, at fourteen decimals. */
  ghost predicate RateFor(rate: nat, reward: nat, seconds: nat, duration: nat, totalAssets: nat) {
    && rate * totalAssets * duration <= reward * seconds * RETURN_PERCENT_PRECISION
    && reward * seconds * RETURN_PERCENT_PRECISION < (rate + 1) * totalAssets * duration + duration * RETURN_PERCENT_PRECISION
  }

  /** What the rates are: none below the least assets or without a reward, the maximum from half the assets on, and
      otherwise the reward over assets and time. */
  lemma RatesAre(m: RateModel, totalAssets: U64, now: U64)
    requires 0 < m.startTime <= now && GetRate(m, totalAssets, now).Ok?
    ensures var info := GetRate(m, totalAssets, now).value;
            && info.currentStart == m.startTime && info.currentEnd == m.startTime + m.duration
            && (totalAssets < m.startTvl ==> info.currentRate == 0 && info.nextRate == 0)
            && (totalAssets >= m.startTvl ==>
                  if 2 * m.yearlyReward >= totalAssets then info.currentRate == MAX_RATE
                  else RateFor(info.currentRate, m.yearlyReward, 1, 1, totalAssets))
            && (if m.nextRewardAmount == 0 then info.nextStart == 0 && info.nextEnd == 0 && info.nextRate == 0
                else
                  && info.nextStart == info.currentEnd && info.nextEnd == info.nextStart + m.nextDuration
                  && (totalAssets >= m.startTvl ==>
                        && m.nextDuration > 0
                        && (info.nextRate == MAX_RATE || RateFor(info.nextRate, m.nextRewardAmount, SECONDS_PER_YEAR, m.nextDuration, totalAssets))
                        && (info.nextRate == MAX_RATE <==> 2 * (m.nextRewardAmount * SECONDS_PER_YEAR / m.nextDuration) >= totalAssets)))
  {
    hide RateOf, RateFor;
    if totalAssets >= m.startTvl {
      RateForYear(m.yearlyReward, totalAssets);
      if m.nextRewardAmount > 0 {
        RateForPeriod(m.nextRewardAmount, m.nextDuration, totalAssets);
      }
    }
  }

  lemma RateForYear(reward: nat, totalAssets: U64)
    requires RateOf(reward, totalAssets).Ok?
    ensures var rate := RateOf(reward, totalAssets).value;
            if 2 * reward >= totalAssets then rate == MAX_RATE else RateFor(rate, reward, 1, 1, totalAssets)
    ensures RateOf(reward, totalAssets).value == MAX_RATE <==> 2 * reward >= totalAssets
  {
    CutFromHalf(reward, totalAssets);
  }

  lemma RateForPeriod(amount: nat, duration: nat, totalAssets: U64)
    requires duration > 0 && RateOf(amount * SECONDS_PER_YEAR / duration, totalAssets).Ok?
    ensures var yearly := amount * SECONDS_PER_YEAR / duration;
            var rate := RateOf(yearly, totalAssets).value;
            && (rate == MAX_RATE || RateFor(rate, amount, SECONDS_PER_YEAR, duration, totalAssets))
            && (rate == MAX_RATE <==> 2 * yearly >= totalAssets)
  {
    var due, yearly := amount * SECONDS_PER_YEAR, FloorDiv(amount * SECONDS_PER_YEAR, duration);
    CutFromHalf(yearly, totalAssets);
    var rate := RateOf(yearly, totalAssets).value;
    hide RateOf, FloorDiv;
    if 2 * yearly < totalAssets {
      var scaled := yearly * RETURN_PERCENT_PRECISION;
      MulAtMost(rate * totalAssets, scaled, duration);
      MulAtMost(scaled, (rate + 1) * totalAssets, duration);
      assert scaled * duration == yearly * duration * RETURN_PERCENT_PRECISION;
      assert (yearly + 1) * duration == yearly * duration + duration;
    }
  }
}
