/** Rewards paid over a current and a next period, as `programs/lending/src/utils/helpers.rs` pays them and the test
    resolver after it. */
module RewardPeriods {
  import opened Common

  const MAX_REWARDS_RATE: nat := 50_000_000_000_000

  datatype RewardError =
    | LiquidityExchangePriceUnexpected
    | MathError
    | CastError
    | DivisionByZero
    | NumberTooLarge

  datatype RateInfo = RateInfo(currentRate: nat, currentStart: nat, currentEnd: nat,
                               nextRate: nat, nextStart: nat, nextEnd: nat)

  // ---------------------------------------------------------------- what is meant

  /** How long `[from, to]` and `[start, end]` have in common. */
  function Overlap(from: nat, to: nat, start: nat, end: nat): nat {
    Max(Min(to, end) - Max(from, start), 0)
  }

  /** A rate above the maximum counts as none. */
  function EffectiveRate(rate: nat): nat {
    if rate > MAX_REWARDS_RATE then 0 else rate
  }

  function Prorate(rate: nat, seconds: nat): nat {
    rate * seconds / SECONDS_PER_YEAR
  }

  function PeriodReturn(rate: nat, seconds: nat): nat {
    Prorate(EffectiveRate(rate), seconds)
  }

  function CurrentReturn(info: RateInfo, last: nat, now: nat): nat {
    PeriodReturn(info.currentRate, Overlap(last, now, info.currentStart, info.currentEnd))
  }

  /** A next period that would start at zero is no period. */
  function NextReturn(info: RateInfo, last: nat, now: nat): nat {
    if info.nextStart == 0 then 0
    else PeriodReturn(info.nextRate, Overlap(last, now, info.nextStart, info.nextEnd))
  }

  /** Each period pays its rate for the time it shares with the time since the last update. */
  function RewardsReturn(info: RateInfo, last: nat, now: nat): nat {
    CurrentReturn(info, last, now) + NextReturn(info, last, now)
  }

  /** The next period, if any, starts where the current one ends. */
  predicate InSequence(info: RateInfo) {
    && info.currentStart <= info.currentEnd
    && (info.currentStart == 0 ==> info.currentRate == 0)
    && (info.nextStart > 0 ==> info.currentEnd == info.nextStart <= info.nextEnd)
  }

  // ---------------------------------------------------------------- how it is computed

  lemma NothingProrated(info: RateInfo, last: nat, now: nat)
    ensures Prorate(EffectiveRate(info.currentRate), 0) == 0 && Prorate(EffectiveRate(info.nextRate), 0) == 0
    ensures Prorate(0, Overlap(last, now, info.currentStart, info.currentEnd)) == 0
    ensures Prorate(0, Overlap(last, now, info.nextStart, info.nextEnd)) == 0
  {
  }

  /** The two periods in turn, carrying the time up to which rewards are accounted for. */
  method AccrueRewards(info: RateInfo, last: nat, now: nat) returns (totalRewardsReturn: nat)
    requires InSequence(info)
    ensures totalRewardsReturn == RewardsReturn(info, last, now)
  {
    hide Prorate;
    NothingProrated(info, last, now);
    totalRewardsReturn := 0;
    var lastUpdateTimestamp: nat := last;
    if info.currentStart > 0 && info.currentRate > 0 && lastUpdateTimestamp < info.currentEnd {
      var effectiveCurrentRate := info.currentRate;
      if effectiveCurrentRate > MAX_REWARDS_RATE {
        effectiveCurrentRate := 0;
      }
      if lastUpdateTimestamp < info.currentStart {
        lastUpdateTimestamp := info.currentStart;
      }
      var currentPeriodEnd := Min(now, info.currentEnd);
      if currentPeriodEnd > lastUpdateTimestamp {
        var timeDiff := currentPeriodEnd - lastUpdateTimestamp;
        totalRewardsReturn := totalRewardsReturn + Prorate(effectiveCurrentRate, timeDiff);
        lastUpdateTimestamp := currentPeriodEnd;
      }
    }
    assert totalRewardsReturn == CurrentReturn(info, last, now);
    if info.nextStart > 0 && info.nextEnd > 0 && info.nextRate > 0 && now > info.nextStart {
      var effectiveNextRate := info.nextRate;
      if effectiveNextRate > MAX_REWARDS_RATE {
        effectiveNextRate := 0;
      }
      var nextPeriodStart := Max(lastUpdateTimestamp, info.nextStart);
      var nextPeriodEnd := Min(now, info.nextEnd);
      assert nextPeriodStart == Max(last, info.nextStart);
      if nextPeriodEnd > nextPeriodStart {
        var timeDiff := nextPeriodEnd - nextPeriodStart;
        totalRewardsReturn := totalRewardsReturn + Prorate(effectiveNextRate, timeDiff);
      }
    }
  }

  // ---------------------------------------------------------------- properties

  /** Two periods that meet share with any stretch of time what the period they make together shares with it: no second
      counts for both. */
  lemma PeriodsDisjoint(from: nat, to: nat, start: nat, mid: nat, end: nat)
    requires start <= mid <= end
    ensures Overlap(from, to, start, mid) + Overlap(from, to, mid, end) == Overlap(from, to, start, end)
    ensures from <= to ==> Overlap(from, to, start, mid) + Overlap(from, to, mid, end) <= to - from
  {
    assert mid >= from || mid < from;
  }

  /** How many of the seconds since the last update the two periods take. */
  function SecondsPaid(info: RateInfo, last: nat, now: nat): nat {
    Overlap(last, now, info.currentStart, info.currentEnd)
    + if info.nextStart == 0 then 0 else Overlap(last, now, info.nextStart, info.nextEnd)
  }

  /** Every second since the last update pays at most one of the two rates. */
  lemma PaidOnce(info: RateInfo, last: nat, now: nat)
    requires InSequence(info) && last <= now
    ensures SecondsPaid(info, last, now) <= now - last
    ensures RewardsReturn(info, last, now)
         <= Max(EffectiveRate(info.currentRate), EffectiveRate(info.nextRate)) * SecondsPaid(info, last, now) / SECONDS_PER_YEAR
  {
    var a, b := EffectiveRate(info.currentRate), EffectiveRate(info.nextRate);
    var x := Overlap(last, now, info.currentStart, info.currentEnd);
    var y := if info.nextStart == 0 then 0 else Overlap(last, now, info.nextStart, info.nextEnd);
    if info.nextStart > 0 {
      PeriodsDisjoint(last, now, info.currentStart, info.currentEnd, info.nextEnd);
    }
    PartsWithin(a, b, x, y);
  }

  lemma PartsWithin(a: nat, b: nat, x: nat, y: nat)
    ensures a * x / SECONDS_PER_YEAR + b * y / SECONDS_PER_YEAR <= Max(a, b) * (x + y) / SECONDS_PER_YEAR
  {
    var most := Max(a, b);
    MulAtMost(a, most, x);
    MulAtMost(b, most, y);
    DivSplits(a * x, b * y, SECONDS_PER_YEAR);
    assert most * (x + y) == most * x + most * y;
    DivMonotone(a * x + b * y, most * (x + y), SECONDS_PER_YEAR);
  }

  lemma OverlapSplits(from: nat, via: nat, to: nat, start: nat, end: nat)
    requires from <= via <= to && start <= end
    ensures Overlap(from, via, start, end) + Overlap(via, to, start, end) == Overlap(from, to, start, end)
  {
    assert start <= via || via < start;
  }

  /** At the same rates, an update on the way never pays more, and costs less than one unit a period. */
  lemma UpdateOnTheWay(info: RateInfo, last: nat, via: nat, now: nat)
    requires last <= via <= now && info.currentStart <= info.currentEnd && info.nextStart <= info.nextEnd
    ensures var parts := RewardsReturn(info, last, via) + RewardsReturn(info, via, now);
            parts <= RewardsReturn(info, last, now) <= parts + 2
  {
    hide Overlap, EffectiveRate;
    PeriodSplits(info.currentRate, last, via, now, info.currentStart, info.currentEnd);
    PeriodSplits(info.nextRate, last, via, now, info.nextStart, info.nextEnd);
  }

  lemma PeriodSplits(rate: nat, last: nat, via: nat, now: nat, start: nat, end: nat)
    requires last <= via <= now && start <= end
    ensures var parts := PeriodReturn(rate, Overlap(last, via, start, end)) + PeriodReturn(rate, Overlap(via, now, start, end));
            parts <= PeriodReturn(rate, Overlap(last, now, start, end)) <= parts + 1
  {
    hide Overlap, EffectiveRate;
    OverlapSplits(last, via, now, start, end);
    var r, x, y := EffectiveRate(rate), Overlap(last, via, start, end), Overlap(via, now, start, end);
    assert r * (x + y) == r * x + r * y;
    DivSplits(r * x, r * y, SECONDS_PER_YEAR);
  }

  /** What a price gains on rewards and on a rise of Liquidity's, by either program: the rise over the old price rounded down,
      and the price times both returns rounded down, at `precision`. */
  ghost predicate GainIs(t: nat, was: nat, rise: nat, rewards: nat, more: nat, precision: nat) {
    more * precision * was <= t * (rewards * was + rise * precision) < (more + 1) * precision * was + t * was
  }

  lemma GainBetween(t: nat, was: nat, rise: nat, rewards: nat, gain: nat, more: nat, precision: nat)
    requires was > 0 && precision > 0 && gain == rise * precision / was && more == t * (rewards + gain) / precision
    ensures GainIs(t, was, rise, rewards, more, precision)
  {
    FloorBounds(rise * precision, was);
    FloorBounds(t * (rewards + gain), precision);
    GainWeighed(t, was, rise * precision, rewards, gain, more, precision);
  }

  lemma GainWeighed(t: nat, was: nat, due: nat, rewards: nat, gain: nat, more: nat, precision: nat)
    requires was > 0 && gain * was <= due < gain * was + was
    requires more * precision <= t * (rewards + gain) < more * precision + precision
    ensures more * precision * was <= t * (rewards * was + due) < (more + 1) * precision * was + t * was
  {
    Weighed(t, was, due, rewards, gain);
    var both, low, top := t * (rewards + gain), more * precision, (more + 1) * precision;
    assert top == low + precision;
    MulAtMost(low, both, was);
    MulAtMost(both + 1, top, was);
    assert (both + 1) * was == both * was + was;
  }

  /** Weighing the rise instead of its return costs less than one old price for each unit of `t`. */
  lemma Weighed(t: nat, was: nat, rise: nat, rewards: nat, gain: nat)
    requires gain * was <= rise < gain * was + was
    ensures t * (rewards + gain) * was <= t * (rewards * was + rise) <= t * (rewards + gain) * was + t * was
  {
    var x := rewards * was;
    assert (rewards + gain) * was == x + gain * was;
    assert t * (rewards + gain) * was == t * ((rewards + gain) * was) by {
      MulAssociate(t, rewards + gain, was);
    }
    MulAtMost(x + gain * was, x + rise, t);
    MulAtMost(x + rise, x + gain * was + was, t);
    assert t * (x + gain * was + was) == t * (x + gain * was) + t * was;
  }

  /** Without rewards, in the two prices alone. */
  lemma GainAlone(t: nat, was: nat, rise: nat, more: nat, precision: nat)
    requires precision > 0 && GainIs(t, was, rise, 0, more, precision)
    ensures (t + more) * was <= t * (was + rise)
    ensures t * (was + rise) * precision < (t + more + 1) * was * precision + t * was
  {
    var gained, due, held := more * was, t * rise, t * was;
    assert more * precision * was == gained * precision && (more + 1) * precision * was == (gained + was) * precision;
    assert t * (0 * was + rise * precision) == due * precision;
    assert (due + 1) * precision == due * precision + precision;
    MulCancelLess(gained, due + 1, precision);
    assert (t + more) * was == held + gained && t * (was + rise) == held + due;
    assert (t + more + 1) * was == held + gained + was;
    assert (held + due) * precision == held * precision + due * precision;
    assert (held + gained + was) * precision == held * precision + (gained + was) * precision;
  }

  // ---------------------------------------------------------------- seconds, counted one by one

  /** The seconds of `[last, now)` that lie in `[start, end)`. */
  function SharedSeconds(last: nat, now: nat, start: nat, end: nat): nat
    decreases now
  {
    if now <= last then 0
    else SharedSeconds(last, now - 1, start, end) + if start <= now - 1 < end then 1 else 0
  }

  lemma {:induction false} OverlapCounts(last: nat, now: nat, start: nat, end: nat)
    ensures Overlap(last, now, start, end) == SharedSeconds(last, now, start, end)
    decreases now
  {
    if last < now {
      OverlapCounts(last, now - 1, start, end);
    }
  }

  /** What the two periods pay, from their rates and the seconds counted: each rounded down once, in seconds of a year. */
  lemma RewardsReturnIs(info: RateInfo, last: nat, now: nat)
    ensures var due := EffectiveRate(info.currentRate) * SharedSeconds(last, now, info.currentStart, info.currentEnd)
                     + if info.nextStart == 0 then 0
                       else EffectiveRate(info.nextRate) * SharedSeconds(last, now, info.nextStart, info.nextEnd);
            RewardsReturn(info, last, now) * SECONDS_PER_YEAR <= due < (RewardsReturn(info, last, now) + 2) * SECONDS_PER_YEAR
  {
    OverlapCounts(last, now, info.currentStart, info.currentEnd);
    OverlapCounts(last, now, info.nextStart, info.nextEnd);
    hide Overlap, SharedSeconds;
    FloorBounds(EffectiveRate(info.currentRate) * Overlap(last, now, info.currentStart, info.currentEnd), SECONDS_PER_YEAR);
    FloorBounds(EffectiveRate(info.nextRate) * Overlap(last, now, info.nextStart, info.nextEnd), SECONDS_PER_YEAR);
  }
}
