/** The rewards of a lending market over its life: `start`, `stop`, `cancel`, `queue` and `next` of
    `programs/lendingRewardRateModel/src/state/context.rs`, each bringing the market's share price up to date before it
    overwrites what that price is worked out from. */
module RewardRuns {
  import opened Common
  import opened RewardPeriods
  import opened Rewards

  datatype Market = Market(lending: Lending, model: RateModel)

  datatype AdminError =
    | RateNotUpdated
    | ArithmeticError
    | InvalidParams
    | NotEnded
    | MustTransitionToNext
    | AlreadyStopped
    | NextRewardsQueued
    | NoQueuedRewards
    | NoRewardsStarted

  datatype Action =
    | UpdateRate
    | Start(amount: U64, duration: U64, startTime: U64, startTvl: U64)
    | Stop
    | Cancel
    | Queue(amount: U64, duration: U64)
    | Next

  /** A call at a time, with what the market is then: Liquidity's price and the supply of shares. */
  datatype Call = Call(now: U64, liquidityPrice: U64, totalSupply: U64, action: Action)

  // ---------------------------------------------------------------- what each call does

  function EndOf(m: RateModel): nat {
    m.startTime + m.duration
  }

  /** `update_rates`, called from here or from the lending program. */
  function Updated(s: Market, c: Call): Result<Market, AdminError> {
    match NewTokenExchangePrice(c.liquidityPrice, s.lending, s.model, c.totalSupply, c.now)
    case Err(_) => Err(RateNotUpdated)
    case Ok(price) => Ok(s.(lending := Lending(price, c.liquidityPrice, c.now)))
  }

  /** The yearly reward as it is stored. */
  function StoredYearly(amount: U64, duration: U64): Result<U64, AdminError>
    requires duration > 0
  {
    var yearly := amount * SECONDS_PER_YEAR / duration;
    if yearly > U64_MAX then Err(ArithmeticError) else Ok(yearly)
  }

  /** Whether `start` has old rewards to bring up to date. */
  predicate HadRewards(m: RateModel) {
    m.yearlyReward > 0
  }

  function StartRewards(s: Market, c: Call, amount: U64, duration: U64, startTime: U64, startTvl: U64): Result<Market, AdminError> {
    if duration == 0 || amount == 0 then Err(InvalidParams)
    else if EndOf(s.model) > U64_MAX then Err(ArithmeticError)
    else if c.now <= EndOf(s.model) then Err(NotEnded)
    else if s.model.nextRewardAmount > 0 then Err(MustTransitionToNext)
    else
      var synced :- if HadRewards(s.model) then Updated(s, c) else Ok(s);
      if 0 < startTime < c.now then Err(InvalidParams)
      else
        var yearly :- StoredYearly(amount, duration);
        Ok(synced.(model := s.model.(startTime := if startTime == 0 then c.now else startTime, duration := duration,
                                     yearlyReward := yearly, startTvl := startTvl)))
  }

  function StopRewards(s: Market, c: Call): Result<Market, AdminError> {
    if EndOf(s.model) > U64_MAX then Err(ArithmeticError)
    else if s.model.startTime == 0 || c.now > EndOf(s.model) then Err(AlreadyStopped)
    else if s.model.nextRewardAmount > 0 then Err(NextRewardsQueued)
    else
      var synced :- Updated(s, c);
      Ok(synced.(model := s.model.(duration := Max(c.now - s.model.startTime - 1, 0))))
  }

  function CancelQueued(s: Market, c: Call): Result<Market, AdminError> {
    if EndOf(s.model) > U64_MAX then Err(ArithmeticError)
    else if s.model.nextRewardAmount == 0 then Err(NoQueuedRewards)
    else if c.now > EndOf(s.model) then Err(MustTransitionToNext)
    else Ok(s.(model := s.model.(nextDuration := 0, nextRewardAmount := 0)))
  }

  function QueueRewards(s: Market, c: Call, amount: U64, duration: U64): Result<Market, AdminError> {
    if EndOf(s.model) > U64_MAX then Err(ArithmeticError)
    else if duration == 0 || amount == 0 then Err(InvalidParams)
    else if s.model.startTime == 0 then Err(NoRewardsStarted)
    else if s.model.nextRewardAmount > 0 then Err(NextRewardsQueued)
    else if c.now > EndOf(s.model) then StartRewards(s, c, amount, duration, c.now, s.model.startTvl)
    else Ok(s.(model := s.model.(nextRewardAmount := amount, nextDuration := duration)))
  }

  function NextRewards(s: Market, c: Call): Result<Market, AdminError> {
    if EndOf(s.model) > U64_MAX then Err(ArithmeticError)
    else if c.now <= EndOf(s.model) then Err(NotEnded)
    else if s.model.nextRewardAmount == 0 then Err(NoQueuedRewards)
    else
      var synced :- Updated(s, c);
      if s.model.nextDuration == 0 then Err(ArithmeticError)
      else
        var yearly :- StoredYearly(s.model.nextRewardAmount, s.model.nextDuration);
        if EndOf(s.model) + s.model.nextDuration > U64_MAX then Err(ArithmeticError)
        else
          Ok(synced.(model := s.model.(startTime := EndOf(s.model), duration := s.model.nextDuration,
                                       yearlyReward := yearly, nextDuration := 0, nextRewardAmount := 0)))
  }

  function Apply(s: Market, c: Call): Result<Market, AdminError> {
    match c.action
    case UpdateRate => Updated(s, c)
    case Start(amount, duration, startTime, startTvl) => StartRewards(s, c, amount, duration, startTime, startTvl)
    case Stop => StopRewards(s, c)
    case Cancel => CancelQueued(s, c)
    case Queue(amount, duration) => QueueRewards(s, c, amount, duration)
    case Next => NextRewards(s, c)
  }

  /** The account of the rate model with the lending account it pays, updated in place. A call that fails changes
      neither. */
  class RewardsMarket {
    var startTvl: U64
    var duration: U64
    var startTime: U64
    var yearlyReward: U64
    var nextDuration: U64
    var nextRewardAmount: U64
    var lending: Lending

    function Model(): RateModel
      reads this
    {
      RateModel(startTvl, duration, startTime, yearlyReward, nextDuration, nextRewardAmount)
    }

    function Current(): Market
      reads this
    {
      Market(lending, Model())
    }

    constructor (l: Lending)
      ensures Current() == Market(l, RateModel(0, 0, 0, 0, 0, 0))
    {
      startTvl, duration, startTime, yearlyReward, nextDuration, nextRewardAmount := 0, 0, 0, 0, 0, 0;
      lending := l;
    }

    /** The call out to the lending program. */
    method SyncLending(now: U64, liquidityPrice: U64, totalSupply: U64) returns (r: Result<(), AdminError>)
      modifies this`lending
      ensures r.Ok? <==> Updated(old(Current()), Call(now, liquidityPrice, totalSupply, UpdateRate)).Ok?
      ensures r.Ok? ==> Current() == Updated(old(Current()), Call(now, liquidityPrice, totalSupply, UpdateRate)).value
      ensures r.Err? ==> Current() == old(Current()) && r.error == RateNotUpdated
    {
      var price := CalculateNewTokenExchangePrice(liquidityPrice, lending, Model(), totalSupply, now);
      if price.Err? {
        return Err(RateNotUpdated);
      }
      lending := Lending(price.value, liquidityPrice, now);
      return Ok(());
    }

    method StartAt(now: U64, liquidityPrice: U64, totalSupply: U64, amount: U64, length: U64, at: U64, tvl: U64)
      returns (r: Result<(), AdminError>)
      modifies this
      ensures var done := StartRewards(old(Current()), Call(now, liquidityPrice, totalSupply, UpdateRate), amount, length, at, tvl);
              && (r.Ok? <==> done.Ok?) && (r.Err? ==> r.error == done.error)
              && Current() == if r.Ok? then done.value else old(Current())
    {
      if length == 0 || amount == 0 {
        return Err(InvalidParams);
      }
      if startTime + duration > U64_MAX {
        return Err(ArithmeticError);
      }
      if now <= startTime + duration {
        return Err(NotEnded);
      }
      if nextRewardAmount > 0 {
        return Err(MustTransitionToNext);
      }
      var before := lending;
      if yearlyReward > 0 {
        var synced := SyncLending(now, liquidityPrice, totalSupply);
        if synced.Err? {
          return synced;
        }
      }
      var actualStartTime := now;
      if at != 0 {
        if at < now {
          lending := before;
          return Err(InvalidParams);
        }
        actualStartTime := at;
      }
      var yearly := StoredYearly(amount, length);
      if yearly.Err? {
        lending := before;
        return Err(ArithmeticError);
      }
      startTime := actualStartTime;
      duration := length;
      yearlyReward := yearly.value;
      startTvl := tvl;
      return Ok(());
    }

    method StopNow(now: U64, liquidityPrice: U64, totalSupply: U64) returns (r: Result<(), AdminError>)
      modifies this
      ensures var done := Apply(old(Current()), Call(now, liquidityPrice, totalSupply, Stop));
              && (r.Ok? <==> done.Ok?) && (r.Err? ==> r.error == done.error)
              && Current() == if r.Ok? then done.value else old(Current())
    {
      if startTime + duration > U64_MAX {
        return Err(ArithmeticError);
      }
      if startTime == 0 || now > startTime + duration {
        return Err(AlreadyStopped);
      }
      if nextRewardAmount > 0 {
        return Err(NextRewardsQueued);
      }
      var synced := SyncLending(now, liquidityPrice, totalSupply);
      if synced.Err? {
        return synced;
      }
      duration := Max(now - startTime - 1, 0);
      return Ok(());
    }

    method CancelNext(now: U64) returns (r: Result<(), AdminError>)
      modifies this
      ensures var done := Apply(old(Current()), Call(now, 0, 0, Cancel));
              && (r.Ok? <==> done.Ok?) && (r.Err? ==> r.error == done.error)
              && Current() == if r.Ok? then done.value else old(Current())
    {
      if startTime + duration > U64_MAX {
        return Err(ArithmeticError);
      }
      if nextRewardAmount == 0 {
        return Err(NoQueuedRewards);
      }
      if now > startTime + duration {
        return Err(MustTransitionToNext);
      }
      nextDuration := 0;
      nextRewardAmount := 0;
      return Ok(());
    }

    method QueueNext(now: U64, liquidityPrice: U64, totalSupply: U64, amount: U64, length: U64)
      returns (r: Result<(), AdminError>)
      modifies this
      ensures var done := Apply(old(Current()), Call(now, liquidityPrice, totalSupply, Queue(amount, length)));
              && (r.Ok? <==> done.Ok?) && (r.Err? ==> r.error == done.error)
              && Current() == if r.Ok? then done.value else old(Current())
    {
      if startTime + duration > U64_MAX {
        return Err(ArithmeticError);
      }
      if length == 0 || amount == 0 {
        return Err(InvalidParams);
      }
      if startTime == 0 {
        return Err(NoRewardsStarted);
      }
      if nextRewardAmount > 0 {
        return Err(NextRewardsQueued);
      }
      if now > startTime + duration {
        r := StartAt(now, liquidityPrice, totalSupply, amount, length, now, startTvl);
        return;
      }
      nextRewardAmount := amount;
      nextDuration := length;
      return Ok(());
    }

    method TransitionToNext(now: U64, liquidityPrice: U64, totalSupply: U64) returns (r: Result<(), AdminError>)
      modifies this
      ensures var done := Apply(old(Current()), Call(now, liquidityPrice, totalSupply, Next));
              && (r.Ok? <==> done.Ok?) && (r.Err? ==> r.error == done.error)
              && Current() == if r.Ok? then done.value else old(Current())
    {
      if startTime + duration > U64_MAX {
        return Err(ArithmeticError);
      }
      hide NewTokenExchangePrice, StoredYearly;
      var endTime := startTime + duration;
      if now <= endTime {
        return Err(NotEnded);
      }
      if nextRewardAmount == 0 {
        return Err(NoQueuedRewards);
      }
      var before := lending;
      var synced := SyncLending(now, liquidityPrice, totalSupply);
      if synced.Err? {
        return synced;
      }
      if nextDuration == 0 {
        lending := before;
        return Err(ArithmeticError);
      }
      var yearly := StoredYearly(nextRewardAmount, nextDuration);
      if yearly.Err? || endTime + nextDuration > U64_MAX {
        lending := before;
        return Err(ArithmeticError);
      }
      startTime := endTime;
      duration := nextDuration;
      yearlyReward := yearly.value;
      nextDuration := 0;
      nextRewardAmount := 0;
      return Ok(());
    }
  }

  // ---------------------------------------------------------------- what is promised and what is paid

  /** The assets a call works the rates out on. */
  function Assets(s: Market, c: Call): nat {
    TotalAssets(s.lending, c.totalSupply)
  }

  /** Whether a call that succeeds brings the share price up to date. */
  predicate Syncs(s: Market, c: Call) {
    match c.action
    case UpdateRate | Stop | Next => true
    case Start(_, _, _, _) => HadRewards(s.model)
    case Queue(_, _) => c.now > EndOf(s.model) && HadRewards(s.model)
    case Cancel => false
  }

  /** The rewards it pays, in fourteenth decimals of a token: the return on the assets. */
  function PaidBy(s: Market, c: Call): nat {
    if !Syncs(s, c) || Assets(s, c) > U64_MAX then 0
    else
      match GetRate(s.model, Assets(s, c), c.now)
      case Err(_) => 0
      case Ok(info) => RewardsReturn(info, s.lending.lastUpdateTimestamp, c.now) * Assets(s, c)
  }

  /** The tokens it sets aside. */
  function PromisedBy(c: Call): nat {
    match c.action
    case Start(amount, _, _, _) => amount
    case Queue(amount, _) => amount
    case _ => 0
  }

  /** How much of `[start, end]` is still to come after `last`. */
  function Remaining(last: nat, start: nat, end: nat): nat {
    Max(end - Max(last, start), 0)
  }

  function NextYearly(m: RateModel): nat {
    if m.nextDuration == 0 then 0 else m.nextRewardAmount * SECONDS_PER_YEAR / m.nextDuration
  }

  /** What is left to pay out, times the seconds of a year. */
  function Left(m: RateModel, last: nat): nat {
    m.yearlyReward * Remaining(last, m.startTime, EndOf(m))
    + NextYearly(m) * Remaining(last, EndOf(m), EndOf(m) + m.nextDuration)
  }

  function LeftIn(s: Market): nat {
    Left(s.model, s.lending.lastUpdateTimestamp)
  }

  // ---------------------------------------------------------------- nothing beyond the promise

  /** One period: what its rate pays on the assets is within its yearly reward for the seconds it pays. */
  lemma PeriodPays(rate: nat, yearly: nat, assets: nat, seconds: nat)
    requires rate * assets <= yearly * RETURN_PERCENT_PRECISION
    ensures Prorate(rate, seconds) * assets * SECONDS_PER_YEAR <= yearly * seconds * RETURN_PERCENT_PRECISION
  {
    var paid := Prorate(rate, seconds);
    FloorBounds(rate * seconds, SECONDS_PER_YEAR);
    MulAtMost(paid * SECONDS_PER_YEAR, rate * seconds, assets);
    MulAtMost(rate * assets, yearly * RETURN_PERCENT_PRECISION, seconds);
    assert paid * SECONDS_PER_YEAR * assets == paid * assets * SECONDS_PER_YEAR;
    assert rate * seconds * assets == rate * assets * seconds;
    assert yearly * RETURN_PERCENT_PRECISION * seconds == yearly * seconds * RETURN_PERCENT_PRECISION;
  }

  lemma RateWithin(reward: nat, totalAssets: U64)
    requires RateOf(reward, totalAssets).Ok?
    ensures RateOf(reward, totalAssets).value * totalAssets <= reward * RETURN_PERCENT_PRECISION
  {
    var rate := FloorDiv(reward * RETURN_PERCENT_PRECISION, totalAssets);
    MulAtMost(Min(rate, MAX_RATE), rate, totalAssets);
  }

  lemma RemainingSplits(last: nat, now: nat, start: nat, end: nat)
    requires last <= now && start <= end
    ensures Remaining(last, start, end) == Overlap(last, now, start, end) + Remaining(now, start, end)
  {
    assert now >= start || now < start;
  }

  /** An update pays no more than what it takes off what is left. */
  lemma UpdatePays(m: RateModel, assets: U64, last: nat, now: U64)
    requires GetRate(m, assets, now).Ok? && last <= now
    ensures RewardsReturn(GetRate(m, assets, now).value, last, now) * assets * SECONDS_PER_YEAR + Left(m, now) * RETURN_PERCENT_PRECISION
         <= Left(m, last) * RETURN_PERCENT_PRECISION
  {
    var info := GetRate(m, assets, now).value;
    var end := EndOf(m);
    var nextEnd := end + m.nextDuration;
    var x, y := Overlap(last, now, m.startTime, end), Overlap(last, now, end, nextEnd);
    RatesWithin(m, assets, now);
    RatesInSequence(m, assets, now);
    PeriodPays(info.currentRate, m.yearlyReward, assets, x);
    PeriodPays(info.nextRate, NextYearly(m), assets, y);
    RemainingSplits(last, now, m.startTime, end);
    RemainingSplits(last, now, end, nextEnd);
    PeriodsAre(m, assets, now, last);
    hide GetRate, Overlap, Prorate, Remaining, RewardsReturn, NextYearly;
    BothWithin(Prorate(info.currentRate, x), Prorate(info.nextRate, y), assets, m.yearlyReward, x,
               Remaining(now, m.startTime, end), NextYearly(m), y, Remaining(now, end, nextEnd));
  }

  lemma BothWithin(a: nat, b: nat, assets: nat, yearly: nat, x: nat, rest: nat, next: nat, y: nat, later: nat)
    requires a * assets * SECONDS_PER_YEAR <= yearly * x * RETURN_PERCENT_PRECISION
    requires b * assets * SECONDS_PER_YEAR <= next * y * RETURN_PERCENT_PRECISION
    ensures (a + b) * assets * SECONDS_PER_YEAR + (yearly * rest + next * later) * RETURN_PERCENT_PRECISION
         <= (yearly * (x + rest) + next * (y + later)) * RETURN_PERCENT_PRECISION
  {
    assert (a + b) * assets == a * assets + b * assets;
    assert yearly * (x + rest) == yearly * x + yearly * rest;
    assert next * (y + later) == next * y + next * later;
  }

  lemma RatesWithin(m: RateModel, assets: U64, now: U64)
    requires GetRate(m, assets, now).Ok?
    ensures var info := GetRate(m, assets, now).value;
            && info.currentRate * assets <= m.yearlyReward * RETURN_PERCENT_PRECISION
            && info.nextRate * assets <= NextYearly(m) * RETURN_PERCENT_PRECISION
  {
    hide RateOf;
    if RateOf(m.yearlyReward, assets).Ok? {
      RateWithin(m.yearlyReward, assets);
    }
    if RateOf(NextYearly(m), assets).Ok? {
      RateWithin(NextYearly(m), assets);
    }
  }

  lemma PeriodsAre(m: RateModel, assets: U64, now: U64, last: nat)
    requires GetRate(m, assets, now).Ok?
    ensures var info := GetRate(m, assets, now).value;
            var current := Prorate(info.currentRate, Overlap(last, now, m.startTime, EndOf(m)));
            var next := Prorate(info.nextRate, Overlap(last, now, EndOf(m), EndOf(m) + m.nextDuration));
            RewardsReturn(info, last, now) == current + next
  {
    var info := GetRate(m, assets, now).value;
    RatesInSequence(m, assets, now);
    hide CurrentRate, NextRate, Overlap;
    NothingProrated(info, last, now);
    NothingAtZero(Overlap(last, now, EndOf(m), EndOf(m) + m.nextDuration));
  }

  lemma NothingAtZero(seconds: nat)
    ensures Prorate(0, seconds) == 0
  {
  }

  /** What a call that succeeds pays, and what it leaves, is within what was left and what it promises anew. */
  ghost predicate WithinPromise(s: Market, c: Call, n: Market) {
    PaidBy(s, c) * SECONDS_PER_YEAR + LeftIn(n) * RETURN_PERCENT_PRECISION
      <= LeftIn(s) * RETURN_PERCENT_PRECISION + PromisedBy(c) * SECONDS_PER_YEAR * RETURN_PERCENT_PRECISION
  }

  lemma SyncPays(s: Market, c: Call)
    requires Updated(s, c).Ok? && s.lending.lastUpdateTimestamp <= c.now && Syncs(s, c)
    ensures PaidBy(s, c) * SECONDS_PER_YEAR + Left(s.model, c.now) * RETURN_PERCENT_PRECISION <= LeftIn(s) * RETURN_PERCENT_PRECISION
  {
    hide GetRate, RewardsReturn, Left;
    UpdatePays(s.model, Assets(s, c), s.lending.lastUpdateTimestamp, c.now);
  }

  lemma NoNextYearly(m: RateModel)
    requires m.nextRewardAmount == 0
    ensures NextYearly(m) == 0
  {
  }

  lemma YearlyWithin(amount: nat, duration: nat)
    requires duration > 0
    ensures amount * SECONDS_PER_YEAR / duration * duration <= amount * SECONDS_PER_YEAR
  {
    FloorBounds(amount * SECONDS_PER_YEAR, duration);
  }

  lemma StartLeaves(m: RateModel, amount: nat, last: nat)
    requires m.duration > 0 && m.nextRewardAmount == 0 && m.yearlyReward == amount * SECONDS_PER_YEAR / m.duration
    ensures Left(m, last) <= amount * SECONDS_PER_YEAR
  {
    NoNextYearly(m);
    YearlyWithin(amount, m.duration);
    MulBoth(Remaining(last, m.startTime, EndOf(m)), m.duration, m.yearlyReward);
  }

  lemma QueueLeaves(m: RateModel, n: RateModel, last: nat)
    requires m.nextRewardAmount == 0 && n.nextDuration > 0
    requires n == m.(nextRewardAmount := n.nextRewardAmount, nextDuration := n.nextDuration)
    ensures Left(n, last) <= Left(m, last) + n.nextRewardAmount * SECONDS_PER_YEAR
  {
    NoNextYearly(m);
    YearlyWithin(n.nextRewardAmount, n.nextDuration);
    MulBoth(Remaining(last, EndOf(n), EndOf(n) + n.nextDuration), n.nextDuration, NextYearly(n));
  }

  lemma ShorterLeaves(m: RateModel, n: RateModel, last: nat)
    requires n.nextRewardAmount == 0 && n.startTime == m.startTime && n.yearlyReward == m.yearlyReward && n.duration <= m.duration
    ensures Left(n, last) <= Left(m, last)
  {
    NoNextYearly(n);
    hide NextYearly;
    MulBoth(Remaining(last, n.startTime, EndOf(n)), Remaining(last, m.startTime, EndOf(m)), m.yearlyReward);
    assert NextYearly(m) * Remaining(last, EndOf(m), EndOf(m) + m.nextDuration) >= 0;
  }

  lemma NextLeaves(m: RateModel, n: RateModel, last: nat)
    requires m.nextDuration > 0 && n.nextRewardAmount == 0 && n.startTime == EndOf(m) && n.duration == m.nextDuration
    requires n.yearlyReward == NextYearly(m)
    ensures Left(n, last) <= Left(m, last)
  {
    NoNextYearly(n);
    hide NextYearly;
    assert m.yearlyReward * Remaining(last, m.startTime, EndOf(m)) >= 0;
  }

  lemma CallWithinPromise(s: Market, c: Call)
    requires Apply(s, c).Ok? && s.lending.lastUpdateTimestamp <= c.now
    ensures WithinPromise(s, c, Apply(s, c).value)
    ensures s.lending.lastUpdateTimestamp <= Apply(s, c).value.lending.lastUpdateTimestamp <= c.now
  {
    hide NewTokenExchangePrice, Left, PaidBy;
    var m, n := s.model, Apply(s, c).value;
    if Syncs(s, c) {
      assert Updated(s, c).Ok?;
      SyncPays(s, c);
      assert n.lending.lastUpdateTimestamp == c.now;
    } else {
      assert PaidBy(s, c) == 0 by {
        NothingPaid(s, c);
      }
    }
    match c.action
    case UpdateRate =>
    case Start(amount, _, _, _) => StartLeaves(n.model, amount, n.lending.lastUpdateTimestamp);
    case Stop => ShorterLeaves(m, n.model, c.now);
    case Cancel => ShorterLeaves(m, n.model, n.lending.lastUpdateTimestamp);
    case Queue(amount, _) =>
      if c.now > EndOf(m) {
        StartLeaves(n.model, amount, n.lending.lastUpdateTimestamp);
      } else {
        QueueLeaves(m, n.model, n.lending.lastUpdateTimestamp);
      }
    case Next => NextLeaves(m, n.model, c.now);
  }

  lemma NothingPaid(s: Market, c: Call)
    requires !Syncs(s, c)
    ensures PaidBy(s, c) == 0
  {
  }

  // ---------------------------------------------------------------- nothing short of it

  /** `Left` of a single period whose yearly reward is the amount over its time, rounded down. */
  lemma WholePeriod(amount: nat, duration: nat, yearly: nat, last: nat, start: nat)
    requires duration > 0 && yearly == amount * SECONDS_PER_YEAR / duration && last <= start
    ensures amount * SECONDS_PER_YEAR - duration < yearly * Remaining(last, start, start + duration) <= amount * SECONDS_PER_YEAR
  {
    FloorBounds(amount * SECONDS_PER_YEAR, duration);
  }

  /** What each call leaves to be paid: starting and queueing leave the whole amount, up to the rounding of a yearly reward;
      an update and moving on leave what was left; stopping leaves nothing, and cancelling what is not queued. */
  lemma CallLeaves(s: Market, c: Call)
    requires Apply(s, c).Ok? && s.lending.lastUpdateTimestamp <= c.now
    ensures var m, n := s.model, Apply(s, c).value;
            match c.action
            case UpdateRate => n.model == m && n.lending.lastUpdateTimestamp == c.now
            case Start(amount, duration, startTime, startTvl) =>
              && amount * SECONDS_PER_YEAR - duration < LeftIn(n) <= amount * SECONDS_PER_YEAR
              && n.model.startTime == (if startTime == 0 then c.now else startTime) >= c.now
              && EndOf(n.model) == n.model.startTime + duration && n.model.startTvl == startTvl && n.model.nextRewardAmount == 0
            case Stop => LeftIn(n) == 0 && n.lending.lastUpdateTimestamp == c.now && n.model.startTime == m.startTime
            case Cancel =>
              LeftIn(n) == m.yearlyReward * Remaining(s.lending.lastUpdateTimestamp, m.startTime, EndOf(m))
              && n.lending == s.lending && n.model.nextRewardAmount == 0
            case Queue(amount, duration) =>
              var before := if c.now <= EndOf(m) then LeftIn(s) else 0;
              && amount * SECONDS_PER_YEAR - duration < LeftIn(n) - before <= amount * SECONDS_PER_YEAR
              && n.model.startTvl == m.startTvl
              && (if c.now <= EndOf(m) then EndOf(n.model) + n.model.nextDuration else EndOf(n.model)) == Max(EndOf(m), c.now) + duration
            case Next =>
              && LeftIn(n) == Left(m, c.now) && n.lending.lastUpdateTimestamp == c.now && n.model.startTvl == m.startTvl
              && n.model.startTime == EndOf(m) && EndOf(n.model) == EndOf(m) + m.nextDuration
  {
    hide NewTokenExchangePrice, Left, Remaining, NextYearly;
    var m, n := s.model, Apply(s, c).value;
    var last := n.lending.lastUpdateTimestamp;
    assert last == c.now || last == s.lending.lastUpdateTimestamp;
    match c.action
    case UpdateRate =>
    case Start(amount, duration, _, _) => StartedLeaves(n.model, amount, last);
    case Stop => StoppedLeaves(n.model, c.now);
    case Cancel => OnePeriodLeft(n.model, last);
    case Queue(amount, duration) =>
      if c.now <= EndOf(m) {
        QueuedLeaves(m, n.model, last);
      } else {
        StartedLeaves(n.model, amount, last);
      }
    case Next => MovedLeaves(m, n.model, c.now);
  }

  lemma OnePeriodLeft(m: RateModel, last: nat)
    requires m.nextRewardAmount == 0
    ensures Left(m, last) == m.yearlyReward * Remaining(last, m.startTime, EndOf(m))
  {
    NoNextYearly(m);
  }

  lemma StartedLeaves(m: RateModel, amount: nat, last: nat)
    requires m.nextRewardAmount == 0 && m.duration > 0 && last <= m.startTime
    requires m.yearlyReward == amount * SECONDS_PER_YEAR / m.duration
    ensures amount * SECONDS_PER_YEAR - m.duration < Left(m, last) <= amount * SECONDS_PER_YEAR
  {
    OnePeriodLeft(m, last);
    WholePeriod(amount, m.duration, m.yearlyReward, last, m.startTime);
  }

  lemma StoppedLeaves(m: RateModel, now: nat)
    requires m.nextRewardAmount == 0 && EndOf(m) <= Max(now, m.startTime)
    ensures Left(m, now) == 0
  {
    OnePeriodLeft(m, now);
  }

  lemma QueuedLeaves(m: RateModel, n: RateModel, last: nat)
    requires m.nextRewardAmount == 0 && n.nextDuration > 0 && last <= EndOf(m)
    requires n == m.(nextRewardAmount := n.nextRewardAmount, nextDuration := n.nextDuration)
    ensures n.nextRewardAmount * SECONDS_PER_YEAR - n.nextDuration < Left(n, last) - Left(m, last) <= n.nextRewardAmount * SECONDS_PER_YEAR
  {
    OnePeriodLeft(m, last);
    WholePeriod(n.nextRewardAmount, n.nextDuration, NextYearly(n), last, EndOf(m));
  }

  lemma MovedLeaves(m: RateModel, n: RateModel, now: nat)
    requires n.nextRewardAmount == 0 && m.nextDuration > 0 && now >= EndOf(m) && n.startTime == EndOf(m)
    requires n.duration == m.nextDuration && n.yearlyReward == m.nextRewardAmount * SECONDS_PER_YEAR / m.nextDuration
    ensures Left(n, now) == Left(m, now)
  {
    OnePeriodLeft(n, now);
    assert m.yearlyReward * Remaining(now, m.startTime, EndOf(m)) == 0;
  }

  /** No call overwrites rewards that are still to be paid for time that has passed, or that are queued: new rewards start
      when all old ones are over and paid, and only rewards not yet begun are cancelled. */
  lemma NothingOverwritten(s: Market, c: Call)
    requires Apply(s, c).Ok?
    ensures match c.action
            case UpdateRate => true
            case Start(_, _, _, _) => Left(s.model, c.now) == 0 && (s.model.yearlyReward > 0 ==> Syncs(s, c))
            case Stop => s.model.nextRewardAmount == 0 && Syncs(s, c)
            case Cancel => Remaining(c.now, EndOf(s.model), EndOf(s.model) + s.model.nextDuration) == s.model.nextDuration
            case Queue(_, _) =>
              s.model.nextRewardAmount == 0
              && (c.now > EndOf(s.model) ==> Left(s.model, c.now) == 0 && (s.model.yearlyReward > 0 ==> Syncs(s, c)))
            case Next => Remaining(c.now, s.model.startTime, EndOf(s.model)) == 0 && Syncs(s, c)
  {
    hide NewTokenExchangePrice;
    if s.model.nextRewardAmount == 0 {
      NoNextYearly(s.model);
    }
  }

  lemma PeriodPaysAll(rate: nat, yearly: nat, assets: nat, seconds: nat)
    requires yearly * RETURN_PERCENT_PRECISION < (rate + 1) * assets
    ensures yearly * seconds * RETURN_PERCENT_PRECISION
         <= Prorate(rate, seconds) * assets * SECONDS_PER_YEAR + assets * seconds + assets * SECONDS_PER_YEAR
  {
    var paid := Prorate(rate, seconds);
    FloorBounds(rate * seconds, SECONDS_PER_YEAR);
    MulAtMost(rate * seconds, paid * SECONDS_PER_YEAR + SECONDS_PER_YEAR, assets);
    MulAtMost(yearly * RETURN_PERCENT_PRECISION, (rate + 1) * assets, seconds);
    var x, y := paid * assets, yearly * seconds;
    assert (paid * SECONDS_PER_YEAR + SECONDS_PER_YEAR) * assets == x * SECONDS_PER_YEAR + assets * SECONDS_PER_YEAR;
    assert yearly * RETURN_PERCENT_PRECISION * seconds == y * RETURN_PERCENT_PRECISION;
    assert (rate + 1) * assets * seconds == rate * seconds * assets + assets * seconds;
  }

  /** An update pays everything it takes off what is left, up to one unit a second and two more of each unit of assets, where
      neither rate is cut and there are assets enough. */
  lemma UpdatePaysAll(m: RateModel, assets: U64, last: nat, now: U64)
    requires 0 < m.startTime <= now && GetRate(m, assets, now).Ok? && last <= now
    requires assets >= m.startTvl && 2 * m.yearlyReward < assets && 2 * NextYearly(m) < assets
    ensures Left(m, last) * RETURN_PERCENT_PRECISION
         <= RewardsReturn(GetRate(m, assets, now).value, last, now) * assets * SECONDS_PER_YEAR
          + Left(m, now) * RETURN_PERCENT_PRECISION + assets * (now - last) + 2 * assets * SECONDS_PER_YEAR
  {
    var info := GetRate(m, assets, now).value;
    var end := EndOf(m);
    var nextEnd := end + m.nextDuration;
    var x, y := Overlap(last, now, m.startTime, end), Overlap(last, now, end, nextEnd);
    RatesReach(m, assets, now);
    PeriodPaysAll(info.currentRate, m.yearlyReward, assets, x);
    PeriodPaysAll(info.nextRate, NextYearly(m), assets, y);
    RemainingSplits(last, now, m.startTime, end);
    RemainingSplits(last, now, end, nextEnd);
    PeriodsAre(m, assets, now, last);
    PeriodsDisjoint(last, now, m.startTime, end, nextEnd);
    hide GetRate, Overlap, Prorate, Remaining, RewardsReturn, NextYearly;
    BothReach(Prorate(info.currentRate, x), Prorate(info.nextRate, y), assets, m.yearlyReward, x,
              Remaining(now, m.startTime, end), NextYearly(m), y, Remaining(now, end, nextEnd), now - last);
  }

  lemma RatesReach(m: RateModel, assets: U64, now: U64)
    requires 0 < m.startTime <= now && GetRate(m, assets, now).Ok?
    requires assets >= m.startTvl && 2 * m.yearlyReward < assets && 2 * NextYearly(m) < assets
    ensures var info := GetRate(m, assets, now).value;
            && m.yearlyReward * RETURN_PERCENT_PRECISION < (info.currentRate + 1) * assets
            && NextYearly(m) * RETURN_PERCENT_PRECISION < (info.nextRate + 1) * assets
  {
    hide RateOf;
    CutFromHalf(m.yearlyReward, assets);
    if m.nextRewardAmount > 0 {
      CutFromHalf(NextYearly(m), assets);
    } else {
      NoNextYearly(m);
    }
  }

  lemma BothReach(a: nat, b: nat, assets: nat, yearly: nat, x: nat, rest: nat, next: nat, y: nat, later: nat,
                  elapsed: nat)
    requires x + y <= elapsed
    requires yearly * x * RETURN_PERCENT_PRECISION <= a * assets * SECONDS_PER_YEAR + assets * x + assets * SECONDS_PER_YEAR
    requires next * y * RETURN_PERCENT_PRECISION <= b * assets * SECONDS_PER_YEAR + assets * y + assets * SECONDS_PER_YEAR
    ensures (yearly * (x + rest) + next * (y + later)) * RETURN_PERCENT_PRECISION
         <= (a + b) * assets * SECONDS_PER_YEAR + (yearly * rest + next * later) * RETURN_PERCENT_PRECISION
          + assets * elapsed + 2 * assets * SECONDS_PER_YEAR
  {
    MulAtMost(x + y, elapsed, assets);
    assert (a + b) * assets == a * assets + b * assets;
    assert yearly * (x + rest) == yearly * x + yearly * rest;
    assert next * (y + later) == next * y + next * later;
    assert (x + y) * assets == assets * x + assets * y;
  }

  // ---------------------------------------------------------------- whole lives

  /** What a call is said to pay is what it puts into the share price: its return is the rewards on the assets by which,
      beside Liquidity's own rise, the price grows. A call that does not sync leaves the price alone. */
  lemma PaidShows(s: Market, c: Call) returns (rewards: nat)
    requires Apply(s, c).Ok?
    ensures PaidBy(s, c) == rewards * Assets(s, c)
    ensures var t, was, n := s.lending.tokenExchangePrice, s.lending.liquidityExchangePrice, Apply(s, c).value.lending;
            if Syncs(s, c) then
              && n.tokenExchangePrice >= t && n.liquidityExchangePrice == c.liquidityPrice >= was
              && GainIs(t, was, c.liquidityPrice - was, rewards, n.tokenExchangePrice - t, RETURN_PERCENT_PRECISION)
            else n == s.lending && rewards == 0
  {
    hide NewTokenExchangePrice, GetRate, RewardsReturn, GainIs, TotalAssets;
    if Syncs(s, c) {
      assert Updated(s, c).Ok?;
      TokenPriceExactly(c.liquidityPrice, s.lending, s.model, c.totalSupply, c.now);
      TokenPriceIs(c.liquidityPrice, s.lending, s.model, c.totalSupply, c.now);
      rewards := RewardsReturn(GetRate(s.model, Assets(s, c), c.now).value, s.lending.lastUpdateTimestamp, c.now);
    } else {
      rewards := 0;
    }
  }

  /** A failed call is rolled back. */
  function After(s: Market, c: Call): Market {
    match Apply(s, c)
    case Ok(n) => n
    case Err(_) => s
  }

  function Run(s: Market, calls: seq<Call>): Market
    decreases |calls|
  {
    if calls == [] then s else Run(After(s, calls[0]), calls[1..])
  }

  function PaidIn(s: Market, calls: seq<Call>): nat
    decreases |calls|
  {
    if calls == [] then 0
    else (if Apply(s, calls[0]).Ok? then PaidBy(s, calls[0]) else 0) + PaidIn(After(s, calls[0]), calls[1..])
  }

  function PromisedIn(s: Market, calls: seq<Call>): nat
    decreases |calls|
  {
    if calls == [] then 0
    else (if Apply(s, calls[0]).Ok? then PromisedBy(calls[0]) else 0) + PromisedIn(After(s, calls[0]), calls[1..])
  }

  /** A run pays and promises what its parts do, one call what that call does. */
  lemma {:induction false} RunSplits(s: Market, calls: seq<Call>, more: seq<Call>)
    ensures Run(s, calls + more) == Run(Run(s, calls), more)
    ensures PaidIn(s, calls + more) == PaidIn(s, calls) + PaidIn(Run(s, calls), more)
    ensures PromisedIn(s, calls + more) == PromisedIn(s, calls) + PromisedIn(Run(s, calls), more)
    decreases |calls|
  {
    hide Apply, PaidBy;
    if calls == [] {
      assert calls + more == more;
    } else {
      assert (calls + more)[1..] == calls[1..] + more;
      RunSplits(After(s, calls[0]), calls[1..], more);
    }
  }

  lemma SingleCall(s: Market, c: Call)
    ensures Apply(s, c).Ok? ==>
              Run(s, [c]) == Apply(s, c).value && PaidIn(s, [c]) == PaidBy(s, c) && PromisedIn(s, [c]) == PromisedBy(c)
    ensures Apply(s, c).Err? ==> Run(s, [c]) == s && PaidIn(s, [c]) == 0 && PromisedIn(s, [c]) == 0
  {
    hide Apply, PaidBy;
  }

  /** The clock does not go back. */
  predicate Forward(clock: nat, calls: seq<Call>)
    decreases |calls|
  {
    calls == [] || (clock <= calls[0].now && Forward(calls[0].now, calls[1..]))
  }

  /** Over any run of updates and of starting, stopping, queueing, cancelling and moving on to rewards, at any times, prices
      and supplies: what has been paid and what is left is within what was left and what was promised. */
  lemma {:induction false} RunWithinPromise(s: Market, calls: seq<Call>, clock: nat)
    requires s.lending.lastUpdateTimestamp <= clock && Forward(clock, calls)
    ensures PaidIn(s, calls) * SECONDS_PER_YEAR + LeftIn(Run(s, calls)) * RETURN_PERCENT_PRECISION
         <= LeftIn(s) * RETURN_PERCENT_PRECISION + PromisedIn(s, calls) * SECONDS_PER_YEAR * RETURN_PERCENT_PRECISION
    decreases |calls|
  {
    hide Apply, PaidBy, LeftIn;
    if calls != [] {
      var c := calls[0];
      if Apply(s, c).Ok? {
        CallWithinPromise(s, c);
      }
      RunWithinPromise(After(s, c), calls[1..], c.now);
    }
  }

  /** From a fresh rate model on, all rewards ever paid are within all tokens ever set aside. */
  lemma RewardsWithinPromise(l: Lending, calls: seq<Call>, clock: nat)
    requires l.lastUpdateTimestamp <= clock && Forward(clock, calls)
    ensures var s := Market(l, RateModel(0, 0, 0, 0, 0, 0));
            PaidIn(s, calls) <= PromisedIn(s, calls) * RETURN_PERCENT_PRECISION
  {
    hide PaidIn, PromisedIn, Run;
    RunWithinPromise(Market(l, RateModel(0, 0, 0, 0, 0, 0)), calls, clock);
  }

  // ---------------------------------------------------------------- single calls

  /** Moving on to the queued rewards changes no rate and no second of what any later update pays. */
  lemma NextSeamless(s: Market, c: Call, assets: U64, now: U64)
    requires c.action == Next && Apply(s, c).Ok? && s.model.startTime > 0 && c.now <= now
    ensures var n := Apply(s, c).value.model;
            && (GetRate(n, assets, now).Ok? <==> GetRate(s.model, assets, now).Ok?)
            && (GetRate(n, assets, now).Ok? ==>
                  RewardsReturn(GetRate(n, assets, now).value, c.now, now)
                  == RewardsReturn(GetRate(s.model, assets, now).value, c.now, now))
  {
    hide NewTokenExchangePrice;
    var m, n := s.model, Apply(s, c).value.model;
    assert n.yearlyReward == NextYearly(m) && n.startTime == EndOf(m) && n.duration == m.nextDuration;
    MulAtMost(m.yearlyReward, U64_MAX, RETURN_PERCENT_PRECISION);
    MulAtMost(n.yearlyReward, U64_MAX, RETURN_PERCENT_PRECISION);
    assert CurrentRate(n, assets) == NextRate(m, assets);
    assert CurrentRate(m, assets).Ok? <== NextRate(m, assets).Ok?;
    if GetRate(m, assets, now).Ok? {
      hide Apply, CurrentRate, NextRate, Overlap, Prorate;
      PeriodsAre(m, assets, now, c.now);
      PeriodsAre(n, assets, now, c.now);
      OverBefore(c.now, now, m.startTime, EndOf(m));
      NothingProratedAt(GetRate(m, assets, now).value.currentRate);
      NothingAtZero(Overlap(c.now, now, EndOf(n), EndOf(n) + n.nextDuration));
    }
  }

  lemma OverBefore(from: nat, to: nat, start: nat, end: nat)
    requires end <= from
    ensures Overlap(from, to, start, end) == 0
  {
  }

  lemma NothingProratedAt(rate: nat)
    ensures Prorate(rate, 0) == 0
  {
  }

  /** Once stopped, a market pays no rewards, whenever it is next brought up to date. */
  lemma StopEnds(s: Market, c: Call, assets: U64, now: U64)
    requires c.action == Stop && Apply(s, c).Ok? && c.now <= now
    requires GetRate(Apply(s, c).value.model, assets, now).Ok?
    ensures RewardsReturn(GetRate(Apply(s, c).value.model, assets, now).value, c.now, now) == 0
  {
    hide NewTokenExchangePrice;
    var n := Apply(s, c).value.model;
    assert n.nextRewardAmount == 0 && EndOf(n) <= Max(c.now, n.startTime);
    hide Apply, Overlap, Prorate, CurrentRate;
    var info := GetRate(n, assets, now).value;
    PeriodsAre(n, assets, now, c.now);
    StoppedOver(c.now, now, n.startTime, EndOf(n));
    NothingProratedAt(info.currentRate);
    NothingAtZero(Overlap(c.now, now, EndOf(n), EndOf(n) + n.nextDuration));
  }

  lemma StoppedOver(from: nat, to: nat, start: nat, end: nat)
    requires end <= Max(from, start)
    ensures Overlap(from, to, start, end) == 0
  {
  }

  /** Rewards that are queued can be moved on to, once it is time and the price can be brought up to date, if and only if what
      they come to in a year and their end fit 64 bits. Nothing else takes them out of the queue by then. */
  lemma NextExactly(s: Market, c: Call)
    requires EndOf(s.model) <= U64_MAX && c.now > EndOf(s.model) && s.model.nextRewardAmount > 0 && s.model.nextDuration > 0
    ensures c.action == Next ==>
              (Apply(s, c).Ok? <==>
                 Updated(s, c).Ok? && NextYearly(s.model) <= U64_MAX && EndOf(s.model) + s.model.nextDuration <= U64_MAX)
    ensures Apply(s, c).Ok? ==>
              c.action == Next || (c.action == UpdateRate && Apply(s, c).value.model == s.model)
  {
    hide NewTokenExchangePrice;
  }
}
