/** What the SDK collects before a liquidation: `loadRelevantTicksForLiquidate` and
    `loadRelevantTicksHasDebtArraysLiquidate` of `ts-sdk/vault/context/context.ts`. */
module LiquidationTicks {
  import opened Common
  import opened TickBitmap
  import opened TickScan

  /** Strictly descending. */
  ghost predicate Descending(ticks: seq<int>) {
    forall i, j :: 0 <= i < j < |ticks| ==> ticks[j] < ticks[i]
  }

  /** Every set bit has its tick account. */
  ghost predicate BitsHaveAccounts(accounts: Accounts, tickAccounts: Ticks)
    requires ValidAccounts(accounts)
  {
    forall t :: TickBit(accounts, t) ==> t in tickAccounts
  }

  /** The ticks with a set bit strictly between the two given ones, highest first. */
  ghost predicate AreDebtTicks(accounts: Accounts, low: int, high: int, ticks: seq<int>)
    requires ValidAccounts(accounts)
  {
    Descending(ticks) && forall t :: t in ticks <==> low < t < high && TickBit(accounts, t)
  }

  /** The state of the collection between two searches: `first` holds the top tick if it was read, `next` is the tick
      the last search returned. */
  ghost predicate Collecting(accounts: Accounts, low: int, high: int, first: seq<int>, rest: seq<int>, next: int,
                             touched: set<nat>)
    requires ValidAccounts(accounts)
  {
    && InRange(next) && (next > low ==> next < high && TickBit(accounts, next) && next !in first + rest)
    && AreDebtTicks(accounts, Max(next, low), high, rest) && (forall t :: t in first ==> t == high)
    && forall i :: i in touched ==> InRange(high) && ArrayIndex(next) <= i <= ArrayIndex(high)
  }

  /** What one search tells the collection: it continues with a debt tick below, and skips none. */
  lemma SearchStep(accounts: Accounts, topTick: int, start: int, r: int)
    requires ValidAccounts(accounts) && AllPresent(accounts, topTick) && start <= topTick <= MAX_TICK
    requires InRange(r) && IsNext(ReachableTicks(accounts, start), start, r)
    requires InRange(topTick) ==> InRange(start)
    ensures r > MIN_TICK ==> r < start && TickBit(accounts, r)
    ensures forall t :: r < t < start ==> !TickBit(accounts, t)
  {
    hide HasBit;
    forall t | r < t < start && InRange(t) && InRange(start)
      ensures !TickBit(accounts, t)
    {
      IndexMonotone(t, start);
      IndexMonotone(start, topTick);
      assert t !in ReachableTicks(accounts, start);
    }
  }

  lemma FirstSearch(accounts: Accounts, low: int, high: int, first: seq<int>, next: int, touched: set<nat>)
    requires ValidAccounts(accounts) && AllPresent(accounts, high) && high <= MAX_TICK && MIN_TICK <= low
    requires forall t :: t in first ==> t == high
    requires InRange(next) && IsNext(ReachableTicks(accounts, high), high, next)
    requires forall i :: i in touched ==> InRange(high) && ArrayIndex(next) <= i <= ArrayIndex(high)
    ensures Collecting(accounts, low, high, first, [], next, touched)
  {
    hide TickBit, IsNext, ArrayIndex;
    SearchStep(accounts, high, high, next);
  }

  lemma AnotherSearch(accounts: Accounts, low: int, high: int, first: seq<int>, rest: seq<int>, found: int,
                      next: int, touched: set<nat>, more: set<nat>)
    requires ValidAccounts(accounts) && AllPresent(accounts, high) && high <= MAX_TICK && MIN_TICK <= low < found
    requires Collecting(accounts, low, high, first, rest, found, touched)
    requires InRange(next) && IsNext(ReachableTicks(accounts, found), found, next)
    requires forall i :: i in more ==> InRange(found) && ArrayIndex(next) <= i <= ArrayIndex(found)
    ensures next < found && Collecting(accounts, low, high, first, rest + [found], next, touched + more)
  {
    hide TickBit, IsNext, ArrayIndex;
    SearchStep(accounts, high, found, next);
    Append(accounts, low, high, rest, found, next);
    if InRange(high) {
      IndexMonotone(found, high);
      IndexMonotone(next, found);
    }
  }

  /** Appending the tick a search found, once the next search has found nothing in between. */
  lemma Append(accounts: Accounts, low: int, high: int, ticks: seq<int>, found: int, next: int)
    requires ValidAccounts(accounts) && AreDebtTicks(accounts, found, high, ticks)
    requires low < found < high && TickBit(accounts, found) && next < found
    requires forall t :: next < t < found ==> !TickBit(accounts, t)
    ensures AreDebtTicks(accounts, Max(next, low), high, ticks + [found])
  {
    hide TickBit;
    var all := ticks + [found];
    forall i, j | 0 <= i < j < |all|
      ensures all[j] < all[i]
    {
      assert all[i] in ticks;
    }
    forall t
      ensures t in all <==> Max(next, low) < t < high && TickBit(accounts, t)
    {
      assert t in all <==> t in ticks || t == found;
    }
  }

  /** The collected ticks are the top tick, when it is above the liquidation tick and has an account, and then the debt
      ticks between the two in descending order; the search stops at or below the liquidation tick; and every bitmap
      array read on the way has an index between those of the last found tick and the top tick. */
  method LoadRelevantTicksForLiquidate(accounts: Accounts, tickAccounts: Ticks, topTick: int, liquidationTick: int)
    returns (ticks: seq<int>, nextTick: int, ghost touched: set<nat>)
    requires ValidAccounts(accounts) && AllPresent(accounts, topTick) && BitsHaveAccounts(accounts, tickAccounts)
    requires topTick <= MAX_TICK && MIN_TICK <= liquidationTick
    ensures InRange(nextTick) && nextTick <= liquidationTick
    ensures exists rest :: AreDebtTicks(accounts, liquidationTick, topTick, rest)
              && ticks == (if topTick > liquidationTick && topTick in tickAccounts then [topTick] else []) + rest
    ensures forall i :: i in touched ==> InRange(topTick) && ArrayIndex(nextTick) <= i <= ArrayIndex(topTick)
  {
    hide TickBit, IsNext, AllPresent, AreDebtTicks;
    ticks := [];
    if topTick > liquidationTick && topTick in tickAccounts {
      ticks := [topTick];
    }
    ghost var first, rest := ticks, [];
    nextTick, touched := FindNextTickWithDebt(accounts, topTick);
    FirstSearch(accounts, liquidationTick, topTick, first, nextTick, touched);
    while nextTick > liquidationTick && nextTick !in ticks
      invariant ticks == first + rest
      invariant Collecting(accounts, liquidationTick, topTick, first, rest, nextTick, touched)
      decreases nextTick - MIN_TICK
    {
      ghost var found, more := nextTick, {};
      var nextTickData := tickAccounts[nextTick];
      ticks := ticks + [nextTick];
      nextTick, more := FindNextTickWithDebt(accounts, nextTick);
      AnotherSearch(accounts, liquidationTick, topTick, first, rest, found, nextTick, touched, more);
      rest, touched := rest + [found], touched + more;
    }
  }

  datatype LoadError = TickOutOfRange

  /** The arrays from the top tick's down to the last found tick's, as they are fetched. */
  method LoadRelevantTicksHasDebtArraysLiquidate(accounts: Accounts, topTick: int, nextTick: int)
    returns (r: Result<seq<Option<ArrayAccount>>, LoadError>)
    ensures r.Ok? <==> InRange(topTick) && InRange(nextTick)
    ensures r.Ok? ==>
              && |r.value| == Max(0, ArrayIndex(topTick) - ArrayIndex(nextTick) + 1)
              && forall k :: 0 <= k < |r.value| ==>
                   var i := ArrayIndex(topTick) - k;
                   r.value[k] == if i in accounts then Some(accounts[i]) else None
  {
    if !InRange(topTick) || !InRange(nextTick) {
      return Err(LoadError.TickOutOfRange);
    }
    var arrays: seq<Option<ArrayAccount>> := [];
    var arrIdx: int := ArrayIndex(topTick);
    while arrIdx >= ArrayIndex(nextTick)
      invariant |arrays| == ArrayIndex(topTick) - arrIdx
      invariant |arrays| <= Max(0, ArrayIndex(topTick) - ArrayIndex(nextTick) + 1)
      invariant forall k :: 0 <= k < |arrays| ==>
                  var i := ArrayIndex(topTick) - k;
                  arrays[k] == if i in accounts then Some(accounts[i]) else None
      decreases arrIdx
    {
      arrays := arrays + [if arrIdx in accounts then Some(accounts[arrIdx]) else None];
      arrIdx := arrIdx - 1;
    }
    r := Ok(arrays);
  }

  /** Both loads in the order the liquidation context makes them: every bitmap array the searches read is among the
      arrays loaded afterwards. */
  method LoadForLiquidation(accounts: Accounts, tickAccounts: Ticks, topTick: int, liquidationTick: int)
    returns (ticks: seq<int>, arrays: seq<Option<ArrayAccount>>, ghost touched: set<nat>)
    requires ValidAccounts(accounts) && AllPresent(accounts, topTick) && BitsHaveAccounts(accounts, tickAccounts)
    requires InRange(topTick) && MIN_TICK <= liquidationTick
    ensures exists rest :: AreDebtTicks(accounts, liquidationTick, topTick, rest)
              && ticks == (if topTick > liquidationTick && topTick in tickAccounts then [topTick] else []) + rest
    ensures forall i :: i in touched ==> i in accounts && Some(accounts[i]) in arrays
  {
    hide ValidAccounts, ArrayIndex, AreDebtTicks, BitsHaveAccounts;
    var nextTick;
    ticks, nextTick, touched := LoadRelevantTicksForLiquidate(accounts, tickAccounts, topTick, liquidationTick);
    var loaded := LoadRelevantTicksHasDebtArraysLiquidate(accounts, topTick, nextTick);
    arrays := loaded.value;
    forall i | i in touched
      ensures i in accounts && Some(accounts[i]) in arrays
    {
      assert arrays[ArrayIndex(topTick) - i] == Some(accounts[i]);
    }
  }
}
