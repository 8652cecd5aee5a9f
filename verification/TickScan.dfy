/** The search of `ts-sdk/vault/context/contextProd.ts`, which reads every tick account below the start, and its
    agreement with the bitmap search. */
module TickScan {
  import opened Common
  import opened TickBitmap

  datatype TickAccount = TickAccount(isLiquidated: bool, rawDebt: nat)

  type Ticks = map<int, TickAccount>

  datatype ScanError = TickOutOfRange

  predicate HasDebt(ticks: Ticks, tick: int) {
    tick in ticks && !ticks[tick].isLiquidated && ticks[tick].rawDebt > 0
  }

  /** The debt ticks a scan from `start` looks at: those of existing arrays, if the array of `start` exists. */
  ghost predicate Scannable(arrays: set<nat>, ticks: Ticks, start: int, tick: int) {
    && InRange(start) && ArrayIndex(start) in arrays
    && InRange(tick) && ArrayIndex(tick) in arrays && HasDebt(ticks, tick)
  }

  ghost function ScannableTicks(arrays: set<nat>, ticks: Ticks, start: int): iset<int> {
    iset t: int | Scannable(arrays, ticks, start, t)
  }

  ghost function DebtTicks(ticks: Ticks): iset<int> {
    iset t: int | HasDebt(ticks, t)
  }

  method ScanNextTickWithDebt(arrays: set<nat>, ticks: Ticks, startTick: int) returns (r: Result<int, ScanError>)
    ensures r.Ok? <==> InRange(startTick)
    ensures r.Ok? ==> IsNext(ScannableTicks(arrays, ticks, startTick), startTick, r.value)
  {
    if !InRange(startTick) {
      return Err(TickOutOfRange);
    }
    var arrayIndex: int := ArrayIndex(startTick);
    if arrayIndex !in arrays {
      return Ok(MIN_TICK);
    }
    var tick := startTick - 1;
    while tick >= FirstTickForIndex(arrayIndex)
      invariant FirstTickForIndex(arrayIndex) - 1 <= tick < startTick
      invariant forall t :: tick < t < startTick ==> !Scannable(arrays, ticks, startTick, t)
      decreases tick - FirstTickForIndex(arrayIndex)
    {
      if tick in ticks && !ticks[tick].isLiquidated && ticks[tick].rawDebt > 0 {
        IndexOf(arrayIndex, tick - FirstTickForIndex(arrayIndex));
        return Ok(tick);
      }
      tick := tick - 1;
    }
    var arrIdx: int := arrayIndex - 1;
    while arrIdx >= 0
      invariant -1 <= arrIdx < arrayIndex
      invariant forall t :: FirstTickForIndex(arrIdx + 1) <= t < startTick ==> !Scannable(arrays, ticks, startTick, t)
      decreases arrIdx
    {
      var firstTick := FirstTickForIndex(arrIdx);
      if arrIdx in arrays {
        tick := firstTick + TICKS_PER_TICK_HAS_DEBT - 1;
        while tick >= firstTick
          invariant firstTick - 1 <= tick < firstTick + TICKS_PER_TICK_HAS_DEBT
          invariant forall t :: tick < t < startTick ==> !Scannable(arrays, ticks, startTick, t)
          decreases tick - firstTick
        {
          if tick in ticks && !ticks[tick].isLiquidated && ticks[tick].rawDebt > 0 {
            IndexOf(arrIdx, tick - firstTick);
            return Ok(tick);
          }
          tick := tick - 1;
        }
      } else {
        forall t | firstTick <= t < startTick
          ensures !Scannable(arrays, ticks, startTick, t)
        {
          if t < FirstTickForIndex(arrIdx + 1) {
            IndexOf(arrIdx, t - firstTick);
          }
        }
      }
      arrIdx := arrIdx - 1;
    }
    r := Ok(MIN_TICK);
  }

  /** Each bit is set exactly when its tick has unliquidated debt. */
  ghost predicate BitsMatchDebt(accounts: Accounts, ticks: Ticks)
    requires ValidAccounts(accounts)
  {
    forall t :: InRange(t) && ArrayIndex(t) in accounts ==> (TickBit(accounts, t) <==> HasDebt(ticks, t))
  }

  /** With no array missing and the bits in step with the tick accounts, whatever the bitmap search and the scan return
      is the same: the highest debt tick strictly below the start, or `MIN_TICK`. */
  lemma SearchRefinesScan(accounts: Accounts, ticks: Ticks, start: int, r: int, s: int)
    requires ValidAccounts(accounts) && InRange(start) && AllPresent(accounts, start) && BitsMatchDebt(accounts, ticks)
    requires IsNext(ReachableTicks(accounts, start), start, r)
    requires IsNext(ScannableTicks(accounts.Keys, ticks, start), start, s)
    ensures r == s && IsNext(DebtTicks(ticks), start, r)
  {
    hide HasBit;
    forall t | MIN_TICK < t < start
      ensures Reachable(accounts, start, t) == HasDebt(ticks, t) == Scannable(accounts.Keys, ticks, start, t)
    {
      IndexMonotone(t, start);
      assert ArrayIndex(t) in accounts;
    }
    NextTransfers(ReachableTicks(accounts, start), DebtTicks(ticks), start, r);
    NextTransfers(ScannableTicks(accounts.Keys, ticks, start), DebtTicks(ticks), start, s);
    NextIsUnique(DebtTicks(ticks), start, r, s);
  }

  lemma IndexMonotone(s: int, t: int)
    requires InRange(s) && InRange(t) && s <= t
    ensures ArrayIndex(s) <= ArrayIndex(t)
  {
  }
}
