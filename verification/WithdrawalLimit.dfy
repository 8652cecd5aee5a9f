/** The withdrawal limit of a supply position, which falls over time: `calcWithdrawalLimitBeforeOperate` in
    `ts-sdk/liquidity/resolver/resolver.ts`. */
module WithdrawalLimit {
  import opened Common

  datatype LimitError = DivisionByZero

  datatype SupplyPosition = SupplyPosition(withdrawalLimit: nat, expandPercent: nat, expandDuration: nat,
                                           lastUpdateTimestamp: nat)

  function MaxWithdrawable(p: SupplyPosition, supply: nat): nat {
    supply * p.expandPercent / FOUR_DECIMALS
  }

  /** What must stay supplied once the limit has expanded in full. */
  function Minimum(p: SupplyPosition, supply: nat): int {
    supply - MaxWithdrawable(p, supply)
  }

  function CalcWithdrawalLimitBeforeOperate(p: SupplyPosition, supply: nat, now: nat): Result<int, LimitError> {
    if p.withdrawalLimit == 0 then Ok(0)
    else if p.expandDuration == 0 then Err(DivisionByZero)
    else
      var withdrawable := TruncDiv(MaxWithdrawable(p, supply) * (now - p.lastUpdateTimestamp), p.expandDuration);
      var current := if p.withdrawalLimit > withdrawable then p.withdrawalLimit - withdrawable else 0;
      Ok(if Minimum(p, supply) > current then Minimum(p, supply) else current)
  }

  /** A position as its configuration allows it, seen at or after its last update. */
  ghost predicate Ready(p: SupplyPosition, now: nat) {
    p.expandPercent <= FOUR_DECIMALS && p.expandDuration > 0 && now >= p.lastUpdateTimestamp
  }

  function LimitAt(p: SupplyPosition, supply: nat, now: nat): int
    requires Ready(p, now)
  {
    CalcWithdrawalLimitBeforeOperate(p, supply, now).value
  }

  /** How much of the limit `elapsed` seconds release. */
  function Released(most: nat, elapsed: nat, duration: nat): nat
    requires duration > 0
  {
    most * elapsed / duration
  }

  lemma MinimumNonNegative(p: SupplyPosition, supply: nat)
    requires p.expandPercent <= FOUR_DECIMALS
    ensures 0 <= Minimum(p, supply) <= supply
  {
    MulAtMost(p.expandPercent, FOUR_DECIMALS, supply);
    DivMonotone(supply * p.expandPercent, supply * FOUR_DECIMALS, FOUR_DECIMALS);
  }

  /** The limit in one formula. */
  lemma LimitFormula(p: SupplyPosition, supply: nat, now: nat)
    requires Ready(p, now)
    ensures LimitAt(p, supply, now)
         == if p.withdrawalLimit == 0 then 0
            else Max(p.withdrawalLimit - Released(MaxWithdrawable(p, supply), now - p.lastUpdateTimestamp,
                                                  p.expandDuration), Minimum(p, supply))
  {
    hide MaxWithdrawable, Minimum;
    MinimumNonNegative(p, supply);
    var elapsed: nat := now - p.lastUpdateTimestamp;
    assert MaxWithdrawable(p, supply) * elapsed >= 0;
  }

  lemma ReleasedGrows(most: nat, e: nat, e': nat, duration: nat)
    requires e <= e' && duration > 0
    ensures Released(most, e, duration) <= Released(most, e', duration)
  {
    MulAtMost(e, e', most);
    DivMonotone(most * e, most * e', duration);
  }

  lemma ReleasedInFull(most: nat, elapsed: nat, duration: nat)
    requires elapsed >= duration > 0
    ensures Released(most, elapsed, duration) >= most
    ensures elapsed == duration ==> Released(most, elapsed, duration) == most
  {
    ReleasedGrows(most, duration, elapsed, duration);
    DivUnique(most * duration, duration, most);
  }

  /** Two spans release at most one unit less than the two together, and never more. */
  lemma ReleasedSplits(most: nat, e: nat, f: nat, duration: nat)
    requires duration > 0
    ensures var parts := Released(most, e, duration) + Released(most, f, duration);
            parts <= Released(most, e + f, duration) <= parts + 1
  {
    DivSplits(most * e, most * f, duration);
    assert most * (e + f) == most * e + most * f;
  }

  /** What must stay supplied, from the percentage: the rest of the supply, rounded up. */
  lemma MinimumIs(p: SupplyPosition, supply: nat)
    ensures var most := (supply - Minimum(p, supply)) * FOUR_DECIMALS;
            most <= supply * p.expandPercent < most + FOUR_DECIMALS
  {
  }

  /** An active limit from the position's own numbers. Above the minimum it is the last limit less the share of the percentage
      that the elapsed time is of the duration, rounded down twice; at the minimum, that share has released what the last
      limit was above it. */
  lemma LimitIs(p: SupplyPosition, supply: nat, now: nat)
    requires Ready(p, now) && p.withdrawalLimit > 0
    ensures var limit, least := LimitAt(p, supply, now), Minimum(p, supply);
            var share := supply * p.expandPercent * (now - p.lastUpdateTimestamp);
            var unit := FOUR_DECIMALS * p.expandDuration;
            && least <= limit && (limit > least ==> limit <= p.withdrawalLimit)
            && (limit > least ==>
                  (p.withdrawalLimit - limit) * unit <= share
                    < (p.withdrawalLimit - limit + 1) * unit + FOUR_DECIMALS * (now - p.lastUpdateTimestamp))
            && (limit == least ==> (p.withdrawalLimit - least) * unit <= share)
  {
    LimitFormula(p, supply, now);
    MinimumNonNegative(p, supply);
    var most, elapsed: nat := MaxWithdrawable(p, supply), now - p.lastUpdateTimestamp;
    FloorBounds(supply * p.expandPercent, FOUR_DECIMALS);
    FloorBounds(most * elapsed, p.expandDuration);
    hide MaxWithdrawable, CalcWithdrawalLimitBeforeOperate, LimitAt;
    ReleasedShare(supply * p.expandPercent, most, elapsed, p.expandDuration, Released(most, elapsed, p.expandDuration));
    var unit := FOUR_DECIMALS * p.expandDuration;
    if LimitAt(p, supply, now) == Minimum(p, supply) {
      MulAtMost(p.withdrawalLimit - Minimum(p, supply), Released(most, elapsed, p.expandDuration), unit);
    }
  }

  lemma ReleasedShare(part: nat, most: nat, elapsed: nat, duration: nat, released: nat)
    requires duration > 0 && most * FOUR_DECIMALS <= part < most * FOUR_DECIMALS + FOUR_DECIMALS
    requires released * duration <= most * elapsed < released * duration + duration
    ensures released * (FOUR_DECIMALS * duration) <= part * elapsed
              < (released + 1) * (FOUR_DECIMALS * duration) + FOUR_DECIMALS * elapsed
  {
    MulAtMost(most * FOUR_DECIMALS, part, elapsed);
    MulAtMost(part, most * FOUR_DECIMALS + FOUR_DECIMALS, elapsed);
    var x, y := most * elapsed, released * duration;
    assert most * FOUR_DECIMALS * elapsed == FOUR_DECIMALS * x;
    assert released * (FOUR_DECIMALS * duration) == FOUR_DECIMALS * y;
    assert (released + 1) * (FOUR_DECIMALS * duration) == FOUR_DECIMALS * y + FOUR_DECIMALS * duration;
    assert (most * FOUR_DECIMALS + FOUR_DECIMALS) * elapsed == FOUR_DECIMALS * x + FOUR_DECIMALS * elapsed;
  }

  /** An active limit lies between the minimum and the larger of the last limit and the minimum. */
  lemma LimitBounds(p: SupplyPosition, supply: nat, now: nat)
    requires Ready(p, now)
    ensures CalcWithdrawalLimitBeforeOperate(p, supply, now).Ok?
    ensures p.withdrawalLimit == 0 ==> LimitAt(p, supply, now) == 0
    ensures p.withdrawalLimit > 0 ==>
              Minimum(p, supply) <= LimitAt(p, supply, now) <= Max(p.withdrawalLimit, Minimum(p, supply))
  {
    hide MaxWithdrawable;
    LimitFormula(p, supply, now);
  }

  lemma LimitFalls(p: SupplyPosition, supply: nat, now: nat, later: nat)
    requires Ready(p, now) && now <= later
    ensures LimitAt(p, supply, later) <= LimitAt(p, supply, now)
  {
    hide MaxWithdrawable, Minimum;
    LimitFormula(p, supply, now);
    LimitFormula(p, supply, later);
    ReleasedGrows(MaxWithdrawable(p, supply), now - p.lastUpdateTimestamp, later - p.lastUpdateTimestamp, p.expandDuration);
  }

  /** After the whole duration an active limit that was within the supply is at the minimum; one that was above it is
      not there yet when the duration ends. */
  lemma LimitReachesMinimum(p: SupplyPosition, supply: nat, now: nat)
    requires Ready(p, now) && now - p.lastUpdateTimestamp >= p.expandDuration && p.withdrawalLimit > 0
    ensures p.withdrawalLimit <= supply ==> LimitAt(p, supply, now) == Minimum(p, supply)
    ensures now - p.lastUpdateTimestamp == p.expandDuration ==>
              (LimitAt(p, supply, now) == Minimum(p, supply) <==> p.withdrawalLimit <= supply)
  {
    hide MaxWithdrawable, Released;
    var elapsed := now - p.lastUpdateTimestamp;
    LimitFormula(p, supply, now);
    ReleasedInFull(MaxWithdrawable(p, supply), elapsed, p.expandDuration);
  }

  // ---------------------------------------------------------------- re-evaluation along the way

  ghost predicate Ascending(from: nat, times: seq<nat>) {
    && (forall i :: 0 <= i < |times| ==> from <= times[i])
    && (forall i, j :: 0 <= i < j < |times| ==> times[i] <= times[j])
  }

  /** The limit after storing it anew at each of `times`. */
  function Reevaluated(p: SupplyPosition, supply: nat, times: seq<nat>): SupplyPosition
    requires Ready(p, p.lastUpdateTimestamp) && Ascending(p.lastUpdateTimestamp, times)
    ensures var r := Reevaluated(p, supply, times);
            && r.expandPercent == p.expandPercent && r.expandDuration == p.expandDuration
            && (p.withdrawalLimit == 0 ==> r.withdrawalLimit == 0)
            && r.lastUpdateTimestamp == if times == [] then p.lastUpdateTimestamp else times[|times| - 1]
    decreases |times|
  {
    if times == [] then p
    else
      var before := Reevaluated(p, supply, times[..|times| - 1]);
      var now := times[|times| - 1];
      MinimumNonNegative(p, supply);
      LimitFormula(before, supply, now);
      before.(withdrawalLimit := LimitAt(before, supply, now), lastUpdateTimestamp := now)
  }

  /** One evaluation after another against one evaluation of the whole: never lower, and higher by at most one unit for
      each evaluation but the first. */
  lemma {:induction false} ReevaluationDrift(p: SupplyPosition, supply: nat, times: seq<nat>)
    requires Ready(p, p.lastUpdateTimestamp) && Ascending(p.lastUpdateTimestamp, times) && times != []
    ensures var single := LimitAt(p, supply, times[|times| - 1]);
            single <= Reevaluated(p, supply, times).withdrawalLimit <= single + |times| - 1
    decreases |times|
  {
    hide MaxWithdrawable, Minimum, Released, LimitAt, CalcWithdrawalLimitBeforeOperate;
    var last := |times| - 1;
    var before := Reevaluated(p, supply, times[..last]);
    if last > 0 {
      ReevaluationDrift(p, supply, times[..last]);
      DriftStep(p, before, supply, times[last - 1], times[last], last - 1);
    }
  }

  /** One more evaluation adds at most one unit of drift. */
  lemma DriftStep(p: SupplyPosition, before: SupplyPosition, supply: nat, since: nat, now: nat, drift: nat)
    requires Ready(p, since) && since <= now
    requires before.expandPercent == p.expandPercent && before.expandDuration == p.expandDuration
    requires before.lastUpdateTimestamp == since
    requires LimitAt(p, supply, since) <= before.withdrawalLimit <= LimitAt(p, supply, since) + drift
    requires p.withdrawalLimit == 0 ==> before.withdrawalLimit == 0
    ensures LimitAt(p, supply, now) <= LimitAt(before, supply, now) <= LimitAt(p, supply, now) + drift + 1
  {
    hide MaxWithdrawable, Minimum, Released, CalcWithdrawalLimitBeforeOperate, LimitAt;
    MinimumNonNegative(p, supply);
    LimitFormula(p, supply, since);
    LimitFormula(p, supply, now);
    LimitFormula(before, supply, now);
    SameShape(p, before, supply);
    ReleasedSplits(MaxWithdrawable(p, supply), since - p.lastUpdateTimestamp, now - since, p.expandDuration);
  }

  lemma SameShape(p: SupplyPosition, q: SupplyPosition, supply: nat)
    requires p.expandPercent == q.expandPercent
    ensures MaxWithdrawable(p, supply) == MaxWithdrawable(q, supply) && Minimum(p, supply) == Minimum(q, supply)
  {
  }
}
