/** A position after supply, withdrawal, borrowing or payback, and the tick it is put at: `calculateFinalPosition` of
    `ts-sdk/vault/context/state.ts`. */
module FinalPosition {
  import opened Common
  import TickMath
  import TickSearch

  const BILLION: nat := 1_000_000_000
  /** The amount that stands for all of it. */
  const MIN_I128: int := -170_141_183_460_469_231_731_687_303_715_884_105_728

  datatype PositionError = DivisionByZero | InvalidColAmount | InvalidDebtAmount | TickFailure(tick: TickMath.TickError)

  datatype Holding = Holding(colRaw: nat, debtRaw: nat, dustDebtRaw: nat)

  datatype Final = Final(tick: int, colRaw: int, debtRaw: int, finalAmount: int, isSupplyOnlyPosition: bool)

  function SupplyRaw(amount: nat, price: nat): nat
    requires price > 0
  {
    FloorDiv(amount * PRICES_PRECISION, price)
  }

  function WithdrawRaw(amount: nat, price: nat): nat
    requires price > 0
  {
    DivCeil(amount * PRICES_PRECISION, price)
  }

  function BorrowRaw(amount: nat, price: nat, fee: nat): nat
    requires price > 0
  {
    var raw := DivCeil(amount * PRICES_PRECISION, price);
    raw + DivCeil(raw * fee, FOUR_DECIMALS)
  }

  /** One less than the amount is worth, so minus one for an amount worth less than one. */
  function PaybackRaw(amount: nat, price: nat): int
    requires price > 0
  {
    FloorDiv(amount * PRICES_PRECISION, price) - 1
  }

  function CollateralAfter(colRaw: nat, amount: int, price: nat): Result<int, PositionError> {
    if amount < MIN_I128 then Err(InvalidColAmount)
    else if amount == MIN_I128 then Ok(0)
    else if amount == 0 then Ok(colRaw)
    else if price == 0 then Err(DivisionByZero)
    else if amount > 0 then Ok(colRaw + SupplyRaw(amount, price))
    else Ok(colRaw - WithdrawRaw(-amount, price))
  }

  function DebtAfter(debtRaw: nat, amount: int, price: nat, fee: nat): Result<int, PositionError> {
    if amount < MIN_I128 then Err(InvalidDebtAmount)
    else if amount == MIN_I128 then Ok(0)
    else if amount == 0 then Ok(debtRaw)
    else if price == 0 then Err(DivisionByZero)
    else if amount > 0 then Ok(debtRaw + BorrowRaw(amount, price, fee))
    else Ok(debtRaw - PaybackRaw(-amount, price))
  }

  function NetDebt(debtRaw: int, dustDebtRaw: nat): nat {
    if debtRaw > dustDebtRaw then debtRaw - dustDebtRaw else 0
  }

  /** One part in a billion more, and one unit. */
  function MarginAdjusted(netDebtRaw: nat): nat {
    netDebtRaw * (BILLION + 1) / BILLION + 1
  }

  /** The debt for each unit of collateral, at the scale of tick ratios. */
  function PositionRatio(netDebtRaw: nat, colRaw: nat): nat
    requires colRaw > 0
  {
    FloorDiv(MarginAdjusted(netDebtRaw) * TickMath.ZERO_TICK_SCALED_RATIO, colRaw)
  }

  /** The tick above the one found for the ratio; both conversions must succeed. */
  function FinalTick(netDebtRaw: nat, colRaw: int): Result<int, PositionError> {
    if netDebtRaw == 0 || colRaw == 0 then Ok(TickMath.MIN_TICK)
    else if colRaw < 0 then Err(TickFailure(TickMath.RatioOutOfBounds))
    else
      var ratio := PositionRatio(netDebtRaw, colRaw);
      if !TickMath.Accepted(ratio) then Err(TickFailure(TickMath.RatioOutOfBounds))
      else
        var base := TickMath.TickAtRatio(ratio);
        if TickMath.RatioAtTick(base).Err? then Err(TickFailure(TickMath.RatioAtTick(base).error))
        else Ok(Max(TickMath.MIN_TICK, Min(base + 1, TickMath.MAX_TICK)))
  }

  function FinalPositionOf(h: Holding, newCol: int, newDebt: int, supplyPrice: nat, borrowPrice: nat, borrowFee: nat)
    : Result<Final, PositionError>
  {
    var col :- CollateralAfter(h.colRaw, newCol, supplyPrice);
    var debt :- DebtAfter(h.debtRaw, newDebt, borrowPrice, borrowFee);
    var net := NetDebt(debt, h.dustDebtRaw);
    var tick :- FinalTick(net, col);
    Ok(Final(tick, col, debt, if net > 0 then col else 0, net == 0 || col == 0))
  }

  method CalculateFinalPosition(h: Holding, newCol: int, newDebt: int, supplyPrice: nat, borrowPrice: nat, borrowFee: nat)
    returns (r: Result<Final, PositionError>)
    ensures r == FinalPositionOf(h, newCol, newDebt, supplyPrice, borrowPrice, borrowFee)
  {
    hide TickMath.TickAtRatio, TickMath.RatioAtTick, DivCeil, FloorDiv, MarginAdjusted;
    var colRaw: int, debtRaw: int := h.colRaw, h.debtRaw;
    if newCol > 0 {
      if supplyPrice == 0 {
        return Err(DivisionByZero);
      }
      colRaw := colRaw + SupplyRaw(newCol, supplyPrice);
    } else if newCol < 0 {
      if newCol > MIN_I128 {
        if supplyPrice == 0 {
          return Err(DivisionByZero);
        }
        colRaw := colRaw - WithdrawRaw(-newCol, supplyPrice);
      } else if newCol == MIN_I128 {
        colRaw := 0;
      } else {
        return Err(InvalidColAmount);
      }
    }
    if newDebt > 0 {
      if borrowPrice == 0 {
        return Err(DivisionByZero);
      }
      debtRaw := debtRaw + BorrowRaw(newDebt, borrowPrice, borrowFee);
    } else if newDebt < 0 {
      if newDebt > MIN_I128 {
        if borrowPrice == 0 {
          return Err(DivisionByZero);
        }
        debtRaw := debtRaw - PaybackRaw(-newDebt, borrowPrice);
      } else if newDebt == MIN_I128 {
        debtRaw := 0;
      } else {
        return Err(InvalidDebtAmount);
      }
    }
    var netDebtRaw := if debtRaw > h.dustDebtRaw then debtRaw - h.dustDebtRaw else 0;
    var finalTick: int;
    if netDebtRaw == 0 || colRaw == 0 {
      finalTick := TickMath.MIN_TICK;
    } else if colRaw < 0 {
      return Err(TickFailure(TickMath.RatioOutOfBounds));
    } else {
      var base := TickMath.GetTickAtRatio(PositionRatio(netDebtRaw, colRaw));
      if base.Err? {
        return Err(TickFailure(base.error));
      }
      var ratioAtTick := TickMath.GetRatioAtTick(base.value);
      if ratioAtTick.Err? {
        return Err(TickFailure(ratioAtTick.error));
      }
      finalTick := base.value + 1;
      if finalTick < TickMath.MIN_TICK {
        finalTick := TickMath.MIN_TICK;
      } else if finalTick > TickMath.MAX_TICK {
        finalTick := TickMath.MAX_TICK;
      }
    }
    return Ok(Final(finalTick, colRaw, debtRaw, if netDebtRaw > 0 then colRaw else 0, netDebtRaw == 0 || colRaw == 0));
  }

  // ---------------------------------------------------------------- rounding against the position

  /** Taking out what was just put in leaves the collateral as it was or one unit short. */
  lemma SupplyThenWithdraw(amount: nat, price: nat)
    requires price > 0
    ensures SupplyRaw(amount, price) <= WithdrawRaw(amount, price) <= SupplyRaw(amount, price) + 1
  {
    hide DivCeil, FloorDiv;
    var worth := amount * PRICES_PRECISION;
    var down, up := FloorDiv(worth, price), DivCeil(worth, price);
    assert (down + 1) * price == down * price + price;
    MulCancelLess(down, up + 1, price);
    MulCancelLess(up, down + 2, price);
  }

  /** What an amount is worth in raw units at the price, times the price. */
  function Worth(amount: int): int {
    amount * PRICES_PRECISION
  }

  /** The debt a borrow adds, against what was borrowed with its fee: never less, and above it by less than two roundings. */
  lemma BorrowAdds(amount: nat, price: nat, fee: nat)
    requires price > 0
    ensures var added := BorrowRaw(amount, price, fee) * price * FOUR_DECIMALS;
            Worth(amount) * (FOUR_DECIMALS + fee) <= added < Worth(amount) * (FOUR_DECIMALS + fee) + (2 * FOUR_DECIMALS + fee) * price
  {
    var raw := DivCeil(Worth(amount), price);
    hide DivCeil;
    FeeOnTop(Worth(amount), raw * price, raw, price, fee, DivCeil(raw * fee, FOUR_DECIMALS));
  }

  lemma FeeOnTop(worth: nat, scaled: nat, raw: nat, price: nat, fee: nat, charge: nat)
    requires price > 0 && scaled == raw * price && worth <= scaled < worth + price
    requires raw * fee <= charge * FOUR_DECIMALS < raw * fee + FOUR_DECIMALS
    ensures worth * (FOUR_DECIMALS + fee) <= (raw + charge) * price * FOUR_DECIMALS
              < worth * (FOUR_DECIMALS + fee) + (2 * FOUR_DECIMALS + fee) * price
  {
    var charged := charge * FOUR_DECIMALS;
    assert (raw + charge) * price * FOUR_DECIMALS == FOUR_DECIMALS * scaled + charged * price;
    ChargedAt(charged, raw, fee, price, scaled);
    FeeOnWorth(worth, scaled, price, fee);
    assert (2 * FOUR_DECIMALS + fee) * price == 2 * FOUR_DECIMALS * price + price * fee;
  }

  lemma ChargedAt(charged: nat, raw: nat, fee: nat, price: nat, scaled: nat)
    requires price > 0 && scaled == raw * price && raw * fee <= charged < raw * fee + FOUR_DECIMALS
    ensures scaled * fee <= charged * price < scaled * fee + FOUR_DECIMALS * price
  {
    var x := raw * fee;
    assert x * price == scaled * fee;
    MulAtMost(x, charged, price);
    MulAtMost(charged + 1, x + FOUR_DECIMALS, price);
    assert (charged + 1) * price == charged * price + price;
  }

  lemma FeeOnWorth(worth: nat, scaled: nat, price: nat, fee: nat)
    requires worth <= scaled < worth + price
    ensures worth * fee <= scaled * fee <= worth * fee + price * fee
    ensures worth * (FOUR_DECIMALS + fee) == FOUR_DECIMALS * worth + worth * fee
  {
    MulAtMost(worth, scaled, fee);
    MulAtMost(scaled, worth + price, fee);
  }

  /** A payback takes off its worth rounded down, less one. */
  lemma PaybackTakes(amount: nat, price: nat)
    requires price > 0
    ensures (PaybackRaw(amount, price) + 1) * price <= Worth(amount) < (PaybackRaw(amount, price) + 2) * price
  {
  }

  /** When the new debt comes out, and what it is in every case: all of it repaid, unchanged, more by what is borrowed and its
      fee, or less by what is paid back. */
  lemma DebtAfterIs(debtRaw: nat, amount: int, price: nat, fee: nat)
    ensures var r := DebtAfter(debtRaw, amount, price, fee);
            && (r.Ok? <==> amount == MIN_I128 || amount == 0 || (amount > MIN_I128 && price > 0))
            && (r.Err? ==> r.error == if amount < MIN_I128 then InvalidDebtAmount else DivisionByZero)
            && (amount == MIN_I128 ==> r.value == 0)
            && (amount == 0 ==> r.value == debtRaw)
            && (r.Ok? && amount > 0 ==>
                  var added := (r.value - debtRaw) * price * FOUR_DECIMALS;
                  Worth(amount) * (FOUR_DECIMALS + fee) <= added
                    < Worth(amount) * (FOUR_DECIMALS + fee) + (2 * FOUR_DECIMALS + fee) * price)
            && (r.Ok? && MIN_I128 < amount < 0 ==>
                  (debtRaw - r.value + 1) * price <= Worth(-amount) < (debtRaw - r.value + 2) * price)
  {
    hide BorrowRaw, PaybackRaw, Worth;
    if price > 0 && amount > 0 {
      BorrowAdds(amount, price, fee);
    } else if price > 0 && amount < 0 {
      PaybackTakes(-amount, price);
    }
  }

  /** The same for the collateral: a supply counts rounded down and a withdrawal rounded up. */
  lemma CollateralAfterIs(colRaw: nat, amount: int, price: nat)
    ensures var r := CollateralAfter(colRaw, amount, price);
            && (r.Ok? <==> amount == MIN_I128 || amount == 0 || (amount > MIN_I128 && price > 0))
            && (r.Err? ==> r.error == if amount < MIN_I128 then InvalidColAmount else DivisionByZero)
            && (amount == MIN_I128 ==> r.value == 0)
            && (amount == 0 ==> r.value == colRaw)
            && (r.Ok? && amount > 0 ==> (r.value - colRaw) * price <= Worth(amount) < (r.value - colRaw + 1) * price)
            && (r.Ok? && MIN_I128 < amount < 0 ==>
                  (colRaw - r.value - 1) * price < Worth(-amount) <= (colRaw - r.value) * price)
  {
    if price > 0 && MIN_I128 < amount < 0 {
      var taken := DivCeil(Worth(-amount), price);
      assert (taken - 1) * price == taken * price - price;
    }
  }

  /** Paying back what was just borrowed leaves debt behind: the fee and a unit at least, and less than four units and the fee
      of one more. */
  lemma BorrowThenPayback(amount: nat, price: nat, fee: nat)
    requires price > 0
    ensures var raw := DivCeil(amount * PRICES_PRECISION, price);
            var left := BorrowRaw(amount, price, fee) - PaybackRaw(amount, price);
            && 1 <= left <= 2 + DivCeil(raw * fee, FOUR_DECIMALS)
            && Worth(amount) * fee + FOUR_DECIMALS * price <= left * price * FOUR_DECIMALS
            && left * price * FOUR_DECIMALS < Worth(amount) * fee + (4 * FOUR_DECIMALS + fee) * price
  {
    SupplyThenWithdraw(amount, price);
    BorrowAdds(amount, price, fee);
    PaybackTakes(amount, price);
    LeftBehind(Worth(amount), BorrowRaw(amount, price, fee), PaybackRaw(amount, price), price, fee);
  }

  lemma LeftBehind(worth: nat, borrowed: nat, repaid: int, price: nat, fee: nat)
    requires worth * (FOUR_DECIMALS + fee) <= borrowed * price * FOUR_DECIMALS
    requires borrowed * price * FOUR_DECIMALS < worth * (FOUR_DECIMALS + fee) + (2 * FOUR_DECIMALS + fee) * price
    requires (repaid + 1) * price <= worth < (repaid + 2) * price
    ensures worth * fee + FOUR_DECIMALS * price <= (borrowed - repaid) * price * FOUR_DECIMALS
              < worth * fee + (4 * FOUR_DECIMALS + fee) * price
  {
    var x, y, z := borrowed * price, repaid * price, worth * fee;
    assert (borrowed - repaid) * price == x - y;
    assert (repaid + 1) * price == y + price && (repaid + 2) * price == y + 2 * price;
    assert worth * (FOUR_DECIMALS + fee) == FOUR_DECIMALS * worth + z;
    assert (4 * FOUR_DECIMALS + fee) * price == (2 * FOUR_DECIMALS + fee) * price + 2 * FOUR_DECIMALS * price;
  }

  /** A payback lowers the debt exactly when it is worth at least two units, and raises it exactly when it is worth less
      than one. */
  lemma PaybackMoves(debtRaw: nat, amount: int, price: nat, fee: nat)
    requires price > 0 && MIN_I128 < amount < 0
    ensures var r := DebtAfter(debtRaw, amount, price, fee);
            && r.Ok?
            && (r.value < debtRaw <==> -amount * PRICES_PRECISION >= 2 * price)
            && (r.value > debtRaw <==> -amount * PRICES_PRECISION < price)
  {
    hide FloorDiv;
    var worth: nat := -amount * PRICES_PRECISION;
    var down := FloorDiv(worth, price);
    if down < 2 {
      MulAtMost(down + 1, 2, price);
    } else {
      MulAtMost(2, down, price);
    }
    if down < 1 {
      MulAtMost(down + 1, 1, price);
    } else {
      MulAtMost(1, down, price);
    }
  }

  // ---------------------------------------------------------------- the tick

  /** A position with debt and collateral gets a tick exactly when its ratio is an accepted one above the smallest. The
      tick is above `MIN_TICK` and never needs to be brought back into range. */
  lemma FinalTickDefined(netDebtRaw: nat, colRaw: nat)
    requires netDebtRaw > 0 && colRaw > 0
    ensures var ratio := PositionRatio(netDebtRaw, colRaw);
            && (FinalTick(netDebtRaw, colRaw).Ok? <==> TickMath.MIN_RATIOX48 < ratio <= TickMath.MAX_RATIOX48)
            && (FinalTick(netDebtRaw, colRaw).Ok? ==>
                  && FinalTick(netDebtRaw, colRaw).value == TickMath.TickAtRatio(ratio) + 1
                  && TickMath.MIN_TICK < FinalTick(netDebtRaw, colRaw).value <= TickMath.MAX_TICK)
  {
    hide TickMath.TickAtRatio, TickMath.RatioFactor, PositionRatio;
    var ratio := PositionRatio(netDebtRaw, colRaw);
    if TickMath.Accepted(ratio) {
      TickSearch.TickInRange(ratio);
      if ratio != TickMath.MIN_RATIOX48 {
        TickSearch.TickBracket(ratio);
      }
    }
  }

  /** The position's ratio lies between those of its tick and of the tick below, up to the slack between the tables. */
  lemma FinalTickBrackets(netDebtRaw: nat, colRaw: nat)
    requires netDebtRaw > 0 && colRaw > 0 && FinalTick(netDebtRaw, colRaw).Ok?
    ensures var ratio := PositionRatio(netDebtRaw, colRaw);
            var t := FinalTick(netDebtRaw, colRaw).value;
            && TickMath.RatioAtTick(t - 1).Ok? && TickMath.RatioAtTick(t).Ok?
            && TickMath.RatioAtTick(t - 1).value as real - TickSearch.Slack(ratio) <= ratio as real
            && ratio as real <= TickMath.RatioAtTick(t).value as real + TickSearch.Slack(ratio)
  {
    hide TickMath.TickAtRatio, TickMath.RatioAtTick, PositionRatio, FinalTick, TickSearch.Slack;
    FinalTickDefined(netDebtRaw, colRaw);
    var ratio := PositionRatio(netDebtRaw, colRaw);
    assert TickMath.Accepted(ratio);
    TickSearch.TickBracket(ratio);
  }

  /** The ratio overstates the debt: never less than the collateral's share of it, by the margin. */
  lemma RatioCoversDebt(netDebtRaw: nat, colRaw: nat)
    requires colRaw > 0
    ensures netDebtRaw * TickMath.ZERO_TICK_SCALED_RATIO < (PositionRatio(netDebtRaw, colRaw) + 1) * colRaw
    ensures netDebtRaw < MarginAdjusted(netDebtRaw)
  {
    hide FloorDiv;
    DivMonotone(netDebtRaw * BILLION, netDebtRaw * (BILLION + 1), BILLION);
    assert netDebtRaw * BILLION / BILLION == netDebtRaw;
    MulAtMost(netDebtRaw, MarginAdjusted(netDebtRaw), TickMath.ZERO_TICK_SCALED_RATIO);
  }

  /** More debt or less collateral never moves a position to a lower tick. */
  lemma FinalTickMonotone(netDebtRaw: nat, moreDebt: nat, colRaw: nat, lessCol: nat)
    requires 0 < netDebtRaw <= moreDebt && 0 < lessCol <= colRaw
    requires FinalTick(netDebtRaw, colRaw).Ok? && FinalTick(moreDebt, lessCol).Ok?
    ensures FinalTick(netDebtRaw, colRaw).value <= FinalTick(moreDebt, lessCol).value
  {
    hide TickMath.TickAtRatio, FinalTick;
    FinalTickDefined(netDebtRaw, colRaw);
    FinalTickDefined(moreDebt, lessCol);
    PositionRatioMonotone(netDebtRaw, moreDebt, colRaw, lessCol);
    TickMath.TickAtRatioMonotone(PositionRatio(netDebtRaw, colRaw), PositionRatio(moreDebt, lessCol));
  }

  lemma PositionRatioMonotone(netDebtRaw: nat, moreDebt: nat, colRaw: nat, lessCol: nat)
    requires netDebtRaw <= moreDebt && 0 < lessCol <= colRaw
    ensures PositionRatio(netDebtRaw, colRaw) <= PositionRatio(moreDebt, lessCol)
  {
    var scale := TickMath.ZERO_TICK_SCALED_RATIO;
    MulAtMost(netDebtRaw, moreDebt, BILLION + 1);
    DivMonotone(netDebtRaw * (BILLION + 1), moreDebt * (BILLION + 1), BILLION);
    var a, b := MarginAdjusted(netDebtRaw), MarginAdjusted(moreDebt);
    MulAtMost(a, b, scale);
    DivMonotone(a * scale, b * scale, colRaw);
    DivAntitone(b * scale, lessCol, colRaw);
  }

  /** The ratio is the debt over the collateral at the scale of ratios, raised by one part in a billion and by less than a
      unit of debt, and rounded down. */
  ghost predicate DebtOverCollateral(ratio: nat, netDebtRaw: nat, colRaw: nat) {
    && netDebtRaw * (BILLION + 1) * TickMath.ZERO_TICK_SCALED_RATIO < (ratio + 1) * colRaw * BILLION
    && ratio * colRaw * BILLION <= (netDebtRaw * (BILLION + 1) + BILLION) * TickMath.ZERO_TICK_SCALED_RATIO
  }

  lemma PositionRatioIs(netDebtRaw: nat, colRaw: nat)
    requires colRaw > 0
    ensures DebtOverCollateral(PositionRatio(netDebtRaw, colRaw), netDebtRaw, colRaw)
  {
    var margin, ratio := MarginAdjusted(netDebtRaw), PositionRatio(netDebtRaw, colRaw);
    FloorBounds(netDebtRaw * (BILLION + 1), BILLION);
    var below, above := ratio * colRaw, (ratio + 1) * colRaw;
    assert below <= margin * TickMath.ZERO_TICK_SCALED_RATIO < above;
  }

  /** The whole calculation. It fails exactly when an amount cannot be applied, or when there is debt beyond the dust and
      collateral whose ratio has no tick. What it gives is the collateral and the debt after the amounts, and, of a position
      with debt beyond the dust and collateral, the tick whose ratio and the next lower one enclose the position's. */
  lemma FinalPositionIs(h: Holding, newCol: int, newDebt: int, supplyPrice: nat, borrowPrice: nat, borrowFee: nat)
    ensures var r := FinalPositionOf(h, newCol, newDebt, supplyPrice, borrowPrice, borrowFee);
            var col, debt := CollateralAfter(h.colRaw, newCol, supplyPrice), DebtAfter(h.debtRaw, newDebt, borrowPrice, borrowFee);
            && (r.Ok? <==> col.Ok? && debt.Ok? && (debt.value <= h.dustDebtRaw || HasTick(debt.value - h.dustDebtRaw, col.value)))
            && (r.Ok? ==>
                  && r.value.colRaw == col.value && r.value.debtRaw == debt.value
                  && if debt.value <= h.dustDebtRaw then r.value.isSupplyOnlyPosition && r.value.finalAmount == 0 && r.value.tick == TickMath.MIN_TICK
                     else
                       && r.value.finalAmount == col.value && r.value.isSupplyOnlyPosition == (col.value == 0)
                       && AtTick(r.value.tick, debt.value - h.dustDebtRaw, col.value))
  {
    hide CollateralAfter, DebtAfter, FinalTick, PositionRatio, TickMath.TickAtRatio, TickMath.RatioAtTick, TickSearch.Slack;
    var col, debt := CollateralAfter(h.colRaw, newCol, supplyPrice), DebtAfter(h.debtRaw, newDebt, borrowPrice, borrowFee);
    if col.Ok? && debt.Ok? {
      var net := NetDebt(debt.value, h.dustDebtRaw);
      TickIs(net, col.value);
    }
  }

  /** Collateral and debt for which a tick is found: none, or a ratio above the smallest accepted one. */
  ghost predicate HasTick(netDebtRaw: nat, colRaw: int) {
    colRaw == 0 || (colRaw > 0 && TickMath.MIN_RATIOX48 < PositionRatio(netDebtRaw, colRaw) <= TickMath.MAX_RATIOX48)
  }

  ghost predicate AtTick(tick: int, netDebtRaw: nat, colRaw: int) {
    if colRaw <= 0 then tick == TickMath.MIN_TICK
    else
      var ratio := PositionRatio(netDebtRaw, colRaw);
      && DebtOverCollateral(ratio, netDebtRaw, colRaw)
      && TickMath.RatioAtTick(tick - 1).Ok? && TickMath.RatioAtTick(tick).Ok?
      && TickMath.RatioAtTick(tick - 1).value as real - TickSearch.Slack(ratio) <= ratio as real
      && ratio as real <= TickMath.RatioAtTick(tick).value as real + TickSearch.Slack(ratio)
  }

  lemma TickIs(netDebtRaw: nat, colRaw: int)
    ensures netDebtRaw == 0 ==> FinalTick(netDebtRaw, colRaw) == Ok(TickMath.MIN_TICK)
    ensures netDebtRaw > 0 ==> (FinalTick(netDebtRaw, colRaw).Ok? <==> HasTick(netDebtRaw, colRaw))
    ensures netDebtRaw > 0 && FinalTick(netDebtRaw, colRaw).Ok? ==>
              AtTick(FinalTick(netDebtRaw, colRaw).value, netDebtRaw, colRaw)
  {
    hide PositionRatio, TickMath.TickAtRatio, TickMath.RatioAtTick, TickSearch.Slack;
    if netDebtRaw > 0 && colRaw > 0 {
      FinalTickDefined(netDebtRaw, colRaw);
      PositionRatioIs(netDebtRaw, colRaw);
      if FinalTick(netDebtRaw, colRaw).Ok? {
        FinalTickBrackets(netDebtRaw, colRaw);
      }
    }
  }
}
