/** Conversion between vault ticks and 2^48-scaled ratios: `getRatioAtTick` and `getTickAtRatio` of
    `ts-sdk/vault/context/state.ts`, which mirror the on-chain library in `crates/library/src/math/tick.rs`. */
module TickMath {
  import opened Common

  const MIN_TICK: int := -16383
  const MAX_TICK: int := 16383
  const ZERO_TICK_SCALED_RATIO: nat := 0x1_0000_0000_0000
  const MIN_RATIOX48: nat := 6093
  const MAX_RATIOX48: nat := 13002088133096036565414295
  const FACTOR00: nat := 0x1_0000_0000_0000_0000
  const E13: nat := 10_000_000_000_000
  const BITS: nat := 14

  datatype TickError = TickOutOfRange | RatioOutOfBounds | DivisionByZero

  /** FACTOR01 to FACTOR14: 2^64 / 1.0015^(2^i), one for each bit of the absolute tick. */
  const FACTORS: seq<nat> := [
    18419115400608638658,
    18391528108445969703,
    18336477419114433396,
    18226869890870665593,
    18009616477100071088,
    17582847377087825313,
    16759408633341240198,
    15226414841393184936,
    12568272644527235157,
    8563108841104354677,
    3975055583337633975,
    856577552520149366,
    39775317560084773,
    85764505686420
  ]

  /** The search thresholds, lowest bit first: 1e13 * 1.0015^(2^i). */
  const THRESHOLDS: seq<nat> := [
    10015000000000,
    10030022500000,
    10060135135051,
    10120631893548,
    10242718992470,
    10491329235871,
    11006798913544,
    12114962232319,
    14677230989051,
    21542110950596,
    46406254420777,
    215354044936586,
    4637736467054931,
    2150859953785115391
  ]

  function Abs(x: int): (a: int)
    ensures a >= 0
  {
    if x < 0 then -x else x
  }

  function MulShift64(n0: nat, n1: nat): (r: nat) {
    n0 * n1 / FACTOR00
  }

  /** The factor after the bits `i` and up of the absolute tick have been multiplied in; `bits` holds just those. */
  function RatioFactor(bits: nat, i: nat, factor: nat): nat
    requires i <= BITS
    decreases BITS - i
  {
    if i == BITS then factor
    else RatioFactor(bits / 2, i + 1, ApplyBit(bits, i, factor))
  }

  function ApplyBit(bits: nat, i: nat, factor: nat): nat
    requires i < BITS
  {
    if bits % 2 == 1 then MulShift64(factor, FACTORS[i]) else factor
  }

  /** From the factor to the ratio: positive ticks take the reciprocal and round up, the others are cut. */
  function RatioFromFactor(tick: int, factor: nat): Result<nat, TickError> {
    if tick > 0 then
      if factor == 0 then Err(DivisionByZero)
      else
        var inverse := FloorDiv(U128_MAX, factor);
        Ok(inverse / 0x10000 + if inverse % 0x10000 != 0 then 1 else 0)
    else Ok(factor / 0x10000)
  }

  function RatioAtTick(tick: int): Result<nat, TickError> {
    if tick < MIN_TICK || tick > MAX_TICK then Err(TickOutOfRange)
    else RatioFromFactor(tick, RatioFactor(Abs(tick), 0, FACTOR00))
  }

  method GetRatioAtTick(tick: int) returns (r: Result<nat, TickError>)
    ensures r == RatioAtTick(tick)
  {
    if tick < MIN_TICK || tick > MAX_TICK {
      return Err(TickOutOfRange);
    }
    var absTick := Abs(tick);
    var factor := FACTOR00;
    if absTick % 2 == 1 {
      factor := FACTORS[0];
    }
    var i: nat, bits: nat := 1, absTick / 2;
    assert MulShift64(FACTOR00, FACTORS[0]) == FACTORS[0];
    while i < BITS
      invariant 1 <= i <= BITS
      invariant RatioFactor(bits, i, factor) == RatioFactor(absTick, 0, FACTOR00)
    {
      if bits % 2 == 1 {
        factor := MulShift64(factor, FACTORS[i]);
      }
      bits, i := bits / 2, i + 1;
    }
    r := RatioFromFactor(tick, factor);
  }

  /** What is left to search after dividing a threshold out. */
  function Reduce(factor: nat, threshold: nat): nat
    requires threshold > 0
  {
    FloorDiv(factor * E13, threshold)
  }

  function Threshold(i: nat): (k: nat)
    requires i < BITS
    ensures k >= E13
  {
    THRESHOLDS[i]
  }

  /** The tick bits below `i` that the greedy search sets, most significant first. */
  function GreedyTick(factor: nat, i: nat): nat
    requires i <= BITS
    decreases i, factor
  {
    if i == 0 then 0
    else if factor >= Threshold(i - 1) then TwoTo(i - 1) + GreedyTick(Reduce(factor, Threshold(i - 1)), i - 1)
    else GreedyTick(factor, i - 1)
  }

  /** The number the search starts from: the ratio, or its reciprocal when below one, scaled to 1e13. */
  function SearchStart(ratioX48: nat): nat
    requires ratioX48 > 0
  {
    if ratioX48 < ZERO_TICK_SCALED_RATIO then FloorDiv(ZERO_TICK_SCALED_RATIO * E13, ratioX48)
    else ratioX48 * E13 / ZERO_TICK_SCALED_RATIO
  }

  predicate Accepted(ratioX48: nat) {
    MIN_RATIOX48 <= ratioX48 <= MAX_RATIOX48
  }

  /** For accepted ratios; `~n` is -n - 1. */
  function TickAtRatio(ratioX48: nat): int
    requires ratioX48 > 0
  {
    var n: int := GreedyTick(SearchStart(ratioX48), BITS);
    if ratioX48 < ZERO_TICK_SCALED_RATIO then -n - 1 else n
  }

  method GetTickAtRatio(ratioX48: nat) returns (r: Result<int, TickError>)
    ensures r == if Accepted(ratioX48) then Ok(TickAtRatio(ratioX48)) else Err(RatioOutOfBounds)
  {
    if ratioX48 < MIN_RATIOX48 || ratioX48 > MAX_RATIOX48 {
      return Err(RatioOutOfBounds);
    }
    hide Threshold, Reduce;
    var isNegative := ratioX48 < ZERO_TICK_SCALED_RATIO;
    var factor: nat;
    if isNegative {
      factor := FloorDiv(ZERO_TICK_SCALED_RATIO * E13, ratioX48);
    } else {
      factor := ratioX48 * E13 / ZERO_TICK_SCALED_RATIO;
    }
    var tick: int := 0;
    var i := BITS;
    while i > 1
      invariant 1 <= i <= BITS
      invariant tick + GreedyTick(factor, i) == GreedyTick(SearchStart(ratioX48), BITS)
    {
      i := i - 1;
      if factor >= Threshold(i) {
        tick := tick + TwoTo(i);
        factor := Reduce(factor, Threshold(i));
      }
    }
    if factor >= Threshold(0) {
      tick := tick + 1;
    }
    if isNegative {
      tick := -tick - 1;
    }
    r := Ok(tick);
  }

  // ---------------------------------------------------------------- the search is monotone

  lemma {:induction false} GreedyTickBelow(factor: nat, i: nat)
    requires i <= BITS
    ensures GreedyTick(factor, i) < TwoTo(i)
    decreases i
  {
    if i > 0 {
      GreedyTickBelow(factor, i - 1);
      GreedyTickBelow(Reduce(factor, Threshold(i - 1)), i - 1);
    }
  }

  lemma ReduceMonotone(f: nat, g: nat, k: nat)
    requires f <= g && k > 0
    ensures Reduce(f, k) <= Reduce(g, k)
  {
    DivMonotone(f * E13, g * E13, k);
  }

  /** A larger start never yields a smaller tick, whatever the truncations did on the way. */
  lemma {:induction false} GreedyTickMonotone(f: nat, g: nat, i: nat)
    requires i <= BITS && f <= g
    ensures GreedyTick(f, i) <= GreedyTick(g, i)
    decreases i
  {
    hide Reduce, Threshold;
    if i > 0 {
      var k := Threshold(i - 1);
      if f >= k {
        ReduceMonotone(f, g, k);
        GreedyTickMonotone(Reduce(f, k), Reduce(g, k), i - 1);
      } else {
        GreedyTickBelow(f, i - 1);
        GreedyTickMonotone(f, g, i - 1);
      }
    }
  }

  /** `getTickAtRatio` is non-decreasing over all ratios, across the sign split and the bit complement. */
  lemma TickAtRatioMonotone(r: nat, s: nat)
    requires 0 < r <= s
    ensures TickAtRatio(r) <= TickAtRatio(s)
  {
    if s < ZERO_TICK_SCALED_RATIO {
      DivAntitone(ZERO_TICK_SCALED_RATIO * E13, r, s);
      GreedyTickMonotone(SearchStart(s), SearchStart(r), BITS);
    } else if ZERO_TICK_SCALED_RATIO <= r {
      GreedyTickMonotone(SearchStart(r), SearchStart(s), BITS);
    }
  }

  // ---------------------------------------------------------------- a tick and its negation

  /** Reciprocal at the scale 2^48, up to one unit on either side. */
  predicate NearlyReciprocal(r: nat, s: nat) {
    0x1_0000_0000_0000_0000_0000_0000 - r - s - 1 <= r * s <= 0x1_0000_0000_0000_0000_0000_0000 + r + s + 1
  }

  /** The ratios of a tick and its negation multiply to 2^96, up to their sum plus one. */
  lemma RatioReciprocal(tick: int)
    requires RatioAtTick(tick).Ok? && RatioAtTick(-tick).Ok?
    ensures NearlyReciprocal(RatioAtTick(tick).value, RatioAtTick(-tick).value)
  {
    hide RatioFactor, FloorDiv;
    if tick == 0 {
      FactorOfZero();
    } else {
      ReciprocalProduct(tick, RatioFactor(Abs(tick), 0, FACTOR00));
    }
  }

  lemma FactorOfZero()
    ensures RatioFactor(0, 0, FACTOR00) == FACTOR00
  {
    assert RatioFactor(0, 10, FACTOR00) == FACTOR00;
    assert RatioFactor(0, 5, FACTOR00) == FACTOR00;
  }

  lemma ReciprocalProduct(tick: int, f: nat)
    requires tick != 0 && RatioFromFactor(Abs(tick), f).Ok?
    ensures var r, s := RatioFromFactor(Abs(tick), f).value, RatioFromFactor(-Abs(tick), f).value;
            NearlyReciprocal(r, s) && NearlyReciprocal(s, r)
  {
    hide FloorDiv;
    var x := FloorDiv(U128_MAX, f);
    var r, s := RatioFromFactor(Abs(tick), f).value, f / 0x10000;
    assert x * f <= U128_MAX < x * f + f by {
      assert (x + 1) * f == x * f + f;
    }
    ProductAround(f, x, 0x10000 * s, 0x10000 * r, s, r, r * s);
  }

  /** `big` and `up` are `f` cut and `x` raised to multiples of 2^16. */
  lemma ProductAround(f: nat, x: nat, big: nat, up: nat, s: nat, r: nat, product: nat)
    requires big == 0x10000 * s && up == 0x10000 * r && big <= f < big + 0x10000 && up - 0x10000 < x <= up
    requires x * f <= U128_MAX < x * f + f && product == r * s
    ensures 0x1_0000_0000_0000_0000_0000_0000 - r - s - 1 <= product <= 0x1_0000_0000_0000_0000_0000_0000 + r + s + 1
  {
    var alpha, beta := f - big, up - x;
    MulAtMost(beta, 0xffff, f);
    MulAtMost(alpha, 0xffff, up);
    Expand(f, x, alpha, beta, big, up);
    Rescale(s, r, big, up);
    Settle(x * f, beta * f, alpha * up, f, up, s, r, product);
  }

  lemma Settle(xf: nat, bf: nat, au: nat, f: nat, up: nat, s: nat, r: nat, product: nat)
    requires 0x1_0000_0000 * product == xf + bf - au && bf <= 0xffff * f && au <= 0xffff * up
    requires xf <= U128_MAX < xf + f && f < 0x10000 * s + 0x10000 && up == 0x10000 * r
    ensures 0x1_0000_0000_0000_0000_0000_0000 - r - s - 1 <= product <= 0x1_0000_0000_0000_0000_0000_0000 + r + s + 1
  {
  }

  lemma Expand(f: nat, x: nat, alpha: nat, beta: nat, big: nat, up: nat)
    requires f == big + alpha && up == x + beta
    ensures big * up == x * f + beta * f - alpha * up
  {
  }

  lemma Rescale(s: nat, r: nat, big: nat, up: nat)
    requires big == 0x10000 * s && up == 0x10000 * r
    ensures big * up == 0x1_0000_0000 * (r * s)
  {
  }

  // ---------------------------------------------------------------- the on-chain variant

  /** `TickMath::get_ratio_at_tick`: the branch that takes the reciprocal includes tick 0. */
  function RustRatioFromFactor(tick: int, factor: nat): Result<nat, TickError> {
    if tick >= 0 then
      if factor == 0 then Err(DivisionByZero)
      else
        var inverse := FloorDiv(U128_MAX, factor);
        Ok(inverse / 0x10000 + if inverse % 0x10000 != 0 then 1 else 0)
    else Ok(factor / 0x10000)
  }

  /** The two programs branch differently at tick 0 and still agree on every tick. */
  lemma RustRatioAgrees(tick: int)
    requires MIN_TICK <= tick <= MAX_TICK
    ensures RustRatioFromFactor(tick, RatioFactor(Abs(tick), 0, FACTOR00)) == RatioAtTick(tick)
  {
    if tick == 0 {
      FactorOfZero();
      DivUnique(U128_MAX, FACTOR00, FACTOR00 - 1);
    }
  }
}
