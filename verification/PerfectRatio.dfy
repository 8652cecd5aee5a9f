/** The search of the on-chain library, which also gives the ratio of the tick it finds and checks it against the ratio it
    was given: `TickMath::get_tick_at_ratio` in `crates/library/src/math/tick.rs`. */
module PerfectRatio {
  import opened Common
  import opened TickMath
  import opened TickAccuracy
  import opened TickSearch

  datatype LibraryError = RatioNotAccepted | InvalidPerfectRatio

  const FIRST_THRESHOLD: nat := 10_015_000_000_000

  /** The ratio without the part of it that the search has left over. */
  function PerfectRatioX48(r: nat): nat
    requires Accepted(r)
  {
    ResidualInRange(r);
    var rest := Residual(SearchStart(r), BITS);
    if r < ZERO_TICK_SCALED_RATIO then r * rest / FIRST_THRESHOLD else r * E13 / rest
  }

  /** What is left is at least 1 and below 1.0015. */
  lemma ResidualInRange(r: nat)
    requires Accepted(r)
    ensures E13 <= Residual(SearchStart(r), BITS) < FIRST_THRESHOLD
  {
    hide SearchStart;
    SearchStartRange(r);
    SearchAccuracy(SearchStart(r), BITS);
    ResidualBelow(SearchStart(r), BITS);
  }

  /** The program's search. Its last check never fails. */
  method GetTickAtRatioX48(r: nat) returns (found: Result<(int, nat), LibraryError>)
    ensures found == if Accepted(r) then Ok((TickAtRatio(r), PerfectRatioX48(r))) else Err(RatioNotAccepted)
  {
    if r < MIN_RATIOX48 || r > MAX_RATIOX48 {
      return Err(RatioNotAccepted);
    }
    hide Threshold, Reduce;
    var isNegative := r < ZERO_TICK_SCALED_RATIO;
    var factor: nat;
    if isNegative {
      factor := FloorDiv(ZERO_TICK_SCALED_RATIO * E13, r);
    } else {
      factor := r * E13 / ZERO_TICK_SCALED_RATIO;
    }
    var tick: int := 0;
    var i := BITS;
    while i > 0
      invariant 0 <= i <= BITS
      invariant tick + GreedyTick(factor, i) == GreedyTick(SearchStart(r), BITS)
      invariant Residual(factor, i) == Residual(SearchStart(r), BITS)
    {
      i := i - 1;
      if factor >= Threshold(i) {
        tick := tick + TwoTo(i);
        factor := Reduce(factor, Threshold(i));
      }
    }
    ResidualInRange(r);
    PerfectAtMost(r);
    var perfect: nat;
    if isNegative {
      tick := -tick - 1;
      perfect := r * factor / FIRST_THRESHOLD;
    } else {
      perfect := r * E13 / factor;
    }
    if perfect > r {
      return Err(InvalidPerfectRatio);
    }
    return Ok((tick, perfect));
  }

  /** The perfect ratio is never above the ratio, and the ratio is below 1.0015 times its next unit. */
  lemma PerfectAtMost(r: nat)
    requires Accepted(r)
    ensures PerfectRatioX48(r) <= r
    ensures r * E13 < (PerfectRatioX48(r) + 1) * FIRST_THRESHOLD
  {
    ResidualInRange(r);
    hide Residual, SearchStart;
    var rest := Residual(SearchStart(r), BITS);
    if r < ZERO_TICK_SCALED_RATIO {
      CutBelow(r, rest, FIRST_THRESHOLD);
    } else {
      CutBelow(r, E13, rest);
    }
  }

  /** Scaling by a part `k / d` between 1/1.0015 and 1. */
  lemma CutBelow(r: nat, k: nat, d: nat)
    requires E13 <= k <= d <= FIRST_THRESHOLD
    ensures r * k / d <= r && r * E13 < (r * k / d + 1) * FIRST_THRESHOLD
  {
    var p := FloorDiv(r * k, d);
    MulBoth(k, d, r);
    MulCancelLess(p, r + 1, d);
    MulBoth(E13, k, r);
    MulBoth(d, FIRST_THRESHOLD, p + 1);
  }

  lemma MulBoth(a: int, b: int, c: nat)
    requires a <= b
    ensures c * a <= c * b
  {
  }

  /** It is the ideal ratio of the tick found, to one part in 10^11 and one unit. */
  lemma PerfectIsIdeal(r: nat)
    requires Accepted(r)
    ensures NearIdeal(PerfectRatioX48(r) as real, Ideal(TickAtRatio(r)))
  {
    hide SearchStart, Residual, Ideal, NearIdeal, PerfectRatioX48;
    var n: int := GreedyTick(SearchStart(r), BITS);
    if r < ZERO_TICK_SCALED_RATIO {
      PerfectBelow(r, n);
    } else {
      PerfectAbove(r, n);
    }
  }

  ghost predicate NearIdeal(p: real, ideal: real) {
    ideal * (1.0 - FINE) - 1.0 <= p <= ideal * (1.0 + FINE)
  }

  /** The start of the search against what it leaves over. */
  lemma StartOverRest(r: nat) returns (f: real, g: real, w: real)
    requires Accepted(r)
    ensures f == SearchStart(r) as real && g == Residual(SearchStart(r), BITS) as real
    ensures w == Pow(BASE, GreedyTick(SearchStart(r), BITS)) && 0.0 < w
    ensures 10000000000000.0 <= f && 10000000000000.0 <= g
    ensures g * w * (1.0 - 0.0000000000028) <= f <= g * w * (1.0 + 0.0000000000028)
  {
    hide SearchStart, Residual, Pow;
    SearchStartRange(r);
    ResidualInRange(r);
    f, g := SearchStart(r) as real, Residual(SearchStart(r), BITS) as real;
    w := Pow(BASE, GreedyTick(SearchStart(r), BITS));
    SearchAccuracy(SearchStart(r), BITS);
    SearchedAtEnd(f, g, w);
    PowPositive(BASE, GreedyTick(SearchStart(r), BITS));
  }

  lemma PerfectBelow(r: nat, n: int)
    requires Accepted(r) && r < ZERO_TICK_SCALED_RATIO && n == GreedyTick(SearchStart(r), BITS)
    ensures NearIdeal(PerfectRatioX48(r) as real, Ideal(-n - 1))
  {
    hide SearchStart, Residual, Ideal, Pow;
    var f, g, w := StartOverRest(r);
    StartOfNegative(r);
    NegativeIdeal(n, w);
    Quotient(r, Residual(SearchStart(r), BITS), FIRST_THRESHOLD);
    NegativePerfect(r as real, f, g, w, Ideal(-n - 1), PerfectRatioX48(r) as real);
  }

  lemma PerfectAbove(r: nat, n: int)
    requires Accepted(r) && r >= ZERO_TICK_SCALED_RATIO && n == GreedyTick(SearchStart(r), BITS)
    ensures NearIdeal(PerfectRatioX48(r) as real, Ideal(n))
  {
    hide SearchStart, Residual, Ideal, Pow;
    var f, g, w := StartOverRest(r);
    StartOfPositive(r);
    IdealOfPositive(n);
    Quotient(r, E13, Residual(SearchStart(r), BITS));
    PositivePerfect(r as real, f, g, w, Ideal(n), PerfectRatioX48(r) as real);
  }

  lemma NegativeIdeal(n: int, w: real)
    requires n >= 0 && w == Pow(BASE, n)
    ensures BASE * Ideal(-n - 1) * w == SCALE && 0.0 < Ideal(-n - 1)
  {
    hide Ideal, Pow;
    IdealStep(-n - 1);
    IdealOfNegative(n);
  }

  lemma Quotient(r: nat, k: nat, d: nat)
    requires d > 0
    ensures var p := (r * k / d) as real; p * d as real <= r as real * k as real < (p + 1.0) * d as real
  {
    FloorReal(r * k, d);
    CastProduct(r, k);
  }

  lemma PositivePerfect(r: real, f: real, g: real, w: real, ideal: real, p: real)
    requires ideal == SCALE * w && 0.0 < w && 10000000000000.0 <= g && 10000000000000.0 <= f
    requires g * w * (1.0 - 0.0000000000028) <= f <= g * w * (1.0 + 0.0000000000028)
    requires f * SCALE <= r * 10000000000000.0 < (f + 1.0) * SCALE
    requires p * g <= r * 10000000000000.0 < (p + 1.0) * g
    ensures NearIdeal(p, ideal)
  {
    var x, y := g * w, ideal * g;
    assert y == SCALE * x;
    var pg := p * g;
    assert pg <= y * (1.0 + FINE);
    assert (ideal * (1.0 + FINE)) * g == y * (1.0 + FINE);
    CancelLeft(p, ideal * (1.0 + FINE), g);
    assert (p + 1.0) * g == pg + g;
    assert y * (1.0 - FINE) <= pg + g;
    assert (ideal * (1.0 - FINE)) * g == y * (1.0 - FINE);
    CancelLeft(ideal * (1.0 - FINE), p + 1.0, g);
  }

  lemma NegativePerfect(r: real, f: real, g: real, w: real, ideal: real, p: real)
    requires BASE * ideal * w == SCALE && 0.0 < ideal && 1.0 <= r < SCALE && 0.0 < w
    requires 10000000000000.0 <= g && 10000000000000.0 <= f
    requires g * w * (1.0 - 0.0000000000028) <= f <= g * w * (1.0 + 0.0000000000028)
    requires f * r <= SCALE * 10000000000000.0 < (f + 1.0) * r
    requires p * 10015000000000.0 <= r * g < (p + 1.0) * 10015000000000.0
    ensures NearIdeal(p, ideal)
  {
    var x, y, z, k := g * w, r * g, f * r, ideal * 10015000000000.0;
    var xr, kw := x * r, k * w;
    assert kw == SCALE * 10000000000000.0;
    assert xr == y * w;
    MulMonotone(x * (1.0 - 0.0000000000028), f, r);
    MulMonotone(f, x * (1.0 + 0.0000000000028), r);
    assert x * (1.0 - 0.0000000000028) * r == xr * (1.0 - 0.0000000000028);
    assert x * (1.0 + 0.0000000000028) * r == xr * (1.0 + 0.0000000000028);
    assert (f + 1.0) * r == z + r;
    assert (y * (1.0 - 0.0000000000028)) * w == xr * (1.0 - 0.0000000000028);
    assert xr * (1.0 - 0.0000000000028) <= z <= kw;
    var less := y * (1.0 - 0.0000000000028);
    assert less * w <= kw;
    CancelLeft(less, k, w);
    var more, nearly := y * (1.0 + 0.0000000000028), k * (1.0 - 0.0000000000001);
    assert more * w == xr * (1.0 + 0.0000000000028) >= z;
    assert nearly * w == kw * (1.0 - 0.0000000000001) == kw - SCALE;
    assert z >= kw - r;
    CancelLeft(nearly, more, w);
  }
}
