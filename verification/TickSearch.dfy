/** What `getTickAtRatio` finds: a tick whose ideal ratio and the next one bracket the input, for every accepted ratio;
    and, with the accuracy of `getRatioAtTick`, how far the two conversions are from inverting each other. */
module TickSearch {
  import opened Common
  import opened TickMath
  import opened TickAccuracy

  /** What the search has left after all bits below `i`, dividing by the last threshold as well. */
  function Residual(factor: nat, i: nat): nat
    requires i <= BITS
    decreases i, factor
  {
    if i == 0 then factor
    else if factor >= Threshold(i - 1) then Residual(Reduce(factor, Threshold(i - 1)), i - 1)
    else Residual(factor, i - 1)
  }

  // ---------------------------------------------------------------- the residual stays below 1.0015

  /** The largest value that can reach bit `i - 1` of the search; index 14 is the start of the smallest ratio. */
  const LIMITS: seq<nat> := [
    10014999999999,
    10030022499999,
    10060135135050,
    10120631893547,
    10242718992469,
    10491329235870,
    11006798913543,
    12114962232318,
    14677230989050,
    21542110950595,
    46406254420776,
    215354044936586,
    4637736467054931,
    2150859953785115390,
    461964511259898243886427
  ]

  lemma LimitStep(i: nat)
    requires 0 < i <= BITS
    ensures Threshold(i - 1) <= LIMITS[i - 1] + 1
    ensures LIMITS[i] * E13 < (LIMITS[i - 1] + 1) * Threshold(i - 1)
  {
  }

  lemma {:induction false} ResidualBelow(factor: nat, i: nat)
    requires i <= BITS && factor <= LIMITS[i]
    ensures Residual(factor, i) <= LIMITS[0]
    decreases i
  {
    if i > 0 {
      var k := Threshold(i - 1);
      LimitStep(i);
      if factor >= k {
        ReduceBelow(factor, k, LIMITS[i], LIMITS[i - 1]);
        ResidualBelow(Reduce(factor, k), i - 1);
      } else {
        ResidualBelow(factor, i - 1);
      }
    }
  }

  lemma ReduceBelow(factor: nat, k: nat, limit: nat, next: nat)
    requires k > 0 && factor <= limit && limit * E13 < (next + 1) * k
    ensures Reduce(factor, k) <= next
  {
    MulCancelLess(Reduce(factor, k), next + 1, k);
  }

  // ---------------------------------------------------------------- the search against 1.0015^tick

  /** `f` is `x` up to the relative error `d`. */
  ghost predicate OffBy(d: real, x: real, f: real) {
    x - d * x <= f <= x + d * x
  }

  /** `f` is `g * w` up to the error of `i` search steps. */
  ghost predicate Searched(i: nat, f: real, g: real, w: real) {
    OffBy(SearchError(i), g * w, f)
  }

  ghost function SearchError(i: nat): real {
    i as real * 0.0000000000002
  }

  /** Dividing one threshold out, against dividing by the exact power. */
  lemma ReduceAccuracy(factor: nat, i: nat)
    requires i < BITS && Threshold(i) <= factor
    ensures var f, g, s := factor as real, Reduce(factor, Threshold(i)), Square(i);
            g >= E13 && g as real * s * (1.0 - 0.00000000000004) <= f <= g as real * s * (1.0 + 0.00000000000015)
  {
    hide Square, Reduce;
    ReduceFloor(factor, Threshold(i));
    ThresholdBracket(i);
    SquareBracket(i);
    ReduceReal(factor as real, Reduce(factor, Threshold(i)) as real, ThresholdReal(i), Square(i));
  }

  lemma ReduceFloor(factor: nat, k: nat)
    requires 0 < k <= factor
    ensures var f, g, t := factor as real, Reduce(factor, k) as real, k as real / 10000000000000.0;
            Reduce(factor, k) >= E13 && g * t <= f <= (g + 1.0) * t
  {
    var g := Reduce(factor, k);
    MulCancelLess(E13, g + 1, k);
    CastProduct(g, k);
    CastProduct(g + 1, k);
  }

  lemma ReduceReal(f: real, g: real, k: real, s: real)
    requires g >= 10000000000000.0 && g * k <= f <= (g + 1.0) * k
    requires 0.0 < s && s * (1.0 - 0.00000000000004) <= k <= s * (1.0 + 0.00000000000004)
    ensures g * s * (1.0 - 0.00000000000004) <= f <= g * s * (1.0 + 0.00000000000015)
  {
    var x, up, low, high := g * s, g + 1.0, s * (1.0 - 0.00000000000004), s * (1.0 + 0.00000000000004);
    MulMonotone(low, k, g);
    MulMonotone(k, high, up);
    MulMonotone(10000000000000.0, g, s);
    assert (g + 1.0) * k == k * up;
    var xs := up * s;
    assert xs == x + s;
    assert high * up == xs * (1.0 + 0.00000000000004);
    assert low * g == x * (1.0 - 0.00000000000004);
    assert f <= xs * (1.0 + 0.00000000000004);
    assert 10000000000000.0 * s <= x;
    assert f <= x * (1.0 + 0.00000000000015);
  }

  lemma {:induction false} SearchAccuracy(factor: nat, i: nat)
    requires i <= BITS && E13 <= factor
    ensures var g, w := Residual(factor, i), Pow(BASE, GreedyTick(factor, i));
            g >= E13 && Searched(i, factor as real, g as real, w)
    decreases i
  {
    hide Threshold, Reduce, Pow, Square, TwoTo, FloorDiv;
    if i == 0 {
      PowZero(BASE);
      SearchStart0(factor as real);
    } else if factor >= Threshold(i - 1) {
      var next := Reduce(factor, Threshold(i - 1));
      ReduceAccuracy(factor, i - 1);
      SearchAccuracy(next, i - 1);
      SearchDivide(factor, i, Residual(next, i - 1), GreedyTick(next, i - 1));
    } else {
      SearchAccuracy(factor, i - 1);
      SearchSkip(factor as real, Residual(factor, i - 1) as real, Pow(BASE, GreedyTick(factor, i - 1)), i);
    }
  }

  /** A search step that sets its bit. */
  lemma SearchDivide(factor: nat, i: nat, g: nat, m: nat)
    requires 0 < i <= BITS && Threshold(i - 1) <= factor
    requires Searched(i - 1, Reduce(factor, Threshold(i - 1)) as real, g as real, Pow(BASE, m))
    ensures Searched(i, factor as real, g as real, Pow(BASE, TwoTo(i - 1) + m))
  {
    hide Threshold, Reduce, Pow, Square, TwoTo;
    ReduceAccuracy(factor, i - 1);
    PowAdd(BASE, TwoTo(i - 1), m);
    SquareIsPow(i - 1);
    PowPositive(BASE, m);
    PowPositive(BASE, TwoTo(i - 1));
    SearchStep(factor as real, Reduce(factor, Threshold(i - 1)) as real, Square(i - 1), g as real, Pow(BASE, m),
               Pow(BASE, TwoTo(i - 1) + m), i);
  }

  lemma SearchStart0(f: real)
    ensures Searched(0, f, f, 1.0)
  {
  }

  lemma SearchSkip(f: real, g: real, w: real, i: nat)
    requires 0 < i <= BITS && 0.0 <= f && Searched(i - 1, f, g, w)
    ensures Searched(i, f, g, w)
  {
    var d, x := SearchError(i - 1), g * w;
    assert SearchError(i) == d + 0.0000000000002 && 0.0 <= d <= 0.000000000003;
    var y := d * x;
    assert 0.0 <= x by {
      assert f <= x * (1.0 + d);
    }
  }

  lemma SearchStep(f: real, next: real, s: real, g: real, w: real, sw: real, i: nat)
    requires 0 < i <= BITS && 0.0 < s && 0.0 <= g && 0.0 <= next && 0.0 < w && sw == s * w
    requires Searched(i - 1, next, g, w)
    requires next * s * (1.0 - 0.00000000000004) <= f <= next * s * (1.0 + 0.00000000000015)
    ensures Searched(i, f, g, sw)
  {
    var d, x1 := SearchError(i - 1), g * w;
    assert SearchError(i) == d + 0.0000000000002 && 0.0 <= d <= 0.000000000003;
    assert 0.0 <= x1;
    var e := d * x1;
    MulMonotone(next, x1 + e, s);
    MulMonotone(x1 - e, next, s);
    var x, y := x1 * s, e * s;
    ErrorStep(d, x1, e, s, x, y, next * s, f);
    assert g * sw == x;
  }

  lemma ErrorStep(d: real, x1: real, e: real, s: real, x: real, y: real, ns: real, f: real)
    requires 0.0 <= d <= 0.000000000003 && 0.0 <= x1 && 0.0 < s && e == d * x1 && x == x1 * s && y == e * s
    requires (x1 - e) * s <= ns <= (x1 + e) * s
    requires ns * (1.0 - 0.00000000000004) <= f <= ns * (1.0 + 0.00000000000015)
    ensures OffBy(d + 0.0000000000002, x, f)
  {
    assert (x1 + e) * s == x + y && (x1 - e) * s == x - y;
    assert y == d * x;
    assert 0.0 <= x;
    MulMonotone(d, 0.000000000003, x);
  }

  // ---------------------------------------------------------------- the bracket

  lemma SearchStartRange(r: nat)
    requires Accepted(r)
    ensures E13 <= SearchStart(r) <= LIMITS[BITS]
  {
    if r < ZERO_TICK_SCALED_RATIO {
      MulCancelLess(E13, SearchStart(r) + 1, r);
      DivAntitone(ZERO_TICK_SCALED_RATIO * E13, MIN_RATIOX48, r);
    }
  }

  /** One part in 10^11. */
  const FINE: real := 0.00000000001

  /** For every accepted ratio the search finds the tick whose ideal ratio, and the next tick's, bracket the ratio to
      one part in 10^11. */
  lemma TickBracketsRatio(r: nat)
    requires Accepted(r)
    ensures var t := TickAtRatio(r);
            && -16384 <= t <= 16383
            && Ideal(t) * (1.0 - FINE) <= r as real <= Ideal(t + 1) * (1.0 + FINE)
  {
    hide SearchStart, Pow, Ideal;
    var n: int, w := SearchEnd(r);
    if r < ZERO_TICK_SCALED_RATIO {
      IdealStep(-n - 1);
      IdealOfNegative(n);
      StartOfNegative(r);
      NegativeBracket(r as real, SearchStart(r) as real, w, Ideal(-n));
    } else {
      IdealStep(n);
      IdealOfPositive(n);
      StartOfPositive(r);
      PositiveBracket(r as real, SearchStart(r) as real, w, Ideal(n));
    }
  }

  /** What the search ends with: tick bits whose power is the start up to a residual in [1, 1.0015). */
  lemma SearchEnd(r: nat) returns (n: nat, w: real)
    requires Accepted(r)
    ensures n == GreedyTick(SearchStart(r), BITS) <= 16383 && w == Pow(BASE, n) && 1.0 <= w
    ensures 9999999999972.0 * w <= SearchStart(r) as real && SearchStart(r) as real + 1.0 <= 10015000000030.0 * w
  {
    hide SearchStart, Residual, Pow;
    var f := SearchStart(r);
    SearchStartRange(r);
    SearchAccuracy(f, BITS);
    ResidualBelow(f, BITS);
    GreedyTickBelow(f, BITS);
    assert TwoTo(14) == 16384;
    n := GreedyTick(f, BITS);
    w := Pow(BASE, n);
    PowBaseMonotone(0, n);
    SearchedAtEnd(f as real, Residual(f, BITS) as real, w);
    StartBounds(f as real, Residual(f, BITS) as real, w);
  }

  lemma SearchedAtEnd(f: real, g: real, w: real)
    requires Searched(BITS, f, g, w)
    ensures g * w * (1.0 - 0.0000000000028) <= f <= g * w * (1.0 + 0.0000000000028)
  {
    assert SearchError(BITS) == 0.0000000000028;
  }

  lemma StartOfNegative(r: nat)
    requires 0 < r < ZERO_TICK_SCALED_RATIO
    ensures var f := SearchStart(r) as real; f * r as real <= SCALE * 10000000000000.0 < (f + 1.0) * r as real
  {
    CastProduct(SearchStart(r), r);
    CastProduct(SearchStart(r) + 1, r);
  }

  lemma StartOfPositive(r: nat)
    requires ZERO_TICK_SCALED_RATIO <= r
    ensures var f := SearchStart(r) as real; f * SCALE <= r as real * 10000000000000.0 < (f + 1.0) * SCALE
  {
    FloorReal(r * E13, ZERO_TICK_SCALED_RATIO);
  }

  lemma IdealOfPositive(n: nat)
    ensures Ideal(n) == SCALE * Pow(BASE, n)
  {
  }

  lemma IdealOfNegative(n: int)
    requires n >= 0
    ensures Ideal(-n) * Pow(BASE, n) == SCALE
  {
    PowPositive(BASE, n);
    var w := Pow(BASE, n);
    if n == 0 {
      PowZero(BASE);
    } else {
      assert SCALE / w * w == SCALE;
    }
  }

  /** The start of the search against the exact power, once the residual is bounded. */
  lemma StartBounds(f: real, g: real, w: real)
    requires 1.0 <= w && 10000000000000.0 <= f && 10000000000000.0 <= g <= 10015000000000.0
    requires g * w * (1.0 - 0.0000000000028) <= f <= g * w * (1.0 + 0.0000000000028)
    ensures 9999999999972.0 * w <= f && f + 1.0 <= 10015000000030.0 * w
  {
    var x := g * w;
    MulMonotone(10000000000000.0, g, w);
    MulMonotone(g, 10015000000000.0, w);
    assert x * (1.0 - 0.0000000000028) <= f <= x * (1.0 + 0.0000000000028);
    assert 10000000000000.0 * w <= x <= 10015000000000.0 * w;
  }

  lemma PositiveBracket(r: real, f: real, w: real, ideal: real)
    requires ideal == SCALE * w && 1.0 <= w
    requires 9999999999972.0 * w <= f && f + 1.0 <= 10015000000030.0 * w
    requires f * SCALE <= r * 10000000000000.0 < (f + 1.0) * SCALE
    ensures ideal * (1.0 - FINE) <= r <= BASE * ideal * (1.0 + FINE)
  {
  }

  lemma NegativeBracket(r: real, f: real, w: real, ideal: real)
    requires ideal * w == SCALE && 0.0 < ideal && 1.0 <= w && 0.0 < r
    requires 9999999999972.0 * w <= f && f + 1.0 <= 10015000000030.0 * w
    requires f * r <= SCALE * 10000000000000.0 < (f + 1.0) * r
    ensures ideal * (1.0 - FINE) <= BASE * r && r <= ideal * (1.0 + FINE)
  {
    var low, up, y, fr := 9999999999972.0 * w, 10015000000030.0 * w, w * r, f * r;
    MulMonotone(low, f, r);
    MulMonotone(f + 1.0, up, r);
    assert low * r == 9999999999972.0 * y && up * r == 10015000000030.0 * y;
    assert low * r <= fr;
    ScaledBy(ideal, w, r);
  }

  /** From w * r against ideal * w to r against ideal. */
  lemma ScaledBy(ideal: real, w: real, r: real)
    requires ideal * w == SCALE && 1.0 <= w && 0.0 < r && 0.0 < ideal
    requires 9999999999972.0 * (w * r) <= SCALE * 10000000000000.0 <= 10015000000030.0 * (w * r)
    ensures ideal * (1.0 - FINE) <= BASE * r && r <= ideal * (1.0 + FINE)
  {
    var low, up := 0.9999999999972 * r, 1.0015000000030 * r;
    assert low * w == 0.9999999999972 * (w * r) && up * w == 1.0015000000030 * (w * r);
    CancelLeft(low, ideal, w);
    CancelLeft(ideal, up, w);
  }

  // ---------------------------------------------------------------- both conversions together

  /** The slack between the two tables: one unit and two parts in ten million of the ratio. */
  ghost function Slack(r: nat): real {
    1.0 + r as real / 5000000.0
  }

  /** The computed ratios of the found tick and the next one bracket every accepted ratio, up to the slack. */
  lemma TickBracket(r: nat)
    requires Accepted(r)
    ensures var t := TickAtRatio(r);
            && (MIN_TICK <= t <= MAX_TICK ==>
                  RatioAtTick(t).Ok? && RatioAtTick(t).value as real - Slack(r) <= r as real)
            && (MIN_TICK <= t + 1 <= MAX_TICK ==>
                  RatioAtTick(t + 1).Ok? && r as real <= RatioAtTick(t + 1).value as real + Slack(r))
  {
    hide TickAtRatio, RatioAtTick, Ideal;
    var t := TickAtRatio(r);
    TickBracketsRatio(r);
    IdealAtLeast6000(t);
    IdealAtLeast6000(t + 1);
    if MIN_TICK <= t <= MAX_TICK {
      RatioAccuracy(t);
    }
    if MIN_TICK <= t + 1 <= MAX_TICK {
      RatioAccuracy(t + 1);
    }
  }

  /** Converting a tick to its ratio and back gives the tick or the one below it. */
  lemma TickRoundTrip(tick: int)
    requires MIN_TICK <= tick <= MAX_TICK && RatioAtTick(tick).Ok? && Accepted(RatioAtTick(tick).value)
    ensures tick - 1 <= TickAtRatio(RatioAtTick(tick).value) <= tick
  {
    hide TickAtRatio, RatioAtTick, Ideal;
    var r := RatioAtTick(tick).value;
    var t := TickAtRatio(r);
    RatioAccuracy(tick);
    TickBracketsRatio(r);
    IdealAtLeast6000(tick);
    if t > tick {
      IdealStep(tick);
      IdealMonotone(tick + 1, t);
    } else if t < tick - 1 {
      IdealStep(tick - 1);
      IdealMonotone(t + 1, tick - 1);
    }
  }

  // ---------------------------------------------------------------- the ends of the range

  /** 1.0015^16383, to ten digits. */
  lemma LargestPower()
    ensures 46192696363.4 <= Pow(BASE, 16383) <= 46192696363.5
  {
    hide Pow, Square;
    SquareBracket(13);
    SquareIsPow(13);
    assert TwoTo(13) == 8192;
    PowAdd(BASE, 8192, 8192);
    PowAdd(BASE, 1, 16383);
    PowOne();
    SquareOfBracket(Pow(BASE, 8192));
  }

  lemma PowOne()
    ensures Pow(BASE, 1) == BASE
  {
    assert Pow(BASE, 1) == BASE * Pow(BASE, 0);
  }

  lemma SquareOfBracket(s: real)
    requires LOWER[13] <= s <= UPPER[13]
    ensures 1.0015 * 46192696363.4 <= s * s <= 1.0015 * 46192696363.5
  {
    MulBounds(215085.995378511, s, 215085.995378512, 215085.995378511, s, 215085.995378512);
  }

  lemma EndIdeals()
    ensures 6093.4 <= Ideal(MIN_TICK) <= 6093.5
    ensures Ideal(MAX_TICK) <= SCALE * 46192696363.5
  {
    hide Pow;
    LargestPower();
    var w, q := Pow(BASE, 16383), Ideal(MIN_TICK);
    assert q * w == SCALE;
    CancelLeft(6093.4, q, w);
    CancelLeft(q, 6093.5, w);
  }

  lemma FactorBit(bits: nat, i: nat, factor: nat, next: nat)
    requires i < BITS && next == ApplyBit(bits, i, factor)
    ensures RatioFactor(bits, i, factor) == RatioFactor(bits / 2, i + 1, next)
  {
  }

  /** The ratio of the highest tick, bit by bit. */
  lemma LargestRatio()
    ensures RatioAtTick(MAX_TICK) == Ok(13002088162051014298412982)
  {
    hide RatioFactor;
    FactorBit(16383, 0, 18446744073709551616, 18419115400608638658);
    FactorBit(8191, 1, 18419115400608638658, 18363982135243105045);
    FactorBit(4095, 2, 18363982135243105045, 18254210195706971590);
    FactorBit(2047, 3, 18254210195706971590, 18036630901815721194);
    FactorBit(1023, 4, 18036630901815721194, 17609221648153457050);
    FactorBit(511, 5, 17609221648153457050, 16784547746291252056);
    FactorBit(255, 6, 16784547746291252056, 15249254463655274710);
    FactorBit(127, 7, 15249254463655274710, 12587125053494026006);
    FactorBit(63, 8, 12587125053494026006, 8575953504366011206);
    FactorBit(31, 9, 8575953504366011206, 3981018166712640424);
    FactorBit(15, 10, 3981018166712640424, 857862418848929589);
    FactorBit(7, 11, 857862418848929589, 39834980536424899);
    FactorBit(3, 12, 39834980536424899, 85893152444949);
    FactorBit(1, 13, 85893152444949, 399343305);
    FactorDone(399343305);
    DivUnique(U128_MAX, 399343305, 852104849788175273060793162494);
  }

  lemma FactorDone(factor: nat)
    ensures RatioFactor(0, BITS, factor) == factor
  {
  }

  lemma SearchBit(factor: nat, i: nat, next: nat)
    requires 0 < i <= BITS && Threshold(i - 1) <= factor
    requires next * Threshold(i - 1) <= factor * E13 < (next + 1) * Threshold(i - 1)
    ensures GreedyTick(factor, i) == TwoTo(i - 1) + GreedyTick(next, i - 1)
  {
    DivUnique(factor * E13, Threshold(i - 1), next);
  }

  /** The search on the largest accepted ratio misses the last bit. */
  lemma LargestSearch()
    ensures TickAtRatio(MAX_RATIOX48) == MAX_TICK - 1
  {
    hide GreedyTick;
    SearchBit(461926963634199572276425, 14, 2147638496041053810);
    SearchBit(2147638496041053810, 13, 4630790281632482);
    SearchBit(4630790281632482, 12, 215031497690051);
    SearchBit(215031497690051, 11, 46336749296831);
    SearchBit(46336749296831, 10, 21509846181322);
    SearchBit(21509846181322, 9, 14655248116874);
    SearchBit(14655248116874, 8, 12096817006806);
    SearchBit(12096817006806, 7, 10990313443376);
    SearchBit(10990313443376, 6, 10475615812149);
    SearchBit(10475615812149, 5, 10227377925578);
    SearchBit(10227377925578, 4, 10105473683019);
    SearchBit(10105473683019, 3, 10045067533745);
    SearchBit(10045067533745, 2, 10014999999995);
    SearchEndsShort(10014999999995);
  }

  lemma SearchEndsShort(factor: nat)
    requires factor < Threshold(0)
    ensures GreedyTick(factor, 1) == 0
  {
  }

  /** The found tick is in range exactly when the ratio is not the smallest accepted one; it is never `MAX_TICK`. */
  lemma TickInRange(r: nat)
    requires Accepted(r)
    ensures TickAtRatio(r) < MAX_TICK
    ensures MIN_TICK <= TickAtRatio(r) <==> r != MIN_RATIOX48
  {
    hide TickAtRatio, Ideal;
    var t := TickAtRatio(r);
    TickBracketsRatio(r);
    EndIdeals();
    LargestSearch();
    TickAtRatioMonotone(r, MAX_RATIOX48);
    if t >= MIN_TICK {
      IdealMonotone(MIN_TICK, t);
    } else {
      IdealMonotone(t + 1, MIN_TICK);
    }
  }

  lemma {:induction false} RatioOrder(s: int, t: int)
    requires MIN_TICK <= s <= t <= MAX_TICK
    ensures RatioAtTick(s).Ok? && RatioAtTick(t).Ok? && RatioAtTick(s).value <= RatioAtTick(t).value
    ensures s < t ==> RatioAtTick(s).value * 1001 < RatioAtTick(t).value * 1000
    decreases t - s
  {
    hide RatioAtTick;
    if s < t {
      RatioStrictlyIncreasing(t - 1);
      RatioOrder(s, t - 1);
    } else {
      RatioAccuracy(s);
    }
  }

  /** A tick's ratio is accepted by the search for every tick but the highest: `MAX_RATIOX48` is too small for it. */
  lemma RatioAccepted(tick: int)
    requires MIN_TICK <= tick <= MAX_TICK
    ensures RatioAtTick(tick).Ok?
    ensures Accepted(RatioAtTick(tick).value) <==> tick < MAX_TICK
  {
    hide RatioAtTick, Ideal;
    EndIdeals();
    RatioAccuracy(MIN_TICK);
    LargestRatio();
    RatioOrder(MIN_TICK, tick);
    RatioOrder(tick, MAX_TICK);
  }

  /** The conversions do not invert each other exactly: the lowest tick comes back one lower, out of range. */
  lemma RoundTripMissesLowestTick()
    ensures RatioAtTick(MIN_TICK) == Ok(MIN_RATIOX48) && TickAtRatio(MIN_RATIOX48) == MIN_TICK - 1
  {
    hide RatioAtTick, TickAtRatio, Ideal;
    EndIdeals();
    RatioAccuracy(MIN_TICK);
    RatioSide(MIN_TICK);
    TickInRange(MIN_RATIOX48);
    TickBracketsRatio(MIN_RATIOX48);
  }

  // ---------------------------------------------------------------- exactly which start finds which tick

  /** The least search start from which the bits below `i` come to `n` or more: the thresholds taken backwards. */
  function LeastStart(n: nat, i: nat): nat
    requires i <= BITS
    decreases i, n
  {
    if i == 0 then 0
    else
      var k := Threshold(i - 1);
      if n >= TwoTo(i - 1) then Max(k, DivCeil(LeastStart(n - TwoTo(i - 1), i - 1) * k, E13))
      else Min(k, LeastStart(n, i - 1))
  }

  /** Reducing by a threshold reaches a start exactly from the product rounded up. */
  lemma ReduceReaches(f: nat, k: nat, start: nat)
    requires k > 0
    ensures Reduce(f, k) >= start <==> f >= DivCeil(start * k, E13)
  {
    hide FloorDiv, DivCeil;
    var q, up := FloorDiv(f * E13, k), DivCeil(start * k, E13);
    if q >= start {
      MulAtMost(start, q, k);
    } else {
      MulAtMost(q + 1, start, k);
    }
    assert f * E13 >= start * k <==> q >= start;
  }

  /** The search comes to `n` or more exactly from `LeastStart(n)` on, all truncations included. */
  lemma {:induction false} GreedyReaches(f: nat, n: nat, i: nat)
    requires i <= BITS && n < TwoTo(i)
    ensures GreedyTick(f, i) >= n <==> f >= LeastStart(n, i)
    decreases i
  {
    hide Reduce, Threshold, DivCeil;
    if i > 0 {
      var k, w := Threshold(i - 1), TwoTo(i - 1);
      GreedyTickBelow(f, i - 1);
      if n >= w {
        ReduceReaches(f, k, LeastStart(n - w, i - 1));
        GreedyReaches(Reduce(f, k), n - w, i - 1);
      } else {
        GreedyReaches(f, n, i - 1);
      }
    }
  }

  /** Which accepted ratios are found at which tick: an interval of search starts for each. */
  lemma TickOfStart(r: nat, tick: int)
    requires Accepted(r) && MIN_TICK <= tick <= MAX_TICK && (tick >= 0 <==> r >= ZERO_TICK_SCALED_RATIO)
    ensures var s := SearchStart(r);
            TickAtRatio(r) == tick <==>
              if tick >= 0 then LeastStart(tick, BITS) <= s && (tick < MAX_TICK ==> s < LeastStart(tick + 1, BITS))
              else LeastStart(-tick - 1, BITS) <= s < LeastStart(-tick, BITS)
  {
    hide GreedyTick, LeastStart, SearchStart;
    var s := SearchStart(r);
    var n: nat := if tick >= 0 then tick else -tick - 1;
    assert TwoTo(BITS) == 16384;
    GreedyTickBelow(s, BITS);
    GreedyReaches(s, n, BITS);
    if n < 16383 {
      GreedyReaches(s, n + 1, BITS);
    }
  }

  /** The round trip is exact for just those ticks whose ratio starts the search on the right side of the tick's own
      threshold; the others come back one lower. */
  lemma RoundTripExact(tick: int)
    requires MIN_TICK <= tick < MAX_TICK
    ensures RatioAtTick(tick).Ok? && Accepted(RatioAtTick(tick).value)
    ensures var r := RatioAtTick(tick).value;
            var s := SearchStart(r);
            && (TickAtRatio(r) == tick <==>
                  if tick >= 0 then LeastStart(tick, BITS) <= s else s < LeastStart(-tick, BITS))
            && (TickAtRatio(r) != tick ==> TickAtRatio(r) == tick - 1)
  {
    hide GreedyTick, LeastStart, RatioFactor;
    RatioAccepted(tick);
    TickRoundTrip(tick);
    SideOfZero(tick);
    var s := SearchStart(RatioAtTick(tick).value);
    assert TwoTo(BITS) == 16384;
    GreedyReaches(s, if tick >= 0 then tick else -tick, BITS);
  }

  /** Ticks from 0 up have ratios from 1.0 up. */
  lemma SideOfZero(tick: int)
    requires MIN_TICK <= tick <= MAX_TICK
    ensures RatioAtTick(tick).Ok?
    ensures tick >= 0 <==> RatioAtTick(tick).value >= ZERO_TICK_SCALED_RATIO
  {
    hide RatioFactor;
    FactorOfZero();
    assert RatioAtTick(0) == Ok(ZERO_TICK_SCALED_RATIO);
    if tick >= 0 {
      RatioOrder(0, tick);
    } else {
      RatioOrder(tick, 0);
    }
  }

  lemma SearchMiss(factor: nat, i: nat)
    requires 0 < i <= BITS && factor < Threshold(i - 1)
    ensures GreedyTick(factor, i) == GreedyTick(factor, i - 1)
  {
  }

  lemma NoMoreFactors(i: nat, factor: nat)
    requires i <= BITS
    ensures RatioFactor(0, i, factor) == factor
    decreases BITS - i
  {
    if i < BITS {
      NoMoreFactors(i + 1, factor);
    }
  }

  /** The tick the on-chain library is tested with is one that comes back. */
  lemma TestedTickComesBack()
    ensures RatioAtTick(-462) == Ok(140831308679119) && TickAtRatio(140831308679119) == -462
  {
    hide RatioFactor, GreedyTick;
    FactorBit(462, 0, 18446744073709551616, 18446744073709551616);
    FactorBit(231, 1, 18446744073709551616, 18391528108445969703);
    FactorBit(115, 2, 18391528108445969703, 18281591511000532048);
    FactorBit(57, 3, 18281591511000532048, 18063685848168444776);
    FactorBit(28, 4, 18063685848168444776, 18063685848168444776);
    FactorBit(14, 5, 18063685848168444776, 18063685848168444776);
    FactorBit(7, 6, 18063685848168444776, 16411388987893044575);
    FactorBit(3, 7, 16411388987893044575, 13546380643360892899);
    FactorBit(1, 8, 13546380643360892899, 9229520645594806874);
    NoMoreFactors(9, 9229520645594806874);
    SearchFor462();
  }

  lemma SearchFor462()
    ensures TickAtRatio(140831308679119) == -462
  {
    hide GreedyTick;
    SearchMiss(19986676212175, 14);
    SearchMiss(19986676212175, 13);
    SearchMiss(19986676212175, 12);
    SearchMiss(19986676212175, 11);
    SearchMiss(19986676212175, 10);
    SearchBit(19986676212175, 9, 13617470643532);
    SearchBit(13617470643532, 8, 11240208910602);
    SearchBit(11240208910602, 7, 10212059835826);
    SearchMiss(10212059835826, 6);
    SearchMiss(10212059835826, 5);
    SearchBit(10212059835826, 4, 10090338175757);
    SearchBit(10090338175757, 3, 10030022499996);
    SearchMiss(10030022499996, 2);
    SearchBit(10030022499996, 1, 10014999999996);
    NoMoreBits(10014999999996);
  }

  lemma NoMoreBits(factor: nat)
    ensures GreedyTick(factor, 0) == 0
  {
  }
}
