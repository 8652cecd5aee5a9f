/** How close the tick conversions come to 1.0015^tick, and what follows: the ratio is strictly increasing in the tick,
    the search brackets its input, and the two conversions invert each other up to one tick. */
module TickAccuracy {
  import opened Common
  import opened TickMath

  const BASE: real := 1.0015
  const FACTOR_SCALE: real := 18446744073709551616.0

  /** 1.0015^(2^i). */
  ghost function Square(i: nat): real {
    if i == 0 then BASE else Square(i - 1) * Square(i - 1)
  }

  // ---------------------------------------------------------------- the two constant tables

  /** Decimal brackets of the squares, to 30 digits. */
  const LOWER: seq<real> := [
    1.0015,
    1.00300225000000000000000000000,
    1.00601351350506250000000000000,
    1.01206318935480056907421312890,
    1.02427189924701091191840927761,
    1.04913292358707887270979599828,
    1.10067989135437147685980801560,
    1.21149622323187099817270416139,
    1.46772309890508740607270614623,
    2.15421109505955298802281576900,
    4.64062544207767844008185024382,
    21.5354044936586484546834475478,
    463.773646705493108830028664214,
    215085.995378511539117674902380
  ]

  const UPPER: seq<real> := [
    1.0015,
    1.00300225000000000000000000000,
    1.00601351350506250000000000000,
    1.01206318935480056907421312891,
    1.02427189924701091191840927764,
    1.04913292358707887270979599835,
    1.10067989135437147685980801575,
    1.21149622323187099817270416173,
    1.46772309890508740607270614706,
    2.15421109505955298802281577145,
    4.64062544207767844008185025438,
    21.5354044936586484546834476459,
    463.773646705493108830028668440,
    215085.995378511539117674906301
  ]

  lemma {:induction false} SquareBracket(i: nat)
    requires i < BITS
    ensures LOWER[i] <= Square(i) <= UPPER[i]
  {
    if i > 0 {
      SquareBracket(i - 1);
      MulBounds(LOWER[i - 1], Square(i - 1), UPPER[i - 1], LOWER[i - 1], Square(i - 1), UPPER[i - 1]);
      TableStep(i);
    }
  }

  lemma TableStep(i: nat)
    requires 0 < i < BITS
    ensures 0.0 <= LOWER[i] <= LOWER[i - 1] * LOWER[i - 1] && UPPER[i - 1] * UPPER[i - 1] <= UPPER[i]
  {
  }

  /** The factor constants against the decimal brackets. */
  lemma FactorBracket(i: nat)
    requires i < BITS
    ensures 1.0 - 0.00000000000001 <= FactorReal(i) * LOWER[i]
    ensures FactorReal(i) * UPPER[i] <= 1.0 + 0.00000000000001
  {
  }

  /** The threshold constants against the decimal brackets. */
  lemma ThresholdBracket(i: nat)
    requires i < BITS
    ensures UPPER[i] * (1.0 - 0.00000000000004) <= ThresholdReal(i) <= LOWER[i] * (1.0 + 0.00000000000004)
  {
  }

  ghost function FactorReal(i: nat): real
    requires i < BITS
  {
    FACTORS[i] as real / FACTOR_SCALE
  }

  ghost function ThresholdReal(i: nat): real
    requires i < BITS
  {
    Threshold(i) as real / 10000000000000.0
  }

  // ---------------------------------------------------------------- powers of the base

  lemma {:induction false} PowSquare(x: real, m: nat)
    ensures Pow(x, 2 * m) == Pow(x * x, m)
  {
    if m > 0 {
      PowSquare(x, m - 1);
      assert Pow(x, 2 * m) == x * Pow(x, 2 * m - 1) == x * (x * Pow(x, 2 * m - 2));
      SquareTimes(x, Pow(x * x, m - 1));
    }
  }

  lemma SquareTimes(x: real, y: real)
    ensures x * (x * y) == (x * x) * y
  {
  }

  ghost function BitSquare(bits: nat, i: nat): real {
    if bits % 2 == 1 then Square(i) else 1.0
  }

  /** Reading one bit off the exponent. */
  lemma PowBit(i: nat, bits: nat)
    ensures Pow(Square(i), bits) == BitSquare(bits, i) * Pow(Square(i + 1), bits / 2)
  {
    var m, x := bits / 2, Square(i);
    PowSquare(x, m);
    assert Square(i + 1) == x * x;
    if bits % 2 == 1 {
      assert bits == 2 * m + 1;
      assert Pow(x, bits) == x * Pow(x, 2 * m);
    } else {
      assert bits == 2 * m;
    }
  }

  lemma {:induction false} SquareIsPow(i: nat)
    ensures Square(i) == Pow(BASE, TwoTo(i))
  {
    if i == 0 {
      assert Pow(BASE, 1) == BASE * Pow(BASE, 0);
    } else {
      SquareIsPow(i - 1);
      PowAdd(BASE, TwoTo(i - 1), TwoTo(i - 1));
    }
  }

  lemma {:induction false} PowBaseMonotone(m: nat, n: nat)
    requires m <= n
    ensures 1.0 <= Pow(BASE, m) <= Pow(BASE, n)
  {
    if n > 0 {
      if m == n {
        PowBaseMonotone(m - 1, n - 1);
      } else {
        PowBaseMonotone(m, n - 1);
      }
    }
  }

  /** No tick reaches beyond 1.0015^16384. */
  lemma PowBaseRange(n: nat)
    requires n <= 16384
    ensures 1.0 <= Pow(BASE, n) <= 46262000000.0
  {
    hide Pow, Square;
    assert TwoTo(13) == 8192;
    PowBaseMonotone(n, 16384);
    SquareIsPow(13);
    SquareBracket(13);
    PowAdd(BASE, 8192, 8192);
    MulOwnBound(Pow(BASE, 8192));
  }

  lemma MulOwnBound(s: real)
    requires 0.0 <= s <= 215086.0
    ensures s * s <= 46262000000.0
  {
    MulBounds(0.0, s, 215086.0, 0.0, s, 215086.0);
  }

  // ---------------------------------------------------------------- the product of factors

  /** The factor for `bits` with no truncation, over 2^64. */
  ghost function ExactFactor(bits: nat, i: nat): real
    requires i <= BITS
    decreases BITS - i
  {
    if i == BITS then 1.0
    else BitFactor(bits, i) * ExactFactor(bits / 2, i + 1)
  }

  ghost function BitFactor(bits: nat, i: nat): real
    requires i < BITS
  {
    if bits % 2 == 1 then FactorReal(i) else 1.0
  }

  /** `e` and `p` are each other's reciprocals up to `k` errors of 2e-14. */
  ghost predicate Inverse(k: nat, e: real, p: real) {
    1.0 - k as real * 0.00000000000002 <= e * p <= 1.0 + k as real * 0.00000000000002
  }

  lemma InverseStep(k: nat, t: real, s: real, e: real, p: real, te: real, sp: real)
    requires k < BITS && te == t * e && sp == s * p
    requires 1.0 - 0.00000000000001 <= t * s <= 1.0 + 0.00000000000001 && Inverse(k, e, p)
    ensures Inverse(k + 1, te, sp)
  {
    var x, y := t * s, e * p;
    MulBounds(1.0 - 0.00000000000001, x, 1.0 + 0.00000000000001,
              1.0 - k as real * 0.00000000000002, y, 1.0 + k as real * 0.00000000000002);
    assert te * sp == x * y;
  }

  lemma FactorTimesSquare(i: nat)
    requires i < BITS
    ensures 1.0 - 0.00000000000001 <= FactorReal(i) * Square(i) <= 1.0 + 0.00000000000001
    ensures 0.0 < FactorReal(i) <= 1.0 && 1.0 <= Square(i)
  {
    FactorBracket(i);
    SquareBracket(i);
    var t := FactorReal(i);
    assert 0.0 < t <= 1.0 && 1.0 <= LOWER[i];
    MulMonotone(LOWER[i], Square(i), t);
    MulMonotone(Square(i), UPPER[i], t);
  }

  /** The factor for bit `i` is 2^64 / 1.0015^(2^i), to one part in 10^14. */
  lemma FactorTable(i: nat)
    requires i < BITS
    ensures var power := Pow(BASE, TwoTo(i));
            1.0 - 0.00000000000001 <= FACTORS[i] as real / FACTOR_SCALE * power <= 1.0 + 0.00000000000001
  {
    hide Pow, TwoTo, Square;
    SquareIsPow(i);
    FactorTimesSquare(i);
  }

  /** The threshold for bit `i` is 1e13 * 1.0015^(2^i), to four parts in 10^14. */
  lemma ThresholdTable(i: nat)
    requires i < BITS
    ensures var power := Pow(BASE, TwoTo(i));
            power * (1.0 - 0.00000000000004) <= Threshold(i) as real / 10000000000000.0 <= power * (1.0 + 0.00000000000004)
  {
    hide Pow, TwoTo, Square;
    SquareIsPow(i);
    SquareBracket(i);
    ThresholdBracket(i);
  }

  lemma BitFactorTimesSquare(bits: nat, i: nat)
    requires i < BITS
    ensures 1.0 - 0.00000000000001 <= BitFactor(bits, i) * BitSquare(bits, i) <= 1.0 + 0.00000000000001
    ensures 0.0 < BitFactor(bits, i) <= 1.0
  {
    FactorTimesSquare(i);
  }

  lemma ExactFactorStep(bits: nat, i: nat)
    requires i <= BITS
    ensures i < BITS ==> ExactFactor(bits, i) == BitFactor(bits, i) * ExactFactor(bits / 2, i + 1)
    ensures i == BITS ==> ExactFactor(bits, i) == 1.0
  {
    hide BitFactor;
  }

  lemma {:induction false} ExactFactorRange(bits: nat, i: nat)
    requires i <= BITS
    ensures 0.0 < ExactFactor(bits, i) <= 1.0
    decreases BITS - i
  {
    hide BitFactor, ExactFactor;
    ExactFactorStep(bits, i);
    if i < BITS {
      ExactFactorRange(bits / 2, i + 1);
      BitFactorTimesSquare(bits, i);
      NamedShrink(BitFactor(bits, i), ExactFactor(bits / 2, i + 1), ExactFactor(bits, i));
    }
  }

  lemma NamedShrink(t: real, e: real, te: real)
    requires 0.0 < t <= 1.0 && 0.0 < e <= 1.0 && te == t * e
    ensures 0.0 < te <= 1.0
  {
    MulShrinks(t, e);
  }

  lemma PowZero(x: real)
    ensures Pow(x, 0) == 1.0
  {
  }

  lemma {:induction false} ExactFactorInverse(bits: nat, i: nat)
    requires i <= BITS && bits < TwoTo(BITS - i)
    ensures Inverse(BITS - i, ExactFactor(bits, i), Pow(Square(i), bits))
    decreases BITS - i
  {
    hide ExactFactor, Pow, BitFactor, BitSquare, Square;
    ExactFactorStep(bits, i);
    if i == BITS {
      PowZero(Square(i));
    } else {
      ExactFactorInverse(bits / 2, i + 1);
      PowBit(i, bits);
      BitFactorTimesSquare(bits, i);
      InverseStep(BITS - i - 1, BitFactor(bits, i), BitSquare(bits, i), ExactFactor(bits / 2, i + 1),
                  Pow(Square(i + 1), bits / 2), ExactFactor(bits, i), Pow(Square(i), bits));
    }
  }

  /** `r` falls short of `factor * e` by at most `k` units. */
  ghost predicate ShortBy(k: nat, factor: nat, e: real, r: nat) {
    factor as real * e - k as real <= r as real <= factor as real * e
  }

  /** Every multiplication cuts off less than one unit, and later factors only shrink that. */
  lemma {:induction false} Truncation(bits: nat, i: nat, factor: nat)
    requires i <= BITS
    ensures ShortBy(BITS - i, factor, ExactFactor(bits, i), RatioFactor(bits, i, factor))
    decreases BITS - i
  {
    hide BitFactor, ExactFactor, ApplyBit;
    ExactFactorStep(bits, i);
    if i < BITS {
      var next := ApplyBit(bits, i, factor);
      Truncation(bits / 2, i + 1, next);
      ExactFactorRange(bits / 2, i + 1);
      TruncateBit(bits, i, factor, ExactFactor(bits / 2, i + 1), ExactFactor(bits, i), BITS - i - 1,
                  RatioFactor(bits / 2, i + 1, next));
    }
  }

  lemma TruncateBit(bits: nat, i: nat, factor: nat, e: real, te: real, k: nat, r: nat)
    requires i < BITS && 0.0 < e <= 1.0 && te == BitFactor(bits, i) * e
    requires ShortBy(k, ApplyBit(bits, i, factor), e, r)
    ensures ShortBy(k + 1, factor, te, r)
  {
    hide MulShift64, FactorReal;
    if bits % 2 == 1 {
      TruncateOnce(factor, i, e, te);
    } else {
      assert te == e;
    }
  }

  lemma TruncateOnce(factor: nat, i: nat, e: real, te: real)
    requires i < BITS && 0.0 < e <= 1.0 && te == FactorReal(i) * e
    ensures factor as real * te - 1.0 <= MulShift64(factor, FACTORS[i]) as real * e <= factor as real * te
  {
    MulShiftReal(factor, FACTORS[i], FactorReal(i));
    TruncateReal(factor as real, FactorReal(i), MulShift64(factor, FACTORS[i]) as real, e, te);
  }

  lemma MulShiftReal(factor: nat, f: nat, t: real)
    requires t == f as real / FACTOR_SCALE
    ensures MulShift64(factor, f) as real <= factor as real * t <= MulShift64(factor, f) as real + 1.0
  {
    FloorReal(factor * f, FACTOR00);
    CastProduct(factor, f);
  }

  lemma TruncateReal(x: real, t: real, next: real, e: real, te: real)
    requires 0.0 < e <= 1.0 && te == t * e && next <= x * t <= next + 1.0
    ensures x * te - 1.0 <= next * e <= x * te
  {
    var exact, up := x * t, next + 1.0;
    MulMonotone(next, exact, e);
    MulMonotone(exact, up, e);
    var low, high, mid := next * e, up * e, exact * e;
    assert high == low + e;
    assert mid == x * te;
    assert mid - 1.0 <= low <= mid;
  }

  /** The factor of an absolute tick against 2^64 / 1.0015^n. */
  lemma FactorAccuracy(n: nat)
    requires n <= 16383
    ensures var f, w := RatioFactor(n, 0, FACTOR00) as real, Pow(BASE, n);
            && 1.0 <= w <= 46262000000.0
            && f * w <= FACTOR_SCALE * (1.0 + 0.0000000000003)
            && FACTOR_SCALE * (1.0 - 0.0000000000003) - 14.0 * w <= f * w
            && FACTOR_SCALE * (1.0 - 0.00000004) <= f * w
  {
    hide RatioFactor, ExactFactor, Pow;
    PowBaseRange(n);
    assert TwoTo(14) == 16384;
    ExactFactorInverse(n, 0);
    Truncation(n, 0, FACTOR00);
    FactorBounds(RatioFactor(n, 0, FACTOR00) as real, Pow(BASE, n), ExactFactor(n, 0));
  }

  lemma FactorBounds(f: real, w: real, e: real)
    requires 1.0 <= w <= 46262000000.0 && Inverse(14, e, w)
    requires FACTOR_SCALE * e - 14.0 <= f <= FACTOR_SCALE * e
    ensures f * w <= FACTOR_SCALE * (1.0 + 0.0000000000003)
    ensures FACTOR_SCALE * (1.0 - 0.0000000000003) - 14.0 * w <= f * w
    ensures FACTOR_SCALE * (1.0 - 0.00000004) <= f * w
  {
    var x, high, low := e * w, FACTOR_SCALE * e, FACTOR_SCALE * e - 14.0;
    ScaledMargin(e, w, x, high, low);
    MulMonotone(f, high, w);
    MulMonotone(low, f, w);
    var product, lowProduct := f * w, low * w;
    assert lowProduct <= product;
    assert 1.0 - 0.0000000000003 <= x;
    assert FACTOR_SCALE * (1.0 - 0.0000000000003) - 14.0 * w <= lowProduct;
  }

  lemma ScaledMargin(e: real, w: real, x: real, high: real, low: real)
    requires x == e * w && high == FACTOR_SCALE * e && low == FACTOR_SCALE * e - 14.0
    ensures high * w == FACTOR_SCALE * x && low * w == FACTOR_SCALE * x - 14.0 * w
  {
  }

  // ---------------------------------------------------------------- the ratio of a tick

  const SCALE: real := 281474976710656.0

  /** 2^48 * 1.0015^tick, the ratio `getRatioAtTick` is documented to return. */
  ghost function Ideal(tick: int): real {
    if tick >= 0 then SCALE * Pow(BASE, tick) else (PowBaseMonotone(0, -tick); SCALE / Pow(BASE, -tick))
  }

  /** One unit and one part in ten million. */
  ghost predicate CloseTo(r: real, ideal: real) {
    ideal - ideal / 10000000.0 - 1.0 <= r <= ideal + ideal / 10000000.0 + 1.0
  }

  /** The ratio of a tick that is not positive: the factor itself, cut. */
  lemma CutFactorIsClose(f: nat, w: real, ideal: real)
    requires 1.0 <= w <= 46262000000.0 && ideal * w == SCALE
    requires f as real * w <= FACTOR_SCALE * (1.0 + 0.0000000000003)
    requires FACTOR_SCALE * (1.0 - 0.0000000000003) - 14.0 * w <= f as real * w
    ensures CloseTo((f / 0x10000) as real, ideal)
    ensures (f / 0x10000) as real <= ideal + ideal / 1000000000000.0
  {
    var x := f as real;
    FloorReal(f, 0x10000);
    var high, low := 65536.0 * ideal * (1.0 + 0.0000000000003), 65536.0 * ideal * (1.0 - 0.0000000000003) - 14.0;
    assert high * w == FACTOR_SCALE * (1.0 + 0.0000000000003);
    assert low * w == FACTOR_SCALE * (1.0 - 0.0000000000003) - 14.0 * w;
    CancelLeft(x, high, w);
    CancelLeft(low, x, w);
    MulMonotone(w, 46262000000.0, ideal);
    assert 6000.0 <= ideal;
  }

  /** The ratio of a positive tick: the reciprocal of the factor, rounded up. */
  lemma InverseFactorIsClose(f: nat, w: real, ideal: real)
    requires f > 0 && 1.0 <= w <= 46262000000.0 && ideal == SCALE * w
    requires FACTOR_SCALE * (1.0 - 0.00000004) <= f as real * w <= FACTOR_SCALE * (1.0 + 0.0000000000003)
    ensures var inverse := FloorDiv(U128_MAX, f);
            var r := (inverse / 0x10000 + if inverse % 0x10000 != 0 then 1 else 0) as real;
            CloseTo(r, ideal) && ideal - ideal / 1000000000000.0 - 0.0001 <= r
  {
    var inverse := FloorDiv(U128_MAX, f);
    var x, y := inverse as real, f as real;
    CastProduct(inverse, f);
    CastProduct(inverse + 1, f);
    ReciprocalBounds(x, y, w, ideal);
    assert inverse <= 0x10000 * (inverse / 0x10000 + if inverse % 0x10000 != 0 then 1 else 0) < inverse + 0x10000;
  }

  lemma ReciprocalBounds(x: real, y: real, w: real, ideal: real)
    requires 0.0 < y && 1.0 <= w && ideal == SCALE * w && 0.0 <= x
    requires FACTOR_SCALE * (1.0 - 0.00000004) <= y * w <= FACTOR_SCALE * (1.0 + 0.0000000000003)
    requires x * y < FACTOR_SCALE * FACTOR_SCALE <= (x + 1.0) * y
    ensures 65536.0 * (ideal - ideal / 1000000000000.0) - 1.0 <= x <= 65536.0 * (ideal + ideal / 10000000.0)
  {
    var yw := y * w;
    var up := x + 1.0;
    MulMonotone(x * y, FACTOR_SCALE * FACTOR_SCALE, w);
    MulMonotone(FACTOR_SCALE * FACTOR_SCALE, up * y, w);
    assert (x * y) * w == x * yw && (up * y) * w == up * yw;
    MulMonotone(FACTOR_SCALE * (1.0 - 0.00000004), yw, x);
    MulMonotone(yw, FACTOR_SCALE * (1.0 + 0.0000000000003), up);
  }

  /** `getRatioAtTick` meets its documentation on every tick in range: it never throws and its result is within one
      unit and one part in ten million of 2^48 * 1.0015^tick. */
  lemma RatioAccuracy(tick: int)
    requires MIN_TICK <= tick <= MAX_TICK
    ensures RatioAtTick(tick).Ok? && CloseTo(RatioAtTick(tick).value as real, Ideal(tick))
  {
    RatioSide(tick);
  }

  /** The direction of rounding: positive ticks are not rounded down, the others not up, to one part in 10^12. */
  lemma RatioSide(tick: int)
    requires MIN_TICK <= tick <= MAX_TICK
    ensures RatioAtTick(tick).Ok?
    ensures var r, ideal := RatioAtTick(tick).value as real, Ideal(tick);
            && CloseTo(r, ideal)
            && (tick > 0 ==> ideal - ideal / 1000000000000.0 - 0.0001 <= r)
            && (tick <= 0 ==> r <= ideal + ideal / 1000000000000.0)
  {
    hide RatioFactor, Pow;
    var n := Abs(tick);
    FactorAccuracy(n);
    var f, w := RatioFactor(n, 0, FACTOR00), Pow(BASE, n);
    if tick > 0 {
      InverseFactorIsClose(f, w, Ideal(tick));
    } else {
      if tick == 0 {
        PowZero(BASE);
      }
      CutFactorIsClose(f, w, Ideal(tick));
    }
  }

  /** Going one tick up multiplies the ideal ratio by 1.0015. */
  lemma IdealStep(tick: int)
    ensures Ideal(tick + 1) == BASE * Ideal(tick) && 0.0 < Ideal(tick)
  {
    if tick >= 0 {
      PowPositive(BASE, tick);
    } else {
      PowPositive(BASE, -tick - 1);
      var v, w := Pow(BASE, -tick - 1), Pow(BASE, -tick);
      assert w == BASE * v;
      QuotientStep(v, w);
    }
  }

  lemma QuotientStep(v: real, w: real)
    requires 0.0 < v && w == BASE * v
    ensures 0.0 < SCALE / w && SCALE / v == BASE * (SCALE / w)
  {
    var q := SCALE / w;
    assert q * w == SCALE;
    assert (BASE * q) * v == SCALE;
  }

  lemma {:induction false} IdealMonotone(s: int, t: int)
    requires s <= t
    ensures 0.0 < Ideal(s) <= Ideal(t)
    decreases t - s
  {
    IdealStep(s);
    if s < t {
      IdealMonotone(s + 1, t);
    }
  }

  lemma IdealAtLeast6000(tick: int)
    requires -16384 <= tick
    ensures 6000.0 <= Ideal(tick)
  {
    IdealMonotone(-16384, tick);
    PowBaseRange(16384);
    SmallestIdeal(Pow(BASE, 16384), Ideal(-16384));
  }

  lemma SmallestIdeal(w: real, q: real)
    requires 1.0 <= w <= 46262000000.0 && q == SCALE / w
    ensures 6000.0 <= q
  {
    assert q * w == SCALE;
    if q < 6000.0 {
      MulMonotone(q, 6000.0, w);
    }
  }

  /** Each tick's ratio is strictly above the one before it, by at least one part in a thousand. */
  lemma RatioStrictlyIncreasing(tick: int)
    requires MIN_TICK <= tick < MAX_TICK
    ensures var r, s := RatioAtTick(tick), RatioAtTick(tick + 1);
            r.Ok? && s.Ok? && r.value * 1001 < s.value * 1000
  {
    hide RatioAtTick, Ideal;
    RatioAccuracy(tick);
    RatioAccuracy(tick + 1);
    IdealStep(tick);
    IdealAtLeast6000(tick);
  }
}
