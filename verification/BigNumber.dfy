/** The vault's 35|15-bit floating point numbers, as `ts-sdk/bigNumberMinified.ts` computes with them.
    A packed number holds a coefficient in its upper 35 bits and an exponent in its lower 15. */
module BigNumber {
  import opened Common

  const EXPONENT_RANGE: nat := 0x8000
  const EXPONENT_MAX: nat := 0x7fff
  const DECIMALS: nat := 16384
  const PRECISION: nat := 64
  const MAX_MASK: nat := 0x3_ffff_ffff_ffff
  const COEFFICIENT_MIN: nat := 0x4_0000_0000
  const COEFFICIENT_END: nat := 0x8_0000_0000
  const TWO_69: nat := 0x20_0000_0000_0000_0000
  const TWO_97: nat := 0x2_0000_0000_0000_0000_0000_0000
  const TWO_98: nat := 0x4_0000_0000_0000_0000_0000_0000

  datatype BnError = ExponentOrder | ResultOverflow | ExponentOverflow | ExponentUnderflow | DivisionByZero

  function Coefficient(b: nat): nat {
    b / EXPONENT_RANGE
  }

  function Exponent(b: nat): nat {
    b % EXPONENT_RANGE
  }

  /** `coefficient.shln(15).or(exponent)`; the bits do not overlap, so `or` is addition. */
  function CreateBigNumber(coefficient: nat, exponent: nat): (b: nat)
    requires exponent <= EXPONENT_MAX
    ensures Coefficient(b) == coefficient && Exponent(b) == exponent
  {
    coefficient * EXPONENT_RANGE + exponent
  }

  /** `shln`: doubling `d` times. */
  function ShiftLeft(n: nat, d: nat): nat {
    if d == 0 then n else 2 * ShiftLeft(n, d - 1)
  }

  /** `shrn`: halving `d` times, dropping the bits that fall off. */
  function ShiftRight(n: nat, d: nat): (q: nat)
    ensures ShiftLeft(q, d) <= n < ShiftLeft(q + 1, d)
  {
    if d == 0 then n else ShiftRight(n / 2, d - 1)
  }

  /** The number a packed value stands for. */
  function Value(b: nat): nat {
    ShiftLeft(Coefficient(b), Exponent(b))
  }

  /** All 35 coefficient bits are in use. */
  predicate Normal(b: nat) {
    COEFFICIENT_MIN <= Coefficient(b) < COEFFICIENT_END
  }

  /** `mostSignificantBit`: one-based position of the highest set bit, 0 for 0. */
  function MostSignificantBit(n: nat): (m: nat)
    ensures n == 0 ==> m == 0
    ensures n > 0 ==> m > 0 && TwoTo(m - 1) <= n < TwoTo(m)
  {
    if n == 0 then 0 else 1 + MostSignificantBit(n / 2)
  }

  function MulDivNormal(normal: nat, bigNumber1: nat, bigNumber2: nat): Result<nat, BnError> {
    if bigNumber1 == 0 || bigNumber2 == 0 then Ok(0)
    else
      var exponent1, exponent2 := Exponent(bigNumber1), Exponent(bigNumber2);
      if exponent2 < exponent1 then Err(ExponentOrder)
      else
        var netExponent := exponent2 - exponent1;
        if netExponent < 129 then
          var numerator := normal * Coefficient(bigNumber1);
          var denominator := ShiftLeft(Coefficient(bigNumber2), netExponent);
          if denominator == 0 then Err(DivisionByZero)
          else
            var result := FloorDiv(numerator, denominator);
            if result > U64_MAX then Err(ResultOverflow) else Ok(result)
        else Ok(0)
  }

  /** The bit length of a product as `mulDivBigNumber` finds it: two shortcuts, then a split at bit 64. */
  function NumeratorLength(numerator: nat): nat {
    if numerator > TWO_98 - 1 then 99
    else if numerator > TWO_97 - 1 then 98
    else
      var msb := MostSignificantBit(numerator);
      if msb < 64 then msb else 64 + MostSignificantBit(numerator / TWO_64)
  }

  function MulDivBigNumber(bigNumber: nat, number1: nat): Result<nat, BnError> {
    if bigNumber == 0 then Ok(0)
    else
      var numerator := Coefficient(bigNumber) * number1;
      var diff: nat := Max(0, NumeratorLength(numerator) - 35);
      var adjusted := ShiftRight(numerator, diff);
      var resultExponent := Exponent(bigNumber) + diff;
      if resultExponent > PRECISION then
        if resultExponent - PRECISION > EXPONENT_MAX then Err(ExponentOverflow)
        else Ok(CreateBigNumber(adjusted, resultExponent - PRECISION))
      else Err(ExponentUnderflow)
  }

  function MulBigNumber(bigNumber1: nat, bigNumber2: nat): Result<nat, BnError> {
    var product := Coefficient(bigNumber1) * Coefficient(bigNumber2);
    var overflowLen := if product > TWO_69 - 1 then 35 else 34;
    var adjusted := ShiftRight(product, overflowLen);
    var resExponent := Exponent(bigNumber1) + Exponent(bigNumber2) + overflowLen;
    if resExponent < DECIMALS then Err(ExponentUnderflow)
    else if resExponent - DECIMALS > EXPONENT_MAX then Ok(MAX_MASK)
    else Ok(CreateBigNumber(adjusted, resExponent - DECIMALS))
  }

  function DivBigNumber(bigNumber1: nat, bigNumber2: nat): Result<nat, BnError> {
    if bigNumber1 == 0 then Ok(0)
    else if bigNumber2 == 0 || Coefficient(bigNumber2) == 0 then Err(DivisionByZero)
    else
      var quotient := FloorDiv(Coefficient(bigNumber1) * TWO_64, Coefficient(bigNumber2));
      var adjustedLen: nat := (if quotient / TWO_64 == 1 then PRECISION + 1 else PRECISION) - 35;
      var adjusted := ShiftRight(quotient, adjustedLen);
      var addition := Exponent(bigNumber1) + DECIMALS + adjustedLen;
      var subtraction := Exponent(bigNumber2) + PRECISION;
      if addition > subtraction then
        if addition - subtraction > EXPONENT_MAX then Err(ExponentOverflow)
        else Ok(CreateBigNumber(adjusted, addition - subtraction))
      else Err(ExponentUnderflow)
  }

  // ---------------------------------------------------------------- rounding

  /** `x` is `y` cut to 35 significant bits: never above, and below by less than one part in 2^34. */
  ghost predicate CutOf(x: nat, y: nat) {
    x <= y && y * (COEFFICIENT_MIN - 1) <= x * COEFFICIENT_MIN
  }

  /** What one cut keeps. */
  ghost const KEEP: real := 1.0 - 1.0 / 17179869184.0

  /** `r` is below `exact` by no more than the factor `keep`. */
  ghost predicate Within(keep: real, exact: real, r: real) {
    keep * exact <= r <= exact
  }

  /** One more product, losing at most the factor `cut`, after a chain that kept `keep`. */
  lemma CutStep(cut: real, exact: real, a: real, f: real, keep: real, b: real)
    requires 0.0 <= cut && 0.0 <= f
    requires Within(keep, exact, a) && Within(cut, a * f, b)
    ensures Within(cut * keep, exact * f, b)
  {
    MulMonotone(a, exact, f);
    MulMonotone(keep * exact, a, f);
    MulMonotone(keep * exact * f, a * f, cut);
  }

  lemma ExtendChain(cut: real, v: real, factors: seq<real>, a: real, b: real)
    requires 0.0 <= cut && factors != [] && 0.0 <= factors[|factors| - 1]
    requires Within(Pow(cut, |factors| - 1), Exact(v, factors[..|factors| - 1]), a)
    requires Within(cut, a * factors[|factors| - 1], b)
    ensures Within(Pow(cut, |factors|), Exact(v, factors), b)
  {
    var n := |factors| - 1;
    var keep, exact, f := Pow(cut, n), Exact(v, factors[..n]), factors[n];
    CutStep(cut, exact, a, f, keep, b);
    assert Pow(cut, |factors|) == cut * keep;
    assert Exact(v, factors) == exact * f;
  }

  lemma CutReal(x: nat, y: nat)
    requires CutOf(x, y)
    ensures Within(KEEP, y as real, x as real)
  {
    CastProduct(y, COEFFICIENT_MIN - 1);
    CastProduct(x, COEFFICIENT_MIN);
  }

  lemma {:induction false} ShiftLeftIsProduct(n: nat, d: nat)
    ensures ShiftLeft(n, d) == n * TwoTo(d)
  {
    if d > 0 {
      ShiftLeftIsProduct(n, d - 1);
    }
  }

  lemma {:induction false} ShiftLeftTwice(n: nat, d: nat, e: nat)
    ensures ShiftLeft(ShiftLeft(n, d), e) == ShiftLeft(n, d + e)
  {
    if e > 0 {
      ShiftLeftTwice(n, d, e - 1);
    }
  }

  /** Shifting left respects order, and reflects it. */
  lemma {:induction false} ShiftLeftOrder(m: nat, n: nat, d: nat)
    ensures ShiftLeft(m, d) <= ShiftLeft(n, d) <==> m <= n
  {
    if d > 0 {
      ShiftLeftOrder(m, n, d - 1);
    }
  }

  lemma {:induction false} ShiftLeftGrows(n: nat, d: nat, e: nat)
    requires d <= e
    ensures ShiftLeft(n, d) <= ShiftLeft(n, e)
  {
    if d < e {
      ShiftLeftGrows(n, d, e - 1);
    }
  }

  /** Shifting both sides keeps a cut. */
  lemma {:induction false} ShiftCut(x: nat, y: nat, d: nat)
    requires CutOf(x, y)
    ensures CutOf(ShiftLeft(x, d), ShiftLeft(y, d))
  {
    if d > 0 {
      ShiftCut(x, y, d - 1);
    }
  }

  /** Dropping `d` bits is a cut as long as 35 remain. */
  lemma {:induction false} ShiftRightCuts(n: nat, d: nat)
    requires COEFFICIENT_MIN <= ShiftRight(n, d)
    ensures CutOf(ShiftLeft(ShiftRight(n, d), d), n)
  {
    var q := ShiftRight(n, d);
    ShiftLeftSuccessor(q, d);
    ShiftLeftScaled(q, d);
  }

  lemma {:induction false} ShiftLeftSuccessor(q: nat, d: nat)
    ensures ShiftLeft(q + 1, d) == ShiftLeft(q, d) + ShiftLeft(1, d)
  {
    if d > 0 {
      ShiftLeftSuccessor(q, d - 1);
    }
  }

  /** A unit of the last kept place is at most one part in 2^34. */
  lemma {:induction false} ShiftLeftScaled(q: nat, d: nat)
    requires COEFFICIENT_MIN <= q
    ensures ShiftLeft(1, d) * COEFFICIENT_MIN <= ShiftLeft(q, d)
  {
    if d > 0 {
      ShiftLeftScaled(q, d - 1);
    }
  }

  /** Packing `n` shifted right by `d`, with exponent `e` such that `e + s == t + d`, gives `n * 2^t / 2^s` cut. */
  lemma PackedCut(n: nat, d: nat, e: nat, s: nat, t: nat)
    requires e <= EXPONENT_MAX && e + s == t + d
    requires COEFFICIENT_MIN <= ShiftRight(n, d) < COEFFICIENT_END
    ensures var b := CreateBigNumber(ShiftRight(n, d), e);
            Normal(b) && CutOf(ShiftLeft(Value(b), s), ShiftLeft(n, t))
  {
    var c := ShiftRight(n, d);
    ShiftRightCuts(n, d);
    ShiftCut(ShiftLeft(c, d), n, t);
    ShiftLeftTwice(c, e, s);
    ShiftLeftTwice(c, d, t);
  }

  /** Coefficients multiply and exponents add. */
  lemma {:induction false} ShiftProduct(m: nat, d: nat, n: nat, e: nat)
    ensures ShiftLeft(m, d) * ShiftLeft(n, e) == ShiftLeft(m * n, d + e)
  {
    if e == 0 {
      ShiftLeftOfProduct(m, n, d);
    } else {
      ShiftProduct(m, d, n, e - 1);
      MulDouble(ShiftLeft(m, d), ShiftLeft(n, e - 1));
    }
  }

  lemma MulDouble(x: nat, y: nat)
    ensures x * (2 * y) == 2 * (x * y)
  {
  }

  lemma ProductValue(b1: nat, b2: nat)
    ensures ShiftLeft(Coefficient(b1) * Coefficient(b2), Exponent(b1) + Exponent(b2)) == Value(b1) * Value(b2)
  {
    ShiftProduct(Coefficient(b1), Exponent(b1), Coefficient(b2), Exponent(b2));
  }

  lemma {:induction false} ShiftLeftOfProduct(a: nat, k: nat, d: nat)
    ensures ShiftLeft(a * k, d) == ShiftLeft(a, d) * k
  {
    if d > 0 {
      ShiftLeftOfProduct(a, k, d - 1);
      MulAssociate(2, ShiftLeft(a, d - 1), k);
    }
  }

  // ---------------------------------------------------------------- mulDivNormal

  /** Past an exponent gap of 128 the numerator is below the denominator. */
  lemma GapExceedsInput(normal: nat, c1: nat, c2: nat, net: nat)
    requires normal < TWO_128 && c1 < COEFFICIENT_END && COEFFICIENT_MIN <= c2 && 129 <= net
    ensures normal * c1 < ShiftLeft(c2, net)
  {
    MulAtMost(c1, COEFFICIENT_END, normal);
    ShiftLeftGrows(COEFFICIENT_MIN, 129, net);
    ShiftLeftOrder(COEFFICIENT_MIN, c2, net);
    ShiftLeftIsProduct(COEFFICIENT_MIN, 129);
    TwoToLiterals();
  }

  lemma {:induction false} ShiftLeftPositive(n: nat, d: nat)
    requires n > 0
    ensures ShiftLeft(n, d) > 0
  {
    if d > 0 {
      ShiftLeftPositive(n, d - 1);
    }
  }

  /** `mulDivNormal` is the exact floor of normal * b1 / b2, shortcut to 0 included; it throws exactly when the
      exponents are in the wrong order or the floor does not fit 64 bits. */
  lemma MulDivNormalExact(normal: nat, b1: nat, b2: nat)
    requires normal < TWO_128 && Normal(b1) && Normal(b2)
    ensures Value(b2) > 0
    ensures MulDivNormal(normal, b1, b2) ==
            if Exponent(b2) < Exponent(b1) then Err(ExponentOrder)
            else if normal * Value(b1) / Value(b2) > U64_MAX then Err(ResultOverflow)
            else Ok(normal * Value(b1) / Value(b2))
  {
    hide Coefficient, Exponent, ShiftLeft;
    NormalIsNonZero(b1);
    NormalIsNonZero(b2);
    var c1, c2, e1, e2 := Coefficient(b1), Coefficient(b2), Exponent(b1), Exponent(b2);
    ShiftLeftPositive(c2, e2);
    if e1 <= e2 {
      var net := e2 - e1;
      ShiftLeftPositive(c2, net);
      FloorOfShifted(normal, c1, ShiftLeft(c2, net), e1);
      ShiftLeftTwice(c2, net, e1);
      if net >= 129 {
        GapExceedsInput(normal, c1, c2, net);
        DivUnique(normal * c1, ShiftLeft(c2, net), 0);
      }
    }
  }

  lemma NormalIsNonZero(b: nat)
    requires Normal(b)
    ensures b > 0 && Value(b) > 0
  {
    ShiftLeftPositive(Coefficient(b), Exponent(b));
  }

  lemma FloorOfShifted(normal: nat, c: nat, d: nat, e: nat)
    requires d > 0
    ensures ShiftLeft(d, e) > 0
    ensures normal * ShiftLeft(c, e) / ShiftLeft(d, e) == normal * c / d
  {
    ShiftLeftPositive(d, e);
    ShiftLeftIsProduct(c, e);
    ShiftLeftIsProduct(d, e);
    MulAssociate(normal, c, TwoTo(e));
    DivCancel(normal * c, d, TwoTo(e));
  }

  /** In normal numbers the exponents are ordered like the values. */
  lemma ValueOrdersExponents(b1: nat, b2: nat)
    requires Normal(b1) && Normal(b2) && Value(b1) <= Value(b2)
    ensures Exponent(b1) <= Exponent(b2)
  {
    var e1, e2 := Exponent(b1), Exponent(b2);
    if e2 < e1 {
      ShiftLeftGrows(Coefficient(b1), e2 + 1, e1);
      ShiftLeftTwice(Coefficient(b1), 1, e2);
      ShiftLeftOrder(ShiftLeft(Coefficient(b1), 1), Coefficient(b2), e2);
    }
  }

  /** With b1 <= b2 in value, nothing throws on 64-bit input and the result never exceeds the input. */
  lemma MulDivNormalReduces(normal: nat, b1: nat, b2: nat)
    requires normal <= U64_MAX && Normal(b1) && Normal(b2) && Value(b1) <= Value(b2)
    ensures MulDivNormal(normal, b1, b2).Ok? && MulDivNormal(normal, b1, b2).value <= normal
  {
    MulDivNormalExact(normal, b1, b2);
    ValueOrdersExponents(b1, b2);
    QuotientReduces(normal, Value(b1), Value(b2));
  }

  lemma QuotientReduces(n: nat, v1: nat, v2: nat)
    requires v1 <= v2 && v2 > 0
    ensures n * v1 / v2 <= n
  {
    MulAtMost(v1, v2, n);
    DivMonotone(n * v1, n * v2, v2);
    DivUnique(n * v2, v2, n);
  }

  // ---------------------------------------------------------------- mulDivBigNumber

  /** Bit lengths are unique. */
  lemma LengthIs(n: nat, l: nat, k: nat)
    requires 0 < l && 0 < k && TwoTo(l - 1) <= n < TwoTo(l) && TwoTo(k - 1) <= n < TwoTo(k)
    ensures l == k
  {
    if k < l {
      TwoToMonotone(k, l - 1);
    } else if l < k {
      TwoToMonotone(l, k - 1);
    }
  }

  /** Taking 64 low bits away takes 64 off the bit length. */
  lemma LengthSplits(n: nat)
    requires n >= TWO_64
    ensures MostSignificantBit(n) == 64 + MostSignificantBit(n / TWO_64)
  {
    var high := n / TWO_64;
    var h := MostSignificantBit(high);
    TwoToLiterals();
    TwoToAdd(h, 64);
    TwoToAdd(h - 1, 64);
    assert high * TWO_64 <= n < (high + 1) * TWO_64;
    assert TwoTo(h + 63) <= n < TwoTo(h + 64);
    LengthIs(n, MostSignificantBit(n), h + 64);
  }

  /** The two-part bit search gives the true bit length of every product below 2^99. */
  lemma NumeratorLengthIsBitLength(n: nat)
    requires 0 < n < TwoTo(99)
    ensures NumeratorLength(n) == MostSignificantBit(n)
  {
    TwoToLiterals();
    if n >= TWO_98 {
      LengthIs(n, MostSignificantBit(n), 99);
    } else if n >= TWO_97 {
      LengthIs(n, MostSignificantBit(n), 98);
    } else if n >= TWO_64 {
      LengthSplits(n);
    } else {
      LengthBelow64(n);
    }
  }

  lemma LengthBelow64(n: nat)
    requires 0 < n < TWO_64
    ensures MostSignificantBit(n) <= 64 && MostSignificantBit(n / TWO_64) == 0
  {
    TwoToLiterals();
    if MostSignificantBit(n) > 64 {
      TwoToMonotone(64, MostSignificantBit(n) - 1);
    }
  }

  /** Shifting a number of bit length `l >= 35` right by `l - 35` leaves a full 35-bit coefficient. */
  lemma ShiftNormalises(n: nat, l: nat)
    requires 35 <= l && TwoTo(l - 1) <= n < TwoTo(l)
    ensures COEFFICIENT_MIN <= ShiftRight(n, l - 35) < COEFFICIENT_END
  {
    var q, d := ShiftRight(n, l - 35), l - 35;
    TwoToLiterals();
    TwoToAdd(34, d);
    TwoToAdd(35, d);
    ShiftLeftIsProduct(COEFFICIENT_MIN, d);
    ShiftLeftIsProduct(COEFFICIENT_END, d);
    ShiftLeftOrder(q + 1, COEFFICIENT_MIN, d);
    ShiftLeftOrder(COEFFICIENT_END, q, d);
  }

  lemma NumeratorRange(c: nat, number1: nat)
    requires COEFFICIENT_MIN <= c < COEFFICIENT_END && 1 <= number1 <= TWO_64
    ensures 0 < c * number1 < TwoTo(99)
    ensures 35 <= MostSignificantBit(c * number1) <= 99
  {
    TwoToLiterals();
    MulAtMost(1, number1, c);
    MulAtMost(number1, TWO_64, c);
    var n := c * number1;
    var l := MostSignificantBit(n);
    if l < 35 {
      TwoToMonotone(l, 34);
    } else if l > 99 {
      TwoToMonotone(99, l - 1);
    }
  }

  /** One liquidation step on a branch debt factor: it throws exactly when the exact product falls below the
      smallest normal number with exponent 1; otherwise the result is that product cut, normal, with an exponent
      that never grows. */
  lemma MulDivBigNumberStep(b: nat, number1: nat)
    requires Normal(b) && 1 <= Exponent(b) <= 16384 && 1 <= number1 <= TWO_64
    ensures var r := MulDivBigNumber(b, number1);
            && (r.Ok? <==> Value(b) * number1 >= TwoTo(99))
            && (r.Err? ==> r.error == ExponentUnderflow)
            && (r.Ok? ==> Normal(r.value) && 1 <= Exponent(r.value) <= Exponent(b))
            && (r.Ok? ==> CutOf(ShiftLeft(Value(r.value), 64), Value(b) * number1))
  {
    hide ShiftRight, NumeratorLength, MostSignificantBit;
    var c, e := Coefficient(b), Exponent(b);
    var n := c * number1;
    NumeratorRange(c, number1);
    NumeratorLengthIsBitLength(n);
    var l := NumeratorLength(n);
    ShiftNormalises(n, l);
    ShiftLeftOfProduct(c, number1, e);
    Magnitude(n, l, e);
    if e + (l - 35) > 64 {
      PackedCut(n, l - 35, e + (l - 35) - 64, 64, e);
    }
  }

  /** A number of bit length `l` shifted left by `e` has reached bit 100 exactly when `l + e` has. */
  lemma Magnitude(n: nat, l: nat, e: nat)
    requires 0 < l && TwoTo(l - 1) <= n < TwoTo(l)
    ensures ShiftLeft(n, e) >= TwoTo(99) <==> l + e >= 100
  {
    TwoToAdd(l, e);
    TwoToAdd(l - 1, e);
    ShiftLeftIsProduct(TwoTo(l - 1), e);
    ShiftLeftIsProduct(TwoTo(l), e);
    ShiftLeftOrder(TwoTo(l - 1), n, e);
    ShiftLeftOrder(TwoTo(l), n, e);
    if l + e >= 100 {
      TwoToMonotone(99, l - 1 + e);
    } else {
      TwoToMonotone(l + e, 99);
    }
  }

  /** The multiplier 0 is the one that breaks the format: it leaves an empty coefficient. */
  lemma ZeroMultiplierEmptiesCoefficient(b: nat)
    requires Normal(b) && 64 < Exponent(b) <= 16384
    ensures MulDivBigNumber(b, 0).Ok? && Coefficient(MulDivBigNumber(b, 0).value) == 0
  {
    assert Coefficient(b) * 0 == 0;
    assert MostSignificantBit(0) == 0;
  }

  // ---------------------------------------------------------------- runs of debt-factor updates

  /** `(X35 << 15) | (1 << 14)`, where every branch's debt factor starts. */
  const INITIAL_BRANCH_DEBT_FACTOR: nat := 0x3_ffff_ffff_c000

  function DebtFactorRun(b: nat, numbers: seq<nat>): Result<nat, BnError>
    decreases numbers
  {
    if numbers == [] then Ok(b)
    else
      var last := |numbers| - 1;
      var previous :- DebtFactorRun(b, numbers[..last]);
      MulDivBigNumber(previous, numbers[last])
  }

  /** The multipliers liquidation uses: `number1` starts at 2^64 and is only ever reduced, never to 0. */
  ghost predicate ReducingNumbers(numbers: seq<nat>) {
    forall k :: 0 <= k < |numbers| ==> 1 <= numbers[k] <= TWO_64
  }

  ghost function Fraction(number1: nat): real {
    number1 as real / 18446744073709551616.0
  }

  ghost function Fractions(numbers: seq<nat>): (fs: seq<real>)
    ensures |fs| == |numbers| && forall k :: 0 <= k < |fs| ==> fs[k] == Fraction(numbers[k])
  {
    seq(|numbers|, k requires 0 <= k < |numbers| => Fraction(numbers[k]))
  }

  lemma InitialFactorIsNormal()
    ensures Normal(INITIAL_BRANCH_DEBT_FACTOR) && Exponent(INITIAL_BRANCH_DEBT_FACTOR) == 16384
    ensures Coefficient(INITIAL_BRANCH_DEBT_FACTOR) == COEFFICIENT_END - 1
  {
  }

  /** One step of a run, in real terms. */
  lemma StepReal(v: nat, w: nat, number1: nat)
    requires CutOf(ShiftLeft(w, 64), v * number1)
    ensures Within(KEEP, v as real * Fraction(number1), w as real)
  {
    CutReal(ShiftLeft(w, 64), v * number1);
    ShiftLeftIsProduct(w, 64);
    TwoToLiterals();
    CastProduct(v, number1);
  }

  lemma StepShrinks(v: nat, w: nat, number1: nat)
    requires CutOf(ShiftLeft(w, 64), v * number1) && number1 <= TWO_64
    ensures w <= v
  {
    ShiftLeftIsProduct(w, 64);
    TwoToLiterals();
    MulAtMost(number1, TWO_64, v);
  }

  lemma UpdateOnce(b: nat, number1: nat) returns (next: nat)
    requires Normal(b) && 1 <= Exponent(b) <= 16384 && 1 <= number1 <= TWO_64
    requires MulDivBigNumber(b, number1).Ok?
    ensures MulDivBigNumber(b, number1) == Ok(next)
    ensures Normal(next) && 1 <= Exponent(next) <= Exponent(b)
    ensures Within(KEEP, Value(b) as real * Fraction(number1), Value(next) as real) && Value(next) <= Value(b)
  {
    hide MulDivBigNumber, Value, ShiftLeft, Coefficient, Exponent, CutOf, TwoTo;
    MulDivBigNumberStep(b, number1);
    next := MulDivBigNumber(b, number1).value;
    StepReal(Value(b), Value(next), number1);
    StepShrinks(Value(b), Value(next), number1);
  }

  /** Any run of updates that does not throw keeps a full coefficient and an exponent in 1..16384, never increases the
      value, and after n steps lies between (1 - 2^-34)^n times the exact product and the exact product. */
  lemma {:induction false} DebtFactorRunAccuracy(b: nat, numbers: seq<nat>)
    requires Normal(b) && 1 <= Exponent(b) <= 16384
    requires ReducingNumbers(numbers)
    requires DebtFactorRun(b, numbers).Ok?
    ensures var r := DebtFactorRun(b, numbers).value;
            && Normal(r) && 1 <= Exponent(r) <= Exponent(b) && Value(r) <= Value(b)
            && Within(Pow(KEEP, |numbers|), Exact(Value(b) as real, Fractions(numbers)), Value(r) as real)
    decreases numbers
  {
    hide MulDivBigNumber, Value, Normal, Exponent;
    if numbers == [] {
      WithinSelf(Value(b) as real);
    } else {
      var last := |numbers| - 1;
      DebtFactorRunAccuracy(b, numbers[..last]);
      var previous := DebtFactorRun(b, numbers[..last]).value;
      var r := UpdateOnce(previous, numbers[last]);
      assert Fractions(numbers[..last]) == Fractions(numbers)[..last];
      ExtendChain(KEEP, Value(b) as real, Fractions(numbers), Value(previous) as real, Value(r) as real);
    }
  }

  lemma WithinSelf(v: real)
    ensures Within(1.0, v, v)
  {
  }

  // ---------------------------------------------------------------- mulBigNumber

  /** A product of full coefficients, shifted by the length `mulBigNumber` picks, is a full coefficient again. */
  lemma ProductNormalises(c1: nat, c2: nat, len: nat)
    requires COEFFICIENT_MIN <= c1 < COEFFICIENT_END && COEFFICIENT_MIN <= c2 < COEFFICIENT_END
    requires len == if c1 * c2 > TWO_69 - 1 then 35 else 34
    ensures COEFFICIENT_MIN <= ShiftRight(c1 * c2, len) < COEFFICIENT_END
  {
    var n := c1 * c2;
    var q := ShiftRight(n, len);
    MulBoundsInt(COEFFICIENT_MIN, c1, COEFFICIENT_END - 1, COEFFICIENT_MIN, c2, COEFFICIENT_END - 1);
    TwoToLiterals();
    ShiftLeftIsProduct(COEFFICIENT_MIN, len);
    ShiftLeftIsProduct(COEFFICIENT_END, len);
    ShiftLeftOrder(q + 1, COEFFICIENT_MIN, len);
    ShiftLeftOrder(COEFFICIENT_END, q, len);
  }

  lemma MulBoundsInt(la: nat, a: nat, ua: nat, lb: nat, b: nat, ub: nat)
    requires la <= a <= ua && lb <= b <= ub
    ensures la * lb <= a * b <= ua * ub
  {
    MulAtMost(la, a, lb);
    MulAtMost(lb, b, a);
    MulAtMost(a, ua, b);
    MulAtMost(b, ub, ua);
  }

  /** The exponent a product gets before `DECIMALS` is taken off. */
  function ProductExponent(b1: nat, b2: nat): nat {
    Exponent(b1) + Exponent(b2) + (if Coefficient(b1) * Coefficient(b2) > TWO_69 - 1 then 35 else 34)
  }

  /** `mulBigNumber` throws, saturates or returns the exact product over 2^16384 cut to a normal number. */
  lemma MulBigNumberStep(b1: nat, b2: nat)
    requires Normal(b1) && Normal(b2)
    ensures var r := MulBigNumber(b1, b2);
            var e := ProductExponent(b1, b2);
            && (e < DECIMALS ==> r == Err(ExponentUnderflow))
            && (e > DECIMALS + EXPONENT_MAX ==> r == Ok(MAX_MASK))
            && (DECIMALS <= e <= DECIMALS + EXPONENT_MAX ==>
                  && r.Ok? && Normal(r.value) && Exponent(r.value) == e - DECIMALS
                  && CutOf(ShiftLeft(Value(r.value), DECIMALS), Value(b1) * Value(b2)))
  {
    var product := Coefficient(b1) * Coefficient(b2);
    var len := if product > TWO_69 - 1 then 35 else 34;
    ProductNormalises(Coefficient(b1), Coefficient(b2), len);
    var e := ProductExponent(b1, b2);
    if DECIMALS <= e <= DECIMALS + EXPONENT_MAX {
      PackedCut(product, len, e - DECIMALS, DECIMALS, Exponent(b1) + Exponent(b2));
      ProductValue(b1, b2);
    }
  }

  // ---------------------------------------------------------------- divBigNumber

  lemma {:induction false} UnshiftCut(x: nat, y: nat, d: nat)
    requires CutOf(ShiftLeft(x, d), ShiftLeft(y, d))
    ensures CutOf(x, y)
  {
    if d > 0 {
      UnshiftCut(x, y, d - 1);
    }
  }

  /** The bit length of the shifted quotient: 65 when the first coefficient is not the smaller one, else 64. */
  lemma QuotientLength(c1: nat, c2: nat)
    requires COEFFICIENT_MIN <= c1 < COEFFICIENT_END && COEFFICIENT_MIN <= c2 < COEFFICIENT_END
    ensures var l := if FloorDiv(c1 * TWO_64, c2) / TWO_64 == 1 then 65 else 64;
            && TwoTo(l - 1) <= FloorDiv(c1 * TWO_64, c2) < TwoTo(l)
            && TwoTo(l - 1) * c2 <= c1 * TWO_64 < TwoTo(l) * c2
  {
    TwoToLiterals();
    assert TwoTo(64) == 2 * TwoTo(63) && TwoTo(65) == 2 * TwoTo(64);
    var q := FloorDiv(c1 * TWO_64, c2);
    if c1 >= c2 {
      QuotientRange(c1 * TWO_64, c2, q, TWO_64, 2 * TWO_64);
    } else {
      QuotientRange(c1 * TWO_64, c2, q, TWO_64 / 2, TWO_64);
    }
  }

  lemma QuotientRange(n: nat, d: nat, q: nat, lo: nat, hi: nat)
    requires d > 0 && lo * d <= n < hi * d && q * d <= n < (q + 1) * d
    ensures lo <= q < hi
  {
    MulCancelLess(lo, q + 1, d);
    MulCancelLess(q, hi, d);
  }

  /** Flooring the quotient and dropping its low bits is one cut of the exact quotient. */
  lemma QuotientCut(c1: nat, c2: nat, len: nat)
    requires c2 > 0
    requires COEFFICIENT_MIN <= ShiftRight(FloorDiv(c1 * TWO_64, c2), len)
    ensures CutOf(ShiftLeft(ShiftRight(FloorDiv(c1 * TWO_64, c2), len), len) * c2, c1 * TWO_64)
  {
    var q := FloorDiv(c1 * TWO_64, c2);
    var c := ShiftRight(q, len);
    var low, unit := ShiftLeft(c, len), ShiftLeft(1, len);
    ShiftLeftSuccessor(c, len);
    ShiftLeftScaled(c, len);
    MulAtMost(low, q, c2);
    MulAtMost(q + 1, low + unit, c2);
    MulAtMost(unit * COEFFICIENT_MIN, low, c2);
    UnitCut(low, unit, c2, c1 * TWO_64);
  }

  lemma UnitCut(low: nat, unit: nat, d: nat, n: nat)
    requires low * d <= n < (low + unit) * d && unit * COEFFICIENT_MIN * d <= low * d
    ensures CutOf(low * d, n)
  {
    var l, u := low * d, unit * d;
    assert (low + unit) * d == l + u && unit * COEFFICIENT_MIN * d == u * COEFFICIENT_MIN;
  }

  /** `divBigNumber` on debt factors throws exactly when the exact quotient is below the smallest normal number with
      exponent 1; otherwise it returns a normal number, and its product with the divisor is the dividend cut. */
  lemma DivBigNumberStep(a: nat, b: nat)
    requires Normal(a) && Normal(b) && 1 <= Exponent(a) <= 16384 && 1 <= Exponent(b) <= 16384
    ensures var r := DivBigNumber(a, b);
            && (r.Ok? <==> ShiftLeft(Value(a), DECIMALS) >= ShiftLeft(Value(b), 35))
            && (r.Err? ==> r.error == ExponentUnderflow)
            && (r.Ok? ==> Normal(r.value) && Exponent(a) + 16384 - 35 <= Exponent(r.value) + Exponent(b) <= Exponent(a) + 16384 - 34)
            && (r.Ok? ==> CutOf(Value(r.value) * Value(b), ShiftLeft(Value(a), DECIMALS)))
  {
    hide ShiftRight, ShiftLeft, TwoTo;
    var c1, c2, e1, e2 := Coefficient(a), Coefficient(b), Exponent(a), Exponent(b);
    NormalIsNonZero(a);
    NormalIsNonZero(b);
    QuotientLength(c1, c2);
    var q := FloorDiv(c1 * TWO_64, c2);
    var l := if q / TWO_64 == 1 then 65 else 64;
    ShiftNormalises(q, l);
    QuotientMagnitude(c1, c2, e1, e2, l);
    if e1 + DECIMALS + (l - 35) > e2 + PRECISION {
      var e := e1 + DECIMALS + (l - 35) - (e2 + PRECISION);
      var c := ShiftRight(q, l - 35);
      QuotientCut(c1, c2, l - 35);
      QuotientValue(c, c1, c2, l - 35, e, e1, e2);
    }
  }

  lemma QuotientMagnitude(c1: nat, c2: nat, e1: nat, e2: nat, l: nat)
    requires c2 > 0 && l > 0 && TwoTo(l - 1) * c2 <= c1 * TWO_64 < TwoTo(l) * c2
    ensures ShiftLeft(ShiftLeft(c1, e1), DECIMALS) >= ShiftLeft(ShiftLeft(c2, e2), 35) <==> e1 + DECIMALS + l >= e2 + 100
  {
    hide ShiftLeft, TwoTo;
    ShiftLeftTwice(c1, e1, DECIMALS);
    ShiftLeftTwice(c2, e2, 35);
    ShiftLeftIs64(c1);
    ShiftLeftIsProduct(c2, l);
    ShiftLeftIsProduct(c2, l - 1);
    ShiftedOrder(c1, c2, l, e1 + DECIMALS, e2 + 35);
  }

  lemma ShiftedOrder(c1: nat, c2: nat, l: nat, e: nat, k: nat)
    requires l > 0 && ShiftLeft(c2, l - 1) <= ShiftLeft(c1, 64) < ShiftLeft(c2, l)
    ensures ShiftLeft(c1, e) >= ShiftLeft(c2, k) <==> e + l >= k + 65
  {
    var x := ShiftLeft(c1, 64);
    ShiftLeftOrder(ShiftLeft(c2, l - 1), x, e);
    ShiftLeftOrder(ShiftLeft(c2, l), x, e);
    ShiftLeftTwice(c2, l - 1, e);
    ShiftLeftTwice(c2, l, e);
    ShiftLeftTwice(c1, 64, e);
    ShiftLeftTwice(c1, e, 64);
    ShiftLeftTwice(c2, k, 64);
    ShiftLeftOrder(ShiftLeft(c2, k), ShiftLeft(c1, e), 64);
    if e + l >= k + 65 {
      ShiftLeftGrows(c2, k + 64, l - 1 + e);
    } else {
      ShiftLeftGrows(c2, l + e, k + 64);
    }
  }

  lemma QuotientValue(c: nat, c1: nat, c2: nat, len: nat, e: nat, e1: nat, e2: nat)
    requires e + e2 + 64 == e1 + DECIMALS + len
    requires CutOf(ShiftLeft(c, len) * c2, c1 * TWO_64)
    ensures CutOf(ShiftLeft(c, e) * ShiftLeft(c2, e2), ShiftLeft(ShiftLeft(c1, e1), DECIMALS))
  {
    hide ShiftLeft;
    ShiftLeftIs64(c1);
    ShiftLeftOfProduct(c, c2, len);
    RebaseCut(c * c2, c1, len, 64, e1 + DECIMALS);
    ShiftProduct(c, e, c2, e2);
    ShiftLeftTwice(c1, e1, DECIMALS);
  }

  lemma ShiftLeftIs64(n: nat)
    ensures ShiftLeft(n, 64) == n * TWO_64
  {
    ShiftLeftIsProduct(n, 64);
    TwoToLiterals();
  }

  /** A cut between shifted numbers survives shifting both by `s` and back by 64. */
  lemma RebaseCut(m: nat, n: nat, len: nat, back: nat, s: nat)
    requires CutOf(ShiftLeft(m, len), ShiftLeft(n, back)) && back <= len + s
    ensures CutOf(ShiftLeft(m, len + s - back), ShiftLeft(n, s))
  {
    ShiftCut(ShiftLeft(m, len), ShiftLeft(n, back), s);
    ShiftLeftTwice(m, len, s);
    ShiftLeftTwice(n, back, s);
    ShiftLeftTwice(n, s, back);
    ShiftLeftTwice(m, len + s - back, back);
    UnshiftCut(ShiftLeft(m, len + s - back), ShiftLeft(n, s), back);
  }

  /** Dividing and multiplying back neither throws nor saturates, never ends above the start, and loses at most two
      cuts. */
  lemma DivideThenMultiply(a: nat, b: nat)
    requires Normal(a) && Normal(b) && 1 <= Exponent(a) <= 16384 && 1 <= Exponent(b) <= 16384
    requires DivBigNumber(a, b).Ok?
    ensures var r := MulBigNumber(DivBigNumber(a, b).value, b);
            && r.Ok? && Normal(r.value) && Exponent(r.value) <= 16384 && r.value != MAX_MASK
            && Value(r.value) <= Value(a)
            && Value(a) * ((COEFFICIENT_MIN - 1) * (COEFFICIENT_MIN - 1)) <= Value(r.value) * (COEFFICIENT_MIN * COEFFICIENT_MIN)
  {
    DivBigNumberStep(a, b);
    var q := DivBigNumber(a, b).value;
    MulBigNumberStep(q, b);
    var r := MulBigNumber(q, b).value;
    TwoCuts(Value(r), Value(q) * Value(b), Value(a));
    if Exponent(r) > 16384 {
      ValueOrdersExponents(r, a);
    }
  }

  lemma TwoCuts(r: nat, m: nat, a: nat)
    requires CutOf(ShiftLeft(r, DECIMALS), m) && CutOf(m, ShiftLeft(a, DECIMALS))
    ensures r <= a
    ensures a * ((COEFFICIENT_MIN - 1) * (COEFFICIENT_MIN - 1)) <= r * (COEFFICIENT_MIN * COEFFICIENT_MIN)
  {
    ShiftLeftOrder(r, a, DECIMALS);
    var k, l := (COEFFICIENT_MIN - 1) * (COEFFICIENT_MIN - 1), COEFFICIENT_MIN * COEFFICIENT_MIN;
    ShiftLeftOfProduct(a, k, DECIMALS);
    ShiftLeftOfProduct(r, l, DECIMALS);
    ShiftLeftOrder(a * k, r * l, DECIMALS);
  }
}
