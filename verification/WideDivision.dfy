/** Long division of four-word numbers, and multiplication followed by division: `U256Muldiv::div`, `div_loop` and
    `safe_multiply_divide` of `crates/library/src/math/u256.rs`. */
module WideDivision {
  import opened Common
  import opened WideWords
  import BigNumber

  /** `IndexOutOfRange` and a division by zero inside `div` are panics. */
  datatype WideError = DivisionByZero | NumberDownCast | MathError | IndexOutOfRange

  // ---------------------------------------------------------------- one digit of the quotient

  function Times(a: nat, b: nat): nat {
    a * b
  }

  /** `wrapping_mul`. */
  function WrapMul(a: nat, b: nat): Double {
    Times(a, b) % B2
  }

  function HiLo(h: Word, l: Word): (r: Double)
    ensures r == h * B + l
  {
    WordPair(h, l);
    h * B + l
  }

  function Lo(x: Double): Word {
    x % B
  }

  /** The largest word whose product with the divisor's top two words stays within the dividend's top three. */
  ghost function Estimate(top: nat, low: Word, d1: Word, d0: Word): Word
    requires d1 > 0
  {
    Min(B - 1, FloorDiv(top * B + low, d1 * B + d0))
  }

  /** The loop's state: a guess not below the estimate, what it leaves of the top words, and the two sides of the test. */
  ghost predicate Trying(q: nat, rhat: nat, cmp1: nat, cmp2: nat, top: Double, low: Word, d1: Word, d0: Word) {
    && d1 > 0 && top < d1 * B + B && Times(q, d1) + rhat == top && Estimate(top, low, d1, d0) <= q <= B + 1
    && cmp1 == rhat * B + low && cmp2 == Times(q, d0)
  }

  /** Guesses from the top words and corrects the guess down to the estimate. */
  method QuotientDigit(head: Word, next: Word, low: Word, d1: Word, d0: Word) returns (qhat: Word)
    requires 2 * d1 >= B && head <= d1
    ensures qhat == Estimate(head * B + next, low, d1, d0)
  {
    hide Trying, Estimate, Times, WrapMul, FloorDiv, Lo;
    var top: Double := HiLo(head, next);
    FirstGuess(head, next, low, d1, d0);
    var q: nat := FloorDiv(top, d1);
    var rhat: Word := top - Times(d1, q);
    var cmp1: Double, cmp2: Double := HiLo(rhat, low), WrapMul(q, d0);
    while q >= B || cmp2 > cmp1
      invariant Trying(q, rhat, cmp1, cmp2, top, low, d1, d0)
      decreases q
    {
      Retry(q, rhat, cmp1, cmp2, top, low, d1, d0);
      q := q - 1;
      if rhat + d1 >= B {
        return q;
      }
      rhat := rhat + d1;
      cmp1, cmp2 := HiLo(rhat, Lo(cmp1)), cmp2 - d0;
    }
    Accept(q, rhat, cmp1, cmp2, top, low, d1, d0);
    return q;
  }

  /** One correction, after which the early exit is right or the loop goes on. */
  lemma Retry(q: nat, rhat: Word, cmp1: Double, cmp2: Double, top: Double, low: Word, d1: Word, d0: Word)
    requires Trying(q, rhat, cmp1, cmp2, top, low, d1, d0) && (q >= B || cmp2 > cmp1)
    ensures q > 0 && cmp2 >= d0
    ensures rhat + d1 >= B ==> q - 1 == Estimate(top, low, d1, d0)
    ensures rhat + d1 < B ==>
              Trying(q - 1, rhat + d1, HiLo(rhat + d1, Lo(cmp1)), cmp2 - d0, top, low, d1, d0)
  {
    hide Estimate, Times, Lo;
    Compare(top, low, d1, d0, q, rhat);
    OneLess(q, d1);
    OneLess(q, d0);
    LoOfPair(rhat, low);
    if rhat + d1 >= B {
      BelowWord(q - 1, rhat + d1, top, d1);
      PastWord(q - 1, d0, rhat + d1, low);
      Corrected(top, low, d1, d0, q - 1, rhat + d1);
    }
  }

  lemma Accept(q: nat, rhat: Word, cmp1: Double, cmp2: Double, top: Double, low: Word, d1: Word, d0: Word)
    requires Trying(q, rhat, cmp1, cmp2, top, low, d1, d0) && q < B && cmp2 <= cmp1
    ensures q == Estimate(top, low, d1, d0)
  {
    hide Estimate, Times;
    Corrected(top, low, d1, d0, q, rhat);
  }

  lemma LoOfPair(h: Word, l: Word)
    ensures Lo(HiLo(h, l)) == l
  {
    WordPair(h, l);
  }

  lemma OneLess(q: nat, d: Word)
    requires q > 0
    ensures Times(q, d) == Times(q - 1, d) + d
  {
  }

  /** What is left of the top words is past a word only under a guess that is not. */
  lemma BelowWord(q: nat, rhat: nat, top: Double, d1: Word)
    requires d1 > 0 && rhat >= B && Times(q, d1) + rhat == top && top < d1 * B + B
    ensures q < B
  {
    MulCancelLess(q, B, d1);
  }

  lemma PastWord(q: nat, d0: Word, rhat: nat, low: Word)
    requires q <= B && rhat >= B
    ensures Times(q, d0) <= rhat * B + low
  {
    MulAtMost(q, B, d0);
  }

  lemma FirstGuess(head: Word, next: Word, low: Word, d1: Word, d0: Word)
    requires 2 * d1 >= B && head <= d1
    ensures var top := HiLo(head, next);
            var q := FloorDiv(top, d1);
            && 0 <= top - Times(d1, q) < d1
            && Trying(q, top - Times(d1, q), HiLo(top - Times(d1, q), low), WrapMul(q, d0), top, low, d1, d0)
  {
    hide Estimate, FloorDiv;
    var top := HiLo(head, next);
    var q := FloorDiv(top, d1);
    GuessHigh(top, low, d1, d0, q);
    GuessSmall(top, d1, q);
    SmallWrap(q, d0);
    assert q * d1 == d1 * q && (q + 1) * d1 == q * d1 + d1;
  }

  /** The guess is not below the estimate. */
  lemma GuessHigh(top: Double, low: Word, d1: Word, d0: Word, q: nat)
    requires d1 > 0 && top < (q + 1) * d1
    ensures Estimate(top, low, d1, d0) <= q
  {
    var digit := FloorDiv(top * B + low, d1 * B + d0);
    DigitBelow(top, low, d1, d0, digit);
    MulCancelLess(digit, q + 1, d1);
  }

  lemma GuessSmall(top: Double, d1: Word, q: nat)
    requires 2 * d1 >= B && top < d1 * B + B && q * d1 <= top
    ensures q <= B + 1
  {
    assert (B + 2) * d1 == B * d1 + 2 * d1;
    MulCancelLess(q, B + 2, d1);
  }

  /** The product of the guess and the low divisor word does not wrap. */
  lemma SmallWrap(q: nat, d0: Word)
    requires q <= B + 1
    ensures WrapMul(q, d0) == Times(q, d0)
  {
    MulAtMost(q, B + 1, d0);
  }

  lemma DigitBelow(top: nat, low: Word, d1: Word, d0: Word, digit: nat)
    requires digit * (d1 * B + d0) <= top * B + low
    ensures digit * d1 <= top
  {
    ProductOfDigit(digit, d1, d0);
    assert digit * d0 >= 0;
    MulCancelLess(digit * d1, top + 1, B);
  }

  /** A guess past a word, or whose product with the low divisor word exceeds what is left, is too large. */
  lemma Compare(top: Double, low: Word, d1: Word, d0: Word, q: nat, rhat: nat)
    requires d1 > 0 && Times(q, d1) + rhat == top
    requires q >= B || Times(q, d0) > rhat * B + low
    ensures q > Estimate(top, low, d1, d0)
  {
    if q < B {
      ProductOfDigit(q, d1, d0);
      MulCancelLess(FloorDiv(top * B + low, d1 * B + d0), q, d1 * B + d0);
    }
  }

  lemma ProductOfDigit(q: nat, d1: nat, d0: nat)
    ensures q * (d1 * B + d0) == q * d1 * B + q * d0
  {
  }

  /** Where the correction stops, by its test or by its early exit, the guess is the estimate. */
  lemma Corrected(top: Double, low: Word, d1: Word, d0: Word, q: nat, rhat: nat)
    requires d1 > 0 && Times(q, d1) + rhat == top && q < B
    requires Estimate(top, low, d1, d0) <= q && Times(q, d0) <= rhat * B + low
    ensures q == Estimate(top, low, d1, d0)
  {
    ProductOfDigit(q, d1, d0);
    MulCancelLess(q, FloorDiv(top * B + low, d1 * B + d0) + 1, d1 * B + d0);
  }

  // ---------------------------------------------------------------- taking a digit's multiple off

  /** `wrapping_sub` on 128 bits and on words. */
  function WrapSub(a: Double, b: Double): Double {
    if a >= b then a - b else a + B2 - b
  }

  function WrapSubWord(a: Word, b: Word): Word {
    if a >= b then a - b else a + B - b
  }

  /** One word of `u - qhat * d`, with the carry `k` from the word below and the one for the word above. */
  method SubtractWord(u: Word, d: Word, k: Word, qhat: Word) returns (t: Word, k': Word)
    ensures u + k' * B == t + Times(qhat, d) + k
  {
    WordTimes(qhat, d);
    hide Times;
    var p: Double := Times(qhat, d);
    SubtractWraps(u, k, p);
    var wide := WrapSub(WrapSub(u, k), p % B);
    t, k' := wide % B, WrapSubWord(p / B, wide / B);
  }

  lemma WordTimes(a: Word, b: Word)
    ensures Times(a, b) <= B2 - 2 * B + 1
  {
    WordProduct(a, b);
  }

  /** The carry is what the wrapped difference says it is. */
  lemma SubtractWraps(u: Word, k: Word, p: Double)
    requires p <= B2 - 2 * B + 1
    ensures var wide := WrapSub(WrapSub(u, k), p % B);
            u + WrapSubWord(p / B, wide / B) * B == wide % B + p + k
  {
    var lo := p % B;
    if u >= k + lo {
    } else if k + lo - u <= B {
      assert WrapSub(WrapSub(u, k), lo) == B2 + u - k - lo;
    } else {
      assert WrapSub(WrapSub(u, k), lo) == B2 + u - k - lo;
    }
  }

  function Power(i: nat): (p: nat)
    ensures p > 0
  {
    if i == 0 then 1 else B * Power(i - 1)
  }

  /** The `n` words from `off` up as a number. */
  function Low(e: seq<Word>, off: nat, n: nat): nat
    requires off + n <= |e|
  {
    if n == 0 then 0 else Low(e, off, n - 1) + Times(e[off + n - 1], Power(n - 1))
  }

  lemma {:induction false} LowAgrees(e: seq<Word>, f: seq<Word>, off: nat, n: nat)
    requires off + n <= |e| && off + n <= |f| && forall k :: off <= k < off + n ==> e[k] == f[k]
    ensures Low(e, off, n) == Low(f, off, n)
  {
    if n > 0 {
      LowAgrees(e, f, off, n - 1);
    }
  }

  lemma {:induction false} LowBelowPower(e: seq<Word>, off: nat, n: nat)
    requires off + n <= |e|
    ensures Low(e, off, n) < Power(n)
  {
    if n > 0 {
      LowBelowPower(e, off, n - 1);
      MulAtMost(e[off + n - 1], B - 1, Power(n - 1));
    }
  }

  /** Words counted from the lowest up. */
  lemma {:induction false} LowFromBelow(e: seq<Word>, off: nat, n: nat)
    requires off + n + 1 <= |e|
    ensures Low(e, off, n + 1) == e[off] + B * Low(e, off + 1, n)
  {
    if n == 0 {
      assert Low(e, off, 1) == Low(e, off, 0) + Times(e[off], Power(0));
      assert Power(0) == 1;
    } else {
      LowFromBelow(e, off, n - 1);
      var p := Power(n - 1);
      assert Times(e[off + n], B * p) == B * Times(e[off + n], p);
    }
  }

  /** One word of the subtraction, in place. */
  lemma SubtractStep(lu: nat, lt: nat, ld: nat, q: nat, k: nat, k': nat, u: nat, t: nat, d: nat, p: nat)
    requires lu + Times(k, p) == lt + Times(q, ld) && u + k' * B == t + Times(q, d) + k
    ensures lu + Times(u, p) + Times(k', B * p) == lt + Times(t, p) + Times(q, ld + Times(d, p))
  {
    calc {
      Times(u, p) + Times(k', B * p);
      == u * p + (k' * B) * p;
      == (u + k' * B) * p;
      == (t + Times(q, d) + k) * p;
      == Times(t, p) + Times(q, d) * p + Times(k, p);
    }
    assert Times(q, ld + Times(d, p)) == Times(q, ld) + Times(q, d) * p by {
      assert q * (ld + d * p) == q * ld + q * d * p;
    }
  }

  /** Takes `qhat` times the divisor off the words from `index` up; `k` is what the word above still owes. */
  method MultiplySubtract(dividend: U256, index: nat, n: nat, divisor: U256, qhat: Word)
    returns (r: U256, k: Word)
    requires index + n <= 4
    ensures Low(dividend, index, n) + Times(k, Power(n)) == Low(r, index, n) + Times(qhat, Low(divisor, 0, n))
    ensures forall j :: 0 <= j < 4 && !(index <= j < index + n) ==> r[j] == dividend[j]
  {
    hide Times, Low, Power;
    r, k := dividend, 0;
    NothingTaken(dividend, divisor, index, qhat);
    var i: nat := 0;
    while i < n
      invariant i <= n
      invariant Low(dividend, index, i) + Times(k, Power(i)) == Low(r, index, i) + Times(qhat, Low(divisor, 0, i))
      invariant forall j :: 0 <= j < 4 && !(index <= j < index + i) ==> r[j] == dividend[j]
    {
      var t, k' := SubtractWord(r[index + i], divisor[i], k, qhat);
      ghost var before := r;
      r := r[index + i := t];
      SubtractStep(Low(dividend, index, i), Low(before, index, i), Low(divisor, 0, i), qhat, k, k', dividend[index + i], t,
                   divisor[i], Power(i));
      LowNext(dividend, index, i);
      LowNext(r, index, i);
      LowNext(divisor, 0, i);
      LowAgrees(before, r, index, i);
      k := k';
      i := i + 1;
    }
  }

  lemma NothingTaken(u: U256, d: U256, index: nat, q: nat)
    requires index <= 4
    ensures Low(u, index, 0) + Times(0, Power(0)) == Low(u, index, 0) + Times(q, Low(d, 0, 0))
  {
  }

  lemma LowNext(e: seq<Word>, off: nat, i: nat)
    requires off + i + 1 <= |e|
    ensures Low(e, off, i + 1) == Low(e, off, i) + Times(e[off + i], Power(i)) && Power(i + 1) == B * Power(i)
  {
  }

  lemma AddStep(lu: nat, lt: nat, ld: nat, k: nat, k': nat, u: nat, t: nat, d: nat, p: nat)
    requires lu + ld == lt + Times(k, p) && u + d + k == t + k' * B
    ensures lu + Times(u, p) + (ld + Times(d, p)) == lt + Times(t, p) + Times(k', B * p)
  {
    assert u * p + d * p + k * p == (u + d + k) * p == (t + k' * B) * p == t * p + k' * (B * p);
  }

  /** Adds the divisor back to the words from `index` up; `k` carries into the word above. */
  method AddBack(dividend: U256, index: nat, n: nat, divisor: U256) returns (r: U256, k: Word)
    requires index + n <= 4
    ensures Low(dividend, index, n) + Low(divisor, 0, n) == Low(r, index, n) + Times(k, Power(n))
    ensures forall j :: 0 <= j < 4 && !(index <= j < index + n) ==> r[j] == dividend[j]
    ensures k <= 1
  {
    hide Times, Low, Power;
    r, k := dividend, 0;
    NothingAdded(dividend, divisor, index);
    var i: nat := 0;
    while i < n
      invariant i <= n && k <= 1
      invariant Low(dividend, index, i) + Low(divisor, 0, i) == Low(r, index, i) + Times(k, Power(i))
      invariant forall j :: 0 <= j < 4 && !(index <= j < index + i) ==> r[j] == dividend[j]
    {
      var t: Double := r[index + i] + divisor[i] + k;
      ghost var before := r;
      r := r[index + i := t % B];
      AddStep(Low(dividend, index, i), Low(before, index, i), Low(divisor, 0, i), k, t / B, dividend[index + i], t % B,
              divisor[i], Power(i));
      LowNext(dividend, index, i);
      LowNext(r, index, i);
      LowNext(divisor, 0, i);
      LowAgrees(before, r, index, i);
      k := t / B;
      i := i + 1;
    }
  }

  lemma NothingAdded(u: U256, d: U256, index: nat)
    requires index <= 4
    ensures Low(u, index, 0) + Low(d, 0, 0) == Low(u, index, 0) + Times(0, Power(0))
  {
  }

  // ---------------------------------------------------------------- one turn of the division

  /** The dividend's words below the extra one that normalising may need. */
  function Ext(dividend: U256, carry: Word): (e: seq<Word>)
    ensures |e| == 5
  {
    dividend + [carry]
  }

  ghost function EstimateAt(e: seq<Word>, index: nat, n: nat, divisor: U256): Word
    requires |e| == 5 && 2 <= n && index + n <= 4 && divisor[n - 1] > 0
  {
    Estimate(e[index + n] * B + e[index + n - 1], e[index + n - 2], divisor[n - 1], divisor[n - 2])
  }

  /** The estimate is past the digit, so that the divisor must be added back. */
  ghost predicate TooLarge(e: seq<Word>, index: nat, n: nat, divisor: U256)
    requires |e| == 5 && 2 <= n && index + n <= 4 && divisor[n - 1] > 0
  {
    Times(EstimateAt(e, index, n, divisor), Low(divisor, 0, n)) > Low(e, index, n + 1)
  }

  lemma {:induction false} TopThree(e: seq<Word>, index: nat, n: nat)
    requires |e| == 5 && 2 <= n && index + n <= 4
    ensures var x := (e[index + n] * B + e[index + n - 1]) * B + e[index + n - 2];
            && Low(e, index, n + 1) == Times(x, Power(n - 2)) + Low(e, index, n - 2)
            && Low(e, index, n - 2) < Power(n - 2)
  {
    var p := Power(n - 2);
    LowNext(e, index, n);
    LowNext(e, index, n - 1);
    LowNext(e, index, n - 2);
    LowBelowPower(e, index, n - 2);
    ThreeWords(e[index + n], e[index + n - 1], e[index + n - 2], p);
  }

  lemma ThreeWords(a: nat, b: nat, c: nat, p: nat)
    ensures Times((a * B + b) * B + c, p) == Times(a, B * (B * p)) + Times(b, B * p) + Times(c, p)
  {
  }

  lemma TopTwo(d: U256, n: nat)
    requires 2 <= n <= 4
    ensures Low(d, 0, n) == Times(d[n - 1] * B + d[n - 2], Power(n - 2)) + Low(d, 0, n - 2)
    ensures Low(d, 0, n - 2) < Power(n - 2)
  {
    var p := Power(n - 2);
    LowNext(d, 0, n - 1);
    LowNext(d, 0, n - 2);
    LowBelowPower(d, 0, n - 2);
    assert Times(d[n - 1] * B + d[n - 2], p) == Times(d[n - 1], B * p) + Times(d[n - 2], p);
  }

  /** The estimate is the digit or one more. */
  lemma EstimateNear(e: seq<Word>, index: nat, n: nat, divisor: U256)
    requires |e| == 5 && 2 <= n && index + n <= 4 && 2 * divisor[n - 1] >= B
    requires Low(e, index, n + 1) < B * Low(divisor, 0, n)
    ensures var q, u, d := EstimateAt(e, index, n, divisor), Low(e, index, n + 1), Low(divisor, 0, n);
            Times(q, d) < u + d && u < Times(q + 1, d)
  {
    hide Low, Power;
    var q, u, d := EstimateAt(e, index, n, divisor), Low(e, index, n + 1), Low(divisor, 0, n);
    var x := (e[index + n] * B + e[index + n - 1]) * B + e[index + n - 2];
    var d2 := divisor[n - 1] * B + divisor[n - 2];
    var f := FloorDiv(x, d2);
    TopThree(e, index, n);
    TopTwo(divisor, n);
    MulAtMost(q, f, d2);
    assert Times(q, d2) <= x;
    assert q < B - 1 ==> x < Times(q + 1, d2);
    hide Times, FloorDiv, Estimate;
    NearFromTop(q, x, d2, Power(n - 2), Low(e, index, n - 2), Low(divisor, 0, n - 2), u, d);
  }

  lemma NearFromTop(q: nat, x: nat, d2: nat, p: nat, l: nat, ld: nat, u: nat, d: nat)
    requires p > 0 && q < B && d2 >= B && l < p && ld < p && u == Times(x, p) + l && d == Times(d2, p) + ld
    requires Times(q, d2) <= x && (q < B - 1 ==> x < Times(q + 1, d2)) && u < B * d
    ensures Times(q, d) < u + d && u < Times(q + 1, d)
  {
    NotFarAbove(q, x, d2, p, ld, u, d);
    if q < B - 1 {
      NotBelow(q + 1, x, d2, p, l, ld, u, d);
    }
  }

  lemma NotFarAbove(q: nat, x: nat, d2: nat, p: nat, ld: nat, u: nat, d: nat)
    requires p > 0 && q < B && d2 >= B && ld < p && u >= Times(x, p) && d == Times(d2, p) + ld && Times(q, d2) <= x
    ensures Times(q, d) < u + d
  {
    SplitTimes(q, d2, p, ld);
    MulAtMost(q * d2, x, p);
    MulAtMost(ld, p, q);
    MulAtMost(q + 1, B, p);
    MulAtMost(B, d2, p);
    OneMore(q, p);
    assert ld * q == q * ld && p * q == q * p;
  }

  lemma NotBelow(q: nat, x: nat, d2: nat, p: nat, l: nat, ld: nat, u: nat, d: nat)
    requires p > 0 && l < p && u == Times(x, p) + l && d == Times(d2, p) + ld && x < Times(q, d2)
    ensures u < Times(q, d)
  {
    SplitTimes(q, d2, p, ld);
    MulAtMost(x + 1, q * d2, p);
    OneMore(x, p);
    assert q * ld >= 0;
  }

  lemma SplitTimes(q: nat, d2: nat, p: nat, ld: nat)
    ensures Times(q, Times(d2, p) + ld) == (q * d2) * p + q * ld
  {
    MulAssociate(q, d2, p);
  }

  /** The word above the divisor's is at most its top word. */
  lemma HeadSmall(e: seq<Word>, index: nat, n: nat, divisor: U256)
    requires |e| == 5 && 2 <= n && index + n <= 4 && Low(e, index, n + 1) < B * Low(divisor, 0, n)
    ensures e[index + n] <= divisor[n - 1]
  {
    hide Low, Power;
    var p, head, d1 := Power(n - 1), e[index + n], divisor[n - 1];
    LowNext(e, index, n);
    LowNext(e, index, n - 1);
    LowNext(divisor, 0, n - 1);
    LowBelowPower(divisor, 0, n - 1);
    assert head * (B * p) == (head * B) * p;
    assert B * (d1 * p + p) == ((d1 + 1) * B) * p;
    MulCancelLess(head * B, (d1 + 1) * B, p);
  }

  /** Without a borrow the estimate is the digit and the word above is used up. */
  lemma NoBorrow(u: nat, q: nat, d: nat, p: nat, lr: nat, head: nat, k: nat)
    requires p > 0 && d < p && u < Times(q + 1, d) && k <= head
    requires u - Times(head, p) + Times(k, p) == lr + Times(q, d)
    ensures head == k && u == Times(q, d) + lr && lr < d
  {
    OneMore(q, d);
    assert (head - k) * p == head * p - k * p;
    MulCancelLess(head - k, 1, p);
  }

  /** With one it is one too large, and adding the divisor back uses the word above up. */
  lemma Borrow(u: nat, q: nat, d: nat, p: nat, lr: nat, head: nat, k: nat, lr2: nat, k2: nat)
    requires p > 0 && 0 < d < p && lr < p && lr2 < p && Times(q, d) < u + d && k > head
    requires u - Times(head, p) + Times(k, p) == lr + Times(q, d)
    requires lr + d == lr2 + Times(k2, p)
    ensures q > 0 && Times(q, d) > u && k == head + k2 && u == Times(q - 1, d) + lr2 && lr2 < d
  {
    MulAtMost(head + 1, k, p);
    OneMore(head, p);
    assert Times(q, d) > u;
    MulCancelLess(0, q, d);
    OneMore(q - 1, d);
    var rest := u - (q - 1) * d;
    assert rest == lr2 + (k2 + head - k) * p by {
      assert (k2 + head - k) * p == k2 * p + head * p - k * p;
    }
    MulCancelLess(k2 + head - k, 1, p);
    MulCancelLess(-1, k2 + head - k, p);
  }

  lemma ExtLow(dividend: U256, carry: Word, index: nat, n: nat)
    requires index + n <= 4
    ensures Low(Ext(dividend, carry), index, n + 1)
         == Low(dividend, index, n) + Times(Ext(dividend, carry)[index + n], Power(n))
    ensures Low(dividend, index, n) < Power(n)
  {
    hide Low;
    LowNext(Ext(dividend, carry), index, n);
    LowAgrees(dividend, Ext(dividend, carry), index, n);
    LowBelowPower(dividend, index, n);
  }

  /** One turn: the next digit, and what is left in its place. The turn that starts from the extra word cannot add the
      divisor back: it reads past the words instead. */
  method DivLoop(index: nat, n: nat, dividend: U256, carry: Word, divisor: U256, quotient: U256)
    returns (ok: bool, dividend': U256, carry': Word, quotient': U256)
    requires 2 <= n && index + n <= 4 && 2 * divisor[n - 1] >= B
    requires Low(Ext(dividend, carry), index, n + 1) < B * Low(divisor, 0, n)
    ensures ok <==> index + n < 4 || !TooLarge(Ext(dividend, carry), index, n, divisor)
    ensures ok ==>
              var e, e', d := Ext(dividend, carry), Ext(dividend', carry'), Low(divisor, 0, n);
              && Low(e, index, n + 1) == Times(quotient'[index], d) + Low(e', index, n) && Low(e', index, n) < d
              && e'[index + n] == 0
              && (forall j :: 0 <= j < 5 && !(index <= j <= index + n) ==> e'[j] == e[j])
              && (forall j :: 0 <= j < 4 && j != index ==> quotient'[j] == quotient[j])
  {
    hide Times, Low, Power, Estimate;
    ghost var e, d, p := Ext(dividend, carry), Low(divisor, 0, n), Power(n);
    var useCarry := index + n == 4;
    var head := if useCarry then carry else dividend[index + n];
    HeadSmall(e, index, n, divisor);
    EstimateNear(e, index, n, divisor);
    ExtLow(dividend, carry, index, n);
    LowBelowPower(divisor, 0, n);
    var qhat := QuotientDigit(head, dividend[index + n - 1], dividend[index + n - 2], divisor[n - 1], divisor[n - 2]);
    var k;
    dividend', k := MultiplySubtract(dividend, index, n, divisor, qhat);
    ghost var taken := dividend';
    LowBelowPower(taken, index, n);
    carry' := carry;
    if useCarry {
      carry' := WrapSubWord(head, k);
    } else {
      dividend' := dividend'[index + n := WrapSubWord(head, k)];
    }
    LowAgrees(taken, dividend', index, n);
    if k > head {
      var k2;
      ghost var before := dividend';
      dividend', k2 := AddBack(dividend', index, n, divisor);
      LowBelowPower(dividend', index, n);
      Borrow(Low(e, index, n + 1), qhat, d, p, Low(taken, index, n), head, k, Low(dividend', index, n), k2);
      qhat := qhat - 1;
      if useCarry {
        return false, dividend', carry', quotient;
      }
      ghost var added := dividend';
      dividend' := dividend'[index + n := (dividend'[index + n] + k2) % B];
      LowAgrees(added, dividend', index, n);
    } else {
      NoBorrow(Low(e, index, n + 1), qhat, d, p, Low(taken, index, n), head, k);
    }
    LowAgrees(dividend', Ext(dividend', carry'), index, n);
    quotient' := quotient[index := qhat];
    ok := true;
  }

  // ---------------------------------------------------------------- the division of numbers in normal form

  /** The words from `j` up as a number, highest first. */
  function Top(e: seq<Word>, j: nat): nat
    requires j <= |e|
    decreases |e| - j
  {
    if j == |e| then 0 else Top(e, j + 1) * B + e[j]
  }

  lemma {:induction false} TopAgrees(e: seq<Word>, f: seq<Word>, j: nat)
    requires j <= |e| == |f| && forall k :: j <= k < |e| ==> e[k] == f[k]
    ensures Top(e, j) == Top(f, j)
    decreases |e| - j
  {
    if j < |e| {
      TopAgrees(e, f, j + 1);
    }
  }

  lemma {:induction false} TopOfZeros(e: seq<Word>, j: nat)
    requires j <= |e| && forall k :: j <= k < |e| ==> e[k] == 0
    ensures Top(e, j) == 0
    decreases |e| - j
  {
    if j < |e| {
      TopOfZeros(e, j + 1);
    }
  }

  /** The two ways to read words agree below words that are empty. */
  lemma {:induction false} TopIsLow(e: seq<Word>, j: nat, n: nat)
    requires j + n <= |e| && forall k :: j + n <= k < |e| ==> e[k] == 0
    ensures Top(e, j) == Low(e, j, n)
    decreases n
  {
    if n == 0 {
      TopOfZeros(e, j);
    } else {
      TopIsLow(e, j + 1, n - 1);
      LowFromBelow(e, j, n - 1);
    }
  }

  lemma TopIsValue(w: U256)
    ensures Top(w, 0) == Value(w)
  {
    assert Top(w, 3) == w[3];
    assert Top(w, 2) == w[3] * B + w[2];
    assert Top(w, 1) == (w[3] * B + w[2]) * B + w[1];
  }

  lemma TopIsExtValue(w: U256, c: Word)
    ensures Top(Ext(w, c), 0) == Value(w) + B4 * c
  {
    var e := Ext(w, c);
    assert Top(e, 4) == c;
    assert Top(e, 3) == c * B + w[3];
    assert Top(e, 2) == (c * B + w[3]) * B + w[2];
    assert Top(e, 1) == ((c * B + w[3]) * B + w[2]) * B + w[1];
  }

  lemma LowIsValue(w: U256, n: nat)
    requires n <= 4 && forall k :: n <= k < 4 ==> w[k] == 0
    ensures Low(w, 0, n) == Value(w)
  {
    TopIsLow(w, 0, n);
    TopIsValue(w);
  }

  /** Bringing one more word down keeps the division exact. */
  lemma LongStep(t: nat, tq: nat, left: nat, d: nat, w: nat, q: nat, left': nat)
    requires t == Times(tq, d) + left && left * B + w == Times(q, d) + left'
    ensures t * B + w == Times(tq * B + q, d) + left'
  {
    assert (tq * B + q) * d == tq * d * B + q * d;
  }

  lemma ZeroTimes(d: nat)
    ensures Times(0, d) == 0
  {
  }

  lemma TopNext(before: seq<Word>, e: seq<Word>, j: nat)
    requires j < |e| == |before| && forall k :: j < k < |e| ==> e[k] == before[k]
    ensures Top(e, j) == Top(before, j + 1) * B + e[j]
  {
    TopAgrees(e, before, j + 1);
  }

  /** The digits found so far divide the words brought down so far; what is left sits in the `n` words from `i` up, under
      empty ones. */
  ghost predicate Dividing(start: seq<Word>, e: seq<Word>, quotient: U256, d: nat, i: nat, n: nat) {
    && |start| == |e| == 5 && n <= 4 && i + n <= 5 && i <= 4 && Low(e, i, n) < d
    && Top(start, i) == Times(Top(quotient, i), d) + Low(e, i, n)
    && (forall k :: 0 <= k < i ==> e[k] == start[k])
    && (forall k :: i + n <= k < 5 ==> e[k] == 0)
  }

  /** Before the first turn nothing is divided. */
  lemma DividingStarts(e: seq<Word>, divisor: U256, m: nat, n: nat)
    requires |e| == 5 && 2 <= n <= m <= 4 && e[m] < divisor[n - 1]
    requires forall k :: m < k < 5 ==> e[k] == 0
    ensures Dividing(e, e, [0, 0, 0, 0], Low(divisor, 0, n), m - n + 1, n)
  {
    hide Low, Power, Times, Top;
    var i, p := m - n + 1, Power(n - 1);
    ZeroTimes(Low(divisor, 0, n));
    TopOfZeros([0, 0, 0, 0], i);
    TopIsLow(e, i, n);
    LowNext(e, i, n - 1);
    LowNext(divisor, 0, n - 1);
    LowBelowPower(e, i, n - 1);
    SmallerTop(e[m], divisor[n - 1], p);
  }

  lemma SmallerTop(a: nat, b: nat, p: nat)
    requires a < b
    ensures Times(a, p) + p <= Times(b, p)
  {
    MulAtMost(a + 1, b, p);
    OneMore(a, p);
  }

  /** What the next turn starts from. */
  lemma BroughtDown(start: seq<Word>, e: seq<Word>, quotient: U256, d: nat, i: nat, n: nat)
    requires i > 0 && Dividing(start, e, quotient, d, i, n)
    ensures Low(e, i - 1, n + 1) == Low(e, i, n) * B + e[i - 1] && Low(e, i - 1, n + 1) < B * d
  {
    hide Low, Top;
    LowFromBelow(e, i - 1, n);
  }

  lemma DividingStep(start: seq<Word>, e: seq<Word>, quotient: U256, d: nat, i: nat, n: nat, e': seq<Word>, quotient': U256)
    requires i > 0 && n > 0 && Dividing(start, e, quotient, d, i, n) && |e'| == 5
    requires Low(e, i - 1, n + 1) == Times(quotient'[i - 1], d) + Low(e', i - 1, n) && Low(e', i - 1, n) < d
    requires e'[i - 1 + n] == 0
    requires forall j :: 0 <= j < 5 && !(i - 1 <= j <= i - 1 + n) ==> e'[j] == e[j]
    requires forall j :: 0 <= j < 4 && j != i - 1 ==> quotient'[j] == quotient[j]
    ensures Dividing(start, e', quotient', d, i - 1, n)
  {
    BroughtDown(start, e, quotient, d, i, n);
    hide Low, Times;
    LongStep(Top(start, i), Top(quotient, i), Low(e, i, n), d, e[i - 1], quotient'[i - 1], Low(e', i - 1, n));
    TopNext(quotient, quotient', i - 1);
    TopNext(start, start, i - 1);
  }

  lemma DividingMeans(start: seq<Word>, e: seq<Word>, quotient: U256, d: nat, n: nat)
    requires Dividing(start, e, quotient, d, 0, n)
    ensures Top(start, 0) == Times(Top(quotient, 0), d) + Low(e, 0, n) && Low(e, 0, n) < d
    ensures forall k :: n <= k < 5 ==> e[k] == 0
  {
  }

  /** The first turn of four words starts from the extra word; only there can it fail. */
  ghost predicate FirstTurnFails(start: U256, carry: Word, m: nat, divisor: U256, n: nat)
    requires 2 <= n <= m <= 4 && divisor[n - 1] > 0
  {
    m == 4 && TooLarge(Ext(start, carry), 4 - n, n, divisor)
  }

  /** The quotient of `m` words, and what normalising pushed above them, by `n` normalised ones. */
  method DivNormalised(start: U256, startCarry: Word, m: nat, divisor: U256, n: nat)
    returns (ok: bool, quotient: U256, left: U256)
    requires 2 <= n <= m <= 4 && 2 * divisor[n - 1] >= B && Ext(start, startCarry)[m] < divisor[n - 1]
    requires forall k :: m < k < 5 ==> Ext(start, startCarry)[k] == 0
    requires forall k :: n <= k < 4 ==> divisor[k] == 0
    ensures ok <==> !FirstTurnFails(start, startCarry, m, divisor, n)
    ensures ok ==> Value(start) + B4 * startCarry == Times(Value(quotient), Value(divisor)) + Value(left)
    ensures ok ==> Value(left) < Value(divisor)
  {
    hide Times, Low, Top, Power, Value, TooLarge;
    ghost var d, e0 := Low(divisor, 0, n), Ext(start, startCarry);
    var carry: Word, dividend, i: nat := startCarry, start, m - n + 1;
    quotient, left := [0, 0, 0, 0], start;
    DividingStarts(e0, divisor, m, n);
    while i > 0
      invariant i <= m - n + 1 && Dividing(e0, Ext(dividend, carry), quotient, d, i, n)
      invariant i == m - n + 1 ==> dividend == start && carry == startCarry
      invariant i < m - n + 1 ==> !FirstTurnFails(start, startCarry, m, divisor, n)
      decreases i
    {
      ghost var e, q := Ext(dividend, carry), quotient;
      BroughtDown(e0, e, quotient, d, i, n);
      hide Dividing;
      ok, dividend, carry, quotient := DivLoop(i - 1, n, dividend, carry, divisor, quotient);
      if !ok {
        return;
      }
      DividingStep(e0, e, q, d, i, n, Ext(dividend, carry), quotient);
      i := i - 1;
    }
    DividingMeans(e0, Ext(dividend, carry), quotient, d, n);
    left := dividend;
    ok := true;
    TopIsExtValue(start, startCarry);
    TopIsValue(quotient);
    LowIsValue(divisor, n);
    assert forall k :: n <= k < 4 ==> Ext(dividend, carry)[k] == dividend[k];
    LowAgrees(left, Ext(dividend, carry), 0, n);
    LowIsValue(left, n);
  }

  // ---------------------------------------------------------------- normalising

  function LeadingZeros(x: Word): nat
    requires x > 0
  {
    WordLength(x);
    64 - BigNumber.MostSignificantBit(x)
  }

  lemma WordLength(x: Word)
    requires x > 0
    ensures 1 <= BigNumber.MostSignificantBit(x) <= 64
  {
    hide TwoTo, BigNumber.MostSignificantBit;
    var m := BigNumber.MostSignificantBit(x);
    TwoToLiterals();
    if m > 64 {
      TwoToMonotone(64, m - 1);
    }
  }

  /** Shifting by its leading zeros puts a word's highest bit at the top and pushes nothing out. */
  lemma Normalised(x: Word)
    requires x > 0
    ensures var s := LeadingZeros(x);
            s < 64 && 2 * (x * TwoTo(s)) >= B && x * TwoTo(s) < B && (s > 0 ==> Pushed(x, s) == 0 && Kept(x, s) == x * TwoTo(s))
  {
    hide TwoTo, BigNumber.MostSignificantBit, Pushed, Kept;
    WordLength(x);
    var s := LeadingZeros(x);
    PowersOfWord(s);
    HalfPower(s);
    NormalisedBounds(x, TwoTo(s), TwoTo(64 - s), TwoTo(63 - s));
    if s > 0 {
      ShiftParts(x, s);
    }
  }

  lemma HalfPower(s: nat)
    requires s < 64
    ensures TwoTo(64 - s) == 2 * TwoTo(63 - s)
  {
  }

  lemma NormalisedBounds(x: nat, p: nat, c: nat, h: nat)
    requires p > 0 && p * c == B && c == 2 * h && h <= x < c
    ensures 2 * (x * p) >= B && x * p < B
  {
    MulAtMost(h, x, p);
    MulAtMost(x + 1, c, p);
    assert (x + 1) * p == x * p + p;
    assert 2 * (h * p) == p * c;
  }

  /** A word with at least `s` leading zeros pushes nothing out on a shift by `s`, and no word pushes a high bit. */
  lemma PushedOut(x: Word, s: nat)
    requires 0 < s < 64
    ensures 2 * Pushed(x, s) < B
    ensures x == 0 || LeadingZeros(x) >= s ==> Pushed(x, s) == 0
  {
    hide TwoTo, BigNumber.MostSignificantBit, Pushed, Kept;
    ShiftParts(x, s);
    TwoToLiterals();
    TwoToMonotone(s, 63);
    assert TwoTo(63) * 2 == B by {
      TwoToDouble(63);
    }
    if x == 0 {
    } else if LeadingZeros(x) >= s {
      WordLength(x);
      TwoToMonotone(BigNumber.MostSignificantBit(x), 64 - s);
      PowersOfWord(s);
      SmallShift(x, TwoTo(s), TwoTo(64 - s), Kept(x, s), Pushed(x, s));
    }
  }

  lemma TwoToDouble(n: nat)
    ensures TwoTo(n + 1) == 2 * TwoTo(n)
  {
  }

  lemma SmallShift(x: nat, p: nat, c: nat, kept: nat, pushed: nat)
    requires p > 0 && p * c == B && x < c && kept + B * pushed == x * p
    ensures pushed == 0
  {
    MulAtMost(x + 1, c, p);
    assert (x + 1) * p == x * p + p;
  }

  /** Without their low zero words, how many words a number has. */
  function WordCount(w: U256): (n: nat)
    ensures n <= 4 && (forall k :: n <= k < 4 ==> w[k] == 0) && (n > 0 ==> w[n - 1] != 0)
  {
    if w[3] != 0 then 4 else if w[2] != 0 then 3 else if w[1] != 0 then 2 else if w[0] != 0 then 1 else 0
  }

  method NumWords(w: U256) returns (n: nat)
    ensures n == WordCount(w)
  {
    n := 4;
    while n > 0
      invariant n <= 4 && forall k :: n <= k < 4 ==> w[k] == 0
    {
      if w[n - 1] != 0 {
        return n;
      }
      n := n - 1;
    }
  }

  lemma ShiftedZero(s: nat)
    requires 0 < s < 64
    ensures Kept(0, s) == 0 && Pushed(0, s) == 0
  {
    hide Kept, Pushed, TwoTo;
    ShiftParts(0, s);
  }

  /** What a shift pushes out of four words. */
  function Carried(w: U256, s: nat): Word
    requires s < 64
  {
    if s == 0 then 0 else Pushed(w[3], s)
  }

  /** Shifted by the leading zeros of its top word, a divisor keeps its words and fills them. */
  lemma NormalDivisor(divisor: U256, n: nat, s: nat)
    requires 0 < n <= 4 && divisor[n - 1] != 0 && s == LeadingZeros(divisor[n - 1])
    requires forall k :: n <= k < 4 ==> divisor[k] == 0
    ensures s < 64
    ensures var normal := ShiftedBits(divisor, s);
            && 2 * normal[n - 1] >= B && (forall k :: n <= k < 4 ==> normal[k] == 0)
            && Value(normal) == Value(divisor) * TwoTo(s)
  {
    hide Kept, Pushed, TwoTo, LeadingZeros, Value;
    Normalised(divisor[n - 1]);
    NotShifted(divisor[n - 1]);
    NotShifted(Value(divisor));
    if s > 0 {
      ShiftedZero(s);
      ShiftedBitsValue(divisor, s);
    }
  }

  /** A dividend shifted as far has at most one word more, which is small. */
  lemma NormalDividend(w: U256, m: nat, s: nat)
    requires 0 < m <= 4 && s < 64 && forall k :: m <= k < 4 ==> w[k] == 0
    ensures var e := Ext(ShiftedBits(w, s), Carried(w, s));
            2 * e[m] < B && (forall k :: m < k < 5 ==> e[k] == 0)
    ensures Value(ShiftedBits(w, s)) + B4 * Carried(w, s) == Value(w) * TwoTo(s)
  {
    hide Kept, Pushed, TwoTo, Value;
    NotShifted(Value(w));
    if s > 0 {
      ShiftedZero(s);
      PushedOut(w[m - 1], s);
      ShiftedBitsValue(w, s);
    }
  }

  /** A dividend of four words and a divisor of three or four whose first digit is estimated too large: the program then
      reads past the words. */
  ghost predicate Panics(dividend: U256, divisor: U256) {
    var m, n := WordCount(dividend), WordCount(divisor);
    m == 4 && n >= 2
    && var s := LeadingZeros(divisor[n - 1]);
       NormalDivisor(divisor, n, s);
       TooLarge(Ext(ShiftedBits(dividend, s), Carried(dividend, s)), 4 - n, n, ShiftedBits(divisor, s))
  }

  /** Two words are estimated exactly. */
  lemma TwoWordsExact(e: seq<Word>, index: nat, divisor: U256)
    requires |e| == 5 && index <= 2 && divisor[1] > 0
    ensures !TooLarge(e, index, 2, divisor)
  {
    var x := (e[index + 2] * B + e[index + 1]) * B + e[index];
    var d := divisor[1] * B + divisor[0];
    var f := FloorDiv(x, d);
    assert Power(0) == 1 && Power(1) == B && Power(2) == B * B;
    LowNext(e, index, 2);
    LowNext(e, index, 1);
    LowNext(e, index, 0);
    LowNext(divisor, 0, 1);
    LowNext(divisor, 0, 0);
    assert Low(e, index, 0) == 0 && Low(divisor, 0, 0) == 0;
    MulAtMost(EstimateAt(e, index, 2, divisor), f, d);
  }

  lemma NoPanicByDouble(dividend: U256, divisor: U256)
    requires divisor[2] == 0 && divisor[3] == 0
    ensures !Panics(dividend, divisor)
  {
    hide TooLarge, LeadingZeros, ShiftedBits;
    if WordCount(dividend) == 4 && WordCount(divisor) == 2 {
      var s := LeadingZeros(divisor[1]);
      NormalDivisor(divisor, 2, s);
      TwoWordsExact(Ext(ShiftedBits(dividend, s), Carried(dividend, s)), 2, ShiftedBits(divisor, s));
    }
  }

  // ---------------------------------------------------------------- division

  lemma WordDigit(k: Word, w: Word, d: Word)
    requires k < d
    ensures var x := HiLo(k, w);
            var q := FloorDiv(x, d);
            q < B && 0 <= x - Times(d, q) < d && k * B + w == Times(q, d) + (x - Times(d, q))
  {
    var x := HiLo(k, w);
    var q := FloorDiv(x, d);
    MulAtMost(k + 1, d, B);
    MulCancelLess(q, B, d);
    assert d * q == q * d && (q + 1) * d == q * d + d;
  }

  /** By a single word, digit by digit. */
  method DivByWord(dividend: U256, numWords: nat, d: Word) returns (quotient: U256, remainder: Word)
    requires d > 0 && numWords <= 4 && forall k :: numWords <= k < 4 ==> dividend[k] == 0
    ensures Value(dividend) == Times(Value(quotient), d) + remainder && remainder < d
  {
    hide Value, Top, Times, FloorDiv;
    quotient := [0, 0, 0, 0];
    var k: Word, j: nat := 0, numWords;
    TopOfZeros(dividend, j);
    TopOfZeros(quotient, j);
    ZeroTimes(d);
    while j > 0
      invariant j <= 4 && k < d
      invariant Top(dividend, j) == Times(Top(quotient, j), d) + k
    {
      j := j - 1;
      ghost var before := quotient;
      var d1: Double := HiLo(k, dividend[j]);
      WordDigit(k, dividend[j], d);
      var q: Word := FloorDiv(d1, d);
      var left: Word := d1 - Times(d, q);
      quotient := quotient[j := q];
      TopNext(dividend, dividend, j);
      TopNext(before, quotient, j);
      LongStep(Top(dividend, j + 1), Top(before, j + 1), k, d, dividend[j], q, left);
      k := left;
    }
    TopIsValue(dividend);
    TopIsValue(quotient);
    return quotient, k;
  }

  lemma Unscale(n: nat, q: nat, d: nat, p: nat, left: nat)
    requires p > 0 && n * p == Times(q, d * p) + left && left < d * p
    ensures n == Times(q, d) + left / p && left / p < d
  {
    assert q * (d * p) == (q * d) * p;
    var r := n - q * d;
    assert r * p == n * p - (q * d) * p;
    assert left == r * p;
    assert r >= 0 by {
      MulCancelLess(-1, r, p);
    }
    DivUnique(left, p, r);
    MulCancelLess(r, d, p);
  }

  /** Division by two words and more: normalise, divide, and shift the remainder back. */
  method DivLong(dividend: U256, m: nat, divisor: U256, n: nat) returns (ok: bool, quotient: U256, remainder: U256)
    requires m == WordCount(dividend) && n == WordCount(divisor) && 2 <= n <= m
    ensures ok <==> !Panics(dividend, divisor)
    ensures ok ==> Value(dividend) == Times(Value(quotient), Value(divisor)) + Value(remainder)
    ensures ok ==> Value(remainder) < Value(divisor)
  {
    hide Times, Value, Pushed, Kept, TwoTo, LeadingZeros, TooLarge, ShiftedBits;
    var s := LeadingZeros(divisor[n - 1]);
    var b := LeadingZeros(dividend[m - 1]);
    NormalDivisor(divisor, n, s);
    NormalDividend(dividend, m, s);
    var carry: Word := 0;
    if m == 4 && b < s {
      carry := Pushed(dividend[3], s);
    }
    CarryIs(dividend, m, s, carry);
    var shifted := ShiftLeft(dividend, s);
    var normal := ShiftLeft(divisor, s);
    var left;
    ok, quotient, left := DivNormalised(shifted, carry, m, normal, n);
    if !ok {
      return ok, quotient, left;
    }
    remainder := ShiftRight(left, s);
    Unscale(Value(dividend), Value(quotient), Value(divisor), TwoTo(s), Value(left));
  }

  /** The extra word is what the shift pushes out, whether the program asks for it or not. */
  lemma CarryIs(w: U256, m: nat, s: nat, carry: Word)
    requires 0 < m <= 4 && w[m - 1] != 0 && s < 64 && forall k :: m <= k < 4 ==> w[k] == 0
    requires m == 4 && LeadingZeros(w[m - 1]) < s ==> carry == Pushed(w[3], s)
    requires !(m == 4 && LeadingZeros(w[m - 1]) < s) ==> carry == 0
    ensures carry == Carried(w, s)
  {
    hide Pushed, LeadingZeros;
    if s > 0 {
      PushedOut(w[3], s);
    }
  }

  lemma ValueAsWords(w: U256)
    requires w[2] == 0 && w[3] == 0
    ensures Value(w) == w[1] * B + w[0]
  {
  }

  /** What `div` gives: nothing when it panics, else quotient and remainder, the latter if it is asked for. */
  method Div(dividend: U256, divisor: U256, returnRemainder: bool) returns (r: Result<(U256, U256), WideError>)
    ensures r.Err? <==> Value(divisor) == 0 || Panics(dividend, divisor)
    ensures r.Ok? ==> Value(r.value.0) == Value(dividend) / Value(divisor)
    ensures r.Ok? ==> Value(r.value.1) == if returnRemainder then Value(dividend) % Value(divisor) else 0
  {
    hide Panics, Times;
    var numDividendWords := NumWords(dividend);
    var numDivisorWords := NumWords(divisor);
    PanicsNeeds(dividend, divisor);
    if numDivisorWords == 0 {
      return Err(DivisionByZero);
    }
    var quotient, remainder := New(0, 0), New(0, 0);
    ZeroTimes(Value(divisor));
    if numDividendWords == 0 {
    } else if numDividendWords < numDivisorWords {
      FewerWords(dividend, divisor);
      remainder := dividend;
    } else if numDividendWords < 3 {
      ValueAsWords(dividend);
      ValueAsWords(divisor);
      var n: Double, d: Double := HiLo(dividend[1], dividend[0]), HiLo(divisor[1], divisor[0]);
      DoubleDivision(n, d);
      quotient, remainder := New(0, FloorDiv(n, d)), New(0, n - Times(d, FloorDiv(n, d)));
    } else if numDivisorWords == 1 {
      var left;
      quotient, left := DivByWord(dividend, numDividendWords, divisor[0]);
      remainder := New(0, left);
    } else {
      var ok;
      ok, quotient, remainder := DivLong(dividend, numDividendWords, divisor, numDivisorWords);
      if !ok {
        return Err(IndexOutOfRange);
      }
    }
    QuotientIs(Value(dividend), Value(quotient), Value(divisor), Value(remainder));
    return Ok((quotient, if returnRemainder then remainder else New(0, 0)));
  }

  lemma PanicsNeeds(dividend: U256, divisor: U256)
    ensures Panics(dividend, divisor) ==> WordCount(dividend) == 4 && WordCount(divisor) >= 2
  {
  }

  lemma FewerWords(dividend: U256, divisor: U256)
    requires WordCount(dividend) < WordCount(divisor)
    ensures Value(dividend) < Value(divisor)
  {
  }

  lemma QuotientIs(n: nat, q: nat, d: nat, left: nat)
    requires left < d && n == Times(q, d) + left
    ensures n / d == q && n % d == left
  {
    OneMore(q, d);
    DivUnique(n, d, q);
  }

  lemma DoubleDivision(n: Double, d: Double)
    requires d > 0
    ensures var q := FloorDiv(n, d);
            q < B2 && 0 <= n - Times(d, q) < d && n == Times(q, d) + (n - Times(d, q))
  {
    var q := FloorDiv(n, d);
    MulAtMost(1, d, q);
    assert d * q == q * d && (q + 1) * d == q * d + d;
  }

  /** Dividing 2^255 by 2^191 + 1 is such a case. */
  lemma PanicExample()
    ensures Panics([0, 0, 0, 0x8000_0000_0000_0000], [1, 0, 0x8000_0000_0000_0000, 0])
  {
    var dividend: U256, divisor: U256 := [0, 0, 0, 0x8000_0000_0000_0000], [1, 0, 0x8000_0000_0000_0000, 0];
    hide LeadingZeros, Low, EstimateAt, Times;
    TopBitLeads();
    var e := Ext(dividend, 0);
    assert ShiftedBits(dividend, 0) == dividend && ShiftedBits(divisor, 0) == divisor;
    ExampleEstimate(e, divisor);
    ExampleWords(e, divisor);
    OneTimes(Low(divisor, 0, 3));
  }

  lemma ExampleEstimate(e: seq<Word>, divisor: U256)
    requires e == [0, 0, 0, 0x8000_0000_0000_0000, 0] && divisor == [1, 0, 0x8000_0000_0000_0000, 0]
    ensures EstimateAt(e, 1, 3, divisor) == 1
  {
    DivUnique(0x8000_0000_0000_0000 * B, 0x8000_0000_0000_0000 * B, 1);
  }

  lemma OneTimes(d: nat)
    ensures Times(1, d) == d
  {
  }

  lemma ExampleWords(e: seq<Word>, divisor: U256)
    requires e == [0, 0, 0, 0x8000_0000_0000_0000, 0] && divisor == [1, 0, 0x8000_0000_0000_0000, 0]
    ensures Low(e, 1, 4) + 1 == Low(divisor, 0, 3)
  {
    LowNext(e, 1, 3);
    LowNext(e, 1, 2);
    LowNext(e, 1, 1);
    LowNext(e, 1, 0);
    LowNext(divisor, 0, 2);
    LowNext(divisor, 0, 1);
    LowNext(divisor, 0, 0);
    assert Low(e, 1, 0) == 0 && Low(divisor, 0, 0) == 0 && Power(0) == 1;
  }

  lemma TopBitLeads()
    ensures LeadingZeros(0x8000_0000_0000_0000) == 0
  {
    hide TwoTo, BigNumber.MostSignificantBit;
    var x: Word := 0x8000_0000_0000_0000;
    var m := BigNumber.MostSignificantBit(x);
    WordLength(x);
    TwoToLiterals();
    TwoToDouble(63);
    if m < 64 {
      TwoToMonotone(m, 63);
    }
  }

  // ---------------------------------------------------------------- multiply, then divide

  method TryIntoU128(w: U256) returns (r: Result<Double, WideError>)
    ensures r == if Value(w) < B2 then Ok(Value(w)) else Err(NumberDownCast)
  {
    var n := NumWords(w);
    if n > 2 {
      return Err(NumberDownCast);
    }
    return Ok(HiLo(w[1], w[0]));
  }

  /** `mul_shift_64`: the product without its lowest word. */
  method MulShift64(n0: Double, n1: Double) returns (r: Result<Double, WideError>)
    ensures r == if n0 * n1 / TWO_64 < B2 then Ok(n0 * n1 / TWO_64) else Err(NumberDownCast)
  {
    TwoToLiterals();
    var product := MulU256(n0, n1);
    var shifted := ShiftRight(product, 64);
    r := TryIntoU128(shifted);
  }

  /** `a * b / c` and what is left over, through 256 bits: exact whatever the operands, with an error exactly when the
      divisor is zero or the quotient does not fit. Nothing panics. */
  method SafeMultiplyDivideResult(a: Double, b: Double, c: Double) returns (r: Result<(nat, nat), WideError>)
    ensures r == if c == 0 then Err(DivisionByZero)
                 else if a * b / c >= B2 then Err(NumberDownCast)
                 else Ok((a * b / c, a * b % c))
  {
    hide Panics;
    if c == 0 {
      return Err(DivisionByZero);
    }
    var product := MulU256(a, b);
    NoPanicByDouble(product, New(0, c));
    var both := Div(product, New(0, c), true);
    var (quotient, remainder) := both.value;
    RemainderFits(a * b, c);
    var q := TryIntoU128(quotient);
    if q.Err? {
      return Err(q.error);
    }
    var left := TryIntoU128(remainder);
    return Ok((q.value, left.value));
  }

  lemma RemainderFits(n: nat, c: Double)
    requires c > 0
    ensures 0 <= n % c < B2
  {
  }

  method SafeMultiplyDivide(a: Double, b: Double, c: Double) returns (r: Result<nat, WideError>)
    ensures r == if c == 0 then Err(DivisionByZero)
                 else if a * b / c >= B2 then Err(NumberDownCast)
                 else Ok(a * b / c)
  {
    var both := SafeMultiplyDivideResult(a, b, c);
    return match both case Ok(v) => Ok(v.0) case Err(e) => Err(e);
  }

  /** The same rounded up, with an error as well when one more does not fit. */
  method SafeMultiplyDivideUp(a: Double, b: Double, c: Double) returns (r: Result<nat, WideError>)
    ensures r == if c == 0 then Err(DivisionByZero)
                 else if a * b / c >= B2 then Err(NumberDownCast)
                 else if DivCeil(a * b, c) >= B2 then Err(MathError)
                 else Ok(DivCeil(a * b, c))
  {
    var both := SafeMultiplyDivideResult(a, b, c);
    if both.Err? {
      return Err(both.error);
    }
    var (quotient, remainder) := both.value;
    if remainder == 0 {
      return Ok(quotient);
    }
    return if quotient + 1 >= B2 then Err(MathError) else Ok(quotient + 1);
  }
}
