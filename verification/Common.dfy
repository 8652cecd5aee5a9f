/** Shared vocabulary: a result type for the source's thrown errors, powers, and the few facts
    about division and multiplication that every component leans on. */
module Common {

  /** A thrown error is modelled as `Err`; anything the source returns is `Ok`. */
  datatype Result<+T, +E> = Ok(value: T) | Err(error: E) {
    predicate IsFailure() {
      Err?
    }

    function PropagateFailure<U>(): Result<U, E>
      requires Err?
    {
      Err(error)
    }

    function Extract(): T
      requires Ok?
    {
      value
    }
  }

  datatype Option<+T> = None | Some(value: T)

  const U64_MAX: nat := 0xffff_ffff_ffff_ffff
  const U128_MAX: nat := 0xffff_ffff_ffff_ffff_ffff_ffff_ffff_ffff
  const TWO_64: nat := 0x1_0000_0000_0000_0000
  const TWO_128: nat := 0x1_0000_0000_0000_0000_0000_0000_0000_0000

  const SECONDS_PER_YEAR: nat := 31_536_000

  /** 100% in basis points. */
  const FOUR_DECIMALS: nat := 10_000

  /** Exchange prices carry twelve decimals. */
  const PRICES_PRECISION: nat := 1_000_000_000_000

  function Min(a: int, b: int): int {
    if a < b then a else b
  }

  function Max(a: int, b: int): int {
    if a < b then b else a
  }

  /** Division rounded up, as `divCeil` in the SDK computes it: bump the quotient when a remainder is left. */
  function DivCeil(a: nat, d: nat): (q: nat)
    requires d > 0
    ensures a <= q * d < a + d
  {
    if a % d == 0 then a / d else a / d + 1
  }

  function FloorDiv(a: nat, d: nat): (q: nat)
    requires d > 0
    ensures q * d <= a < (q + 1) * d
  {
    FloorBounds(a, d);
    a / d
  }

  /** BN's division, which drops the fraction on either side of zero. */
  function TruncDiv(a: int, d: nat): int
    requires d > 0
  {
    if a >= 0 then a / d else -(-a / d)
  }

  function TwoTo(n: nat): (p: nat)
    ensures p > 0
  {
    if n == 0 then 1 else 2 * TwoTo(n - 1)
  }

  lemma {:induction false} TwoToAdd(m: nat, n: nat)
    ensures TwoTo(m + n) == TwoTo(m) * TwoTo(n)
  {
    if m > 0 {
      TwoToAdd(m - 1, n);
    }
  }

  lemma {:induction false} TwoToMonotone(m: nat, n: nat)
    requires m <= n
    ensures TwoTo(m) <= TwoTo(n)
  {
    if m < n {
      TwoToMonotone(m, n - 1);
    }
  }

  /** The powers that occur as literals in the source. */
  lemma TwoToLiterals()
    ensures TwoTo(29) == 0x2000_0000 && TwoTo(30) == 0x4000_0000
    ensures TwoTo(34) == 0x4_0000_0000 && TwoTo(35) == 0x8_0000_0000
    ensures TwoTo(64) == 0x1_0000_0000_0000_0000
    ensures TwoTo(99) == 0x8_0000_0000_0000_0000_0000_0000
    ensures TwoTo(129) == 0x2_0000_0000_0000_0000_0000_0000_0000_0000
  {
    assert TwoTo(10) == 0x400;
    TwoToAdd(10, 10);
    TwoToAdd(20, 9);
    TwoToAdd(20, 10);
    TwoToAdd(30, 4);
    TwoToAdd(30, 5);
    TwoToAdd(34, 30);
    TwoToAdd(64, 35);
    TwoToAdd(99, 30);
  }

  function Pow(x: real, n: nat): real {
    if n == 0 then 1.0 else x * Pow(x, n - 1)
  }

  lemma {:induction false} PowAdd(x: real, m: nat, n: nat)
    ensures Pow(x, m + n) == Pow(x, m) * Pow(x, n)
  {
    if m > 0 {
      PowAdd(x, m - 1, n);
      assert Pow(x, m + n) == x * Pow(x, m + n - 1);
    }
  }

  lemma {:induction false} PowPositive(x: real, n: nat)
    requires x > 0.0
    ensures Pow(x, n) > 0.0
  {
    if n > 0 {
      PowPositive(x, n - 1);
    }
  }

  /** `v` times all the factors, with no rounding. */
  ghost function Exact(v: real, factors: seq<real>): real {
    if factors == [] then v
    else
      var n := |factors| - 1;
      Exact(v, factors[..n]) * factors[n]
  }

  lemma CastProduct(a: int, b: int)
    ensures (a * b) as real == a as real * b as real
  {
  }

  lemma MulMonotone(a: real, b: real, c: real)
    requires a <= b && 0.0 <= c
    ensures a * c <= b * c
  {
  }

  lemma MulShrinks(a: real, x: real)
    requires 0.0 < a <= 1.0 && 0.0 < x
    ensures 0.0 < a * x <= x
  {
    MulMonotone(a, 1.0, x);
  }

  lemma CancelLeft(a: real, b: real, w: real)
    requires 0.0 < w && a * w <= b * w
    ensures a <= b
  {
  }

  /** Two non-negative intervals multiply end to end. */
  lemma MulBounds(la: real, a: real, ua: real, lb: real, b: real, ub: real)
    requires 0.0 <= la <= a <= ua && 0.0 <= lb <= b <= ub
    ensures la * lb <= a * b <= ua * ub
  {
    MulMonotone(la, a, lb);
    MulMonotone(lb, b, a);
    MulMonotone(a, ua, b);
    MulMonotone(b, ub, ua);
  }

  /** A floor division lies within one divisor below the exact value. */
  lemma FloorReal(a: nat, d: nat)
    requires d > 0
    ensures ((a / d) as real) * d as real <= a as real < ((a / d) as real + 1.0) * d as real
  {
    var q := a / d;
    assert q * d <= a < (q + 1) * d;
    CastProduct(q, d);
    CastProduct(q + 1, d);
  }

  lemma MulAtMost(a: int, b: int, c: nat)
    requires a <= b
    ensures a * c <= b * c
  {
  }

  lemma MulCancelLess(x: int, y: int, d: int)
    requires d > 0 && x * d < y * d
    ensures x < y
  {
  }

  lemma FloorBounds(a: nat, d: nat)
    requires d > 0
    ensures 0 <= a / d && a / d * d <= a < a / d * d + d
  {
  }

  lemma MulAssociate(a: int, b: int, c: int)
    ensures a * (b * c) == a * b * c
  {
  }

  lemma DivUnique(a: int, d: int, q: int)
    requires d > 0
    requires q * d <= a < (q + 1) * d
    ensures a / d == q
  {
    var p := a / d;
    assert p * d <= a < (p + 1) * d;
    MulCancelLess(q, p + 1, d);
    MulCancelLess(p, q + 1, d);
  }

  /** A common factor of numerator and denominator does not change the floor. */
  lemma DivCancel(a: nat, d: nat, x: nat)
    requires d > 0 && x > 0
    ensures d * x > 0 && (a * x) / (d * x) == a / d
  {
    var q := a / d;
    assert q * d <= a < (q + 1) * d;
    assert (q * d) * x <= a * x < ((q + 1) * d) * x;
    assert (q * d) * x == q * (d * x) && ((q + 1) * d) * x == (q + 1) * (d * x);
    DivUnique(a * x, d * x, q);
  }

  lemma DivMonotone(a: nat, b: nat, d: nat)
    requires a <= b && d > 0
    ensures a / d <= b / d
  {
    var p, q := FloorDiv(a, d), FloorDiv(b, d);
    MulCancelLess(p, q + 1, d);
  }

  lemma DivAntitone(a: nat, d: nat, d': nat)
    requires 0 < d <= d'
    ensures a / d' <= a / d
  {
    var p, q := FloorDiv(a, d'), FloorDiv(a, d);
    MulAtMost(d, d', p);
    MulCancelLess(p, q + 1, d);
  }

  /** Splitting a sum before dividing loses at most one. */
  lemma DivSplits(a: nat, b: nat, d: nat)
    requires d > 0
    ensures a / d + b / d <= (a + b) / d <= a / d + b / d + 1
  {
    var p, q, r := FloorDiv(a, d), FloorDiv(b, d), FloorDiv(a + b, d);
    assert (p + q) * d == p * d + q * d;
    MulCancelLess(p + q, r + 1, d);
    MulCancelLess(r, p + q + 2, d);
  }
}
