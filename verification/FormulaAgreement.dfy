/** When the resolver and the program come to the same prices: `ts-sdk/liquidity/resolver/resolver.ts` at eighteen decimals
    against `programs/liquidity/src/state/token_reserve.rs` at seventeen. */
module FormulaAgreement {
  import opened Common
  import opened ExchangePrices
  import opened InterestConservation
  import opened ReserveAccrual
  import opened ChainConservation

  /** What the yield is made from: the stored utilization and the two ratios, each with its larger side. */
  datatype Ratios = Ratios(u: nat, supply: nat, supplyInverse: bool, borrow: nat, borrowInverse: bool)

  predicate Valid(x: Ratios) {
    x.u <= U16_MAX && x.supply <= FOUR_DECIMALS && x.borrow <= FOUR_DECIMALS && (x.supplyInverse ==> x.supply > 0)
  }

  function RatiosOf(r: TokenReserve): (x: Ratios) {
    Ratios(r.lastStoredUtilization, GetRatio(r.supplyInterest, r.supplyInterestFree), r.supplyInterest < r.supplyInterestFree,
           GetRatio(r.borrowInterest, r.borrowInterestFree), r.borrowInterest < r.borrowInterestFree)
  }

  // ---------------------------------------------------------------- the yield without rounding

  function LendersTop(x: Ratios): nat {
    FOUR_DECIMALS + x.supply
  }

  function LendersBottom(x: Ratios): nat {
    if x.supplyInverse then x.supply else FOUR_DECIMALS
  }

  function PayersTop(x: Ratios): nat {
    if x.borrowInverse then x.borrow else FOUR_DECIMALS
  }

  function PayersBottom(x: Ratios): nat {
    FOUR_DECIMALS + x.borrow
  }

  function YieldTop(x: Ratios): nat {
    x.u * LendersTop(x) * PayersTop(x)
  }

  function YieldBottom(x: Ratios): (d: nat)
    requires Valid(x)
    ensures d > 0
  {
    MulAtMost(1, LendersBottom(x), PayersBottom(x));
    LendersBottom(x) * PayersBottom(x)
  }

  // ---------------------------------------------------------------- both formulas at `e` units

  /** The two precisions over four decimals. */
  const RATE_PRECISION_4: nat := 100_000_000_000_000
  const CHAIN_PRECISION_4: nat := 10_000_000_000_000

  function LenderAt(e: nat, x: Ratios): nat
    requires Valid(x)
  {
    if x.supplyInverse then FloorDiv(x.u * (e + FloorDiv(e * FOUR_DECIMALS, x.supply)), FOUR_DECIMALS)
    else FloorDiv(x.u * e * (FOUR_DECIMALS + x.supply), BPS_SQUARED)
  }

  function PartAt(e: nat, x: Ratios): nat {
    var floor := FloorDiv(x.borrow * e, FOUR_DECIMALS + x.borrow);
    MulCancelLess(floor, e + 1, FOUR_DECIMALS + x.borrow);
    if x.borrowInverse then floor else e - floor
  }

  lemma ResolverAt(r: TokenReserve)
    requires Valid(RatiosOf(r))
    ensures var x := RatiosOf(r);
            RatioSupplyYield(GetExchangePricesAndConfig(r)) == YieldOf(LenderAt(RATE_PRECISION, x), PartAt(RATE_PRECISION, x))
  {
  }

  lemma ProgramAt(r: TokenReserve)
    requires Valid(RatiosOf(r))
    ensures var x := RatiosOf(r);
            ChainYield(r) == ChainYieldOf(LenderAt(CHAIN_PRECISION, x), PartAt(CHAIN_PRECISION, x))
  {
  }

  /** The lenders' part is rounded down, by less than eight units. */
  lemma LenderBracket(e4: nat, x: Ratios)
    requires Valid(x)
    ensures var l, d, exact := LenderAt(FOUR_DECIMALS * e4, x), LendersBottom(x), x.u * LendersTop(x) * e4;
            l * d <= exact <= l * d + 8 * d
  {
    var e := FOUR_DECIMALS * e4;
    var l := LenderAt(e, x);
    if x.supplyInverse {
      InverseBracket(x.u, e, x.supply, FloorDiv(e * FOUR_DECIMALS, x.supply), l);
      assert x.u * (e * (FOUR_DECIMALS + x.supply)) == FOUR_DECIMALS * (x.u * LendersTop(x) * e4);
      assert FOUR_DECIMALS * l * x.supply == FOUR_DECIMALS * (l * x.supply);
    } else {
      assert x.u * e * (FOUR_DECIMALS + x.supply) == FOUR_DECIMALS * (x.u * LendersTop(x) * e4);
    }
  }

  lemma InverseBracket(u: nat, e: nat, ratio: nat, f: nat, l: nat)
    requires u <= U16_MAX && f * ratio <= e * FOUR_DECIMALS < (f + 1) * ratio
    requires l * FOUR_DECIMALS <= u * (e + f) < (l + 1) * FOUR_DECIMALS
    ensures FOUR_DECIMALS * l * ratio <= u * (e * (FOUR_DECIMALS + ratio)) <= FOUR_DECIMALS * l * ratio + 8 * FOUR_DECIMALS * ratio
  {
    var top := u * (e + f);
    assert (f + 1) * ratio == f * ratio + ratio;
    assert top * ratio == u * ((e + f) * ratio);
    assert (e + f) * ratio == e * ratio + f * ratio && e * (FOUR_DECIMALS + ratio) == e * FOUR_DECIMALS + e * ratio;
    MulBoth((e + f) * ratio, e * (FOUR_DECIMALS + ratio), u);
    MulBoth(e * (FOUR_DECIMALS + ratio), (e + f) * ratio + ratio, u);
    assert u * ((e + f) * ratio + ratio) == top * ratio + u * ratio;
    MulAtMost(FOUR_DECIMALS * l, top, ratio);
    MulAtMost(top, FOUR_DECIMALS * l + FOUR_DECIMALS, ratio);
    MulAtMost(u, 7 * FOUR_DECIMALS, ratio);
  }

  /** The payers' part is rounded down when most borrowing is free of interest, and up otherwise. */
  lemma PartBracket(e: nat, x: Ratios)
    ensures var p, d, exact := PartAt(e, x), PayersBottom(x), PayersTop(x) * e;
            if x.borrowInverse then p * d <= exact < p * d + d else exact <= p * d < exact + d
  {
    var d, floor := PayersBottom(x), FloorDiv(x.borrow * e, FOUR_DECIMALS + x.borrow);
    assert (floor + 1) * d == floor * d + d;
    if !x.borrowInverse {
      assert PartAt(e, x) * d == e * d - floor * d;
      assert e * d == FOUR_DECIMALS * e + x.borrow * e;
    }
  }

  // ---------------------------------------------------------------- how near the yields come

  /** A yield from a lender's and a payer's part at `e` units, rounded down at the end and, on chain, once before. */
  ghost predicate Rounded(e: nat, l: nat, p: nat, y: nat) {
    y * (e * e) <= FOUR_DECIMALS * (l * p) < (y + 1) * (e * e) + FOUR_DECIMALS * e
  }

  lemma ResolverRounded(l: nat, p: nat)
    ensures Rounded(RATE_PRECISION, l, p, YieldOf(l, p))
  {
    var w := l * p;
    assert l * p * FOUR_DECIMALS == FOUR_DECIMALS * w;
  }

  lemma ProgramRounded(l: nat, p: nat)
    ensures Rounded(CHAIN_PRECISION, l, p, ChainYieldOf(l, p))
  {
    var w := l * p;
    var half := w / CHAIN_PRECISION;
    assert ChainYieldOf(l, p) == half * FOUR_DECIMALS / CHAIN_PRECISION;
  }

  /** Never above the exact yield: what the parts are rounded up by is too little to reach the next whole number. */
  lemma NeverAbove(e4: nat, n: nat, ld: nat, pn: nat, pd: nat, l: nat, p: nat, y: nat)
    requires FOUR_DECIMALS * e4 >= CHAIN_PRECISION && n * pd <= 26_214_000_000_000
    requires l * ld <= n * e4 && p * pd <= pn * (FOUR_DECIMALS * e4) + pd
    requires y * (FOUR_DECIMALS * e4 * (FOUR_DECIMALS * e4)) <= FOUR_DECIMALS * (l * p)
    ensures y * (ld * pd) <= n * pn
  {
    var e := FOUR_DECIMALS * e4;
    var left, right := (y * (ld * pd)) * e, (n * pn) * e + n * pd;
    ProductAtMost(l * ld, n * e4, p * pd, pn * e + pd);
    Unscaled(n, e4, pn, pd, e);
    ScaledUp(e, l, p, ld, pd, y);
    CancelFactor(left, right, e);
    LastUnit(y * (ld * pd), n * pn, n * pd, e);
  }

  lemma ScaledUp(e: nat, l: nat, p: nat, ld: nat, pd: nat, y: nat)
    requires y * (e * e) <= FOUR_DECIMALS * (l * p)
    ensures ((y * (ld * pd)) * e) * e <= FOUR_DECIMALS * ((l * ld) * (p * pd))
  {
    FourFactors(l, p, ld, pd);
    Regrouped(y, e, ld * pd);
    var d, w := ld * pd, l * p;
    MulAtMost(y * (e * e), FOUR_DECIMALS * w, d);
    assert FOUR_DECIMALS * w * d == FOUR_DECIMALS * (w * d);
  }

  lemma LastUnit(a: nat, b: nat, slack: nat, e: nat)
    requires slack < e && a * e <= b * e + slack
    ensures a <= b
  {
    assert (b + 1) * e == b * e + e;
    MulCancelLess(a, b + 1, e);
  }

  lemma FourFactors(l: nat, p: nat, ld: nat, pd: nat)
    ensures (l * p) * (ld * pd) == (l * ld) * (p * pd)
  {
    assert (l * p) * (ld * pd) == l * (p * (ld * pd)) == l * (ld * (p * pd));
  }

  lemma ProductAtMost(a: nat, b: nat, c: nat, d: nat)
    requires a <= b && c <= d
    ensures a * c <= b * d
  {
    MulAtMost(a, b, c);
    MulBoth(c, d, b);
  }

  lemma Unscaled(n: nat, e4: nat, pn: nat, pd: nat, e: nat)
    requires e == FOUR_DECIMALS * e4
    ensures FOUR_DECIMALS * ((n * e4) * (pn * e + pd)) == ((n * pn) * e + n * pd) * e
  {
    var w := pn * e + pd;
    assert FOUR_DECIMALS * ((n * e4) * w) == (n * w) * e;
    assert n * w == (n * pn) * e + n * pd;
  }

  lemma Regrouped(y: nat, e: nat, d: nat)
    ensures y * (e * e) * d == ((y * d) * e) * e
  {
    var w := y * d;
    assert y * (e * e) * d == w * (e * e);
  }

  /** The roundings of both parts in terms of the exact yield. */
  lemma SlackSmall(x: Ratios)
    requires Valid(x)
    ensures x.u * LendersTop(x) * PayersBottom(x) <= 26_214_000_000_000
    ensures LendersBottom(x) * PayersTop(x) <= 100_000_000 && LendersBottom(x) * PayersBottom(x) <= 200_000_000
  {
    ProductAtMost(x.u, U16_MAX, LendersTop(x), 20_000);
    ProductAtMost(x.u * LendersTop(x), U16_MAX * 20_000, PayersBottom(x), 20_000);
    ProductAtMost(LendersBottom(x), FOUR_DECIMALS, PayersTop(x), FOUR_DECIMALS);
    ProductAtMost(LendersBottom(x), FOUR_DECIMALS, PayersBottom(x), 20_000);
  }

  /** Never a whole unit below it either. */
  lemma NeverFarBelow(e4: nat, n: nat, ld: nat, pn: nat, pd: nat, l: nat, p: nat, y: nat)
    requires FOUR_DECIMALS * e4 >= CHAIN_PRECISION && n * pd <= 26_214_000_000_000
    requires ld * pn <= 100_000_000 && ld * pd <= 200_000_000
    requires n * e4 <= l * ld + 8 * ld && pn * (FOUR_DECIMALS * e4) <= p * pd + pd
    requires FOUR_DECIMALS * (l * p) < (y + 1) * (FOUR_DECIMALS * e4 * (FOUR_DECIMALS * e4)) + FOUR_DECIMALS * (FOUR_DECIMALS * e4)
    ensures n * pn <= (y + 1) * (ld * pd)
  {
    var e := FOUR_DECIMALS * e4;
    var slack := 80_000 * (ld * pn) + n * pd;
    var left, right := (n * pn) * e - slack, ((y + 1) * (ld * pd)) * e + FOUR_DECIMALS * (ld * pd);
    ProductAtLeast(n * e4, 8 * ld, l * ld, pn * e, pd, p * pd);
    UnscaledLess(n, e4, pn, pd, ld, e);
    ScaledDown(e, l, p, ld, pd, y);
    CancelFactor(left, right, e);
    LastUnit(n * pn, (y + 1) * (ld * pd), slack + FOUR_DECIMALS * (ld * pd), e);
  }

  lemma ScaledDown(e: nat, l: nat, p: nat, ld: nat, pd: nat, y: nat)
    requires FOUR_DECIMALS * (l * p) < (y + 1) * (e * e) + FOUR_DECIMALS * e
    ensures FOUR_DECIMALS * ((l * ld) * (p * pd)) <= (((y + 1) * (ld * pd)) * e + FOUR_DECIMALS * (ld * pd)) * e
  {
    FourFactors(l, p, ld, pd);
    Regrouped(y + 1, e, ld * pd);
    var d, w, next := ld * pd, l * p, (y + 1) * (e * e);
    MulAtMost(FOUR_DECIMALS * w, next + FOUR_DECIMALS * e, d);
    assert FOUR_DECIMALS * w * d == FOUR_DECIMALS * (w * d);
    assert (next + FOUR_DECIMALS * e) * d == next * d + FOUR_DECIMALS * d * e;
  }

  lemma ProductAtLeast(a: nat, b: nat, ab: nat, c: nat, d: nat, cd: nat)
    requires a <= ab + b && c <= cd + d
    ensures a * c - b * c - a * d <= ab * cd
  {
    if a >= b && c >= d {
      var m, k: nat := a - b, c - d;
      ProductAtMost(m, ab, k, cd);
      assert m * k == a * c - b * c - a * d + b * d;
    } else if a < b {
      MulAtMost(a, b, c);
    } else {
      MulBoth(c, d, a);
    }
  }

  lemma UnscaledLess(n: nat, e4: nat, pn: nat, pd: nat, ld: nat, e: nat)
    requires e == FOUR_DECIMALS * e4
    ensures FOUR_DECIMALS * ((n * e4) * (pn * e) - 8 * ld * (pn * e) - (n * e4) * pd)
         == ((n * pn) * e - (80_000 * (ld * pn) + n * pd)) * e
  {
    assert FOUR_DECIMALS * ((n * e4) * (pn * e)) == e * ((n * pn) * e) by {
      var w := pn * e;
      assert FOUR_DECIMALS * ((n * e4) * w) == e * (n * w);
      assert n * w == (n * pn) * e;
    }
    assert FOUR_DECIMALS * (8 * ld * (pn * e)) == e * (80_000 * (ld * pn)) by {
      var w := ld * pn;
      assert ld * (pn * e) == w * e;
    }
    assert FOUR_DECIMALS * ((n * e4) * pd) == e * (n * pd) by {
      var w := n * pd;
      assert (n * e4) * pd == w * e4;
    }
  }

  /** At either precision the yield is the exact one rounded down, or one less where that is a whole number. */
  ghost predicate Near(x: Ratios, y: nat)
    requires Valid(x)
  {
    y * YieldBottom(x) <= YieldTop(x) <= (y + 1) * YieldBottom(x)
  }

  lemma YieldNear(e4: nat, x: Ratios, y: nat)
    requires Valid(x) && FOUR_DECIMALS * e4 >= CHAIN_PRECISION
    requires Rounded(FOUR_DECIMALS * e4, LenderAt(FOUR_DECIMALS * e4, x), PartAt(FOUR_DECIMALS * e4, x), y)
    ensures Near(x, y)
  {
    var e := FOUR_DECIMALS * e4;
    var n, ld, pn, pd := x.u * LendersTop(x), LendersBottom(x), PayersTop(x), PayersBottom(x);
    LenderBracket(e4, x);
    PartBracket(e, x);
    SlackSmall(x);
    hide LenderAt, PartAt, LendersBottom, LendersTop, PayersBottom, PayersTop, Valid;
    NeverAbove(e4, n, ld, pn, pd, LenderAt(e, x), PartAt(e, x), y);
    NeverFarBelow(e4, n, ld, pn, pd, LenderAt(e, x), PartAt(e, x), y);
  }

  // ---------------------------------------------------------------- divisors of powers of ten

  function Power(base: nat, n: nat): nat {
    if n == 0 then 1 else base * Power(base, n - 1)
  }

  /** A number free of the prime 2 or 5 leaves that prime's power in a product to the other factor. */
  lemma {:induction false} OtherFactor(base: nat, q: nat, d: nat, n: nat, m: nat)
    requires (base == 2 || base == 5) && q % base != 0 && d > 0 && q * d == Power(base, n) * m
    ensures d >= Power(base, n)
  {
    if n > 0 {
      var rest := Power(base, n - 1) * m;
      MulAssociate(base, Power(base, n - 1), m);
      PrimeDivides(base, q, d, rest);
      var d' := d / base;
      FactorOut(base, q, d, d', rest);
      OtherFactor(base, q, d', n - 1, m);
    }
  }

  lemma FactorOut(base: nat, q: nat, d: nat, d': nat, rest: nat)
    requires (base == 2 || base == 5) && d == base * d' && q * d == base * rest
    ensures q * d' == rest
  {
    var x := q * d';
    assert q * (base * d') == base * x;
  }

  lemma PrimeDivides(base: nat, q: nat, d: nat, rest: nat)
    requires (base == 2 || base == 5) && q % base != 0 && q * d == base * rest
    ensures d % base == 0
  {
    var a, b, g, c := q / base, q % base, d / base, d % base;
    Expanded(base, a, b, d, g, c);
    var x := rest - (a * d + b * g);
    assert q == base * a + b;
    assert base * x == base * rest - base * (a * d + b * g);
    RestsMultiply(base, b, c, x);
  }

  lemma Expanded(base: nat, a: nat, b: nat, d: nat, g: nat, c: nat)
    requires d == base * g + c
    ensures (base * a + b) * d == base * (a * d + b * g) + b * c
  {
    assert (base * a) * d == base * (a * d);
    assert b * d == b * (base * g) + b * c;
    assert b * (base * g) == base * (b * g);
    assert base * (a * d + b * g) == base * (a * d) + base * (b * g);
  }

  lemma RestsMultiply(base: nat, b: nat, c: nat, x: int)
    requires (base == 2 || base == 5) && 0 < b < base && c < base && b * c == base * x
    ensures c == 0
  {
    assert b == 1 || b == 2 || b == 3 || b == 4;
  }

  lemma Eighteenth()
    ensures Power(2, 18) == 262_144 && Power(5, 18) == 3_814_697_265_625
  {
    assert Power(2, 6) == 64 && Power(5, 6) == 15_625;
    assert Power(2, 12) == 4_096 && Power(5, 12) == 244_140_625;
  }

  /** Divisors up to twenty thousand have no use for an eighteenth factor ten. */
  lemma TenMore(d: nat, k: nat)
    requires 0 < d <= 20_000 && k * RATE_PRECISION % d == 0
    ensures k * CHAIN_PRECISION % d == 0
  {
    hide Power;
    var q := FloorDiv(k * RATE_PRECISION, d);
    Quotient(k * RATE_PRECISION, d, q);
    Eighteenth();
    if q % 2 != 0 {
      OtherFactor(2, q, d, 18, k * 3_814_697_265_625);
    }
    if q % 5 != 0 {
      OtherFactor(5, q, d, 18, k * 262_144);
    }
    Tenth(q, d, k);
    MultipleHasNoRest(q / 10, d);
  }

  lemma Quotient(a: nat, d: nat, q: nat)
    requires d > 0 && a % d == 0 && q == a / d
    ensures q * d == a
  {
  }

  lemma Tenth(q: nat, d: nat, k: nat)
    requires q % 2 == 0 && q % 5 == 0 && q * d == k * RATE_PRECISION
    ensures q / 10 * d == k * CHAIN_PRECISION
  {
    var tenth := q / 10;
    assert q == 10 * tenth;
    assert 10 * tenth * d == 10 * (tenth * d);
  }

  lemma MultipleHasNoRest(k: nat, d: nat)
    requires d > 0
    ensures k * d % d == 0
  {
    DivUnique(k * d, d, k);
  }

  lemma TenLess(d: nat, k: nat)
    requires d > 0 && k * CHAIN_PRECISION % d == 0
    ensures k * RATE_PRECISION % d == 0
  {
    var q := k * CHAIN_PRECISION / d;
    assert 10 * q * d == k * RATE_PRECISION;
    MultipleHasNoRest(10 * q, d);
  }

  lemma SeventeenEnough(d: nat)
    requires 0 < d <= FOUR_DECIMALS
    requires CHAIN_PRECISION * FOUR_DECIMALS % d == 0 || RATE_PRECISION * FOUR_DECIMALS % d == 0
    ensures CHAIN_PRECISION % d == 0 && RATE_PRECISION % d == 0
  {
    if RATE_PRECISION * FOUR_DECIMALS % d == 0 {
      TenMore(d, FOUR_DECIMALS);
    }
    TenMore(d, 1_000);
    TenMore(d, 100);
    TenMore(d, 10);
    TenMore(d, 1);
    TenLess(d, 1);
  }

  // ---------------------------------------------------------------- where the exact yield is a whole number

  predicate Whole(x: Ratios)
    requires Valid(x)
  {
    YieldTop(x) % YieldBottom(x) == 0
  }

  /** The rounded parts multiply to the exact yield or more. */
  predicate Reaches(e: nat, x: Ratios)
    requires Valid(x)
  {
    YieldTop(x) * (e * e) <= FOUR_DECIMALS * (LenderAt(e, x) * PartAt(e, x)) * YieldBottom(x)
  }

  predicate LenderExact(e4: nat, x: Ratios)
    requires Valid(x)
  {
    LenderAt(FOUR_DECIMALS * e4, x) * LendersBottom(x) == x.u * LendersTop(x) * e4
  }

  predicate PartExact(e: nat, x: Ratios) {
    PartAt(e, x) * PayersBottom(x) == PayersTop(x) * e
  }

  lemma WholeReaches(e: nat, x: Ratios, v: nat, product: nat)
    requires Valid(x) && YieldTop(x) == v * YieldBottom(x) && product == LenderAt(e, x) * PartAt(e, x)
    ensures Reaches(e, x) <==> v * (e * e) <= FOUR_DECIMALS * product
  {
    hide LenderAt, PartAt, YieldTop, YieldBottom;
    var d, want, have := YieldBottom(x), v * (e * e), FOUR_DECIMALS * product;
    assert (v * d) * (e * e) == want * d;
    if want <= have {
      MulAtMost(want, have, d);
    } else {
      MulAtMost(have + 1, want, d);
    }
  }

  lemma ResolverReaches(l: nat, p: nat, v: nat)
    ensures YieldOf(l, p) >= v <==> v * (RATE_PRECISION * RATE_PRECISION) <= FOUR_DECIMALS * (l * p)
  {
    var w := l * p;
    assert l * p * FOUR_DECIMALS == FOUR_DECIMALS * w;
  }

  lemma ProgramReaches(l: nat, p: nat, v: nat)
    ensures ChainYieldOf(l, p) >= v <==> v * (CHAIN_PRECISION * CHAIN_PRECISION) <= FOUR_DECIMALS * (l * p)
  {
    var w := l * p;
    assert ChainYieldOf(l, p) == w / CHAIN_PRECISION * FOUR_DECIMALS / CHAIN_PRECISION;
  }

  /** With parts rounded down the yield is reached only where nothing is lost. */
  lemma ReachesExactly(e4: nat, x: Ratios)
    requires Valid(x) && e4 > 0 && x.u > 0 && PayersTop(x) > 0
    requires PartAt(FOUR_DECIMALS * e4, x) * PayersBottom(x) <= PayersTop(x) * (FOUR_DECIMALS * e4)
    ensures Reaches(FOUR_DECIMALS * e4, x) <==> LenderExact(e4, x) && PartExact(FOUR_DECIMALS * e4, x)
  {
    var e := FOUR_DECIMALS * e4;
    var l, p, a, c := LenderAt(e, x), PartAt(e, x), x.u * LendersTop(x) * e4, PayersTop(x) * e;
    var left, right := l * LendersBottom(x), p * PayersBottom(x);
    LenderBracket(e4, x);
    assert a > 0 by {
      MulAtMost(1, x.u, LendersTop(x));
    }
    InTermsOfParts(e4, x, l, p, left, right, a, c);
    hide LenderAt, PartAt, LendersBottom, LendersTop, PayersBottom, PayersTop, Reaches;
    EqualFactors(left, a, right, c);
  }

  lemma InTermsOfParts(e4: nat, x: Ratios, l: nat, p: nat, left: nat, right: nat, a: nat, c: nat)
    requires Valid(x) && l == LenderAt(FOUR_DECIMALS * e4, x) && p == PartAt(FOUR_DECIMALS * e4, x)
    requires left == l * LendersBottom(x) && right == p * PayersBottom(x)
    requires a == x.u * LendersTop(x) * e4 && c == PayersTop(x) * (FOUR_DECIMALS * e4)
    ensures Reaches(FOUR_DECIMALS * e4, x) <==> a * c <= left * right
  {
    hide LenderAt, PartAt, LendersTop, LendersBottom, PayersTop, PayersBottom;
    var e, n, pn := FOUR_DECIMALS * e4, x.u * LendersTop(x), PayersTop(x);
    FourFactors(l, p, LendersBottom(x), PayersBottom(x));
    assert (n * pn) * (e * e) == FOUR_DECIMALS * (a * c) by {
      var top := n * pn;
      assert (n * e4) * (pn * e) == top * (e4 * e) by {
        FourFactors(n, pn, e4, e);
      }
      assert top * (FOUR_DECIMALS * e4 * e) == FOUR_DECIMALS * (top * (e4 * e));
    }
    assert FOUR_DECIMALS * (l * p) * YieldBottom(x) == FOUR_DECIMALS * ((l * p) * YieldBottom(x));
  }

  lemma EqualFactors(left: nat, a: nat, right: nat, c: nat)
    requires left <= a && right <= c && a > 0 && c > 0
    ensures a * c <= left * right <==> left == a && right == c
  {
    if a * c <= left * right {
      if left < a {
        MulAtMost(left + 1, a, c);
        MulBoth(right, c, left);
      } else if right < c {
        MulBoth(right + 1, c, a);
      }
    }
  }

  /** Lenders' part is exact at either precision, or at neither. */
  lemma LenderExactly(e4: nat, x: Ratios)
    requires Valid(x) && (FOUR_DECIMALS * e4 == CHAIN_PRECISION || FOUR_DECIMALS * e4 == RATE_PRECISION)
    ensures LenderExact(e4, x) <==> (x.supplyInverse ==> x.u == 0 || CHAIN_PRECISION % x.supply == 0)
  {
    hide LenderExact;
    if x.supplyInverse {
      InverseExactly(e4, x);
    } else {
      DirectExact(e4, x);
    }
  }

  lemma DirectExact(e4: nat, x: Ratios)
    requires Valid(x) && !x.supplyInverse && (e4 == CHAIN_PRECISION_4 || e4 == RATE_PRECISION_4)
    ensures LenderExact(e4, x)
  {
    var w := x.u * (FOUR_DECIMALS + x.supply);
    assert x.u * (FOUR_DECIMALS * e4) * (FOUR_DECIMALS + x.supply) == w * (FOUR_DECIMALS * e4) by {
      var e := FOUR_DECIMALS * e4;
      assert x.u * e * (FOUR_DECIMALS + x.supply) == w * e;
    }
    if e4 == CHAIN_PRECISION_4 {
      assert LenderAt(FOUR_DECIMALS * e4, x) == w * 1_000_000_000;
    } else {
      assert LenderAt(FOUR_DECIMALS * e4, x) == w * 10_000_000_000;
    }
  }

  lemma InverseExactly(e4: nat, x: Ratios)
    requires Valid(x) && (e4 == CHAIN_PRECISION_4 || e4 == RATE_PRECISION_4) && x.supplyInverse
    ensures LenderExact(e4, x) <==> x.u == 0 || CHAIN_PRECISION % x.supply == 0
  {
    var e, ratio := FOUR_DECIMALS * e4, x.supply;
    var f, l := FloorDiv(e * FOUR_DECIMALS, ratio), LenderAt(e, x);
    InverseParts(e, x, f, l);
    hide LenderAt;
    if CHAIN_PRECISION % ratio == 0 {
      InverseDivided(e4, x.u, ratio, f, l);
    } else if x.u > 0 {
      NotDivided(e, ratio, f);
      InverseLoses(x.u, e4, ratio, f, l);
    } else {
      assert l == 0;
    }
  }

  lemma InverseParts(e: nat, x: Ratios, f: nat, l: nat)
    requires Valid(x) && x.supplyInverse && f == FloorDiv(e * FOUR_DECIMALS, x.supply) && l == LenderAt(e, x)
    ensures l * FOUR_DECIMALS <= x.u * (e + f) < (l + 1) * FOUR_DECIMALS
  {
  }

  lemma InverseDivided(e4: nat, u: nat, ratio: nat, f: nat, l: nat)
    requires e4 == CHAIN_PRECISION_4 || e4 == RATE_PRECISION_4
    requires 0 < ratio <= FOUR_DECIMALS && CHAIN_PRECISION % ratio == 0
    requires f * ratio <= FOUR_DECIMALS * e4 * FOUR_DECIMALS < (f + 1) * ratio
    requires l * FOUR_DECIMALS <= u * (FOUR_DECIMALS * e4 + f) < (l + 1) * FOUR_DECIMALS
    ensures l * ratio == u * (FOUR_DECIMALS + ratio) * e4
  {
    TenLess(ratio, 1);
    var k := FloorDiv(FOUR_DECIMALS * e4, ratio);
    Quotient(FOUR_DECIMALS * e4, ratio, k);
    InverseWithoutLoss(u, e4, ratio, k, f, l);
  }

  lemma NotDivided(e: nat, ratio: nat, f: nat)
    requires 0 < ratio <= FOUR_DECIMALS && (e == CHAIN_PRECISION || e == RATE_PRECISION) && CHAIN_PRECISION % ratio != 0
    requires f * ratio <= e * FOUR_DECIMALS
    ensures f * ratio < e * FOUR_DECIMALS
  {
    if f * ratio == e * FOUR_DECIMALS {
      MultipleHasNoRest(f, ratio);
      SeventeenEnough(ratio);
    }
  }

  lemma InverseWithoutLoss(u: nat, e4: nat, ratio: nat, k: nat, f: nat, l: nat)
    requires ratio > 0 && k * ratio == FOUR_DECIMALS * e4
    requires f * ratio <= FOUR_DECIMALS * e4 * FOUR_DECIMALS < (f + 1) * ratio
    requires l * FOUR_DECIMALS <= u * (FOUR_DECIMALS * e4 + f) < (l + 1) * FOUR_DECIMALS
    ensures l * ratio == u * (FOUR_DECIMALS + ratio) * e4
  {
    TimesFourDecimals(e4, ratio, k, f);
    CutExactly(u, e4 + k, l, f, e4);
    WithoutLoss(u, e4, ratio, k);
  }

  lemma TimesFourDecimals(e4: nat, ratio: nat, k: nat, f: nat)
    requires ratio > 0 && k * ratio == FOUR_DECIMALS * e4
    requires f * ratio <= FOUR_DECIMALS * e4 * FOUR_DECIMALS < (f + 1) * ratio
    ensures f == FOUR_DECIMALS * k
  {
    assert (FOUR_DECIMALS * k) * ratio == FOUR_DECIMALS * (k * ratio);
    assert (FOUR_DECIMALS * k + 1) * ratio == (FOUR_DECIMALS * k) * ratio + ratio;
    MulCancelLess(f, FOUR_DECIMALS * k + 1, ratio);
    MulCancelLess(FOUR_DECIMALS * k, f + 1, ratio);
  }

  lemma CutExactly(u: nat, units: nat, l: nat, f: nat, e4: nat)
    requires units >= e4 && f == FOUR_DECIMALS * (units - e4)
    requires l * FOUR_DECIMALS <= u * (FOUR_DECIMALS * e4 + f) < (l + 1) * FOUR_DECIMALS
    ensures l == u * units
  {
    var whole := u * units;
    assert FOUR_DECIMALS * e4 + f == FOUR_DECIMALS * units;
    assert u * (FOUR_DECIMALS * units) == FOUR_DECIMALS * whole;
  }

  lemma WithoutLoss(u: nat, e4: nat, ratio: nat, k: nat)
    requires k * ratio == FOUR_DECIMALS * e4
    ensures u * (e4 + k) * ratio == u * (FOUR_DECIMALS + ratio) * e4
  {
    var sum := e4 * ratio + FOUR_DECIMALS * e4;
    assert (e4 + k) * ratio == sum && (FOUR_DECIMALS + ratio) * e4 == sum;
    MulAssociate(u, e4 + k, ratio);
    MulAssociate(u, FOUR_DECIMALS + ratio, e4);
  }

  lemma InverseLoses(u: nat, e4: nat, ratio: nat, f: nat, l: nat)
    requires u > 0 && ratio > 0 && f * ratio < FOUR_DECIMALS * e4 * FOUR_DECIMALS
    requires l * FOUR_DECIMALS <= u * (FOUR_DECIMALS * e4 + f)
    ensures l * ratio < u * (FOUR_DECIMALS + ratio) * e4
  {
    var e := FOUR_DECIMALS * e4;
    MulAtMost(l * FOUR_DECIMALS, u * (e + f), ratio);
    assert u * (e + f) * ratio == u * (e * ratio + f * ratio);
    MulBoth(e * ratio + f * ratio + 1, e * ratio + e * FOUR_DECIMALS, u);
    assert u * (e * ratio + f * ratio + 1) == u * (e * ratio + f * ratio) + u;
    assert u * (e * ratio + e * FOUR_DECIMALS) == FOUR_DECIMALS * (u * (FOUR_DECIMALS + ratio) * e4) by {
      var w := u * (FOUR_DECIMALS + ratio);
      assert u * (e * ratio + e * FOUR_DECIMALS) == w * e;
    }
    var x := l * ratio;
    assert l * FOUR_DECIMALS * ratio == FOUR_DECIMALS * x;
  }

  /** So is payers' part, when it is rounded down. */
  lemma PartExactly(e: nat, x: Ratios)
    requires Valid(x) && x.borrowInverse && (e == CHAIN_PRECISION || e == RATE_PRECISION)
    ensures PartExact(e, x) <==> x.borrow * CHAIN_PRECISION % PayersBottom(x) == 0
  {
    var d, floor := PayersBottom(x), PartAt(e, x);
    if PartExact(e, x) {
      MultipleHasNoRest(floor, d);
      if e == RATE_PRECISION {
        TenMore(d, x.borrow);
      }
    } else if x.borrow * CHAIN_PRECISION % d == 0 {
      TenLess(d, x.borrow);
      Quotient(x.borrow * e, d, floor);
    }
  }

  /** Mostly free supply over borrowing mostly with interest, where the exact yield is a whole number: one part is rounded
      down and the other up. */
  predicate Delicate(x: Ratios)
    requires Valid(x)
  {
    x.supplyInverse && !x.borrowInverse && x.borrow > 0 && Whole(x)
  }

  /** Whether the parts reach a whole yield, without asking at which precision. */
  predicate ReachesEither(x: Ratios)
    requires Valid(x)
  {
    || x.u == 0 || PayersTop(x) == 0
    || (!x.supplyInverse && !x.borrowInverse)
    || ((x.supplyInverse ==> CHAIN_PRECISION % x.supply == 0)
        && (x.borrowInverse ==> x.borrow * CHAIN_PRECISION % PayersBottom(x) == 0))
  }

  lemma ReachesAlike(e4: nat, x: Ratios)
    requires Valid(x) && (FOUR_DECIMALS * e4 == CHAIN_PRECISION || FOUR_DECIMALS * e4 == RATE_PRECISION)
    requires !(x.supplyInverse && !x.borrowInverse && x.borrow > 0)
    ensures Reaches(FOUR_DECIMALS * e4, x) <==> ReachesEither(x)
  {
    var e := FOUR_DECIMALS * e4;
    PartBracket(e, x);
    LenderExactly(e4, x);
    if x.u == 0 || PayersTop(x) == 0 {
      NothingToReach(e, x);
    } else if !x.supplyInverse && !x.borrowInverse {
      RoundedUpReaches(e4, x);
    } else {
      if x.borrowInverse {
        PartExactly(e, x);
      } else {
        WholePart(e, x);
      }
      hide LenderAt, PartAt, LenderExact, Reaches;
      ReachesExactly(e4, x);
    }
  }

  lemma NothingToReach(e: nat, x: Ratios)
    requires Valid(x) && (x.u == 0 || PayersTop(x) == 0)
    ensures Reaches(e, x)
  {
    hide LenderAt, PartAt;
    assert YieldTop(x) == 0;
    var w := LenderAt(e, x) * PartAt(e, x);
    MulBoth(0, FOUR_DECIMALS * w, YieldBottom(x));
  }

  lemma WholePart(e: nat, x: Ratios)
    requires Valid(x) && !x.borrowInverse && x.borrow == 0
    ensures PartExact(e, x)
  {
  }

  lemma RoundedUpReaches(e4: nat, x: Ratios)
    requires Valid(x) && LenderExact(e4, x)
    requires PartAt(FOUR_DECIMALS * e4, x) * PayersBottom(x) >= PayersTop(x) * (FOUR_DECIMALS * e4)
    ensures Reaches(FOUR_DECIMALS * e4, x)
  {
    var e := FOUR_DECIMALS * e4;
    var l, p, a, c := LenderAt(e, x), PartAt(e, x), x.u * LendersTop(x) * e4, PayersTop(x) * e;
    hide LenderAt, PartAt, LendersBottom, LendersTop, PayersBottom, PayersTop;
    InTermsOfParts(e4, x, l, p, l * LendersBottom(x), p * PayersBottom(x), a, c);
    ProductAtMost(a, l * LendersBottom(x), c, p * PayersBottom(x));
  }

  /** The two yields: how far apart, and exactly when the same. */
  lemma YieldsAgree(x: Ratios)
    requires Valid(x)
    ensures var resolver := YieldOf(LenderAt(RATE_PRECISION, x), PartAt(RATE_PRECISION, x));
            var program := ChainYieldOf(LenderAt(CHAIN_PRECISION, x), PartAt(CHAIN_PRECISION, x));
            && Near(x, resolver) && Near(x, program) && resolver - 1 <= program <= resolver + 1
            && (resolver == program <==>
                  (Delicate(x) ==> (Reaches(RATE_PRECISION, x) <==> Reaches(CHAIN_PRECISION, x))))
  {
    var l18, p18, l17, p17 := LenderAt(RATE_PRECISION, x), PartAt(RATE_PRECISION, x), LenderAt(CHAIN_PRECISION, x), PartAt(CHAIN_PRECISION, x);
    ResolverRounded(l18, p18);
    ProgramRounded(l17, p17);
    YieldNear(RATE_PRECISION_4, x, YieldOf(l18, p18));
    YieldNear(CHAIN_PRECISION_4, x, ChainYieldOf(l17, p17));
    if !(x.supplyInverse && !x.borrowInverse && x.borrow > 0) {
      ReachesAlike(RATE_PRECISION_4, x);
      ReachesAlike(CHAIN_PRECISION_4, x);
    }
    hide LenderAt, PartAt, YieldOf, ChainYieldOf, YieldTop, YieldBottom, Reaches, ReachesEither;
    var top, d := YieldTop(x), YieldBottom(x);
    NearAre(top, d, YieldOf(l18, p18));
    NearAre(top, d, ChainYieldOf(l17, p17));
    if Whole(x) {
      var v := top / d;
      Quotient(top, d, v);
      WholeReaches(RATE_PRECISION, x, v, l18 * p18);
      WholeReaches(CHAIN_PRECISION, x, v, l17 * p17);
      ResolverReaches(l18, p18, v);
      ProgramReaches(l17, p17, v);
    }
  }

  lemma NearAre(top: nat, d: nat, y: nat)
    requires d > 0 && y * d <= top <= (y + 1) * d
    ensures top / d - 1 <= y <= top / d
    ensures top % d != 0 ==> y == top / d
  {
    if top == (y + 1) * d {
      MultipleHasNoRest(y + 1, d);
      DivUnique(top, d, y + 1);
    } else {
      DivUnique(top, d, y);
    }
  }

  // ---------------------------------------------------------------- the prices

  /** At any rate and time, in prices of any size, both formulas store the same. */
  ghost predicate SamePrices(r: TokenReserve, rate: nat, now: nat)
    requires Priced(r) && now >= r.lastUpdateTimestamp
  {
    Grown(Resolver, AtTerms(r, rate, r.fee), now) == Grown(OnChain, AtTerms(r, rate, r.fee), now)
  }

  /** When both formulas credit suppliers with the same yield. It is none for either where supply is next to all free of
      interest. Where nothing is supplied with interest the program gives none, at borrow ratio 1 the resolver gives none,
      and then the other must come to none by itself. Everywhere else they agree unless the case is delicate. */
  predicate SameCredit(r: TokenReserve)
    requires r.lastStoredUtilization <= U16_MAX
  {
    var c := GetExchangePricesAndConfig(r);
    if c.supplyRatioInverse && c.supplyRatio == 0 then true
    else if r.supplyInterest == 0 then c.borrowRatio == 1 || RatioSupplyYield(c) == 0
    else if c.borrowRatio == 1 then ChainYield(r) == 0
    else
      var x := RatiosOf(r);
      Delicate(x) ==> (Reaches(RATE_PRECISION, x) <==> Reaches(CHAIN_PRECISION, x))
  }

  lemma CreditsAgree(r: TokenReserve)
    requires r.lastStoredUtilization <= U16_MAX && r.borrowInterest > 0
    ensures CreditYield(Resolver, r) == CreditYield(OnChain, r) <==> SameCredit(r)
  {
    var c, x := GetExchangePricesAndConfig(r), RatiosOf(r);
    hide GetRatio, LenderAt, PartAt, Reaches, Delicate, YieldOf, ChainYieldOf, ChainLender, ChainPart, RatioSupplyYield, Near;
    if c.supplyRatioInverse ==> c.supplyRatio > 0 {
      ResolverAt(r);
      ProgramAt(r);
      YieldsAgree(x);
    }
  }

  /** The resolver and the program agree on a reserve's prices at all rates and times if and only if someone borrows with
      interest, and the fee takes everything or both give suppliers the same yield. */
  lemma FormulasAgree(r: TokenReserve)
    requires Priced(r) && r.lastStoredUtilization <= U16_MAX
    ensures (forall rate: nat, now: nat :: now >= r.lastUpdateTimestamp ==> SamePrices(r, rate, now))
       <==> r.borrowInterest > 0 && (r.fee == FOUR_DECIMALS || SameCredit(r))
  {
    hide SameCredit, CreditYield;
    if r.borrowInterest > 0 {
      CreditsAgree(r);
    }
    if r.borrowInterest > 0 && (r.fee == FOUR_DECIMALS || SameCredit(r)) {
      forall rate: nat, now: nat | now >= r.lastUpdateTimestamp
        ensures SamePrices(r, rate, now)
      {
        hide ChainSupplyGain, ChainBorrowGain;
        AllToTheFee(AtTerms(r, rate, r.fee), now - r.lastUpdateTimestamp);
        CreditAtTerms(r, rate);
      }
    } else {
      CreditAtTerms(r, FOUR_DECIMALS);
      LongAccrual(r);
      var now := r.lastUpdateTimestamp + BPS_SQUARED * SECONDS_PER_YEAR;
      assert !SamePrices(r, FOUR_DECIMALS, now);
    }
  }

  lemma CreditAtTerms(r: TokenReserve, rate: nat)
    ensures CreditYield(Resolver, AtTerms(r, rate, r.fee)) == CreditYield(Resolver, r)
    ensures CreditYield(OnChain, AtTerms(r, rate, r.fee)) == CreditYield(OnChain, r)
  {
    hide CreditYield;
    SameYield(Resolver, r, rate, r.fee);
    SameYield(OnChain, r, rate, r.fee);
  }

  lemma AllToTheFee(r: TokenReserve, elapsed: nat)
    requires r.fee <= FOUR_DECIMALS
    ensures r.fee == FOUR_DECIMALS ==> forall earned: nat :: ChainSupplyGain(r, earned, elapsed) == 0
  {
    if r.fee == FOUR_DECIMALS {
      forall earned: nat
        ensures ChainSupplyGain(r, earned, elapsed) == 0
      {
        assert r.supplyExchangePrice * (r.borrowRate * earned * (FOUR_DECIMALS - r.fee)) * elapsed == 0;
      }
    }
  }

  /** Over a long enough time any difference in the yield shows in the price. */
  lemma LongAccrual(r: TokenReserve)
    requires Priced(r)
    ensures var t, elapsed := AtTerms(r, FOUR_DECIMALS, r.fee), BPS_SQUARED * SECONDS_PER_YEAR;
            && ChainBorrowGain(t, elapsed) > 0
            && forall a: nat, b: nat :: r.fee < FOUR_DECIMALS && a != b ==>
                 ChainSupplyGain(t, a, elapsed) != ChainSupplyGain(t, b, elapsed)
  {
    var t, elapsed := AtTerms(r, FOUR_DECIMALS, r.fee), BPS_SQUARED * SECONDS_PER_YEAR;
    assert t.borrowExchangePrice * t.borrowRate * elapsed > 0;
    hide ChainSupplyGain;
    forall a: nat, b: nat | r.fee < FOUR_DECIMALS && a != b
      ensures ChainSupplyGain(t, a, elapsed) != ChainSupplyGain(t, b, elapsed)
    {
      LongGain(t, a);
      LongGain(t, b);
      var unit := t.supplyExchangePrice * (FOUR_DECIMALS - t.fee);
      Distinct(unit, a, b);
    }
  }

  lemma Distinct(unit: int, a: nat, b: nat)
    requires unit > 0 && a != b
    ensures unit * a != unit * b
  {
  }

  lemma LongGain(r: TokenReserve, earned: nat)
    requires r.fee <= FOUR_DECIMALS && r.borrowRate == FOUR_DECIMALS
    ensures ChainSupplyGain(r, earned, BPS_SQUARED * SECONDS_PER_YEAR)
         == r.supplyExchangePrice * (FOUR_DECIMALS - r.fee) * earned
  {
    var kept: nat := FOUR_DECIMALS - r.fee;
    var w := r.supplyExchangePrice * kept * earned;
    assert r.supplyExchangePrice * (FOUR_DECIMALS * earned * kept) == FOUR_DECIMALS * w;
  }

  /** Markets in which the resolver's yield is above the program's, and below it. */
  function ResolverAbove(): TokenReserve {
    TokenReserve(1_800_000, 10_000_000, 3_600_000, 796_680, PRICES_PRECISION, PRICES_PRECISION, 1_000, 0, 3_726, 0)
  }

  function ProgramAbove(): TokenReserve {
    TokenReserve(2_825_000, 10_000_000, 5_650_000, 726_590, PRICES_PRECISION, PRICES_PRECISION, 1_000, 0, 4_972, 0)
  }

  lemma FormulasDiffer()
    ensures Sound(ResolverAbove()) && CalcUtilization(ResolverAbove()) == Ok(3_726)
    ensures CreditYield(Resolver, ResolverAbove()) == 20_000 && CreditYield(OnChain, ResolverAbove()) == 19_999
    ensures Sound(ProgramAbove()) && CalcUtilization(ProgramAbove()) == Ok(4_972)
    ensures CreditYield(Resolver, ProgramAbove()) == 19_999 && CreditYield(OnChain, ProgramAbove()) == 20_000
  {
    AboveRatios();
    hide GetRatio, LenderAt, PartAt, YieldOf, ChainYieldOf, ChainLender, ChainPart, RatioSupplyYield;
    ResolverAt(ResolverAbove());
    ProgramAt(ResolverAbove());
    ResolverAt(ProgramAbove());
    ProgramAt(ProgramAbove());
    AboveYields();
    BelowYields();
  }

  lemma AboveRatios()
    ensures GetRatio(1_800_000, 10_000_000) == 1_800 && GetRatio(3_600_000, 796_680) == 2_213
    ensures GetRatio(2_825_000, 10_000_000) == 2_825 && GetRatio(5_650_000, 726_590) == 1_286
  {
  }

  lemma AboveYields()
    ensures var x := Ratios(3_726, 1_800, true, 2_213, false);
            && YieldOf(LenderAt(RATE_PRECISION, x), PartAt(RATE_PRECISION, x)) == 20_000
            && ChainYieldOf(LenderAt(CHAIN_PRECISION, x), PartAt(CHAIN_PRECISION, x)) == 19_999
  {
    hide LenderAt, PartAt;
    var x := Ratios(3_726, 1_800, true, 2_213, false);
    PartsAt(RATE_PRECISION, x, 5_555_555_555_555_555_555, 2_442_599_999_999_999_999, 181_200_360_271_841_480);
    PartsAt(CHAIN_PRECISION, x, 555_555_555_555_555_555, 244_259_999_999_999_999, 18_120_036_027_184_148);
  }

  lemma BelowYields()
    ensures var x := Ratios(4_972, 2_825, true, 1_286, false);
            && YieldOf(LenderAt(RATE_PRECISION, x), PartAt(RATE_PRECISION, x)) == 19_999
            && ChainYieldOf(LenderAt(CHAIN_PRECISION, x), PartAt(CHAIN_PRECISION, x)) == 20_000
  {
    hide LenderAt, PartAt;
    var x := Ratios(4_972, 2_825, true, 1_286, false);
    PartsAt(RATE_PRECISION, x, 3_539_823_008_849_557_522, 2_257_199_999_999_999_999, 113_946_482_367_534_999);
    PartsAt(CHAIN_PRECISION, x, 353_982_300_884_955_752, 225_719_999_999_999_999, 11_394_648_236_753_499);
  }

  lemma PartsAt(e: nat, x: Ratios, f: nat, l: nat, floor: nat)
    requires Valid(x) && x.supplyInverse && !x.borrowInverse && floor <= e
    requires f * x.supply <= e * FOUR_DECIMALS < (f + 1) * x.supply
    requires l * FOUR_DECIMALS <= x.u * (e + f) < (l + 1) * FOUR_DECIMALS
    requires floor * (FOUR_DECIMALS + x.borrow) <= x.borrow * e < (floor + 1) * (FOUR_DECIMALS + x.borrow)
    ensures LenderAt(e, x) == l && PartAt(e, x) == e - floor
  {
    DivUnique(e * FOUR_DECIMALS, x.supply, f);
    DivUnique(x.borrow * e, FOUR_DECIMALS + x.borrow, floor);
  }
}
