/** What is left of a liquidated position: `processLiquidatedPosition` of `ts-sdk/vault/context/state.ts` follows merged
    branches, multiplying connection factors, and settles the debt on the branch it ends at. */
module BranchWalk {
  import opened Common
  import opened BigNumber
  import TickMath
  import TickSearch

  const MERGED: nat := 2
  const CLOSED: nat := 3
  const TICK_SPACING: nat := 10015
  const X30: nat := 0x3fff_ffff

  datatype Branch = Branch(status: nat, debtFactor: nat, connectedBranchId: nat, minimaTick: int,
                           minimaTickPartials: nat)

  datatype Position = Position(finalTick: int, finalColRaw: nat, finalDebtRaw: nat)

  datatype WalkError =
    | BranchNotFound(id: nat)
    | ConnectedBranchNotFound(id: nat)
    | BigNumberError(bn: BnError)
    | TickFailure(tick: TickMath.TickError)
    | EmptyRatio

  type Branches = map<nat, Branch>

  /** Merged branches connect to branches of smaller rank, so that following them comes to an end. */
  ghost predicate WellFounded(branches: Branches, rank: map<nat, nat>) {
    forall id :: id in branches ==>
      && id in rank
      && var b := branches[id];
         b.status == MERGED && b.connectedBranchId in branches ==>
           b.connectedBranchId in rank && rank[b.connectedBranchId] < rank[id]
  }

  /** The loop: multiply and follow, leaving early when the factor saturates. */
  ghost function Walk(branches: Branches, rank: map<nat, nat>, id: nat, factor: nat): Result<(Branch, nat), WalkError>
    requires WellFounded(branches, rank) && id in branches
    decreases rank[id]
  {
    var b := branches[id];
    if b.status != MERGED then Ok((b, factor))
    else
      match MulBigNumber(factor, b.debtFactor)
      case Err(e) => Err(BigNumberError(e))
      case Ok(next) =>
        if next == MAX_MASK then Ok((b, next))
        else if b.connectedBranchId !in branches then Err(ConnectedBranchNotFound(b.connectedBranchId))
        else Walk(branches, rank, b.connectedBranchId, next)
  }

  /** Debt and collateral on the branch the walk ended at. */
  function Settle(b: Branch, factor: nat, initialDebtRaw: nat): Result<Position, WalkError> {
    if b.status == CLOSED || factor == MAX_MASK then Ok(Position(TickMath.MIN_TICK, 0, 0))
    else
      match MulDivNormal(initialDebtRaw, b.debtFactor, factor)
      case Err(e) => Err(BigNumberError(e))
      case Ok(debt) => SettleDebt(b, CutDebt(debt, initialDebtRaw))
  }

  /** Remainders of at most a hundredth are written off, others lose one part in ten thousand. */
  function CutDebt(debt: nat, initialDebtRaw: nat): nat {
    if debt > initialDebtRaw / 100 then debt * 9999 / 10000 else 0
  }

  function SettleDebt(b: Branch, debt: nat): Result<Position, WalkError> {
    if debt == 0 then Ok(Position(TickMath.MIN_TICK, 0, 0))
    else
      match TickMath.RatioAtTick(b.minimaTick)
      case Err(e) => Err(TickFailure(e))
      case Ok(ratio) =>
        var finalRatio := PartialRatio(ratio, b.minimaTickPartials);
        if finalRatio == 0 then Err(EmptyRatio)
        else Ok(Position(b.minimaTick, FloorDiv(debt * TickMath.ZERO_TICK_SCALED_RATIO, finalRatio), debt))
  }

  function RatioOneLess(ratio: nat): (r: nat)
    ensures r <= ratio
  {
    ratio * 10000 / TICK_SPACING
  }

  /** The ratio `partials` thirty-bit fractions above the tick below. */
  function PartialRatio(ratio: nat, partials: nat): nat {
    RatioOneLess(ratio) + (ratio - RatioOneLess(ratio)) * partials / X30
  }

  ghost function Process(branches: Branches, rank: map<nat, nat>, id: nat, factor: nat, debt: nat)
    : Result<Position, WalkError>
    requires WellFounded(branches, rank)
  {
    if id !in branches then Err(BranchNotFound(id))
    else
      match Walk(branches, rank, id, factor)
      case Err(e) => Err(e)
      case Ok(end) => Settle(end.0, end.1, debt)
  }

  method ProcessLiquidatedPosition(branches: Branches, ghost rank: map<nat, nat>, branchId: nat,
                                   initialConnectionFactor: nat, initialDebtRaw: nat)
    returns (r: Result<Position, WalkError>)
    requires WellFounded(branches, rank)
    ensures r == Process(branches, rank, branchId, initialConnectionFactor, initialDebtRaw)
  {
    hide MulBigNumber, MulDivNormal, TickMath.RatioAtTick, PartialRatio;
    if branchId !in branches {
      return Err(BranchNotFound(branchId));
    }
    var currentBranchId, currentBranch := branchId, branches[branchId];
    var currentConnectionFactor := initialConnectionFactor;
    while currentBranch.status == MERGED
      invariant currentBranchId in branches && currentBranch == branches[currentBranchId]
      invariant Walk(branches, rank, currentBranchId, currentConnectionFactor)
             == Walk(branches, rank, branchId, initialConnectionFactor)
      decreases rank[currentBranchId]
    {
      match MulBigNumber(currentConnectionFactor, currentBranch.debtFactor) {
        case Err(e) => return Err(BigNumberError(e));
        case Ok(product) => currentConnectionFactor := product;
      }
      if currentConnectionFactor == MAX_MASK {
        return Settle(currentBranch, currentConnectionFactor, initialDebtRaw);
      }
      currentBranchId := currentBranch.connectedBranchId;
      if currentBranchId !in branches {
        return Err(ConnectedBranchNotFound(currentBranchId));
      }
      currentBranch := branches[currentBranchId];
    }
    r := Settle(currentBranch, currentConnectionFactor, initialDebtRaw);
  }

  // ---------------------------------------------------------------- accuracy

  /** The debt factors of the merged branches from `id` on, in the order they are met. */
  ghost function ChainFactors(branches: Branches, rank: map<nat, nat>, id: nat): seq<nat>
    requires WellFounded(branches, rank) && id in branches
    decreases rank[id]
  {
    var b := branches[id];
    if b.status != MERGED then []
    else if b.connectedBranchId !in branches then [b.debtFactor]
    else [b.debtFactor] + ChainFactors(branches, rank, b.connectedBranchId)
  }

  ghost function One(): real {
    TwoTo(DECIMALS) as real
  }

  /** The number a connection factor stands for: 2^16384 is 1.0. */
  ghost function Multiplier(b: nat): real {
    Value(b) as real / One()
  }

  ghost function Multipliers(factors: seq<nat>): (ms: seq<real>)
    ensures |ms| == |factors| && forall k :: 0 <= k < |ms| ==> ms[k] == Multiplier(factors[k])
  {
    seq(|factors|, k requires 0 <= k < |factors| => Multiplier(factors[k]))
  }

  /** The merged branches met from `id` on have full factors. Nothing is asked of other branches, or of the one the walk
      ends at: a closed or fresh branch has factor 0. */
  ghost predicate NormalFrom(branches: Branches, rank: map<nat, nat>, id: nat)
    requires WellFounded(branches, rank) && id in branches
    decreases rank[id]
  {
    var b := branches[id];
    b.status == MERGED ==>
      && Normal(b.debtFactor)
      && (b.connectedBranchId in branches ==> NormalFrom(branches, rank, b.connectedBranchId))
  }

  lemma MultiplierPositive(b: nat)
    ensures 0.0 <= Multiplier(b)
  {
  }

  lemma DivideWithin(one: real, a: real, b: real, w: real)
    requires 0.0 < one && Within(KEEP, a * b, w * one)
    ensures Within(KEEP, a * (b / one), w)
  {
    var q := b / one;
    assert q * one == b;
    var x := a * q;
    assert x * one == a * b;
    CancelLeft(w, x, one);
    CancelLeft(KEEP * x, w, one);
  }

  /** One unsaturated multiplication of the walk, in real terms. */
  lemma MultiplyOnce(factor: nat, df: nat, next: nat)
    requires Normal(factor) && Normal(df) && MulBigNumber(factor, df) == Ok(next) && next != MAX_MASK
    ensures Normal(next) && Within(KEEP, Value(factor) as real * Multiplier(df), Value(next) as real)
  {
    hide MulBigNumber, Value, ShiftLeft, ProductExponent, Normal, TwoTo;
    MulBigNumberStep(factor, df);
    CutByOne(Value(factor), Value(df), Value(next));
  }

  lemma CutByOne(v: nat, u: nat, w: nat)
    requires CutOf(ShiftLeft(w, DECIMALS), v * u)
    ensures Within(KEEP, v as real * (u as real / One()), w as real)
  {
    hide ShiftLeft, TwoTo;
    CutReal(ShiftLeft(w, DECIMALS), v * u);
    ShiftLeftIsProduct(w, DECIMALS);
    CastProduct(v, u);
    CastProduct(w, TwoTo(DECIMALS));
    DivideWithin(One(), v as real, u as real, w as real);
  }

  /** `r` is `start` times all the factors, with one cut for each. */
  ghost predicate ChainWithin(start: real, factors: seq<nat>, r: nat) {
    Within(Pow(KEEP, |factors|), Exact(start, Multipliers(factors)), Value(r) as real)
  }

  lemma WalkStep(start: real, before: seq<nat>, factor: nat, df: nat, next: nat)
    requires Normal(factor) && Normal(df) && MulBigNumber(factor, df) == Ok(next) && next != MAX_MASK
    requires ChainWithin(start, before, factor)
    ensures Normal(next) && ChainWithin(start, before + [df], next)
  {
    hide MulBigNumber, Value, Normal, Exact, Pow, Multiplier;
    MultiplyOnce(factor, df, next);
    var sofar := before + [df];
    MultiplierPositive(df);
    assert Multipliers(sofar)[..|before|] == Multipliers(before);
    ExtendChain(KEEP, start, Multipliers(sofar), Value(factor) as real, Value(next) as real);
  }

  /** Where a walk that neither throws nor saturates ends, given what was multiplied on the way there. */
  lemma {:induction false} WalkFrom(branches: Branches, rank: map<nat, nat>, id: nat, start: real, before: seq<nat>,
                                    factor: nat)
    requires WellFounded(branches, rank) && id in branches && NormalFrom(branches, rank, id) && Normal(factor)
    requires ChainWithin(start, before, factor)
    requires var end := Walk(branches, rank, id, factor); end.Ok? && end.value.1 != MAX_MASK
    ensures var end := Walk(branches, rank, id, factor).value;
            var factors := before + ChainFactors(branches, rank, id);
            && Normal(end.1) && end.0 in branches.Values && end.0.status != MERGED
            && ChainWithin(start, factors, end.1)
    decreases rank[id]
  {
    hide MulBigNumber, Value, Normal, ChainWithin;
    var b := branches[id];
    if b.status == MERGED {
      var next := MulBigNumber(factor, b.debtFactor).value;
      WalkStep(start, before, factor, b.debtFactor, next);
      var sofar := before + [b.debtFactor];
      WalkFrom(branches, rank, b.connectedBranchId, start, sofar, next);
      assert sofar + ChainFactors(branches, rank, b.connectedBranchId) == before + ChainFactors(branches, rank, id);
    } else {
      assert before + ChainFactors(branches, rank, id) == before;
    }
  }

  /** On every well-founded chain of k merged branches, a walk that neither throws nor saturates ends with a connection
      factor between (1 - 2^-34)^k times the exact product and the exact product. */
  lemma WalkAccuracy(branches: Branches, rank: map<nat, nat>, id: nat, factor: nat)
    requires WellFounded(branches, rank) && id in branches && NormalFrom(branches, rank, id) && Normal(factor)
    requires var end := Walk(branches, rank, id, factor); end.Ok? && end.value.1 != MAX_MASK
    ensures var end := Walk(branches, rank, id, factor).value;
            var factors := ChainFactors(branches, rank, id);
            && Normal(end.1) && end.0 in branches.Values && end.0.status != MERGED
            && ChainWithin(Value(factor) as real, factors, end.1)
  {
    hide MulBigNumber, Value, Normal, Multiplier;
    var v := Value(factor) as real;
    WithinSelf(v);
    assert Exact(v, Multipliers([])) == v && Pow(KEEP, 0) == 1.0;
    WalkFrom(branches, rank, id, v, [], factor);
    assert [] + ChainFactors(branches, rank, id) == ChainFactors(branches, rank, id);
  }

  /** `d` lies between the floor of n * u / exact and n * u / exact divided by `keep`. */
  ghost predicate FloorWithin(n: nat, u: nat, exact: real, keep: real, d: nat) {
    && 0.0 < exact
    && (n as real * u as real / exact).Floor <= d
    && d as real * (keep * exact) <= n as real * u as real
  }

  /** n * u / v with a divisor known up to the factor `keep`: the floor lies between the floor over the exact divisor
      and the exact quotient over `keep`. */
  lemma FloorOverApproximation(n: nat, u: nat, v: nat, exact: real, keep: real, d: nat)
    requires v > 0 && d == n * u / v && 0.0 < keep
    requires Within(keep, exact, v as real)
    ensures FloorWithin(n, u, exact, keep, d)
  {
    FloorBounds(n * u, v);
    CastProduct(n, u);
    CastProduct(d, v);
    CastProduct(d + 1, v);
    var x := n as real * u as real;
    QuotientBounds(x, v as real, exact, keep, d as real);
    assert (x / exact).Floor <= d;
  }

  lemma QuotientBounds(x: real, v: real, exact: real, keep: real, d: real)
    requires 0.0 < v && 0.0 < keep && 0.0 <= d && Within(keep, exact, v)
    requires d * v <= x < (d + 1.0) * v
    ensures 0.0 < exact && x / exact < d + 1.0 && d * (keep * exact) <= x
  {
    var low, up := keep * exact, d + 1.0;
    MulMonotone(low, v, d);
    MulMonotone(v, exact, up);
    assert v * up == (d + 1.0) * v;
    assert d * low == low * d && d * v == v * d;
    assert d * low <= d * v;
    DivideLess(x, v * up, exact * up, up, exact);
  }

  lemma DivideLess(x: real, bound: real, wide: real, up: real, exact: real)
    requires 0.0 < exact && x < bound <= wide && wide == exact * up
    ensures x / exact < up
  {
    var q := x / exact;
    assert q * exact == x;
    if up <= q {
      MulMonotone(up, q, exact);
    }
  }

  /** The exact floor, also over the factor 0 of a branch that was never liquidated. */
  lemma FloorOfDebt(debt: nat, b1: nat, b2: nat)
    requires debt < TWO_128 && (Normal(b1) || b1 == 0) && Normal(b2) && MulDivNormal(debt, b1, b2).Ok?
    ensures Value(b2) > 0 && MulDivNormal(debt, b1, b2).value == debt * Value(b1) / Value(b2)
  {
    hide Value, Normal;
    NormalIsNonZero(b2);
    if b1 == 0 {
      ZeroValue();
      ZeroQuotient(debt, Value(b2));
    } else {
      hide MulDivNormal;
      MulDivNormalExact(debt, b1, b2);
    }
  }

  lemma ZeroValue()
    ensures Value(0) == 0
  {
    ShiftLeftIsProduct(0, 0);
  }

  lemma ZeroQuotient(n: nat, d: nat)
    requires d > 0
    ensures n * 0 / d == 0
  {
  }

  /** The debt computed before the final cut, on a chain of k merged branches: with E the exact product of the
      connection factor and the branch factors, it is at least the floor of debt * f / E, where f is the end branch's
      factor, and at most debt * f / E divided by (1 - 2^-34)^k. */
  lemma DebtAccuracy(branches: Branches, rank: map<nat, nat>, id: nat, factor: nat, debt: nat)
    requires WellFounded(branches, rank) && id in branches && NormalFrom(branches, rank, id) && Normal(factor)
    requires debt < TWO_128
    requires var end := Walk(branches, rank, id, factor);
             && end.Ok? && end.value.1 != MAX_MASK
             && (Normal(end.value.0.debtFactor) || end.value.0.debtFactor == 0)
             && MulDivNormal(debt, end.value.0.debtFactor, end.value.1).Ok?
    ensures var end := Walk(branches, rank, id, factor).value;
            var factors := ChainFactors(branches, rank, id);
            var exact := Exact(Value(factor) as real, Multipliers(factors));
            var d := MulDivNormal(debt, end.0.debtFactor, end.1).value;
            FloorWithin(debt, Value(end.0.debtFactor), exact, Pow(KEEP, |factors|), d)
  {
    hide MulBigNumber, MulDivNormal, Value, Normal, Multiplier, Exact, Pow, Walk, ChainFactors;
    WalkAccuracy(branches, rank, id, factor);
    var end := Walk(branches, rank, id, factor).value;
    var factors := ChainFactors(branches, rank, id);
    NormalIsNonZero(end.1);
    FloorOfDebt(debt, end.0.debtFactor, end.1);
    PowPositive(KEEP, |factors|);
    FloorOverApproximation(debt, Value(end.0.debtFactor), Value(end.1),
                           Exact(Value(factor) as real, Multipliers(factors)), Pow(KEEP, |factors|),
                           MulDivNormal(debt, end.0.debtFactor, end.1).value);
  }

  // ---------------------------------------------------------------- saturation

  /** The saturated factor stays saturated under exactly the factors that are at least 1.0. */
  lemma SaturationPersists(df: nat)
    requires Normal(df)
    ensures MulBigNumber(MAX_MASK, df) == Ok(MAX_MASK) <==> Value(df) >= TwoTo(DECIMALS)
  {
    hide TwoTo, Value;
    var c, e := Coefficient(df), Exponent(df);
    assert Coefficient(MAX_MASK) == COEFFICIENT_END - 1 && Exponent(MAX_MASK) == EXPONENT_MAX;
    AtLeastOneByExponent(df);
    if e >= DECIMALS - 34 {
      if c == COEFFICIENT_MIN && e == DECIMALS - 34 {
        FullShift();
      }
    } else if e == DECIMALS - 35 {
      HalfShift(c);
    }
  }

  /** A normal number is at least 2^16384 exactly when its exponent is at least 16350. */
  lemma AtLeastOneByExponent(df: nat)
    requires Normal(df)
    ensures Value(df) >= TwoTo(DECIMALS) <==> Exponent(df) >= DECIMALS - 34
  {
    hide ShiftLeft;
    var c, e := Coefficient(df), Exponent(df);
    ShiftLeftIsProduct(1, DECIMALS);
    ShiftLeftIsProduct(1, 34);
    ShiftLeftIsProduct(1, 35);
    TwoToLiterals();
    if e >= DECIMALS - 34 {
      ShiftLeftGrows(c, DECIMALS - 34, e);
      ShiftLeftOrder(COEFFICIENT_MIN, c, DECIMALS - 34);
      ShiftLeftTwice(1, 34, DECIMALS - 34);
    } else {
      ShiftLeftGrows(c, e, DECIMALS - 35);
      ShiftLeftOrder(COEFFICIENT_END, c, DECIMALS - 35);
      ShiftLeftTwice(1, 35, DECIMALS - 35);
    }
  }

  /** Multiplying by exactly 1.0 gives the full coefficient back. */
  lemma FullShift()
    ensures ShiftRight((COEFFICIENT_END - 1) * COEFFICIENT_MIN, 34) == COEFFICIENT_END - 1
  {
    ShiftLeftLiterals(COEFFICIENT_END - 1);
    ShiftLeftLiterals(COEFFICIENT_END);
    ShiftedBack(COEFFICIENT_END - 1, 34, (COEFFICIENT_END - 1) * COEFFICIENT_MIN);
  }

  /** Just below 1.0 the top coefficient loses its last bit. */
  lemma HalfShift(c: nat)
    requires COEFFICIENT_MIN <= c < COEFFICIENT_END
    ensures ShiftRight((COEFFICIENT_END - 1) * c, 35) == c - 1
  {
    ShiftLeftLiterals(c - 1);
    ShiftLeftLiterals(c);
    ShiftedBack(c - 1, 35, (COEFFICIENT_END - 1) * c);
  }

  lemma ShiftLeftLiterals(q: nat)
    ensures ShiftLeft(q, 34) == q * COEFFICIENT_MIN && ShiftLeft(q, 35) == q * COEFFICIENT_END
  {
    ShiftLeftIsProduct(q, 34);
    ShiftLeftIsProduct(q, 35);
    TwoToLiterals();
  }

  lemma ShiftedBack(q: nat, d: nat, n: nat)
    requires ShiftLeft(q, d) <= n < ShiftLeft(q + 1, d)
    ensures ShiftRight(n, d) == q
  {
    var p := ShiftRight(n, d);
    ShiftLeftOrder(p + 1, q, d);
    ShiftLeftOrder(q + 1, p, d);
  }

  /** Against the saturated factor every debt comes to nothing. */
  lemma SaturatedDebtIsZero(debt: nat, df: nat)
    requires Exponent(df) <= 16384
    ensures MulDivNormal(debt, df, MAX_MASK) == Ok(0)
  {
    assert Exponent(MAX_MASK) == EXPONENT_MAX;
  }

  /** The walk without the early exit. */
  ghost function WalkThrough(branches: Branches, rank: map<nat, nat>, id: nat, factor: nat)
    : Result<(Branch, nat), WalkError>
    requires WellFounded(branches, rank) && id in branches
    decreases rank[id]
  {
    var b := branches[id];
    if b.status != MERGED then Ok((b, factor))
    else
      match MulBigNumber(factor, b.debtFactor)
      case Err(e) => Err(BigNumberError(e))
      case Ok(next) =>
        if b.connectedBranchId !in branches then Err(ConnectedBranchNotFound(b.connectedBranchId))
        else WalkThrough(branches, rank, b.connectedBranchId, next)
  }

  /** From `id` on, every merged branch has a factor of at least 1.0 and a connected branch that exists. */
  ghost predicate AtLeastOneFrom(branches: Branches, rank: map<nat, nat>, id: nat)
    requires WellFounded(branches, rank)
    decreases if id in rank then rank[id] else 0
  {
    id in branches
    && var b := branches[id];
       b.status == MERGED ==>
         && Value(b.debtFactor) >= TwoTo(DECIMALS)
         && b.connectedBranchId in branches
         && AtLeastOneFrom(branches, rank, b.connectedBranchId)
  }

  /** Wherever the walk saturates, the rest of the chain has factors of at least 1.0. */
  ghost predicate ReducesAfterSaturation(branches: Branches, rank: map<nat, nat>, id: nat, factor: nat)
    requires WellFounded(branches, rank) && id in branches
    decreases rank[id]
  {
    var b := branches[id];
    b.status == MERGED && MulBigNumber(factor, b.debtFactor).Ok? ==>
      var next := MulBigNumber(factor, b.debtFactor).value;
      if next == MAX_MASK then AtLeastOneFrom(branches, rank, b.connectedBranchId)
      else b.connectedBranchId in branches ==> ReducesAfterSaturation(branches, rank, b.connectedBranchId, next)
  }

  /** Walking on from a saturated factor changes nothing. */
  lemma {:induction false} SaturatedWalk(branches: Branches, rank: map<nat, nat>, id: nat)
    requires WellFounded(branches, rank) && AtLeastOneFrom(branches, rank, id) && NormalFrom(branches, rank, id)
    ensures var end := WalkThrough(branches, rank, id, MAX_MASK); end.Ok? && end.value.1 == MAX_MASK
    decreases rank[id]
  {
    hide MulBigNumber, Value, Normal, TwoTo;
    var b := branches[id];
    if b.status == MERGED {
      SaturationPersists(b.debtFactor);
      SaturatedWalk(branches, rank, b.connectedBranchId);
    }
  }

  ghost function SettleEnd(end: Result<(Branch, nat), WalkError>, debt: nat): Result<Position, WalkError> {
    match end
    case Err(e) => Err(e)
    case Ok(e) => Settle(e.0, e.1, debt)
  }

  /** Leaving the walk on saturation gives the position that walking to the end of the chain gives. */
  lemma {:induction false} EarlyExitSound(branches: Branches, rank: map<nat, nat>, id: nat, factor: nat, debt: nat)
    requires WellFounded(branches, rank) && id in branches && NormalFrom(branches, rank, id)
    requires ReducesAfterSaturation(branches, rank, id, factor)
    ensures SettleEnd(Walk(branches, rank, id, factor), debt) == SettleEnd(WalkThrough(branches, rank, id, factor), debt)
    decreases rank[id]
  {
    hide MulBigNumber, MulDivNormal, SettleDebt, Normal, Value;
    var b := branches[id];
    if b.status == MERGED && MulBigNumber(factor, b.debtFactor).Ok? {
      var next := MulBigNumber(factor, b.debtFactor).value;
      if next == MAX_MASK {
        SaturatedWalk(branches, rank, b.connectedBranchId);
      } else if b.connectedBranchId in branches {
        EarlyExitSound(branches, rank, b.connectedBranchId, next, debt);
      }
    }
  }

  /** Nothing is left of any debt that fits 64 bits: the branch is closed, or its factor is at most a hundredth of the
      connection factor. */
  ghost predicate LeavesNothing(b: Branch, factor: nat) {
    b.status == CLOSED || factor == MAX_MASK || 100 * Value(b.debtFactor) <= Value(factor)
  }

  const NOTHING: Result<Position, WalkError> := Ok(Position(TickMath.MIN_TICK, 0, 0))

  lemma HundredthWithin(n: nat, u: nat, v: nat)
    requires v > 0 && 100 * u <= v
    ensures n * u / v <= n / 100
  {
    var d := FloorDiv(n * u, v);
    MulAtMost(100 * u, v, n);
    assert 100 * (n * u) == n * (100 * u) && 100 * (d * v) == (100 * d) * v;
    assert (100 * d) * v <= n * v;
    assert (n + 1) * v == n * v + v;
    MulCancelLess(100 * d, n + 1, v);
  }

  lemma HundredthLeavesNothing(b: Branch, factor: nat, debt: nat)
    requires Normal(factor) && (Normal(b.debtFactor) || b.debtFactor == 0) && debt <= U64_MAX
    requires LeavesNothing(b, factor)
    ensures Settle(b, factor, debt) == NOTHING
  {
    hide Value, Normal;
    if b.status != CLOSED && factor != MAX_MASK && b.debtFactor != 0 {
      hide MulDivNormal;
      NormalIsNonZero(b.debtFactor);
      MulDivNormalReduces(debt, b.debtFactor, factor);
      FloorOfDebt(debt, b.debtFactor, factor);
      HundredthWithin(debt, Value(b.debtFactor), Value(factor));
    }
  }

  /** A debt of which more than a hundredth is left. */
  ghost function TellingDebt(b: Branch, factor: nat): nat {
    if Exponent(factor) < Exponent(b.debtFactor) then 0
    else ShiftLeft(Coefficient(factor), Exponent(factor) - Exponent(b.debtFactor))
  }

  lemma TellingDebtLeavesSome(b: Branch, factor: nat)
    requires Normal(factor) && Normal(b.debtFactor) && !LeavesNothing(b, factor)
    ensures TellingDebt(b, factor) <= U64_MAX && Settle(b, factor, TellingDebt(b, factor)) != NOTHING
  {
    hide ShiftLeft;
    var c1, e1, e2 := Coefficient(b.debtFactor), Exponent(b.debtFactor), Exponent(factor);
    var n := TellingDebt(b, factor);
    if e1 <= e2 {
      ShiftedHundred(Coefficient(factor), c1, e1, e2);
      ShiftLeftGrows(Coefficient(factor), 0, e2 - e1);
      GapIsSmall(Coefficient(factor), c1, e2 - e1);
      ShiftLeftPositive(Coefficient(factor), e2 - e1);
      assert MulDivNormal(n, b.debtFactor, factor) == Ok(c1) by {
        DivUnique(n * c1, n, c1);
      }
    }
  }

  /** Without their common shift the two values are still ordered. */
  lemma ShiftedHundred(c2: nat, c1: nat, e1: nat, e2: nat)
    requires e1 <= e2 && 100 * ShiftLeft(c1, e1) > ShiftLeft(c2, e2)
    ensures ShiftLeft(c2, e2 - e1) < 100 * c1
  {
    ShiftLeftIsProduct(c1, e1);
    ShiftLeftIsProduct(100 * c1, e1);
    ShiftLeftTwice(c2, e2 - e1, e1);
    ShiftLeftOrder(100 * c1, ShiftLeft(c2, e2 - e1), e1);
    MulAssociate(100, c1, TwoTo(e1));
  }

  lemma GapIsSmall(c2: nat, c1: nat, gap: nat)
    requires COEFFICIENT_MIN <= c2 && c1 < COEFFICIENT_END && ShiftLeft(c2, gap) < 100 * c1
    ensures gap < 129
  {
    hide ShiftLeft;
    if gap >= 129 {
      ShiftLeftGrows(c2, 129, gap);
      ShiftLeftOrder(1, c2, 129);
      ShiftLeftIsProduct(1, 129);
      TwoToLiterals();
    }
  }

  lemma NothingExactly(b: Branch, factor: nat)
    requires Normal(factor) && (Normal(b.debtFactor) || b.debtFactor == 0)
    ensures (forall debt: nat :: debt <= U64_MAX ==> Settle(b, factor, debt) == NOTHING) <==> LeavesNothing(b, factor)
  {
    hide Settle, Normal;
    if LeavesNothing(b, factor) {
      forall debt: nat | debt <= U64_MAX
        ensures Settle(b, factor, debt) == NOTHING
      {
        HundredthLeavesNothing(b, factor, debt);
      }
    } else {
      ZeroValue();
      TellingDebtLeavesSome(b, factor);
    }
  }

  lemma {:induction false} WalkThroughNormal(branches: Branches, rank: map<nat, nat>, id: nat, factor: nat)
    requires WellFounded(branches, rank) && id in branches && NormalFrom(branches, rank, id) && Normal(factor)
    requires WalkThrough(branches, rank, id, factor).Ok?
    ensures Normal(WalkThrough(branches, rank, id, factor).value.1)
    decreases rank[id]
  {
    hide MulBigNumber, Value, ShiftLeft, ProductExponent;
    var b := branches[id];
    if b.status == MERGED {
      MulBigNumberStep(factor, b.debtFactor);
      assert Normal(MAX_MASK);
      WalkThroughNormal(branches, rank, b.connectedBranchId, MulBigNumber(factor, b.debtFactor).value);
    }
  }

  /** Leaving a saturated walk gives every 64-bit debt the position of the whole chain exactly when walking on reaches an
      end that leaves nothing, even if factors below 1.0 have taken the connection factor out of saturation again. */
  lemma EarlyExitExact(branches: Branches, rank: map<nat, nat>, id: nat, factor: nat)
    requires WellFounded(branches, rank) && id in branches && NormalFrom(branches, rank, id) && Normal(factor)
    requires var left := Walk(branches, rank, id, factor); left.Ok? && left.value.1 == MAX_MASK
    requires var end := WalkThrough(branches, rank, id, factor);
             end.Ok? ==> Normal(end.value.0.debtFactor) || end.value.0.debtFactor == 0
    ensures var left, end := Walk(branches, rank, id, factor), WalkThrough(branches, rank, id, factor);
            (forall debt: nat :: debt <= U64_MAX ==> SettleEnd(left, debt) == SettleEnd(end, debt))
            <==> end.Ok? && LeavesNothing(end.value.0, end.value.1)
  {
    hide Walk, WalkThrough, MulDivNormal, Normal, LeavesNothing;
    var left, end := Walk(branches, rank, id, factor), WalkThrough(branches, rank, id, factor);
    assert forall debt: nat :: SettleEnd(left, debt) == NOTHING;
    if end.Ok? {
      WalkThroughNormal(branches, rank, id, factor);
      NothingExactly(end.value.0, end.value.1);
      assert forall debt: nat :: SettleEnd(end, debt) == Settle(end.value.0, end.value.1, debt);
    } else {
      assert SettleEnd(left, 0) != SettleEnd(end, 0);
    }
  }

  // ---------------------------------------------------------------- settlement

  lemma PartialRatioBounds(ratio: nat, partials: nat)
    requires partials <= X30
    ensures RatioOneLess(ratio) <= PartialRatio(ratio, partials) <= ratio
  {
    var length := ratio - RatioOneLess(ratio);
    MulAtMost(partials, X30, length);
    DivMonotone(length * partials, length * X30, X30);
    DivUnique(length * X30, X30, length);
  }

  /** The ratio in thirty-bit fractions of the step up from the tick below, times `TICK_SPACING * X30`: 10000 parts at no
      partials, 10015 at all of them. */
  function Interpolated(ratio: nat, partials: nat): nat {
    ratio * (10000 * X30 + 15 * partials)
  }

  /** The ratio at partials is the interpolated one, rounded down by less than two units. */
  lemma PartialRatioInterpolates(ratio: nat, partials: nat)
    requires partials <= X30
    ensures var at := PartialRatio(ratio, partials) * TICK_SPACING * X30;
            Interpolated(ratio, partials) - 2 * TICK_SPACING * X30 < at <= Interpolated(ratio, partials)
  {
    var below := RatioOneLess(ratio);
    FloorBounds(ratio * 10000, TICK_SPACING);
    FloorBounds((ratio - below) * partials, X30);
    Interpolates(ratio, below, partials, (ratio - below) * partials / X30);
  }

  lemma Interpolates(ratio: nat, below: nat, partials: nat, step: nat)
    requires partials <= X30 && below <= ratio
    requires below * TICK_SPACING <= ratio * 10000 < below * TICK_SPACING + TICK_SPACING
    requires step * X30 <= (ratio - below) * partials < step * X30 + X30
    ensures var at := (below + step) * TICK_SPACING * X30;
            Interpolated(ratio, partials) - 2 * TICK_SPACING * X30 < at <= Interpolated(ratio, partials)
  {
    var rest := ratio * 10000 - below * TICK_SPACING;
    var spread, lower := ratio * partials, below * partials;
    assert (ratio - below) * partials == spread - lower;
    Spread(ratio, below, partials, rest);
    RestLost(rest, partials);
    assert Interpolated(ratio, partials) == 10000 * X30 * ratio + 15 * spread;
  }

  lemma Spread(ratio: nat, below: nat, partials: nat, rest: int)
    requires rest == ratio * 10000 - below * TICK_SPACING
    ensures (below * partials) * TICK_SPACING == 10000 * (ratio * partials) - rest * partials
  {
    var x, y := ratio * partials, below * partials;
    assert rest * partials == 10000 * x - TICK_SPACING * y;
  }

  lemma RestLost(rest: nat, partials: nat)
    requires rest < TICK_SPACING && partials <= X30
    ensures 0 <= rest * X30 - rest * partials <= (TICK_SPACING - 1) * X30
  {
    var left: nat := X30 - partials;
    MulAtMost(rest, TICK_SPACING - 1, left);
    assert rest * X30 - rest * partials == rest * left;
  }

  /** A position settles unless its factors do not divide; one that is left with something needs the ratio of its tick. */
  lemma SettlesExactly(b: Branch, factor: nat, initialDebtRaw: nat)
    requires b.minimaTickPartials <= X30
    ensures Settle(b, factor, initialDebtRaw).Ok? <==>
      b.status == CLOSED || factor == MAX_MASK
      || (&& MulDivNormal(initialDebtRaw, b.debtFactor, factor).Ok?
          && (Left(MulDivNormal(initialDebtRaw, b.debtFactor, factor).value, initialDebtRaw) ==>
                TickMath.RatioAtTick(b.minimaTick).Ok?))
  {
    hide MulDivNormal, SettleDebt, CutDebt, Left, TickMath.RatioAtTick;
    if b.status != CLOSED && factor != MAX_MASK && MulDivNormal(initialDebtRaw, b.debtFactor, factor).Ok? {
      var debt := MulDivNormal(initialDebtRaw, b.debtFactor, factor).value;
      CutExactly(debt, initialDebtRaw);
      DebtSettlesExactly(b, CutDebt(debt, initialDebtRaw));
    }
  }

  lemma DebtSettlesExactly(b: Branch, debt: nat)
    requires b.minimaTickPartials <= X30
    ensures SettleDebt(b, debt).Ok? <==> debt == 0 || TickMath.RatioAtTick(b.minimaTick).Ok?
  {
    hide PartialRatio, TickMath.RatioAtTick;
    if TickMath.RatioAtTick(b.minimaTick).Ok? {
      TickRatioPositive(b.minimaTick);
      PartialRatioPositive(TickMath.RatioAtTick(b.minimaTick).value, b.minimaTickPartials);
    }
  }

  lemma PartialRatioPositive(ratio: nat, partials: nat)
    requires ratio > 2
    ensures PartialRatio(ratio, partials) > 0
  {
    assert (ratio - RatioOneLess(ratio)) * partials >= 0;
  }

  lemma TickRatioPositive(tick: int)
    requires TickMath.RatioAtTick(tick).Ok?
    ensures TickMath.RatioAtTick(tick).value > 2
  {
    assert TickMath.MIN_TICK <= tick <= TickMath.MAX_TICK;
    hide TickMath.RatioAtTick;
    TickSearch.RatioOrder(TickMath.MIN_TICK, tick);
    TickSearch.RoundTripMissesLowestTick();
  }

  /** What is more than a hundredth of the debt, and more than the unit that the last cut takes. */
  predicate Left(debt: nat, initialDebtRaw: nat) {
    100 * debt > initialDebtRaw && debt >= 2
  }

  lemma CutExactly(debt: nat, initialDebtRaw: nat)
    ensures CutDebt(debt, initialDebtRaw) > 0 <==> Left(debt, initialDebtRaw)
    ensures Left(debt, initialDebtRaw) ==>
              CutDebt(debt, initialDebtRaw) * 10000 <= debt * 9999 < (CutDebt(debt, initialDebtRaw) + 1) * 10000
  {
  }

  /** What a position settles to. It is empty exactly on a closed branch, at a saturated factor, or with no more than a
      hundredth of its debt (or a single unit) left. Otherwise it keeps 99.99% of the computed debt, rounded down, sits at
      the branch's minima tick, and its collateral is that debt over the ratio interpolated by the partials. */
  lemma SettledPosition(b: Branch, factor: nat, initialDebtRaw: nat)
    requires Settle(b, factor, initialDebtRaw).Ok? && b.minimaTickPartials <= X30
    ensures var p := Settle(b, factor, initialDebtRaw).value;
            && (p.finalDebtRaw == 0 ==> p == Position(TickMath.MIN_TICK, 0, 0))
            && (p.finalDebtRaw > 0 <==>
                  && b.status != CLOSED && factor != MAX_MASK
                  && Left(MulDivNormal(initialDebtRaw, b.debtFactor, factor).value, initialDebtRaw))
            && (p.finalDebtRaw > 0 ==>
                  && p.finalTick == b.minimaTick && TickMath.RatioAtTick(b.minimaTick).Ok?
                  && MulDivNormal(initialDebtRaw, b.debtFactor, factor).Ok?
                  && var ratio, debt := TickMath.RatioAtTick(b.minimaTick).value,
                                        MulDivNormal(initialDebtRaw, b.debtFactor, factor).value;
                     && p.finalDebtRaw * 10000 <= debt * 9999 < (p.finalDebtRaw + 1) * 10000
                     && ColAtRatio(p, Interpolated(ratio, b.minimaTickPartials))
                     && p.finalColRaw * RatioOneLess(ratio) <= p.finalDebtRaw * TickMath.ZERO_TICK_SCALED_RATIO
                     && p.finalDebtRaw * TickMath.ZERO_TICK_SCALED_RATIO < (p.finalColRaw + 1) * ratio)
  {
    hide MulDivNormal, TickMath.RatioAtTick, PartialRatio, RatioOneLess, Interpolated, ColAtRatio;
    if b.status != CLOSED && factor != MAX_MASK {
      var debt := MulDivNormal(initialDebtRaw, b.debtFactor, factor).value;
      CutExactly(debt, initialDebtRaw);
      if CutDebt(debt, initialDebtRaw) > 0 {
        var ratio := TickMath.RatioAtTick(b.minimaTick).value;
        ColSettled(Settle(b, factor, initialDebtRaw).value, ratio, b.minimaTickPartials);
        ColBetween(Settle(b, factor, initialDebtRaw).value, ratio, b.minimaTickPartials);
      }
    }
  }

  /** Collateral times the interpolated ratio against the debt at the scale of ratios: the ratio is rounded down by less than
      two units and the quotient by less than one. */
  ghost predicate ColAtRatio(p: Position, interpolated: nat) {
    var debt := p.finalDebtRaw * TickMath.ZERO_TICK_SCALED_RATIO * TICK_SPACING * X30;
    p.finalColRaw * (interpolated - 2 * TICK_SPACING * X30) <= debt < (p.finalColRaw + 1) * interpolated
  }

  lemma ColSettled(p: Position, ratio: nat, partials: nat)
    requires partials <= X30 && PartialRatio(ratio, partials) > 0
    requires p.finalColRaw == FloorDiv(p.finalDebtRaw * TickMath.ZERO_TICK_SCALED_RATIO, PartialRatio(ratio, partials))
    ensures ColAtRatio(p, Interpolated(ratio, partials))
  {
    PartialRatioInterpolates(ratio, partials);
    hide PartialRatio, Interpolated;
    QuotientScaled(p.finalColRaw, PartialRatio(ratio, partials), p.finalDebtRaw * TickMath.ZERO_TICK_SCALED_RATIO,
                   Interpolated(ratio, partials), 2 * TICK_SPACING * X30);
  }

  lemma ColBetween(p: Position, ratio: nat, partials: nat)
    requires partials <= X30 && PartialRatio(ratio, partials) > 0
    requires p.finalColRaw == FloorDiv(p.finalDebtRaw * TickMath.ZERO_TICK_SCALED_RATIO, PartialRatio(ratio, partials))
    ensures p.finalColRaw * RatioOneLess(ratio) <= p.finalDebtRaw * TickMath.ZERO_TICK_SCALED_RATIO
    ensures p.finalDebtRaw * TickMath.ZERO_TICK_SCALED_RATIO < (p.finalColRaw + 1) * ratio
  {
    PartialRatioBounds(ratio, partials);
    hide PartialRatio, RatioOneLess;
    MulAtMost(RatioOneLess(ratio), PartialRatio(ratio, partials), p.finalColRaw);
    MulAtMost(PartialRatio(ratio, partials), ratio, p.finalColRaw + 1);
  }

  lemma QuotientScaled(q: nat, d: nat, n: nat, top: nat, slack: nat)
    requires q * d <= n < (q + 1) * d && top - slack < d * TICK_SPACING * X30 <= top
    ensures q * (top - slack) <= n * TICK_SPACING * X30 < (q + 1) * top
  {
    var unit := TICK_SPACING * X30;
    var scaled := d * unit;
    assert d * TICK_SPACING * X30 == scaled;
    MulAtMost(top - slack, scaled, q);
    MulAtMost(scaled, top, q + 1);
    assert scaled * q == (q * d) * unit && scaled * (q + 1) == ((q + 1) * d) * unit;
    assert (top - slack) * q == q * (top - slack) && top * (q + 1) == (q + 1) * top;
  }
}
