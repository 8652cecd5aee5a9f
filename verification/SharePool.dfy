/** Shares of a lending market against its assets: the conversions and previews of
    `test-utils/typescript/lending/resolver.ts`, at the exchange price the resolver has worked out. */
module SharePool {
  import opened Common

  datatype PoolError = DivisionByZero | NotEnoughShares

  function ConvertToShares(price: nat, assets: nat): Result<nat, PoolError> {
    if price == 0 then Err(DivisionByZero) else Ok(assets * PRICES_PRECISION / price)
  }

  function ConvertToAssets(price: nat, shares: nat): nat {
    shares * price / PRICES_PRECISION
  }

  function PreviewDeposit(price: nat, assets: nat): Result<nat, PoolError> {
    ConvertToShares(price, assets)
  }

  /** Rounded up by adding one less than the divisor. */
  function PreviewMint(price: nat, shares: nat): nat {
    (shares * price + (PRICES_PRECISION - 1)) / PRICES_PRECISION
  }

  function PreviewWithdraw(price: nat, assets: nat): Result<nat, PoolError> {
    if price == 0 then Err(DivisionByZero) else Ok((assets * PRICES_PRECISION + (price - 1)) / price)
  }

  function PreviewRedeem(price: nat, shares: nat): nat {
    ConvertToAssets(price, shares)
  }

  function MinDeposit(price: nat): nat {
    Max(PreviewMint(price, 1), 1)
  }

  function TotalAssets(price: nat, shares: nat): nat {
    price * shares / PRICES_PRECISION
  }

  // ---------------------------------------------------------------- the previews against each other

  /** The quotient rounded down reaches `q` exactly when the dividend reaches `q` divisors. */
  lemma FloorReaches(a: nat, d: nat, q: nat)
    requires d > 0
    ensures a / d >= q <==> a >= q * d
  {
    var f := FloorDiv(a, d);
    if f >= q {
      MulAtMost(q, f, d);
    } else {
      MulAtMost(f + 1, q, d);
    }
  }

  /** The quotient rounded up stays within `q` exactly when the dividend stays within `q` divisors. */
  lemma CeilWithin(a: nat, d: nat, q: nat)
    requires d > 0
    ensures (a + (d - 1)) / d <= q <==> a <= q * d
  {
    FloorReaches(a + (d - 1), d, q + 1);
    assert (q + 1) * d == q * d + d;
  }

  /** A deposit gets at least `shares` exactly when it is at least what minting them costs; so no cheaper deposit gets
      them and no dearer mint is asked for. */
  lemma DepositMintAdjoint(price: nat, assets: nat, shares: nat)
    requires price > 0
    ensures PreviewDeposit(price, assets).value >= shares <==> PreviewMint(price, shares) <= assets
  {
    FloorReaches(assets * PRICES_PRECISION, price, shares);
    CeilWithin(shares * price, PRICES_PRECISION, assets);
  }

  /** Redeeming brings in at least `assets` exactly when it burns at least what withdrawing them takes. */
  lemma RedeemWithdrawAdjoint(price: nat, assets: nat, shares: nat)
    requires price > 0
    ensures PreviewRedeem(price, shares) >= assets <==> PreviewWithdraw(price, assets).value <= shares
  {
    FloorReaches(shares * price, PRICES_PRECISION, assets);
    CeilWithin(assets * PRICES_PRECISION, price, shares);
  }

  /** Every round trip through two previews favours the pool. */
  lemma RoundTripsFavourPool(price: nat, assets: nat, shares: nat)
    requires price > 0
    ensures PreviewMint(price, PreviewDeposit(price, assets).value) <= assets
    ensures PreviewDeposit(price, PreviewMint(price, shares)).value >= shares
    ensures PreviewWithdraw(price, PreviewRedeem(price, shares)).value <= shares
    ensures PreviewRedeem(price, PreviewWithdraw(price, assets).value) >= assets
    ensures PreviewRedeem(price, PreviewDeposit(price, assets).value) <= assets
    ensures PreviewWithdraw(price, PreviewMint(price, shares)).value >= shares
  {
    var bought, cost := PreviewDeposit(price, assets).value, PreviewMint(price, shares);
    var paid, burned := PreviewRedeem(price, shares), PreviewWithdraw(price, assets).value;
    hide PreviewDeposit, PreviewMint, PreviewWithdraw, PreviewRedeem;
    DepositMintAdjoint(price, assets, bought);
    DepositMintAdjoint(price, cost, shares);
    RedeemWithdrawAdjoint(price, paid, shares);
    RedeemWithdrawAdjoint(price, assets, burned);
    DownNotAboveUp(price, assets, bought);
    DownNotAboveUp(price, cost, shares);
  }

  /** What shares redeem for never exceeds what minting them costs. */
  lemma DownNotAboveUp(price: nat, assets: nat, shares: nat)
    requires price > 0
    ensures PreviewRedeem(price, shares) <= PreviewMint(price, shares)
    ensures PreviewMint(price, shares) <= assets ==> PreviewRedeem(price, shares) <= assets
    ensures PreviewDeposit(price, assets).value <= PreviewWithdraw(price, assets).value
    ensures PreviewDeposit(price, assets).value >= shares ==> PreviewWithdraw(price, assets).value >= shares
  {
    DivMonotone(shares * price, shares * price + (PRICES_PRECISION - 1), PRICES_PRECISION);
    DivMonotone(assets * PRICES_PRECISION, assets * PRICES_PRECISION + (price - 1), price);
  }

  /** The minimum deposit is the least that gets a share. */
  lemma MinDepositIsLeast(price: nat, assets: nat)
    requires price > 0
    ensures PreviewDeposit(price, assets).value >= 1 <==> assets >= MinDeposit(price)
  {
    hide PreviewDeposit;
    DepositMintAdjoint(price, assets, 1);
    CeilWithin(1 * price, PRICES_PRECISION, 0);
  }

  // ---------------------------------------------------------------- runs of operations

  datatype Pool = Pool(shares: nat, assets: int)

  datatype Operation = Deposit(assets: nat) | Mint(shares: nat) | Withdraw(assets: nat) | Redeem(shares: nat)

  /** An operation at the price of its preview. No more shares can be burned than there are. */
  function Operate(pool: Pool, price: nat, op: Operation): Result<Pool, PoolError> {
    match op
    case Deposit(assets) =>
      var shares :- PreviewDeposit(price, assets);
      Ok(Pool(pool.shares + shares, pool.assets + assets))
    case Mint(shares) =>
      Ok(Pool(pool.shares + shares, pool.assets + PreviewMint(price, shares)))
    case Withdraw(assets) =>
      var shares :- PreviewWithdraw(price, assets);
      if shares > pool.shares then Err(NotEnoughShares) else Ok(Pool(pool.shares - shares, pool.assets - assets))
    case Redeem(shares) =>
      if shares > pool.shares then Err(NotEnoughShares)
      else Ok(Pool(pool.shares - shares, pool.assets - PreviewRedeem(price, shares)))
  }

  function OperateAll(pool: Pool, price: nat, ops: seq<Operation>): Result<Pool, PoolError>
    decreases |ops|
  {
    if ops == [] then Ok(pool)
    else
      var next :- Operate(pool, price, ops[0]);
      OperateAll(next, price, ops[1..])
  }

  /** What the pool holds beyond the worth of its shares, in units of 1e-12 assets. */
  function Surplus(pool: Pool, price: nat): int {
    pool.assets * PRICES_PRECISION - pool.shares * price
  }

  lemma SurplusRises(pool: Pool, price: nat, shares: nat, assets: nat)
    ensures Surplus(Pool(pool.shares + shares, pool.assets + assets), price)
         == Surplus(pool, price) + assets * PRICES_PRECISION - shares * price
  {
  }

  lemma SurplusFalls(pool: Pool, price: nat, shares: nat, assets: nat)
    requires shares <= pool.shares
    ensures Surplus(Pool(pool.shares - shares, pool.assets - assets), price)
         == Surplus(pool, price) - assets * PRICES_PRECISION + shares * price
  {
  }

  /** A step never takes from the surplus, and rounding leaves less than one unit of the dearer side in it. */
  lemma StepKeepsSurplus(pool: Pool, price: nat, op: Operation)
    requires price > 0 && Operate(pool, price, op).Ok?
    ensures var next := Operate(pool, price, op).value;
            Surplus(pool, price) <= Surplus(next, price) < Surplus(pool, price) + Max(price, PRICES_PRECISION)
  {
    match op
    case Deposit(assets) =>
      hide Surplus;
      var shares := FloorDiv(assets * PRICES_PRECISION, price);
      SurplusRises(pool, price, shares, assets);
    case Mint(shares) =>
      hide Surplus;
      var cost := FloorDiv(shares * price + (PRICES_PRECISION - 1), PRICES_PRECISION);
      SurplusRises(pool, price, shares, cost);
    case Withdraw(assets) =>
      hide Surplus;
      var shares := FloorDiv(assets * PRICES_PRECISION + (price - 1), price);
      SurplusFalls(pool, price, shares, assets);
    case Redeem(shares) =>
      hide Surplus;
      var paid := FloorDiv(shares * price, PRICES_PRECISION);
      SurplusFalls(pool, price, shares, paid);
  }

  /** When an operation goes through: the price is not zero where it divides, and there are shares enough, for a withdrawal
      exactly those worth it. The side it names moves by what it names; the surplus bounds the other side. */
  lemma OperateExactly(pool: Pool, price: nat, op: Operation)
    ensures var r := Operate(pool, price, op);
            match op
            case Deposit(assets) => (r.Ok? <==> price > 0) && (r.Ok? ==> r.value.assets == pool.assets + assets)
            case Mint(shares) => r.Ok? && r.value.shares == pool.shares + shares
            case Withdraw(assets) =>
              && (r.Ok? <==> price > 0 && assets * PRICES_PRECISION <= pool.shares * price)
              && (r.Ok? ==> r.value.assets == pool.assets - assets)
            case Redeem(shares) => (r.Ok? <==> shares <= pool.shares) && (r.Ok? ==> r.value.shares == pool.shares - shares)
  {
    if op.Withdraw? && price > 0 {
      CeilWithin(op.assets * PRICES_PRECISION, price, pool.shares);
    }
  }

  /** Over any run of operations at one price the surplus does not fall, and grows by less than a unit an operation. */
  lemma {:induction false} RunKeepsSurplus(pool: Pool, price: nat, ops: seq<Operation>)
    requires price > 0 && OperateAll(pool, price, ops).Ok?
    ensures var end := OperateAll(pool, price, ops).value;
            Surplus(pool, price) <= Surplus(end, price) <= Surplus(pool, price) + |ops| * Max(price, PRICES_PRECISION)
    decreases |ops|
  {
    hide Operate, Surplus, Max;
    if ops != [] {
      StepKeepsSurplus(pool, price, ops[0]);
      RunKeepsSurplus(Operate(pool, price, ops[0]).value, price, ops[1..]);
      assert |ops| * Max(price, PRICES_PRECISION) == (|ops| - 1) * Max(price, PRICES_PRECISION) + Max(price, PRICES_PRECISION);
    }
  }

  /** A pool that starts solvent stays so: at every point its assets cover what all its shares would redeem for. */
  lemma RunSolvent(pool: Pool, price: nat, ops: seq<Operation>)
    requires price > 0 && OperateAll(pool, price, ops).Ok? && pool.shares * price <= pool.assets * PRICES_PRECISION
    ensures var end := OperateAll(pool, price, ops).value;
            && end.shares * price <= end.assets * PRICES_PRECISION
            && PreviewRedeem(price, end.shares) == TotalAssets(price, end.shares) <= end.assets
  {
    hide OperateAll;
    RunKeepsSurplus(pool, price, ops);
    var end := OperateAll(pool, price, ops).value;
    if end.assets < 0 {
      MulAtMost(end.assets, -1, PRICES_PRECISION);
    } else {
      DivMonotone(end.shares * price, end.assets * PRICES_PRECISION, PRICES_PRECISION);
      DivUnique(end.assets * PRICES_PRECISION, PRICES_PRECISION, end.assets);
    }
  }
}
