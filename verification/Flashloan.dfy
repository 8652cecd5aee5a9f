/** The flash loan program: `programs/flashloan/src/lib.rs`, `validate.rs` and `state/state.rs`. A borrow looks through
    the instructions of its own transaction for the payback that must follow it. */
module Flashloan {
  import opened Common

  type Pubkey = nat

  newtype Byte = x: int | 0 <= x < 256

  const MIN_FLASHLOAN_AMOUNT: nat := 1_000
  const FLASHLOAN_FEE_MAX: nat := 50
  const FLASHLOAN_STACK_HEIGHT: nat := 1
  const DEFAULT_PUBKEY: Pubkey := 0
  const LIQUIDITY_PROGRAM_ID: Pubkey := 1

  /** The first eight bytes of the hash of "global:" and the instruction's name. */
  const PAYBACK_DISCRIMINATOR: seq<Byte> := [213, 47, 153, 137, 84, 243, 94, 232]
  const BORROW_DISCRIMINATOR: seq<Byte> := [103, 19, 78, 24, 240, 9, 135, 63]
  const PAUSE_DISCRIMINATOR: seq<Byte> := [144, 95, 0, 107, 119, 39, 248, 141]
  const ACTIVATE_DISCRIMINATOR: seq<Byte> := [230, 235, 188, 19, 120, 91, 11, 94]
  const SET_FEE_DISCRIMINATOR: seq<Byte> := [120, 248, 221, 70, 84, 216, 0, 149]

  /** The accounts of the `Flashloan` context, in order: 14 of them, the borrow position at 5 and the vault at 7. */
  const ACCOUNTS_COUNT: nat := 14
  const BORROW_POSITION: nat := 5
  const VAULT: nat := 7

  datatype FlashloanError =
    | InvalidParams
    | FeeTooHigh
    | AlreadyActive
    | AlreadyInactive
    | Paused
    | CpiCallNotAllowed
    | CpiToLiquidityFailed
    | PaybackNotFound
    | MultiplePaybacksFound
    | InvalidInstruction
    | MathError
    | NotEnoughAccounts
    | Unauthorized

  /** What the rest of the chain does with a call: whether the calls it makes to Liquidity and the token program
      succeed, and whether the signer is the admin authority. */
  datatype Environment = Environment(liquiditySucceeds: bool, authorized: bool)

  /** A call into the flash loan program, by a transaction's instruction or from inside another program. */
  datatype Call = Call(accounts: seq<Pubkey>, data: seq<Byte>, env: Environment)

  /** An instruction of a transaction. One of another program carries the calls it makes into this one. */
  datatype Instruction = Instruction(programId: Pubkey, call: Call, inner: seq<Call>)

  type Transaction = seq<Instruction>

  /** `flashloan_admin` with, per borrow position, the debt owed to Liquidity, and per vault, the tokens this program has
      brought in less those it has taken out. */
  datatype State = State(status: bool, fee: nat, isActive: bool, activeAmount: nat, debt: map<Pubkey, int>,
                         received: map<Pubkey, int>)

  function Get(m: map<Pubkey, int>, k: Pubkey): int {
    if k in m then m[k] else 0
  }

  function Add(m: map<Pubkey, int>, k: Pubkey, amount: nat): map<Pubkey, int> {
    m[k := Get(m, k) + amount]
  }

  function Subtract(m: map<Pubkey, int>, k: Pubkey, amount: nat): map<Pubkey, int> {
    m[k := Get(m, k) - amount]
  }

  function InitCheck(authority: Pubkey, fee: nat, liquidityProgram: Pubkey): Result<(), FlashloanError> {
    if fee > FLASHLOAN_FEE_MAX then Err(FeeTooHigh)
    else if authority == DEFAULT_PUBKEY || liquidityProgram != LIQUIDITY_PROGRAM_ID then Err(InvalidParams)
    else Ok(())
  }

  // ---------------------------------------------------------------- instruction data

  /** `u64::from_le_bytes`. */
  function FromLeBytes(bytes: seq<Byte>): nat {
    if bytes == [] then 0 else bytes[0] as nat + 256 * FromLeBytes(bytes[1..])
  }

  predicate HasDiscriminator(data: seq<Byte>, discriminator: seq<Byte>) {
    |data| >= 8 && data[..8] == discriminator
  }

  function Amount(data: seq<Byte>): nat
    requires |data| >= 16
  {
    FromLeBytes(data[8..16])
  }

  /** Calls that decode as a borrow or a payback; the decoder tolerates trailing bytes. */
  predicate IsBorrow(call: Call) {
    |call.data| >= 16 && HasDiscriminator(call.data, BORROW_DISCRIMINATOR)
  }

  predicate IsPayback(call: Call) {
    |call.data| >= 16 && HasDiscriminator(call.data, PAYBACK_DISCRIMINATOR)
  }

  /** `u64::to_le_bytes`, for any number of bytes. */
  function ToLeBytes(n: nat, count: nat): (bytes: seq<Byte>)
    ensures |bytes| == count
    decreases count
  {
    if count == 0 then [] else [(n % 256) as Byte] + ToLeBytes(n / 256, count - 1)
  }

  function Bytes256(count: nat): nat {
    if count == 0 then 1 else 256 * Bytes256(count - 1)
  }

  lemma {:induction false} LeBytesRoundTrip(n: nat, count: nat)
    requires n < Bytes256(count)
    ensures FromLeBytes(ToLeBytes(n, count)) == n
    decreases count
  {
    if count > 0 {
      LeBytesRoundTrip(n / 256, count - 1);
      assert ToLeBytes(n, count)[1..] == ToLeBytes(n / 256, count - 1);
    }
  }

  /** The data a client builds for a borrow or a payback decodes as that call with that amount, whatever follows it. */
  lemma EncodedCalls(amount: nat, accounts: seq<Pubkey>, rest: seq<Byte>, env: Environment)
    requires amount <= U64_MAX
    ensures var data := BORROW_DISCRIMINATOR + ToLeBytes(amount, 8) + rest;
            IsBorrow(Call(accounts, data, env)) && !IsPayback(Call(accounts, data, env)) && Amount(data) == amount
    ensures var data := PAYBACK_DISCRIMINATOR + ToLeBytes(amount, 8) + rest;
            IsPayback(Call(accounts, data, env)) && !IsBorrow(Call(accounts, data, env)) && Amount(data) == amount
  {
    assert Bytes256(8) == U64_MAX + 1 by {
      assert Bytes256(4) == 0x1_0000_0000;
    }
    LeBytesRoundTrip(amount, 8);
    var bytes := ToLeBytes(amount, 8);
    assert PAYBACK_DISCRIMINATOR[0] != BORROW_DISCRIMINATOR[0];
    var borrow, payback := BORROW_DISCRIMINATOR + bytes + rest, PAYBACK_DISCRIMINATOR + bytes + rest;
    assert borrow[..8] == BORROW_DISCRIMINATOR && borrow[8..16] == bytes;
    assert payback[..8] == PAYBACK_DISCRIMINATOR && payback[8..16] == bytes;
  }

  /** Data too short for an amount, or of another discriminator, is neither. */
  lemma OtherCalls(call: Call)
    ensures |call.data| < 16 || call.data[..8] != [103, 19, 78, 24, 240, 9, 135, 63] ==> !IsBorrow(call)
    ensures |call.data| < 16 || call.data[..8] != [213, 47, 153, 137, 84, 243, 94, 232] ==> !IsPayback(call)
  {
  }

  /** What a borrow of `amount` on `accounts` accepts as its payback. */
  predicate MatchesPayback(ix: Instruction, amount: nat, accounts: seq<Pubkey>) {
    && |ix.call.data| == 16 && ix.call.accounts == accounts
    && HasDiscriminator(ix.call.data, PAYBACK_DISCRIMINATOR) && Amount(ix.call.data) == amount
  }

  method IsFlashloanPaybackInstruction(ix: Instruction, expectedAmount: nat, accounts: seq<Pubkey>) returns (b: bool)
    ensures b == MatchesPayback(ix, expectedAmount, accounts)
  {
    if |ix.call.data| != 16 {
      return false;
    }
    if |ix.call.accounts| != |accounts| {
      return false;
    }
    var i := 0;
    while i < |accounts|
      invariant 0 <= i <= |accounts|
      invariant ix.call.accounts[..i] == accounts[..i]
    {
      if ix.call.accounts[i] != accounts[i] {
        return false;
      }
      i := i + 1;
    }
    assert ix.call.accounts == ix.call.accounts[..i] && accounts == accounts[..i];
    if ix.call.data[0..8] != PAYBACK_DISCRIMINATOR {
      return false;
    }
    return Amount(ix.call.data) == expectedAmount;
  }

  // ---------------------------------------------------------------- looking for the payback

  /** The reverse scan over the instructions from `lo` up to `hi`, given whether a payback was found above them. */
  function ScanBack(flashloan: Pubkey, tx: Transaction, lo: nat, hi: nat, amount: nat, accounts: seq<Pubkey>,
                    found: bool): Result<bool, FlashloanError>
    requires hi <= |tx|
    decreases hi
  {
    if hi <= lo then Ok(found)
    else if tx[hi - 1].programId != flashloan then ScanBack(flashloan, tx, lo, hi - 1, amount, accounts, found)
    else if !MatchesPayback(tx[hi - 1], amount, accounts) then Err(InvalidInstruction)
    else if found then Err(MultiplePaybacksFound)
    else ScanBack(flashloan, tx, lo, hi - 1, amount, accounts, true)
  }

  function PaybackCheck(flashloan: Pubkey, tx: Transaction, index: nat, amount: nat, accounts: seq<Pubkey>)
    : Result<(), FlashloanError>
  {
    match ScanBack(flashloan, tx, index + 1, |tx|, amount, accounts, false)
    case Err(e) => Err(e)
    case Ok(found) => if found then Ok(()) else Err(PaybackNotFound)
  }

  method ValidatePaybackInstructionExists(flashloan: Pubkey, tx: Transaction, index: nat, amount: nat,
                                          accounts: seq<Pubkey>) returns (r: Result<(), FlashloanError>)
    ensures r == PaybackCheck(flashloan, tx, index, amount, accounts)
  {
    var i: nat := |tx|;
    var paybackFound := false;
    while i > index + 1
      invariant i <= |tx|
      invariant ScanBack(flashloan, tx, index + 1, i, amount, accounts, paybackFound)
             == ScanBack(flashloan, tx, index + 1, |tx|, amount, accounts, false)
    {
      i := i - 1;
      if tx[i].programId != flashloan {
        continue;
      }
      var matches := IsFlashloanPaybackInstruction(tx[i], amount, accounts);
      if !matches {
        return Err(InvalidInstruction);
      }
      if paybackFound {
        return Err(MultiplePaybacksFound);
      }
      paybackFound := true;
    }
    r := if paybackFound then Ok(()) else Err(PaybackNotFound);
  }

  /** Instruction `j` is the only one of the program from `lo` up to `hi`, and it is the payback. */
  ghost predicate OnlyPayback(flashloan: Pubkey, tx: Transaction, lo: nat, hi: nat, amount: nat, accounts: seq<Pubkey>,
                              j: nat)
    requires hi <= |tx|
  {
    && lo <= j < hi && tx[j].programId == flashloan && MatchesPayback(tx[j], amount, accounts)
    && forall k :: lo <= k < hi && k != j ==> tx[k].programId != flashloan
  }

  ghost predicate PaybackFollows(flashloan: Pubkey, tx: Transaction, lo: nat, hi: nat, amount: nat,
                                 accounts: seq<Pubkey>)
    requires hi <= |tx|
  {
    exists j: nat :: OnlyPayback(flashloan, tx, lo, hi, amount, accounts, j)
  }

  ghost predicate NoneOf(flashloan: Pubkey, tx: Transaction, lo: nat, hi: nat)
    requires hi <= |tx|
  {
    forall k :: lo <= k < hi ==> tx[k].programId != flashloan
  }

  lemma {:induction false} ScanBackMeaning(flashloan: Pubkey, tx: Transaction, lo: nat, hi: nat, amount: nat,
                                           accounts: seq<Pubkey>, found: bool)
    requires hi <= |tx|
    ensures var r := ScanBack(flashloan, tx, lo, hi, amount, accounts, found);
            && (found ==> (r == Ok(true) <==> NoneOf(flashloan, tx, lo, hi)))
            && (!found ==> (r == Ok(true) <==> PaybackFollows(flashloan, tx, lo, hi, amount, accounts)))
    decreases hi
  {
    if lo < hi {
      var ix := tx[hi - 1];
      if ix.programId != flashloan {
        ScanBackMeaning(flashloan, tx, lo, hi - 1, amount, accounts, found);
        if PaybackFollows(flashloan, tx, lo, hi - 1, amount, accounts) {
          var j: nat :| OnlyPayback(flashloan, tx, lo, hi - 1, amount, accounts, j);
          assert OnlyPayback(flashloan, tx, lo, hi, amount, accounts, j);
        }
        if PaybackFollows(flashloan, tx, lo, hi, amount, accounts) {
          var j: nat :| OnlyPayback(flashloan, tx, lo, hi, amount, accounts, j);
          assert OnlyPayback(flashloan, tx, lo, hi - 1, amount, accounts, j);
        }
      } else if MatchesPayback(ix, amount, accounts) && !found {
        ScanBackMeaning(flashloan, tx, lo, hi - 1, amount, accounts, true);
        if NoneOf(flashloan, tx, lo, hi - 1) {
          assert OnlyPayback(flashloan, tx, lo, hi, amount, accounts, hi - 1);
        }
      }
    }
  }

  /** A borrow is let through exactly when one later instruction is its payback and no other later instruction is of
      this program. */
  lemma PaybackCheckMeaning(flashloan: Pubkey, tx: Transaction, index: nat, amount: nat, accounts: seq<Pubkey>)
    ensures PaybackCheck(flashloan, tx, index, amount, accounts).Ok? <==>
            PaybackFollows(flashloan, tx, index + 1, |tx|, amount, accounts)
  {
    ScanBackMeaning(flashloan, tx, index + 1, |tx|, amount, accounts, false);
  }

  // ---------------------------------------------------------------- steps

  function PauseProtocol(s: State, authorized: bool): Result<State, FlashloanError> {
    if !authorized then Err(Unauthorized) else if !s.status then Err(InvalidParams) else Ok(s.(status := false))
  }

  function ActivateProtocol(s: State, authorized: bool): Result<State, FlashloanError> {
    if !authorized then Err(Unauthorized) else if s.status then Err(InvalidParams) else Ok(s.(status := true))
  }

  function SetFlashloanFee(s: State, fee: nat, authorized: bool): Result<State, FlashloanError> {
    if !authorized then Err(Unauthorized) else if fee > FLASHLOAN_FEE_MAX then Err(FeeTooHigh) else Ok(s.(fee := fee))
  }

  /** The fee, rounded up. */
  function FlashloanFee(fee: nat, amount: nat): nat {
    DivCeil(amount * fee, FOUR_DECIMALS)
  }

  /** `flashloan_borrow`, called with the stack at `height` while instruction `index` of `tx` runs. */
  function Borrow(flashloan: Pubkey, s: State, tx: Transaction, index: nat, height: nat, call: Call)
    : Result<State, FlashloanError>
    requires index < |tx| && |call.data| >= 16
  {
    var amount := Amount(call.data);
    if |call.accounts| < ACCOUNTS_COUNT then Err(NotEnoughAccounts)
    else
      var accounts := call.accounts[..ACCOUNTS_COUNT];
      if amount < MIN_FLASHLOAN_AMOUNT || tx[index].programId != flashloan then Err(InvalidParams)
      else if height > FLASHLOAN_STACK_HEIGHT then Err(CpiCallNotAllowed)
      else if PaybackCheck(flashloan, tx, index, amount, accounts).Err? then
        Err(PaybackCheck(flashloan, tx, index, amount, accounts).error)
      else if !s.status then Err(Paused)
      else if s.isActive then Err(AlreadyActive)
      else if !call.env.liquiditySucceeds then Err(CpiToLiquidityFailed)
      else Ok(s.(isActive := true, activeAmount := amount,
                 debt := Add(s.debt, accounts[BORROW_POSITION], amount),
                 received := Subtract(s.received, accounts[VAULT], amount)))
  }

  /** `flashloan_payback`. */
  function Payback(s: State, height: nat, call: Call): Result<State, FlashloanError>
    requires |call.data| >= 16
  {
    var amount := Amount(call.data);
    if |call.accounts| < ACCOUNTS_COUNT then Err(NotEnoughAccounts)
    else if amount < MIN_FLASHLOAN_AMOUNT || amount != s.activeAmount then Err(InvalidParams)
    else if height > FLASHLOAN_STACK_HEIGHT then Err(CpiCallNotAllowed)
    else if !s.status then Err(Paused)
    else if amount + FlashloanFee(s.fee, amount) > U64_MAX then Err(MathError)
    else if !call.env.liquiditySucceeds then Err(CpiToLiquidityFailed)
    else if !s.isActive then Err(AlreadyInactive)
    else Ok(s.(isActive := false, activeAmount := 0,
               debt := Subtract(s.debt, call.accounts[BORROW_POSITION], s.activeAmount),
               received := Add(s.received, call.accounts[VAULT], amount + FlashloanFee(s.fee, amount))))
  }

  /** Entry by discriminator. Calls to the other instructions of the program leave the modelled fields alone. */
  function Enter(flashloan: Pubkey, s: State, tx: Transaction, index: nat, height: nat, call: Call)
    : Result<State, FlashloanError>
    requires index < |tx|
  {
    if IsBorrow(call) then Borrow(flashloan, s, tx, index, height, call)
    else if IsPayback(call) then Payback(s, height, call)
    else if HasDiscriminator(call.data, PAUSE_DISCRIMINATOR) then PauseProtocol(s, call.env.authorized)
    else if HasDiscriminator(call.data, ACTIVATE_DISCRIMINATOR) then ActivateProtocol(s, call.env.authorized)
    else if HasDiscriminator(call.data, SET_FEE_DISCRIMINATOR) && |call.data| >= 10 then
      SetFlashloanFee(s, FromLeBytes(call.data[8..10]), call.env.authorized)
    else Ok(s)
  }

  /** The calls another program's instruction makes, one stack level down. */
  function EnterAll(flashloan: Pubkey, s: State, tx: Transaction, index: nat, calls: seq<Call>)
    : Result<State, FlashloanError>
    requires index < |tx|
    decreases |calls|
  {
    if calls == [] then Ok(s)
    else
      var next :- Enter(flashloan, s, tx, index, 2, calls[0]);
      EnterAll(flashloan, next, tx, index, calls[1..])
  }

  function Execute(flashloan: Pubkey, s: State, tx: Transaction, index: nat): Result<State, FlashloanError>
    requires index < |tx|
  {
    if tx[index].programId == flashloan then Enter(flashloan, s, tx, index, 1, tx[index].call)
    else EnterAll(flashloan, s, tx, index, tx[index].inner)
  }

  /** The instructions from `index` on. */
  function Run(flashloan: Pubkey, s: State, tx: Transaction, index: nat): Result<State, FlashloanError>
    requires index <= |tx|
    decreases |tx| - index
  {
    if index == |tx| then Ok(s)
    else
      var next :- Execute(flashloan, s, tx, index);
      Run(flashloan, next, tx, index + 1)
  }

  /** A transaction commits as a whole or not at all. */
  function Commit(flashloan: Pubkey, s: State, tx: Transaction): State {
    match Run(flashloan, s, tx, 0)
    case Ok(next) => next
    case Err(_) => s
  }

  function History(flashloan: Pubkey, s: State, txs: seq<Transaction>): State
    decreases |txs|
  {
    if txs == [] then s else History(flashloan, Commit(flashloan, s, txs[0]), txs[1..])
  }

  // ---------------------------------------------------------------- the program as an object

  class FlashloanProgram {
    const id: Pubkey
    var status: bool
    var fee: nat
    var isActive: bool
    var activeAmount: nat
    var debt: map<Pubkey, int>
    var received: map<Pubkey, int>

    function Current(): State
      reads this
    {
      State(status, fee, isActive, activeAmount, debt, received)
    }

    /** A new account: all zero, before `init`. */
    constructor (id: Pubkey)
      ensures this.id == id && Current() == State(false, 0, false, 0, map[], map[])
    {
      this.id := id;
      status, fee, isActive, activeAmount, debt, received := false, 0, false, 0, map[], map[];
    }

    /** `init`: active and with no loan, if the fee is within its maximum and the two keys are as they must be. */
    method Init(authority: Pubkey, flashloanFee: nat, liquidityProgram: Pubkey) returns (r: Result<(), FlashloanError>)
      modifies this
      ensures r == InitCheck(authority, flashloanFee, liquidityProgram)
      ensures Current() == if r.Ok? then old(Current()).(status := true, fee := flashloanFee) else old(Current())
    {
      if flashloanFee > FLASHLOAN_FEE_MAX {
        return Err(FeeTooHigh);
      }
      if liquidityProgram == DEFAULT_PUBKEY || authority == DEFAULT_PUBKEY {
        return Err(InvalidParams);
      }
      if liquidityProgram != LIQUIDITY_PROGRAM_ID {
        return Err(InvalidParams);
      }
      status := true;
      fee := flashloanFee;
      return Ok(());
    }

    method SetFlashloanAsActive(amount: nat) returns (ok: bool)
      modifies this
      ensures ok == !old(isActive)
      ensures Current() == if ok then old(Current()).(isActive := true, activeAmount := amount) else old(Current())
    {
      if isActive {
        return false;
      }
      isActive := true;
      activeAmount := amount;
      return true;
    }

    method SetFlashloanAsInactive() returns (ok: bool)
      modifies this
      ensures ok == old(isActive)
      ensures Current() == if ok then old(Current()).(isActive := false, activeAmount := 0) else old(Current())
    {
      if !isActive {
        return false;
      }
      isActive := false;
      activeAmount := 0;
      return true;
    }

    /** Errors leave the object in the middle of the instruction: undoing that is the transaction's business. */
    method FlashloanBorrow(tx: Transaction, index: nat, height: nat, call: Call) returns (r: Result<(), FlashloanError>)
      requires index < |tx| && |call.data| >= 16
      modifies this
      ensures match Borrow(id, old(Current()), tx, index, height, call)
              case Ok(next) => r == Ok(()) && Current() == next
              case Err(e) => r == Err(e)
    {
      var amount := Amount(call.data);
      if |call.accounts| < ACCOUNTS_COUNT {
        return Err(NotEnoughAccounts);
      }
      var accounts := call.accounts[..ACCOUNTS_COUNT];
      if amount < MIN_FLASHLOAN_AMOUNT {
        return Err(InvalidParams);
      }
      if tx[index].programId != id {
        return Err(InvalidParams);
      }
      if height > FLASHLOAN_STACK_HEIGHT {
        return Err(CpiCallNotAllowed);
      }
      var check := ValidatePaybackInstructionExists(id, tx, index, amount, accounts);
      if check.Err? {
        return Err(check.error);
      }
      if !status {
        return Err(Paused);
      }
      var activated := SetFlashloanAsActive(amount);
      if !activated {
        return Err(AlreadyActive);
      }
      if !call.env.liquiditySucceeds {
        return Err(CpiToLiquidityFailed);
      }
      debt := Add(debt, accounts[BORROW_POSITION], amount);
      received := Subtract(received, accounts[VAULT], amount);
      return Ok(());
    }

    method FlashloanPayback(height: nat, call: Call) returns (r: Result<(), FlashloanError>)
      requires |call.data| >= 16
      modifies this
      ensures match Payback(old(Current()), height, call)
              case Ok(next) => r == Ok(()) && Current() == next
              case Err(e) => r == Err(e)
    {
      var amount := Amount(call.data);
      if |call.accounts| < ACCOUNTS_COUNT {
        return Err(NotEnoughAccounts);
      }
      var active := activeAmount;
      if amount < MIN_FLASHLOAN_AMOUNT || amount != active {
        return Err(InvalidParams);
      }
      if height > FLASHLOAN_STACK_HEIGHT {
        return Err(CpiCallNotAllowed);
      }
      if !status {
        return Err(Paused);
      }
      var amountWithFee := amount + FlashloanFee(fee, amount);
      if amountWithFee > U64_MAX {
        return Err(MathError);
      }
      if !call.env.liquiditySucceeds {
        return Err(CpiToLiquidityFailed);
      }
      received := Add(received, call.accounts[VAULT], amountWithFee);
      debt := Subtract(debt, call.accounts[BORROW_POSITION], active);
      var deactivated := SetFlashloanAsInactive();
      return if deactivated then Ok(()) else Err(AlreadyInactive);
    }

    method EnterCall(tx: Transaction, index: nat, height: nat, call: Call) returns (r: Result<(), FlashloanError>)
      requires index < |tx|
      modifies this
      ensures match Enter(id, old(Current()), tx, index, height, call)
              case Ok(next) => r == Ok(()) && Current() == next
              case Err(e) => r == Err(e)
    {
      if IsBorrow(call) {
        r := FlashloanBorrow(tx, index, height, call);
      } else if IsPayback(call) {
        r := FlashloanPayback(height, call);
      } else if HasDiscriminator(call.data, PAUSE_DISCRIMINATOR) {
        if !call.env.authorized {
          return Err(Unauthorized);
        }
        if !status {
          return Err(InvalidParams);
        }
        status := false;
        return Ok(());
      } else if HasDiscriminator(call.data, ACTIVATE_DISCRIMINATOR) {
        if !call.env.authorized {
          return Err(Unauthorized);
        }
        if status {
          return Err(InvalidParams);
        }
        status := true;
        return Ok(());
      } else if HasDiscriminator(call.data, SET_FEE_DISCRIMINATOR) && |call.data| >= 10 {
        var newFee := FromLeBytes(call.data[8..10]);
        if !call.env.authorized {
          return Err(Unauthorized);
        }
        if newFee > FLASHLOAN_FEE_MAX {
          return Err(FeeTooHigh);
        }
        fee := newFee;
        return Ok(());
      } else {
        return Ok(());
      }
    }

    /** Runs a transaction, putting everything back when an instruction fails. */
    method RunTransaction(tx: Transaction)
      modifies this
      ensures Current() == Commit(id, old(Current()), tx)
    {
      ghost var before := Current();
      var status0, fee0, isActive0, activeAmount0, debt0, received0 := status, fee, isActive, activeAmount, debt, received;
      var i := 0;
      while i < |tx|
        invariant 0 <= i <= |tx|
        invariant Run(id, Current(), tx, i) == Run(id, before, tx, 0)
      {
        var failed := false;
        if tx[i].programId == id {
          var r := EnterCall(tx, i, 1, tx[i].call);
          failed := r.Err?;
        } else {
          var k := 0;
          ghost var start := Current();
          while k < |tx[i].inner|
            invariant 0 <= k <= |tx[i].inner|
            invariant EnterAll(id, Current(), tx, i, tx[i].inner[k..]) == EnterAll(id, start, tx, i, tx[i].inner)
          {
            var r := EnterCall(tx, i, 2, tx[i].inner[k]);
            if r.Err? {
              failed := true;
              break;
            }
            assert tx[i].inner[k..][1..] == tx[i].inner[k + 1..];
            k := k + 1;
          }
        }
        if failed {
          status, fee, isActive, activeAmount, debt, received := status0, fee0, isActive0, activeAmount0, debt0, received0;
          return;
        }
        i := i + 1;
      }
    }
  }
}
