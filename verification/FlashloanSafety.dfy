/** What the flash loan program guarantees over whole transactions and whole histories. */
module FlashloanSafety {
  import opened Common
  import opened Flashloan

  ghost predicate Idle(s: State) {
    !s.isActive && s.activeAmount == 0 && s.fee <= FLASHLOAN_FEE_MAX
  }

  /** `t` differs from `s` at most in the pause flag and in the fee, which stays within its bound. */
  ghost predicate SameLoan(s: State, t: State) {
    && t.isActive == s.isActive && t.activeAmount == s.activeAmount && t.debt == s.debt && t.received == s.received
    && (s.fee <= FLASHLOAN_FEE_MAX ==> t.fee <= FLASHLOAN_FEE_MAX)
  }

  predicate TopBorrow(flashloan: Pubkey, ix: Instruction) {
    ix.programId == flashloan && IsBorrow(ix.call)
  }

  predicate TopPayback(flashloan: Pubkey, ix: Instruction) {
    ix.programId == flashloan && IsPayback(ix.call)
  }

  ghost predicate SameBalances(m: map<Pubkey, int>, n: map<Pubkey, int>) {
    forall k :: Get(n, k) == Get(m, k)
  }

  ghost predicate NoLoan(flashloan: Pubkey, s: State, t: State, tx: Transaction, lo: nat) {
    && t.received == s.received
    && forall k :: lo <= k < |tx| ==> !TopBorrow(flashloan, tx[k]) && !TopPayback(flashloan, tx[k])
  }

  /** `gain` is the fee of `fee` basis points on `amount`, rounded up. */
  ghost predicate FeeOn(fee: nat, amount: nat, gain: nat) {
    fee * amount <= gain * FOUR_DECIMALS < fee * amount + FOUR_DECIMALS
  }

  /** The state in which instruction `end` runs. */
  function Until(flashloan: Pubkey, s: State, tx: Transaction, index: nat, end: nat): Result<State, FlashloanError>
    requires index <= end <= |tx|
    decreases end - index
  {
    if index == end then Ok(s)
    else
      var next :- Execute(flashloan, s, tx, index);
      Until(flashloan, next, tx, index + 1, end)
  }

  /** The fee in force when instruction `j` runs. */
  ghost predicate FeeAt(flashloan: Pubkey, s: State, tx: Transaction, index: nat, j: nat, fee: nat) {
    index <= j <= |tx| && Until(flashloan, s, tx, index, j).Ok? && Until(flashloan, s, tx, index, j).value.fee == fee
  }

  /** From `lo` on, instruction `i` is the only borrow and `j` the only payback: the same amount on the same accounts,
      with nothing else of the program after `i`. The borrower's vault ends up ahead by the fee in force at the payback, and
      no other vault moves. */
  ghost predicate OneLoan(flashloan: Pubkey, s: State, t: State, tx: Transaction, lo: nat, i: nat, j: nat, fee: nat) {
    && lo <= i < j < |tx| && fee <= FLASHLOAN_FEE_MAX && FeeAt(flashloan, s, tx, lo, j, fee)
    && TopBorrow(flashloan, tx[i]) && TopPayback(flashloan, tx[j])
    && Amount(tx[j].call.data) == Amount(tx[i].call.data) >= MIN_FLASHLOAN_AMOUNT
    && |tx[i].call.accounts| >= ACCOUNTS_COUNT && tx[j].call.accounts == tx[i].call.accounts[..ACCOUNTS_COUNT]
    && (forall k :: lo <= k < i ==> !TopBorrow(flashloan, tx[k]) && !TopPayback(flashloan, tx[k]))
    && (forall k :: i < k < |tx| && k != j ==> tx[k].programId != flashloan)
    && (forall k :: k != tx[i].call.accounts[VAULT] ==> Get(t.received, k) == Get(s.received, k))
    && var gain := Get(t.received, tx[i].call.accounts[VAULT]) - Get(s.received, tx[i].call.accounts[VAULT]);
       gain >= 0 && FeeOn(fee, Amount(tx[i].call.data), gain)
  }

  // ---------------------------------------------------------------- one call at a time

  /** Neither a borrow nor a payback gets through from inside another program. */
  lemma CallKeepsLoan(flashloan: Pubkey, s: State, tx: Transaction, index: nat, height: nat, call: Call)
    requires index < |tx|
    requires height > FLASHLOAN_STACK_HEIGHT || (!IsBorrow(call) && !IsPayback(call))
    ensures var r := Enter(flashloan, s, tx, index, height, call);
            r.Ok? ==> SameLoan(s, r.value) && !IsBorrow(call) && !IsPayback(call)
  {
    hide PaybackCheck, FromLeBytes;
  }

  lemma {:induction false} InnerCallsKeepLoan(flashloan: Pubkey, s: State, tx: Transaction, index: nat, calls: seq<Call>)
    requires index < |tx|
    ensures var r := EnterAll(flashloan, s, tx, index, calls); r.Ok? ==> SameLoan(s, r.value)
    decreases |calls|
  {
    hide Enter;
    if calls != [] {
      CallKeepsLoan(flashloan, s, tx, index, 2, calls[0]);
      var next := Enter(flashloan, s, tx, index, 2, calls[0]);
      if next.Ok? {
        InnerCallsKeepLoan(flashloan, next.value, tx, index, calls[1..]);
      }
    }
  }

  /** A step that is neither a borrow nor a payback of the program leaves the loan alone. */
  lemma StepKeepsLoan(flashloan: Pubkey, s: State, tx: Transaction, index: nat)
    requires index < |tx| && !TopBorrow(flashloan, tx[index]) && !TopPayback(flashloan, tx[index])
    ensures var r := Execute(flashloan, s, tx, index); r.Ok? ==> SameLoan(s, r.value)
  {
    hide Enter, EnterAll;
    if tx[index].programId == flashloan {
      CallKeepsLoan(flashloan, s, tx, index, 1, tx[index].call);
    } else {
      InnerCallsKeepLoan(flashloan, s, tx, index, tx[index].inner);
    }
  }

  // ---------------------------------------------------------------- runs

  lemma {:induction false} QuietRun(flashloan: Pubkey, s: State, tx: Transaction, index: nat)
    requires index <= |tx| && NoneOf(flashloan, tx, index, |tx|)
    ensures var r := Run(flashloan, s, tx, index); r.Ok? ==> SameLoan(s, r.value)
    decreases |tx| - index
  {
    hide Execute;
    if index < |tx| {
      StepKeepsLoan(flashloan, s, tx, index);
      var next := Execute(flashloan, s, tx, index);
      if next.Ok? {
        QuietRun(flashloan, next.value, tx, index + 1);
      }
    }
  }

  /** A payback that succeeds: the loan is closed, its debt is paid off, and the vault gets the amount and a fee. */
  ghost predicate Repaid(s: State, t: State, amount: nat, accounts: seq<Pubkey>, fee: nat)
    requires |accounts| == ACCOUNTS_COUNT
  {
    && !t.isActive && t.activeAmount == 0 && fee <= FLASHLOAN_FEE_MAX && t.fee <= FLASHLOAN_FEE_MAX
    && t.debt == Subtract(s.debt, accounts[BORROW_POSITION], amount)
    && var gain := Get(t.received, accounts[VAULT]) - Get(s.received, accounts[VAULT]) - amount;
       gain >= 0 && FeeOn(fee, amount, gain) && t.received == Add(s.received, accounts[VAULT], amount + gain)
  }

  lemma FeeIs(fee: nat, amount: nat)
    ensures FeeOn(fee, amount, FlashloanFee(fee, amount))
  {
  }

  lemma PaybackStep(flashloan: Pubkey, s: State, tx: Transaction, index: nat)
    requires index < |tx| && TopPayback(flashloan, tx[index]) && s.fee <= FLASHLOAN_FEE_MAX
    requires |tx[index].call.accounts| == ACCOUNTS_COUNT
    ensures var r := Execute(flashloan, s, tx, index);
            r.Ok? ==> s.isActive && Repaid(s, r.value, s.activeAmount, tx[index].call.accounts, s.fee)
  {
    FeeIs(s.fee, s.activeAmount);
    hide FromLeBytes, FlashloanFee;
    assert !IsBorrow(tx[index].call) by {
      assert PAYBACK_DISCRIMINATOR[0] != BORROW_DISCRIMINATOR[0];
    }
  }

  lemma {:induction false} RepaidRun(flashloan: Pubkey, s: State, tx: Transaction, index: nat, accounts: seq<Pubkey>,
                                     j: nat) returns (fee: nat)
    requires index <= |tx| && |accounts| == ACCOUNTS_COUNT && s.fee <= FLASHLOAN_FEE_MAX
    requires OnlyPayback(flashloan, tx, index, |tx|, s.activeAmount, accounts, j)
    ensures var r := Run(flashloan, s, tx, index);
            r.Ok? ==> Repaid(s, r.value, s.activeAmount, accounts, fee) && FeeAt(flashloan, s, tx, index, j, fee)
    decreases |tx| - index
  {
    hide Execute, FlashloanFee, FromLeBytes, FeeOn;
    fee := 0;
    var next := Execute(flashloan, s, tx, index);
    if next.Ok? {
      if index == j {
        PaybackStep(flashloan, s, tx, index);
        fee := s.fee;
        QuietRun(flashloan, next.value, tx, index + 1);
      } else {
        StepKeepsLoan(flashloan, s, tx, index);
        fee := RepaidRun(flashloan, next.value, tx, index + 1, accounts, j);
      }
    }
  }

  /** When an instruction that borrows gets through: every check, and nothing else, decides. */
  lemma BorrowExactly(flashloan: Pubkey, s: State, tx: Transaction, index: nat)
    requires index < |tx| && TopBorrow(flashloan, tx[index])
    ensures var call := tx[index].call;
            Execute(flashloan, s, tx, index).Ok? <==>
              && |call.accounts| >= ACCOUNTS_COUNT && Amount(call.data) >= MIN_FLASHLOAN_AMOUNT
              && PaybackFollows(flashloan, tx, index + 1, |tx|, Amount(call.data), call.accounts[..ACCOUNTS_COUNT])
              && s.status && !s.isActive && call.env.liquiditySucceeds
  {
    hide FromLeBytes, PaybackCheck;
    var call := tx[index].call;
    if |call.accounts| >= ACCOUNTS_COUNT {
      PaybackCheckMeaning(flashloan, tx, index, Amount(call.data), call.accounts[..ACCOUNTS_COUNT]);
    }
  }

  /** When an instruction that pays back gets through. */
  lemma PaybackExactly(flashloan: Pubkey, s: State, tx: Transaction, index: nat, gain: nat)
    requires index < |tx| && TopPayback(flashloan, tx[index]) && FeeOn(s.fee, s.activeAmount, gain)
    ensures var call := tx[index].call;
            Execute(flashloan, s, tx, index).Ok? <==>
              && |call.accounts| >= ACCOUNTS_COUNT && Amount(call.data) == s.activeAmount >= MIN_FLASHLOAN_AMOUNT
              && s.status && s.isActive && s.activeAmount + gain <= U64_MAX && call.env.liquiditySucceeds
  {
    FeeIs(s.fee, s.activeAmount);
    FeeUnique(s.fee, s.activeAmount, gain, FlashloanFee(s.fee, s.activeAmount));
    hide FromLeBytes, FlashloanFee;
    assert !IsBorrow(tx[index].call) by {
      assert PAYBACK_DISCRIMINATOR[0] != BORROW_DISCRIMINATOR[0];
    }
  }

  lemma FeeUnique(fee: nat, amount: nat, gain: nat, other: nat)
    requires FeeOn(fee, amount, gain) && FeeOn(fee, amount, other)
    ensures gain == other
  {
  }

  /** What a borrow that gets through has established. */
  lemma BorrowStep(flashloan: Pubkey, s: State, tx: Transaction, index: nat)
    requires index < |tx| && TopBorrow(flashloan, tx[index])
    requires Execute(flashloan, s, tx, index).Ok?
    ensures var call := tx[index].call;
            var amount := Amount(call.data);
            && |call.accounts| >= ACCOUNTS_COUNT && amount >= MIN_FLASHLOAN_AMOUNT
            && PaybackFollows(flashloan, tx, index + 1, |tx|, amount, call.accounts[..ACCOUNTS_COUNT])
            && Execute(flashloan, s, tx, index).value
            == s.(isActive := true, activeAmount := amount,
                  debt := Add(s.debt, call.accounts[BORROW_POSITION], amount),
                  received := Subtract(s.received, call.accounts[VAULT], amount))
  {
    hide FromLeBytes, PaybackCheck;
    var call := tx[index].call;
    if |call.accounts| >= ACCOUNTS_COUNT {
      PaybackCheckMeaning(flashloan, tx, index, Amount(call.data), call.accounts[..ACCOUNTS_COUNT]);
    }
  }

  /** There is nothing to pay back while idle. */
  lemma IdlePaybackFails(flashloan: Pubkey, s: State, tx: Transaction, index: nat)
    requires index < |tx| && TopPayback(flashloan, tx[index]) && s.activeAmount == 0
    ensures Execute(flashloan, s, tx, index).Err?
  {
    hide FromLeBytes, PaybackCheck;
    assert !IsBorrow(tx[index].call) by {
      assert PAYBACK_DISCRIMINATOR[0] != BORROW_DISCRIMINATOR[0];
    }
  }

  lemma LoanRoundTrip(flashloan: Pubkey, s: State, t: State, tx: Transaction, index: nat)
    requires index < |tx| && Idle(s) && TopBorrow(flashloan, tx[index]) && Run(flashloan, s, tx, index) == Ok(t)
    ensures Idle(t) && SameBalances(s.debt, t.debt)
    ensures exists j: nat, fee: nat :: OneLoan(flashloan, s, t, tx, index, index, j, fee)
  {
    hide Execute, FlashloanFee, FromLeBytes, PaybackFollows;
    BorrowStep(flashloan, s, tx, index);
    var next := Execute(flashloan, s, tx, index).value;
    var call := tx[index].call;
    var amount, accounts := Amount(call.data), call.accounts[..ACCOUNTS_COUNT];
    var j: nat := PaybackIndex(flashloan, tx, index + 1, amount, accounts);
    var fee := RepaidRun(flashloan, next, tx, index + 1, accounts, j);
    assert Repaid(next, t, amount, accounts, fee);
    assert OneLoan(flashloan, s, t, tx, index, index, j, fee);
  }

  ghost function PaybackIndex(flashloan: Pubkey, tx: Transaction, lo: nat, amount: nat, accounts: seq<Pubkey>): (j: nat)
    requires PaybackFollows(flashloan, tx, lo, |tx|, amount, accounts)
    ensures OnlyPayback(flashloan, tx, lo, |tx|, amount, accounts, j)
  {
    var j: nat :| OnlyPayback(flashloan, tx, lo, |tx|, amount, accounts, j);
    j
  }

  /** Every run that gets to its end from an idle state ends idle with the debt at Liquidity as it was. It either made no
      loan and moved no token, or made exactly one loan, which was paid back with its fee. */
  lemma {:induction false} CommittedTransactionSafe(flashloan: Pubkey, s: State, t: State, tx: Transaction, index: nat)
    requires index <= |tx| && Idle(s) && Run(flashloan, s, tx, index) == Ok(t)
    ensures Idle(t) && SameBalances(s.debt, t.debt)
    ensures || NoLoan(flashloan, s, t, tx, index)
            || exists i: nat, j: nat, fee: nat :: OneLoan(flashloan, s, t, tx, index, i, j, fee)
    decreases |tx| - index
  {
    hide Execute, FlashloanFee, FromLeBytes, IsBorrow, IsPayback;
    if index < |tx| {
      var next := Execute(flashloan, s, tx, index).value;
      if TopPayback(flashloan, tx[index]) {
        IdlePaybackFails(flashloan, s, tx, index);
        assert false;
      } else if TopBorrow(flashloan, tx[index]) {
        LoanRoundTrip(flashloan, s, t, tx, index);
        var j: nat, fee: nat :| OneLoan(flashloan, s, t, tx, index, index, j, fee);
      } else {
        StepKeepsLoan(flashloan, s, tx, index);
        CommittedTransactionSafe(flashloan, next, t, tx, index + 1);
        if !NoLoan(flashloan, next, t, tx, index + 1) {
          var i: nat, j: nat, fee: nat :| OneLoan(flashloan, next, t, tx, index + 1, i, j, fee);
          assert OneLoan(flashloan, s, t, tx, index, i, j, fee);
        }
      }
    }
  }

  // ---------------------------------------------------------------- the fee and the pause

  predicate SetsFee(call: Call) {
    HasDiscriminator(call.data, SET_FEE_DISCRIMINATOR)
  }

  predicate Activates(call: Call) {
    HasDiscriminator(call.data, ACTIVATE_DISCRIMINATOR)
  }

  /** No call into the program from instructions `lo` to `hi`, direct or from another program, is one of `bad`. */
  ghost predicate NoCall(flashloan: Pubkey, tx: Transaction, lo: nat, hi: nat, bad: Call -> bool)
    requires hi <= |tx|
  {
    forall k :: lo <= k < hi ==>
      if tx[k].programId == flashloan then !bad(tx[k].call) else forall call :: call in tx[k].inner ==> !bad(call)
  }

  lemma EnterKeeps(flashloan: Pubkey, s: State, tx: Transaction, index: nat, height: nat, call: Call)
    requires index < |tx| && Enter(flashloan, s, tx, index, height, call).Ok?
    ensures !SetsFee(call) ==> Enter(flashloan, s, tx, index, height, call).value.fee == s.fee
    ensures !Activates(call) && !s.status ==> !Enter(flashloan, s, tx, index, height, call).value.status
  {
    hide PaybackCheck, FromLeBytes, FlashloanFee;
  }

  lemma {:induction false} EnterAllKeeps(flashloan: Pubkey, s: State, tx: Transaction, index: nat, calls: seq<Call>)
    requires index < |tx| && EnterAll(flashloan, s, tx, index, calls).Ok?
    ensures var t := EnterAll(flashloan, s, tx, index, calls).value;
            && ((forall call :: call in calls ==> !SetsFee(call)) ==> t.fee == s.fee)
            && ((forall call :: call in calls ==> !Activates(call)) && !s.status ==> !t.status)
    decreases |calls|
  {
    hide Enter, SetsFee, Activates;
    if calls != [] {
      EnterKeeps(flashloan, s, tx, index, 2, calls[0]);
      EnterAllKeeps(flashloan, Enter(flashloan, s, tx, index, 2, calls[0]).value, tx, index, calls[1..]);
    }
  }

  lemma ExecuteKeeps(flashloan: Pubkey, s: State, tx: Transaction, index: nat)
    requires index < |tx| && Execute(flashloan, s, tx, index).Ok?
    ensures var t := Execute(flashloan, s, tx, index).value;
            && (NoCall(flashloan, tx, index, index + 1, SetsFee) ==> t.fee == s.fee)
            && (NoCall(flashloan, tx, index, index + 1, Activates) && !s.status ==> !t.status)
  {
    hide Enter, EnterAll, SetsFee, Activates;
    if tx[index].programId == flashloan {
      EnterKeeps(flashloan, s, tx, index, 1, tx[index].call);
    } else {
      EnterAllKeeps(flashloan, s, tx, index, tx[index].inner);
    }
  }

  /** The fee in force is the one from before as long as nothing sets it. */
  lemma {:induction false} FeeKept(flashloan: Pubkey, s: State, tx: Transaction, index: nat, j: nat)
    requires index <= j <= |tx| && NoCall(flashloan, tx, index, j, SetsFee) && Until(flashloan, s, tx, index, j).Ok?
    ensures FeeAt(flashloan, s, tx, index, j, s.fee)
    decreases j - index
  {
    hide Execute, SetsFee;
    if index < j {
      ExecuteKeeps(flashloan, s, tx, index);
      FeeKept(flashloan, Execute(flashloan, s, tx, index).value, tx, index + 1, j);
    }
  }

  /** A loan in a transaction that sets no fee costs the fee the transaction started with. */
  lemma LoanCostsCurrentFee(flashloan: Pubkey, s: State, t: State, tx: Transaction, i: nat, j: nat, fee: nat)
    requires OneLoan(flashloan, s, t, tx, 0, i, j, fee) && NoCall(flashloan, tx, 0, |tx|, SetsFee)
    ensures var vault := tx[i].call.accounts[VAULT];
            var gain := Get(t.received, vault) - Get(s.received, vault);
            gain >= 0 && FeeOn(s.fee, Amount(tx[i].call.data), gain)
  {
    hide FeeOn, SetsFee;
    FeeKept(flashloan, s, tx, 0, j);
  }

  /** While the program is paused and nothing activates it, no run to its end makes a loan or moves a token. */
  lemma {:induction false} PausedLendsNothing(flashloan: Pubkey, s: State, t: State, tx: Transaction, index: nat)
    requires index <= |tx| && !s.status && NoCall(flashloan, tx, index, |tx|, Activates)
    requires Run(flashloan, s, tx, index) == Ok(t)
    ensures NoLoan(flashloan, s, t, tx, index) && t.debt == s.debt && !t.status
    decreases |tx| - index
  {
    hide Execute, Activates, TopBorrow, TopPayback;
    if index < |tx| {
      var next := Execute(flashloan, s, tx, index).value;
      ExecuteKeeps(flashloan, s, tx, index);
      PausedStep(flashloan, s, tx, index);
      PausedLendsNothing(flashloan, next, t, tx, index + 1);
    }
  }

  lemma PausedStep(flashloan: Pubkey, s: State, tx: Transaction, index: nat)
    requires index < |tx| && !s.status && Execute(flashloan, s, tx, index).Ok?
    ensures !TopBorrow(flashloan, tx[index]) && !TopPayback(flashloan, tx[index])
    ensures SameLoan(s, Execute(flashloan, s, tx, index).value)
  {
    hide Execute, FeeOn;
    if TopBorrow(flashloan, tx[index]) {
      BorrowExactly(flashloan, s, tx, index);
    } else if TopPayback(flashloan, tx[index]) {
      FeeIs(s.fee, s.activeAmount);
      PaybackExactly(flashloan, s, tx, index, FlashloanFee(s.fee, s.activeAmount));
    } else {
      StepKeepsLoan(flashloan, s, tx, index);
    }
  }

  /** The three calls of the authority that matter here: when each gets through, and that it does what it is for. */
  lemma AuthorityCalls(flashloan: Pubkey, s: State, tx: Transaction, index: nat, height: nat, call: Call)
    requires index < |tx| && |call.data| >= 10
    ensures var r := Enter(flashloan, s, tx, index, height, call);
            && (HasDiscriminator(call.data, PAUSE_DISCRIMINATOR) ==>
                  (r.Ok? <==> call.env.authorized && s.status) && (r.Ok? ==> SameLoan(s, r.value) && !r.value.status && r.value.fee == s.fee))
            && (Activates(call) ==>
                  (r.Ok? <==> call.env.authorized && !s.status) && (r.Ok? ==> SameLoan(s, r.value) && r.value.status && r.value.fee == s.fee))
            && (SetsFee(call) ==>
                  var fee := FromLeBytes(call.data[8..10]);
                  (r.Ok? <==> call.env.authorized && fee <= FLASHLOAN_FEE_MAX)
                  && (r.Ok? ==> SameLoan(s, r.value) && r.value.status == s.status && r.value.fee == fee))
  {
    hide PaybackCheck, FromLeBytes, FlashloanFee;
    assert PAUSE_DISCRIMINATOR[0] != BORROW_DISCRIMINATOR[0] && PAUSE_DISCRIMINATOR[0] != PAYBACK_DISCRIMINATOR[0];
    assert ACTIVATE_DISCRIMINATOR[0] != BORROW_DISCRIMINATOR[0] && ACTIVATE_DISCRIMINATOR[0] != PAYBACK_DISCRIMINATOR[0];
    assert SET_FEE_DISCRIMINATOR[0] != BORROW_DISCRIMINATOR[0] && SET_FEE_DISCRIMINATOR[0] != PAYBACK_DISCRIMINATOR[0];
    assert ACTIVATE_DISCRIMINATOR[0] != PAUSE_DISCRIMINATOR[0] && SET_FEE_DISCRIMINATOR[0] != PAUSE_DISCRIMINATOR[0];
    assert SET_FEE_DISCRIMINATOR[0] != ACTIVATE_DISCRIMINATOR[0];
  }

  // ---------------------------------------------------------------- histories

  /** A history is its transactions one after the other, each committed or rolled back. */
  lemma {:induction false} HistorySplits(flashloan: Pubkey, s: State, txs: seq<Transaction>, tx: Transaction)
    ensures History(flashloan, s, []) == s
    ensures History(flashloan, s, txs + [tx]) == Commit(flashloan, History(flashloan, s, txs), tx)
    decreases |txs|
  {
    hide Commit;
    if txs == [] {
      assert txs + [tx] == [tx];
      assert History(flashloan, Commit(flashloan, s, tx), []) == Commit(flashloan, s, tx);
    } else {
      assert (txs + [tx])[1..] == txs[1..] + [tx];
      HistorySplits(flashloan, Commit(flashloan, s, txs[0]), txs[1..], tx);
    }
  }

  /** Over any history of transactions, committed or rolled back: idle at every boundary, the debt never changes, and no
      vault is ever short. */
  lemma {:induction false} HistorySafe(flashloan: Pubkey, s: State, txs: seq<Transaction>)
    requires Idle(s)
    ensures var t := History(flashloan, s, txs);
            Idle(t) && SameBalances(s.debt, t.debt) && forall k :: Get(t.received, k) >= Get(s.received, k)
    decreases |txs|
  {
    hide Run, FlashloanFee;
    if txs != [] {
      var next := Commit(flashloan, s, txs[0]);
      if Run(flashloan, s, txs[0], 0).Ok? {
        CommittedTransactionSafe(flashloan, s, next, txs[0], 0);
      }
      HistorySafe(flashloan, next, txs[1..]);
    }
  }

  /** From `init` on, with no debt and whatever the history: no loan is open at any boundary, nothing is owed to Liquidity,
      no vault is short, and the fee is within its maximum. */
  lemma SafeFromInit(flashloan: Pubkey, authority: Pubkey, fee: nat, liquidityProgram: Pubkey, txs: seq<Transaction>)
    requires InitCheck(authority, fee, liquidityProgram).Ok?
    ensures var t := History(flashloan, State(true, fee, false, 0, map[], map[]), txs);
            Idle(t) && forall k :: Get(t.debt, k) == 0 && Get(t.received, k) >= 0
  {
    hide History;
    HistorySafe(flashloan, State(true, fee, false, 0, map[], map[]), txs);
  }

  // ---------------------------------------------------------------- loans that do go through

  /** Instructions of other programs that do not call into this one. */
  ghost predicate Foreign(flashloan: Pubkey, tx: Transaction, lo: nat, hi: nat)
    requires hi <= |tx|
  {
    forall k :: lo <= k < hi ==> tx[k].programId != flashloan && tx[k].inner == []
  }

  lemma {:induction false} ForeignRun(flashloan: Pubkey, s: State, tx: Transaction, lo: nat, hi: nat)
    requires lo <= hi <= |tx| && Foreign(flashloan, tx, lo, hi)
    ensures Run(flashloan, s, tx, lo) == Run(flashloan, s, tx, hi)
    decreases hi - lo
  {
    if lo < hi {
      ForeignRun(flashloan, s, tx, lo + 1, hi);
    }
  }

  /** From an idle, unpaused state a borrow of at least the minimum with its payback in the same transaction commits,
      whatever the program's own accounts, provided Liquidity cooperates and the amount with fee fits 64 bits. */
  lemma WellFormedLoanCommits(flashloan: Pubkey, s: State, tx: Transaction, i: nat, j: nat)
    requires Idle(s) && s.status && i < j < |tx|
    requires TopBorrow(flashloan, tx[i]) && tx[i].call.env.liquiditySucceeds && tx[j].call.env.liquiditySucceeds
    requires |tx[i].call.accounts| >= ACCOUNTS_COUNT && tx[j].programId == flashloan
    requires MatchesPayback(tx[j], Amount(tx[i].call.data), tx[i].call.accounts[..ACCOUNTS_COUNT])
    requires var amount := Amount(tx[i].call.data);
             amount >= MIN_FLASHLOAN_AMOUNT && amount + FlashloanFee(s.fee, amount) <= U64_MAX
    requires Foreign(flashloan, tx, 0, i) && Foreign(flashloan, tx, i + 1, j) && Foreign(flashloan, tx, j + 1, |tx|)
    ensures Run(flashloan, s, tx, 0).Ok?
  {
    hide FromLeBytes, FlashloanFee, PaybackCheck, ScanBack;
    var call := tx[i].call;
    var amount, accounts := Amount(call.data), call.accounts[..ACCOUNTS_COUNT];
    assert OnlyPayback(flashloan, tx, i + 1, |tx|, amount, accounts, j);
    PaybackCheckMeaning(flashloan, tx, i, amount, accounts);
    ForeignRun(flashloan, s, tx, 0, i);
    assert Execute(flashloan, s, tx, i).Ok?;
    var lent := Execute(flashloan, s, tx, i).value;
    ForeignRun(flashloan, lent, tx, i + 1, j);
    assert !IsBorrow(tx[j].call) by {
      assert PAYBACK_DISCRIMINATOR[0] != BORROW_DISCRIMINATOR[0];
    }
    assert Execute(flashloan, lent, tx, j).Ok?;
    var repaid := Execute(flashloan, lent, tx, j).value;
    ForeignRun(flashloan, repaid, tx, j + 1, |tx|);
  }
}
