/** How a list of price sources is cut into groups: by the check that accepts it (`programs/oracle/src/lib.rs`,
    `modules/single_pool.rs`, `modules/jup_lend.rs`) and by the loader (`programs/oracle/src/helper.rs`). */
module OracleSources {
  import opened Common

  type Pubkey = nat

  const DEFAULT_PUBKEY: Pubkey := 0
  const STAKE_PROGRAM: Pubkey := 1
  const MAX_SOURCES: nat := 4
  const SINGLE_POOL_ACCOUNTS_COUNT: nat := 3
  const JUP_LEND_ACCOUNTS_COUNT: nat := 4
  const MAX_DIVISOR: nat := 10_000_000_000
  const MAX_MULTIPLIER: nat := 10_000_000_000

  /** `IndexOutOfRange` and `Overflow` are panics. */
  datatype OracleError =
    | InvalidSourcesLength
    | InvalidParams
    | InvalidPythSourceMultiplierAndDivisor
    | InvalidSource
    | RateZero
    | MathError
    | NumberDownCast
    | PriceUnavailable
    | IndexOutOfRange
    | Overflow

  datatype SourceType = Pyth | StakePool | MsolPool | Redstone | Chainlink | SinglePool | JupLend

  datatype Sources = Sources(source: Pubkey, invert: bool, multiplier: nat, divisor: nat, sourceType: SourceType) {
    predicate IsValid() {
      source != DEFAULT_PUBKEY && 0 < divisor <= MAX_DIVISOR && 0 < multiplier <= MAX_MULTIPLIER
    }

    predicate MustBePlain() {
      sourceType.Pyth? || sourceType.StakePool? || sourceType.MsolPool? || sourceType.JupLend?
    }
  }

  /** How many consecutive entries the source at the head of a group stands for. */
  function GroupLength(s: Sources): nat {
    if s.sourceType.SinglePool? then SINGLE_POOL_ACCOUNTS_COUNT
    else if s.sourceType.JupLend? then JUP_LEND_ACCOUNTS_COUNT
    else 1
  }

  /** Where the groups start, from `i` on, if each runs its length. */
  function Boundaries(sources: seq<Sources>, i: nat): seq<nat>
    decreases |sources| - i
  {
    if i >= |sources| then [] else [i] + Boundaries(sources, i + GroupLength(sources[i]))
  }

  // ---------------------------------------------------------------- accepting a list

  method ValidateSinglePoolSources(sources: seq<Sources>) returns (r: Result<(), OracleError>)
    ensures r.Ok? <==> SinglePoolGroup(sources)
    ensures r.Err? ==> r.error in {InvalidSourcesLength, InvalidParams, InvalidSource}
  {
    if |sources| != SINGLE_POOL_ACCOUNTS_COUNT {
      return Err(InvalidSourcesLength);
    }
    if !sources[0].IsValid() {
      return Err(InvalidParams);
    }
    if !sources[0].sourceType.SinglePool? || !sources[1].sourceType.SinglePool? {
      return Err(InvalidSource);
    }
    if !sources[1].IsValid() {
      return Err(InvalidParams);
    }
    if sources[2].source != STAKE_PROGRAM || !sources[2].sourceType.SinglePool? {
      return Err(InvalidSource);
    }
    if !sources[2].IsValid() {
      return Err(InvalidParams);
    }
    return Ok(());
  }

  method ValidateJupLendSources(sources: seq<Sources>) returns (r: Result<(), OracleError>)
    ensures r.Ok? <==> JupLendGroup(sources)
    ensures r.Err? ==> r.error in {InvalidSourcesLength, InvalidParams, InvalidSource}
  {
    if |sources| != JUP_LEND_ACCOUNTS_COUNT {
      return Err(InvalidSourcesLength);
    }
    for k := 0 to |sources|
      invariant forall j :: 0 <= j < k ==> sources[j].IsValid() && sources[j].sourceType.JupLend?
    {
      if !sources[k].IsValid() {
        return Err(InvalidParams);
      }
      if !sources[k].sourceType.JupLend? {
        return Err(InvalidSource);
      }
    }
    return Ok(());
  }

  /** A stake account, a mint and the stake program. */
  predicate SinglePoolGroup(sources: seq<Sources>) {
    && |sources| == SINGLE_POOL_ACCOUNTS_COUNT && sources[2].source == STAKE_PROGRAM
    && forall j :: 0 <= j < |sources| ==> sources[j].IsValid() && sources[j].sourceType.SinglePool?
  }

  predicate JupLendGroup(sources: seq<Sources>) {
    && |sources| == JUP_LEND_ACCOUNTS_COUNT
    && forall j :: 0 <= j < |sources| ==> sources[j].IsValid() && sources[j].sourceType.JupLend?
  }

  /** The entries from `i` on that make the group starting there are all present and in order. */
  predicate GroupAt(sources: seq<Sources>, i: nat)
    requires i < |sources|
  {
    var n := GroupLength(sources[i]);
    && i + n <= |sources| && sources[i].IsValid()
    && (sources[i].MustBePlain() ==> sources[i].divisor == 1 && sources[i].multiplier == 1)
    && (sources[i].sourceType.SinglePool? ==> SinglePoolGroup(sources[i..i + n]))
    && (sources[i].sourceType.JupLend? ==> JupLendGroup(sources[i..i + n]))
  }

  predicate AcceptedFrom(sources: seq<Sources>, i: nat)
    decreases |sources| - i
  {
    i < |sources| ==> GroupAt(sources, i) && AcceptedFrom(sources, i + GroupLength(sources[i]))
  }

  class Oracle {
    var nonce: nat
    var sources: seq<Sources>

    constructor ()
      ensures nonce == 0 && sources == []
    {
      nonce, sources := 0, [];
    }

    /** `init_oracle_config`. A list is stored exactly when it falls into complete groups. */
    method InitOracleConfig(newSources: seq<Sources>, newNonce: nat) returns (r: Result<(), OracleError>)
      modifies this
      ensures r.Ok? <==> |newSources| <= MAX_SOURCES && AcceptedFrom(newSources, 0)
      ensures r.Ok? ==> sources == newSources && nonce == newNonce
      ensures r.Err? ==> sources == old(sources) && nonce == old(nonce)
    {
      if |newSources| > MAX_SOURCES {
        return Err(InvalidSourcesLength);
      }
      var i := 0;
      while i < |newSources|
        invariant AcceptedFrom(newSources, i) == AcceptedFrom(newSources, 0)
        invariant sources == old(sources) && nonce == old(nonce)
      {
        var source := newSources[i];
        if !source.IsValid() {
          return Err(InvalidParams);
        }
        if source.MustBePlain() && (source.divisor != 1 || source.multiplier != 1) {
          return Err(InvalidPythSourceMultiplierAndDivisor);
        }
        if source.sourceType.SinglePool? {
          if i + SINGLE_POOL_ACCOUNTS_COUNT > |newSources| {
            return Err(IndexOutOfRange);
          }
          var check := ValidateSinglePoolSources(newSources[i..i + SINGLE_POOL_ACCOUNTS_COUNT]);
          if check.Err? {
            return Err(check.error);
          }
          i := i + SINGLE_POOL_ACCOUNTS_COUNT;
        } else if source.sourceType.JupLend? {
          if i + JUP_LEND_ACCOUNTS_COUNT > |newSources| {
            return Err(IndexOutOfRange);
          }
          var check := ValidateJupLendSources(newSources[i..i + JUP_LEND_ACCOUNTS_COUNT]);
          if check.Err? {
            return Err(check.error);
          }
          i := i + JUP_LEND_ACCOUNTS_COUNT;
        } else {
          i := i + 1;
        }
      }
      nonce := newNonce;
      sources := newSources;
      return Ok(());
    }
  }

  // ---------------------------------------------------------------- loading accounts for a list

  /** The accounts that price one group, and where in the list the group starts. */
  datatype SourceAccounts = SourceAccounts(accounts: seq<Pubkey>, index: nat)

  /** How many of a group's accounts the loader takes: a single pool's third is passed over. */
  function Taken(s: Sources): (n: nat)
    ensures 1 <= n <= GroupLength(s)
  {
    if s.sourceType.SinglePool? then 2 else GroupLength(s)
  }

  /** The `n` entries at `i` are present, of the type of the first and matched by their accounts. */
  predicate Matched(infos: seq<Sources>, accounts: seq<Pubkey>, i: nat, n: nat)
    requires |accounts| == |infos|
  {
    && i + n <= |infos|
    && forall k :: i <= k < i + n ==> accounts[k] == infos[k].source && (n > 1 ==> infos[k].sourceType == infos[i].sourceType)
  }

  function LoadFrom(infos: seq<Sources>, accounts: seq<Pubkey>, i: nat): seq<SourceAccounts>
    requires |accounts| == |infos| && MatchedFrom(infos, accounts, i)
    decreases |infos| - i
  {
    if i >= |infos| then []
    else [SourceAccounts(accounts[i..i + Taken(infos[i])], i)] + LoadFrom(infos, accounts, i + GroupLength(infos[i]))
  }

  predicate MatchedFrom(infos: seq<Sources>, accounts: seq<Pubkey>, i: nat)
    requires |accounts| == |infos|
    decreases |infos| - i
  {
    i < |infos| ==> Matched(infos, accounts, i, Taken(infos[i])) && MatchedFrom(infos, accounts, i + GroupLength(infos[i]))
  }

  /** The accounts of the group at `i`. */
  method LoadGroup(infos: seq<Sources>, accounts: seq<Pubkey>, i: nat) returns (r: Result<SourceAccounts, OracleError>)
    requires i < |infos| == |accounts|
    ensures r.Ok? <==> Matched(infos, accounts, i, Taken(infos[i]))
    ensures r.Ok? ==> r.value == SourceAccounts(accounts[i..i + Taken(infos[i])], i)
    ensures r.Err? ==> r.error == InvalidSource || (r.error == IndexOutOfRange && !GroupAt(infos, i))
  {
    if accounts[i] != infos[i].source {
      return Err(InvalidSource);
    }
    if infos[i].sourceType.SinglePool? {
      if i + 1 >= |infos| {
        return Err(IndexOutOfRange);
      }
      if !infos[i + 1].sourceType.SinglePool? || accounts[i + 1] != infos[i + 1].source {
        return Err(InvalidSource);
      }
      return Ok(SourceAccounts([accounts[i], accounts[i + 1]], i));
    } else if infos[i].sourceType.JupLend? {
      var jupLend := [accounts[i]];
      for j := 1 to JUP_LEND_ACCOUNTS_COUNT
        invariant i + j <= |infos| && jupLend == accounts[i..i + j]
        invariant forall k :: i <= k < i + j ==> accounts[k] == infos[k].source && infos[k].sourceType.JupLend?
      {
        if i + j >= |infos| {
          return Err(IndexOutOfRange);
        }
        if !infos[i + j].sourceType.JupLend? || accounts[i + j] != infos[i + j].source {
          return Err(InvalidSource);
        }
        jupLend := jupLend + [accounts[i + j]];
      }
      return Ok(SourceAccounts(jupLend, i));
    } else {
      return Ok(SourceAccounts([accounts[i]], i));
    }
  }

  /** One turn of the loader, or the end of the list. */
  lemma LoadStep(infos: seq<Sources>, accounts: seq<Pubkey>, i: nat)
    requires |accounts| == |infos|
    ensures i >= |infos| ==>
              MatchedFrom(infos, accounts, i) && LoadFrom(infos, accounts, i) == [] && AcceptedFrom(infos, i)
    ensures i < |infos| ==>
              var next := i + GroupLength(infos[i]);
              && (MatchedFrom(infos, accounts, i)
                  <==> Matched(infos, accounts, i, Taken(infos[i])) && MatchedFrom(infos, accounts, next))
              && (AcceptedFrom(infos, i) <==> GroupAt(infos, i) && AcceptedFrom(infos, next))
              && (MatchedFrom(infos, accounts, i) ==>
                    LoadFrom(infos, accounts, i)
                    == [SourceAccounts(accounts[i..i + Taken(infos[i])], i)] + LoadFrom(infos, accounts, next))
  {
  }

  method LoadSourcesFromRemainingAccounts(infos: seq<Sources>, accounts: seq<Pubkey>)
    returns (r: Result<seq<SourceAccounts>, OracleError>)
    ensures r.Ok? <==> |accounts| == |infos| && MatchedFrom(infos, accounts, 0)
    ensures r.Ok? ==> r.value == LoadFrom(infos, accounts, 0)
    ensures r.Err? ==> || r.error in {InvalidParams, InvalidSource}
                       || (r.error == IndexOutOfRange && !AcceptedFrom(infos, 0))
  {
    hide Matched, GroupAt, Taken, MatchedFrom, LoadFrom, AcceptedFrom;
    if |accounts| != |infos| {
      return Err(InvalidParams);
    }
    var list := [];
    var i := 0;
    while i < |accounts|
      invariant MatchedFrom(infos, accounts, i) == MatchedFrom(infos, accounts, 0)
      invariant MatchedFrom(infos, accounts, i) ==> list + LoadFrom(infos, accounts, i) == LoadFrom(infos, accounts, 0)
      invariant AcceptedFrom(infos, 0) ==> AcceptedFrom(infos, i)
    {
      LoadStep(infos, accounts, i);
      var group := LoadGroup(infos, accounts, i);
      if group.Err? {
        return Err(group.error);
      }
      list := list + [group.value];
      if infos[i].sourceType.SinglePool? {
        i := i + SINGLE_POOL_ACCOUNTS_COUNT;
      } else if infos[i].sourceType.JupLend? {
        i := i + JUP_LEND_ACCOUNTS_COUNT;
      } else {
        i := i + 1;
      }
    }
    LoadStep(infos, accounts, i);
    return Ok(list);
  }

  // ---------------------------------------------------------------- the two agree

  /** Where the loaded groups start. */
  function Starts(list: seq<SourceAccounts>): (starts: seq<nat>)
    ensures |starts| == |list| && forall k :: 0 <= k < |list| ==> starts[k] == list[k].index
  {
    seq(|list|, k requires 0 <= k < |list| => list[k].index)
  }

  /** Each account is the one its source names. */
  predicate AccountsMatch(infos: seq<Sources>, accounts: seq<Pubkey>) {
    |accounts| == |infos| && forall k :: 0 <= k < |infos| ==> accounts[k] == infos[k].source
  }

  /** Every list has them: the accounts its sources name. */
  lemma OwnAccounts(infos: seq<Sources>)
    ensures AccountsMatch(infos, seq(|infos|, k requires 0 <= k < |infos| => infos[k].source))
  {
  }

  /** An accepted list loads with its own accounts, however long it is, cut where it was cut when accepted. */
  lemma {:induction false} LoaderAgrees(infos: seq<Sources>, accounts: seq<Pubkey>, i: nat)
    requires AcceptedFrom(infos, i) && AccountsMatch(infos, accounts)
    ensures MatchedFrom(infos, accounts, i)
    ensures Starts(LoadFrom(infos, accounts, i)) == Boundaries(infos, i)
    decreases |infos| - i
  {
    if i < |infos| {
      GroupMatched(infos, accounts, i);
      var next := i + GroupLength(infos[i]);
      LoaderAgrees(infos, accounts, next);
      assert Starts(LoadFrom(infos, accounts, i)) == [i] + Starts(LoadFrom(infos, accounts, next));
    }
  }

  lemma GroupMatched(infos: seq<Sources>, accounts: seq<Pubkey>, i: nat)
    requires i < |infos| && GroupAt(infos, i) && AccountsMatch(infos, accounts)
    ensures Matched(infos, accounts, i, Taken(infos[i]))
  {
    var n := GroupLength(infos[i]);
    var group := infos[i..i + n];
    assert forall k :: i <= k < i + n ==> infos[k] == group[k - i];
  }

  /** Whatever accounts come with it, an accepted list is loaded into those groups as soon as it is loaded at all. */
  lemma {:induction false} LoadedCutsAreBoundaries(infos: seq<Sources>, accounts: seq<Pubkey>, i: nat)
    requires |accounts| == |infos| && MatchedFrom(infos, accounts, i)
    ensures Starts(LoadFrom(infos, accounts, i)) == Boundaries(infos, i)
    decreases |infos| - i
  {
    if i < |infos| {
      var next := i + GroupLength(infos[i]);
      LoadedCutsAreBoundaries(infos, accounts, next);
      assert Starts(LoadFrom(infos, accounts, i)) == [i] + Starts(LoadFrom(infos, accounts, next));
    }
  }

  /** The groups of an accepted list leave no entry out and none in two: one starts where the last ended. */
  lemma {:induction false} BoundariesTile(sources: seq<Sources>, i: nat)
    requires AcceptedFrom(sources, i) && i <= |sources|
    ensures var cuts := Boundaries(sources, i) + [|sources|];
            && cuts[0] == i
            && forall k :: 0 <= k < |cuts| - 1 ==>
                 cuts[k] < |sources| && GroupAt(sources, cuts[k]) && cuts[k + 1] == cuts[k] + GroupLength(sources[cuts[k]])
    decreases |sources| - i
  {
    if i < |sources| {
      var next := i + GroupLength(sources[i]);
      BoundariesTile(sources, next);
      var cuts, rest := Boundaries(sources, i) + [|sources|], Boundaries(sources, next) + [|sources|];
      assert cuts == [i] + rest;
      forall k | 0 <= k < |cuts| - 1
        ensures cuts[k] < |sources| && GroupAt(sources, cuts[k]) && cuts[k + 1] == cuts[k] + GroupLength(sources[cuts[k]])
      {
        if k > 0 {
          assert cuts[k] == rest[k - 1] && cuts[k + 1] == rest[k];
        }
      }
    }
  }

  /** What the check asks of the group at `i` and the loader does not: a plain head where it must be, and of a single pool a
      third entry that is the stake program, as one of the type. */
  predicate CheckedAt(sources: seq<Sources>, i: nat)
    requires i < |sources|
  {
    && (sources[i].sourceType in {Pyth, StakePool, MsolPool, JupLend} ==> sources[i].divisor == 1 && sources[i].multiplier == 1)
    && (sources[i].sourceType.SinglePool? ==>
          i + 2 < |sources| && sources[i + 2].sourceType.SinglePool? && sources[i + 2].source == STAKE_PROGRAM)
  }

  predicate CheckedFrom(sources: seq<Sources>, i: nat)
    decreases |sources| - i
  {
    i < |sources| ==> CheckedAt(sources, i) && CheckedFrom(sources, i + GroupLength(sources[i]))
  }

  /** Entries with an account, and with a multiplier and a divisor from one to ten billion. */
  predicate ValidBetween(sources: seq<Sources>, i: nat, end: nat) {
    forall k :: i <= k < end && k < |sources| ==>
      sources[k].source != DEFAULT_PUBKEY && 1 <= sources[k].divisor <= MAX_DIVISOR && 1 <= sources[k].multiplier <= MAX_MULTIPLIER
  }

  lemma GroupSplits(sources: seq<Sources>, accounts: seq<Pubkey>, i: nat)
    requires i < |sources| && AccountsMatch(sources, accounts)
    ensures GroupAt(sources, i) <==>
      Matched(sources, accounts, i, Taken(sources[i])) && CheckedAt(sources, i)
      && ValidBetween(sources, i, i + GroupLength(sources[i]))
  {
    var n := GroupLength(sources[i]);
    if GroupAt(sources, i) {
      var group := sources[i..i + n];
      assert forall k :: i <= k < i + n ==> sources[k] == group[k - i];
    }
  }

  /** A list is accepted if and only if it loads with its own accounts, has nothing but valid entries, and passes what else
      the check asks of groups. */
  lemma {:induction false} AcceptedExactly(sources: seq<Sources>, accounts: seq<Pubkey>, i: nat)
    requires AccountsMatch(sources, accounts)
    ensures AcceptedFrom(sources, i) <==>
      MatchedFrom(sources, accounts, i) && CheckedFrom(sources, i) && ValidBetween(sources, i, |sources|)
    decreases |sources| - i
  {
    hide GroupAt, Matched, CheckedAt, Taken;
    if i < |sources| {
      GroupSplits(sources, accounts, i);
      AcceptedExactly(sources, accounts, i + GroupLength(sources[i]));
    }
  }
}
