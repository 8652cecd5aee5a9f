/** The branches the SDK collects before a liquidation: `loadRelevantBranchesForLiquidate` of
    `ts-sdk/vault/context/context.ts`. */
module LiquidationBranches {
  import opened Common
  import opened BranchWalk

  datatype LoadError = NoCurrentBranch

  /** The branch `n` connections on from `id`. */
  function Follow(branches: Branches, id: nat, n: nat): nat
    decreases n
  {
    if n == 0 then id
    else
      var previous := Follow(branches, id, n - 1);
      if previous in branches then branches[previous].connectedBranchId else previous
  }

  /** Every branch that connections lead to from `id` has an account. */
  ghost predicate ConnectedFrom(branches: Branches, id: nat) {
    forall n: nat :: Follow(branches, id, n) in branches
  }

  ghost predicate Distinct(ids: seq<nat>) {
    forall i, j :: 0 <= i < j < |ids| ==> ids[i] != ids[j]
  }

  /** The branches met from `id` on, each once, in order. */
  ghost predicate ChainFrom(branches: Branches, id: nat, ids: seq<nat>)
  {
    && ids != [] && Distinct(ids)
    && forall k :: 0 <= k < |ids| ==> ids[k] == Follow(branches, id, k)
  }

  /** The chain is complete: its last connection leads back into it. */
  ghost predicate Complete(branches: Branches, ids: seq<nat>) {
    ids != [] && ids[|ids| - 1] in branches && branches[ids[|ids| - 1]].connectedBranchId in ids
  }

  lemma {:induction false} DistinctWithin(ids: seq<nat>, all: set<nat>)
    requires Distinct(ids) && forall id :: id in ids ==> id in all
    ensures |ids| <= |all|
    decreases |ids|
  {
    if ids != [] {
      var last := ids[|ids| - 1];
      assert last in ids;
      forall id | id in ids[..|ids| - 1]
        ensures id in all - {last}
      {
        assert id in ids;
      }
      DistinctWithin(ids[..|ids| - 1], all - {last});
    }
  }

  /** Follows connections until one leads to a branch that is already listed, and puts branch 0 last if it was not met. */
  method LoadRelevantBranchesForLiquidate(branches: Branches, currentBranchId: nat)
    returns (r: Result<seq<nat>, LoadError>, ghost chain: seq<nat>)
    requires currentBranchId != 0 && currentBranchId in branches ==> ConnectedFrom(branches, currentBranchId)
    ensures r.Err? <==> currentBranchId == 0 || currentBranchId !in branches
    ensures r.Ok? ==> ChainFrom(branches, currentBranchId, chain) && Complete(branches, chain)
    ensures r.Ok? ==> r.value == chain + if 0 in chain then [] else [0]
  {
    chain := [];
    if currentBranchId == 0 || currentBranchId !in branches {
      return Err(NoCurrentBranch), chain;
    }
    var list := [currentBranchId];
    var connectedBranchId := branches[currentBranchId].connectedBranchId;
    while connectedBranchId !in list
      invariant ChainFrom(branches, currentBranchId, list)
      invariant connectedBranchId == Follow(branches, currentBranchId, |list|)
      decreases |branches| - |list|
    {
      list := list + [connectedBranchId];
      forall id | id in list
        ensures id in branches.Keys
      {
        var k :| 0 <= k < |list| && list[k] == id;
      }
      DistinctWithin(list, branches.Keys);
      connectedBranchId := branches[connectedBranchId].connectedBranchId;
    }
    chain := list;
    if 0 !in list {
      list := list + [0];
    }
    return Ok(list), chain;
  }

  /** A complete chain holds exactly the branches that any number of connections lead to. */
  lemma {:induction false} ChainIsReachable(branches: Branches, id: nat, ids: seq<nat>, n: nat)
    requires ConnectedFrom(branches, id) && ChainFrom(branches, id, ids) && Complete(branches, ids)
    ensures Follow(branches, id, n) in ids
    decreases n
  {
    if n > 0 {
      ChainIsReachable(branches, id, ids, n - 1);
      ClosedUnderConnection(branches, id, ids, Follow(branches, id, n - 1));
    } else {
      assert ids[0] in ids;
    }
  }

  lemma ClosedUnderConnection(branches: Branches, id: nat, ids: seq<nat>, at: nat)
    requires ConnectedFrom(branches, id) && ChainFrom(branches, id, ids) && Complete(branches, ids)
    requires at in ids
    ensures at in branches && branches[at].connectedBranchId in ids
  {
    var k :| 0 <= k < |ids| && ids[k] == at;
    if k + 1 < |ids| {
      assert ids[k + 1] == Follow(branches, id, k + 1);
      assert ids[k + 1] in ids;
    }
  }

  function Loaded(branches: Branches, ids: seq<nat>): Branches {
    map id | id in ids && id in branches :: branches[id]
  }

  lemma LoadedWellFounded(branches: Branches, rank: map<nat, nat>, ids: seq<nat>)
    requires WellFounded(branches, rank)
    ensures WellFounded(Loaded(branches, ids), rank)
  {
  }

  lemma {:induction false} LoadedWalk(branches: Branches, rank: map<nat, nat>, id: nat, ids: seq<nat>, at: nat,
                                      factor: nat)
    requires ConnectedFrom(branches, id) && ChainFrom(branches, id, ids) && Complete(branches, ids)
    requires WellFounded(branches, rank) && WellFounded(Loaded(branches, ids), rank) && at in ids && at in branches
    ensures Walk(Loaded(branches, ids), rank, at, factor) == Walk(branches, rank, at, factor)
    decreases rank[at]
  {
    hide BigNumber.MulBigNumber;
    var b := branches[at];
    ClosedUnderConnection(branches, id, ids, at);
    if b.status == MERGED {
      var next := BigNumber.MulBigNumber(factor, b.debtFactor);
      if next.Ok? && next.value != BigNumber.MAX_MASK {
        LoadedWalk(branches, rank, id, ids, b.connectedBranchId, next.value);
      }
    }
  }

  /** The loaded branches are all that settling a position on any of them needs. */
  lemma LoadedBranchesSuffice(branches: Branches, rank: map<nat, nat>, id: nat, ids: seq<nat>, at: nat, factor: nat,
                              debt: nat)
    requires ConnectedFrom(branches, id) && ChainFrom(branches, id, ids) && Complete(branches, ids)
    requires WellFounded(branches, rank) && at in ids && at in branches
    ensures WellFounded(Loaded(branches, ids), rank)
    ensures Process(Loaded(branches, ids), rank, at, factor, debt) == Process(branches, rank, at, factor, debt)
    ensures var w := Walk(branches, rank, at, factor); w.Err? ==> w.error.BigNumberError?
  {
    hide Settle, BigNumber.MulBigNumber;
    ClosedUnderConnection(branches, id, ids, at);
    LoadedWellFounded(branches, rank, ids);
    LoadedWalk(branches, rank, id, ids, at, factor);
    WalkFinds(branches, rank, id, ids, at, factor);
  }

  lemma {:induction false} WalkFinds(branches: Branches, rank: map<nat, nat>, id: nat, ids: seq<nat>, at: nat, factor: nat)
    requires ConnectedFrom(branches, id) && ChainFrom(branches, id, ids) && Complete(branches, ids)
    requires WellFounded(branches, rank) && at in ids && at in branches
    ensures var w := Walk(branches, rank, at, factor); w.Err? ==> w.error.BigNumberError?
    decreases rank[at]
  {
    hide BigNumber.MulBigNumber;
    var b := branches[at];
    if b.status == MERGED {
      var next := BigNumber.MulBigNumber(factor, b.debtFactor);
      if next.Ok? && next.value != BigNumber.MAX_MASK {
        ClosedUnderConnection(branches, id, ids, at);
        ClosedUnderConnection(branches, id, ids, b.connectedBranchId);
        WalkFinds(branches, rank, id, ids, b.connectedBranchId, next.value);
      }
    }
  }
}
