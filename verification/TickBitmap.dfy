/** The tick-has-debt bitmap: 16 arrays of 8 maps of 32 bytes, one bit for each tick. `ts-sdk/vault/context/context.ts`
    searches it downwards by mask, byte and bit; `ts-sdk/vault/context/contextProd.ts` finds the same tick by looking at
    every tick account in turn. */
module TickBitmap {
  import opened Common
  import TickMath

  const MIN_TICK: int := TickMath.MIN_TICK
  const MAX_TICK: int := TickMath.MAX_TICK
  const ARRAY_SIZE: nat := 8
  const CHILDREN_SIZE: nat := 32
  const CHILDREN_SIZE_IN_BITS: nat := 256
  const TICKS_PER_TICK_HAS_DEBT: nat := 2048
  const TOTAL_INDICES: nat := 16

  type Maps = seq<seq<bv8>>

  ghost predicate Shape(maps: Maps) {
    |maps| == ARRAY_SIZE && forall m :: 0 <= m < ARRAY_SIZE ==> |maps[m]| == CHILDREN_SIZE
  }

  // ---------------------------------------------------------------- indices

  datatype TickIndices = TickIndices(arrayIndex: nat, mapIndex: nat, byteIndex: nat, bitIndex: nat)

  predicate InRange(tick: int) {
    MIN_TICK <= tick <= MAX_TICK
  }

  function FirstTickForIndex(index: nat): int {
    MIN_TICK + index * TICKS_PER_TICK_HAS_DEBT
  }

  /** The source throws outside the range; the callers check that first. */
  function GetTickIndices(tick: int): (r: TickIndices)
    requires InRange(tick)
    ensures r.arrayIndex < TOTAL_INDICES && r.mapIndex < ARRAY_SIZE && r.byteIndex < CHILDREN_SIZE && r.bitIndex < 8
    ensures tick == FirstTickForIndex(r.arrayIndex) + 256 * r.mapIndex + 8 * r.byteIndex + r.bitIndex
  {
    var tickOffset := tick - MIN_TICK;
    var arrayIndex := tickOffset / TICKS_PER_TICK_HAS_DEBT;
    var tickWithinArray := tick - FirstTickForIndex(arrayIndex);
    var mapIndex := tickWithinArray / CHILDREN_SIZE_IN_BITS;
    var tickWithinMap := tickWithinArray % CHILDREN_SIZE_IN_BITS;
    TickIndices(arrayIndex, mapIndex, tickWithinMap / 8, tickWithinMap % 8)
  }

  function ArrayIndex(tick: int): nat
    requires InRange(tick)
  {
    GetTickIndices(tick).arrayIndex
  }

  // ---------------------------------------------------------------- bits

  /** `1 << k`. */
  function BitMask(k: nat): bv8
    requires k < 8
  {
    match k
    case 0 => 0x01
    case 1 => 0x02
    case 2 => 0x04
    case 3 => 0x08
    case 4 => 0x10
    case 5 => 0x20
    case 6 => 0x40
    case _ => 0x80
  }

  /** `(1 << k) - 1`. */
  function LowMask(k: nat): bv8
    requires k < 8
  {
    BitMask(k) - 1
  }

  predicate BitSet(byte: bv8, k: nat)
    requires k < 8
  {
    byte & BitMask(k) != 0
  }

  lemma LowMaskKeepsLowBits(byte: bv8, j: nat, k: nat)
    requires j < 8 && k < 8
    ensures BitSet(byte & LowMask(k), j) <==> j < k && BitSet(byte, j)
  {
  }

  lemma NoBitsIsZero(byte: bv8)
    requires forall k :: 0 <= k < 8 ==> !BitSet(byte, k)
    ensures byte == 0
  {
    assert !BitSet(byte, 0) && !BitSet(byte, 1) && !BitSet(byte, 2) && !BitSet(byte, 3);
    assert !BitSet(byte, 4) && !BitSet(byte, 5) && !BitSet(byte, 6) && !BitSet(byte, 7);
  }

  lemma TopMask()
    ensures BitMask(7) == 0x80
  {
  }

  lemma MaskHalves(j: nat)
    requires 0 < j < 8
    ensures BitMask(j) >> 1 == BitMask(j - 1)
  {
  }

  /** No bit above position `7 - zeros` is set. */
  ghost predicate LeadingZeros(byte: bv8, zeros: nat) {
    forall k :: 0 <= k < 8 && 7 - zeros < k ==> !BitSet(byte, k)
  }

  method GetMostSignificantBit(byte: bv8) returns (leadingZeros: nat)
    ensures byte == 0 ==> leadingZeros == 8
    ensures byte != 0 ==> leadingZeros < 8 && BitSet(byte, 7 - leadingZeros)
    ensures LeadingZeros(byte, leadingZeros)
  {
    hide BitMask;
    if byte == 0 {
      ZeroHasNoBits();
      return 8;
    }
    leadingZeros := 0;
    var mask: bv8 := 0x80;
    TopMask();
    while byte & mask == 0 && leadingZeros < 8
      invariant leadingZeros <= 8
      invariant leadingZeros < 8 ==> mask == BitMask(7 - leadingZeros)
      invariant LeadingZeros(byte, leadingZeros)
      decreases 8 - leadingZeros
    {
      NextZero(byte, leadingZeros);
      leadingZeros := leadingZeros + 1;
      mask := mask >> 1;
    }
    if leadingZeros == 8 {
      NoBitsIsZero(byte);
    }
  }

  lemma NextZero(byte: bv8, zeros: nat)
    requires zeros < 8 && LeadingZeros(byte, zeros) && byte & BitMask(7 - zeros) == 0
    ensures LeadingZeros(byte, zeros + 1)
    ensures zeros < 7 ==> BitMask(7 - zeros) >> 1 == BitMask(6 - zeros)
  {
    if zeros < 7 {
      MaskHalves(7 - zeros);
    }
  }

  lemma ZeroHasNoBits()
    ensures LeadingZeros(0, 8)
  {
  }

  /** The bit at a position within an array, 0 to 2047. */
  predicate HasBit(maps: Maps, position: nat)
    requires Shape(maps) && position < TICKS_PER_TICK_HAS_DEBT
  {
    BitSet(maps[position / 256][position % 256 / 8], position % 8)
  }

  // ---------------------------------------------------------------- one array, as fetched

  datatype ArrayAccount = ArrayAccount(index: nat, tickHasDebt: Maps)

  /** What clearing the bytes of a map does to the bits of its array. */
  lemma ClearedBits(maps: Maps, mapIndex: nat, byteIndex: nat, bitIndex: nat, bitmap: seq<bv8>)
    requires Shape(maps) && mapIndex < ARRAY_SIZE && byteIndex < CHILDREN_SIZE && bitIndex < 8
    requires |bitmap| == CHILDREN_SIZE
    requires forall b :: 0 <= b < byteIndex ==> bitmap[b] == maps[mapIndex][b]
    requires bitmap[byteIndex] == if bitIndex > 0 then maps[mapIndex][byteIndex] & LowMask(bitIndex) else 0
    requires forall b :: byteIndex < b < CHILDREN_SIZE ==> bitmap[b] == 0
    ensures Shape(maps[mapIndex := bitmap])
    ensures forall p :: 0 <= p < TICKS_PER_TICK_HAS_DEBT ==>
              (HasBit(maps[mapIndex := bitmap], p) <==>
               HasBit(maps, p) && (p / 256 == mapIndex ==> p % 256 < 8 * byteIndex + bitIndex))
  {
    forall p | 0 <= p < TICKS_PER_TICK_HAS_DEBT
      ensures HasBit(maps[mapIndex := bitmap], p) <==>
              HasBit(maps, p) && (p / 256 == mapIndex ==> p % 256 < 8 * byteIndex + bitIndex)
    {
      if p / 256 == mapIndex {
        LowMaskKeepsLowBits(maps[mapIndex][byteIndex], p % 8, bitIndex);
        ByteOrder(p, byteIndex, bitIndex);
      }
    }
  }

  class TickHasDebtArray {
    const index: nat
    var tickHasDebt: Maps

    ghost predicate Valid()
      reads this
    {
      index < TOTAL_INDICES && Shape(tickHasDebt)
    }

    /** Fetching an account gives a copy of its own. */
    constructor (account: ArrayAccount)
      requires account.index < TOTAL_INDICES && Shape(account.tickHasDebt)
      ensures Valid() && index == account.index && tickHasDebt == account.tickHasDebt
    {
      index := account.index;
      tickHasDebt := account.tickHasDebt;
    }

    /** Clears, within one map, the given position and everything above it. */
    method ClearBitsInBitmap(mapIndex: nat, byteIndex: nat, bitIndex: nat)
      requires Valid() && mapIndex < ARRAY_SIZE && byteIndex < CHILDREN_SIZE && bitIndex < 8
      modifies this
      ensures Valid()
      ensures forall p :: 0 <= p < TICKS_PER_TICK_HAS_DEBT ==>
                (HasBit(tickHasDebt, p) <==>
                 HasBit(old(tickHasDebt), p) && (p / 256 == mapIndex ==> p % 256 < 8 * byteIndex + bitIndex))
    {
      hide HasBit, LowMask;
      var bitmap := tickHasDebt[mapIndex];
      if bitIndex > 0 {
        bitmap := bitmap[byteIndex := bitmap[byteIndex] & LowMask(bitIndex)];
      } else {
        bitmap := bitmap[byteIndex := 0];
      }
      var i := byteIndex + 1;
      while i < CHILDREN_SIZE
        invariant byteIndex < i <= CHILDREN_SIZE && |bitmap| == CHILDREN_SIZE
        invariant forall b :: 0 <= b < byteIndex ==> bitmap[b] == tickHasDebt[mapIndex][b]
        invariant bitmap[byteIndex] == if bitIndex > 0 then tickHasDebt[mapIndex][byteIndex] & LowMask(bitIndex) else 0
        invariant forall b :: byteIndex < b < i ==> bitmap[b] == 0
      {
        bitmap := bitmap[i := 0];
        i := i + 1;
      }
      ClearedBits(tickHasDebt, mapIndex, byteIndex, bitIndex, bitmap);
      tickHasDebt := tickHasDebt[mapIndex := bitmap];
    }

    /** `childrenBits.some(byte => byte !== 0)`. */
    predicate HasBitsInMap(mapIndex: nat)
      requires Valid() && mapIndex < ARRAY_SIZE
      reads this
    {
      exists b :: 0 <= b < CHILDREN_SIZE && tickHasDebt[mapIndex][b] != 0
    }

    /** The highest tick of one map. */
    method GetNextTickFromMap(mapIndex: nat) returns (nextTick: int, hasNextTick: bool, ghost position: nat)
      requires Valid() && mapIndex < ARRAY_SIZE
      ensures hasNextTick ==>
                && 256 * mapIndex <= position < 256 * mapIndex + 256 && HasBit(tickHasDebt, position)
                && nextTick == FirstTickForIndex(index) + position
                && NoBits(tickHasDebt, position + 1, 256 * mapIndex + 256)
      ensures !hasNextTick ==> nextTick == MIN_TICK && NoBits(tickHasDebt, 256 * mapIndex, 256 * mapIndex + 256)
    {
      var byteIdx: int := CHILDREN_SIZE - 1;
      while byteIdx >= 0
        invariant -1 <= byteIdx < CHILDREN_SIZE
        invariant NoBits(tickHasDebt, 256 * mapIndex + 8 * (byteIdx + 1), 256 * mapIndex + 256)
        decreases byteIdx
      {
        var byte := tickHasDebt[mapIndex][byteIdx];
        if byte != 0 {
          var leadingZeros := GetMostSignificantBit(byte);
          var bitPos := 7 - leadingZeros;
          var tickWithinMap := byteIdx * 8 + bitPos;
          position := 256 * mapIndex + tickWithinMap;
          ByteAt(tickHasDebt, mapIndex, byteIdx);
          return FirstTickForIndex(index) + mapIndex * CHILDREN_SIZE_IN_BITS + tickWithinMap, true, position;
        }
        ByteAt(tickHasDebt, mapIndex, byteIdx);
        byteIdx := byteIdx - 1;
      }
      return MIN_TICK, false, 0;
    }

    /** The highest tick of the maps up to `startMapIndex`. */
    method FetchNextTopTickFromBitmap(startMapIndex: nat)
      returns (nextTick: int, hasNextTick: bool, ghost position: nat)
      requires Valid() && startMapIndex < ARRAY_SIZE
      ensures hasNextTick ==>
                && position < 256 * startMapIndex + 256 && HasBit(tickHasDebt, position)
                && nextTick == FirstTickForIndex(index) + position
                && NoBits(tickHasDebt, position + 1, 256 * startMapIndex + 256)
      ensures !hasNextTick ==> nextTick == MIN_TICK && NoBits(tickHasDebt, 0, 256 * startMapIndex + 256)
    {
      var mapIndex: int := startMapIndex;
      while mapIndex >= 0
        invariant -1 <= mapIndex <= startMapIndex
        invariant NoBits(tickHasDebt, 256 * (mapIndex + 1), 256 * startMapIndex + 256)
        decreases mapIndex
      {
        if HasBitsInMap(mapIndex) {
          nextTick, hasNextTick, position := GetNextTickFromMap(mapIndex);
          if hasNextTick {
            return;
          }
        } else {
          EmptyMap(tickHasDebt, mapIndex);
        }
        mapIndex := mapIndex - 1;
      }
      return MIN_TICK, false, 0;
    }
  }

  /** No bit is set at the positions from `low` up to `high`. */
  ghost predicate NoBits(maps: Maps, low: int, high: int)
    requires Shape(maps)
  {
    forall p :: 0 <= p < TICKS_PER_TICK_HAS_DEBT && low <= p < high ==> !HasBit(maps, p)
  }

  lemma ByteOrder(p: nat, byteIndex: nat, bitIndex: nat)
    requires bitIndex < 8
    ensures p % 256 < 8 * byteIndex + bitIndex <==>
            p % 256 / 8 < byteIndex || (p % 256 / 8 == byteIndex && p % 8 < bitIndex)
  {
    assert p % 8 == p % 256 % 8;
  }

  /** The eight positions of one byte. */
  lemma ByteAt(maps: Maps, mapIndex: nat, byteIdx: nat)
    requires Shape(maps) && mapIndex < ARRAY_SIZE && byteIdx < CHILDREN_SIZE
    ensures forall p :: 0 <= p < TICKS_PER_TICK_HAS_DEBT
                        && 256 * mapIndex + 8 * byteIdx <= p < 256 * mapIndex + 8 * byteIdx + 8 ==>
              (HasBit(maps, p) <==> BitSet(maps[mapIndex][byteIdx], p - 256 * mapIndex - 8 * byteIdx))
  {
    hide BitSet;
    forall p | 0 <= p < TICKS_PER_TICK_HAS_DEBT
               && 256 * mapIndex + 8 * byteIdx <= p < 256 * mapIndex + 8 * byteIdx + 8
      ensures HasBit(maps, p) <==> BitSet(maps[mapIndex][byteIdx], p - 256 * mapIndex - 8 * byteIdx)
    {
      PositionSplit(p, mapIndex, byteIdx);
    }
  }

  lemma PositionSplit(p: nat, mapIndex: nat, byteIdx: nat)
    requires byteIdx < CHILDREN_SIZE && 256 * mapIndex + 8 * byteIdx <= p < 256 * mapIndex + 8 * byteIdx + 8
    ensures p / 256 == mapIndex && p % 256 / 8 == byteIdx && p % 8 == p - 256 * mapIndex - 8 * byteIdx
  {
  }

  lemma EmptyMap(maps: Maps, mapIndex: nat)
    requires Shape(maps) && mapIndex < ARRAY_SIZE
    requires forall b :: 0 <= b < CHILDREN_SIZE ==> maps[mapIndex][b] == 0
    ensures NoBits(maps, 256 * mapIndex, 256 * mapIndex + 256)
  {
  }

  // ---------------------------------------------------------------- the search over all arrays

  type Accounts = map<nat, ArrayAccount>

  /** Every account holds the array its index says, in full size. */
  ghost predicate ValidAccounts(accounts: Accounts) {
    forall i :: i in accounts ==> i < TOTAL_INDICES && accounts[i].index == i && Shape(accounts[i].tickHasDebt)
  }

  /** All arrays up to the one of `tick` exist. */
  ghost predicate AllPresent(accounts: Accounts, tick: int) {
    InRange(tick) ==> forall i: nat :: i <= ArrayIndex(tick) ==> i in accounts
  }

  ghost predicate TickBit(accounts: Accounts, tick: int)
    requires ValidAccounts(accounts)
  {
    && InRange(tick) && ArrayIndex(tick) in accounts
    && HasBit(accounts[ArrayIndex(tick)].tickHasDebt, tick - FirstTickForIndex(ArrayIndex(tick)))
  }

  /** The set bits a search from `start` can reach: no array in between is missing. */
  ghost predicate Reachable(accounts: Accounts, start: int, tick: int)
    requires ValidAccounts(accounts)
  {
    && InRange(start) && TickBit(accounts, tick)
    && forall i: nat :: ArrayIndex(tick) <= i <= ArrayIndex(start) ==> i in accounts
  }

  ghost function ReachableTicks(accounts: Accounts, start: int): iset<int>
    requires ValidAccounts(accounts)
  {
    iset t: int | Reachable(accounts, start, t)
  }

  /** `r` is the highest of the `ticks` below `start`, or `MIN_TICK` when there is none above it. */
  ghost predicate IsNext(ticks: iset<int>, start: int, r: int) {
    && MIN_TICK <= r
    && (r == MIN_TICK || (r < start && r in ticks))
    && forall t :: r < t < start ==> t !in ticks
  }

  /** There is one answer only. */
  lemma NextIsUnique(ticks: iset<int>, start: int, r: int, s: int)
    requires IsNext(ticks, start, r) && IsNext(ticks, start, s)
    ensures r == s
  {
  }

  /** The answer depends on the ticks strictly between `MIN_TICK` and `start`. */
  lemma NextTransfers(p: iset<int>, q: iset<int>, start: int, r: int)
    requires forall t :: MIN_TICK < t < start ==> (t in p <==> t in q)
    requires IsNext(p, start, r)
    ensures IsNext(q, start, r)
  {
  }

  ghost predicate NoTicks(accounts: Accounts, low: int, high: int)
    requires ValidAccounts(accounts)
  {
    forall t :: low <= t < high ==> !TickBit(accounts, t)
  }

  /** The working copy of an array: the account's bits, except those at or above `start`, below the end of a map. */
  ghost predicate CopyOf(copy: Maps, account: ArrayAccount, mapIndex: int, start: int)
    requires Shape(copy) && Shape(account.tickHasDebt)
  {
    forall p :: 0 <= p < TICKS_PER_TICK_HAS_DEBT && p < 256 * mapIndex + 256 ==>
      (HasBit(copy, p) <==> HasBit(account.tickHasDebt, p) && FirstTickForIndex(account.index) + p < start)
  }

  lemma IndexOf(index: nat, p: nat)
    requires index < TOTAL_INDICES && p < TICKS_PER_TICK_HAS_DEBT && InRange(FirstTickForIndex(index) + p)
    ensures ArrayIndex(FirstTickForIndex(index) + p) == index
  {
  }

  /** Ticks strictly between a position without bits above it and `start` have no bit either. */
  lemma NoBitsNoTicks(accounts: Accounts, copy: Maps, index: nat, mapIndex: nat, start: int, low: nat)
    requires ValidAccounts(accounts) && index in accounts && Shape(copy) && mapIndex < ARRAY_SIZE
    requires CopyOf(copy, accounts[index], mapIndex, start) && NoBits(copy, low, 256 * mapIndex + 256)
    requires NoTicks(accounts, FirstTickForIndex(index) + 256 * mapIndex + 256, start)
    ensures NoTicks(accounts, FirstTickForIndex(index) + low, start)
  {
    hide HasBit;
    forall t | FirstTickForIndex(index) + low <= t < start
      ensures !TickBit(accounts, t)
    {
      if t < FirstTickForIndex(index) + 256 * mapIndex + 256 && InRange(t) {
        var p := t - FirstTickForIndex(index);
        IndexOf(index, p);
        assert !HasBit(copy, p);
      }
    }
  }

  /** A bit of the working copy is a reachable tick. */
  lemma BitIsReachable(accounts: Accounts, copy: Maps, index: nat, mapIndex: nat, start: int, p: nat)
    requires ValidAccounts(accounts) && index in accounts && Shape(copy) && InRange(start)
    requires CopyOf(copy, accounts[index], mapIndex, start) && p < 256 * mapIndex + 256 <= TICKS_PER_TICK_HAS_DEBT
    requires HasBit(copy, p) && forall i: nat :: index <= i <= ArrayIndex(start) ==> i in accounts
    ensures var t := FirstTickForIndex(index) + p;
            t < start && Reachable(accounts, start, t) && ArrayIndex(t) == index
  {
    hide HasBit;
    IndexOf(index, p);
  }

  /** Behind a missing array nothing is reachable. */
  lemma MissingStops(accounts: Accounts, start: int, missing: nat)
    requires ValidAccounts(accounts) && InRange(start) && missing <= ArrayIndex(start) && missing !in accounts
    requires NoTicks(accounts, FirstTickForIndex(missing + 1), start)
    ensures IsNext(ReachableTicks(accounts, start), start, MIN_TICK)
  {
    hide HasBit;
    forall t | MIN_TICK < t < start
      ensures !Reachable(accounts, start, t)
    {
      if InRange(t) && t < FirstTickForIndex(missing + 1) {
        assert ArrayIndex(t) <= missing;
      }
    }
  }

  /** `touched` collects the indices of the arrays that are read. */
  method FindNextTickWithDebt(accounts: Accounts, startTick: int) returns (r: int, ghost touched: set<nat>)
    requires ValidAccounts(accounts)
    ensures InRange(r) && IsNext(ReachableTicks(accounts, startTick), startTick, r)
    ensures forall i :: i in touched ==> InRange(startTick) && ArrayIndex(r) <= i <= ArrayIndex(startTick)
  {
    hide HasBit, TickBit, NoBits, Shape;
    if !InRange(startTick) {
      return MIN_TICK, {};
    }
    var TickIndices(arrayIndex, mapIndex, byteIndex, bitIndex) := GetTickIndices(startTick);
    var currentArrayIndex: nat, currentMapIndex: nat := arrayIndex, mapIndex;
    touched := {arrayIndex};
    if currentArrayIndex !in accounts {
      MissingStops(accounts, startTick, currentArrayIndex);
      return MIN_TICK, touched;
    }
    var data := new TickHasDebtArray(accounts[currentArrayIndex]);
    data.ClearBitsInBitmap(mapIndex, byteIndex, bitIndex);
    while true
      invariant currentArrayIndex <= arrayIndex && currentMapIndex < ARRAY_SIZE
      invariant forall i: nat :: currentArrayIndex <= i <= arrayIndex ==> i in accounts
      invariant data.Valid() && data.index == currentArrayIndex && fresh(data)
      invariant forall i :: i in touched ==> currentArrayIndex <= i <= arrayIndex
      invariant CopyOf(data.tickHasDebt, accounts[currentArrayIndex], currentMapIndex, startTick)
      invariant NoTicks(accounts, FirstTickForIndex(currentArrayIndex) + 256 * currentMapIndex + 256, startTick)
      decreases currentArrayIndex
    {
      var nextTick, hasNextTick, position := data.FetchNextTopTickFromBitmap(currentMapIndex);
      NoBitsNoTicks(accounts, data.tickHasDebt, currentArrayIndex, currentMapIndex, startTick,
                    if hasNextTick then position + 1 else 0);
      if hasNextTick && nextTick != MIN_TICK {
        BitIsReachable(accounts, data.tickHasDebt, currentArrayIndex, currentMapIndex, startTick, position);
        return nextTick, touched;
      }
      if currentArrayIndex == 0 {
        return MIN_TICK, touched;
      }
      currentArrayIndex := currentArrayIndex - 1;
      currentMapIndex := ARRAY_SIZE - 1;
      touched := touched + {currentArrayIndex};
      if currentArrayIndex !in accounts {
        MissingStops(accounts, startTick, currentArrayIndex);
        return MIN_TICK, touched;
      }
      data := new TickHasDebtArray(accounts[currentArrayIndex]);
    }
  }
}
