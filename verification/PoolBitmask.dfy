/**
  The bit mask of free team slots of one PE (src/gpu_ib/backend_ib.cpp): bit
  i % 8 of byte i / 8 is set while slot i is free.  Slot 0 belongs to TEAM_WORLD.
*/
module PoolBitmask {

  const CHAR_BIT := 8

  type Mask = seq<bv8>

  /** 1 << k, as stored in a char. */
  function Bit(k: int): bv8
    requires 0 <= k < CHAR_BIT
  {
    if k == 0 then 1 else if k == 1 then 2 else if k == 2 then 4 else if k == 3 then 8
    else if k == 4 then 16 else if k == 5 then 32 else if k == 6 then 64 else 128
  }

  /** Each bit is the one before it shifted left by one. */
  lemma BitIsShift(k: int)
    requires 0 <= k < CHAR_BIT
    ensures Bit(k) == if k == 0 then 1 else Bit(k - 1) << 1
  {}

  predicate Has(byte: bv8, k: int)
    requires 0 <= k < CHAR_BIT
  { byte & Bit(k) != 0 }

  /** Bytes needed for `max` bits. */
  function BitmaskSize(max: nat): nat { if max % CHAR_BIT != 0 then max / CHAR_BIT + 1 else max / CHAR_BIT }

  /** No byte too few and none too many. */
  lemma BitmaskSizeIs(max: nat)
    ensures max <= CHAR_BIT * BitmaskSize(max) < max + CHAR_BIT
  {}

  predicate Test(mask: Mask, i: nat)
    requires i / CHAR_BIT < |mask|
  { Has(mask[i / CHAR_BIT], i % CHAR_BIT) }

  function SetBit(mask: Mask, i: nat): Mask
    requires i / CHAR_BIT < |mask|
  { mask[i / CHAR_BIT := mask[i / CHAR_BIT] | Bit(i % CHAR_BIT)] }

  function ClearBit(mask: Mask, i: nat): Mask
    requires i / CHAR_BIT < |mask|
  { mask[i / CHAR_BIT := mask[i / CHAR_BIT] & !Bit(i % CHAR_BIT)] }

  lemma OrBit(byte: bv8, k: int, j: int)
    requires 0 <= k < CHAR_BIT && 0 <= j < CHAR_BIT
    ensures Has(byte | Bit(k), j) == (j == k || Has(byte, j))
  {}

  lemma AndNotBit(byte: bv8, k: int, j: int)
    requires 0 <= k < CHAR_BIT && 0 <= j < CHAR_BIT
    ensures Has(byte & !Bit(k), j) == (j != k && Has(byte, j))
  {}

  lemma AndByte(a: bv8, b: bv8, j: int)
    requires 0 <= j < CHAR_BIT
    ensures Has(a & b, j) == (Has(a, j) && Has(b, j))
  {}

  lemma ZeroByte(j: int)
    requires 0 <= j < CHAR_BIT
    ensures !Has(0, j)
  {}

  /** Every slot below `max` has its byte. */
  lemma SlotInMask(i: nat, max: nat)
    requires i < max
    ensures i / CHAR_BIT < BitmaskSize(max)
  {}

  lemma SameSlot(i: nat, j: nat)
    requires i / CHAR_BIT == j / CHAR_BIT && i % CHAR_BIT == j % CHAR_BIT
    ensures i == j
  {}

  /** The slots lo, .., hi - 1. */
  function Slots(lo: nat, hi: nat): (s: set<nat>)
    ensures forall i: nat :: i in s <==> lo <= i < hi
    ensures |s| == if lo <= hi then hi - lo else 0
    decreases hi
  {
    if lo >= hi then {} else Slots(lo, hi - 1) + {hi - 1}
  }

  lemma {:induction false} SubsetSize(a: set<nat>, b: set<nat>)
    requires a <= b
    ensures |a| <= |b| && (|a| == |b| ==> a == b)
    decreases a
  {
    if a != {} {
      var x :| x in a;
      SubsetSize(a - {x}, b - {x});
    } else if b != {} {
      var x :| x in b;
      assert |b - {x}| == |b| - 1;
    }
  }

  /** The free slots a mask stands for. */
  function Free(mask: Mask, max: nat): set<nat>
    requires |mask| == BitmaskSize(max)
  { set i: nat | i in Slots(0, max) && (SlotInMask(i, max); Test(mask, i)) }

  lemma FreeSetBit(mask: Mask, max: nat, i: nat)
    requires |mask| == BitmaskSize(max) && i < max
    ensures i / CHAR_BIT < |mask| && Free(SetBit(mask, i), max) == Free(mask, max) + {i}
  {
    SlotInMask(i, max);
    var mask' := SetBit(mask, i);
    forall j: nat | j < max
      ensures j in Free(mask', max) <==> j in Free(mask, max) || j == i
    {
      SlotInMask(j, max);
      if j / CHAR_BIT == i / CHAR_BIT {
        OrBit(mask[i / CHAR_BIT], i % CHAR_BIT, j % CHAR_BIT);
        if j % CHAR_BIT == i % CHAR_BIT { SameSlot(i, j); }
      }
    }
  }

  lemma FreeClearBit(mask: Mask, max: nat, i: nat)
    requires |mask| == BitmaskSize(max) && i < max
    ensures i / CHAR_BIT < |mask| && Free(ClearBit(mask, i), max) == Free(mask, max) - {i}
  {
    SlotInMask(i, max);
    var mask' := ClearBit(mask, i);
    forall j: nat | j < max
      ensures j in Free(mask', max) <==> j in Free(mask, max) && j != i
    {
      SlotInMask(j, max);
      if j / CHAR_BIT == i / CHAR_BIT {
        AndNotBit(mask[i / CHAR_BIT], i % CHAR_BIT, j % CHAR_BIT);
        if j % CHAR_BIT == i % CHAR_BIT { SameSlot(i, j); }
      }
    }
  }

  // ------------------------------------------------------------------ the AND

  /** MPI_BAND of two masks. */
  function Band(a: Mask, b: Mask): Mask
    requires |a| == |b|
  { seq(|a|, i requires 0 <= i < |a| => a[i] & b[i]) }

  lemma FreeBand(a: Mask, b: Mask, max: nat)
    requires |a| == |b| == BitmaskSize(max)
    ensures Free(Band(a, b), max) == Free(a, max) * Free(b, max)
  {
    forall j: nat | j < max
      ensures j in Free(Band(a, b), max) <==> j in Free(a, max) && j in Free(b, max)
    {
      SlotInMask(j, max);
      AndByte(a[j / CHAR_BIT], b[j / CHAR_BIT], j % CHAR_BIT);
    }
  }

  /** MPI_Allreduce with MPI_BAND over the masks of all members. */
  function BandAll(masks: seq<Mask>, max: nat): (r: Mask)
    requires masks != [] && forall m <- masks :: |m| == BitmaskSize(max)
    ensures |r| == BitmaskSize(max)
  {
    if |masks| == 1 then masks[0] else Band(masks[0], BandAll(masks[1..], max))
  }

  /** A slot is free in the result exactly if it is free at every member. */
  lemma {:induction false} FreeBandAll(masks: seq<Mask>, max: nat, i: nat)
    requires masks != [] && forall m <- masks :: |m| == BitmaskSize(max)
    ensures i in Free(BandAll(masks, max), max) <==> forall k :: 0 <= k < |masks| ==> i in Free(masks[k], max)
  {
    if |masks| > 1 {
      FreeBandAll(masks[1..], max, i);
      FreeBand(masks[0], BandAll(masks[1..], max), max);
      assert forall k :: 1 <= k < |masks| ==> masks[k] == masks[1..][k - 1];
      assert (forall k :: 0 <= k < |masks| ==> i in Free(masks[k], max))
         <==> i in Free(masks[0], max) && forall k :: 0 <= k < |masks[1..]| ==> i in Free(masks[1..][k], max);
    }
  }

  // ------------------------------------------------------------ the bit search

  /** The least element, -1 for the empty set. */
  ghost predicate IsLeast(s: set<nat>, i: int) {
    if s == {} then i == -1 else i >= 0 && i in s && forall j <- s :: i <= j
  }

  /** The slot the search ends at, from `i` on. */
  function LeastFrom(mask: Mask, max: nat, i: nat): int
    requires |mask| == BitmaskSize(max) && i <= max
    decreases max - i
  {
    if i == max then -1
    else
      SlotInMask(i, max);
      if Test(mask, i) then i else LeastFrom(mask, max, i + 1)
  }

  lemma {:induction false} LeastFromIs(mask: Mask, max: nat, i: nat)
    requires |mask| == BitmaskSize(max) && i <= max
    requires forall j <- Free(mask, max) :: i <= j
    ensures IsLeast(Free(mask, max), LeastFrom(mask, max, i))
    decreases max - i
  {
    if i < max {
      SlotInMask(i, max);
      assert i in Free(mask, max) <==> Test(mask, i);
      if !Test(mask, i) { LeastFromIs(mask, max, i + 1); }
    }
  }

  /** The slots free in every one of several sets. */
  ghost function Common(sets: seq<set<nat>>): set<nat>
    requires sets != []
  { set i | i in sets[0] && forall k :: 0 <= k < |sets| ==> i in sets[k] }

  ghost function FreeOfAll(masks: seq<Mask>, max: nat): seq<set<nat>>
    requires forall m <- masks :: |m| == BitmaskSize(max)
  { seq(|masks|, k requires 0 <= k < |masks| => Free(masks[k], max)) }

  /** Reducing bytes and searching bits computes the least element of the intersection of the free sets. */
  lemma BytesChooseLeastCommon(masks: seq<Mask>, max: nat)
    requires masks != [] && forall m <- masks :: |m| == BitmaskSize(max)
    ensures IsLeast(Common(FreeOfAll(masks, max)), LeastFrom(BandAll(masks, max), max, 0))
  {
    var all := BandAll(masks, max);
    var frees := FreeOfAll(masks, max);
    LeastFromIs(all, max, 0);
    forall i: nat
      ensures i in Free(all, max) <==> i in Common(frees)
    {
      FreeBandAll(masks, max, i);
      assert forall k :: 0 <= k < |masks| ==> frees[k] == Free(masks[k], max);
      if i in Free(all, max) { assert i in frees[0]; }
    }
    assert Free(all, max) == Common(frees);
  }

  /** get_ls_non_zero_bit: searching byte by byte and bit by bit finds the least free slot. */
  method LeastNonZeroBit(mask: array<bv8>, max: nat) returns (position: int)
    requires mask.Length == BitmaskSize(max)
    ensures position == LeastFrom(mask[..], max, 0)
    ensures IsLeast(Free(mask[..], max), position)
  {
    LeastFromIs(mask[..], max, 0);
    position := -1;
    var bit := 0;
    while bit < max
      invariant 0 <= bit <= max && position == -1
      invariant LeastFrom(mask[..], max, 0) == LeastFrom(mask[..], max, bit)
    {
      SlotInMask(bit, max);
      if mask[bit / CHAR_BIT] & Bit(bit % CHAR_BIT) != 0 {
        position := bit;
        break;
      }
      bit := bit + 1;
    }
  }

  // ------------------------------------------------------------- the local pool

  function AllSlots(max: nat): set<nat> { Slots(1, max) }

  /** Every slot but that of TEAM_WORLD is free. */
  ghost predicate IsInitial(mask: Mask, max: nat) {
    |mask| == BitmaskSize(max) && Free(mask, max) == AllSlots(max)
  }

  class Pool {
    const max: nat
    const poolBitmask: array<bv8>
    const reducedBitmask: array<bv8>

    ghost predicate Valid()
    {
      poolBitmask.Length == BitmaskSize(max) && reducedBitmask.Length == BitmaskSize(max) && poolBitmask != reducedBitmask
    }

    /** The part of teams_init that sets up the mask. */
    constructor (maxNumTeams: nat)
      ensures Valid() && max == maxNumTeams && fresh(poolBitmask) && fresh(reducedBitmask)
      ensures IsInitial(poolBitmask[..], max)
    {
      max := maxNumTeams;
      poolBitmask := new bv8[BitmaskSize(maxNumTeams)](_ => 0);
      reducedBitmask := new bv8[BitmaskSize(maxNumTeams)](_ => 0);
      new;
      NoneFree(poolBitmask[..], max);
      var bit := 1;
      while bit < max
        invariant 1 <= bit && (bit <= max || max == 0)
        invariant Free(poolBitmask[..], max) == Slots(1, bit)
      {
        SlotInMask(bit, max);
        FreeSetBit(poolBitmask[..], max, bit);
        ghost var before := poolBitmask[..];
        poolBitmask[bit / CHAR_BIT] := poolBitmask[bit / CHAR_BIT] | Bit(bit % CHAR_BIT);
        assert poolBitmask[..] == SetBit(before, bit);
        bit := bit + 1;
      }
    }

    /** create_new_team after the all-reduce delivered `reduced`; -1 stands for the abort. */
    method CreateNewTeam(reduced: Mask) returns (commonIndex: int)
      requires Valid() && |reduced| == BitmaskSize(max)
      modifies poolBitmask, reducedBitmask
      ensures commonIndex == LeastFrom(reduced, max, 0) && IsLeast(Free(reduced, max), commonIndex)
      ensures commonIndex < 0 ==> poolBitmask[..] == old(poolBitmask[..])
      ensures commonIndex >= 0 ==>
                (commonIndex / CHAR_BIT < poolBitmask.Length && poolBitmask[..] == ClearBit(old(poolBitmask[..]), commonIndex))
    {
      for i := 0 to reducedBitmask.Length
        invariant reducedBitmask[..i] == reduced[..i]
        invariant poolBitmask[..] == old(poolBitmask[..])
      {
        reducedBitmask[i] := reduced[i];
      }
      assert reducedBitmask[..] == reduced;
      commonIndex := LeastNonZeroBit(reducedBitmask, max);
      if commonIndex < 0 {
        return;
      }
      SlotInMask(commonIndex, max);
      var byte := commonIndex / CHAR_BIT;
      poolBitmask[byte] := poolBitmask[byte] & !Bit(commonIndex % CHAR_BIT);
    }

    /** team_destroy */
    method TeamDestroy(poolIndex: nat)
      requires Valid() && poolIndex < max
      modifies poolBitmask
      ensures poolIndex / CHAR_BIT < poolBitmask.Length && poolBitmask[..] == SetBit(old(poolBitmask[..]), poolIndex)
      ensures Free(poolBitmask[..], max) == old(Free(poolBitmask[..], max)) + {poolIndex}
    {
      SlotInMask(poolIndex, max);
      FreeSetBit(poolBitmask[..], max, poolIndex);
      var byte := poolIndex / CHAR_BIT;
      poolBitmask[byte] := poolBitmask[byte] | Bit(poolIndex % CHAR_BIT);
    }
  }

  lemma NoneFree(mask: Mask, max: nat)
    requires |mask| == BitmaskSize(max) && forall k :: 0 <= k < |mask| ==> mask[k] == 0
    ensures Free(mask, max) == {}
  {
    forall i: nat | i < max
      ensures i !in Free(mask, max)
    {
      SlotInMask(i, max);
      ZeroByte(i % CHAR_BIT);
    }
  }
}
