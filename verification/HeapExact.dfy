/**
  What the allocator of HeapModel leaves in every bin: after the set-up, after a
  split and after an allocation.  A split takes the top record of the smallest
  larger bin that has one and no other, and the first heap is the binary
  representation of its size.
*/
module HeapExact {
  import opened Arithmetic
  import opened HeapModel
  import opened Options

  // ------------------------------------------------------------------------ splits

  /** Bin j is the first from k on that has a record. */
  ghost predicate FirstStocked(bins: seq<seq<Record>>, k: nat, j: nat) {
    k <= j < |bins| && bins[j] != [] && forall i :: k <= i < j ==> bins[i] == []
  }

  lemma {:induction false} FindFirstStocked(bins: seq<seq<Record>>, k: nat) returns (j: nat)
    requires k < |bins| && Stocked(bins, k)
    ensures FirstStocked(bins, k, j)
    decreases |bins| - k
  {
    if bins[k] != [] {
      j := k;
    } else {
      assert Stocked(bins, k + 1);
      j := FindFirstStocked(bins, k + 1);
    }
  }

  /** What is left over in bin i when a record at `addr` is split below i. */
  function UpperHalf(addr: int, i: nat): Record { Record(addr + Size(i), Size(i)) }

  /** After the top record of bin j was split down to bin k. */
  ghost predicate SplitDown(bins: seq<seq<Record>>, r: seq<seq<Record>>, k: nat, j: nat)
    requires k < j < |bins| && bins[j] != []
  {
    var addr := Top(bins[j]).addr;
    && |r| == |bins| && r[j] == Pop(bins[j]) && r[k] == [UpperHalf(addr, k), Record(addr, Size(k))]
    && (forall i :: k < i < j ==> r[i] == [UpperHalf(addr, i)])
    && (forall i :: 0 <= i < k ==> r[i] == bins[i]) && (forall i :: j < i < |bins| ==> r[i] == bins[i])
  }

  lemma HalveDown(bins: seq<seq<Record>>, r: seq<seq<Record>>, k: nat, j: nat)
    requires k + 1 < j < |bins| && bins[j] != [] && bins[k] == [] && SplitDown(bins, r, k + 1, j)
    ensures SplitDown(bins, Halve(r, k), k, j)
  {
    var addr := Top(bins[j]).addr;
    assert r[k] == [] && Top(r[k + 1]) == Record(addr, Size(k + 1)) && Pop(r[k + 1]) == [UpperHalf(addr, k + 1)];
    assert Halve(r, k)[k] == [UpperHalf(addr, k), Record(addr, Size(k))];
  }

  /** The smallest larger bin with a record gives up its top one; everything else follows from its address. */
  lemma {:induction false} SplitExact(bins: seq<seq<Record>>, k: nat, j: nat)
    requires FirstStocked(bins, k, j) && k < j && Top(bins[j]).size == Size(j)
    ensures SplitDown(bins, SplitLarger(bins, k), k, j)
    decreases j - k
  {
    if k + 1 == j {
      var addr := Top(bins[j]).addr;
      assert Halve(bins, k)[k] == [UpperHalf(addr, k), Record(addr, Size(k))];
    } else {
      SplitExact(bins, k + 1, j);
      HalveDown(bins, SplitLarger(bins, k + 1), k, j);
    }
  }

  /** What an allocation takes from bin j for a block of bin k leaves in the bins. */
  ghost predicate TakenFrom(bins: seq<seq<Record>>, r: seq<seq<Record>>, k: nat, j: nat)
    requires k <= j < |bins| && bins[j] != []
  {
    && |r| == |bins| && r[j] == Pop(bins[j])
    && (forall i :: k <= i < j ==> r[i] == [UpperHalf(Top(bins[j]).addr, i)])
    && (forall i :: 0 <= i < k ==> r[i] == bins[i]) && (forall i :: j < i < |bins| ==> r[i] == bins[i])
  }

  /**
    An allocation gives the start of the top record of the smallest bin that has one and fits.  That bin
    loses this record, the bins from the request's own up to it get one record each, and all others keep
    what they have.
  */
  lemma AllocExact(h: Heap, lo: int, hi: int, request: nat, k: nat, j: nat)
    requires Valid(h, lo, hi) && request > 0 && IsFit(|h.bins|, request, k) && FirstStocked(h.bins, k, j)
    ensures Alloc(h, request).1 == Some(Top(h.bins[j]).addr) && TakenFrom(h.bins, Alloc(h, request).0.bins, k, j)
  {
    FitUnique(|h.bins|, request, k);
    assert Top(h.bins[j]) in h.bins[j] && BinShape(h.bins[j], j);
    if k < j {
      SplitExact(h.bins, k, j);
      var r := SplitLarger(h.bins, k);
      assert Top(r[k]) == Record(Top(h.bins[j]).addr, Size(k)) && Pop(r[k]) == [UpperHalf(Top(h.bins[j]).addr, k)];
    }
  }

  /** Larger records are kept for larger requests: bins above the one that is used do not change. */
  lemma LargerBinsKept(h: Heap, lo: int, hi: int, request: nat, j: nat, i: nat)
    requires Valid(h, lo, hi) && j < i < |h.bins| && h.bins[j] != [] && request <= Size(j)
    ensures Alloc(h, request).0.bins[i] == h.bins[i]
  {
    var k := LowerBound(|h.bins|, 0, request);
    if request > 0 {
      assert Stocked(h.bins, k);
      var first := FindFirstStocked(h.bins, k);
      AllocExact(h, lo, hi, request, k, first);
    }
  }

  /** Freeing a block puts it on top of the bin of its size, and nothing else changes; freeing null does nothing. */
  lemma FreeExact(h: Heap, lo: int, hi: int, p: int, k: nat)
    requires Valid(h, lo, hi) && p in h.proffered && k < |h.bins| && h.proffered[p].size == Size(k)
    ensures MayFree(h, Some(p)) && Free(h, Some(p)) == Heap(h.bins[k := h.bins[k] + [Record(p, Size(k))]], h.proffered - {p})
    ensures Free(h, None) == h
  {
    FindSize(|h.bins|, k);
    assert IsUserRecord(|h.bins|, p, h.proffered[p]);
  }

  // ------------------------------------------------------------------ the first heap

  lemma {:induction false} SizeDivides(i: nat, j: nat)
    requires i <= j
    ensures Size(j) % Size(i) == 0
  {
    if i == j {
      AddMultiple(0, 1, Size(i));
    } else {
      SizeDivides(i, j - 1);
      DivBounds(Size(j - 1), Size(i));
      var q := Size(j - 1) / Size(i);
      assert Size(j) == (2 * q) * Size(i) by { assert Size(j - 1) == q * Size(i); }
      AddMultiple(0, 2 * q, Size(i));
    }
  }

  lemma WithoutMultiple(x: int, y: int, m: int)
    requires m >= 1 && y % m == 0
    ensures (x - y) % m == x % m
  {
    DivBounds(y, m);
    AddMultiple(x, -(y / m), m);
    assert -(y / m) * m == -y by { assert y / m * m == y; }
  }

  /** What bin i gets of `size` bytes at `addr`: a record if its bit is set, after the larger ones. */
  function BitRecord(addr: int, size: nat, i: nat): seq<Record> {
    if size % Size(i + 1) >= Size(i) then [Record(addr + (size - size % Size(i + 1)), Size(i))] else []
  }

  lemma FitIs(n: nat, size: nat, m: nat)
    requires 1 <= m <= n && Size(m - 1) <= size < Size(m)
    ensures LargestFit(n, size) == m
  {
    var r := LargestFit(n, size);
    if r > m { SizeGrowsTo(m, r - 1); }
  }

  lemma SizeGrowsTo(j: nat, k: nat)
    requires j <= k
    ensures Size(j) <= Size(k)
  { if j < k { SizeGrows(j, k); } }

  lemma BitStep(addr: int, size: nat, m: nat, i: nat)
    requires i + 1 < m && Size(m - 1) <= size
    ensures BitRecord(addr + Size(m - 1), size - Size(m - 1), i) == BitRecord(addr, size, i)
  {
    SizeDivides(i + 1, m - 1);
    WithoutMultiple(size, Size(m - 1), Size(i + 1));
  }

  lemma TopBit(addr: int, size: nat, m: nat)
    requires 1 <= m && size < Size(m)
    ensures BitRecord(addr, size, m - 1) == if size >= Size(m - 1) then [Record(addr, Size(m - 1))] else []
  { SmallDiv(size, Size(m)); }

  /** Bin k gets one more record. */
  function Put(bins: seq<seq<Record>>, k: nat, addr: int): (r: seq<seq<Record>>)
    requires k < |bins|
    ensures |r| == |bins|
  { bins[k := bins[k] + [Record(addr, Size(k))]] }

  lemma AssignStep(bins: seq<seq<Record>>, addr: int, size: nat, m: nat)
    requires 1 <= m <= |bins| && Size(m - 1) <= size < Size(m)
    ensures Assign(bins, addr, size) == Assign(Put(bins, m - 1, addr), addr + Size(m - 1), size - Size(m - 1))
  {
    FitIs(|bins|, size, m);
    AssignOnce(bins, addr, size, m);
  }

  lemma AssignOnce(bins: seq<seq<Record>>, addr: int, size: nat, fit: nat)
    requires 1 <= fit <= |bins| && fit == LargestFit(|bins|, size) && size >= Size(fit - 1)
    ensures Assign(bins, addr, size) == Assign(Put(bins, fit - 1, addr), addr + Size(fit - 1), size - Size(fit - 1))
  {}

  lemma AssignNothing(bins: seq<seq<Record>>, addr: int, size: nat)
    requires size < Size(0)
    ensures Assign(bins, addr, size) == bins
  { assert LargestFit(|bins|, size) == 0; }

  /** What bin i gets when the bins below m are served from the largest down. */
  function Share(addr: int, size: nat, m: nat, i: nat): seq<Record>
    requires i < m
    decreases m
  {
    var taken := if size >= Size(m - 1) then Size(m - 1) else 0;
    if i == m - 1 then (if size >= Size(m - 1) then [Record(addr, Size(m - 1))] else [])
    else Share(addr + taken, size - taken, m - 1, i)
  }

  lemma {:induction false} ShareIsBit(addr: int, size: nat, m: nat, i: nat)
    requires i < m && size < Size(m)
    ensures Share(addr, size, m, i) == BitRecord(addr, size, i)
    decreases m
  {
    if i == m - 1 {
      TopBit(addr, size, m);
    } else if size >= Size(m - 1) {
      ShareIsBit(addr + Size(m - 1), size - Size(m - 1), m - 1, i);
      BitStep(addr, size, m, i);
    } else {
      ShareIsBit(addr, size, m - 1, i);
    }
  }

  /** The bins below m are served from the largest down. */
  function Fill(bins: seq<seq<Record>>, addr: int, size: nat, m: nat): (r: seq<seq<Record>>)
    requires m <= |bins|
    ensures |r| == |bins|
    decreases m
  {
    if m == 0 then bins
    else if size >= Size(m - 1) then Fill(Put(bins, m - 1, addr), addr + Size(m - 1), size - Size(m - 1), m - 1)
    else Fill(bins, addr, size, m - 1)
  }

  lemma {:induction false} AssignIsFill(bins: seq<seq<Record>>, addr: int, size: nat, m: nat)
    requires m <= |bins| && size < Size(m)
    ensures Assign(bins, addr, size) == Fill(bins, addr, size, m)
    decreases m
  {
    if m == 0 {
      AssignNothing(bins, addr, size);
    } else if size < Size(m - 1) {
      AssignIsFill(bins, addr, size, m - 1);
    } else {
      AssignStep(bins, addr, size, m);
      AssignIsFill(Put(bins, m - 1, addr), addr + Size(m - 1), size - Size(m - 1), m - 1);
    }
  }

  lemma {:induction false} FillShares(bins: seq<seq<Record>>, addr: int, size: nat, m: nat, i: nat)
    requires m <= |bins| && i < |bins|
    ensures Fill(bins, addr, size, m)[i] == if i >= m then bins[i] else bins[i] + Share(addr, size, m, i)
    decreases m
  {
    if m > 0 {
      if size >= Size(m - 1) {
        FillShares(Put(bins, m - 1, addr), addr + Size(m - 1), size - Size(m - 1), m - 1, i);
      } else {
        FillShares(bins, addr, size, m - 1, i);
      }
    }
  }

  /** The bytes from the aligned start on. */
  function Aligned(base: int, size: nat): int { size - (Start(base) - base) }

  lemma AlignedBounds(base: int, size: nat)
    requires base > 0 && size >= ALIGNMENT
    ensures 0 < Aligned(base, size) <= size
  {}

  /** Each bin of the first heap has one record or none, as the bits of the heap's size are, largest first. */
  lemma InitExact(base: int, size: nat, i: nat)
    requires base > 0 && size >= ALIGNMENT && i < |Init(base, size).bins|
    ensures Aligned(base, size) >= 0 && Init(base, size).bins[i] == BitRecord(Start(base), Aligned(base, size), i)
  {
    BinCountBounds(size);
    AlignedBounds(base, size);
    AssignIsFill(seq(BinCount(size), _ => []), Start(base), Aligned(base, size), BinCount(size));
    FillShares(seq(BinCount(size), _ => []), Start(base), Aligned(base, size), BinCount(size), i);
    ShareIsBit(Start(base), Aligned(base, size), BinCount(size), i);
  }

  lemma {:induction false} HighestRecord(size: nat, k: nat, m: nat) returns (j: nat)
    requires k < m && Size(k) <= size < Size(m)
    ensures k <= j < m && size % Size(j + 1) >= Size(j)
    decreases m
  {
    if size >= Size(m - 1) {
      j := m - 1;
      SmallDiv(size, Size(m));
    } else {
      j := HighestRecord(size, k, m - 1);
    }
  }

  /** Bin k of the first heap or a larger one has a record exactly if the memory is that large. */
  lemma InitStockedIff(base: int, size: nat, k: nat)
    requires base > 0 && size >= ALIGNMENT && k < |Init(base, size).bins|
    ensures Stocked(Init(base, size).bins, k) <==> Size(k) <= Aligned(base, size)
  {
    var (bins, room) := (Init(base, size).bins, Aligned(base, size));
    BinCountBounds(size);
    AlignedBounds(base, size);
    if Size(k) <= room {
      var j := HighestRecord(room, k, BinCount(size));
      InitExact(base, size, j);
      assert bins[j] != [];
    } else {
      forall j | k <= j < |bins|
        ensures bins[j] == []
      {
        InitExact(base, size, j);
        SizeGrowsTo(k, j);
        SizeGrowsTo(k, j + 1);
        SmallDiv(room, Size(j + 1));
      }
    }
  }

  /** A fresh heap serves exactly the requests for which the record size that fits is no more than its memory. */
  lemma FreshHeapServesIff(base: int, size: nat, request: nat, k: nat)
    requires base > 0 && size >= ALIGNMENT && request > 0 && IsFit(|Init(base, size).bins|, request, k)
    ensures Alloc(Init(base, size), request).1.Some? <==> Size(k) <= Aligned(base, size)
  {
    var h := Init(base, size);
    InitValid(base, size);
    AllocIff(h, Start(base), Start(base) + Usable(base, size), request);
    InitStockedIff(base, size, k);
    forall i: nat | IsFit(|h.bins|, request, i)
      ensures i == k
    {
      FitUnique(|h.bins|, request, i);
      FitUnique(|h.bins|, request, k);
    }
  }
}
