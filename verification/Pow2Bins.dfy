/**
  The allocator's class (src/memory/pow2_bins.hpp, src/memory/binner.hpp), which
  changes its bins and its table of proffered records in place.  Each method is
  tied to the function of HeapModel that says what it does.
*/
module Pow2Bins {
  import opened HeapModel
  import opened Options

  /** The null pointer. */
  const NULL := 0

  class Allocator {
    var bins: seq<seq<Record>>
    var proffered: map<int, Record>

    ghost function State(): Heap
      reads this
    {
      Heap(bins, proffered)
    }

    /** The Binner's constructor and assign_heap_to_bins. */
    constructor (base: int, size: nat)
      requires base > NULL && size >= ALIGNMENT
      ensures State() == Init(base, size)
      ensures Valid(State(), Start(base), Start(base) + Usable(base, size))
    {
      BinCountBounds(size);
      bins := seq(BinCount(size), _ => []);
      proffered := map[];
      new;
      AssignHeapToBins(base, size);
      InitValid(base, size);
    }

    /** assign_heap_to_bins */
    method AssignHeapToBins(base: int, size: nat)
      requires base > NULL && size >= ALIGNMENT
      modifies this`bins
      ensures bins == Assign(old(bins), Start(base), size - (Start(base) - base))
    {
      var addr, left := IgnoreUnaligned(base, size);
      AssignHeapMemoryToBins(addr, left);
    }

    /** ignore_unaligned_heap_memory */
    static method IgnoreUnaligned(base: int, size: nat) returns (addr: int, left: nat)
      requires base > NULL && size >= ALIGNMENT
      ensures addr == Start(base) && addr - base + left == size && addr > NULL
      ensures addr % ALIGNMENT == 0 && base <= addr < base + ALIGNMENT
    {
      addr, left := base, size;
      var offBy := base % ALIGNMENT;
      if offBy != 0 {
        addr, left := addr + (ALIGNMENT - offBy), left - (ALIGNMENT - offBy);
      }
    }

    /** assign_heap_memory_to_bins: give the memory to the bins chunk by chunk. */
    method AssignHeapMemoryToBins(start: int, size: nat)
      requires start > NULL
      modifies this`bins
      ensures bins == Assign(old(bins), start, size)
    {
      var addr, left := start, size;
      while addr != NULL
        invariant addr >= NULL
        invariant Assign(old(bins), start, size) == if addr == NULL then bins else Assign(bins, addr, left)
        decreases addr != NULL, left
      {
        addr, left := AssignHeapChunk(addr, left);
      }
    }

    /** assign_heap_chunk: put the largest record that fits at the chunk's start, and return the rest. */
    method AssignHeapChunk(addr: int, size: nat) returns (next: int, left: nat)
      requires addr > NULL
      modifies this`bins
      ensures var fit := LargestFit(|old(bins)|, size);
        if fit == 0 then next == NULL && left == 0 && bins == old(bins)
        else
          && next == addr + Size(fit - 1) && left == size - Size(fit - 1)
          && bins == old(bins)[fit - 1 := old(bins)[fit - 1] + [Record(addr, Size(fit - 1))]]
    {
      var rit: nat := |bins|;
      while rit != 0 && size < Size(rit - 1)
        invariant rit <= |bins| && LargestFit(|bins|, size) == LargestFit(rit, size)
      {
        rit := rit - 1;
      }
      if rit == 0 {
        return NULL, 0;
      }
      var chunk := Size(rit - 1);
      bins := bins[rit - 1 := bins[rit - 1] + [Record(addr, chunk)]];
      return addr + chunk, size - chunk;
    }

    method SplitLargerBin(k: nat)
      requires k < |bins|
      modifies this`bins
      ensures bins == SplitLarger(old(bins), k)
      decreases |bins| - k
    {
      var next := k + 1;
      if next == |bins| {
        return;
      }
      if bins[next] == [] {
        SplitLargerBin(next);
      }
      if bins[next] == [] {
        return;
      }
      var record := Top(bins[next]);
      bins := bins[next := Pop(bins[next])];
      var half := record.size / 2;
      var smaller, larger := Record(record.addr, half), Record(record.addr + half, half);
      bins := bins[k := bins[k] + [larger]];
      bins := bins[k := bins[k] + [smaller]];
      assert bins == Halve(if old(bins)[next] == [] then SplitLarger(old(bins), next) else old(bins), k) by {
        ghost var filled := if old(bins)[next] == [] then SplitLarger(old(bins), next) else old(bins);
        assert filled[k] + [larger] + [smaller] == filled[k] + [larger, smaller];
      }
    }

    /** retrieve_record_from_bin: the empty record reports a failure. */
    method RetrieveRecordFromBin(k: nat) returns (record: Record)
      requires k < |bins| && Shape(bins)
      modifies this`bins
      ensures var filled := Ensure(old(bins), k);
        if filled[k] == [] then bins == filled && record == Record(NULL, 0)
        else bins == filled[k := Pop(filled[k])] && record == Top(filled[k]) && record.addr != NULL
    {
      EnsureKeeps(bins, k);
      if bins[k] == [] {
        SplitLargerBin(k);
      }
      if bins[k] == [] {
        return Record(NULL, 0);
      }
      record := Top(bins[k]);
      assert record in bins[k] && BinShape(bins[k], k);
      bins := bins[k := Pop(bins[k])];
    }

    /** One attempt of alloc, on the bin an iterator points to; |bins| is the end iterator. */
    method DoRequestUsing(k: nat, ptr: int) returns (r: int)
      requires k <= |bins| && Shape(bins)
      modifies this
      ensures k == |old(bins)| ==> State() == old(State()) && r == ptr
      ensures k < |old(bins)| ==>
        (var filled := Ensure(old(bins), k);
         if filled[k] == [] then State() == Heap(filled, old(proffered)) && r == NULL
         else
           && r == Top(filled[k]).addr != NULL
           && State() == Heap(filled[k := Pop(filled[k])], old(proffered)[r := Top(filled[k])]))
    {
      r := ptr;
      if k != |bins| {
        var record := RetrieveRecordFromBin(k);
        if record.addr != NULL {
          proffered := proffered[record.addr := record];
        }
        r := record.addr;
      }
    }

    /** An exact match is tried first, then the smallest size that fits. */
    method Alloc(request: nat, ghost lo: int, ghost hi: int) returns (ptr: int)
      requires Valid(State(), lo, hi)
      modifies this
      ensures State() == HeapModel.Alloc(old(State()), request).0 && Valid(State(), lo, hi)
      ensures HeapModel.Alloc(old(State()), request).1 == if ptr == NULL then None else Some(ptr)
    {
      ptr := NULL;
      AllocKeeps(State(), lo, hi, request);
      if request == 0 {
        return;
      }
      ghost var k := LowerBound(|bins|, 0, request);
      if k < |bins| && bins[k] == [] { SplitFillsIff(bins, k); }
      ptr := DoRequestUsing(Find(|bins|, request), ptr);
      if ptr != NULL {
        return;
      }
      assert State() == old(State());
      ptr := DoRequestUsing(LowerBound(|bins|, 0, request), ptr);
    }

    /** SingleHeap::free and Pow2Bins::free. */
    method Free(ptr: int, ghost lo: int, ghost hi: int)
      requires Valid(State(), lo, hi) && (ptr == NULL || ptr in proffered)
      modifies this
      ensures var p := if ptr == NULL then None else Some(ptr);
        MayFree(old(State()), p) && State() == HeapModel.Free(old(State()), p)
      ensures Valid(State(), lo, hi)
    {
      assert ptr in proffered ==> IsUserRecord(|bins|, ptr, proffered[ptr]);
      FreeKeeps(State(), lo, hi, if ptr == NULL then None else Some(ptr));
      if ptr == NULL {
        return;
      }
      var record := proffered[ptr];
      proffered := proffered - {ptr};
      var k := Find(|bins|, record.size);
      bins := bins[k := bins[k] + [record]];
    }
  }
}
