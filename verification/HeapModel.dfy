/**
  The symmetric heap's allocator (src/memory) as functions on values: bins of
  power-of-two records, the records handed to the user, and what every sequence
  of calls keeps.  The class in Pow2Bins.dfy computes these functions in place.
*/
module HeapModel {
  import opened Options

  const ALIGNMENT := 128

  /** AddressRecord: a chunk of heap memory. */
  datatype Record = Record(addr: int, size: nat)
  {
    predicate Holds(cell: int) { addr <= cell < addr + size }
  }

  /** The record size of bin k. */
  function Size(k: nat): (s: nat)
    ensures s >= ALIGNMENT
  {
    if k == 0 then ALIGNMENT else 2 * Size(k - 1)
  }

  /** `bins[k]` is a stack of records, its last element on top; `proffered` is keyed by address. */
  datatype Heap = Heap(bins: seq<seq<Record>>, proffered: map<int, Record>)

  function Top<T>(s: seq<T>): T
    requires s != []
  {
    s[|s| - 1]
  }

  function Pop<T>(s: seq<T>): seq<T>
    requires s != []
  {
    s[..|s| - 1]
  }

  // ---------------------------------------------------------------- operations

  /** std::map::lower_bound on the bin sizes: the first bin from k on that fits, or n. */
  function LowerBound(n: nat, k: nat, request: nat): (r: nat)
    requires k <= n
    ensures k <= r <= n
    ensures r < n ==> Size(r) >= request
    ensures forall j :: k <= j < r ==> Size(j) < request
    decreases n - k
  {
    if k == n || Size(k) >= request then k else LowerBound(n, k + 1, request)
  }

  /** std::map::find on the bin sizes. */
  function Find(n: nat, size: nat): (r: nat)
    ensures r <= n && (r < n ==> Size(r) == size)
  {
    var k := LowerBound(n, 0, size);
    if k < n && Size(k) == size then k else n
  }

  /** split_larger_bin: fill bin k with the halves of a record of the next bin, filled first if empty. */
  function SplitLarger(bins: seq<seq<Record>>, k: nat): (r: seq<seq<Record>>)
    requires k < |bins|
    ensures |r| == |bins|
    decreases |bins| - k
  {
    if k + 1 == |bins| then bins
    else
      var filled := if bins[k + 1] == [] then SplitLarger(bins, k + 1) else bins;
      if filled[k + 1] == [] then filled else Halve(filled, k)
  }

  function Halve(bins: seq<seq<Record>>, k: nat): seq<seq<Record>>
    requires k + 1 < |bins| && bins[k + 1] != []
  {
    var record := Top(bins[k + 1]);
    var half := record.size / 2;
    bins[k + 1 := Pop(bins[k + 1])][k := bins[k] + [Record(record.addr + half, half), Record(record.addr, half)]]
  }

  /** try_to_ensure_bin_has_records */
  function Ensure(bins: seq<seq<Record>>, k: nat): (r: seq<seq<Record>>)
    requires k < |bins|
    ensures |r| == |bins|
  {
    if bins[k] != [] then bins else SplitLarger(bins, k)
  }

  function Alloc(h: Heap, request: nat): (Heap, Option<int>)
  {
    var k := LowerBound(|h.bins|, 0, request);
    if request == 0 || k == |h.bins| then (h, None)
    else
      var bins := Ensure(h.bins, k);
      if bins[k] == [] then (Heap(bins, h.proffered), None)
      else
        var record := Top(bins[k]);
        (Heap(bins[k := Pop(bins[k])], h.proffered[record.addr := record]), Some(record.addr))
  }

  /** What free demands of its caller: the null pointer, or an address the user holds. */
  predicate MayFree(h: Heap, p: Option<int>) {
    p.Some? ==> p.value in h.proffered && Find(|h.bins|, h.proffered[p.value].size) < |h.bins|
  }

  function Free(h: Heap, p: Option<int>): Heap
    requires MayFree(h, p)
  {
    if p.None? then h
    else
      var record := h.proffered[p.value];
      var k := Find(|h.bins|, record.size);
      Heap(h.bins[k := h.bins[k] + [record]], h.proffered - {p.value})
  }

  // ------------------------------------------------------------ shape of bins

  ghost predicate IsRecord(r: Record, k: nat) {
    r.size == Size(k) && r.addr > 0 && r.addr % ALIGNMENT == 0
  }

  ghost predicate BinShape(bin: seq<Record>, k: nat) {
    forall r :: r in bin ==> IsRecord(r, k)
  }

  ghost predicate Shape(bins: seq<seq<Record>>) {
    forall k :: 0 <= k < |bins| ==> BinShape(bins[k], k)
  }

  ghost predicate IsUserRecord(n: nat, p: int, r: Record) {
    r.addr == p && Find(n, r.size) < n && IsRecord(r, Find(n, r.size))
  }

  ghost predicate UserShape(n: nat, proffered: map<int, Record>) {
    forall p :: p in proffered ==> IsUserRecord(n, p, proffered[p])
  }

  lemma {:induction false} SizeGrows(j: nat, k: nat)
    requires j < k
    ensures Size(j) < Size(k)
  {
    if j < k - 1 { SizeGrows(j, k - 1); }
  }

  lemma {:induction false} SizeAligned(k: nat)
    ensures Size(k) % ALIGNMENT == 0
  {
    if k > 0 { SizeAligned(k - 1); }
  }

  lemma AlignedSum(a: int, b: int)
    requires a % ALIGNMENT == 0 && b % ALIGNMENT == 0
    ensures (a + b) % ALIGNMENT == 0
  {
  }

  lemma FindSize(n: nat, k: nat)
    requires k < n
    ensures Find(n, Size(k)) == k
  {
    var r := LowerBound(n, 0, Size(k));
    if r < k { SizeGrows(r, k); }
  }

  lemma HalveShape(bins: seq<seq<Record>>, k: nat)
    requires Shape(bins) && k + 1 < |bins| && bins[k + 1] != []
    ensures Shape(Halve(bins, k))
  {
    var record := Top(bins[k + 1]);
    assert record in bins[k + 1];
    SizeAligned(k);
    AlignedSum(record.addr, Size(k));
    var b := bins[k] + [Record(record.addr + Size(k), Size(k)), Record(record.addr, Size(k))];
    assert Halve(bins, k) == bins[k + 1 := Pop(bins[k + 1])][k := b];
    assert BinShape(b, k);
    assert BinShape(Pop(bins[k + 1]), k + 1);
  }

  lemma {:induction false} SplitShape(bins: seq<seq<Record>>, k: nat)
    requires Shape(bins) && k < |bins|
    ensures Shape(SplitLarger(bins, k))
    decreases |bins| - k
  {
    if k + 1 < |bins| {
      var filled := if bins[k + 1] == [] then SplitLarger(bins, k + 1) else bins;
      if bins[k + 1] == [] { SplitShape(bins, k + 1); }
      if filled[k + 1] != [] { HalveShape(filled, k); }
    }
  }

  // ------------------------------------------------- every byte is in one place

  /** How many of these records hold the cell. */
  ghost function InBin(bin: seq<Record>, cell: int): nat {
    if bin == [] then 0 else InBin(Pop(bin), cell) + if Top(bin).Holds(cell) then 1 else 0
  }

  ghost function InBins(bins: seq<seq<Record>>, cell: int): nat {
    if bins == [] then 0 else InBins(Pop(bins), cell) + InBin(Top(bins), cell)
  }

  ghost function Users(proffered: map<int, Record>, cell: int): set<int> {
    set p | p in proffered && proffered[p].Holds(cell)
  }

  ghost function Places(h: Heap, cell: int): nat {
    InBins(h.bins, cell) + |Users(h.proffered, cell)|
  }

  lemma InBinPush(bin: seq<Record>, r: Record, cell: int)
    ensures InBin(bin + [r], cell) == InBin(bin, cell) + if r.Holds(cell) then 1 else 0
  {
    assert Pop(bin + [r]) == bin;
  }

  lemma {:induction false} InBinsUpdate(bins: seq<seq<Record>>, k: nat, bin: seq<Record>, cell: int)
    requires k < |bins|
    ensures InBins(bins[k := bin], cell) == InBins(bins, cell) - InBin(bins[k], cell) + InBin(bin, cell)
  {
    var bins' := bins[k := bin];
    if k == |bins| - 1 {
      assert Pop(bins') == Pop(bins);
    } else {
      InBinsUpdate(Pop(bins), k, bin, cell);
      assert Pop(bins') == Pop(bins)[k := bin];
    }
  }

  lemma {:induction false} InBinsAtLeast(bins: seq<seq<Record>>, k: nat, cell: int)
    requires k < |bins|
    ensures InBins(bins, cell) >= InBin(bins[k], cell)
  {
    if k < |bins| - 1 { InBinsAtLeast(Pop(bins), k, cell); }
  }

  lemma TakeFromBin(bins: seq<seq<Record>>, k: nat, cell: int)
    requires k < |bins| && bins[k] != []
    ensures InBins(bins[k := Pop(bins[k])], cell) == InBins(bins, cell) - if Top(bins[k]).Holds(cell) then 1 else 0
  {
    InBinsUpdate(bins, k, Pop(bins[k]), cell);
  }

  /** Replacing a record by its two halves, in whatever bins, keeps every cell where it was. */
  lemma HalvesHold(bins: seq<seq<Record>>, k: nat, half: nat, cell: int)
    requires k + 1 < |bins| && bins[k + 1] != [] && Top(bins[k + 1]).size == 2 * half
    ensures InBins(Halve(bins, k), cell) == InBins(bins, cell)
  {
    var record := Top(bins[k + 1]);
    var larger, smaller := Record(record.addr + half, half), Record(record.addr, half);
    var taken := bins[k + 1 := Pop(bins[k + 1])];
    TakeFromBin(bins, k + 1, cell);
    InBinsUpdate(taken, k, bins[k] + [larger, smaller], cell);
    InBinPush(bins[k], larger, cell);
    InBinPush(bins[k] + [larger], smaller, cell);
    assert bins[k] + [larger, smaller] == (bins[k] + [larger]) + [smaller];
  }

  lemma HalveConserves(bins: seq<seq<Record>>, k: nat, cell: int)
    requires Shape(bins) && k + 1 < |bins| && bins[k + 1] != []
    ensures InBins(Halve(bins, k), cell) == InBins(bins, cell)
  {
    var record := Top(bins[k + 1]);
    assert record in bins[k + 1] && IsRecord(record, k + 1);
    HalvesHold(bins, k, Size(k), cell);
  }

  lemma {:induction false} SplitConserves(bins: seq<seq<Record>>, k: nat, cell: int)
    requires Shape(bins) && k < |bins|
    ensures InBins(SplitLarger(bins, k), cell) == InBins(bins, cell)
    decreases |bins| - k
  {
    if k + 1 < |bins| {
      var filled := if bins[k + 1] == [] then SplitLarger(bins, k + 1) else bins;
      if bins[k + 1] == [] {
        SplitShape(bins, k + 1);
        SplitConserves(bins, k + 1, cell);
      }
      if filled[k + 1] != [] { HalveConserves(filled, k, cell); }
    }
  }

  lemma EnsureKeeps(bins: seq<seq<Record>>, k: nat)
    requires Shape(bins) && k < |bins|
    ensures Shape(Ensure(bins, k)) && forall cell :: InBins(Ensure(bins, k), cell) == InBins(bins, cell)
  {
    if bins[k] == [] {
      SplitShape(bins, k);
      forall cell ensures InBins(SplitLarger(bins, k), cell) == InBins(bins, cell) { SplitConserves(bins, k, cell); }
    }
  }

  /** The memory from lo to hi is split among the bins and the user, no cell in two places. */
  ghost predicate Tiles(h: Heap, lo: int, hi: int) {
    forall cell :: Places(h, cell) == if lo <= cell < hi then 1 else 0
  }

  ghost predicate Valid(h: Heap, lo: int, hi: int) {
    Shape(h.bins) && UserShape(|h.bins|, h.proffered) && Tiles(h, lo, hi)
  }

  lemma UsersAdd(proffered: map<int, Record>, r: Record, cell: int)
    requires r.addr !in proffered
    ensures |Users(proffered[r.addr := r], cell)| == |Users(proffered, cell)| + if r.Holds(cell) then 1 else 0
  {
    var after := Users(proffered[r.addr := r], cell);
    assert after == if r.Holds(cell) then Users(proffered, cell) + {r.addr} else Users(proffered, cell);
  }

  lemma UsersRemove(proffered: map<int, Record>, p: int, cell: int)
    requires p in proffered
    ensures |Users(proffered - {p}, cell)| == |Users(proffered, cell)| - if proffered[p].Holds(cell) then 1 else 0
  {
    assert Users(proffered - {p}, cell) == Users(proffered, cell) - {p};
  }

  /** A record on top of a bin is not one the user holds. */
  lemma TopIsNew(h: Heap, lo: int, hi: int, k: nat)
    requires Valid(h, lo, hi) && k < |h.bins| && h.bins[k] != []
    ensures Top(h.bins[k]).addr !in h.proffered
  {
    var r := Top(h.bins[k]);
    assert r in h.bins[k] && IsRecord(r, k);
    InBinsAtLeast(h.bins, k, r.addr);
    assert Places(h, r.addr) <= 1;
    assert r.addr !in Users(h.proffered, r.addr);
  }

  lemma AllocKeeps(h: Heap, lo: int, hi: int, request: nat)
    requires Valid(h, lo, hi)
    ensures Valid(Alloc(h, request).0, lo, hi)
  {
    var k := LowerBound(|h.bins|, 0, request);
    if request != 0 && k < |h.bins| {
      EnsureKeeps(h.bins, k);
      var mid := Heap(Ensure(h.bins, k), h.proffered);
      assert Tiles(mid, lo, hi) by {
        forall cell ensures Places(mid, cell) == if lo <= cell < hi then 1 else 0 { assert Places(mid, cell) == Places(h, cell); }
      }
      if mid.bins[k] != [] { HandOut(mid, lo, hi, k); }
    }
  }

  /** Handing out the top record of a bin keeps the heap valid. */
  lemma HandOut(h: Heap, lo: int, hi: int, k: nat)
    requires Valid(h, lo, hi) && k < |h.bins| && h.bins[k] != []
    ensures Valid(Heap(h.bins[k := Pop(h.bins[k])], h.proffered[Top(h.bins[k]).addr := Top(h.bins[k])]), lo, hi)
  {
    var r := Top(h.bins[k]);
    assert r in h.bins[k] && IsRecord(r, k);
    TopIsNew(h, lo, hi, k);
    FindSize(|h.bins|, k);
    var h' := Heap(h.bins[k := Pop(h.bins[k])], h.proffered[r.addr := r]);
    assert BinShape(Pop(h.bins[k]), k);
    forall cell ensures Places(h', cell) == Places(h, cell) {
      TakeFromBin(h.bins, k, cell);
      UsersAdd(h.proffered, r, cell);
    }
  }

  lemma FreeKeeps(h: Heap, lo: int, hi: int, p: Option<int>)
    requires Valid(h, lo, hi) && MayFree(h, p)
    ensures Valid(Free(h, p), lo, hi)
  {
    if p.Some? {
      var record := h.proffered[p.value];
      var k := Find(|h.bins|, record.size);
      var h' := Free(h, p);
      assert BinShape(h.bins[k], k) && IsUserRecord(|h.bins|, p.value, record);
      assert BinShape(h.bins[k] + [record], k);
      forall cell ensures Places(h', cell) == Places(h, cell) {
        InBinsUpdate(h.bins, k, h.bins[k] + [record], cell);
        InBinPush(h.bins[k], record, cell);
        UsersRemove(h.proffered, p.value, cell);
      }
    }
  }

  // -------------------------------------------------------------- what a user sees

  /** Blocks the user holds overlap neither each other nor free memory, and lie inside the heap. */
  lemma NoOverlap(h: Heap, lo: int, hi: int, p: int, cell: int)
    requires Valid(h, lo, hi) && p in h.proffered && h.proffered[p].Holds(cell)
    ensures lo <= cell < hi
    ensures forall q :: q in h.proffered && h.proffered[q].Holds(cell) ==> q == p
    ensures forall k, i :: 0 <= k < |h.bins| && 0 <= i < |h.bins[k]| ==> !h.bins[k][i].Holds(cell)
  {
    var users := Users(h.proffered, cell);
    assert p in users;
    assert |users - {p}| == |users| - 1;
    assert Places(h, cell) <= 1;
    forall q | q in h.proffered && h.proffered[q].Holds(cell) ensures q == p {
      assert q in users;
      assert users - {p} == {};
    }
    forall k, i | 0 <= k < |h.bins| && 0 <= i < |h.bins[k]| ensures !h.bins[k][i].Holds(cell) {
      InBinsAtLeast(h.bins, k, cell);
      InBinAtLeast(h.bins[k], i, cell);
    }
  }

  lemma {:induction false} InBinAtLeast(bin: seq<Record>, i: nat, cell: int)
    requires i < |bin|
    ensures bin[i].Holds(cell) ==> InBin(bin, cell) >= 1
  {
    if i < |bin| - 1 { InBinAtLeast(Pop(bin), i, cell); }
  }

  /** Some bin from k on has a record. */
  ghost predicate Stocked(bins: seq<seq<Record>>, k: nat) {
    exists j :: k <= j < |bins| && bins[j] != []
  }

  /** Splitting fills an empty bin exactly if a larger one has a record, and otherwise changes nothing. */
  lemma {:induction false} SplitFillsIff(bins: seq<seq<Record>>, k: nat)
    requires k < |bins| && bins[k] == []
    ensures SplitLarger(bins, k)[k] != [] <==> Stocked(bins, k)
    ensures !Stocked(bins, k) ==> SplitLarger(bins, k) == bins
    decreases |bins| - k
  {
    if k + 1 < |bins| {
      if bins[k + 1] == [] {
        SplitFillsIff(bins, k + 1);
        assert Stocked(bins, k) <==> Stocked(bins, k + 1);
      } else {
        assert Stocked(bins, k);
      }
    }
  }

  /** The bin a request is served from: the smallest record size that is large enough. */
  ghost predicate IsFit(n: nat, request: nat, k: nat) {
    k < n && Size(k) >= request && forall j :: 0 <= j < k ==> Size(j) < request
  }

  /**
    An allocation succeeds exactly if the request is not empty, some record size fits it, and that bin
    or a larger one has a record.  Then the user gets an aligned block of the smallest size that fits;
    otherwise nothing changes.
  */
  lemma AllocIff(h: Heap, lo: int, hi: int, request: nat)
    requires Valid(h, lo, hi)
    ensures Alloc(h, request).1.Some? <==> request > 0 && exists k: nat :: IsFit(|h.bins|, request, k) && Stocked(h.bins, k)
    ensures Alloc(h, request).1.None? ==> Alloc(h, request).0 == h
    ensures Alloc(h, request).1.Some? ==>
      var (h', p) := Alloc(h, request);
      && p.value !in h.proffered && p.value > 0 && p.value % ALIGNMENT == 0
      && h'.proffered.Keys == h.proffered.Keys + {p.value}
      && (forall q :: q in h.proffered ==> h'.proffered[q] == h.proffered[q])
      && exists k: nat :: IsFit(|h.bins|, request, k) && h'.proffered[p.value] == Record(p.value, Size(k))
  {
    var n := |h.bins|;
    var k := LowerBound(n, 0, request);
    forall j: nat | IsFit(n, request, j) ensures j == k { FitUnique(n, request, j); }
    if request > 0 && k < n {
      assert IsFit(n, request, k);
      if h.bins[k] == [] { SplitFillsIff(h.bins, k); }
      EnsureKeeps(h.bins, k);
      if Ensure(h.bins, k)[k] != [] { AllocGives(h, lo, hi, request, k); }
    }
  }

  lemma FitUnique(n: nat, request: nat, k: nat)
    requires IsFit(n, request, k)
    ensures LowerBound(n, 0, request) == k
  {
  }

  lemma AllocGives(h: Heap, lo: int, hi: int, request: nat, k: nat)
    requires Valid(h, lo, hi) && k < |h.bins| && k == LowerBound(|h.bins|, 0, request) && request > 0
    requires Ensure(h.bins, k)[k] != []
    ensures var (h', p) := Alloc(h, request);
      p.Some? && p.value !in h.proffered && IsRecord(Record(p.value, Size(k)), k)
      && h'.proffered == h.proffered[p.value := Record(p.value, Size(k))]
      && Top(Ensure(h.bins, k)[k]) == Record(p.value, Size(k))
  {
    EnsureKeeps(h.bins, k);
    var mid := Heap(Ensure(h.bins, k), h.proffered);
    assert Tiles(mid, lo, hi) by {
      forall cell ensures Places(mid, cell) == if lo <= cell < hi then 1 else 0 { assert Places(mid, cell) == Places(h, cell); }
    }
    TopIsNew(mid, lo, hi, k);
    var r := Top(mid.bins[k]);
    assert r in mid.bins[k] && IsRecord(r, k);
    assert r == Record(r.addr, Size(k));
  }

  /** What freeing a block just allocated leaves: only the splitting that was done for it. */
  lemma AllocThenFree(h: Heap, lo: int, hi: int, request: nat, k: nat)
    requires Valid(h, lo, hi) && Alloc(h, request).1.Some? && k == LowerBound(|h.bins|, 0, request)
    ensures var (h', p) := Alloc(h, request); MayFree(h', p) && Free(h', p) == Heap(Ensure(h.bins, k), h.proffered)
  {
    AllocGives(h, lo, hi, request, k);
    FindSize(|h.bins|, k);
    var bins := Ensure(h.bins, k);
    var (h', p) := Alloc(h, request);
    var r := Record(p.value, Size(k));
    assert h'.proffered - {p.value} == h.proffered;
    assert h'.bins == bins[k := Pop(bins[k])] && Top(bins[k]) == r;
    PushBack(bins, k);
  }

  lemma PushBack<T>(bins: seq<seq<T>>, k: nat)
    requires k < |bins| && bins[k] != []
    ensures bins[k := Pop(bins[k])][k := Pop(bins[k]) + [Top(bins[k])]] == bins
  {
    assert Pop(bins[k]) + [Top(bins[k])] == bins[k];
  }

  /**
    Freeing what was just allocated gives the old heap back exactly if no record had to be split for
    it: split records are never combined again.
  */
  lemma AllocFreeIff(h: Heap, lo: int, hi: int, request: nat, k: nat)
    requires Valid(h, lo, hi) && Alloc(h, request).1.Some? && k == LowerBound(|h.bins|, 0, request)
    ensures var (h', p) := Alloc(h, request);
      (MayFree(h', p)
       && Free(h', p).proffered == h.proffered
       && (Free(h', p) == h <==> h.bins[k] != []))
  {
    AllocThenFree(h, lo, hi, request, k);
    assert Ensure(h.bins, k)[k] != [];
  }

  // --------------------------------------------------------------------- all runs

  datatype Call = Malloc(size: nat) | Release(p: Option<int>)

  function Step(h: Heap, call: Call): (Heap, Option<int>)
    requires call.Release? ==> MayFree(h, call.p)
  {
    match call
    case Malloc(size) => Alloc(h, size)
    case Release(p) => (Free(h, p), None)
  }

  /** The user only frees null and addresses they hold. */
  predicate Legal(h: Heap, calls: seq<Call>)
    decreases |calls|
  {
    calls == [] || ((calls[0].Release? ==> MayFree(h, calls[0].p)) && Legal(Step(h, calls[0]).0, calls[1..]))
  }

  /** The heap after these calls. */
  function After(h: Heap, calls: seq<Call>): Heap
    requires Legal(h, calls)
    decreases |calls|
  {
    if calls == [] then h else After(Step(h, calls[0]).0, calls[1..])
  }

  /** What each call returns. */
  function Results(h: Heap, calls: seq<Call>): (r: seq<Option<int>>)
    requires Legal(h, calls)
    ensures |r| == |calls|
    decreases |calls|
  {
    if calls == [] then [] else [Step(h, calls[0]).1] + Results(Step(h, calls[0]).0, calls[1..])
  }

  /** After any legal calls, every cell of the heap is still in exactly one place. */
  lemma {:induction false} ValidOverAllRuns(h: Heap, lo: int, hi: int, calls: seq<Call>)
    requires Valid(h, lo, hi) && Legal(h, calls)
    ensures Valid(After(h, calls), lo, hi)
    decreases |calls|
  {
    if calls != [] {
      match calls[0] {
        case Malloc(size) => AllocKeeps(h, lo, hi, size);
        case Release(p) => FreeKeeps(h, lo, hi, p);
      }
      ValidOverAllRuns(Step(h, calls[0]).0, lo, hi, calls[1..]);
    }
  }

  // ---------------------------------------------------------------- the first heap

  /** find_first_set_one on a positive number: the position of its highest one bit. */
  function HighestBit(v: nat): nat { if v < 2 then 0 else 1 + HighestBit(v / 2) }

  /** The Binner makes one bin for each bit position from the alignment's to the heap size's. */
  function BinCount(size: nat): (n: int) { HighestBit(size) - HighestBit(ALIGNMENT) + 1 }

  /** The number of the largest bin that fits a chunk, counted from one; zero if none does. */
  function LargestFit(n: nat, size: nat): (r: nat)
    ensures r <= n && (r > 0 ==> Size(r - 1) <= size) && forall k :: r <= k < n ==> Size(k) > size
  {
    if n == 0 || Size(n - 1) <= size then n else LargestFit(n - 1, size)
  }

  /** assign_heap_memory_to_bins: put the largest chunk that fits, until none does. */
  function Assign(bins: seq<seq<Record>>, addr: int, size: nat): (r: seq<seq<Record>>)
    ensures |r| == |bins|
    decreases size
  {
    var fit := LargestFit(|bins|, size);
    if fit == 0 then bins
    else
      var chunk := Size(fit - 1);
      Assign(bins[fit - 1 := bins[fit - 1] + [Record(addr, chunk)]], addr + chunk, size - chunk)
  }

  /** ignore_unaligned_heap_memory: where the aligned part of the heap starts. */
  function Start(base: int): int { if base % ALIGNMENT == 0 then base else base + ALIGNMENT - base % ALIGNMENT }

  /** How much of it can be handed out. */
  function Usable(base: int, size: nat): int {
    Whole(size - (Start(base) - base))
  }

  function Init(base: int, size: nat): Heap
    requires base > 0 && size >= ALIGNMENT
  {
    BinCountBounds(size);
    Heap(Assign(seq(BinCount(size), _ => []), Start(base), size - (Start(base) - base)), map[])
  }

  function Pow2(b: nat): nat { if b == 0 then 1 else 2 * Pow2(b - 1) }

  lemma {:induction false} Pow2Grows(a: nat, b: nat)
    requires a <= b
    ensures Pow2(a) <= Pow2(b)
  {
    if a < b { Pow2Grows(a, b - 1); }
  }

  lemma {:induction false} HighestBitBounds(v: nat)
    requires v >= 1
    ensures Pow2(HighestBit(v)) <= v < Pow2(HighestBit(v) + 1)
  {
    if v >= 2 { HighestBitBounds(v / 2); }
  }

  lemma {:induction false} SizeIsPow2(k: nat)
    ensures Size(k) == Pow2(k + 7)
  {
    if k == 0 {
      assert Pow2(3) == 8;
      assert Pow2(5) == 32;
    } else {
      SizeIsPow2(k - 1);
    }
  }

  /** The bins are those of the record sizes up to the heap's size. */
  lemma BinCountBounds(size: nat)
    requires size >= ALIGNMENT
    ensures BinCount(size) >= 1 && Size(BinCount(size) - 1) <= size < Size(BinCount(size))
  {
    AlignmentBit();
    HighestBitBounds(size);
    var b := HighestBit(size);
    SizeIsPow2(0);
    if b < 7 { Pow2Grows(b + 1, 7); }
    SizeIsPow2(b - 7);
    SizeIsPow2(b - 6);
  }

  lemma AlignmentBit()
    ensures HighestBit(ALIGNMENT) == 7
  {
    var b := HighestBit(ALIGNMENT);
    HighestBitBounds(ALIGNMENT);
    SizeIsPow2(0);
    SizeIsPow2(1);
    if b < 7 { Pow2Grows(b + 1, 7); } else if b > 7 { Pow2Grows(8, b); }
  }

  /** A size rounded down to the alignment. */
  function Whole(size: int): int { size - size % ALIGNMENT }

  lemma WholeStep(size: int, chunk: int)
    requires chunk % ALIGNMENT == 0
    ensures Whole(size) == chunk + Whole(size - chunk)
  {
  }

  lemma {:induction false} AssignShape(bins: seq<seq<Record>>, addr: int, size: nat)
    requires Shape(bins) && addr > 0 && addr % ALIGNMENT == 0
    ensures Shape(Assign(bins, addr, size))
    decreases size
  {
    var fit := LargestFit(|bins|, size);
    if fit > 0 {
      var k, chunk := fit - 1, Size(fit - 1);
      assert BinShape(bins[k], k);
      var bins' := bins[k := bins[k] + [Record(addr, chunk)]];
      assert BinShape(bins'[k], k);
      SizeAligned(k);
      AlignedSum(addr, chunk);
      AssignShape(bins', addr + chunk, size - chunk);
    }
  }

  /** How much memory Assign gives to n bins. */
  function Given(n: nat, size: nat): nat {
    var fit := LargestFit(n, size);
    if fit == 0 then 0 else Size(fit - 1) + Given(n, size - Size(fit - 1))
  }

  lemma {:induction false} GivenIsWhole(n: nat, size: nat)
    requires n > 0
    ensures Given(n, size) == Whole(size)
  {
    var fit := LargestFit(n, size);
    if fit == 0 {
      assert Size(0) > size;
    } else {
      GivenIsWhole(n, size - Size(fit - 1));
      SizeAligned(fit - 1);
      WholeStep(size, Size(fit - 1));
    }
  }

  /** Each cell given to the bins is added once. */
  lemma {:induction false} AssignCovers(bins: seq<seq<Record>>, addr: int, size: nat, cell: int)
    ensures InBins(Assign(bins, addr, size), cell) == InBins(bins, cell) + if addr <= cell < addr + Given(|bins|, size) then 1 else 0
    decreases size
  {
    var fit := LargestFit(|bins|, size);
    if fit > 0 {
      var k, chunk := fit - 1, Size(fit - 1);
      var record := Record(addr, chunk);
      InBinsUpdate(bins, k, bins[k] + [record], cell);
      InBinPush(bins[k], record, cell);
      AssignCovers(bins[k := bins[k] + [record]], addr + chunk, size - chunk, cell);
    }
  }

  lemma {:induction false} NoRecords(n: nat, cell: int)
    ensures InBins(seq(n, _ => []), cell) == 0
  {
    var bins: seq<seq<Record>> := seq(n, _ => []);
    if n > 0 {
      NoRecords(n - 1, cell);
      assert Pop(bins) == seq(n - 1, _ => []);
    }
  }

  lemma AssignValid(n: nat, addr: int, size: nat)
    requires n > 0 && addr > 0 && addr % ALIGNMENT == 0
    ensures Valid(Heap(Assign(seq(n, _ => []), addr, size), map[]), addr, addr + Whole(size))
  {
    var none: seq<seq<Record>> := seq(n, _ => []);
    AssignShape(none, addr, size);
    GivenIsWhole(n, size);
    var h := Heap(Assign(none, addr, size), map[]);
    forall cell ensures Places(h, cell) == if addr <= cell < addr + Given(n, size) then 1 else 0 {
      NoRecords(n, cell);
      AssignCovers(none, addr, size, cell);
      assert Users(h.proffered, cell) == {};
    }
  }

  /** The first heap holds exactly the aligned part of the memory, each cell once. */
  lemma InitValid(base: int, size: nat)
    requires base > 0 && size >= ALIGNMENT
    ensures Valid(Init(base, size), Start(base), Start(base) + Usable(base, size))
  {
    BinCountBounds(size);
    AssignValid(BinCount(size), Start(base), size - (Start(base) - base));
  }

  /** Any calls on a fresh heap keep every cell of its aligned memory in exactly one place. */
  lemma HeapSafeOverAllRuns(base: int, size: nat, calls: seq<Call>)
    requires base > 0 && size >= ALIGNMENT && Legal(Init(base, size), calls)
    ensures Valid(After(Init(base, size), calls), Start(base), Start(base) + Usable(base, size))
  {
    InitValid(base, size);
    ValidOverAllRuns(Init(base, size), Start(base), Start(base) + Usable(base, size), calls);
  }
}
