/**
  What makes the heap symmetric: the allocator looks at addresses only through
  their offsets, so PEs that make the same calls get blocks at the same offsets,
  as far as their heaps are aligned alike.
*/
module HeapSymmetry {
  import opened HeapModel
  import opened Options

  /** The same record in memory that lies d further. */
  function MoveRecord(r: Record, d: int): Record { Record(r.addr + d, r.size) }

  ghost predicate BinMoved(bin: seq<Record>, bin': seq<Record>, d: int) {
    |bin| == |bin'| && forall i :: 0 <= i < |bin| ==> bin'[i] == MoveRecord(bin[i], d)
  }

  ghost predicate BinsMoved(bins: seq<seq<Record>>, bins': seq<seq<Record>>, d: int) {
    |bins| == |bins'| && forall k :: 0 <= k < |bins| ==> BinMoved(bins[k], bins'[k], d)
  }

  /** The user holds a block at p in one heap exactly if they hold the same block at p + d in the other. */
  ghost predicate SameBlock(m: map<int, Record>, m': map<int, Record>, p: int, d: int) {
    (p in m <==> p + d in m') && (p in m ==> m'[p + d] == MoveRecord(m[p], d))
  }

  ghost predicate UsersMoved(m: map<int, Record>, m': map<int, Record>, d: int) {
    forall p :: SameBlock(m, m', p, d)
  }

  /** h' is h in memory that lies d further. */
  ghost predicate Moved(h: Heap, h': Heap, d: int) {
    BinsMoved(h.bins, h'.bins, d) && UsersMoved(h.proffered, h'.proffered, d)
  }

  function MovePtr(p: Option<int>, d: int): Option<int> { if p.None? then None else Some(p.value + d) }

  function MoveCall(call: Call, d: int): Call {
    match call
    case Malloc(_) => call
    case Release(p) => Release(MovePtr(p, d))
  }

  function MoveCalls(calls: seq<Call>, d: int): seq<Call> {
    if calls == [] then [] else [MoveCall(calls[0], d)] + MoveCalls(calls[1..], d)
  }

  lemma HalveMoved(bins: seq<seq<Record>>, bins': seq<seq<Record>>, k: nat, d: int)
    requires BinsMoved(bins, bins', d) && k + 1 < |bins| && bins[k + 1] != []
    ensures bins'[k + 1] != [] && BinsMoved(Halve(bins, k), Halve(bins', k), d)
  {
    assert BinMoved(bins[k + 1], bins'[k + 1], d) && BinMoved(bins[k], bins'[k], d);
    assert Top(bins'[k + 1]) == MoveRecord(Top(bins[k + 1]), d);
    assert BinMoved(Pop(bins[k + 1]), Pop(bins'[k + 1]), d);
  }

  lemma {:induction false} SplitMoved(bins: seq<seq<Record>>, bins': seq<seq<Record>>, k: nat, d: int)
    requires BinsMoved(bins, bins', d) && k < |bins|
    ensures BinsMoved(SplitLarger(bins, k), SplitLarger(bins', k), d)
    decreases |bins| - k
  {
    if k + 1 < |bins| {
      assert BinMoved(bins[k + 1], bins'[k + 1], d);
      var filled, filled' := bins, bins';
      if bins[k + 1] == [] {
        SplitMoved(bins, bins', k + 1, d);
        filled, filled' := SplitLarger(bins, k + 1), SplitLarger(bins', k + 1);
      }
      assert BinMoved(filled[k + 1], filled'[k + 1], d);
      if filled[k + 1] != [] { HalveMoved(filled, filled', k, d); }
    }
  }

  lemma AllocMoved(h: Heap, h': Heap, request: nat, d: int)
    requires Moved(h, h', d)
    ensures Moved(Alloc(h, request).0, Alloc(h', request).0, d)
    ensures Alloc(h', request).1 == MovePtr(Alloc(h, request).1, d)
  {
    var k := LowerBound(|h.bins|, 0, request);
    if request != 0 && k < |h.bins| {
      assert BinMoved(h.bins[k], h'.bins[k], d);
      SplitMoved(h.bins, h'.bins, k, d);
      var bins, bins' := Ensure(h.bins, k), Ensure(h'.bins, k);
      assert BinMoved(bins[k], bins'[k], d);
      if bins[k] != [] {
        var r, r' := Top(bins[k]), Top(bins'[k]);
        assert r' == MoveRecord(r, d);
        assert BinMoved(Pop(bins[k]), Pop(bins'[k]), d);
        AddMoved(h.proffered, h'.proffered, r, d);
      }
    }
  }

  lemma AddMoved(m: map<int, Record>, m': map<int, Record>, r: Record, d: int)
    requires UsersMoved(m, m', d)
    ensures UsersMoved(m[r.addr := r], m'[r.addr + d := MoveRecord(r, d)], d)
  {
    var (n, n') := (m[r.addr := r], m'[r.addr + d := MoveRecord(r, d)]);
    forall q
      ensures SameBlock(n, n', q, d)
    { assert SameBlock(m, m', q, d); }
  }

  lemma FreeMoved(h: Heap, h': Heap, p: Option<int>, d: int)
    requires Moved(h, h', d) && MayFree(h, p)
    ensures MayFree(h', MovePtr(p, d)) && Moved(Free(h, p), Free(h', MovePtr(p, d)), d)
  {
    if p.Some? {
      assert SameBlock(h.proffered, h'.proffered, p.value, d);
      var k := Find(|h.bins|, h.proffered[p.value].size);
      assert BinMoved(h.bins[k], h'.bins[k], d);
      RemoveMoved(h.proffered, h'.proffered, p.value, d);
    }
  }

  lemma RemoveMoved(m: map<int, Record>, m': map<int, Record>, p: int, d: int)
    requires UsersMoved(m, m', d)
    ensures UsersMoved(m - {p}, m' - {p + d}, d)
  {
    var (n, n') := (m - {p}, m' - {p + d});
    forall q
      ensures SameBlock(n, n', q, d)
    { assert SameBlock(m, m', q, d); }
  }

  /** The same calls on two heaps that differ only in where they lie return the same offsets. */
  lemma {:induction false} SameOffsets(h: Heap, h': Heap, calls: seq<Call>, d: int)
    requires Moved(h, h', d) && Legal(h, calls)
    ensures Legal(h', MoveCalls(calls, d)) && |MoveCalls(calls, d)| == |calls|
    ensures Moved(After(h, calls), After(h', MoveCalls(calls, d)), d)
    ensures forall i :: 0 <= i < |calls| ==> Results(h', MoveCalls(calls, d))[i] == MovePtr(Results(h, calls)[i], d)
    decreases |calls|
  {
    if calls != [] {
      match calls[0] {
        case Malloc(size) => AllocMoved(h, h', size, d);
        case Release(p) => FreeMoved(h, h', p, d);
      }
      var calls' := MoveCalls(calls, d);
      assert calls'[0] == MoveCall(calls[0], d) && calls'[1..] == MoveCalls(calls[1..], d);
      SameOffsets(Step(h, calls[0]).0, Step(h', calls'[0]).0, calls[1..], d);
    }
  }

  lemma {:induction false} AssignMoved(bins: seq<seq<Record>>, bins': seq<seq<Record>>, addr: int, size: nat, d: int)
    requires BinsMoved(bins, bins', d)
    ensures BinsMoved(Assign(bins, addr, size), Assign(bins', addr + d, size), d)
    decreases size
  {
    var fit := LargestFit(|bins|, size);
    if fit > 0 {
      var k, chunk := fit - 1, Size(fit - 1);
      assert BinMoved(bins[k], bins'[k], d);
      var next := bins[k := bins[k] + [Record(addr, chunk)]];
      var next' := bins'[k := bins'[k] + [Record(addr + d, chunk)]];
      assert BinMoved(next[k], next'[k], d);
      AssignMoved(next, next', addr + chunk, size - chunk, d);
    }
  }

  lemma {:induction false} InBinMoved(bin: seq<Record>, bin': seq<Record>, cell: int, d: int)
    requires BinMoved(bin, bin', d)
    ensures InBin(bin', cell + d) == InBin(bin, cell)
  {
    if bin != [] { InBinMoved(Pop(bin), Pop(bin'), cell, d); }
  }

  lemma {:induction false} InBinsMoved(bins: seq<seq<Record>>, bins': seq<seq<Record>>, cell: int, d: int)
    requires BinsMoved(bins, bins', d)
    ensures InBins(bins', cell + d) == InBins(bins, cell)
  {
    if bins != [] {
      assert BinMoved(Top(bins), Top(bins'), d);
      InBinMoved(Top(bins), Top(bins'), cell, d);
      InBinsMoved(Pop(bins), Pop(bins'), cell, d);
    }
  }

  /**
    Two PEs' heaps of one size start as copies of each other exactly if their memory is aligned alike,
    or nothing of either can be handed out.
  */
  lemma InitMovedIff(base: int, base': int, size: nat)
    requires base > 0 && base' > 0 && size >= ALIGNMENT
    ensures Moved(Init(base, size), Init(base', size), base' - base) <==>
      base % ALIGNMENT == base' % ALIGNMENT || Usable(base, size) == 0 == Usable(base', size)
  {
    if Moved(Init(base, size), Init(base', size), base' - base) { StartsMoved(base, base', size); }
    if base % ALIGNMENT == base' % ALIGNMENT || Usable(base, size) == 0 == Usable(base', size) { InitMoved(base, base', size); }
  }

  lemma InitMoved(base: int, base': int, size: nat)
    requires base > 0 && base' > 0 && size >= ALIGNMENT
    requires base % ALIGNMENT == base' % ALIGNMENT || Usable(base, size) == 0 == Usable(base', size)
    ensures Moved(Init(base, size), Init(base', size), base' - base)
  {
    BinCountBounds(size);
    var none: seq<seq<Record>> := seq(BinCount(size), _ => []);
    var d, left, left' := base' - base, size - (Start(base) - base), size - (Start(base') - base');
    assert BinsMoved(none, none, d);
    if base % ALIGNMENT == base' % ALIGNMENT {
      AssignMoved(none, none, Start(base), left, d);
    } else {
      AssignNothing(none, Start(base), left);
      AssignNothing(none, Start(base'), left');
    }
  }

  lemma AssignNothing(bins: seq<seq<Record>>, addr: int, size: nat)
    requires Whole(size) == 0
    ensures Assign(bins, addr, size) == bins
  {
    assert LargestFit(|bins|, size) == 0;
  }

  lemma StartsMoved(base: int, base': int, size: nat)
    requires base > 0 && base' > 0 && size >= ALIGNMENT
    requires Moved(Init(base, size), Init(base', size), base' - base)
    ensures base % ALIGNMENT == base' % ALIGNMENT || Usable(base, size) == 0 == Usable(base', size)
  {
    var d := base' - base;
    InitValid(base, size);
    InitValid(base', size);
    SameCells(base, base', size, Start(base));
    SameCells(base, base', size, Start(base) - 1);
    SameCells(base, base', size, Start(base') - d);
  }

  lemma SameCells(base: int, base': int, size: nat, cell: int)
    requires base > 0 && base' > 0 && size >= ALIGNMENT
    requires Moved(Init(base, size), Init(base', size), base' - base)
    ensures Start(base) <= cell < Start(base) + Usable(base, size) <==>
      Start(base') <= cell + base' - base < Start(base') + Usable(base', size)
  {
    var h, h', d := Init(base, size), Init(base', size), base' - base;
    InitValid(base, size);
    InitValid(base', size);
    InBinsMoved(h.bins, h'.bins, cell, d);
    assert Users(h.proffered, cell) == {} == Users(h'.proffered, cell + d);
    assert Places(h', cell + d) == Places(h, cell);
  }

  /** These calls return the same offsets from the heap's base on both PEs. */
  ghost predicate SameResults(base: int, base': int, size: nat, calls: seq<Call>)
    requires base > 0 && base' > 0 && size >= ALIGNMENT && Legal(Init(base, size), calls)
  {
    var calls' := MoveCalls(calls, base' - base);
    && Legal(Init(base', size), calls')
    && |calls'| == |calls|
    && forall i :: 0 <= i < |calls| ==>
         Results(Init(base', size), calls')[i] == MovePtr(Results(Init(base, size), calls)[i], base' - base)
  }

  /** On PEs whose memory is aligned alike all legal calls return the same offsets. */
  lemma AlignedAlikeIsSymmetric(base: int, base': int, size: nat, calls: seq<Call>)
    requires base > 0 && base' > 0 && size >= ALIGNMENT && Legal(Init(base, size), calls)
    requires base % ALIGNMENT == base' % ALIGNMENT || Usable(base, size) == 0 == Usable(base', size)
    ensures SameResults(base, base', size, calls)
  {
    InitMoved(base, base', size);
    SameOffsets(Init(base, size), Init(base', size), calls, base' - base);
  }

  /**
    All legal calls return the same offsets on two PEs if and only if their memory is aligned alike or
    nothing of either can be handed out.
  */
  lemma SymmetricIff(base: int, base': int, size: nat)
    requires base > 0 && base' > 0 && size >= ALIGNMENT
    ensures (forall calls :: Legal(Init(base, size), calls) ==> SameResults(base, base', size, calls)) <==>
      base % ALIGNMENT == base' % ALIGNMENT || Usable(base, size) == 0 == Usable(base', size)
  {
    if base % ALIGNMENT == base' % ALIGNMENT || Usable(base, size) == 0 == Usable(base', size) {
      forall calls | Legal(Init(base, size), calls)
        ensures SameResults(base, base', size, calls)
      { AlignedAlikeIsSymmetric(base, base', size, calls); }
    } else {
      UsableIsNat(base, size);
      UsableIsNat(base', size);
      OneByteNotSame(base, base', size);
    }
  }

  lemma OneByte(h: Heap)
    ensures Legal(h, [Malloc(1)]) && Results(h, [Malloc(1)]) == [Alloc(h, 1).1]
  {
    assert [Malloc(1)][1..] == [];
  }

  lemma {:induction false} UnstockedIsEmpty(bins: seq<seq<Record>>, cell: int)
    requires forall k :: 0 <= k < |bins| ==> bins[k] == []
    ensures InBins(bins, cell) == 0
  {
    if bins != [] { UnstockedIsEmpty(Pop(bins), cell); }
  }

  lemma InitStockedIff(base: int, size: nat)
    requires base > 0 && size >= ALIGNMENT
    ensures Stocked(Init(base, size).bins, 0) <==> Usable(base, size) > 0
  {
    var (h, lo, hi) := (Init(base, size), Start(base), Start(base) + Usable(base, size));
    InitValid(base, size);
    if Stocked(h.bins, 0) {
      var k :| 0 <= k < |h.bins| && h.bins[k] != [];
      var r := h.bins[k][0];
      assert r in h.bins[k] && BinShape(h.bins[k], k) && IsRecord(r, k);
      InBinAtLeast(h.bins[k], 0, r.addr);
      InBinsAtLeast(h.bins, k, r.addr);
      assert Places(h, r.addr) >= 1;
    } else {
      UnstockedIsEmpty(h.bins, lo);
      assert Users(h.proffered, lo) == {};
      assert Places(h, lo) == 0;
    }
  }

  /** One byte can be allocated exactly if anything is usable, and its address is aligned. */
  lemma OneByteAligned(base: int, size: nat)
    requires base > 0 && size >= ALIGNMENT
    ensures var p := Alloc(Init(base, size), 1).1;
      (p.Some? <==> Usable(base, size) > 0) && (p.Some? ==> p.value % ALIGNMENT == 0)
  {
    var h := Init(base, size);
    InitValid(base, size);
    BinCountBounds(size);
    InitStockedIff(base, size);
    AllocIff(h, Start(base), Start(base) + Usable(base, size), 1);
    assert IsFit(|h.bins|, 1, 0);
    forall k: nat | IsFit(|h.bins|, 1, k)
      ensures k == 0
    { FitUnique(|h.bins|, 1, k); }
  }

  /** The failing input: one byte gets different offsets on PEs whose usable memory is aligned differently. */
  lemma OneByteDiffers(base: int, base': int, size: nat)
    requires base > 0 && base' > 0 && size >= ALIGNMENT && base % ALIGNMENT != base' % ALIGNMENT
    requires Usable(base, size) > 0 || Usable(base', size) > 0
    ensures Alloc(Init(base', size), 1).1 != MovePtr(Alloc(Init(base, size), 1).1, base' - base)
  {
    OneByteAligned(base, size);
    OneByteAligned(base', size);
    var (p, p') := (Alloc(Init(base, size), 1).1, Alloc(Init(base', size), 1).1);
    if p.Some? && p'.Some? { AlignedApart(p.value, p'.value, base, base'); }
  }

  /** Aligned addresses at the same offset from two bases. */
  lemma AlignedApart(p: int, p': int, base: int, base': int)
    requires p % ALIGNMENT == 0 && p' % ALIGNMENT == 0 && base % ALIGNMENT != base' % ALIGNMENT
    ensures p' != p + (base' - base)
  {}

  lemma OneByteNotSame(base: int, base': int, size: nat)
    requires base > 0 && base' > 0 && size >= ALIGNMENT && base % ALIGNMENT != base' % ALIGNMENT
    requires Usable(base, size) > 0 || Usable(base', size) > 0
    ensures Legal(Init(base, size), [Malloc(1)]) && !SameResults(base, base', size, [Malloc(1)])
  {
    var (h, h', calls) := (Init(base, size), Init(base', size), [Malloc(1)]);
    OneByte(h);
    OneByte(h');
    OneByteDiffers(base, base', size);
    assert MoveCalls(calls, base' - base) == calls by { assert calls[1..] == []; }
    assert Results(h', calls)[0] != MovePtr(Results(h, calls)[0], base' - base);
  }

  lemma UsableIsNat(base: int, size: nat)
    requires size >= ALIGNMENT
    ensures Usable(base, size) >= 0
  {}
}
