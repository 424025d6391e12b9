/**
  How `IPCContext::reduce` cuts `nreduce` elements into direct and ring
  all-reduces (src/ipc/context_ipc_tmpl_device.hpp).  Sizes are ints that the
  source multiplies without checks; the model assumes no int overflow.
*/
module ReducePlan {
  import opened Arithmetic

  /** ROCSHMEM_REDUCE_MIN_WRKDATA_SIZE */
  const MIN_WRKDATA_SIZE := 1024
  /** ROCSHMEM_REDUCE_SYNC_SIZE */
  const REDUCE_SYNC_SIZE := 256

  /** One collective call: the elements `[lo, lo + Len())` of the destination are combined. */
  datatype Piece =
    | Direct(lo: int, count: int)
    | Ring(lo: int, segs: int, segSize: int, chunk: int)
  {
    function Len(): int { if Direct? then count else segs * segSize }
  }

  datatype Outcome = Pieces(pieces: seq<Piece>) | Unsupported

  predicate UsesDirect(peSize: int, nreduce: int) {
    var half := nreduce / 2 + 1;
    var provided := if half >= MIN_WRKDATA_SIZE then half else MIN_WRKDATA_SIZE;
    provided >= peSize * nreduce && REDUCE_SYNC_SIZE >= peSize
  }

  function SegSize(peSize: int): int
    requires peSize >= 1
  { MIN_WRKDATA_SIZE / peSize * peSize }

  function Plan(peSize: int, nreduce: int): Outcome
    requires peSize >= 1 && nreduce >= 0
  {
    if UsesDirect(peSize, nreduce) then Pieces([Direct(0, nreduce)])
    else if 2 * peSize > REDUCE_SYNC_SIZE then Unsupported
    else
      PeSizeIsSmall(peSize);
      Pieces(RingPlan(peSize, nreduce, SegSize(peSize)))
  }

  function RingPlan(peSize: int, nreduce: int, segSize: int): seq<Piece>
    requires peSize >= 1 && segSize >= 1
  {
    var nSegUp := (nreduce - 1) / segSize + 1;
    var nSeg := if nreduce / segSize == 0 then 1 else nreduce / segSize;
    var first := Ring(0, nSeg, segSize, segSize / peSize);
    if nSegUp > nSeg then [first] + RestPlan(peSize, nSeg * segSize, nreduce - nSeg * segSize) else [first]
  }

  /** The elements after the last whole segment. */
  function RestPlan(peSize: int, lo: int, count: int): seq<Piece>
    requires peSize >= 1
  {
    var chunk := count / peSize;
    var second := Ring(lo, 1, chunk * peSize, chunk);
    if chunk * peSize < count then [second, Direct(lo + chunk * peSize, count - chunk * peSize)] else [second]
  }

  lemma PeSizeIsSmall(peSize: int)
    requires 1 <= peSize && 2 * peSize <= REDUCE_SYNC_SIZE
    ensures MIN_WRKDATA_SIZE - peSize < SegSize(peSize) <= MIN_WRKDATA_SIZE && SegSize(peSize) > 0
  {}

  /** A segment is a whole number of chunks, one per PE. */
  lemma SegSizeIsWhole(peSize: int)
    requires peSize >= 1
    ensures SegSize(peSize) == peSize * (SegSize(peSize) / peSize) && SegSize(peSize) / peSize >= 0
  {
    var chunk := MIN_WRKDATA_SIZE / peSize;
    AddMultiple(0, chunk, peSize);
    SmallDiv(0, peSize);
    DivBounds(MIN_WRKDATA_SIZE, peSize);
  }

  lemma ChunkOfRest(peSize: int, count: nat)
    requires peSize >= 1
    ensures count / peSize >= 0 && count / peSize * peSize == peSize * (count / peSize)
  {
    DivBounds(count, peSize);
  }

  /** There is at least one segment, and a rest only if the whole segments are not past the request. */
  lemma SegmentsOf(nreduce: nat, segSize: int)
    requires segSize >= 1
    ensures nreduce / segSize >= 0
    ensures var nSeg := if nreduce / segSize == 0 then 1 else nreduce / segSize;
      (nreduce - 1) / segSize + 1 > nSeg ==> nreduce >= nSeg * segSize
  {
    DivBounds(nreduce, segSize);
    DivBounds(nreduce - 1, segSize);
    if nreduce / segSize == 0 && (nreduce - 1) / segSize >= 1 { MulMono(1, (nreduce - 1) / segSize, segSize); }
  }

  /** The pieces follow one another without gap or overlap and end at `hi`. */
  ghost predicate Tiles(pieces: seq<Piece>, lo: int, hi: int) {
    if pieces == [] then lo == hi
    else pieces[0].lo == lo && pieces[0].Len() >= 0 && Tiles(pieces[1..], lo + pieces[0].Len(), hi)
  }

  lemma RestTiles(peSize: int, lo: int, count: int)
    requires peSize >= 1 && count >= 0
    ensures Tiles(RestPlan(peSize, lo, count), lo, lo + count)
  {
    var rest := RestPlan(peSize, lo, count);
    DivBounds(count, peSize);
    if |rest| == 2 { assert rest[1..] == [rest[1]] && Tiles(rest[1..][1..], lo + count, lo + count); }
  }

  lemma WholeSegmentsTile(peSize: int, nreduce: int, segSize: int)
    requires peSize >= 1 && segSize >= 1 && nreduce >= segSize
    ensures Tiles(RingPlan(peSize, nreduce, segSize), 0, nreduce)
  {
    var q := nreduce / segSize;
    DivBounds(nreduce, segSize);
    if q == 0 { assert false; }
    var rest := nreduce - q * segSize;
    var plan := RingPlan(peSize, nreduce, segSize);
    if rest == 0 {
      assert (q - 1) * segSize == q * segSize - segSize;
      Quotient(nreduce - 1, segSize, q - 1);
    } else {
      Quotient(nreduce - 1, segSize, q);
      RestTiles(peSize, q * segSize, rest);
      assert plan[1..] == RestPlan(peSize, q * segSize, rest);
    }
  }

  lemma ShortPlan(peSize: int, nreduce: int, segSize: int)
    requires peSize >= 1 && 1 <= nreduce < segSize
    ensures RingPlan(peSize, nreduce, segSize) == [Ring(0, 1, segSize, segSize / peSize)]
  {
    SmallDiv(nreduce, segSize);
    SmallDiv(nreduce - 1, segSize);
  }

  /**
    The plan reduces every element exactly once and touches nothing else, if and only if
    one direct call is enough or there is at least one whole segment.  Otherwise it
    combines a whole segment, past the end of the request.
  */
  lemma PlanTilesExactly(peSize: int, nreduce: int)
    requires peSize >= 1 && nreduce >= 0 && Plan(peSize, nreduce).Pieces?
    ensures Tiles(Plan(peSize, nreduce).pieces, 0, nreduce)
        <==> UsesDirect(peSize, nreduce) || nreduce >= SegSize(peSize)
    ensures !(UsesDirect(peSize, nreduce) || nreduce >= SegSize(peSize)) ==>
              nreduce < SegSize(peSize) && Tiles(Plan(peSize, nreduce).pieces, 0, SegSize(peSize))
  {
    if !UsesDirect(peSize, nreduce) {
      PeSizeIsSmall(peSize);
      if nreduce >= SegSize(peSize) {
        WholeSegmentsTile(peSize, nreduce, SegSize(peSize));
      } else {
        if nreduce == 0 { assert false; }
        ShortPlan(peSize, nreduce, SegSize(peSize));
      }
    }
  }

  /** Four PEs reducing 300 elements combine 1024 elements of the destination. */
  lemma ShortRequestExample()
    ensures Plan(4, 300) == Pieces([Ring(0, 1, 1024, 256)])
    ensures !Tiles(Plan(4, 300).pieces, 0, 300)
  {
    PlanTilesExactly(4, 300);
  }

  // ------------------------------------------------------------ the plan in numbers

  /**
    One direct call is made if and only if there are at most 256 PEs and their elements together are at
    most 1024: the larger work buffer of a long request never makes a difference.  Otherwise the ring
    needs at most 128 PEs.
  */
  lemma PlanChoice(n: nat, nreduce: nat)
    requires n >= 1
    ensures Plan(n, nreduce) == Pieces([Direct(0, nreduce)]) <==> n <= 256 && n * nreduce <= 1024
    ensures Plan(n, nreduce) == Unsupported <==> n > 128 && !(n <= 256 && n * nreduce <= 1024)
  {
    MulMono(1, n, nreduce);
    if !UsesDirect(n, nreduce) && 2 * n <= REDUCE_SYNC_SIZE {
      PeSizeIsSmall(n);
      assert RingPlan(n, nreduce, SegSize(n))[0].Ring?;
    }
  }

  /** A segment is the largest whole number of elements per PE that the work buffer holds. */
  lemma SegSizeIs(n: nat, segSize: nat)
    requires n >= 1 && segSize % n == 0 && segSize <= 1024 < segSize + n
    ensures SegSize(n) == segSize
  {
    DivBounds(segSize, n);
    Quotient(1024, n, segSize / n);
  }

  /** There is a rest exactly if the request is longer than its whole segments. */
  lemma RestIff(nreduce: nat, segSize: int, nSeg: int)
    requires segSize >= 1 && nreduce >= 1 && nSeg == if nreduce / segSize == 0 then 1 else nreduce / segSize
    ensures (nreduce - 1) / segSize + 1 > nSeg <==> nreduce > nSeg * segSize
  {
    DivBounds(nreduce, segSize);
    DivBounds(nreduce - 1, segSize);
    var q := (nreduce - 1) / segSize;
    if q >= nSeg { MulMono(nSeg, q, segSize); }
    if q + 1 <= nSeg { MulMono(q + 1, nSeg, segSize); }
  }

  /** The elements behind the whole segments: a ring for as many per PE as there are, and a direct call for fewer than n. */
  ghost predicate RestPieces(pieces: seq<Piece>, n: nat, lo: int, rest: nat) {
    && 1 <= |pieces| <= 2 && n >= 1
    && pieces[0].Ring? && pieces[0].lo == lo && pieces[0].segs == 1 && pieces[0].segSize == pieces[0].chunk * n
    && var short := rest - pieces[0].segSize;
       0 <= short < n && (if short == 0 then |pieces| == 1 else |pieces| == 2 && pieces[1] == Direct(lo + pieces[0].segSize, short))
  }

  lemma RestPlanIs(n: nat, lo: int, rest: nat)
    requires n >= 1
    ensures RestPieces(RestPlan(n, lo, rest), n, lo, rest)
  { DivBounds(rest, n); }

  /** What `reduce` does when it uses the ring. */
  lemma RingPlanExact(n: nat, nreduce: nat, segSize: nat, segs: nat)
    requires 1 <= n <= 128 && n * nreduce > 1024
    requires segSize % n == 0 && segSize <= 1024 < segSize + n && segs == if nreduce < segSize then 1 else nreduce / segSize
    ensures Plan(n, nreduce).Pieces?
    ensures var (pieces, done) := (Plan(n, nreduce).pieces, segs * segSize);
      && |pieces| >= 1 && pieces[0] == Ring(0, segs, segSize, segSize / n)
      && (if nreduce <= done then |pieces| == 1 else RestPieces(pieces[1..], n, done, nreduce - done))
  {
    MulMono(1, n, nreduce);
    SegSizeIs(n, segSize);
    PeSizeIsSmall(n);
    DivBounds(nreduce, segSize);
    if nreduce < segSize { SmallDiv(nreduce, segSize); } else { NotZero(nreduce, segSize); }
    RestIff(nreduce, segSize, segs);
    if nreduce > segs * segSize {
      RestPlanIs(n, segs * segSize, nreduce - segs * segSize);
      assert RingPlan(n, nreduce, segSize)[1..] == RestPlan(n, segs * segSize, nreduce - segs * segSize);
    }
  }

  lemma NotZero(a: nat, b: nat)
    requires 1 <= b <= a
    ensures a / b >= 1
  {
    DivBounds(a, b);
    if a / b <= 0 { MulMono(a / b, 0, b); }
  }

  /** Index of the element at place `o` of chunk `c` of segment `seg`. */
  function Element(segSize: int, chunk: int, seg: int, c: int, o: int): int { seg * segSize + (c * chunk + o) }

  /** Inside a ring piece every element has a segment, a chunk and a place in the chunk ... */
  lemma ElementHasPlace(peSize: int, chunk: int, segSize: int, segs: int, e: int)
    requires peSize >= 1 && chunk >= 1 && segSize == peSize * chunk && segSize >= 1 && 0 <= e < segs * segSize
    ensures var (seg, x) := (e / segSize, e % segSize);
            0 <= seg < segs && 0 <= x / chunk < peSize && e == Element(segSize, chunk, seg, x / chunk, x % chunk)
  {
    var x := e % segSize;
    DivBounds(e, segSize);
    DivBounds(x, chunk);
    MulCancel(e / segSize, segs, segSize);
    MulCancel(x / chunk, peSize, chunk);
  }

  /** ... and only one. */
  lemma ElementPlaceUnique(peSize: int, chunk: int, segSize: int, seg: int, c: int, o: int)
    requires peSize >= 1 && chunk >= 1 && segSize == peSize * chunk && segSize >= 1
    requires 0 <= c < peSize && 0 <= o < chunk
    ensures var e := Element(segSize, chunk, seg, c, o);
            e / segSize == seg && e % segSize / chunk == c && e % segSize % chunk == o
  {
    MulMono(c + 1, peSize, chunk);
    MulMono(0, c, chunk);
    Quotient(Element(segSize, chunk, seg, c, o), segSize, seg);
    Quotient(c * chunk + o, chunk, c);
  }

  // ------------------------------------------- where a direct call puts its data

  /** A team's slice of the work pool: room for MIN_WRKDATA_SIZE doubles. */
  const SLICE_BYTES := MIN_WRKDATA_SIZE * 8

  /** The slot that world PE `pe` uses for `count` elements of `size` bytes ends inside the slice. */
  predicate SlotInSlice(pe: int, count: nat, size: nat) { (pe + 1) * (count * size) <= SLICE_BYTES }

  /** Slots are numbered by world PE, so all of a team's slots are in its slice if and only if its last PE's is. */
  lemma SlotsFitIff(start: nat, stride: nat, peSize: nat, count: nat, size: nat)
    requires peSize >= 1
    ensures (forall k :: 0 <= k < peSize ==> SlotInSlice(start + stride * k, count, size))
       <==> SlotInSlice(start + stride * (peSize - 1), count, size)
  {
    forall k | 0 <= k < peSize && SlotInSlice(start + stride * (peSize - 1), count, size)
      ensures SlotInSlice(start + stride * k, count, size)
    {
      MulMono(k, peSize - 1, stride);
      MulMono(start + stride * k + 1, start + stride * (peSize - 1) + 1, count * size);
    }
  }

  /** Byte x of the slice is in the slot of world PE `pe`. */
  predicate InSlot(pe: int, count: nat, size: nat, x: int) { pe * (count * size) <= x < (pe + 1) * (count * size) }

  /** It is byte b of an element k of the `count` elements that PE puts behind those of the PEs before it. */
  lemma InSlotIff(pe: int, count: nat, size: nat, x: int)
    ensures InSlot(pe, count, size, x) <==> exists k, b :: ByteOfSlot(pe, count, size, k, b, x)
  {
    if InSlot(pe, count, size, x) {
      var y := x - pe * (count * size);
      var (k, b) := (y / size, y % size);
      DivBounds(y, size);
      if k < 0 { MulMono(k, -1, size); }
      MulCancel(k, count, size);
      SlotByte(pe, count, size, k, b);
      assert ByteOfSlot(pe, count, size, k, b, x);
    }
    forall k, b | ByteOfSlot(pe, count, size, k, b, x)
      ensures InSlot(pe, count, size, x)
    {
      SlotByte(pe, count, size, k, b);
      MulMono(0, k, size);
      MulMono(k + 1, count, size);
    }
  }

  predicate ByteOfSlot(pe: int, count: nat, size: nat, k: int, b: int, x: int) {
    0 <= k < count && 0 <= b < size && x == (pe * count + k) * size + b
  }

  lemma SlotByte(pe: int, count: nat, size: nat, k: int, b: int)
    ensures (pe * count + k) * size + b == pe * (count * size) + k * size + b
    ensures (pe + 1) * (count * size) == pe * (count * size) + count * size
  {}

  /** A slot is in the slice exactly if all its bytes are. */
  lemma SlotInSliceIff(pe: nat, count: nat, size: nat)
    ensures SlotInSlice(pe, count, size) <==> forall x :: InSlot(pe, count, size, x) ==> 0 <= x < SLICE_BYTES
  {
    MulMono(0, pe, count * size);
    SlotByte(pe, count, size, 0, 0);
    var last := (pe + 1) * (count * size) - 1;
    if !SlotInSlice(pe, count, size) {
      MulMono(0, pe + 1, count * size);
      EmptySlot(pe, count * size);
      assert InSlot(pe, count, size, last);
    }
  }

  lemma EmptySlot(pe: nat, bytes: nat)
    ensures bytes == 0 ==> (pe + 1) * bytes == 0
  {}

  /** Different PEs' slots do not overlap. */
  lemma SlotsApart(pe: int, pe': int, count: nat, size: nat, x: int)
    requires pe < pe' && InSlot(pe, count, size, x)
    ensures !InSlot(pe', count, size, x)
  {
    MulMono(pe + 1, pe', count * size);
  }

  lemma RoomForAll(peSize: nat, nreduce: nat, total: nat, size: nat)
    requires total == peSize * nreduce <= MIN_WRKDATA_SIZE && size <= 8
    ensures peSize * (nreduce * size) <= SLICE_BYTES
  {
    assert peSize * (nreduce * size) == total * size;
    MulMono(total, MIN_WRKDATA_SIZE, size);
  }

  /** For the world team the test that chooses the direct algorithm keeps every slot in the slice. */
  lemma WorldSlotsFit(peSize: nat, nreduce: nat, size: nat)
    requires peSize >= 1 && UsesDirect(peSize, nreduce) && size <= 8
    ensures forall k :: 0 <= k < peSize ==> SlotInSlice(0 + 1 * k, nreduce, size)
  {
    SlotsFitIff(0, 1, peSize, nreduce, size);
    MulMono(1, peSize, nreduce);
    RoomForAll(peSize, nreduce, peSize * nreduce, size);
  }

  /** The test passes for 256 doubles on the team of PEs 4 to 7, but PE 7's slot is outside the slice. */
  lemma SubteamSlotExample()
    ensures UsesDirect(4, 256) && !SlotInSlice(4 + 1 * 3, 256, 8)
  {}

  /** 64 PEs reducing 1087 elements leave 63 to a direct call, for which no test is made; the last slots are outside. */
  lemma RestSlotExample()
    ensures Plan(64, 1087).Pieces? && Direct(1024, 63) in Plan(64, 1087).pieces && !SlotInSlice(63, 63, 4)
  {
    PeSizeIsSmall(64);
    var pieces := RingPlan(64, 1087, 1024);
    assert pieces == [Ring(0, 1, 1024, 16)] + RestPlan(64, 1024, 63);
    assert RestPlan(64, 1024, 63) == [Ring(1024, 1, 0, 0), Direct(1024, 63)];
    assert pieces[2] == Direct(1024, 63);
  }

  // ---------------------------------------------------------------- the flags

  /** ROCSHMEM_BARRIER_SYNC_SIZE, the flags of one team. */
  const BARRIER_SYNC_SIZE := 256

  /** Element x of the pool of flags belongs to the team in pool slot `team`. */
  predicate IsFlagOf(team: nat, x: int) { team * BARRIER_SYNC_SIZE <= x < (team + 1) * BARRIER_SYNC_SIZE }

  /** Flag k as the team in pool slot `team` counts them. */
  function FlagAt(team: nat, k: int): int { team * BARRIER_SYNC_SIZE + k }

  /** How many flags a PE clears when it leaves a ring or a direct call: that depends on the size of the world. */
  function RingResets(numPes: nat): int { 2 * numPes - 2 }

  function DirectResets(numPes: nat): int { numPes }

  /** The flag that a team's PE number k of the direct algorithm raises. */
  function DirectFlag(start: nat, stride: nat, k: nat): nat { start + stride * k }

  /** Both resets cover all flags the algorithms use, and the ring's also those of a direct call after it. */
  lemma ResetsCover(start: nat, stride: nat, peSize: nat, numPes: nat, iter: nat, k: nat)
    requires stride >= 1 && 2 <= peSize && start + stride * (peSize - 1) < numPes && iter < 2 * peSize - 2 && k < peSize
    ensures iter < RingResets(numPes) && DirectFlag(start, stride, k) < DirectResets(numPes) && DirectFlag(start, stride, k) < RingResets(numPes)
  {
    MulMono(k, peSize - 1, stride);
    MulMono(1, stride, peSize - 1);
  }

  /** A reset of `count` flags stays within the team's own if and only if `count` is at most 256. */
  lemma ResetFitsIff(team: nat, count: int)
    ensures (forall k :: 0 <= k < count ==> IsFlagOf(team, FlagAt(team, k))) <==> count <= BARRIER_SYNC_SIZE
  {
    if count > BARRIER_SYNC_SIZE { assert !IsFlagOf(team, FlagAt(team, BARRIER_SYNC_SIZE)); }
  }

  /** The ring's resets are safe in worlds of up to 129 PEs, whatever the size of the team. */
  lemma RingResetFitsIff(team: nat, numPes: nat)
    requires numPes >= 1
    ensures (forall k :: 0 <= k < RingResets(numPes) ==> IsFlagOf(team, FlagAt(team, k))) <==> numPes <= 129
  { ResetFitsIff(team, RingResets(numPes)); }

  lemma DirectResetFitsIff(team: nat, numPes: nat)
    ensures (forall k :: 0 <= k < DirectResets(numPes) ==> IsFlagOf(team, FlagAt(team, k))) <==> numPes <= 256
  { ResetFitsIff(team, DirectResets(numPes)); }

  /** Two of 130 PEs reducing 4096 elements use the ring, which clears the first two flags of the next team. */
  lemma NextTeamResetExample(team: nat, j: nat)
    requires j < 2
    ensures Plan(2, 4096) == Pieces([Ring(0, 4, 1024, 512)])
    ensures 256 + j < RingResets(130) && FlagAt(team, 256 + j) == FlagAt(team + 1, j) && IsFlagOf(team + 1, FlagAt(team, 256 + j))
  {
    PeSizeIsSmall(2);
  }
}
