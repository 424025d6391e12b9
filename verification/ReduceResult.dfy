/**
  What a whole `reduce` leaves in the destinations of all PEs: the plan of
  ReducePlan carried out by the calls of RingEntry and DirectAllreduce, each of
  them started after all PEs have returned from the one before.  Memory is a
  function from PE and element to value.
*/
module ReduceResult {
  import opened Arithmetic
  import opened RingAllreduce
  import RingEntry
  import D = DirectAllreduce
  import P = ReducePlan

  type Memory<!T> = (int, int) -> T

  /** The values of PEs 0 to n - 1 combined in PE order. */
  function Reduction<T>(op: (T, T) -> T, value: int -> T, n: nat): T
    requires n >= 1
  { if n == 1 then value(0) else op(value(n - 1), Reduction(op, value, n - 1)) }

  lemma {:induction false} InOrderIsReduction<T>(ring: Ring<T>, seg: int, c: int, value: int -> T, n: nat)
    requires n >= 1 && forall p :: 0 <= p < n ==> ring.input(p, seg, c) == value(p)
    ensures InOrder(ring, seg, c, 0, n) == Reduction(ring.op, value, n)
  {
    if n > 1 { InOrderIsReduction(ring, seg, c, value, n - 1); }
  }

  lemma {:induction false} ReductionSame<T>(op: (T, T) -> T, f: int -> T, g: int -> T, n: nat)
    requires n >= 1 && forall p :: 0 <= p < n ==> f(p) == g(p)
    ensures Reduction(op, f, n) == Reduction(op, g, n)
  {
    if n > 1 { ReductionSame(op, f, g, n - 1); }
  }

  /** Element e of every PE. */
  function Column<T>(m: Memory<T>, e: int): int -> T { (p: int) => m(p, e) }

  /** One request: every PE reduces `nreduce` elements of its source. */
  datatype Request<!T> = Request(n: nat, op: (T, T) -> T, source: Memory<T>, nreduce: nat)

  /** Destinations after a call has copied its part of the sources, from element lo on. */
  function AfterCopy<T>(q: Request<T>, dst: Memory<T>, lo: int): Memory<T> {
    (p: int, e: int) => if lo <= e < q.nreduce then q.source(p, e) else dst(p, e)
  }

  // ------------------------------------------------------------ one call of the plan

  /** The protocol instance of a direct call for element e. */
  function ElementCall<T>(q: Request<T>, data: Memory<T>, e: int): Ring<T> {
    Ring(q.n, 1, q.op, (p: int, seg: int, c: int) => data(p, e))
  }

  /** The protocol instance of a ring call for the elements at offset o of all its chunks. */
  function OffsetCall<T>(q: Request<T>, data: Memory<T>, piece: P.Piece, o: int): Ring<T>
    requires piece.Ring? && piece.segs >= 0
  {
    Ring(q.n, piece.segs, q.op, (p: int, seg: int, c: int) => data(p, At(piece, seg, c, o)))
  }

  function At(piece: P.Piece, seg: int, c: int, o: int): int
    requires piece.Ring?
  { piece.lo + P.Element(piece.segSize, piece.chunk, seg, c, o) }

  /** Some run of the direct algorithm in which all PEs returned left element e as it is in `after`. */
  ghost predicate ElementRan<T(!new)>(q: Request<T>, data: Memory<T>, e: int, after: Memory<T>) {
    exists start: D.World<T>, sched: seq<int> ::
      && D.Begin(ElementCall(q, data, e), start)
      && D.AllDone(ElementCall(q, data, e), D.ActAll(ElementCall(q, data, e), start, sched))
      && forall p :: 0 <= p < q.n ==> after(p, e) == D.ActAll(ElementCall(q, data, e), start, sched).dst(p)
  }

  /** Some run of the ring in which all PEs returned left the elements at offset o of all chunks as they are in `after`. */
  ghost predicate OffsetRan<T(!new)>(q: Request<T>, data: Memory<T>, piece: P.Piece, o: int, after: Memory<T>)
    requires piece.Ring? && piece.segs >= 0 && q.n >= 1
  {
    exists start: RingEntry.Calling<T>, sched: seq<int> ::
      && RingEntry.Called(OffsetCall(q, data, piece, o), start)
      && RingEntry.AllReturned(OffsetCall(q, data, piece, o), RingEntry.ActAll(OffsetCall(q, data, piece, o), start, sched))
      && forall p, seg, c :: 0 <= p < q.n && 0 <= seg < piece.segs && 0 <= c < q.n ==>
           after(p, At(piece, seg, c, o)) == RingEntry.ActAll(OffsetCall(q, data, piece, o), start, sched).s.dst(p, seg, c)
  }

  ghost predicate PieceOk(n: nat, piece: P.Piece) {
    piece.Ring? ==> piece.segs >= 0 && piece.chunk >= 0 && piece.segSize == n * piece.chunk
  }

  /** The call has been carried out on all PEs and changed nothing but the elements it is for and those it copies. */
  ghost predicate PieceRan<T(!new)>(q: Request<T>, dst: Memory<T>, piece: P.Piece, after: Memory<T>)
    requires q.n >= 1
  {
    var data := AfterCopy(q, dst, piece.lo);
    && PieceOk(q.n, piece)
    && (forall p, e :: 0 <= p < q.n && !(piece.lo <= e < piece.lo + piece.Len()) ==> after(p, e) == data(p, e))
    && (if piece.Direct? then forall e :: piece.lo <= e < piece.lo + piece.count ==> ElementRan(q, data, e, after)
        else forall o :: 0 <= o < piece.chunk ==> OffsetRan(q, data, piece, o, after))
  }

  lemma ElementReduced<T(!new)>(q: Request<T>, data: Memory<T>, e: int, after: Memory<T>, p: int)
    requires q.n >= 1 && Associative(q.op) && Commutative(q.op) && 0 <= p < q.n && ElementRan(q, data, e, after)
    ensures after(p, e) == Reduction(q.op, Column(data, e), q.n)
  {
    var call := ElementCall(q, data, e);
    var start: D.World<T>, sched: seq<int> :|
      && D.Begin(call, start) && D.AllDone(call, D.ActAll(call, start, sched))
      && forall p :: 0 <= p < q.n ==> after(p, e) == D.ActAll(call, start, sched).dst(p);
    D.DirectReduces(call, start, sched, p);
    InOrderIsReduction(call, 0, 0, Column(data, e), q.n);
  }

  lemma OffsetReduced<T(!new)>(q: Request<T>, data: Memory<T>, piece: P.Piece, o: int, after: Memory<T>, p: int, seg: int, c: int)
    requires q.n >= 1 && Associative(q.op) && Commutative(q.op) && 0 <= p < q.n
    requires piece.Ring? && 0 <= seg < piece.segs && 0 <= c < q.n && OffsetRan(q, data, piece, o, after)
    ensures var e := At(piece, seg, c, o); after(p, e) == Reduction(q.op, Column(data, e), q.n)
  {
    var call := OffsetCall(q, data, piece, o);
    var start: RingEntry.Calling<T>, sched: seq<int> :|
      && RingEntry.Called(call, start) && RingEntry.AllReturned(call, RingEntry.ActAll(call, start, sched))
      && forall p, seg, c :: 0 <= p < q.n && 0 <= seg < piece.segs && 0 <= c < q.n ==>
           after(p, At(piece, seg, c, o)) == RingEntry.ActAll(call, start, sched).s.dst(p, seg, c);
    RingEntry.CallReduces(call, start, sched, p, seg, c);
    InOrderIsReduction(call, seg, c, Column(data, At(piece, seg, c, o)), q.n);
  }

  /** A call leaves the reduction of each of its elements. */
  lemma PieceReduced<T(!new)>(q: Request<T>, dst: Memory<T>, piece: P.Piece, after: Memory<T>, p: int, e: int)
    requires q.n >= 1 && Associative(q.op) && Commutative(q.op) && PieceRan(q, dst, piece, after)
    requires 0 <= p < q.n && piece.lo <= e < piece.lo + piece.Len()
    ensures after(p, e) == Reduction(q.op, Column(AfterCopy(q, dst, piece.lo), e), q.n)
  {
    var data := AfterCopy(q, dst, piece.lo);
    if piece.Direct? {
      ElementReduced(q, data, e, after, p);
    } else {
      var x, seg := PlaceOf(q.n, piece, e);
      OffsetReduced(q, data, piece, x % piece.chunk, after, p, seg, x / piece.chunk);
    }
  }

  lemma PlaceOf(n: nat, piece: P.Piece, e: int) returns (x: int, seg: int)
    requires n >= 1 && PieceOk(n, piece) && piece.Ring? && piece.lo <= e < piece.lo + piece.Len()
    ensures piece.chunk >= 1 && 0 <= seg < piece.segs && 0 <= x / piece.chunk < n && 0 <= x % piece.chunk < piece.chunk
    ensures e == At(piece, seg, x / piece.chunk, x % piece.chunk)
  {
    P.ElementHasPlace(n, piece.chunk, piece.segSize, piece.segs, e - piece.lo);
    seg, x := (e - piece.lo) / piece.segSize, (e - piece.lo) % piece.segSize;
  }

  // -------------------------------------------------------------- the whole plan

  ghost predicate PiecesOk(n: nat, pieces: seq<P.Piece>) { forall k :: 0 <= k < |pieces| ==> PieceOk(n, pieces[k]) }

  ghost predicate SameMemory<T>(n: nat, a: Memory<T>, b: Memory<T>) { forall p, e :: 0 <= p < n ==> a(p, e) == b(p, e) }

  /** The calls have been carried out one after another. */
  ghost predicate PlanRan<T(!new)>(q: Request<T>, dst: Memory<T>, pieces: seq<P.Piece>, after: Memory<T>)
    requires q.n >= 1
    decreases |pieces|
  {
    if pieces == [] then SameMemory(q.n, dst, after)
    else exists mid: Memory<T> :: PieceRan(q, dst, pieces[0], mid) && PlanRan(q, mid, pieces[1..], after)
  }

  /** What a request leaves in element e of every PE, if its calls are for the elements from lo up to hi. */
  function Expected<T>(q: Request<T>, dst: Memory<T>, lo: int, hi: int, p: int, e: int): T
    requires q.n >= 1
  {
    if lo <= e < hi then Reduction(q.op, Column(AfterCopy(q, dst, lo), e), q.n) else dst(p, e)
  }

  lemma TilesFrom(pieces: seq<P.Piece>, lo: int, hi: int)
    requires P.Tiles(pieces, lo, hi)
    ensures lo <= hi
    decreases |pieces|
  {
    if pieces != [] { TilesFrom(pieces[1..], lo + pieces[0].Len(), hi); }
  }

  /** An element of a later call still has its source's value, or its old value if it is past the request. */
  lemma LaterElement<T(!new)>(q: Request<T>, dst: Memory<T>, piece: P.Piece, mid: Memory<T>, e: int)
    requires q.n >= 1 && PieceRan(q, dst, piece, mid) && e >= piece.lo + piece.Len() >= piece.lo
    ensures Reduction(q.op, Column(AfterCopy(q, mid, piece.lo + piece.Len()), e), q.n)
         == Reduction(q.op, Column(AfterCopy(q, dst, piece.lo), e), q.n)
  {
    ReductionSame(q.op, Column(AfterCopy(q, mid, piece.lo + piece.Len()), e), Column(AfterCopy(q, dst, piece.lo), e), q.n);
  }

  lemma {:induction false} PlanReduces<T(!new)>(q: Request<T>, dst: Memory<T>, pieces: seq<P.Piece>, lo: int, hi: int, after: Memory<T>, p: int, e: int)
    requires q.n >= 1 && Associative(q.op) && Commutative(q.op)
    requires P.Tiles(pieces, lo, hi) && hi >= q.nreduce && PlanRan(q, dst, pieces, after) && 0 <= p < q.n
    ensures after(p, e) == Expected(q, dst, lo, hi, p, e)
    decreases |pieces|
  {
    if pieces != [] {
      var (piece, next) := (pieces[0], lo + pieces[0].Len());
      var mid: Memory<T> :| PieceRan(q, dst, piece, mid) && PlanRan(q, mid, pieces[1..], after);
      TilesFrom(pieces[1..], next, hi);
      PlanReduces(q, mid, pieces[1..], next, hi, after, p, e);
      if next <= e < hi {
        LaterElement(q, dst, piece, mid, e);
      } else if lo <= e < next {
        PieceReduced(q, dst, piece, mid, p, e);
      }
    }
  }

  lemma RestOk(n: nat, lo: int, count: nat)
    requires n >= 1
    ensures PiecesOk(n, P.RestPlan(n, lo, count))
  {
    P.ChunkOfRest(n, count);
  }

  lemma RingOk(n: nat, nreduce: nat, segSize: int)
    requires n >= 1 && segSize >= 1 && segSize == n * (segSize / n) && segSize / n >= 0
    ensures PiecesOk(n, P.RingPlan(n, nreduce, segSize))
  {
    P.SegmentsOf(nreduce, segSize);
    var nSeg := if nreduce / segSize == 0 then 1 else nreduce / segSize;
    var pieces := P.RingPlan(n, nreduce, segSize);
    assert PieceOk(n, pieces[0]);
    if |pieces| > 1 {
      var rest := P.RestPlan(n, nSeg * segSize, nreduce - nSeg * segSize);
      RestOk(n, nSeg * segSize, nreduce - nSeg * segSize);
      assert pieces == [pieces[0]] + rest;
    }
  }

  /** All ring calls of a plan are for whole chunks, one per PE, as the protocol assumes. */
  lemma PlanOk(n: nat, nreduce: nat)
    requires n >= 1 && P.Plan(n, nreduce).Pieces?
    ensures PiecesOk(n, P.Plan(n, nreduce).pieces)
  {
    if !P.UsesDirect(n, nreduce) {
      P.PeSizeIsSmall(n);
      P.SegSizeIsWhole(n);
      RingOk(n, nreduce, P.SegSize(n));
    }
  }

  /** Where a plan ends: at the end of the request, or of one whole segment if that is longer. */
  function End(n: nat, nreduce: nat): int
    requires n >= 1
  { if P.UsesDirect(n, nreduce) || nreduce >= P.SegSize(n) then nreduce else P.SegSize(n) }

  /**
    For every team, request and run: each requested element ends as the reduction of that element of
    all sources, on every PE.  Elements past the request keep their value, except that a request that is
    shorter than the segment it is carried out in leaves the reduction of the old destinations in the rest
    of that segment.
  */
  lemma ReduceCorrect<T(!new)>(q: Request<T>, dst: Memory<T>, after: Memory<T>, p: int, e: int)
    requires q.n >= 1 && Associative(q.op) && Commutative(q.op) && P.Plan(q.n, q.nreduce).Pieces? && 0 <= p < q.n
    requires PlanRan(q, dst, P.Plan(q.n, q.nreduce).pieces, after)
    ensures 0 <= e < q.nreduce ==> after(p, e) == Reduction(q.op, Column(q.source, e), q.n)
    ensures q.nreduce <= e < End(q.n, q.nreduce) ==> after(p, e) == Reduction(q.op, Column(dst, e), q.n)
    ensures e < 0 || e >= End(q.n, q.nreduce) ==> after(p, e) == dst(p, e)
  {
    P.PlanTilesExactly(q.n, q.nreduce);
    PlanReduces(q, dst, P.Plan(q.n, q.nreduce).pieces, 0, End(q.n, q.nreduce), after, p, e);
    if 0 <= e < q.nreduce {
      ReductionSame(q.op, Column(AfterCopy(q, dst, 0), e), Column(q.source, e), q.n);
    } else {
      ReductionSame(q.op, Column(AfterCopy(q, dst, 0), e), Column(dst, e), q.n);
    }
  }

  /** Where that is, in numbers: past the request only if it is too large for a direct call and shorter than a segment. */
  lemma EndIs(n: nat, nreduce: nat, segSize: nat)
    requires n >= 1 && segSize % n == 0 && segSize <= 1024 < segSize + n
    ensures End(n, nreduce) ==
      if (n <= 256 && n * nreduce <= 1024) || nreduce >= segSize then nreduce else segSize
  {
    MulMono(1, n, nreduce);
    P.SegSizeIs(n, segSize);
  }

  /** A request whose elements of all PEs together are at most 1024 changes nothing else. */
  lemma SmallReduceStaysInside<T(!new)>(q: Request<T>, dst: Memory<T>, after: Memory<T>, p: int, e: int)
    requires 1 <= q.n <= 256 && q.n * q.nreduce <= 1024 && Associative(q.op) && Commutative(q.op) && 0 <= p < q.n
    requires P.Plan(q.n, q.nreduce).Pieces? ==> PlanRan(q, dst, P.Plan(q.n, q.nreduce).pieces, after)
    ensures P.Plan(q.n, q.nreduce) == P.Pieces([P.Direct(0, q.nreduce)])
    ensures after(p, e) == if 0 <= e < q.nreduce then Reduction(q.op, Column(q.source, e), q.n) else dst(p, e)
  {
    P.PlanChoice(q.n, q.nreduce);
    ReduceCorrect(q, dst, after, p, e);
  }
}
