/**
  The ring all-reduce of the IPC backend (src/ipc/context_ipc_tmpl_device.hpp).

  Every PE of a team of `n` runs the same program without any barrier: per
  segment it makes `2n - 2` iterations; in each one it puts a chunk into its
  successor's memory, raises a flag there, spins on its own flag and (in the
  first `n - 1` iterations) reduces the chunk that arrived.  The work buffer and
  the flags are reused by every segment.  The model interleaves the single
  actions of all PEs in any order; a PE whose spin test fails stays where it is.
*/
module RingAllreduce {
  import opened Arithmetic

  /** The four actions of one iteration, in program order. */
  const PUT := 0
  const SIGNAL := 1
  const WAIT := 2
  const REDUCE := 3

  /** `wait_val` is the segment number plus this constant. */
  const FLAG_BASE := 100
  /** ROCSHMEM_SYNC_VALUE */
  const SYNC_VALUE := 0

  /** What one call works on: `input(pe, seg, chunk)` is the source data. */
  datatype Ring<!T> = Ring(n: nat, segs: nat, op: (T, T) -> T, input: (int, int, int) -> T)
  {
    ghost predicate Valid() { n >= 1 }

    /** Iterations per segment, both loops together. */
    function Iters(): int { 2 * n - 2 }

    function Next(r: int): int
      requires n >= 1
    { (r + 1) % n }

    /** Index of the chunk a PE sends in iteration `iter` (off_send divided by chunk_size). */
    function SendChunk(r: int, iter: int): int
      requires n >= 1
    { (r + 1 - iter + 2 * n) % n }

    /** Index of the chunk a PE reduces in iteration `iter` (off_recv divided by chunk_size). */
    function RecvChunk(r: int, iter: int): int
      requires n >= 1
    { (r - iter + 2 * n) % n }
  }

  /** Where a PE is: the action it performs next.  `seg == segs` is after the loops; phase 0 there is the flag reset. */
  datatype PC = PC(seg: int, iter: int, phase: int)

  datatype State<!T> = State(pc: seq<PC>, work: (int, int) -> T, sync: (int, int) -> int, dst: (int, int, int) -> T)

  // ------------------------------------------------------------------ program

  /** Where a call begins; a team of one has no iterations at all. */
  function Entry<T>(ring: Ring<T>): PC { PC(if ring.n == 1 then ring.segs else 0, 0, PUT) }

  /** All PEs enter with their source copied and their flags reset; the work buffers may hold anything. */
  ghost predicate Start<T>(ring: Ring<T>, s: State<T>) {
    && |s.pc| == ring.n
    && (forall r :: 0 <= r < ring.n ==> s.pc[r] == Entry(ring))
    && (forall r, iter :: 0 <= r < ring.n && 0 <= iter < ring.Iters() ==> s.sync(r, iter) == SYNC_VALUE)
    && (forall r, seg, c :: 0 <= r < ring.n && 0 <= seg < ring.segs && 0 <= c < ring.n
          ==> s.dst(r, seg, c) == ring.input(r, seg, c))
  }

  function Advance<T>(ring: Ring<T>, pc: PC): PC {
    if pc.seg == ring.segs then pc.(phase := 1)
    else if pc.phase < REDUCE then pc.(phase := pc.phase + 1)
    else if pc.iter + 1 < ring.Iters() then PC(pc.seg, pc.iter + 1, PUT)
    else PC(pc.seg + 1, 0, PUT)
  }

  /** One action of PE `r`; a failed spin test and a PE that has returned change nothing. */
  function Exec<T>(ring: Ring<T>, s: State<T>, r: int): State<T>
    requires ring.Valid() && |s.pc| == ring.n
  {
    if !(0 <= r < ring.n) then s
    else
      var pc := s.pc[r];
      var moved := s.pc[r := Advance(ring, pc)];
      if pc.seg == ring.segs then
        if pc.phase == 0 then ExecReset(s, moved, r) else s
      else if pc.phase == PUT then ExecPut(ring, s, moved, r, pc)
      else if pc.phase == SIGNAL then
        s.(pc := moved, sync := Set2(s.sync, ring.Next(r), pc.iter, pc.seg + FLAG_BASE))
      else if pc.phase == WAIT then
        if s.sync(r, pc.iter) == pc.seg + FLAG_BASE then s.(pc := moved) else s
      else ExecReduce(ring, s, moved, r, pc)
  }

  function ExecPut<T>(ring: Ring<T>, s: State<T>, moved: seq<PC>, r: int, pc: PC): State<T>
    requires ring.Valid()
  {
    var c := ring.SendChunk(r, pc.iter);
    if pc.iter < ring.n - 1 then
      s.(pc := moved, work := Set2(s.work, ring.Next(r), c, s.dst(r, pc.seg, c)))
    else
      s.(pc := moved, dst := Set3(s.dst, ring.Next(r), pc.seg, c, s.dst(r, pc.seg, c)))
  }

  function ExecReduce<T>(ring: Ring<T>, s: State<T>, moved: seq<PC>, r: int, pc: PC): State<T>
    requires ring.Valid()
  {
    var c := ring.RecvChunk(r, pc.iter);
    if pc.iter < ring.n - 1 then
      s.(pc := moved, dst := Set3(s.dst, r, pc.seg, c, ring.op(s.dst(r, pc.seg, c), s.work(r, c))))
    else s.(pc := moved)
  }

  function ExecReset<T>(s: State<T>, moved: seq<PC>, r: int): State<T> {
    s.(pc := moved, sync := (p: int, k: int) => if p == r then SYNC_VALUE else s.sync(p, k))
  }

  function Set2<V>(f: (int, int) -> V, a: int, b: int, v: V): (int, int) -> V {
    (x: int, y: int) => if x == a && y == b then v else f(x, y)
  }

  function Set3<V>(f: (int, int, int) -> V, a: int, b: int, c: int, v: V): (int, int, int) -> V {
    (x: int, y: int, z: int) => if x == a && y == b && z == c then v else f(x, y, z)
  }

  /** The state after the PEs acted in the order `sched`; every sequence of PE numbers is a possible run. */
  function Run<T>(ring: Ring<T>, start: State<T>, sched: seq<int>): (s: State<T>)
    requires ring.Valid() && |start.pc| == ring.n
    ensures |s.pc| == ring.n
  {
    if sched == [] then start else Exec(ring, Run(ring, start, sched[..|sched| - 1]), sched[|sched| - 1])
  }

  // ------------------------------------------------------------ specification

  /** The order in which chunk `c` is combined: PE c-1 first, then its k successors around the ring. */
  function Fold<T>(ring: Ring<T>, seg: int, c: int, k: nat): T
    requires ring.Valid()
  {
    if k == 0 then ring.input((c + ring.n - 1) % ring.n, seg, c)
    else ring.op(ring.input((c + k - 1) % ring.n, seg, c), Fold(ring, seg, c, k - 1))
  }

  ghost predicate Returned<T>(ring: Ring<T>, s: State<T>)
    requires |s.pc| == ring.n
  { forall r :: 0 <= r < ring.n ==> s.pc[r] == PC(ring.segs, 0, 1) }

  // ---------------------------------------------------------------- arithmetic

  /** How many places around the ring PE `r` is after PE `c`. */
  function Dist(n: int, r: int, c: int): int { if r >= c then r - c else r - c + n }

  function Prev(n: int, r: int): int { if r == 0 then n - 1 else r - 1 }

  function Back(n: int, r: int, j: int): int { if r >= j then r - j else r - j + n }

  lemma NextIs<T>(ring: Ring<T>, r: int)
    requires ring.Valid() && 0 <= r < ring.n
    ensures ring.Next(r) == if r == ring.n - 1 then 0 else r + 1
    ensures Prev(ring.n, ring.Next(r)) == r
  { ModCases(r + 1, ring.n); }

  lemma PrevIs<T>(ring: Ring<T>, r: int)
    requires ring.Valid() && 0 <= r < ring.n
    ensures 0 <= Prev(ring.n, r) < ring.n && ring.Next(Prev(ring.n, r)) == r
  { NextIs(ring, Prev(ring.n, r)); }

  /** The chunk sent in iteration `iter` is the one the successor takes; its distances fix both iterations. */
  lemma Chunks<T>(ring: Ring<T>, p: int, iter: int)
    requires ring.n >= 2 && 0 <= p < ring.n && 0 <= iter < ring.Iters()
    ensures ring.SendChunk(p, iter) == ring.RecvChunk(ring.Next(p), iter)
    ensures 0 <= ring.SendChunk(p, iter) < ring.n && 0 <= ring.RecvChunk(p, iter) < ring.n
    ensures Dist(ring.n, p, ring.SendChunk(p, iter)) == if iter == 0 || iter == ring.n then ring.n - 1 else if iter < ring.n then iter - 1 else iter - 1 - ring.n
    ensures Dist(ring.n, p, ring.RecvChunk(p, iter)) == if iter < ring.n then iter else iter - ring.n
  {
    var n := ring.n;
    NextIs(ring, p);
    ModCases(p + 1 - iter + 2 * n, n);
    ModCases(p - iter + 2 * n, n);
    ModCases(ring.Next(p) - iter + 2 * n, n);
  }

  /** The chunk a PE takes in an iteration is told by its distance alone. */
  lemma TakesIff<T>(ring: Ring<T>, r: int, iter: int, c: int)
    requires ring.n >= 2 && 0 <= r < ring.n && 0 <= iter < ring.Iters() && 0 <= c < ring.n
    ensures c == ring.RecvChunk(r, iter) <==> Dist(ring.n, r, c) == if iter < ring.n then iter else iter - ring.n
  { Chunks(ring, r, iter); }

  // ----------------------------------------------------------------- invariant

  predicate Past(pc: PC, seg: int, iter: int, phase: int) {
    pc.seg > seg || (pc.seg == seg && (pc.iter > iter || (pc.iter == iter && pc.phase > phase)))
  }

  ghost predicate PCOk<T>(ring: Ring<T>, pc: PC) {
    && 0 <= pc.seg <= ring.segs
    && (pc.seg < ring.segs ==> 0 <= pc.iter < ring.Iters() && 0 <= pc.phase <= REDUCE)
    && (pc.seg == ring.segs ==> pc.iter == 0 && 0 <= pc.phase <= 1)
  }

  ghost predicate PCsOk<T>(ring: Ring<T>, pc: seq<PC>) {
    |pc| == ring.n && forall r :: 0 <= r < ring.n ==> PCOk(ring, pc[r])
  }

  ghost predicate Point<T>(ring: Ring<T>, seg: int, iter: int) {
    0 <= seg < ring.segs && 0 <= iter < ring.Iters()
  }

  /** No PE passes a wait before its predecessor has passed the matching signal. */
  ghost predicate Ordered<T>(ring: Ring<T>, pc: seq<PC>)
    requires |pc| == ring.n
  {
    forall r, seg, iter {:trigger Past(pc[r], seg, iter, WAIT)} ::
      0 <= r < ring.n && Point(ring, seg, iter) && Past(pc[r], seg, iter, WAIT)
      ==> Past(pc[Prev(ring.n, r)], seg, iter, SIGNAL)
  }

  /** Number of segments in which a PE has raised the flag of iteration `iter`. */
  function Raised(pc: PC, iter: int): int {
    if Past(pc, pc.seg, iter, SIGNAL) then pc.seg + 1 else pc.seg
  }

  ghost predicate SyncAt<T>(ring: Ring<T>, s: State<T>, r: int, iter: int)
    requires |s.pc| == ring.n && 0 <= r < ring.n
  {
    var m := Raised(s.pc[Prev(ring.n, r)], iter);
    s.sync(r, iter) == if m == 0 || s.pc[r] == PC(ring.segs, 0, 1) then SYNC_VALUE else m - 1 + FLAG_BASE
  }

  ghost predicate SyncOk<T>(ring: Ring<T>, s: State<T>)
    requires |s.pc| == ring.n
  {
    forall r, iter :: 0 <= r < ring.n && 0 <= iter < ring.Iters() ==> SyncAt(ring, s, r, iter)
  }

  /** A chunk that was put and not yet reduced is intact in the work buffer. */
  ghost predicate WorkAt<T>(ring: Ring<T>, s: State<T>, r: int, seg: int, iter: int)
    requires |s.pc| == ring.n && 0 <= r < ring.n && ring.Valid()
  {
    Point(ring, seg, iter) && iter < ring.n - 1 &&
    Past(s.pc[Prev(ring.n, r)], seg, iter, PUT) && !Past(s.pc[r], seg, iter, REDUCE)
    ==> s.work(r, ring.RecvChunk(r, iter)) == Fold(ring, seg, ring.RecvChunk(r, iter), iter)
  }

  ghost predicate WorkOk<T>(ring: Ring<T>, s: State<T>)
    requires |s.pc| == ring.n && ring.Valid()
  {
    forall r, seg, iter :: 0 <= r < ring.n ==> WorkAt(ring, s, r, seg, iter)
  }

  /** The iteration of the second loop in which the finished chunk arrives at distance `d`. */
  function Arrival(n: int, d: int): int { if d == n - 1 then n - 1 else d + n }

  /** The value of a destination chunk as a function of how far its PE and the predecessor are. */
  function DstValue<T>(ring: Ring<T>, pc: seq<PC>, r: int, seg: int, c: int): T
    requires ring.Valid() && |pc| == ring.n && 0 <= r < ring.n && 0 <= c < ring.n
  {
    var n := ring.n;
    var d := Dist(n, r, c);
    if d != n - 2 && Past(pc[Prev(n, r)], seg, Arrival(n, d), PUT) then Fold(ring, seg, c, n - 1)
    else if d <= n - 2 && Past(pc[r], seg, d, REDUCE) then Fold(ring, seg, c, d + 1)
    else ring.input(r, seg, c)
  }

  ghost predicate DstAt<T>(ring: Ring<T>, s: State<T>, r: int, seg: int, c: int)
    requires ring.Valid() && |s.pc| == ring.n && 0 <= r < ring.n && 0 <= c < ring.n
  { s.dst(r, seg, c) == DstValue(ring, s.pc, r, seg, c) }

  ghost predicate DstOk<T>(ring: Ring<T>, s: State<T>)
    requires ring.Valid() && |s.pc| == ring.n
  {
    forall r, seg, c :: 0 <= r < ring.n && 0 <= seg < ring.segs && 0 <= c < ring.n ==> DstAt(ring, s, r, seg, c)
  }

  ghost predicate Inv<T>(ring: Ring<T>, s: State<T>) {
    && ring.n >= 2
    && PCsOk(ring, s.pc)
    && Ordered(ring, s.pc)
    && SyncOk(ring, s)
    && WorkOk(ring, s)
    && DstOk(ring, s)
  }

  // ----------------------------------------------- how far neighbours can drift

  /** Walking back around the ring: whoever passed a wait proves something about every earlier PE. */
  lemma {:induction false} WaitChain<T>(ring: Ring<T>, pc: seq<PC>, r: int, seg: int, iter: int, j: int)
    requires ring.n >= 2 && PCsOk(ring, pc) && Ordered(ring, pc)
    requires 0 <= r < ring.n && Point(ring, seg, iter) && Past(pc[r], seg, iter, WAIT)
    requires 1 <= j <= iter + 1 && j < ring.n
    ensures Past(pc[Back(ring.n, r, j)], seg, iter - j + 1, SIGNAL)
    decreases j
  {
    if j == 1 {
      assert Back(ring.n, r, 1) == Prev(ring.n, r);
    } else {
      WaitChain(ring, pc, r, seg, iter, j - 1);
      var q := Back(ring.n, r, j - 1);
      assert Past(pc[q], seg, iter - j + 1, WAIT);
      assert Prev(ring.n, q) == Back(ring.n, r, j);
    }
  }

  /** A PE that passed a wait knows that its successor is at most n-2 iterations behind. */
  lemma SuccessorClose<T>(ring: Ring<T>, pc: seq<PC>, p: int, seg: int, iter: int)
    requires ring.n >= 2 && PCsOk(ring, pc) && Ordered(ring, pc)
    requires 0 <= p < ring.n && Point(ring, seg, iter) && ring.n - 2 <= iter && Past(pc[p], seg, iter, WAIT)
    ensures 0 <= ring.Next(p) < ring.n && Past(pc[ring.Next(p)], seg, iter - ring.n + 2, SIGNAL)
  {
    NextIs(ring, p);
    WaitChain(ring, pc, p, seg, iter, ring.n - 1);
    assert Back(ring.n, p, ring.n - 1) == ring.Next(p);
  }

  /** A PE in a later segment knows that its successor is in the second loop of the one before, or beyond. */
  lemma SuccessorInSecondLoop<T>(ring: Ring<T>, pc: seq<PC>, p: int, seg: int)
    requires ring.n >= 2 && PCsOk(ring, pc) && Ordered(ring, pc)
    requires 0 <= p < ring.n && 0 <= seg < ring.segs && seg < pc[p].seg
    ensures 0 <= ring.Next(p) < ring.n && Past(pc[ring.Next(p)], seg, ring.n - 1, SIGNAL)
  {
    SuccessorClose(ring, pc, p, seg, ring.Iters() - 1);
  }

  /** The flag value a PE waits for cannot already have been overwritten by the next segment's. */
  lemma FlagNotOverrun<T>(ring: Ring<T>, pc: seq<PC>, r: int)
    requires ring.n >= 2 && PCsOk(ring, pc) && Ordered(ring, pc)
    requires 0 <= r < ring.n && pc[r].seg < ring.segs && pc[r].phase <= WAIT
    ensures Raised(pc[Prev(ring.n, r)], pc[r].iter) <= pc[r].seg + 1
  {
    PrevIs(ring, r);
    var p := Prev(ring.n, r);
    var (seg, iter) := (pc[r].seg, pc[r].iter);
    if Raised(pc[p], iter) > seg + 1 {
      SuccessorInSecondLoop(ring, pc, p, seg);
      if iter >= ring.n - 1 {
        if pc[p].seg > seg + 1 {
          SuccessorInSecondLoop(ring, pc, p, seg + 1);
        } else {
          SuccessorClose(ring, pc, p, seg + 1, iter - 1);
        }
      }
      assert false;
    }
  }

  /** A chunk that has not been sent on, or not been reduced, has not been overwritten by its finished version. */
  lemma NotArrived<T>(ring: Ring<T>, pc: seq<PC>, r: int, seg: int, c: int)
    requires ring.n >= 2 && PCsOk(ring, pc) && Ordered(ring, pc)
    requires 0 <= r < ring.n && 0 <= seg < ring.segs && 0 <= c < ring.n
    requires Dist(ring.n, r, c) <= ring.n - 3 ==> !Past(pc[r], seg, Dist(ring.n, r, c) + 1, SIGNAL)
    requires Dist(ring.n, r, c) == ring.n - 1 ==> !Past(pc[r], seg, 0, SIGNAL)
    ensures Dist(ring.n, r, c) != ring.n - 2 ==> !Past(pc[Prev(ring.n, r)], seg, Arrival(ring.n, Dist(ring.n, r, c)), PUT)
  {
    PrevIs(ring, r);
    var p := Prev(ring.n, r);
    var d := Dist(ring.n, r, c);
    if d != ring.n - 2 && Past(pc[p], seg, Arrival(ring.n, d), PUT) {
      if pc[p].seg > seg {
        SuccessorInSecondLoop(ring, pc, p, seg);
      } else {
        SuccessorClose(ring, pc, p, seg, Arrival(ring.n, d) - 1);
      }
      assert false;
    }
  }

  // -------------------------------------------------------- every action keeps it

  /** Moving one PE on keeps the order of waits and signals, if a wait is left only after the signal. */
  lemma Moved<T>(ring: Ring<T>, pc: seq<PC>, r: int)
    requires ring.n >= 2 && PCsOk(ring, pc) && Ordered(ring, pc) && 0 <= r < ring.n
    requires pc[r].seg < ring.segs
    requires pc[r].phase == WAIT ==> Past(pc[Prev(ring.n, r)], pc[r].seg, pc[r].iter, SIGNAL)
    ensures var pc' := pc[r := Advance(ring, pc[r])];
            PCsOk(ring, pc') && Ordered(ring, pc')
  {
    var pc' := pc[r := Advance(ring, pc[r])];
    forall q, seg, iter | 0 <= q < ring.n && Point(ring, seg, iter) && Past(pc'[q], seg, iter, WAIT)
      ensures Past(pc'[Prev(ring.n, q)], seg, iter, SIGNAL)
    {
      if !(q == r && seg == pc[r].seg && iter == pc[r].iter && pc[r].phase == WAIT) {
        assert Past(pc[q], seg, iter, WAIT);
      }
      assert Past(pc[Prev(ring.n, q)], seg, iter, SIGNAL);
    }
  }

  /** Completing an action other than the one named leaves `Past` as it was. */
  lemma PastMoved<T>(ring: Ring<T>, pc: PC, seg: int, iter: int, phase: int)
    requires ring.n >= 2 && PCOk(ring, pc) && pc.seg < ring.segs
    requires Point(ring, seg, iter) && 0 <= phase <= REDUCE
    ensures Past(Advance(ring, pc), seg, iter, phase) == (Past(pc, seg, iter, phase) || pc == PC(seg, iter, phase))
  {}

  /** What a PE sends is exactly the partial (first loop) or the complete (second loop) combination. */
  lemma SentValue<T>(ring: Ring<T>, s: State<T>, p: int)
    requires Inv(ring, s) && 0 <= p < ring.n
    requires s.pc[p].seg < ring.segs && s.pc[p].phase == PUT
    ensures var (seg, iter) := (s.pc[p].seg, s.pc[p].iter);
            var c := ring.SendChunk(p, iter);
            s.dst(p, seg, c) == Fold(ring, seg, c, if iter < ring.n - 1 then iter else ring.n - 1)
  {
    var n := ring.n;
    var (seg, iter) := (s.pc[p].seg, s.pc[p].iter);
    var c := ring.SendChunk(p, iter);
    Chunks(ring, p, iter);
    var d := Dist(n, p, c);
    assert DstAt(ring, s, p, seg, c);
    if iter < n - 1 {
      NotArrived(ring, s.pc, p, seg, c);
      if iter == 0 {
        ModCases(c + n - 1, n);
      }
    } else if iter >= n {
      assert Arrival(n, d) == iter - 1;
      assert Past(s.pc[p], seg, iter - 1, WAIT);
    }
  }

  lemma KeepPutSync<T>(ring: Ring<T>, s: State<T>, p: int)
    requires Inv(ring, s) && 0 <= p < ring.n
    requires s.pc[p].seg < ring.segs && s.pc[p].phase == PUT
    ensures SyncOk(ring, Exec(ring, s, p))
  {
    var s' := Exec(ring, s, p);
    forall r, iter | 0 <= r < ring.n && 0 <= iter < ring.Iters()
      ensures SyncAt(ring, s', r, iter)
    {
      assert SyncAt(ring, s, r, iter);
    }
  }

  lemma KeepPutWork<T>(ring: Ring<T>, s: State<T>, p: int)
    requires Inv(ring, s) && 0 <= p < ring.n
    requires s.pc[p].seg < ring.segs && s.pc[p].phase == PUT
    ensures WorkOk(ring, Exec(ring, s, p))
  {
    var s' := Exec(ring, s, p);
    var (seg0, iter0) := (s.pc[p].seg, s.pc[p].iter);
    NextIs(ring, p);
    Chunks(ring, p, iter0);
    forall r, seg, iter | 0 <= r < ring.n
      ensures WorkAt(ring, s', r, seg, iter)
    {
      assert WorkAt(ring, s, r, seg, iter);
      if Point(ring, seg, iter) && iter < ring.n - 1 {
        var q := Prev(ring.n, r);
        PrevIs(ring, r);
        PastMoved(ring, s.pc[p], seg, iter, PUT);
        PastMoved(ring, s.pc[p], seg, iter, REDUCE);
        Chunks(ring, r, iter);
        if q == p && iter0 < ring.n - 1 {
          if iter == iter0 && seg == seg0 {
            SentValue(ring, s, p);
          } else if iter == iter0 && seg < seg0 {
            SuccessorInSecondLoop(ring, s.pc, p, seg);
          }
        }
      }
    }
  }

  /** A put changes which value one destination chunk must have, and only when it is a put of the second loop. */
  lemma DstValuePut<T>(ring: Ring<T>, pc: seq<PC>, p: int, r: int, seg: int, c: int)
    requires ring.n >= 2 && PCsOk(ring, pc) && 0 <= p < ring.n
    requires pc[p].seg < ring.segs && pc[p].phase == PUT
    requires 0 <= r < ring.n && 0 <= seg < ring.segs && 0 <= c < ring.n
    ensures DstValue(ring, pc[p := Advance(ring, pc[p])], r, seg, c)
         == if r == ring.Next(p) && seg == pc[p].seg && c == ring.SendChunk(p, pc[p].iter) && pc[p].iter >= ring.n - 1
            then Fold(ring, seg, c, ring.n - 1) else DstValue(ring, pc, r, seg, c)
  {
    var n := ring.n;
    var d := Dist(n, r, c);
    NextIs(ring, p);
    PrevIs(ring, r);
    assert ring.SendChunk(p, pc[p].iter) == ring.RecvChunk(ring.Next(p), pc[p].iter) by { Chunks(ring, p, pc[p].iter); }
    TakesIff(ring, r, pc[p].iter, c);
    if d != n - 2 { PastMoved(ring, pc[p], seg, Arrival(n, d), PUT); }
    if d <= n - 2 { PastMoved(ring, pc[p], seg, d, REDUCE); }
  }

  lemma KeepPutDst<T>(ring: Ring<T>, s: State<T>, p: int)
    requires Inv(ring, s) && 0 <= p < ring.n
    requires s.pc[p].seg < ring.segs && s.pc[p].phase == PUT
    ensures DstOk(ring, Exec(ring, s, p))
  {
    var s' := Exec(ring, s, p);
    SentValue(ring, s, p);
    forall r, seg, c | 0 <= r < ring.n && 0 <= seg < ring.segs && 0 <= c < ring.n
      ensures DstAt(ring, s', r, seg, c)
    {
      assert DstAt(ring, s, r, seg, c);
      DstValuePut(ring, s.pc, p, r, seg, c);
    }
  }

  /** The PE that is about to be signalled cannot have returned from the call. */
  lemma ReceiverNotDone<T>(ring: Ring<T>, s: State<T>, p: int)
    requires Inv(ring, s) && 0 <= p < ring.n
    requires s.pc[p].seg < ring.segs && s.pc[p].phase == SIGNAL
    ensures s.pc[ring.Next(p)] != PC(ring.segs, 0, 1)
  {
    NextIs(ring, p);
    var r := ring.Next(p);
    PrevIs(ring, r);
    assert SyncAt(ring, s, r, s.pc[p].iter);
    assert s.pc[r] == PC(ring.segs, 0, 1) ==> Past(s.pc[r], s.pc[p].seg, s.pc[p].iter, WAIT);
  }

  lemma KeepSignal<T>(ring: Ring<T>, s: State<T>, p: int)
    requires Inv(ring, s) && 0 <= p < ring.n
    requires s.pc[p].seg < ring.segs && s.pc[p].phase == SIGNAL
    ensures Inv(ring, Exec(ring, s, p))
  {
    var s' := Exec(ring, s, p);
    Moved(ring, s.pc, p);
    NextIs(ring, p);
    forall r, iter | 0 <= r < ring.n && 0 <= iter < ring.Iters()
      ensures SyncAt(ring, s', r, iter)
    {
      assert SyncAt(ring, s, r, iter);
      PrevIs(ring, r);
      if r == ring.Next(p) { ReceiverNotDone(ring, s, p); }
    }
    KeepData(ring, s, p);
  }

  lemma KeepWait<T>(ring: Ring<T>, s: State<T>, p: int)
    requires Inv(ring, s) && 0 <= p < ring.n
    requires s.pc[p].seg < ring.segs && s.pc[p].phase == WAIT
    ensures Inv(ring, Exec(ring, s, p))
  {
    var s' := Exec(ring, s, p);
    if s' != s {
      PrevIs(ring, p);
      assert SyncAt(ring, s, p, s.pc[p].iter);
      Moved(ring, s.pc, p);
      forall r, iter | 0 <= r < ring.n && 0 <= iter < ring.Iters()
        ensures SyncAt(ring, s', r, iter)
      {
        assert SyncAt(ring, s, r, iter);
      }
      KeepData(ring, s, p);
    }
  }

  /** Flags do not touch the data. */
  lemma KeepData<T>(ring: Ring<T>, s: State<T>, p: int)
    requires Inv(ring, s) && 0 <= p < ring.n
    requires s.pc[p].seg < ring.segs && (s.pc[p].phase == SIGNAL || s.pc[p].phase == WAIT)
    ensures WorkOk(ring, Exec(ring, s, p)) && DstOk(ring, Exec(ring, s, p))
  {
    var s' := Exec(ring, s, p);
    forall r, seg, iter | 0 <= r < ring.n
      ensures WorkAt(ring, s', r, seg, iter)
    {
      assert WorkAt(ring, s, r, seg, iter);
    }
    forall r, seg, c | 0 <= r < ring.n && 0 <= seg < ring.segs && 0 <= c < ring.n
      ensures DstAt(ring, s', r, seg, c)
    {
      assert DstAt(ring, s, r, seg, c);
    }
  }

  lemma KeepReduceFlags<T>(ring: Ring<T>, s: State<T>, p: int)
    requires Inv(ring, s) && 0 <= p < ring.n
    requires s.pc[p].seg < ring.segs && s.pc[p].phase == REDUCE
    ensures SyncOk(ring, Exec(ring, s, p)) && WorkOk(ring, Exec(ring, s, p))
  {
    var s' := Exec(ring, s, p);
    forall r, iter | 0 <= r < ring.n && 0 <= iter < ring.Iters()
      ensures SyncAt(ring, s', r, iter)
    {
      assert SyncAt(ring, s, r, iter);
    }
    forall r, seg, iter | 0 <= r < ring.n
      ensures WorkAt(ring, s', r, seg, iter)
    {
      assert WorkAt(ring, s, r, seg, iter);
      if Point(ring, seg, iter) {
        PastMoved(ring, s.pc[p], seg, iter, PUT);
        PastMoved(ring, s.pc[p], seg, iter, REDUCE);
      }
    }
  }

  /** What a reduction leaves behind is the next partial combination. */
  lemma ReducedValue<T>(ring: Ring<T>, s: State<T>, p: int)
    requires Inv(ring, s) && 0 <= p < ring.n
    requires s.pc[p].seg < ring.segs && s.pc[p].phase == REDUCE && s.pc[p].iter < ring.n - 1
    ensures var (seg, iter) := (s.pc[p].seg, s.pc[p].iter);
            var c := ring.RecvChunk(p, iter);
            ring.op(s.dst(p, seg, c), s.work(p, c)) == Fold(ring, seg, c, iter + 1)
  {
    var (seg, iter) := (s.pc[p].seg, s.pc[p].iter);
    var c := ring.RecvChunk(p, iter);
    Chunks(ring, p, iter);
    NotArrived(ring, s.pc, p, seg, c);
    assert DstAt(ring, s, p, seg, c);
    assert Past(s.pc[p], seg, iter, WAIT);
    assert WorkAt(ring, s, p, seg, iter);
    ModCases(c + iter, ring.n);
  }

  lemma DstValueReduce<T>(ring: Ring<T>, pc: seq<PC>, p: int, r: int, seg: int, c: int)
    requires ring.n >= 2 && PCsOk(ring, pc) && Ordered(ring, pc) && 0 <= p < ring.n
    requires pc[p].seg < ring.segs && pc[p].phase == REDUCE
    requires 0 <= r < ring.n && 0 <= seg < ring.segs && 0 <= c < ring.n
    ensures DstValue(ring, pc[p := Advance(ring, pc[p])], r, seg, c)
         == if r == p && seg == pc[p].seg && c == ring.RecvChunk(p, pc[p].iter) && pc[p].iter < ring.n - 1
            then Fold(ring, seg, c, pc[p].iter + 1) else DstValue(ring, pc, r, seg, c)
  {
    var n := ring.n;
    var d := Dist(n, r, c);
    PrevIs(ring, r);
    TakesIff(ring, r, pc[p].iter, c);
    if d != n - 2 { PastMoved(ring, pc[p], seg, Arrival(n, d), PUT); }
    if d <= n - 2 { PastMoved(ring, pc[p], seg, d, REDUCE); }
    if r == p && seg == pc[p].seg && d == pc[p].iter <= n - 2 {
      NotArrived(ring, pc, p, seg, c);
    }
  }

  lemma KeepReduceDst<T>(ring: Ring<T>, s: State<T>, p: int)
    requires Inv(ring, s) && 0 <= p < ring.n
    requires s.pc[p].seg < ring.segs && s.pc[p].phase == REDUCE
    ensures DstOk(ring, Exec(ring, s, p))
  {
    var s' := Exec(ring, s, p);
    if s.pc[p].iter < ring.n - 1 { ReducedValue(ring, s, p); }
    forall r, seg, c | 0 <= r < ring.n && 0 <= seg < ring.segs && 0 <= c < ring.n
      ensures DstAt(ring, s', r, seg, c)
    {
      assert DstAt(ring, s, r, seg, c);
      DstValueReduce(ring, s.pc, p, r, seg, c);
    }
  }

  lemma KeepReset<T>(ring: Ring<T>, s: State<T>, p: int)
    requires Inv(ring, s) && 0 <= p < ring.n && s.pc[p].seg == ring.segs
    ensures Inv(ring, Exec(ring, s, p))
  {
    var s' := Exec(ring, s, p);
    forall q, seg, iter | 0 <= q < ring.n && Point(ring, seg, iter) && Past(s'.pc[q], seg, iter, WAIT)
      ensures Past(s'.pc[Prev(ring.n, q)], seg, iter, SIGNAL)
    {
      assert Past(s.pc[q], seg, iter, WAIT);
    }
    forall r, iter | 0 <= r < ring.n && 0 <= iter < ring.Iters()
      ensures SyncAt(ring, s', r, iter)
    {
      assert SyncAt(ring, s, r, iter);
    }
    forall r, seg, iter | 0 <= r < ring.n
      ensures WorkAt(ring, s', r, seg, iter)
    {
      assert WorkAt(ring, s, r, seg, iter);
    }
    forall r, seg, c | 0 <= r < ring.n && 0 <= seg < ring.segs && 0 <= c < ring.n
      ensures DstAt(ring, s', r, seg, c)
    {
      assert DstAt(ring, s, r, seg, c);
    }
  }

  lemma KeepAny<T>(ring: Ring<T>, s: State<T>, p: int)
    requires Inv(ring, s)
    ensures Inv(ring, Exec(ring, s, p))
  {
    if 0 <= p < ring.n {
      if s.pc[p].seg == ring.segs {
        KeepReset(ring, s, p);
      } else if s.pc[p].phase == PUT {
        Moved(ring, s.pc, p);
        KeepPutSync(ring, s, p);
        KeepPutWork(ring, s, p);
        KeepPutDst(ring, s, p);
      } else if s.pc[p].phase == SIGNAL {
        KeepSignal(ring, s, p);
      } else if s.pc[p].phase == WAIT {
        KeepWait(ring, s, p);
      } else {
        Moved(ring, s.pc, p);
        KeepReduceFlags(ring, s, p);
        KeepReduceDst(ring, s, p);
      }
    }
  }

  lemma StartInv<T>(ring: Ring<T>, s: State<T>)
    requires ring.n >= 2 && Start(ring, s)
    ensures Inv(ring, s)
  {
    forall r, iter | 0 <= r < ring.n && 0 <= iter < ring.Iters()
      ensures SyncAt(ring, s, r, iter)
    {
      PrevIs(ring, r);
    }
    forall r, seg, iter | 0 <= r < ring.n
      ensures WorkAt(ring, s, r, seg, iter)
    {
      PrevIs(ring, r);
    }
    forall r, seg, c | 0 <= r < ring.n && 0 <= seg < ring.segs && 0 <= c < ring.n
      ensures DstAt(ring, s, r, seg, c)
    {
      PrevIs(ring, r);
    }
  }

  /** The invariant holds after every run. */
  lemma {:induction false} RunInv<T>(ring: Ring<T>, start: State<T>, sched: seq<int>)
    requires ring.n >= 2 && Start(ring, start)
    ensures Inv(ring, Run(ring, start, sched))
  {
    if sched == [] {
      StartInv(ring, start);
    } else {
      RunInv(ring, start, sched[..|sched| - 1]);
      KeepAny(ring, Run(ring, start, sched[..|sched| - 1]), sched[|sched| - 1]);
    }
  }

  // --------------------------------------------------------------- main results

  /** After every run in which all PEs returned, every PE holds the same combination of every chunk. */
  lemma RingCorrect<T>(ring: Ring<T>, start: State<T>, sched: seq<int>)
    requires ring.Valid() && Start(ring, start) && Returned(ring, Run(ring, start, sched))
    ensures forall r, seg, c :: 0 <= r < ring.n && 0 <= seg < ring.segs && 0 <= c < ring.n
              ==> Run(ring, start, sched).dst(r, seg, c) == Fold(ring, seg, c, ring.n - 1)
  {
    var s := Run(ring, start, sched);
    if ring.n == 1 {
      OnePE(ring, start, sched);
    } else {
      RunInv(ring, start, sched);
      forall r, seg, c | 0 <= r < ring.n && 0 <= seg < ring.segs && 0 <= c < ring.n
        ensures s.dst(r, seg, c) == Fold(ring, seg, c, ring.n - 1)
      {
        assert DstAt(ring, s, r, seg, c);
        PrevIs(ring, r);
      }
    }
  }

  lemma {:induction false} OnePE<T>(ring: Ring<T>, start: State<T>, sched: seq<int>)
    requires ring.n == 1 && Start(ring, start)
    ensures Run(ring, start, sched).dst == start.dst
    ensures Run(ring, start, sched).pc[0].seg == ring.segs && Run(ring, start, sched).pc[0].iter == 0 && 0 <= Run(ring, start, sched).pc[0].phase <= 1
  {
    if sched != [] {
      OnePE(ring, start, sched[..|sched| - 1]);
    }
  }

  /** No reachable state is stuck: unless all have returned, some PE's next action makes progress. */
  lemma NoDeadlock<T>(ring: Ring<T>, start: State<T>, sched: seq<int>) returns (r: int)
    requires ring.Valid() && Start(ring, start) && !Returned(ring, Run(ring, start, sched))
    ensures 0 <= r < ring.n
    ensures Run(ring, start, sched + [r]).pc[r] != Run(ring, start, sched).pc[r]
  {
    var s := Run(ring, start, sched);
    if ring.n == 1 {
      OnePE(ring, start, sched);
      r := 0;
    } else {
      RunInv(ring, start, sched);
      r := Slowest(ring, s.pc, ring.n);
      if s.pc[r].seg < ring.segs && s.pc[r].phase == WAIT {
        PrevIs(ring, r);
        FlagNotOverrun(ring, s.pc, r);
        assert SyncAt(ring, s, r, s.pc[r].iter);
      }
    }
    assert (sched + [r])[..|sched|] == sched;
  }

  predicate Behind(a: PC, b: PC) {
    a.seg < b.seg || (a.seg == b.seg && (a.iter < b.iter || (a.iter == b.iter && a.phase <= b.phase)))
  }

  lemma {:induction false} Slowest<T>(ring: Ring<T>, pc: seq<PC>, m: int) returns (r: int)
    requires 1 <= m <= |pc| == ring.n
    ensures 0 <= r < m && forall q :: 0 <= q < m ==> Behind(pc[r], pc[q])
    decreases m
  {
    if m == 1 {
      r := 0;
    } else {
      r := Slowest(ring, pc, m - 1);
      if !Behind(pc[r], pc[m - 1]) { r := m - 1; }
    }
  }

  /** Number of actions a PE has completed. */
  function Rank<T>(ring: Ring<T>, pc: PC): int { 4 * (pc.seg * ring.Iters() + pc.iter) + pc.phase }

  function RankSum<T>(ring: Ring<T>, pc: seq<PC>): int {
    if pc == [] then 0 else RankSum(ring, pc[..|pc| - 1]) + Rank(ring, pc[|pc| - 1])
  }

  lemma {:induction false} RankSumUpdate<T>(ring: Ring<T>, pc: seq<PC>, r: int, v: PC)
    requires 0 <= r < |pc|
    ensures RankSum(ring, pc[r := v]) == RankSum(ring, pc) - Rank(ring, pc[r]) + Rank(ring, v)
  {
    var last := |pc| - 1;
    if r == last {
      assert pc[r := v][..last] == pc[..last];
    } else {
      RankSumUpdate(ring, pc[..last], r, v);
      assert pc[r := v][..last] == pc[..last][r := v];
    }
  }

  lemma RankAdvance<T>(ring: Ring<T>, pc: PC)
    requires ring.n >= 2 && PCOk(ring, pc) && pc != PC(ring.segs, 0, 1)
    ensures Rank(ring, Advance(ring, pc)) == Rank(ring, pc) + 1
  {
    if pc.seg < ring.segs && pc.phase == REDUCE && pc.iter + 1 == ring.Iters() {
      assert (pc.seg + 1) * ring.Iters() == pc.seg * ring.Iters() + ring.Iters();
    }
  }

  lemma RankBound<T>(ring: Ring<T>, pc: PC)
    requires ring.n >= 2 && PCOk(ring, pc)
    ensures Rank(ring, pc) <= 4 * (ring.segs * ring.Iters()) + 1
  {
    if pc.seg < ring.segs {
      assert (pc.seg + 1) * ring.Iters() == pc.seg * ring.Iters() + ring.Iters();
      MulMono(pc.seg + 1, ring.segs, ring.Iters());
    }
  }

  lemma {:induction false} RankSumBound<T>(ring: Ring<T>, pc: seq<PC>)
    requires ring.n >= 2 && forall i :: 0 <= i < |pc| ==> PCOk(ring, pc[i])
    ensures RankSum(ring, pc) <= |pc| * (4 * (ring.segs * ring.Iters()) + 1)
  {
    if pc != [] {
      RankSumBound(ring, pc[..|pc| - 1]);
      RankBound(ring, pc[|pc| - 1]);
      assert |pc| * (4 * (ring.segs * ring.Iters()) + 1)
          == (|pc| - 1) * (4 * (ring.segs * ring.Iters()) + 1) + (4 * (ring.segs * ring.Iters()) + 1);
    }
  }

  lemma ExecRank<T>(ring: Ring<T>, s: State<T>, r: int)
    requires ring.n >= 2 && Inv(ring, s) && 0 <= r < ring.n
    ensures Exec(ring, s, r) == s || RankSum(ring, Exec(ring, s, r).pc) == RankSum(ring, s.pc) + 1
  {
    if s.pc[r] != PC(ring.segs, 0, 1) {
      RankAdvance(ring, s.pc[r]);
      RankSumUpdate(ring, s.pc, r, Advance(ring, s.pc[r]));
    }
  }

  /** Every action either spins in place or brings the call one action closer to a bound fixed in advance. */
  lemma ProgressIsBounded<T>(ring: Ring<T>, start: State<T>, sched: seq<int>, r: int)
    requires ring.n >= 2 && Start(ring, start) && 0 <= r < ring.n
    ensures var (s, s') := (Run(ring, start, sched), Run(ring, start, sched + [r]));
            s' == s || RankSum(ring, s'.pc) == RankSum(ring, s.pc) + 1
    ensures RankSum(ring, Run(ring, start, sched).pc) <= ring.n * (4 * (ring.segs * ring.Iters()) + 1)
  {
    RunInv(ring, start, sched);
    var s := Run(ring, start, sched);
    RankSumBound(ring, s.pc);
    assert (sched + [r])[..|sched|] == sched;
    ExecRank(ring, s, r);
  }

  // ------------------------------------------------------------- race freedom

  datatype Loc = Work(pe: int, chunk: int) | Dst(pe: int, seg: int, chunk: int)

  /** The data locations a PE's next action reads and writes. */
  function Reads<T>(ring: Ring<T>, s: State<T>, r: int): set<Loc>
    requires ring.Valid() && |s.pc| == ring.n && 0 <= r < ring.n
  {
    var pc := s.pc[r];
    if pc.seg == ring.segs then {}
    else if pc.phase == PUT then {Dst(r, pc.seg, ring.SendChunk(r, pc.iter))}
    else if pc.phase == REDUCE && pc.iter < ring.n - 1 then
      {Dst(r, pc.seg, ring.RecvChunk(r, pc.iter)), Work(r, ring.RecvChunk(r, pc.iter))}
    else {}
  }

  function Writes<T>(ring: Ring<T>, s: State<T>, r: int): set<Loc>
    requires ring.Valid() && |s.pc| == ring.n && 0 <= r < ring.n
  {
    var pc := s.pc[r];
    if pc.seg == ring.segs then {}
    else if pc.phase == PUT then
      if pc.iter < ring.n - 1 then {Work(ring.Next(r), ring.SendChunk(r, pc.iter))}
      else {Dst(ring.Next(r), pc.seg, ring.SendChunk(r, pc.iter))}
    else if pc.phase == REDUCE && pc.iter < ring.n - 1 then {Dst(r, pc.seg, ring.RecvChunk(r, pc.iter))}
    else {}
  }

  /** Two PEs never have conflicting data accesses pending, so the copies need not be atomic. */
  lemma NoRace<T>(ring: Ring<T>, start: State<T>, sched: seq<int>, p: int, q: int)
    requires ring.n >= 2 && Start(ring, start) && 0 <= p < ring.n && 0 <= q < ring.n && p != q
    ensures var s := Run(ring, start, sched);
            Writes(ring, s, p) !! Reads(ring, s, q) && Writes(ring, s, p) !! Writes(ring, s, q)
  {
    var s := Run(ring, start, sched);
    RunInv(ring, start, sched);
    NextIs(ring, p);
    NextIs(ring, q);
    NoRaceWithSuccessor(ring, s.pc, p);
    NoRaceWithSuccessor(ring, s.pc, q);
  }

  /** A put cannot hit the chunk its target is sending or reducing at that moment. */
  lemma NoRaceWithSuccessor<T>(ring: Ring<T>, pc: seq<PC>, p: int)
    requires ring.n >= 2 && PCsOk(ring, pc) && Ordered(ring, pc) && 0 <= p < ring.n
    requires 0 <= ring.Next(p) < ring.n
    ensures var (a, b) := (pc[p], pc[ring.Next(p)]);
            a.seg < ring.segs && b.seg < ring.segs && a.phase == PUT ==>
            (if a.iter < ring.n - 1 then
              b.phase == REDUCE && b.iter < ring.n - 1 ==> ring.RecvChunk(ring.Next(p), b.iter) != ring.SendChunk(p, a.iter)
            else
              && (b.phase == PUT && b.seg == a.seg ==> ring.SendChunk(ring.Next(p), b.iter) != ring.SendChunk(p, a.iter))
              && (b.phase == REDUCE && b.iter < ring.n - 1 && b.seg == a.seg ==> ring.RecvChunk(ring.Next(p), b.iter) != ring.SendChunk(p, a.iter)))
  {
    var (a, b) := (pc[p], pc[ring.Next(p)]);
    NextIs(ring, p);
    if a.seg < ring.segs && b.seg < ring.segs && a.phase == PUT {
      Chunks(ring, p, a.iter);
      Chunks(ring, ring.Next(p), a.iter);
      Chunks(ring, ring.Next(p), b.iter);
      if a.seg > b.seg { SuccessorInSecondLoop(ring, pc, p, b.seg); }
      if a.iter >= ring.n - 1 { SuccessorClose(ring, pc, p, a.seg, a.iter - 1); }
      if b.seg > a.seg || (b.seg == a.seg && b.iter >= 1) {
        var (seg, iter) := if b.iter >= 1 then (b.seg, b.iter - 1) else (b.seg - 1, ring.Iters() - 1);
        assert Past(pc[ring.Next(p)], seg, iter, WAIT);
      }
      if b.phase == REDUCE {
        assert Past(pc[ring.Next(p)], b.seg, b.iter, WAIT);
      }
    }
  }

  // ------------------------------------- the result as one order-free reduction

  ghost predicate AssociativeAt<T>(op: (T, T) -> T, a: T, b: T, c: T) { op(op(a, b), c) == op(a, op(b, c)) }

  ghost predicate CommutativeAt<T>(op: (T, T) -> T, a: T, b: T) { op(a, b) == op(b, a) }

  ghost predicate Associative<T(!new)>(op: (T, T) -> T) { forall a, b, c :: AssociativeAt(op, a, b, c) }

  ghost predicate Commutative<T(!new)>(op: (T, T) -> T) { forall a, b :: CommutativeAt(op, a, b) }

  /** The inputs of PEs lo .. hi-1 combined in PE order. */
  function InOrder<T>(ring: Ring<T>, seg: int, c: int, lo: int, hi: int): T
    requires lo < hi
    decreases hi - lo
  {
    if hi == lo + 1 then ring.input(lo, seg, c)
    else ring.op(ring.input(hi - 1, seg, c), InOrder(ring, seg, c, lo, hi - 1))
  }

  lemma {:induction false} InOrderSplit<T(!new)>(ring: Ring<T>, seg: int, c: int, lo: int, mid: int, hi: int)
    requires lo < mid < hi && Associative(ring.op)
    ensures InOrder(ring, seg, c, lo, hi) == ring.op(InOrder(ring, seg, c, mid, hi), InOrder(ring, seg, c, lo, mid))
    decreases hi - mid
  {
    if mid < hi - 1 {
      InOrderSplit(ring, seg, c, lo, mid, hi - 1);
      assert AssociativeAt(ring.op, ring.input(hi - 1, seg, c), InOrder(ring, seg, c, mid, hi - 1), InOrder(ring, seg, c, lo, mid));
    }
  }

  /** Around the ring from PE c-1, before and after wrapping past PE n-1. */
  lemma {:induction false} FoldIsTwoRuns<T(!new)>(ring: Ring<T>, seg: int, c: int, k: nat)
    requires ring.Valid() && 1 <= c < ring.n && k < ring.n && Associative(ring.op)
    ensures Fold(ring, seg, c, k)
         == if k <= ring.n - c then InOrder(ring, seg, c, c - 1, c + k)
            else ring.op(InOrder(ring, seg, c, 0, c + k - ring.n), InOrder(ring, seg, c, c - 1, ring.n))
  {
    var n := ring.n;
    if k == 0 {
      ModCases(c + n - 1, n);
    } else {
      ModCases(c + k - 1, n);
      FoldIsTwoRuns(ring, seg, c, k - 1);
      if k > n - c + 1 {
        assert AssociativeAt(ring.op, ring.input(c + k - 1 - n, seg, c), InOrder(ring, seg, c, 0, c + k - 1 - n), InOrder(ring, seg, c, c - 1, n));
      }
    }
  }

  lemma {:induction false} FoldFromLast<T>(ring: Ring<T>, seg: int, k: nat)
    requires ring.Valid() && 1 <= k < ring.n
    ensures Fold(ring, seg, 0, k) == ring.op(ring.input(k - 1, seg, 0), Fold(ring, seg, 0, k - 1))
  { ModCases(k - 1, ring.n); }

  lemma {:induction false} FoldOfChunkZero<T(!new)>(ring: Ring<T>, seg: int, k: nat)
    requires ring.Valid() && 1 <= k < ring.n && Associative(ring.op)
    ensures Fold(ring, seg, 0, k) == ring.op(InOrder(ring, seg, 0, 0, k), ring.input(ring.n - 1, seg, 0))
  {
    FoldFromLast(ring, seg, k);
    if k == 1 { ModCases(ring.n - 1, ring.n); } else {
      FoldOfChunkZero(ring, seg, k - 1);
      assert AssociativeAt(ring.op, ring.input(k - 1, seg, 0), InOrder(ring, seg, 0, 0, k - 1), ring.input(ring.n - 1, seg, 0));
    }
  }

  lemma FoldIsReduction<T(!new)>(ring: Ring<T>, seg: int, c: int)
    requires ring.Valid() && Associative(ring.op) && Commutative(ring.op) && 0 <= c < ring.n
    ensures Fold(ring, seg, c, ring.n - 1) == InOrder(ring, seg, c, 0, ring.n)
  {
    var n := ring.n;
    if c == 0 && n >= 2 {
      FoldOfChunkZero(ring, seg, n - 1);
      assert CommutativeAt(ring.op, InOrder(ring, seg, 0, 0, n - 1), ring.input(n - 1, seg, 0));
    } else if c == 1 {
      FoldIsTwoRuns(ring, seg, c, n - 1);
    } else if c > 1 {
      FoldIsTwoRuns(ring, seg, c, n - 1);
      InOrderSplit(ring, seg, c, 0, c - 1, n);
      assert CommutativeAt(ring.op, InOrder(ring, seg, c, 0, c - 1), InOrder(ring, seg, c, c - 1, n));
    }
  }

  /** With an associative and commutative operation the ring computes the reduction over all PEs in PE order. */
  lemma RingReduces<T(!new)>(ring: Ring<T>, start: State<T>, sched: seq<int>)
    requires ring.Valid() && Start(ring, start) && Returned(ring, Run(ring, start, sched))
    requires Associative(ring.op) && Commutative(ring.op)
    ensures forall r, seg, c :: 0 <= r < ring.n && 0 <= seg < ring.segs && 0 <= c < ring.n
              ==> Run(ring, start, sched).dst(r, seg, c) == InOrder(ring, seg, c, 0, ring.n)
  {
    RingCorrect(ring, start, sched);
    forall seg, c | 0 <= seg < ring.segs && 0 <= c < ring.n
      ensures Fold(ring, seg, c, ring.n - 1) == InOrder(ring, seg, c, 0, ring.n)
    {
      FoldIsReduction(ring, seg, c);
    }
  }
}
