/**
  A ring all-reduce right after the team's own `sync`.  PE 0 tells the others in
  element 0 of their flags that all have arrived, and the first signal of the ring
  goes to the same element.  If PE 0 is quick, its signal replaces the
  announcement before PE 1 has seen it, and PE 1 never leaves the barrier.
*/
module SyncFirst {
  import opened RingAllreduce
  import RingSequence
  import opened DirectSequence
  import B = Barrier
  import F = TeamFlags

  /** The barrier and the ring on the same flags; `second[r]`: PE r has gone on to the ring. */
  datatype Synced<!T> = Synced(s: State<T>, stage: seq<B.Stage>, left: seq<nat>, second: seq<bool>)

  ghost predicate Fits<T>(ring: Ring<T>, m: Synced<T>) { ring.n >= 1 && |m.s.pc| == |m.stage| == |m.left| == |m.second| == ring.n }

  function BarrierOf<T>(m: Synced<T>): B.State { B.State(m.stage, m.left, m.s.sync) }

  function WithBarrier<T>(m: Synced<T>, b: B.State): Synced<T> { Synced(m.s.(sync := b.flags), b.stage, b.left, m.second) }

  /** A PE goes through one barrier, then enters the ring. */
  function Do<T>(ring: Ring<T>, m: Synced<T>, a: Step): (m': Synced<T>)
    requires Fits(ring, m)
    ensures Fits(ring, m')
  {
    match a
    case Step(r) =>
      if !(0 <= r < ring.n) then m
      else if m.second[r] then m.(s := Exec(ring, m.s, r))
      else if m.left[r] == 0 then WithBarrier(m, B.Act(ring.n, BarrierOf(m), r))
      else m
    case Enter(r) =>
      if 0 <= r < ring.n && !m.second[r] && m.left[r] >= 1 then
        m.(s := m.s.(pc := m.s.pc[r := Entry(ring)]), second := m.second[r := true])
      else m
  }

  function DoAll<T>(ring: Ring<T>, m: Synced<T>, acts: seq<Step>): (m': Synced<T>)
    requires Fits(ring, m)
    ensures Fits(ring, m')
  {
    if acts == [] then m else Do(ring, DoAll(ring, m, acts[..|acts| - 1]), acts[|acts| - 1])
  }

  /** A PE enters the ring once, after it has left the barrier. */
  lemma {:induction false} Enters<T>(ring: Ring<T>, c: Synced<T>, acts: seq<Step>, r: int) returns (i: nat)
    requires Fits(ring, c) && 0 <= r < ring.n && !c.second[r] && DoAll(ring, c, acts).second[r]
    ensures i < |acts| && acts[i] == Enter(r)
    ensures var d := DoAll(ring, c, acts[..i]); !d.second[r] && d.left[r] >= 1
    ensures var e := DoAll(ring, c, acts); Do(ring, e, Enter(r)) == e
  {
    var last := |acts| - 1;
    if DoAll(ring, c, acts[..last]).second[r] {
      i := Enters(ring, c, acts[..last], r);
      assert acts[..last][..i] == acts[..i];
    } else {
      i := last;
    }
  }

  lemma {:induction false} DoAllJoins<T>(ring: Ring<T>, m: Synced<T>, a: seq<Step>, b: seq<Step>)
    requires Fits(ring, m)
    ensures DoAll(ring, m, a + b) == DoAll(ring, DoAll(ring, m, a), b)
  {
    if b == [] {
      assert a + b == a;
    } else {
      DoAllJoins(ring, m, a, b[..|b| - 1]);
      assert (a + b)[..|a + b| - 1] == a + b[..|b| - 1];
    }
  }

  lemma Then<T>(ring: Ring<T>, m: Synced<T>, acts: seq<Step>, a: Step)
    requires Fits(ring, m)
    ensures DoAll(ring, m, acts + [a]) == Do(ring, DoAll(ring, m, acts), a)
  { assert (acts + [a])[..|acts|] == acts; }

  /** Nobody has called yet, and all flags are cleared. */
  ghost predicate Begin<T>(ring: Ring<T>, m: Synced<T>) {
    && Fits(ring, m) && m.second == RingSequence.None(ring.n) && F.Clean(ring.n, m.s.sync)
    && forall r :: 0 <= r < ring.n ==> m.stage[r] == B.Outside && m.left[r] == 0
  }

  // ---------------------------------------------------------------- all make their mark

  /** The PEs 1 to k - 1 have made their mark, and nothing else has happened. */
  ghost predicate MarkedUpTo<T>(ring: Ring<T>, m: Synced<T>, k: nat) {
    && Fits(ring, m) && m.second == RingSequence.None(ring.n)
    && (forall r :: 0 <= r < ring.n ==> m.left[r] == 0 && m.stage[r] == if 1 <= r < k then B.Marked else B.Outside)
    && (if ring.n < B.ATOMIC_SIZE then forall r :: 1 <= r < k ==> m.s.sync(0, r) == B.FLAG_VALUE else m.s.sync(0, 0) == k - 1)
  }

  lemma {:induction false} MarkAll<T>(ring: Ring<T>, m: Synced<T>, k: nat) returns (acts: seq<Step>)
    requires Begin(ring, m) && 1 <= k <= ring.n
    ensures MarkedUpTo(ring, DoAll(ring, m, acts), k)
  {
    if k == 1 {
      acts := [];
    } else {
      acts := MarkAll(ring, m, k - 1);
      Then(ring, m, acts, Step(k - 1));
      acts := acts + [Step(k - 1)];
    }
  }

  // ------------------------------------------------------------------- PE 0 goes through

  /** PE 0 finds every mark it still waits for, and PE 1 has not acted on what it is told. */
  ghost predicate RootReady<T>(ring: Ring<T>, m: Synced<T>) {
    && Fits(ring, m) && ring.n >= 2 && m.second == RingSequence.None(ring.n)
    && m.left[0] == 0 == m.left[1] && m.stage[1] == B.Marked && B.RootOk(ring.n, m.stage[0])
    && match m.stage[0]
       case Collect(i) => if ring.n < B.ATOMIC_SIZE then MarksFrom(ring.n, m.s.sync, i) else m.s.sync(0, 0) == ring.n - 1
       case Announce(_) => true
       case _ => if ring.n < B.ATOMIC_SIZE then MarksFrom(ring.n, m.s.sync, 1) else m.s.sync(0, 0) == ring.n - 1
  }

  ghost predicate MarksFrom(n: nat, sync: (int, int) -> int, i: int) { forall r :: i <= r < n ==> sync(0, r) == B.FLAG_VALUE }

  lemma RootMoves<T>(ring: Ring<T>, m: Synced<T>)
    requires RootReady(ring, m)
    ensures var m' := Do(ring, m, Step(0));
      && m'.stage[1] == B.Marked && m'.left[1] == 0 && m'.second == m.second
      && (m'.left[0] == 1 || (RootReady(ring, m') && B.Position(ring.n, m.stage[0]) < B.Position(ring.n, m'.stage[0])))
  {}

  lemma {:induction false} RootLeaves<T>(ring: Ring<T>, m: Synced<T>) returns (acts: seq<Step>)
    requires RootReady(ring, m)
    ensures var m' := DoAll(ring, m, acts); m'.left[0] == 1 && m'.left[1] == 0 && m'.stage[1] == B.Marked && m'.second == RingSequence.None(ring.n)
    decreases 2 * ring.n + 1 - B.Position(ring.n, m.stage[0])
  {
    RootMoves(ring, m);
    var m' := Do(ring, m, Step(0));
    assert DoAll(ring, m, [Step(0)]) == m' by { assert [Step(0)][..0] == []; }
    if m'.left[0] == 1 {
      acts := [Step(0)];
    } else {
      var rest := RootLeaves(ring, m');
      acts := [Step(0)] + rest;
      DoAllJoins(ring, m, [Step(0)], rest);
    }
  }

  // -------------------------------------------------------------- the lost announcement

  /** PE 0 is in the ring, and what it told PE 1 is gone. */
  ghost predicate Stuck<T>(ring: Ring<T>, m: Synced<T>) {
    && Fits(ring, m) && ring.n >= 2 && m.second[0] && !m.second[1] && m.left[1] == 0 && m.stage[1] == B.Marked
    && m.s.pc[0].seg >= 0 && m.s.sync(1, 0) != B.FLAG_VALUE
  }

  lemma StuckInRing<T>(ring: Ring<T>, m: Synced<T>, r: int)
    requires Stuck(ring, m) && 0 <= r < ring.n && m.second[r]
    ensures Stuck(ring, Do(ring, m, Step(r)))
  { NextIs(ring, r); }

  lemma StuckInBarrier<T>(ring: Ring<T>, m: Synced<T>, r: int)
    requires Stuck(ring, m) && 0 <= r < ring.n && !m.second[r]
    ensures Stuck(ring, Do(ring, m, Step(r)))
  {}

  lemma {:induction false} StuckForever<T>(ring: Ring<T>, m: Synced<T>, acts: seq<Step>)
    requires Stuck(ring, m)
    ensures Stuck(ring, DoAll(ring, m, acts))
  {
    if acts != [] {
      StuckForever(ring, m, acts[..|acts| - 1]);
      var (m', a) := (DoAll(ring, m, acts[..|acts| - 1]), acts[|acts| - 1]);
      if a.Step? && 0 <= a.pe < ring.n {
        if m'.second[a.pe] { StuckInRing(ring, m', a.pe); } else { StuckInBarrier(ring, m', a.pe); }
      }
    }
  }

  /** PE 0 enters the ring, puts its first chunk and raises the flag. */
  lemma Overtakes<T>(ring: Ring<T>, m: Synced<T>)
    requires Fits(ring, m) && ring.n >= 2 && ring.segs >= 1
    requires m.left[0] == 1 && m.left[1] == 0 && m.stage[1] == B.Marked && m.second == RingSequence.None(ring.n)
    ensures Stuck(ring, Do(ring, Do(ring, Do(ring, m, Enter(0)), Step(0)), Step(0)))
  {
    NextIs(ring, 0);
    var m1 := Do(ring, m, Enter(0));
    assert m1.s.pc[0] == PC(0, 0, PUT);
    var m2 := Do(ring, m1, Step(0));
    assert m2.s.pc[0] == PC(0, 0, SIGNAL);
  }

  /**
    The team's sync and then a ring call: for every team of two or more PEs there are runs after which
    PE 1 stays in the barrier forever, whatever happens next.
  */
  lemma SyncThenRingCanHang<T>(ring: Ring<T>, start: Synced<T>) returns (acts: seq<Step>)
    requires Begin(ring, start) && ring.n >= 2 && ring.segs >= 1
    ensures forall more :: var m := DoAll(ring, start, acts + more); m.stage[1] == B.Marked && m.left[1] == 0
  {
    var a := MarkAll(ring, start, ring.n);
    var m1 := DoAll(ring, start, a);
    var b := RootLeaves(ring, m1);
    var m2 := DoAll(ring, m1, b);
    DoAllJoins(ring, start, a, b);
    Overtakes(ring, m2);
    Then(ring, start, a + b, Enter(0));
    Then(ring, start, a + b + [Enter(0)], Step(0));
    Then(ring, start, a + b + [Enter(0)] + [Step(0)], Step(0));
    acts := a + b + [Enter(0)] + [Step(0)] + [Step(0)];
    forall more
      ensures Stuck(ring, DoAll(ring, start, acts + more))
    {
      DoAllJoins(ring, start, acts, more);
      StuckForever(ring, DoAll(ring, start, acts), more);
    }
  }

  // ---------------------------------------------------- without iterations nothing is lost

  /** PE r has left the barrier, and is in a ring without iterations or about to enter it. */
  ghost predicate Through<T>(ring: Ring<T>, m: Synced<T>, r: int)
    requires Fits(ring, m) && 0 <= r < ring.n
  {
    && (m.left[r] == 0 || (m.left[r] == 1 && m.stage[r] == B.Outside))
    && (m.second[r] ==> m.left[r] == 1 && (m.s.pc[r] == PC(ring.segs, 0, 0) || m.s.pc[r] == PC(ring.segs, 0, 1)))
  }

  ghost predicate Quiet<T>(ring: Ring<T>, m: Synced<T>) {
    && Fits(ring, m) && B.Inv(ring.n, BarrierOf(m)) && B.RootOk(ring.n, m.stage[0])
    && forall r :: 0 <= r < ring.n ==> Through(ring, m, r)
  }

  /** The flags a PE clears when it leaves the ring are cleared already. */
  lemma ResetKeeps<T>(ring: Ring<T>, m: Synced<T>, r: int)
    requires Quiet(ring, m) && 0 <= r < ring.n && m.second[r]
    ensures B.Inv(ring.n, BarrierOf(Do(ring, m, Step(r))))
  {
    var (n, b, b') := (ring.n, BarrierOf(m), BarrierOf(Do(ring, m, Step(r))));
    assert Through(ring, m, r);
    forall p | 1 <= p < n
      ensures B.Pair(n, b', p) && B.Entered(b, p) <= 1 && (r == 0 ==> B.Entered(b, p) == B.Taken(n, b, p))
    {
      assert B.Pair(n, b, p) && Through(ring, m, p);
    }
    PendingSame(n, b, b', n);
    if r == 0 { B.NonePending(n, b, n); }
  }

  lemma {:induction false} PendingSame(n: nat, b: B.State, b': B.State, m: nat)
    requires |b.stage| == |b.left| == n >= m && n >= 1 && b'.stage == b.stage && b'.left == b.left
    ensures B.Pending(n, b', m) == B.Pending(n, b, m)
  {
    if m > 1 { PendingSame(n, b, b', m - 1); }
  }

  lemma BarrierKeeps<T>(ring: Ring<T>, m: Synced<T>, r: int)
    requires Quiet(ring, m) && 0 <= r < ring.n && !m.second[r] && m.left[r] == 0
    ensures Quiet(ring, Do(ring, m, Step(r)))
  {
    if r == 0 { B.KeepRoot(ring.n, BarrierOf(m)); } else { B.KeepOther(ring.n, BarrierOf(m), r); }
    var m' := Do(ring, m, Step(r));
    forall p | 0 <= p < ring.n
      ensures Through(ring, m', p)
    { assert Through(ring, m, p); }
  }

  lemma RingKeeps<T>(ring: Ring<T>, m: Synced<T>, r: int)
    requires Quiet(ring, m) && 0 <= r < ring.n && m.second[r]
    ensures Quiet(ring, Do(ring, m, Step(r)))
  {
    ResetKeeps(ring, m, r);
    var m' := Do(ring, m, Step(r));
    assert Through(ring, m, r);
    forall p | 0 <= p < ring.n
      ensures Through(ring, m', p)
    { assert Through(ring, m, p); }
  }

  lemma EnterKeeps<T>(ring: Ring<T>, m: Synced<T>, r: int)
    requires Quiet(ring, m) && 0 <= r < ring.n && (ring.n == 1 || ring.segs == 0)
    ensures Quiet(ring, Do(ring, m, Enter(r)))
  {
    var m' := Do(ring, m, Enter(r));
    assert BarrierOf(m') == BarrierOf(m);
    forall p | 0 <= p < ring.n
      ensures Through(ring, m', p)
    { assert Through(ring, m, p); }
  }

  lemma QuietStep<T>(ring: Ring<T>, m: Synced<T>, a: Step)
    requires Quiet(ring, m) && (ring.n == 1 || ring.segs == 0)
    ensures Quiet(ring, Do(ring, m, a))
  {
    if 0 <= a.pe < ring.n {
      if a.Enter? {
        EnterKeeps(ring, m, a.pe);
      } else if m.second[a.pe] {
        RingKeeps(ring, m, a.pe);
      } else if m.left[a.pe] == 0 {
        BarrierKeeps(ring, m, a.pe);
      }
    }
  }

  lemma {:induction false} StaysQuiet<T>(ring: Ring<T>, start: Synced<T>, acts: seq<Step>)
    requires Begin(ring, start) && (ring.n == 1 || ring.segs == 0)
    ensures Quiet(ring, DoAll(ring, start, acts))
  {
    if acts == [] {
      B.NonePending(ring.n, BarrierOf(start), ring.n);
    } else {
      StaysQuiet(ring, start, acts[..|acts| - 1]);
      QuietStep(ring, DoAll(ring, start, acts[..|acts| - 1]), acts[|acts| - 1]);
    }
  }

  /** Everybody is through the barrier and the ring. */
  ghost predicate AllReturned<T>(ring: Ring<T>, m: Synced<T>) {
    Fits(ring, m) && forall r :: 0 <= r < ring.n ==> m.second[r] && m.s.pc[r] == PC(ring.segs, 0, 1)
  }

  lemma SomeoneInside<T>(ring: Ring<T>, m: Synced<T>) returns (p: int)
    requires Quiet(ring, m) && (exists q :: 0 <= q < ring.n && m.left[q] == 0)
    ensures 0 <= p < ring.n && m.left[p] == 0 && B.Act(ring.n, BarrierOf(m), p).stage[p] != m.stage[p]
  {
    var b := BarrierOf(m);
    if q :| 0 <= q < ring.n && m.left[q] == 0 && m.stage[q].Outside? {
      p := q;
    } else {
      forall q | 0 <= q < ring.n
        ensures B.Entered(b, q) == 1 && (m.stage[q].Outside? ==> m.left[q] == 1)
      { assert Through(ring, m, q); }
      assert B.AllArrived(ring.n, b);
      p := B.InsideMoves(ring.n, b);
    }
  }

  /**
    With one PE, or a ring without segments, no run gets stuck: unless all have returned, somebody's next
    action changes where it is.
  */
  lemma NoDeadlockWithoutIterations<T>(ring: Ring<T>, start: Synced<T>, acts: seq<Step>) returns (a: Step)
    requires Begin(ring, start) && (ring.n == 1 || ring.segs == 0) && !AllReturned(ring, DoAll(ring, start, acts))
    ensures var m := DoAll(ring, start, acts);
      && 0 <= a.pe < ring.n
      && var m' := Do(ring, m, a);
         m'.stage[a.pe] != m.stage[a.pe] || m'.second[a.pe] != m.second[a.pe] || m'.s.pc[a.pe] != m.s.pc[a.pe]
  {
    StaysQuiet(ring, start, acts);
    var m := DoAll(ring, start, acts);
    if exists q :: 0 <= q < ring.n && m.left[q] == 0 {
      var p := SomeoneInside(ring, m);
      assert Through(ring, m, p);
      a := Step(p);
    } else {
      var r :| 0 <= r < ring.n && !(m.second[r] && m.s.pc[r] == PC(ring.segs, 0, 1));
      assert Through(ring, m, r);
      a := if m.second[r] then Step(r) else Enter(r);
    }
  }
}
