/**
  The ring all-reduce from the call on: each PE first copies its source to its
  destination, in its own time, while its predecessors may already be putting
  chunks and raising flags.  Every run of this program corresponds to a run of
  the protocol in RingAllreduce, whose results therefore hold for it.
*/
module RingEntry {
  import opened RingAllreduce

  /** `entered[r]`: PE r has made its copy. */
  datatype Calling<!T> = Calling(s: State<T>, entered: seq<bool>)

  /** All PEs call with their flags reset; work buffers and destinations may hold anything. */
  ghost predicate Called<T>(ring: Ring<T>, e: Calling<T>) {
    && |e.s.pc| == |e.entered| == ring.n
    && (forall r :: 0 <= r < ring.n ==> e.s.pc[r] == Entry(ring) && !e.entered[r])
    && (forall r, iter :: 0 <= r < ring.n && 0 <= iter < ring.Iters() ==> e.s.sync(r, iter) == SYNC_VALUE)
  }

  /** The first action of a PE is its copy, the others are those of the protocol. */
  function Act<T>(ring: Ring<T>, e: Calling<T>, r: int): Calling<T>
    requires ring.Valid() && |e.s.pc| == |e.entered| == ring.n
  {
    if 0 <= r < ring.n && !e.entered[r] then
      Calling(e.s.(dst := CopySource(ring, e.s.dst, r)), e.entered[r := true])
    else e.(s := Exec(ring, e.s, r))
  }

  function CopySource<T>(ring: Ring<T>, dst: (int, int, int) -> T, r: int): (int, int, int) -> T {
    (p: int, seg: int, c: int) => if p == r then ring.input(p, seg, c) else dst(p, seg, c)
  }

  function ActAll<T>(ring: Ring<T>, e: Calling<T>, sched: seq<int>): (e': Calling<T>)
    requires ring.Valid() && |e.s.pc| == |e.entered| == ring.n
    ensures |e'.s.pc| == |e'.entered| == ring.n
  {
    if sched == [] then e else Act(ring, ActAll(ring, e, sched[..|sched| - 1]), sched[|sched| - 1])
  }

  // -------------------------------------------------------------- simulation

  /** t is the same state with every source copied in advance. */
  ghost predicate Ahead<T>(ring: Ring<T>, e: Calling<T>, t: State<T>) {
    && |e.entered| == ring.n && e.s.pc == t.pc && |t.pc| == ring.n
    && (forall r :: 0 <= r < ring.n && !e.entered[r] ==> t.pc[r] == Entry(ring))
    && (forall r, iter :: 0 <= r < ring.n && 0 <= iter < ring.Iters() ==> e.s.sync(r, iter) == t.sync(r, iter))
    && (forall r, c :: 0 <= r < ring.n && 0 <= c < ring.n ==> e.s.work(r, c) == t.work(r, c))
    && (forall r, seg, c :: 0 <= r < ring.n && 0 <= seg < ring.segs && 0 <= c < ring.n && e.entered[r] ==>
          e.s.dst(r, seg, c) == t.dst(r, seg, c))
  }

  /** Before a PE has entered, its destination is its source as far as the protocol is concerned. */
  lemma NotEnteredIsSource<T>(ring: Ring<T>, t: State<T>, r: int, seg: int, c: int)
    requires Inv(ring, t) && 0 <= r < ring.n && t.pc[r] == Entry(ring)
    requires 0 <= seg < ring.segs && 0 <= c < ring.n
    ensures t.dst(r, seg, c) == ring.input(r, seg, c)
  {
    assert DstAt(ring, t, r, seg, c);
    NotArrived(ring, t.pc, r, seg, c);
  }

  lemma CopyKeeps<T>(ring: Ring<T>, e: Calling<T>, t: State<T>, r: int)
    requires Inv(ring, t) && Ahead(ring, e, t) && 0 <= r < ring.n && !e.entered[r]
    ensures Ahead(ring, Act(ring, e, r), t)
  {
    var e' := Act(ring, e, r);
    forall p, seg, c | 0 <= p < ring.n && 0 <= seg < ring.segs && 0 <= c < ring.n && e'.entered[p]
      ensures e'.s.dst(p, seg, c) == t.dst(p, seg, c)
    { if p == r { NotEnteredIsSource(ring, t, r, seg, c); } }
  }

  /** A PE whose destination is put into has entered before. */
  lemma TargetHasEntered<T>(ring: Ring<T>, e: Calling<T>, t: State<T>, r: int)
    requires Inv(ring, t) && Ahead(ring, e, t) && 0 <= r < ring.n
    requires t.pc[r].seg < ring.segs && t.pc[r].phase == PUT && t.pc[r].iter >= ring.n - 1
    ensures 0 <= ring.Next(r) < ring.n && e.entered[ring.Next(r)]
  {
    SuccessorClose(ring, t.pc, r, t.pc[r].seg, t.pc[r].iter - 1);
  }

  lemma StepKeeps<T>(ring: Ring<T>, e: Calling<T>, t: State<T>, r: int)
    requires Inv(ring, t) && Ahead(ring, e, t) && 0 <= r < ring.n && e.entered[r]
    ensures Ahead(ring, Act(ring, e, r), Exec(ring, t, r))
  {
    var pc := t.pc[r];
    NextIs(ring, r);
    if pc.seg < ring.segs {
      Chunks(ring, r, pc.iter);
      if pc.phase == PUT && pc.iter >= ring.n - 1 { TargetHasEntered(ring, e, t, r); }
    }
  }

  /** Every run is one of the protocol with the copies left out. */
  lemma {:induction false} Simulates<T>(ring: Ring<T>, start: Calling<T>, sched: seq<int>) returns (first: State<T>, inner: seq<int>)
    requires ring.n >= 2 && Called(ring, start)
    ensures first == State(start.s.pc, start.s.work, start.s.sync, ring.input)
    ensures Start(ring, first) && Inv(ring, Run(ring, first, inner)) && Ahead(ring, ActAll(ring, start, sched), Run(ring, first, inner))
  {
    if sched == [] {
      first, inner := State(start.s.pc, start.s.work, start.s.sync, ring.input), [];
    } else {
      var r := sched[|sched| - 1];
      first, inner := Simulates(ring, start, sched[..|sched| - 1]);
      var (e, t) := (ActAll(ring, start, sched[..|sched| - 1]), Run(ring, first, inner));
      if 0 <= r < ring.n {
        if e.entered[r] {
          StepKeeps(ring, e, t, r);
          assert (inner + [r])[..|inner|] == inner;
          inner := inner + [r];
        } else {
          CopyKeeps(ring, e, t, r);
        }
      }
    }
    RunInv(ring, first, inner);
  }

  // ----------------------------------------------------------------- results

  ghost predicate AllReturned<T>(ring: Ring<T>, e: Calling<T>) {
    |e.s.pc| == |e.entered| == ring.n && forall r :: 0 <= r < ring.n ==> e.s.pc[r] == PC(ring.segs, 0, 1)
  }

  lemma {:induction false} AloneKeepsSource<T>(ring: Ring<T>, start: Calling<T>, sched: seq<int>, seg: int, c: int)
    requires ring.n == 1 && Called(ring, start)
    ensures var e := ActAll(ring, start, sched);
      && e.s.pc[0].seg == ring.segs && e.s.pc[0].iter == 0
      && (if e.entered[0] then e.s.dst(0, seg, c) == ring.input(0, seg, c) && 0 <= e.s.pc[0].phase <= 1 else e.s.pc[0].phase == 0)
  {
    if sched != [] { AloneKeepsSource(ring, start, sched[..|sched| - 1], seg, c); }
  }

  /** After every run in which all PEs returned, every PE holds the reduction of every chunk over all PEs' sources. */
  lemma CallReduces<T(!new)>(ring: Ring<T>, start: Calling<T>, sched: seq<int>, r: int, seg: int, c: int)
    requires ring.Valid() && Called(ring, start) && AllReturned(ring, ActAll(ring, start, sched))
    requires Associative(ring.op) && Commutative(ring.op)
    requires 0 <= r < ring.n && 0 <= seg < ring.segs && 0 <= c < ring.n
    ensures ActAll(ring, start, sched).s.dst(r, seg, c) == InOrder(ring, seg, c, 0, ring.n)
  {
    if ring.n == 1 {
      AloneKeepsSource(ring, start, sched, seg, c);
    } else {
      var first, inner := Simulates(ring, start, sched);
      var e := ActAll(ring, start, sched);
      assert e.entered[r];
      RingReduces(ring, first, inner);
    }
  }

  /** No reachable state is stuck: unless all have returned, some PE's next action makes progress. */
  lemma CallNoDeadlock<T>(ring: Ring<T>, start: Calling<T>, sched: seq<int>) returns (r: int)
    requires ring.Valid() && Called(ring, start) && !AllReturned(ring, ActAll(ring, start, sched))
    ensures 0 <= r < ring.n
    ensures var (e, e') := (ActAll(ring, start, sched), ActAll(ring, start, sched + [r]));
      e'.s.pc[r] != e.s.pc[r] || (e'.entered[r] && !e.entered[r])
  {
    var e := ActAll(ring, start, sched);
    if p :| 0 <= p < ring.n && !e.entered[p] {
      r := p;
    } else if ring.n == 1 {
      AloneKeepsSource(ring, start, sched, 0, 0);
      r := 0;
    } else {
      var first, inner := Simulates(ring, start, sched);
      r := NoDeadlock(ring, first, inner);
      assert (inner + [r])[..|inner|] == inner;
      SameMove(ring, e, Run(ring, first, inner), r);
    }
    assert (sched + [r])[..|sched|] == sched;
  }

  /** Whether a PE can move depends on its place and its flags only. */
  lemma SameMove<T>(ring: Ring<T>, e: Calling<T>, t: State<T>, r: int)
    requires Inv(ring, t) && Ahead(ring, e, t) && 0 <= r < ring.n
    ensures Exec(ring, e.s, r).pc == Exec(ring, t, r).pc
  {}

  /** A PE's copy never meets a put into its destination or another PE's access to it. */
  lemma CopyNoRace<T>(ring: Ring<T>, start: Calling<T>, sched: seq<int>, r: int, q: int, seg: int, c: int)
    requires ring.n >= 2 && Called(ring, start) && 0 <= r < ring.n && 0 <= q < ring.n && r != q
    requires !ActAll(ring, start, sched).entered[r] && ActAll(ring, start, sched).entered[q]
    ensures var e := ActAll(ring, start, sched);
      Dst(r, seg, c) !in Writes(ring, e.s, q) && Dst(r, seg, c) !in Reads(ring, e.s, q)
  {
    var first, inner := Simulates(ring, start, sched);
    var (e, t) := (ActAll(ring, start, sched), Run(ring, first, inner));
    var pc := t.pc[q];
    NextIs(ring, q);
    if pc.seg < ring.segs && pc.phase == PUT && pc.iter >= ring.n - 1 { TargetHasEntered(ring, e, t, q); }
  }
}
