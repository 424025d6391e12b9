/**
  A team's `sync` after an all-reduce on the same team.  Both use the team's
  barrier flags (src/ipc/context_ipc_device_coll.cpp, line 108, and
  src/ipc/context_ipc_tmpl_device.hpp, lines 173 and 290), so a PE that leaves the
  all-reduce can clear the mark another PE has already made for the barrier.
*/
module TeamSync {
  import opened RingAllreduce
  import RingSequence
  import opened DirectSequence
  import B = Barrier
  import D = DirectAllreduce
  import F = TeamFlags

  // ------------------------------------------------------------------ the lost mark

  /** How many of the PEs 2 to m - 1 have made their mark. */
  function Marks(stage: seq<B.Stage>, m: nat): nat
    requires m <= |stage|
  { if m <= 2 then 0 else Marks(stage, m - 1) + if stage[m - 1].Marked? then 1 else 0 }

  lemma {:induction false} MarksBound(stage: seq<B.Stage>, m: nat)
    requires 2 <= m <= |stage|
    ensures Marks(stage, m) <= m - 2
  {
    if m > 2 { MarksBound(stage, m - 1); }
  }

  lemma {:induction false} MarksGrow(stage: seq<B.Stage>, m: nat, p: int)
    requires m <= |stage| && 2 <= p < |stage| && stage[p].Outside?
    ensures Marks(stage[p := B.Marked], m) == Marks(stage, m) + if p < m then 1 else 0
  {
    if m > 2 { MarksGrow(stage, m - 1, p); }
  }

  lemma {:induction false} NoMarks(stage: seq<B.Stage>, m: nat)
    requires m <= |stage| && forall r :: 2 <= r < m ==> !stage[r].Marked?
    ensures Marks(stage, m) == 0
  {
    if m > 2 { NoMarks(stage, m - 1); }
  }

  /** PE 0 waits for a mark that PE 1 has made and PE 0 has cleared, and nobody is told. */
  ghost predicate LostMark(n: nat, b: B.State) {
    && |b.stage| == |b.left| == n >= 2 && b.stage[0] == B.Collect(1) && b.stage[1] == B.Marked
    && (forall r :: 2 <= r < n ==> b.stage[r].Outside? || b.stage[r].Marked?)
    && (forall r :: 1 <= r < n ==> b.flags(r, 0) == SYNC_VALUE)
    && (if n < B.ATOMIC_SIZE then b.flags(0, 1) == SYNC_VALUE else b.flags(0, 0) == Marks(b.stage, n))
  }

  lemma StaysLost(n: nat, b: B.State, r: int)
    requires LostMark(n, b)
    ensures LostMark(n, B.Act(n, b, r))
  {
    MarksBound(b.stage, n);
    if 2 <= r < n && b.stage[r].Outside? { MarksGrow(b.stage, n, r); }
  }

  /** PE 1 has made its mark and nobody else is in the barrier. */
  ghost predicate OneMark(n: nat, b: B.State) {
    && |b.stage| == |b.left| == n >= 2
    && (forall r :: 0 <= r < n ==> b.stage[r] == if r == 1 then B.Marked else B.Outside)
    && (forall r :: 1 <= r < n ==> b.flags(r, 0) == SYNC_VALUE)
  }

  /** Once PE 0 has cleared its flags and enters, the mark is lost. */
  lemma WaitsForMark(n: nat, b: B.State)
    requires OneMark(n, b) && b.flags(0, 0) == SYNC_VALUE == b.flags(0, 1)
    ensures LostMark(n, B.Act(n, b, 0))
  {
    NoMarks(B.Act(n, b, 0).stage, n);
  }

  // ----------------------------------------------------------------- sync after ring

  /** The ring's state, whose flags the barrier shares, and where each PE is in the barrier. */
  datatype Synced<!T> = Synced(s: State<T>, stage: seq<B.Stage>, left: seq<nat>)

  ghost predicate Fits<T>(ring: Ring<T>, m: Synced<T>) { ring.n >= 1 && |m.s.pc| == |m.stage| == |m.left| == ring.n }

  /** A PE first finishes its call; from then on its actions are those of the barrier. */
  function Act<T>(ring: Ring<T>, m: Synced<T>, r: int): (m': Synced<T>)
    requires Fits(ring, m)
    ensures Fits(ring, m')
  {
    if 0 <= r < ring.n && m.s.pc[r] == PC(ring.segs, 0, 1) then
      var b := B.Act(ring.n, B.State(m.stage, m.left, m.s.sync), r);
      Synced(m.s.(sync := b.flags), b.stage, b.left)
    else m.(s := Exec(ring, m.s, r))
  }

  function ActAll<T>(ring: Ring<T>, m: Synced<T>, sched: seq<int>): (m': Synced<T>)
    requires Fits(ring, m)
    ensures Fits(ring, m')
  {
    if sched == [] then m else Act(ring, ActAll(ring, m, sched[..|sched| - 1]), sched[|sched| - 1])
  }

  lemma {:induction false} ActAllJoins<T>(ring: Ring<T>, m: Synced<T>, a: seq<int>, b: seq<int>)
    requires Fits(ring, m)
    ensures ActAll(ring, m, a + b) == ActAll(ring, ActAll(ring, m, a), b)
  {
    if b == [] {
      assert a + b == a;
    } else {
      ActAllJoins(ring, m, a, b[..|b| - 1]);
      assert (a + b)[..|a + b| - 1] == a + b[..|b| - 1];
    }
  }

  function AtStart<T>(ring: Ring<T>, s: State<T>): Synced<T> {
    Synced(s, seq(ring.n, _ => B.Outside), seq(ring.n, _ => 0))
  }

  // ------------------------------------------------ only PE 0 is still in the ring

  /** A run of the ring in which no PE acts after it has returned. */
  lemma {:induction false} DrainToZero<T>(ring: Ring<T>, s: State<T>) returns (sched: seq<int>, s': State<T>)
    requires Inv(ring, s) && s.pc[0] != PC(ring.segs, 0, 1)
    ensures Inv(ring, s') && RingSequence.OnlyOneInside(ring, s', 0)
    ensures ActAll(ring, AtStart(ring, s), sched) == AtStart(ring, s')
    decreases ring.n * (4 * (ring.segs * ring.Iters()) + 1) - RankSum(ring, s.pc)
  {
    if RingSequence.OnlyOneInside(ring, s, 0) {
      sched, s' := [], s;
    } else {
      var r := RingSequence.SomeoneElse(ring, s, 0);
      var t := Exec(ring, s, r);
      KeepAny(ring, s, r);
      RankSumBound(ring, t.pc);
      RankAdvance(ring, s.pc[r]);
      RankSumUpdate(ring, s.pc, r, Advance(ring, s.pc[r]));
      var rest;
      rest, s' := DrainToZero(ring, t);
      sched := [r] + rest;
      ActAllJoins(ring, AtStart(ring, s), [r], rest);
      assert ActAll(ring, AtStart(ring, s), [r]) == AtStart(ring, t) by { assert [r][..0] == []; }
    }
  }

  // ------------------------------------------------------------ PE 0 clears the mark

  function BarrierOf<T>(m: Synced<T>): B.State { B.State(m.stage, m.left, m.s.sync) }

  /** All have left the ring, and the mark is lost. */
  ghost predicate Stuck<T>(ring: Ring<T>, m: Synced<T>) {
    && Fits(ring, m) && LostMark(ring.n, BarrierOf(m))
    && forall r :: 0 <= r < ring.n ==> m.s.pc[r] == PC(ring.segs, 0, 1)
  }

  lemma {:induction false} StuckForever<T>(ring: Ring<T>, m: Synced<T>, sched: seq<int>)
    requires Stuck(ring, m)
    ensures Stuck(ring, ActAll(ring, m, sched))
  {
    if sched != [] {
      StuckForever(ring, m, sched[..|sched| - 1]);
      StaysLost(ring.n, BarrierOf(ActAll(ring, m, sched[..|sched| - 1])), sched[|sched| - 1]);
    }
  }

  /** PE 0 is at this place, and all others have left the ring. */
  ghost predicate OthersReturned<T>(ring: Ring<T>, m: Synced<T>, pc: PC) {
    Fits(ring, m) && forall r :: 0 <= r < ring.n ==> m.s.pc[r] == if r == 0 then pc else PC(ring.segs, 0, 1)
  }

  lemma MarkMade<T>(ring: Ring<T>, s: State<T>)
    requires Inv(ring, s) && RingSequence.OnlyOneInside(ring, s, 0)
    ensures var m := Act(ring, AtStart(ring, s), 1); OneMark(ring.n, BarrierOf(m)) && OthersReturned(ring, m, PC(ring.segs, 0, 0))
  {
    forall r | 1 <= r < ring.n
      ensures s.sync(r, 0) == SYNC_VALUE
    { RingSequence.OthersAreClean(ring, s, 0, r, 0); }
  }

  /** PE 0 clears its flags on leaving the ring. */
  lemma MarkCleared<T>(ring: Ring<T>, m: Synced<T>)
    requires OneMark(ring.n, BarrierOf(m)) && OthersReturned(ring, m, PC(ring.segs, 0, 0))
    ensures var m' := Act(ring, m, 0);
      && OneMark(ring.n, BarrierOf(m')) && OthersReturned(ring, m', PC(ring.segs, 0, 1))
      && m'.s.sync(0, 0) == SYNC_VALUE == m'.s.sync(0, 1)
  {}

  lemma MarkLost<T>(ring: Ring<T>, s: State<T>)
    requires Inv(ring, s) && RingSequence.OnlyOneInside(ring, s, 0)
    ensures Stuck(ring, ActAll(ring, AtStart(ring, s), [1, 0, 0]))
  {
    var m := AtStart(ring, s);
    assert [1][..0] == [] && [1, 0][..1] == [1] && [1, 0, 0][..2] == [1, 0];
    assert ActAll(ring, m, [1]) == Act(ring, m, 1);
    assert ActAll(ring, m, [1, 0]) == Act(ring, Act(ring, m, 1), 0);
    MarkMade(ring, s);
    MarkCleared(ring, Act(ring, m, 1));
    WaitsForMark(ring.n, BarrierOf(Act(ring, Act(ring, m, 1), 0)));
  }

  /**
    For every team of two or more PEs a ring all-reduce followed by the team's own sync can hang: there
    are runs after which PE 0 waits forever in the barrier, whatever happens next.
  */
  lemma TeamSyncCanHang<T>(ring: Ring<T>, start: State<T>) returns (sched: seq<int>)
    requires ring.n >= 2 && Start(ring, start)
    ensures forall more :: ActAll(ring, AtStart(ring, start), sched + more).stage[0] == B.Collect(1)
  {
    StartInv(ring, start);
    var first, s := DrainToZero(ring, start);
    MarkLost(ring, s);
    sched := first + [1, 0, 0];
    ActAllJoins(ring, AtStart(ring, start), first, [1, 0, 0]);
    var stuck := ActAll(ring, AtStart(ring, s), [1, 0, 0]);
    forall more
      ensures ActAll(ring, AtStart(ring, start), sched + more).stage[0] == B.Collect(1)
    {
      ActAllJoins(ring, AtStart(ring, start), sched, more);
      StuckForever(ring, stuck, more);
    }
  }

  lemma {:induction false} AloneInPlace<T>(ring: Ring<T>, start: State<T>, sched: seq<int>)
    requires ring.n == 1 && Start(ring, start)
    ensures var m := ActAll(ring, AtStart(ring, start), sched);
      && (m.s.pc[0] == PC(ring.segs, 0, 0) || m.s.pc[0] == PC(ring.segs, 0, 1)) && B.RootOk(1, m.stage[0])
  {
    if sched != [] { AloneInPlace(ring, start, sched[..|sched| - 1]); }
  }

  /** With one PE nobody ever waits: its every action moves it on, in the ring and in the barrier. */
  lemma AloneNeverWaits<T>(ring: Ring<T>, start: State<T>, sched: seq<int>)
    requires ring.n == 1 && Start(ring, start)
    ensures var m := ActAll(ring, AtStart(ring, start), sched);
      Act(ring, m, 0).s.pc[0] != m.s.pc[0] || Act(ring, m, 0).stage[0] != m.stage[0]
  {
    AloneInPlace(ring, start, sched);
  }

  // --------------------------------------------------------------- sync after direct

  /** The direct call, whose flags the barrier shares; `second[r]`: PE r has gone on to the barrier. */
  datatype DirectSynced<!T> = DirectSynced(d: F.Direct<T>, stage: seq<B.Stage>, left: seq<nat>, second: seq<bool>)

  ghost predicate DirectFits<T>(ring: Ring<T>, m: DirectSynced<T>) {
    ring.n >= 1 && |m.d.at| == |m.stage| == |m.left| == |m.second| == ring.n
  }

  function DirectBarrier<T>(m: DirectSynced<T>): B.State { B.State(m.stage, m.left, m.d.sync) }

  function WithBarrier<T>(m: DirectSynced<T>, b: B.State): DirectSynced<T> {
    DirectSynced(m.d.(sync := b.flags), b.stage, b.left, m.second)
  }

  function DoDirect<T>(team: F.Team, ring: Ring<T>, m: DirectSynced<T>, a: Step): (m': DirectSynced<T>)
    requires DirectFits(ring, m)
    ensures DirectFits(ring, m')
  {
    match a
    case Step(r) =>
      if 0 <= r < ring.n && m.second[r] then WithBarrier(m, B.Act(ring.n, DirectBarrier(m), r))
      else m.(d := F.Do(team, ring, m.d, r))
    case Enter(r) =>
      if 0 <= r < ring.n && m.d.at[r].stage.Done? then m.(second := m.second[r := true]) else m
  }

  function DoDirectAll<T>(team: F.Team, ring: Ring<T>, m: DirectSynced<T>, acts: seq<Step>): (m': DirectSynced<T>)
    requires DirectFits(ring, m)
    ensures DirectFits(ring, m')
  {
    if acts == [] then m else DoDirect(team, ring, DoDirectAll(team, ring, m, acts[..|acts| - 1]), acts[|acts| - 1])
  }

  /** A PE enters the barrier after it has returned from the direct call. */
  lemma {:induction false} DirectEnters<T>(team: F.Team, ring: Ring<T>, c: DirectSynced<T>, acts: seq<Step>, r: int) returns (i: nat)
    requires DirectFits(ring, c) && 0 <= r < ring.n && !c.second[r] && DoDirectAll(team, ring, c, acts).second[r]
    ensures i < |acts| && acts[i] == Enter(r)
    ensures var d := DoDirectAll(team, ring, c, acts[..i]); !d.second[r] && d.d.at[r].stage.Done?
    ensures var e := DoDirectAll(team, ring, c, acts); DoDirect(team, ring, e, Enter(r)) == e
  {
    var last := |acts| - 1;
    if DoDirectAll(team, ring, c, acts[..last]).second[r] {
      i := DirectEnters(team, ring, c, acts[..last], r);
      assert acts[..last][..i] == acts[..i];
    } else {
      i := last;
    }
  }

  lemma {:induction false} DirectJoins<T>(team: F.Team, ring: Ring<T>, m: DirectSynced<T>, a: seq<Step>, b: seq<Step>)
    requires DirectFits(ring, m)
    ensures DoDirectAll(team, ring, m, a + b) == DoDirectAll(team, ring, DoDirectAll(team, ring, m, a), b)
  {
    if b == [] {
      assert a + b == a;
    } else {
      DirectJoins(team, ring, m, a, b[..|b| - 1]);
      assert (a + b)[..|a + b| - 1] == a + b[..|b| - 1];
    }
  }

  function DirectStart<T>(ring: Ring<T>, d: F.Direct<T>): DirectSynced<T> {
    DirectSynced(d, seq(ring.n, _ => B.Outside), seq(ring.n, _ => 0), RingSequence.None(ring.n))
  }

  lemma {:induction false} DirectFirst<T>(team: F.Team, ring: Ring<T>, d: F.Direct<T>, sched: seq<int>)
    requires ring.n >= 1 && |d.at| == ring.n
    ensures DoDirectAll(team, ring, DirectStart(ring, d), Steps(sched)) == DirectStart(ring, F.DoAll(team, ring, d, sched))
  {
    if sched != [] {
      DirectFirst(team, ring, d, sched[..|sched| - 1]);
      assert Steps(sched)[..|sched| - 1] == Steps(sched[..|sched| - 1]);
    }
  }

  ghost predicate DirectStuck<T>(ring: Ring<T>, m: DirectSynced<T>) {
    && DirectFits(ring, m) && LostMark(ring.n, DirectBarrier(m))
    && forall r :: 0 <= r < ring.n ==> m.d.at[r].stage.Done?
  }

  lemma {:induction false} DirectStuckForever<T>(team: F.Team, ring: Ring<T>, m: DirectSynced<T>, acts: seq<Step>)
    requires DirectStuck(ring, m)
    ensures DirectStuck(ring, DoDirectAll(team, ring, m, acts))
  {
    if acts != [] {
      DirectStuckForever(team, ring, m, acts[..|acts| - 1]);
      var (m', a) := (DoDirectAll(team, ring, m, acts[..|acts| - 1]), acts[|acts| - 1]);
      if a.Step? { StaysLost(ring.n, DirectBarrier(m'), a.pe); }
    }
  }

  /** PE 0 is about to reset its flags; all others have returned and their flags are cleared. */
  ghost predicate OnlyZeroInside<T>(ring: Ring<T>, d: F.Direct<T>) {
    && |d.at| == ring.n >= 2 && d.at[0].stage.Reset?
    && forall r :: 1 <= r < ring.n ==> d.at[r].stage.Done? && d.sync(r, 0) == SYNC_VALUE
  }

  lemma DirectDrain<T>(team: F.Team, ring: Ring<T>, d: F.Direct<T>) returns (sched: seq<int>)
    requires team.Ok(ring.n) && ring.n >= 2 && F.AtEntry(ring.n, d) && F.Clean(ring.n, d.sync)
    ensures OnlyZeroInside(ring, F.DoAll(team, ring, d, sched))
  {
    D.BeginInv(ring, F.WorldOf(team, d));
    sched := DirectSequence.DrainAllButOne(ring, F.WorldOf(team, d), 0);
    F.IsDirect(team, ring, d, sched);
    var d' := F.DoAll(team, ring, d, sched);
    forall r | 1 <= r < ring.n
      ensures d'.at[r].stage.Done? && d'.sync(r, 0) == SYNC_VALUE
    { F.DoneIsClean(team, ring, d', D.ActAll(ring, F.WorldOf(team, d), sched), r, 0); }
  }

  /** PE 1 enters the barrier and makes its mark. */
  lemma DirectMarkMade<T>(team: F.Team, ring: Ring<T>, d: F.Direct<T>)
    requires OnlyZeroInside(ring, d)
    ensures var m := DoDirect(team, ring, DoDirect(team, ring, DirectStart(ring, d), Enter(1)), Step(1));
      && OneMark(ring.n, DirectBarrier(m)) && m.d.at == d.at && !m.second[0]
  {}

  /** PE 0 leaves the direct call, clearing its flags, and enters the barrier. */
  lemma DirectMarkCleared<T>(team: F.Team, ring: Ring<T>, m: DirectSynced<T>)
    requires team.Ok(ring.n) && DirectFits(ring, m) && OneMark(ring.n, DirectBarrier(m)) && !m.second[0]
    requires m.d.at[0].stage.Reset? && forall r :: 1 <= r < ring.n ==> m.d.at[r].stage.Done?
    ensures var m' := DoDirect(team, ring, DoDirect(team, ring, DoDirect(team, ring, m, Step(0)), Enter(0)), Step(0));
      DirectStuck(ring, m')
  {
    F.FlagsDiffer(team, ring.n, 0, 1);
    var m' := DoDirect(team, ring, DoDirect(team, ring, m, Step(0)), Enter(0));
    WaitsForMark(ring.n, DirectBarrier(m'));
  }

  lemma FiveActions<T>(team: F.Team, ring: Ring<T>, m: DirectSynced<T>)
    requires DirectFits(ring, m)
    ensures var m2 := DoDirect(team, ring, DoDirect(team, ring, m, Enter(1)), Step(1));
      DoDirectAll(team, ring, m, [Enter(1), Step(1), Step(0), Enter(0), Step(0)])
        == DoDirect(team, ring, DoDirect(team, ring, DoDirect(team, ring, m2, Step(0)), Enter(0)), Step(0))
  {
    var all := [Enter(1), Step(1), Step(0), Enter(0), Step(0)];
    assert all[..4] == [Enter(1), Step(1), Step(0), Enter(0)];
    assert all[..4][..3] == [Enter(1), Step(1), Step(0)];
    assert all[..4][..3][..2] == [Enter(1), Step(1)];
    assert all[..4][..3][..2][..1] == [Enter(1)] && [Enter(1)][..0] == [];
    assert DoDirectAll(team, ring, m, [Enter(1)]) == DoDirect(team, ring, m, Enter(1));
    assert DoDirectAll(team, ring, m, [Enter(1), Step(1)]) == DoDirect(team, ring, DoDirect(team, ring, m, Enter(1)), Step(1));
    assert DoDirectAll(team, ring, m, [Enter(1), Step(1), Step(0)])
        == DoDirect(team, ring, DoDirectAll(team, ring, m, [Enter(1), Step(1)]), Step(0));
  }

  /** The same holds of a direct all-reduce followed by the team's sync. */
  lemma DirectSyncCanHang<T>(team: F.Team, ring: Ring<T>, start: F.Direct<T>) returns (acts: seq<Step>)
    requires team.Ok(ring.n) && ring.n >= 2 && F.AtEntry(ring.n, start) && F.Clean(ring.n, start.sync)
    ensures forall more :: DoDirectAll(team, ring, DirectStart(ring, start), acts + more).stage[0] == B.Collect(1)
  {
    var m0 := DirectStart(ring, start);
    var sched := DirectDrain(team, ring, start);
    var d := F.DoAll(team, ring, start, sched);
    DirectFirst(team, ring, start, sched);
    var five := [Enter(1), Step(1), Step(0), Enter(0), Step(0)];
    FiveActions(team, ring, DirectStart(ring, d));
    DirectMarkMade(team, ring, d);
    DirectMarkCleared(team, ring, DoDirect(team, ring, DoDirect(team, ring, DirectStart(ring, d), Enter(1)), Step(1)));
    acts := Steps(sched) + five;
    DirectJoins(team, ring, m0, Steps(sched), five);
    var stuck := DoDirectAll(team, ring, DirectStart(ring, d), five);
    forall more
      ensures DoDirectAll(team, ring, m0, acts + more).stage[0] == B.Collect(1)
    {
      DirectJoins(team, ring, m0, acts, more);
      DirectStuckForever(team, ring, stuck, more);
    }
  }

  lemma {:induction false} DirectAloneInPlace<T>(team: F.Team, ring: Ring<T>, start: F.Direct<T>, acts: seq<Step>)
    requires ring.n == 1 && F.AtEntry(1, start)
    ensures var m := DoDirectAll(team, ring, DirectStart(ring, start), acts);
      D.PlaceOk(1, 0, m.d.at[0]) && B.RootOk(1, m.stage[0]) && (m.second[0] ==> m.d.at[0].stage.Done?)
  {
    if acts != [] {
      DirectAloneInPlace(team, ring, start, acts[..|acts| - 1]);
      var m := DoDirectAll(team, ring, DirectStart(ring, start), acts[..|acts| - 1]);
      DirectSequence.AloneMoves(ring, F.WorldOf(team, m.d));
    }
  }

  /** With one PE nobody ever waits: its every action moves it on, in the direct call and in the barrier. */
  lemma DirectAloneNeverWaits<T>(team: F.Team, ring: Ring<T>, start: F.Direct<T>, acts: seq<Step>)
    requires ring.n == 1 && F.AtEntry(1, start)
    ensures var m := DoDirectAll(team, ring, DirectStart(ring, start), acts);
      var m' := DoDirect(team, ring, m, Step(0));
      if m.second[0] then m'.stage[0] != m.stage[0] else m.d.at[0].stage.Done? || m'.d.at[0] != m.d.at[0]
  {
    DirectAloneInPlace(team, ring, start, acts);
    var m := DoDirectAll(team, ring, DirectStart(ring, start), acts);
    DirectSequence.AloneMoves(ring, F.WorldOf(team, m.d));
  }
}
