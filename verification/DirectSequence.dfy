/**
  A direct all-reduce right after another all-reduce on the same team, as a
  program that reduces twice makes it, and as `reduce` itself makes it after a
  ring.  PEs reset their flags on leaving, so a flag raised early for the second
  call can be lost here as well, and PE 1 then never gets past its first wait.
*/
module DirectSequence {
  import opened RingAllreduce
  import opened DirectAllreduce
  import RingSequence
  import F = TeamFlags

  datatype Step = Step(pe: int) | Enter(pe: int)

  // ------------------------------------------------------------------ the lost flag

  /** PE 1 has not got past its first wait. */
  predicate Early(a: Place) { a.stage.Copy? || a.stage.Put? || a.stage.Signal? || a == Place(Wait, 0) }

  /** PE 0 has raised PE 1's flag for the second call, and PE 1 has cleared it before it came to wait for it. */
  ghost predicate Stuck(n: nat, at: seq<Place>, second: seq<bool>, flag: int) {
    && |at| == |second| == n >= 2 && second[0] && second[1]
    && HasSignalled(at[0], 1) && Early(at[1]) && flag == SYNC_VALUE
  }

  /** No action of the second call raises the flag again. */
  lemma StuckAct<T>(next: Ring<T>, w: World<T>, second: seq<bool>, r: int)
    requires |w.at| == next.n && Stuck(next.n, w.at, second, w.flag(1, 0)) && 0 <= r < next.n
    ensures var w' := Act(next, w, r); Stuck(next.n, w'.at, second, w'.flag(1, 0))
  {}

  /** A PE's actions from its entry until it has raised the flag of PE 1. */
  function Twice<T>(next: Ring<T>, w: World<T>): (w': World<T>)
    requires |w.at| == next.n
    ensures |w'.at| == next.n
  { Act(next, Act(next, w, 0), 0) }

  lemma RaisesFlag<T>(next: Ring<T>, w: World<T>)
    requires |w.at| == next.n >= 2 && w.at[0] == Place(Copy, 0)
    ensures var w' := Twice(next, Twice(next, w));
      HasSignalled(w'.at[0], 1) && forall p :: 1 <= p < next.n ==> w'.at[p] == w.at[p]
  {
    var w1 := Act(next, w, 0);
    var w2 := Act(next, w1, 0);
    assert w2.at == w.at[0 := Place(Put, 1)];
    var w3 := Act(next, w2, 0);
    assert w3.at == w.at[0 := Place(Signal, 1)];
  }

  // --------------------------------------------------------------- direct after direct

  datatype Calls<!T> = Calls(w: World<T>, second: seq<bool>)

  ghost predicate Fits<T>(ring: Ring<T>, next: Ring<T>, c: Calls<T>) { ring.n == next.n >= 1 && |c.w.at| == |c.second| == ring.n }

  /** An action of a PE in its call, or a PE that has returned entering the second call. */
  function Do<T>(ring: Ring<T>, next: Ring<T>, c: Calls<T>, a: Step): (c': Calls<T>)
    requires Fits(ring, next, c)
    ensures Fits(ring, next, c')
  {
    match a
    case Step(r) => c.(w := Act(if 0 <= r < ring.n && c.second[r] then next else ring, c.w, r))
    case Enter(r) =>
      if 0 <= r < ring.n && !c.second[r] && c.w.at[r].stage.Done? then
        Calls(Go(c.w, r, Place(Copy, 0)), c.second[r := true])
      else c
  }

  function DoAll<T>(ring: Ring<T>, next: Ring<T>, c: Calls<T>, acts: seq<Step>): (c': Calls<T>)
    requires Fits(ring, next, c)
    ensures Fits(ring, next, c')
  {
    if acts == [] then c else Do(ring, next, DoAll(ring, next, c, acts[..|acts| - 1]), acts[|acts| - 1])
  }

  /** A PE enters the second call once, after it has returned from the first. */
  lemma {:induction false} Enters<T>(ring: Ring<T>, next: Ring<T>, c: Calls<T>, acts: seq<Step>, r: int) returns (i: nat)
    requires Fits(ring, next, c) && 0 <= r < ring.n && !c.second[r] && DoAll(ring, next, c, acts).second[r]
    ensures i < |acts| && acts[i] == Enter(r)
    ensures var d := DoAll(ring, next, c, acts[..i]); !d.second[r] && d.w.at[r].stage.Done?
    ensures var e := DoAll(ring, next, c, acts); Do(ring, next, e, Enter(r)) == e
  {
    var last := |acts| - 1;
    if DoAll(ring, next, c, acts[..last]).second[r] {
      i := Enters(ring, next, c, acts[..last], r);
      assert acts[..last][..i] == acts[..i];
    } else {
      i := last;
    }
  }

  lemma {:induction false} DoAllJoins<T>(ring: Ring<T>, next: Ring<T>, c: Calls<T>, a: seq<Step>, b: seq<Step>)
    requires Fits(ring, next, c)
    ensures DoAll(ring, next, c, a + b) == DoAll(ring, next, DoAll(ring, next, c, a), b)
  {
    if b == [] {
      assert a + b == a;
    } else {
      DoAllJoins(ring, next, c, a, b[..|b| - 1]);
      assert (a + b)[..|a + b| - 1] == a + b[..|b| - 1];
    }
  }

  lemma {:induction false} StuckForever<T>(ring: Ring<T>, next: Ring<T>, c: Calls<T>, acts: seq<Step>)
    requires Fits(ring, next, c) && Stuck(ring.n, c.w.at, c.second, c.w.flag(1, 0))
    ensures var c' := DoAll(ring, next, c, acts); Stuck(ring.n, c'.w.at, c'.second, c'.w.flag(1, 0))
  {
    if acts != [] {
      var a := acts[|acts| - 1];
      StuckForever(ring, next, c, acts[..|acts| - 1]);
      var c' := DoAll(ring, next, c, acts[..|acts| - 1]);
      if a.Step? && 0 <= a.pe < ring.n { StuckAct(if c'.second[a.pe] then next else ring, c'.w, c'.second, a.pe); }
    }
  }

  /** PE x is about to reset its flags and all others have returned. */
  ghost predicate OnlyOneInside<T>(ring: Ring<T>, w: World<T>, x: int) {
    && |w.at| == ring.n && 0 <= x < ring.n && w.at[x].stage.Reset?
    && forall p :: 0 <= p < ring.n && p != x ==> w.at[p].stage.Done?
  }

  /** Places still ahead of the PEs below m. */
  function Remaining(n: nat, at: seq<Place>, m: nat): int
    requires m <= |at|
  { if m == 0 then 0 else Remaining(n, at, m - 1) + 4 * n + 1 - Position(n, at[m - 1]) }

  lemma {:induction false} RemainingUpdate(n: nat, at: seq<Place>, m: nat, p: int, a: Place)
    requires m <= |at| && 0 <= p < |at|
    ensures Remaining(n, at[p := a], m) == Remaining(n, at, m) + if p < m then Position(n, at[p]) - Position(n, a) else 0
  {
    if m > 0 { RemainingUpdate(n, at, m - 1, p, a); }
  }

  lemma {:induction false} RemainingBound(n: nat, at: seq<Place>, m: nat)
    requires m <= |at| == n && forall p :: 0 <= p < n ==> PlaceOk(n, p, at[p])
    ensures Remaining(n, at, m) >= 0
  {
    if m > 0 { RemainingBound(n, at, m - 1); }
  }

  /** A PE that does not wait for a flag that is still missing moves on. */
  lemma CanMove<T>(ring: Ring<T>, w: World<T>, p: int)
    requires DirectAllreduce.Inv(ring, w) && 0 <= p < ring.n && !w.at[p].stage.Done?
    requires w.at[p].stage.Wait? && w.at[p].k != p ==> HasSignalled(w.at[w.at[p].k], p)
    ensures Position(ring.n, Act(ring, w, p).at[p]) > Position(ring.n, w.at[p])
  {
    if w.at[p].stage.Wait? && w.at[p].k != p { assert Link(ring, w, w.at[p].k, p); }
  }

  /** Some PE can move without PE x resetting its flags. */
  lemma SomeoneElse<T>(ring: Ring<T>, w: World<T>, x: int) returns (p: int)
    requires DirectAllreduce.Inv(ring, w) && 0 <= x < ring.n && !w.at[x].stage.Done? && !OnlyOneInside(ring, w, x)
    ensures 0 <= p < ring.n && !(p == x && w.at[x].stage.Reset?)
    ensures Position(ring.n, Act(ring, w, p).at[p]) > Position(ring.n, w.at[p])
  {
    if w.at[x].stage.Reset? {
      p :| 0 <= p < ring.n && p != x && !w.at[p].stage.Done?;
    } else {
      p := x;
    }
    if w.at[p].stage.Wait? && w.at[p].k != p && !HasSignalled(w.at[w.at[p].k], p) {
      p := w.at[p].k;
    }
    CanMove(ring, w, p);
  }

  lemma OneMoves<T>(ring: Ring<T>, w: World<T>, p: int, x: int)
    requires |w.at| == ring.n && 0 <= p < ring.n && 0 <= x < ring.n && !w.at[x].stage.Done? && !(p == x && w.at[x].stage.Reset?)
    ensures Act(ring, w, p).at == w.at[p := Act(ring, w, p).at[p]] && !Act(ring, w, p).at[x].stage.Done?
  {}

  lemma {:induction false} ActAllJoins<T>(ring: Ring<T>, w: World<T>, a: seq<int>, b: seq<int>)
    requires |w.at| == ring.n
    ensures ActAll(ring, w, a + b) == ActAll(ring, ActAll(ring, w, a), b)
  {
    if b == [] {
      assert a + b == a;
    } else {
      ActAllJoins(ring, w, a, b[..|b| - 1]);
      assert (a + b)[..|a + b| - 1] == a + b[..|b| - 1];
    }
  }

  lemma {:induction false} DrainAllButOne<T>(ring: Ring<T>, w: World<T>, x: int) returns (sched: seq<int>)
    requires DirectAllreduce.Inv(ring, w) && 0 <= x < ring.n && !w.at[x].stage.Done?
    ensures DirectAllreduce.Inv(ring, ActAll(ring, w, sched)) && OnlyOneInside(ring, ActAll(ring, w, sched), x)
    decreases Remaining(ring.n, w.at, ring.n)
  {
    if OnlyOneInside(ring, w, x) {
      sched := [];
    } else {
      var p := SomeoneElse(ring, w, x);
      var w' := Act(ring, w, p);
      KeepAct(ring, w, p);
      OneMoves(ring, w, p, x);
      RemainingUpdate(ring.n, w.at, ring.n, p, w'.at[p]);
      RemainingBound(ring.n, w.at, ring.n);
      RemainingBound(ring.n, w'.at, ring.n);
      var rest := DrainAllButOne(ring, w', x);
      sched := [p] + rest;
      ActAllJoins(ring, w, [p], rest);
      assert ActAll(ring, w, [p]) == w' by { assert [p][..0] == []; }
    }
  }

  function Steps(sched: seq<int>): seq<Step> { seq(|sched|, i requires 0 <= i < |sched| => Step(sched[i])) }

  lemma {:induction false} FirstAlone<T>(ring: Ring<T>, next: Ring<T>, w: World<T>, sched: seq<int>)
    requires ring.n == next.n >= 1 && |w.at| == ring.n
    ensures DoAll(ring, next, Calls(w, RingSequence.None(ring.n)), Steps(sched)) == Calls(ActAll(ring, w, sched), RingSequence.None(ring.n))
  {
    if sched != [] {
      FirstAlone(ring, next, w, sched[..|sched| - 1]);
      assert Steps(sched)[..|sched| - 1] == Steps(sched[..|sched| - 1]);
    }
  }

  lemma StepTwice<T>(ring: Ring<T>, next: Ring<T>, c: Calls<T>)
    requires Fits(ring, next, c) && c.second[0]
    ensures DoAll(ring, next, c, [Step(0), Step(0)]) == c.(w := Twice(next, c.w))
  {
    assert [Step(0)][..0] == [] && [Step(0), Step(0)][..1] == [Step(0)];
    assert DoAll(ring, next, c, [Step(0)]) == c.(w := Act(next, c.w, 0));
  }

  /** PE 0 enters the second call and raises the flag of PE 1. */
  lemma EarlyFlag<T>(ring: Ring<T>, next: Ring<T>, c: Calls<T>) returns (acts: seq<Step>)
    requires Fits(ring, next, c) && ring.n >= 2 && OnlyOneInside(ring, c.w, 1) && !c.second[0] && !c.second[1]
    ensures var d := DoAll(ring, next, c, acts);
      d.second == c.second[0 := true] && HasSignalled(d.w.at[0], 1) && d.w.at[1] == c.w.at[1]
  {
    var two := [Step(0), Step(0)];
    acts := [Enter(0)] + two + two;
    var c1 := Do(ring, next, c, Enter(0));
    assert DoAll(ring, next, c, [Enter(0)]) == c1 by { assert [Enter(0)][..0] == []; }
    DoAllJoins(ring, next, c, [Enter(0)], two);
    DoAllJoins(ring, next, c, [Enter(0)] + two, two);
    StepTwice(ring, next, c1);
    StepTwice(ring, next, c1.(w := Twice(next, c1.w)));
    RaisesFlag(next, c1.w);
  }

  /** PE 1 clears it, and enters the second call. */
  lemma FlagLost<T>(ring: Ring<T>, next: Ring<T>, c: Calls<T>)
    requires Fits(ring, next, c) && ring.n >= 2 && c.second[0] && !c.second[1] && HasSignalled(c.w.at[0], 1) && c.w.at[1].stage.Reset?
    ensures var d := DoAll(ring, next, c, [Step(1), Enter(1)]); Stuck(ring.n, d.w.at, d.second, d.w.flag(1, 0))
  {
    assert [Step(1)][..0] == [] && [Step(1), Enter(1)][..1] == [Step(1)];
    assert DoAll(ring, next, c, [Step(1)]) == Do(ring, next, c, Step(1));
  }

  /**
    Two direct calls in a row without a barrier: for every team of two or more PEs there are runs after
    which PE 1 never gets past its first wait of the second call, whatever happens next.
  */
  lemma DirectCallsCanHang<T>(ring: Ring<T>, next: Ring<T>, start: World<T>) returns (acts: seq<Step>)
    requires ring.n == next.n >= 2 && Begin(ring, start)
    ensures forall more :: var c := DoAll(ring, next, Calls(start, RingSequence.None(ring.n)), acts + more);
              c.second[1] && Early(c.w.at[1])
  {
    var c0 := Calls(start, RingSequence.None(ring.n));
    BeginInv(ring, start);
    var sched := DrainAllButOne(ring, start, 1);
    FirstAlone(ring, next, start, sched);
    var a := Steps(sched);
    var c1 := DoAll(ring, next, c0, a);
    var b := EarlyFlag(ring, next, c1);
    var c2 := DoAll(ring, next, c1, b);
    FlagLost(ring, next, c2);
    var c := [Step(1), Enter(1)];
    acts := a + b + c;
    DoAllJoins(ring, next, c0, a, b);
    DoAllJoins(ring, next, c0, a + b, c);
    forall more
      ensures var d := DoAll(ring, next, c0, acts + more); d.second[1] && Early(d.w.at[1])
    {
      DoAllJoins(ring, next, c0, acts, more);
      StuckForever(ring, next, DoAll(ring, next, c2, c), more);
    }
  }

  /** A PE on its own has no flag to wait for. */
  lemma AloneMoves<T>(ring: Ring<T>, w: World<T>)
    requires |w.at| == ring.n == 1 && PlaceOk(1, 0, w.at[0])
    ensures PlaceOk(1, 0, Act(ring, w, 0).at[0])
    ensures w.at[0].stage.Done? || Position(1, Act(ring, w, 0).at[0]) > Position(1, w.at[0])
  {}

  lemma {:induction false} AloneInPlace<T>(ring: Ring<T>, next: Ring<T>, start: World<T>, acts: seq<Step>)
    requires ring.n == next.n == 1 && Begin(ring, start)
    ensures PlaceOk(1, 0, DoAll(ring, next, Calls(start, RingSequence.None(1)), acts).w.at[0])
  {
    if acts != [] {
      AloneInPlace(ring, next, start, acts[..|acts| - 1]);
      var c := DoAll(ring, next, Calls(start, RingSequence.None(1)), acts[..|acts| - 1]);
      AloneMoves(if c.second[0] then next else ring, c.w);
    }
  }

  /** With one PE nobody ever waits: until it returns, every action in either call moves it forward. */
  lemma AloneNeverWaits<T>(ring: Ring<T>, next: Ring<T>, start: World<T>, acts: seq<Step>)
    requires ring.n == next.n == 1 && Begin(ring, start)
    ensures var c := DoAll(ring, next, Calls(start, RingSequence.None(1)), acts);
      c.w.at[0].stage.Done? || Position(1, Do(ring, next, c, Step(0)).w.at[0]) > Position(1, c.w.at[0])
  {
    AloneInPlace(ring, next, start, acts);
    var c := DoAll(ring, next, Calls(start, RingSequence.None(1)), acts);
    AloneMoves(if c.second[0] then next else ring, c.w);
  }

  // ----------------------------------------------------------------- direct after ring

  /** The ring's state, whose flags the direct call shares, and the state of the direct call. */
  datatype Mixed<!T> = Mixed(s: State<T>, at: seq<Place>, slots: (int, int) -> T, dst: int -> T, second: seq<bool>)

  ghost predicate MixedFits<T>(ring: Ring<T>, next: Ring<T>, m: Mixed<T>) {
    ring.n == next.n >= 1 && |m.s.pc| == |m.at| == |m.second| == ring.n
  }

  function DirectOf<T>(m: Mixed<T>): F.Direct<T> { F.Direct(m.at, m.slots, m.dst, m.s.sync) }

  function WithDirect<T>(m: Mixed<T>, d: F.Direct<T>): Mixed<T> { Mixed(m.s.(sync := d.sync), d.at, d.slots, d.dst, m.second) }

  function DoMixed<T>(team: F.Team, ring: Ring<T>, next: Ring<T>, m: Mixed<T>, a: Step): (m': Mixed<T>)
    requires MixedFits(ring, next, m)
    ensures MixedFits(ring, next, m')
  {
    match a
    case Step(r) =>
      if 0 <= r < ring.n && m.second[r] then
        WithDirect(m, F.Do(team, next, DirectOf(m), r))
      else m.(s := Exec(ring, m.s, r))
    case Enter(r) =>
      if 0 <= r < ring.n && !m.second[r] && m.s.pc[r] == PC(ring.segs, 0, 1) then
        m.(at := m.at[r := Place(Copy, 0)], second := m.second[r := true])
      else m
  }

  function DoMixedAll<T>(team: F.Team, ring: Ring<T>, next: Ring<T>, m: Mixed<T>, acts: seq<Step>): (m': Mixed<T>)
    requires MixedFits(ring, next, m)
    ensures MixedFits(ring, next, m')
  {
    if acts == [] then m else DoMixed(team, ring, next, DoMixedAll(team, ring, next, m, acts[..|acts| - 1]), acts[|acts| - 1])
  }

  /** A PE enters the direct call once, after it has returned from the ring. */
  lemma {:induction false} MixedEnters<T>(team: F.Team, ring: Ring<T>, next: Ring<T>, c: Mixed<T>, acts: seq<Step>, r: int) returns (i: nat)
    requires MixedFits(ring, next, c) && 0 <= r < ring.n && !c.second[r] && DoMixedAll(team, ring, next, c, acts).second[r]
    ensures i < |acts| && acts[i] == Enter(r)
    ensures var d := DoMixedAll(team, ring, next, c, acts[..i]); !d.second[r] && d.s.pc[r] == PC(ring.segs, 0, 1)
    ensures var e := DoMixedAll(team, ring, next, c, acts); DoMixed(team, ring, next, e, Enter(r)) == e
  {
    var last := |acts| - 1;
    if DoMixedAll(team, ring, next, c, acts[..last]).second[r] {
      i := MixedEnters(team, ring, next, c, acts[..last], r);
      assert acts[..last][..i] == acts[..i];
    } else {
      i := last;
    }
  }

  lemma {:induction false} MixedJoins<T>(team: F.Team, ring: Ring<T>, next: Ring<T>, m: Mixed<T>, a: seq<Step>, b: seq<Step>)
    requires MixedFits(ring, next, m)
    ensures DoMixedAll(team, ring, next, m, a + b) == DoMixedAll(team, ring, next, DoMixedAll(team, ring, next, m, a), b)
  {
    if b == [] {
      assert a + b == a;
    } else {
      MixedJoins(team, ring, next, m, a, b[..|b| - 1]);
      assert (a + b)[..|a + b| - 1] == a + b[..|b| - 1];
    }
  }

  lemma {:induction false} RingAlone<T>(team: F.Team, ring: Ring<T>, next: Ring<T>, m: Mixed<T>, sched: seq<int>)
    requires MixedFits(ring, next, m) && m.second == RingSequence.None(ring.n)
    ensures DoMixedAll(team, ring, next, m, Steps(sched)) == m.(s := Run(ring, m.s, sched))
  {
    if sched != [] {
      RingAlone(team, ring, next, m, sched[..|sched| - 1]);
      assert Steps(sched)[..|sched| - 1] == Steps(sched[..|sched| - 1]);
    }
  }

  /** A PE that is still in the ring raises flags of its successor and clears its own, never PE 0's flag at PE 1. */
  lemma RingStepKeeps<T>(team: F.Team, ring: Ring<T>, m: Mixed<T>, next: Ring<T>, r: int)
    requires MixedFits(ring, next, m) && Stuck(ring.n, m.at, m.second, m.s.sync(1, team.start)) && 2 <= r < ring.n
    ensures Stuck(ring.n, m.at, m.second, Exec(ring, m.s, r).sync(1, team.start))
  {
    NextIs(ring, r);
  }

  lemma MixedStuckAct<T>(team: F.Team, next: Ring<T>, d: F.Direct<T>, second: seq<bool>, r: int)
    requires team.Ok(next.n) && |d.at| == next.n && Stuck(next.n, d.at, second, d.sync(1, team.start)) && 0 <= r < next.n
    ensures var d' := F.Do(team, next, d, r); Stuck(next.n, d'.at, second, d'.sync(1, team.start))
  {
    assert team.Flag(0) == team.start;
    StuckAct(next, F.WorldOf(team, d), second, r);
    F.FlagsDiffer(team, next.n, 0, r);
  }

  lemma {:induction false} MixedStuckForever<T>(team: F.Team, ring: Ring<T>, next: Ring<T>, m: Mixed<T>, acts: seq<Step>)
    requires team.Ok(ring.n) && MixedFits(ring, next, m) && Stuck(ring.n, m.at, m.second, m.s.sync(1, team.start))
    ensures var d := DoMixedAll(team, ring, next, m, acts); Stuck(ring.n, d.at, d.second, d.s.sync(1, team.start))
  {
    if acts != [] {
      var a := acts[|acts| - 1];
      MixedStuckForever(team, ring, next, m, acts[..|acts| - 1]);
      var d := DoMixedAll(team, ring, next, m, acts[..|acts| - 1]);
      if a.Step? && 0 <= a.pe < ring.n {
        if d.second[a.pe] {
          MixedStuckAct(team, next, DirectOf(d), d.second, a.pe);
        } else {
          RingStepKeeps(team, ring, d, next, a.pe);
        }
      }
    }
  }

  function MixedTwo<T>(team: F.Team, next: Ring<T>, d: F.Direct<T>): (d': F.Direct<T>)
    requires |d.at| == next.n
    ensures |d'.at| == next.n
  { F.Do(team, next, F.Do(team, next, d, 0), 0) }

  lemma MixedRaises<T>(team: F.Team, next: Ring<T>, d: F.Direct<T>)
    requires |d.at| == next.n >= 2 && d.at[0] == Place(Copy, 0)
    ensures HasSignalled(MixedTwo(team, next, MixedTwo(team, next, d)).at[0], 1)
  {
    var d1 := F.Do(team, next, d, 0);
    assert d1.at[0] == Place(Put, 0);
    var d2 := F.Do(team, next, d1, 0);
    assert d2.at[0] == Place(Put, 1);
    var d3 := F.Do(team, next, d2, 0);
    assert d3.at[0] == Place(Signal, 1);
  }

  lemma MixedTwice<T>(team: F.Team, ring: Ring<T>, next: Ring<T>, m: Mixed<T>)
    requires MixedFits(ring, next, m) && m.second[0]
    ensures DoMixedAll(team, ring, next, m, [Step(0), Step(0)]) == WithDirect(m, MixedTwo(team, next, DirectOf(m)))
  {
    assert [Step(0)][..0] == [] && [Step(0), Step(0)][..1] == [Step(0)];
    assert DoMixedAll(team, ring, next, m, [Step(0)]) == WithDirect(m, F.Do(team, next, DirectOf(m), 0));
  }

  lemma MixedEarlyFlag<T>(team: F.Team, ring: Ring<T>, next: Ring<T>, m: Mixed<T>) returns (acts: seq<Step>)
    requires MixedFits(ring, next, m) && RingSequence.OnlyOneInside(ring, m.s, 1) && m.second == RingSequence.None(ring.n)
    ensures var d := DoMixedAll(team, ring, next, m, acts);
      d.second == m.second[0 := true] && HasSignalled(d.at[0], 1) && d.s.pc == m.s.pc
  {
    var two := [Step(0), Step(0)];
    acts := [Enter(0)] + two + two;
    var m1 := DoMixed(team, ring, next, m, Enter(0));
    assert DoMixedAll(team, ring, next, m, [Enter(0)]) == m1 by { assert [Enter(0)][..0] == []; }
    MixedJoins(team, ring, next, m, [Enter(0)], two);
    MixedJoins(team, ring, next, m, [Enter(0)] + two, two);
    MixedTwice(team, ring, next, m1);
    MixedTwice(team, ring, next, WithDirect(m1, MixedTwo(team, next, DirectOf(m1))));
    MixedRaises(team, next, DirectOf(m1));
  }

  lemma MixedFlagLost<T>(team: F.Team, ring: Ring<T>, next: Ring<T>, m: Mixed<T>)
    requires MixedFits(ring, next, m) && ring.n >= 2 && m.second[0] && !m.second[1]
    requires HasSignalled(m.at[0], 1) && m.s.pc[1] == PC(ring.segs, 0, 0)
    ensures var d := DoMixedAll(team, ring, next, m, [Step(1), Enter(1)]); Stuck(ring.n, d.at, d.second, d.s.sync(1, team.start))
  {
    assert [Step(1)][..0] == [] && [Step(1), Enter(1)][..1] == [Step(1)];
    assert DoMixedAll(team, ring, next, m, [Step(1)]) == DoMixed(team, ring, next, m, Step(1));
  }

  /** A direct call right after a ring call on the same flags, as `reduce` makes it, can hang in the same way. */
  lemma RingThenDirectCanHang<T>(team: F.Team, ring: Ring<T>, next: Ring<T>, start: Mixed<T>) returns (acts: seq<Step>)
    requires team.Ok(ring.n) && MixedFits(ring, next, start) && ring.n >= 2 && Start(ring, start.s) && start.second == RingSequence.None(ring.n)
    ensures forall more :: var d := DoMixedAll(team, ring, next, start, acts + more); d.second[1] && Early(d.at[1])
  {
    var sched := RingSequence.DrainFirst(ring, start.s);
    RingAlone(team, ring, next, start, sched);
    var a := Steps(sched);
    var m1 := DoMixedAll(team, ring, next, start, a);
    var b := MixedEarlyFlag(team, ring, next, m1);
    var m2 := DoMixedAll(team, ring, next, m1, b);
    MixedFlagLost(team, ring, next, m2);
    var c := [Step(1), Enter(1)];
    acts := a + b + c;
    MixedJoins(team, ring, next, start, a, b);
    MixedJoins(team, ring, next, start, a + b, c);
    forall more
      ensures var d := DoMixedAll(team, ring, next, start, acts + more); d.second[1] && Early(d.at[1])
    {
      MixedJoins(team, ring, next, start, acts, more);
      MixedStuckForever(team, ring, next, DoMixedAll(team, ring, next, m2, c), more);
    }
  }

  lemma {:induction false} MixedAloneInPlace<T>(team: F.Team, ring: Ring<T>, next: Ring<T>, start: Mixed<T>, acts: seq<Step>)
    requires MixedFits(ring, next, start) && ring.n == 1 && Start(ring, start.s) && start.second == RingSequence.None(1)
    ensures var d := DoMixedAll(team, ring, next, start, acts);
      d.s.pc[0].seg == ring.segs && (d.second[0] ==> PlaceOk(1, 0, d.at[0]))
  {
    if acts != [] {
      MixedAloneInPlace(team, ring, next, start, acts[..|acts| - 1]);
      var d := DoMixedAll(team, ring, next, start, acts[..|acts| - 1]);
      if d.second[0] { AloneMoves(next, F.WorldOf(team, DirectOf(d))); }
    }
  }

  /** With one PE nobody waits in the ring, and every action of the direct call moves it forward until it returns. */
  lemma MixedAloneNeverWaits<T>(team: F.Team, ring: Ring<T>, next: Ring<T>, start: Mixed<T>, acts: seq<Step>)
    requires MixedFits(ring, next, start) && ring.n == 1 && Start(ring, start.s) && start.second == RingSequence.None(1)
    ensures var d := DoMixedAll(team, ring, next, start, acts);
      && d.s.pc[0].seg == ring.segs
      && (!d.second[0] || d.at[0].stage.Done? || Position(1, DoMixed(team, ring, next, d, Step(0)).at[0]) > Position(1, d.at[0]))
  {
    MixedAloneInPlace(team, ring, next, start, acts);
    var d := DoMixedAll(team, ring, next, start, acts);
    if d.second[0] { AloneMoves(next, F.WorldOf(team, DirectOf(d))); }
  }
}
