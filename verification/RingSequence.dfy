/**
  Ring all-reduce calls one after another, as `reduce` makes them.

  Each PE resets its own flags when it leaves a call, and nothing keeps its
  predecessor from raising a flag of the next call before that.  Calls that start
  after all PEs have returned are shown to be clean; calls that do not wait for
  that can hang for every team of two or more PEs that has anything to reduce.
*/
module RingSequence {
  import opened RingAllreduce

  /** Calls made after everyone has returned start from clean flags, so every result above holds for them too. */
  lemma NextCallStartsClean<T>(ring: Ring<T>, start: State<T>, sched: seq<int>, next: Ring<T>)
    requires ring.n >= 2 && Start(ring, start) && Returned(ring, Run(ring, start, sched)) && next.n == ring.n
    ensures var end := Run(ring, start, sched);
            Start(next, State(seq(next.n, _ => Entry(next)), end.work, end.sync, next.input))
  {
    RunInv(ring, start, sched);
    var end := Run(ring, start, sched);
    forall r, iter | 0 <= r < next.n && 0 <= iter < next.Iters()
      ensures end.sync(r, iter) == SYNC_VALUE
    {
      assert SyncAt(ring, end, r, iter);
    }
  }

  // --------------------------- up to the point where only one PE is still inside the first call

  lemma {:induction false} RunJoins<T>(ring: Ring<T>, s: State<T>, a: seq<int>, b: seq<int>)
    requires ring.Valid() && |s.pc| == ring.n
    ensures Run(ring, s, a + b) == Run(ring, Run(ring, s, a), b)
  {
    if b == [] {
      assert a + b == a;
    } else {
      RunJoins(ring, s, a, b[..|b| - 1]);
      assert (a + b)[..|a + b| - 1] == a + b[..|b| - 1];
    }
  }

  /** PE x is about to reset its flags and all others have returned. */
  ghost predicate OnlyOneInside<T>(ring: Ring<T>, s: State<T>, x: int) {
    && ring.n >= 2 && |s.pc| == ring.n && 0 <= x < ring.n
    && s.pc[x] == PC(ring.segs, 0, 0)
    && forall r :: 0 <= r < ring.n && r != x ==> s.pc[r] == PC(ring.segs, 0, 1)
  }

  /** Some PE can make progress without PE x resetting its flags. */
  lemma SomeoneElse<T>(ring: Ring<T>, s: State<T>, x: int) returns (r: int)
    requires Inv(ring, s) && 0 <= x < ring.n && s.pc[x] != PC(ring.segs, 0, 1) && !OnlyOneInside(ring, s, x)
    ensures 0 <= r < ring.n && Exec(ring, s, r).pc == s.pc[r := Advance(ring, s.pc[r])] && s.pc[r] != PC(ring.segs, 0, 1)
    ensures Exec(ring, s, r).pc[x] != PC(ring.segs, 0, 1)
  {
    r := Slowest(ring, s.pc, ring.n);
    if s.pc[r].seg == ring.segs {
      r :| 0 <= r < ring.n && r != x && s.pc[r] != PC(ring.segs, 0, 1);
    } else if s.pc[r].phase == WAIT {
      PrevIs(ring, r);
      FlagNotOverrun(ring, s.pc, r);
      assert SyncAt(ring, s, r, s.pc[r].iter);
    }
  }

  lemma {:induction false} DrainAllButOne<T>(ring: Ring<T>, s: State<T>, x: int) returns (sched: seq<int>)
    requires Inv(ring, s) && 0 <= x < ring.n && s.pc[x] != PC(ring.segs, 0, 1)
    ensures Inv(ring, Run(ring, s, sched)) && OnlyOneInside(ring, Run(ring, s, sched), x)
    decreases ring.n * (4 * (ring.segs * ring.Iters()) + 1) - RankSum(ring, s.pc)
  {
    if OnlyOneInside(ring, s, x) {
      sched := [];
    } else {
      var r := SomeoneElse(ring, s, x);
      var s' := Exec(ring, s, r);
      KeepAny(ring, s, r);
      RankSumBound(ring, s'.pc);
      RankAdvance(ring, s.pc[r]);
      RankSumUpdate(ring, s.pc, r, Advance(ring, s.pc[r]));
      var rest := DrainAllButOne(ring, s', x);
      sched := [r] + rest;
      RunJoins(ring, s, [r], rest);
      assert Run(ring, s, [r]) == s' by { assert [r][..0] == []; }
    }
  }

  /** All other PEs' flags are clean then. */
  lemma OthersAreClean<T>(ring: Ring<T>, s: State<T>, x: int, r: int, iter: int)
    requires Inv(ring, s) && OnlyOneInside(ring, s, x) && 0 <= r < ring.n && r != x && 0 <= iter < ring.Iters()
    ensures s.sync(r, iter) == SYNC_VALUE
  {
    assert SyncAt(ring, s, r, iter);
  }

  // ---------------------------------------------------------------- two calls in a row

  /** `second[r]`: PE r is in the second call; both calls use the same flags and work buffers. */
  datatype Calls<!T> = Calls(s: State<T>, second: seq<bool>)

  /** An action of a PE in its call, or a PE that has returned copying its source and entering the second call. */
  datatype Act = Step(pe: int) | Enter(pe: int)

  ghost predicate Fits<T>(ring: Ring<T>, next: Ring<T>, c: Calls<T>) {
    ring.n == next.n >= 1 && |c.s.pc| == |c.second| == ring.n
  }

  function Do<T>(ring: Ring<T>, next: Ring<T>, c: Calls<T>, a: Act): (c': Calls<T>)
    requires Fits(ring, next, c)
    ensures Fits(ring, next, c')
  {
    match a
    case Step(r) => c.(s := Exec(if 0 <= r < ring.n && c.second[r] then next else ring, c.s, r))
    case Enter(r) =>
      if 0 <= r < ring.n && !c.second[r] && c.s.pc[r] == PC(ring.segs, 0, 1) then
        Calls(c.s.(pc := c.s.pc[r := Entry(next)], dst := Copied(next, c.s.dst, r)), c.second[r := true])
      else c
  }

  function Copied<T>(next: Ring<T>, dst: (int, int, int) -> T, r: int): (int, int, int) -> T {
    (p: int, seg: int, c: int) => if p == r then next.input(p, seg, c) else dst(p, seg, c)
  }

  function DoAll<T>(ring: Ring<T>, next: Ring<T>, c: Calls<T>, acts: seq<Act>): (c': Calls<T>)
    requires Fits(ring, next, c)
    ensures Fits(ring, next, c')
  {
    if acts == [] then c else Do(ring, next, DoAll(ring, next, c, acts[..|acts| - 1]), acts[|acts| - 1])
  }

  /** A PE enters the second call once, after it has returned from the first. */
  lemma {:induction false} Enters<T>(ring: Ring<T>, next: Ring<T>, c: Calls<T>, acts: seq<Act>, r: int) returns (i: nat)
    requires Fits(ring, next, c) && 0 <= r < ring.n && !c.second[r] && DoAll(ring, next, c, acts).second[r]
    ensures i < |acts| && acts[i] == Enter(r)
    ensures var d := DoAll(ring, next, c, acts[..i]); !d.second[r] && d.s.pc[r] == PC(ring.segs, 0, 1)
    ensures var e := DoAll(ring, next, c, acts); Do(ring, next, e, Enter(r)) == e
  {
    var last := |acts| - 1;
    if DoAll(ring, next, c, acts[..last]).second[r] {
      i := Enters(ring, next, c, acts[..last], r);
      assert acts[..last][..i] == acts[..i];
    } else {
      i := last;
    }
  }

  lemma {:induction false} DoAllJoins<T>(ring: Ring<T>, next: Ring<T>, c: Calls<T>, a: seq<Act>, b: seq<Act>)
    requires Fits(ring, next, c)
    ensures DoAll(ring, next, c, a + b) == DoAll(ring, next, DoAll(ring, next, c, a), b)
  {
    if b == [] {
      assert a + b == a;
    } else {
      DoAllJoins(ring, next, c, a, b[..|b| - 1]);
      assert (a + b)[..|a + b| - 1] == a + b[..|b| - 1];
    }
  }

  /** One action appended to a list of actions. */
  lemma Then<T>(ring: Ring<T>, next: Ring<T>, c: Calls<T>, acts: seq<Act>, a: Act)
    requires Fits(ring, next, c)
    ensures DoAll(ring, next, c, acts + [a]) == Do(ring, next, DoAll(ring, next, c, acts), a)
  {
    assert (acts + [a])[..|acts|] == acts;
  }

  function None(n: nat): seq<bool> { seq(n, _ => false) }

  function Steps(sched: seq<int>): seq<Act> { seq(|sched|, i requires 0 <= i < |sched| => Step(sched[i])) }

  /** As long as nobody enters the second call, the first one runs as if alone. */
  lemma {:induction false} FirstCallAlone<T>(ring: Ring<T>, next: Ring<T>, s: State<T>, sched: seq<int>)
    requires ring.n == next.n >= 1 && |s.pc| == ring.n
    ensures DoAll(ring, next, Calls(s, None(ring.n)), Steps(sched)) == Calls(Run(ring, s, sched), None(ring.n))
  {
    if sched != [] {
      FirstCallAlone(ring, next, s, sched[..|sched| - 1]);
      assert Steps(sched)[..|sched| - 1] == Steps(sched[..|sched| - 1]);
    }
  }

  // ------------------------------------------------------------------ the lost flag

  /** All are in the second call, and PE 1 waits for a flag that PE 0 has raised and PE 1 itself has cleared. */
  ghost predicate Stuck<T>(next: Ring<T>, c: Calls<T>) {
    && next.n >= 2 && next.segs >= 1 && |c.second| == next.n
    && (forall r :: 0 <= r < next.n ==> c.second[r])
    && PCsOk(next, c.s.pc) && Ordered(next, c.s.pc)
    && (forall r :: 0 <= r < next.n ==> c.s.pc[r].seg == 0)
    && c.s.pc[1] == PC(0, 0, WAIT) && c.s.sync(1, 0) == SYNC_VALUE
    && Past(c.s.pc[0], 0, 0, SIGNAL)
    && forall r, iter :: 0 <= r < next.n && 0 <= iter < next.Iters() && c.s.sync(r, iter) == FLAG_BASE
         ==> Past(c.s.pc[Prev(next.n, r)], 0, iter, SIGNAL)
  }

  /** While PE 1 does not move, nobody can finish the first segment. */
  lemma NobodyFinishes<T>(next: Ring<T>, c: Calls<T>, r: int)
    requires Stuck(next, c) && 0 <= r < next.n
    ensures !Past(c.s.pc[r], 0, next.Iters() - 1, WAIT)
  {
    if Past(c.s.pc[r], 0, next.Iters() - 1, WAIT) {
      var j := Dist(next.n, r, 1);
      if j >= 1 {
        assert Past(c.s.pc[r], 0, j, WAIT);
        WaitChain(next, c.s.pc, r, 0, j, j);
      }
      assert false;
    }
  }

  lemma StuckMove<T>(next: Ring<T>, c: Calls<T>, r: int)
    requires Stuck(next, c) && 0 <= r < next.n && c.s.pc[r].phase != SIGNAL
    requires c.s.pc[r].phase == WAIT ==> c.s.sync(r, c.s.pc[r].iter) == FLAG_BASE
    ensures Stuck(next, c.(s := Exec(next, c.s, r)))
  {
    NobodyFinishes(next, c, r);
    PrevIs(next, r);
    Moved(next, c.s.pc, r);
    var s' := Exec(next, c.s, r);
    forall q, iter | 0 <= q < next.n && 0 <= iter < next.Iters() && s'.sync(q, iter) == FLAG_BASE
      ensures Past(s'.pc[Prev(next.n, q)], 0, iter, SIGNAL)
    { assert Past(c.s.pc[Prev(next.n, q)], 0, iter, SIGNAL); }
  }

  lemma StuckSignal<T>(next: Ring<T>, c: Calls<T>, r: int)
    requires Stuck(next, c) && 0 <= r < next.n && c.s.pc[r].phase == SIGNAL
    ensures Stuck(next, c.(s := Exec(next, c.s, r)))
  {
    NextIs(next, r);
    Moved(next, c.s.pc, r);
    var s' := Exec(next, c.s, r);
    forall q, iter | 0 <= q < next.n && 0 <= iter < next.Iters() && s'.sync(q, iter) == FLAG_BASE
      ensures Past(s'.pc[Prev(next.n, q)], 0, iter, SIGNAL)
    {
      PrevIs(next, q);
      if !(q == next.Next(r) && iter == c.s.pc[r].iter) { assert Past(c.s.pc[Prev(next.n, q)], 0, iter, SIGNAL); }
    }
  }

  lemma StuckStep<T>(ring: Ring<T>, next: Ring<T>, c: Calls<T>, a: Act)
    requires Stuck(next, c) && Fits(ring, next, c)
    ensures Stuck(next, Do(ring, next, c, a))
  {
    if a.Step? && 0 <= a.pe < next.n {
      var (r, s) := (a.pe, c.s);
      if s.pc[r].phase == SIGNAL {
        StuckSignal(next, c, r);
      } else if s.pc[r].phase != WAIT || s.sync(r, s.pc[r].iter) == FLAG_BASE {
        StuckMove(next, c, r);
      }
    }
  }

  lemma {:induction false} StuckForever<T>(ring: Ring<T>, next: Ring<T>, c: Calls<T>, acts: seq<Act>)
    requires Stuck(next, c) && Fits(ring, next, c)
    ensures Stuck(next, DoAll(ring, next, c, acts))
  {
    if acts != [] {
      StuckForever(ring, next, c, acts[..|acts| - 1]);
      StuckStep(ring, next, DoAll(ring, next, c, acts[..|acts| - 1]), acts[|acts| - 1]);
    }
  }

  // ------------------------------------------------------------ how to get there

  /** PE 0 enters the second call and raises the first flag of PE 1, which is still inside the first one. */
  lemma EarlyFlag<T>(ring: Ring<T>, next: Ring<T>, c: Calls<T>) returns (acts: seq<Act>)
    requires Fits(ring, next, c) && Inv(ring, c.s) && OnlyOneInside(ring, c.s, 1) && next.segs >= 1
    requires !c.second[0] && !c.second[1]
    ensures var d := DoAll(ring, next, c, acts);
            && d.s.pc == c.s.pc[0 := PC(0, 0, WAIT)] && d.second == c.second[0 := true]
            && forall r, iter :: 0 <= r < ring.n && r != 1 && 0 <= iter < ring.Iters() ==> d.s.sync(r, iter) == SYNC_VALUE
  {
    acts := [Enter(0), Step(0), Step(0)];
    NextIs(next, 0);
    var c1 := Do(ring, next, c, Enter(0));
    var c2 := Do(ring, next, c1, Step(0));
    assert [Enter(0)][..0] == [] && [Enter(0), Step(0)][..1] == [Enter(0)] && acts[..2] == [Enter(0), Step(0)];
    assert DoAll(ring, next, c, [Enter(0)]) == c1;
    assert DoAll(ring, next, c, [Enter(0), Step(0)]) == c2;
    forall r, iter | 0 <= r < ring.n && r != 1 && 0 <= iter < ring.Iters()
      ensures c.s.sync(r, iter) == SYNC_VALUE
    { OthersAreClean(ring, c.s, 1, r, iter); }
  }

  /** PE 1 resets its flags, enters the second call and reaches its first wait. */
  lemma FlagLost<T>(ring: Ring<T>, next: Ring<T>, c: Calls<T>) returns (acts: seq<Act>)
    requires Fits(ring, next, c) && ring.n >= 2 && next.segs >= 1 && c.s.pc[1] == PC(ring.segs, 0, 0) && !c.second[1]
    requires forall r, iter :: 0 <= r < ring.n && r != 1 && 0 <= iter < ring.Iters() ==> c.s.sync(r, iter) == SYNC_VALUE
    ensures var d := DoAll(ring, next, c, acts);
            && d.s.pc == c.s.pc[1 := PC(0, 0, WAIT)] && d.second == c.second[1 := true]
            && forall r, iter :: 0 <= r < ring.n && 0 <= iter < ring.Iters() && !(r == ring.Next(1) && iter == 0)
                 ==> d.s.sync(r, iter) == SYNC_VALUE
  {
    acts := [Step(1), Enter(1), Step(1), Step(1)];
    NextIs(next, 1);
    var c1 := Do(ring, next, c, Step(1));
    var c2 := Do(ring, next, c1, Enter(1));
    var c3 := Do(ring, next, c2, Step(1));
    assert [Step(1)][..0] == [] && [Step(1), Enter(1)][..1] == [Step(1)];
    assert [Step(1), Enter(1), Step(1)][..2] == [Step(1), Enter(1)] && acts[..3] == [Step(1), Enter(1), Step(1)];
    assert DoAll(ring, next, c, [Step(1)]) == c1;
    assert DoAll(ring, next, c, [Step(1), Enter(1)]) == c2;
    assert DoAll(ring, next, c, [Step(1), Enter(1), Step(1)]) == c3;
  }

  /** The remaining PEs enter the second call as well. */
  lemma {:induction false} OthersEnter<T>(ring: Ring<T>, next: Ring<T>, c: Calls<T>, m: int) returns (acts: seq<Act>)
    requires Fits(ring, next, c) && 2 <= m <= ring.n
    requires forall r :: 2 <= r < m ==> c.s.pc[r] == PC(ring.segs, 0, 1) && !c.second[r]
    ensures var d := DoAll(ring, next, c, acts);
            && d.s.sync == c.s.sync
            && (forall r :: 0 <= r < ring.n ==> d.s.pc[r] == if 2 <= r < m then PC(0, 0, PUT) else c.s.pc[r])
            && (forall r :: 0 <= r < ring.n ==> d.second[r] == (2 <= r < m || c.second[r]))
    decreases m
  {
    if m == 2 {
      acts := [];
    } else {
      var before := OthersEnter(ring, next, c, m - 1);
      acts := before + [Enter(m - 1)];
      Then(ring, next, c, before, Enter(m - 1));
    }
  }

  /** All are in the second call, PE 0 and PE 1 at their first wait, and no flag but one of PE 1's successor is raised. */
  lemma LostFlagIsStuck<T>(next: Ring<T>, c: Calls<T>)
    requires next.n >= 2 && next.segs >= 1 && |c.second| == |c.s.pc| == next.n
    requires forall r :: 0 <= r < next.n ==> c.second[r] && c.s.pc[r] == if r <= 1 then PC(0, 0, WAIT) else PC(0, 0, PUT)
    requires forall r, iter :: 0 <= r < next.n && 0 <= iter < next.Iters() && !(r == next.Next(1) && iter == 0)
               ==> c.s.sync(r, iter) == SYNC_VALUE
    ensures Stuck(next, c)
  {
    NextIs(next, 1);
  }

  lemma ReachStuck<T>(ring: Ring<T>, next: Ring<T>, c: Calls<T>) returns (acts: seq<Act>)
    requires Fits(ring, next, c) && Inv(ring, c.s) && OnlyOneInside(ring, c.s, 1) && next.segs >= 1 && c.second == None(ring.n)
    ensures Stuck(next, DoAll(ring, next, c, acts))
  {
    var a := EarlyFlag(ring, next, c);
    var c2 := DoAll(ring, next, c, a);
    var b := FlagLost(ring, next, c2);
    var c3 := DoAll(ring, next, c2, b);
    var d := OthersEnter(ring, next, c3, ring.n);
    LostFlagIsStuck(next, DoAll(ring, next, c3, d));
    acts := a + b + d;
    DoAllJoins(ring, next, c, a, b);
    DoAllJoins(ring, next, c, a + b, d);
  }

  /**
    Two calls in a row without a barrier, the second with any number of segments and any data: for
    every team of two or more PEs there are runs after which PE 1 waits forever in the second call,
    whatever happens next.
  */
  lemma CallsCanHang<T>(ring: Ring<T>, next: Ring<T>, start: State<T>) returns (acts: seq<Act>)
    requires ring.n == next.n >= 2 && next.segs >= 1 && Start(ring, start)
    ensures forall more :: var c := DoAll(ring, next, Calls(start, None(ring.n)), acts + more);
              c.second[1] && c.s.pc[1] == PC(0, 0, WAIT)
  {
    var c0 := Calls(start, None(ring.n));
    var sched := DrainFirst(ring, start);
    FirstCallAlone(ring, next, start, sched);
    var c1 := DoAll(ring, next, c0, Steps(sched));
    var rest := ReachStuck(ring, next, c1);
    acts := Steps(sched) + rest;
    DoAllJoins(ring, next, c0, Steps(sched), rest);
    forall more
      ensures Stuck(next, DoAll(ring, next, c0, acts + more))
    {
      DoAllJoins(ring, next, c0, acts, more);
      StuckForever(ring, next, DoAll(ring, next, c1, rest), more);
    }
  }

  lemma DrainFirst<T>(ring: Ring<T>, start: State<T>) returns (sched: seq<int>)
    requires ring.n >= 2 && Start(ring, start)
    ensures Inv(ring, Run(ring, start, sched)) && OnlyOneInside(ring, Run(ring, start, sched), 1)
  {
    StartInv(ring, start);
    sched := DrainAllButOne(ring, start, 1);
  }

  /** Without iterations there are no flags to lose: a second call without any never waits. */
  lemma {:induction false} NothingToWaitFor<T>(ring: Ring<T>, next: Ring<T>, start: State<T>, acts: seq<Act>, r: int)
    requires ring.n == next.n >= 1 && (ring.n == 1 || next.segs == 0) && Start(ring, start) && 0 <= r < ring.n
    ensures var c := DoAll(ring, next, Calls(start, None(ring.n)), acts); c.second[r] ==> c.s.pc[r].seg == next.segs
  {
    if acts != [] { NothingToWaitFor(ring, next, start, acts[..|acts| - 1], r); }
  }
}
