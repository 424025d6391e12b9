/**
  Collective operations of one team one after another, each started when all PEs
  have returned from the one before, as with a barrier on other memory in between.
  Ring calls, direct calls and the team's own sync, in any order, then always find
  the shared flags cleared.
*/
module CallSequence {
  import opened RingAllreduce
  import RingEntry
  import D = DirectAllreduce
  import F = TeamFlags
  import B = Barrier

  type Flags = (int, int) -> int

  datatype Call<!T> = RingCall(ring: Ring<T>) | DirectCall(ring: Ring<T>) | SyncCall

  ghost predicate Same(n: nat, f: Flags, g: Flags) { forall q, k :: 0 <= q < n ==> f(q, k) == g(q, k) }

  // ---------------------------------------------------------------------- ring

  ghost predicate RingAtEntry<T>(ring: Ring<T>, e: RingEntry.Calling<T>) {
    |e.s.pc| == |e.entered| == ring.n && forall r :: 0 <= r < ring.n ==> e.s.pc[r] == Entry(ring) && !e.entered[r]
  }

  lemma CleanCall<T>(ring: Ring<T>, e: RingEntry.Calling<T>)
    requires RingAtEntry(ring, e) && F.Clean(ring.n, e.s.sync)
    ensures RingEntry.Called(ring, e)
  {}

  lemma {:induction false} PlacesOk<T>(ring: Ring<T>, e: RingEntry.Calling<T>, sched: seq<int>)
    requires ring.n >= 1 && RingEntry.Called(ring, e)
    ensures PCsOk(ring, RingEntry.ActAll(ring, e, sched).s.pc)
  {
    if sched != [] { PlacesOk(ring, e, sched[..|sched| - 1]); }
  }

  /** A ring call touches no flag but those of its iterations. */
  lemma {:induction false} RingTouches<T>(ring: Ring<T>, e: RingEntry.Calling<T>, sched: seq<int>, q: int, k: int)
    requires ring.n >= 1 && RingEntry.Called(ring, e) && F.Clean(ring.n, e.s.sync) && 0 <= q < ring.n && !(0 <= k < ring.Iters())
    ensures RingEntry.ActAll(ring, e, sched).s.sync(q, k) == SYNC_VALUE
  {
    if sched != [] {
      RingTouches(ring, e, sched[..|sched| - 1], q, k);
      PlacesOk(ring, e, sched[..|sched| - 1]);
    }
  }

  lemma RingLeavesClean<T>(ring: Ring<T>, e: RingEntry.Calling<T>, sched: seq<int>, q: int, k: int)
    requires ring.n >= 1 && RingEntry.Called(ring, e) && F.Clean(ring.n, e.s.sync) && 0 <= q < ring.n
    requires RingEntry.AllReturned(ring, RingEntry.ActAll(ring, e, sched))
    ensures RingEntry.ActAll(ring, e, sched).s.sync(q, k) == SYNC_VALUE
  {
    if 0 <= k < ring.Iters() {
      var first, inner := RingEntry.Simulates(ring, e, sched);
      assert SyncAt(ring, Run(ring, first, inner), q, k);
    } else {
      RingTouches(ring, e, sched, q, k);
    }
  }

  // -------------------------------------------------------------------- direct

  lemma DirectLeavesClean<T>(team: F.Team, ring: Ring<T>, d: F.Direct<T>, sched: seq<int>, q: int, k: int)
    requires team.Ok(ring.n) && F.AtEntry(ring.n, d) && F.Clean(ring.n, d.sync) && 0 <= q < ring.n
    requires F.DoAll(team, ring, d, sched).at[q].stage.Done?
    ensures F.DoAll(team, ring, d, sched).sync(q, k) == SYNC_VALUE
  {
    F.IsDirect(team, ring, d, sched);
    F.DoneIsClean(team, ring, F.DoAll(team, ring, d, sched), D.ActAll(ring, F.WorldOf(team, d), sched), q, k);
  }

  // ---------------------------------------------------------------------- sync

  ghost predicate SyncAtEntry(n: nat, s: B.State) {
    |s.stage| == |s.left| == n && forall p :: 0 <= p < n ==> s.stage[p] == B.Outside && s.left[p] == 0
  }

  /** Everybody has been through the same number of barriers. */
  ghost predicate SyncReturned(n: nat, s: B.State) {
    |s.stage| == |s.left| == n && forall p :: 0 <= p < n ==> s.stage[p] == B.Outside && s.left[p] == s.left[0]
  }

  /** A flag of PE p the barrier uses. */
  predicate UsedFlag(n: nat, p: int, k: int) {
    if p >= 1 then k == 0 else if n < B.ATOMIC_SIZE then 1 <= k < n else k == 0
  }

  lemma {:induction false} SyncTouches(n: nat, s: B.State, sched: seq<int>, p: int, k: int)
    requires n >= 1 && B.Start(n, s) && F.Clean(n, s.flags) && 0 <= p < n && !UsedFlag(n, p, k)
    ensures B.Run(n, s, sched).flags(p, k) == SYNC_VALUE
  {
    if sched != [] {
      SyncTouches(n, s, sched[..|sched| - 1], p, k);
      B.RunRootOk(n, s, sched[..|sched| - 1]);
    }
  }

  lemma SyncLeavesClean(n: nat, s: B.State, sched: seq<int>, p: int, k: int)
    requires n >= 1 && B.Start(n, s) && F.Clean(n, s.flags) && 0 <= p < n && SyncReturned(n, B.Run(n, s, sched))
    ensures B.Run(n, s, sched).flags(p, k) == SYNC_VALUE
  {
    var t := B.Run(n, s, sched);
    B.RunInv(n, s, sched);
    if !UsedFlag(n, p, k) {
      SyncTouches(n, s, sched, p, k);
    } else if p >= 1 {
      assert B.Pair(n, t, p);
    } else if n < B.ATOMIC_SIZE {
      assert B.Pair(n, t, k);
    } else {
      forall q | 1 <= q < n
        ensures B.Entered(t, q) == B.Taken(n, t, q)
      { assert B.Pair(n, t, q); }
      B.NonePending(n, t, n);
    }
  }

  // --------------------------------------------------------------- any sequence

  ghost predicate RingRan<T(!new)>(ring: Ring<T>, before: Flags, after: Flags)
    requires ring.n >= 1
  {
    exists e: RingEntry.Calling<T>, sched ::
      && RingAtEntry(ring, e) && Same(ring.n, e.s.sync, before)
      && RingEntry.AllReturned(ring, RingEntry.ActAll(ring, e, sched))
      && Same(ring.n, RingEntry.ActAll(ring, e, sched).s.sync, after)
  }

  ghost predicate DirectRan<T(!new)>(team: F.Team, ring: Ring<T>, before: Flags, after: Flags) {
    exists d: F.Direct<T>, sched ::
      && F.AtEntry(ring.n, d) && Same(ring.n, d.sync, before)
      && (forall p :: 0 <= p < ring.n ==> F.DoAll(team, ring, d, sched).at[p].stage.Done?)
      && Same(ring.n, F.DoAll(team, ring, d, sched).sync, after)
  }

  ghost predicate SyncRan(n: nat, before: Flags, after: Flags) {
    exists s: B.State, sched ::
      && SyncAtEntry(n, s) && Same(n, s.flags, before)
      && SyncReturned(n, B.Run(n, s, sched)) && Same(n, B.Run(n, s, sched).flags, after)
  }

  /** Some run of the call in which all PEs returned changes the flags from `before` to `after`. */
  ghost predicate Ran<T(!new)>(team: F.Team, n: nat, call: Call<T>, before: Flags, after: Flags) {
    n >= 1 &&
    match call
    case RingCall(ring) => ring.n == n && RingRan(ring, before, after)
    case DirectCall(ring) => ring.n == n && DirectRan(team, ring, before, after)
    case SyncCall => SyncRan(n, before, after)
  }

  lemma RingKeepsClean<T(!new)>(ring: Ring<T>, before: Flags, after: Flags)
    requires ring.n >= 1 && F.Clean(ring.n, before) && RingRan(ring, before, after)
    ensures F.Clean(ring.n, after)
  {
    var e: RingEntry.Calling<T>, sched :|
      && RingAtEntry(ring, e) && Same(ring.n, e.s.sync, before)
      && RingEntry.AllReturned(ring, RingEntry.ActAll(ring, e, sched))
      && Same(ring.n, RingEntry.ActAll(ring, e, sched).s.sync, after);
    CleanCall(ring, e);
    forall q, k | 0 <= q < ring.n
      ensures after(q, k) == SYNC_VALUE
    { RingLeavesClean(ring, e, sched, q, k); }
  }

  lemma DirectKeepsClean<T(!new)>(team: F.Team, ring: Ring<T>, before: Flags, after: Flags)
    requires team.Ok(ring.n) && F.Clean(ring.n, before) && DirectRan(team, ring, before, after)
    ensures F.Clean(ring.n, after)
  {
    var d: F.Direct<T>, sched :|
      && F.AtEntry(ring.n, d) && Same(ring.n, d.sync, before)
      && (forall p :: 0 <= p < ring.n ==> F.DoAll(team, ring, d, sched).at[p].stage.Done?)
      && Same(ring.n, F.DoAll(team, ring, d, sched).sync, after);
    forall q, k | 0 <= q < ring.n
      ensures after(q, k) == SYNC_VALUE
    { DirectLeavesClean(team, ring, d, sched, q, k); }
  }

  lemma SyncKeepsClean(n: nat, before: Flags, after: Flags)
    requires n >= 1 && F.Clean(n, before) && SyncRan(n, before, after)
    ensures F.Clean(n, after)
  {
    var s: B.State, sched :|
      && SyncAtEntry(n, s) && Same(n, s.flags, before)
      && SyncReturned(n, B.Run(n, s, sched)) && Same(n, B.Run(n, s, sched).flags, after);
    forall q, k | 0 <= q < n
      ensures after(q, k) == SYNC_VALUE
    { SyncLeavesClean(n, s, sched, q, k); }
  }

  /** Call number i leads from flags[i] to flags[i + 1]. */
  ghost predicate AllRan<T(!new)>(team: F.Team, n: nat, calls: seq<Call<T>>, flags: seq<Flags>) {
    |flags| == |calls| + 1 && forall i :: 0 <= i < |calls| ==> Ran(team, n, calls[i], flags[i], flags[i + 1])
  }

  /** Whatever calls a team makes, if each starts after all PEs returned from the one before, each finds the flags cleared. */
  lemma {:induction false} CallsStartClean<T(!new)>(team: F.Team, n: nat, calls: seq<Call<T>>, flags: seq<Flags>, i: nat)
    requires team.Ok(n) && AllRan(team, n, calls, flags) && F.Clean(n, flags[0]) && i <= |calls|
    ensures F.Clean(n, flags[i])
  {
    if i > 0 {
      CallsStartClean(team, n, calls, flags, i - 1);
      assert Ran(team, n, calls[i - 1], flags[i - 1], flags[i - 1 + 1]);
      match calls[i - 1]
      case RingCall(ring) => RingKeepsClean(ring, flags[i - 1], flags[i]);
      case DirectCall(ring) => DirectKeepsClean(team, ring, flags[i - 1], flags[i]);
      case SyncCall => SyncKeepsClean(n, flags[i - 1], flags[i]);
    }
  }

  /** Cleared flags are all that the results about a single call ask for. */
  lemma CleanIsEnough<T>(team: F.Team, ring: Ring<T>, e: RingEntry.Calling<T>, d: F.Direct<T>, s: B.State)
    requires ring.n >= 1
    ensures RingAtEntry(ring, e) && F.Clean(ring.n, e.s.sync) ==> RingEntry.Called(ring, e)
    ensures F.AtEntry(ring.n, d) && F.Clean(ring.n, d.sync) ==> D.Begin(ring, F.WorldOf(team, d))
    ensures SyncAtEntry(ring.n, s) && F.Clean(ring.n, s.flags) ==> B.Start(ring.n, s)
  {}
}
