/**
  The barrier of the IPC backend (src/ipc/context_ipc_device_coll.cpp), entered
  any number of times.  PE 0 of the team collects a mark of every other PE and
  then announces to each that all have arrived.  Teams of fewer than 64 PEs use a
  flag per PE for the marks, larger ones a counter.  Single actions of all PEs
  interleave in any order.
*/
module Barrier {
  import opened Arithmetic

  /** The size from which on marks are counted. */
  const ATOMIC_SIZE := 64
  const SYNC_VALUE := 0
  const FLAG_VALUE := 1

  /** Collect(i): PE 0 waits for the mark of PE i, or for all of them; Announce(i): PE i is told next. */
  datatype Stage = Outside | Marked | Collect(i: int) | Announce(i: int)

  /** `flags(p, k)` is element k of PE p's array; `left[p]` is how many barriers PE p has left. */
  datatype State = State(stage: seq<Stage>, left: seq<nat>, flags: (int, int) -> int)

  function Set(f: (int, int) -> int, a: int, b: int, v: int): (int, int) -> int {
    (x: int, y: int) => if x == a && y == b then v else f(x, y)
  }

  function Move(s: State, p: int, stage: Stage): State
    requires 0 <= p < |s.stage|
  { s.(stage := s.stage[p := stage]) }

  function Leave(s: State, p: int): State
    requires 0 <= p < |s.stage| == |s.left|
  { s.(stage := s.stage[p := Outside], left := s.left[p := s.left[p] + 1]) }

  /** One action of PE p of a team of n; a PE that is outside enters, a failed spin test changes nothing. */
  function Act(n: nat, s: State, p: int): (s': State)
    requires |s.stage| == |s.left| == n
    ensures |s'.stage| == |s'.left| == n
  {
    if !(0 <= p < n) then s
    else if p == 0 then ActRoot(n, s)
    else if s.stage[p].Outside? then
      if n < ATOMIC_SIZE then Move(s, p, Marked).(flags := Set(s.flags, 0, p, FLAG_VALUE))
      else Move(s, p, Marked).(flags := Set(s.flags, 0, 0, s.flags(0, 0) + FLAG_VALUE))
    else if s.flags(p, 0) == FLAG_VALUE then Leave(s, p).(flags := Set(s.flags, p, 0, SYNC_VALUE))
    else s
  }

  function ActRoot(n: nat, s: State): (s': State)
    requires |s.stage| == |s.left| == n >= 1
    ensures |s'.stage| == |s'.left| == n
  {
    match s.stage[0]
    case Collect(i) =>
      if n < ATOMIC_SIZE then
        if i >= n then Move(s, 0, Announce(1))
        else if s.flags(0, i) == FLAG_VALUE then Move(s, 0, Collect(i + 1)).(flags := Set(s.flags, 0, i, SYNC_VALUE))
        else s
      else if s.flags(0, 0) == n - 1 then Move(s, 0, Announce(1)).(flags := Set(s.flags, 0, 0, SYNC_VALUE))
      else s
    case Announce(i) =>
      if i >= n then Leave(s, 0) else Move(s, 0, Announce(i + 1)).(flags := Set(s.flags, i, 0, FLAG_VALUE))
    case _ => Move(s, 0, Collect(1))
  }

  function Run(n: nat, s: State, sched: seq<int>): (s': State)
    requires |s.stage| == |s.left| == n
    ensures |s'.stage| == |s'.left| == n
  {
    if sched == [] then s else Act(n, Run(n, s, sched[..|sched| - 1]), sched[|sched| - 1])
  }

  ghost predicate Start(n: nat, s: State) {
    && |s.stage| == |s.left| == n
    && (forall p :: 0 <= p < n ==> s.stage[p] == Outside && s.left[p] == 0)
    && (forall p, k :: 0 <= p < n && 0 <= k < n ==> s.flags(p, k) == SYNC_VALUE)
  }

  // --------------------------------------------------------------- invariant

  /** How many barriers PE p has entered. */
  function Entered(s: State, p: int): nat
    requires 0 <= p < |s.stage| == |s.left|
  { if s.stage[p].Outside? then s.left[p] else s.left[p] + 1 }

  /** How many marks of PE p PE 0 has taken, and how many times it has told PE p. */
  function Taken(n: nat, s: State, p: int): nat
    requires |s.stage| == |s.left| == n >= 1
  {
    if s.stage[0].Announce? || (n < ATOMIC_SIZE && s.stage[0].Collect? && p < s.stage[0].i) then s.left[0] + 1 else s.left[0]
  }

  function Told(s: State, p: int): nat
    requires |s.stage| == |s.left| >= 1
  { if s.stage[0].Announce? && p < s.stage[0].i then s.left[0] + 1 else s.left[0] }

  /** Marks made and not taken, by PEs 1 to m - 1. */
  function Pending(n: nat, s: State, m: nat): int
    requires |s.stage| == |s.left| == n && m <= n && n >= 1
  { if m <= 1 then 0 else Pending(n, s, m - 1) + Entered(s, m - 1) - Taken(n, s, m - 1) }

  /** What holds between PE 0 and PE p. */
  ghost predicate Pair(n: nat, s: State, p: int)
    requires |s.stage| == |s.left| == n && 1 <= p < n
  {
    && (s.stage[p].Outside? || s.stage[p].Marked?)
    && s.left[p] <= Told(s, p) <= Taken(n, s, p) <= Entered(s, p)
    && s.flags(p, 0) == Told(s, p) - s.left[p]
    && (n < ATOMIC_SIZE ==> s.flags(0, p) == Entered(s, p) - Taken(n, s, p))
  }

  ghost predicate Inv(n: nat, s: State) {
    && |s.stage| == |s.left| == n >= 1
    && !s.stage[0].Marked? && (s.stage[0].Collect? || s.stage[0].Announce? ==> 1 <= s.stage[0].i)
    && (forall p :: 1 <= p < n ==> Pair(n, s, p))
    && (n >= ATOMIC_SIZE ==> s.flags(0, 0) == Pending(n, s, n))
  }

  lemma {:induction false} NonePending(n: nat, s: State, m: nat)
    requires |s.stage| == |s.left| == n >= m && n >= 1
    requires forall p :: 1 <= p < m ==> Entered(s, p) == Taken(n, s, p)
    ensures Pending(n, s, m) == 0
  {
    if m > 1 { NonePending(n, s, m - 1); }
  }

  /** Each PE has at most one mark pending, so that all are pending only if each has one. */
  lemma {:induction false} AllPending(n: nat, s: State, m: nat)
    requires |s.stage| == |s.left| == n >= m >= 1 && forall p :: 1 <= p < m ==> Entered(s, p) <= Taken(n, s, p) + 1
    ensures Pending(n, s, m) <= m - 1
    ensures Pending(n, s, m) == m - 1 ==> forall p :: 1 <= p < m ==> Entered(s, p) == Taken(n, s, p) + 1
  {
    if m > 1 { AllPending(n, s, m - 1); }
  }

  lemma {:induction false} PendingChanges(n: nat, s: State, s': State, m: nat, q: int)
    requires |s.stage| == |s.left| == |s'.stage| == |s'.left| == n >= m && n >= 1
    requires forall p :: 1 <= p < m ==> Taken(n, s', p) == Taken(n, s, p)
    requires forall p :: 1 <= p < m && p != q ==> Entered(s', p) == Entered(s, p)
    requires 1 <= q < n
    ensures Pending(n, s', m) == Pending(n, s, m) + if q < m then Entered(s', q) - Entered(s, q) else 0
  {
    if m > 1 { PendingChanges(n, s, s', m - 1, q); }
  }

  // ------------------------------------------------------- every action keeps it

  lemma KeepOther(n: nat, s: State, p: int)
    requires Inv(n, s) && 1 <= p < n
    ensures Inv(n, Act(n, s, p))
  {
    var s' := Act(n, s, p);
    assert Pair(n, s, p);
    forall q | 1 <= q < n
      ensures Pair(n, s', q)
    { assert Pair(n, s, q); }
    if n >= ATOMIC_SIZE { PendingChanges(n, s, s', n, p); }
  }

  lemma KeepRoot(n: nat, s: State)
    requires Inv(n, s)
    ensures Inv(n, ActRoot(n, s))
  {
    var s' := ActRoot(n, s);
    if n >= ATOMIC_SIZE { RootCounts(n, s); }
    forall q | 1 <= q < n
      ensures Pair(n, s', q)
    { assert Pair(n, s, q); }
  }

  /** With a counter PE 0 goes on only when every mark is there. */
  lemma RootCounts(n: nat, s: State)
    requires Inv(n, s) && n >= ATOMIC_SIZE
    ensures var s' := ActRoot(n, s); s'.flags(0, 0) == Pending(n, s', n)
    ensures s.stage[0].Collect? && s.flags(0, 0) == n - 1 ==> forall p :: 1 <= p < n ==> Entered(s, p) == Taken(n, s, p) + 1
  {
    var s' := ActRoot(n, s);
    forall p | 1 <= p < n
      ensures Entered(s, p) <= Taken(n, s, p) + 1
    { assert Pair(n, s, p); }
    AllPending(n, s, n);
    if s.stage[0].Collect? && s.flags(0, 0) == n - 1 {
      forall p | 1 <= p < n
        ensures Entered(s', p) == Taken(n, s', p)
      { assert Entered(s, p) == Taken(n, s, p) + 1; }
      NonePending(n, s', n);
    } else {
      PendingChanges(n, s, s', n, 1);
    }
  }

  lemma {:induction false} RunInv(n: nat, start: State, sched: seq<int>)
    requires n >= 1 && Start(n, start)
    ensures Inv(n, Run(n, start, sched))
  {
    if sched == [] {
      NonePending(n, start, n);
    } else {
      var (s, p) := (Run(n, start, sched[..|sched| - 1]), sched[|sched| - 1]);
      RunInv(n, start, sched[..|sched| - 1]);
      if p == 0 { KeepRoot(n, s); } else if 1 <= p < n { KeepOther(n, s, p); }
    }
  }

  // ----------------------------------------------------------------- results

  /** No PE leaves its k-th barrier before every PE has entered its k-th. */
  lemma NobodyLeavesEarly(n: nat, start: State, sched: seq<int>, p: int, q: int)
    requires n >= 1 && Start(n, start) && 0 <= p < n && 0 <= q < n
    ensures Run(n, start, sched).left[p] <= Entered(Run(n, start, sched), q)
  {
    var s := Run(n, start, sched);
    RunInv(n, start, sched);
    if p >= 1 { assert Pair(n, s, p); }
    if q >= 1 { assert Pair(n, s, q); }
  }

  /** A PE that is outside can always enter. */
  lemma OutsideEnters(n: nat, s: State, p: int)
    requires |s.stage| == |s.left| == n && 0 <= p < n && s.stage[p].Outside?
    ensures Entered(Act(n, s, p), p) == Entered(s, p) + 1
  {}

  /** Somebody is inside and everybody who is outside has been through as many barriers as the others have entered. */
  ghost predicate AllArrived(n: nat, s: State)
    requires |s.stage| == |s.left| == n
  {
    && (exists p :: 0 <= p < n && !s.stage[p].Outside?)
    && forall p, q :: 0 <= p < n && 0 <= q < n && s.stage[p].Outside? ==> Entered(s, q) <= s.left[p]
  }

  /** Once everybody has arrived, somebody inside can always move on. */
  lemma NoDeadlock(n: nat, start: State, sched: seq<int>) returns (p: int)
    requires n >= 1 && Start(n, start) && AllArrived(n, Run(n, start, sched))
    ensures 0 <= p < n && !Run(n, start, sched).stage[p].Outside?
    ensures Run(n, start, sched + [p]).stage[p] != Run(n, start, sched).stage[p]
  {
    RunInv(n, start, sched);
    p := InsideMoves(n, Run(n, start, sched));
    assert (sched + [p])[..|sched|] == sched;
  }

  lemma InsideMoves(n: nat, s: State) returns (p: int)
    requires Inv(n, s) && AllArrived(n, s)
    ensures 0 <= p < n && !s.stage[p].Outside? && Act(n, s, p).stage[p] != s.stage[p]
  {
    if s.stage[0].Outside? {
      p :| 0 <= p < n && !s.stage[p].Outside?;
      assert Pair(n, s, p);
    } else {
      p := RootOrTold(n, s);
    }
  }

  lemma RootOrTold(n: nat, s: State) returns (p: int)
    requires Inv(n, s) && AllArrived(n, s) && !s.stage[0].Outside?
    ensures 0 <= p < n && !s.stage[p].Outside? && Act(n, s, p).stage[p] != s.stage[p]
  {
    p := 0;
    if s.stage[0].Collect? {
      if q :| 1 <= q < n && !s.stage[q].Outside? && s.left[q] < s.left[0] {
        assert Pair(n, s, q);
        p := q;
      } else {
        MarksAreThere(n, s);
      }
    }
  }

  /** If everybody has arrived and nobody lags behind, the mark PE 0 waits for is there. */
  lemma MarksAreThere(n: nat, s: State)
    requires Inv(n, s) && AllArrived(n, s) && s.stage[0].Collect?
    requires forall q :: 1 <= q < n && !s.stage[q].Outside? ==> s.left[q] >= s.left[0]
    ensures ActRoot(n, s).stage[0] != s.stage[0]
  {
    forall q | 1 <= q < n
      ensures Entered(s, q) == s.left[0] + 1
    {
      assert Pair(n, s, q);
      assert Entered(s, 0) == s.left[0] + 1;
    }
    if n < ATOMIC_SIZE {
      if s.stage[0].i < n { assert Pair(n, s, s.stage[0].i); }
    } else {
      EachPending(n, s, n);
    }
  }

  lemma {:induction false} EachPending(n: nat, s: State, m: nat)
    requires |s.stage| == |s.left| == n >= m >= 1 && forall p :: 1 <= p < m ==> Entered(s, p) == Taken(n, s, p) + 1
    ensures Pending(n, s, m) == m - 1
  {
    if m > 1 { EachPending(n, s, m - 1); }
  }

  // ---------------------------------------------------------------- progress

  /** How far PE p is within a barrier; PE 0 passes at most 2n + 1 places, the others two. */
  function Position(n: nat, a: Stage): int {
    match a
    case Outside => 0
    case Marked => 1
    case Collect(i) => i
    case Announce(i) => n + i
  }

  function RoundLength(n: nat, p: int): int { if p == 0 then 2 * n + 1 else 2 }

  /** How far PE p is over all its barriers. */
  function Rank(n: nat, s: State, p: int): int
    requires 0 <= p < |s.stage| == |s.left|
  { s.left[p] * RoundLength(n, p) + Position(n, s.stage[p]) }

  function RankSum(n: nat, s: State, m: nat): int
    requires m <= |s.stage| == |s.left|
  { if m == 0 then 0 else RankSum(n, s, m - 1) + Rank(n, s, m - 1) }

  /** The indices of PE 0's two loops stay in their ranges. */
  predicate RootOk(n: nat, a: Stage) {
    match a
    case Outside => true
    case Marked => false
    case Collect(i) => 1 <= i <= n
    case Announce(i) => 1 <= i <= n
  }

  lemma {:induction false} RunRootOk(n: nat, start: State, sched: seq<int>)
    requires n >= 1 && Start(n, start)
    ensures RootOk(n, Run(n, start, sched).stage[0])
  {
    if sched != [] { RunRootOk(n, start, sched[..|sched| - 1]); }
  }

  lemma ActRaisesRank(n: nat, s: State, p: int)
    requires Inv(n, s) && RootOk(n, s.stage[0]) && 0 <= p < n && Act(n, s, p) != s
    ensures Rank(n, Act(n, s, p), p) > Rank(n, s, p)
    ensures forall q :: 0 <= q < n && q != p ==> Rank(n, Act(n, s, p), q) == Rank(n, s, q)
  {
    if p >= 1 { assert Pair(n, s, p); }
    assert (s.left[p] + 1) * RoundLength(n, p) == s.left[p] * RoundLength(n, p) + RoundLength(n, p);
  }

  lemma {:induction false} RankSumRises(n: nat, s: State, s': State, m: nat, p: int)
    requires m <= |s.stage| == |s.left| == |s'.stage| == |s'.left| == n && 0 <= p < n && Rank(n, s', p) > Rank(n, s, p)
    requires forall q :: 0 <= q < n && q != p ==> Rank(n, s', q) == Rank(n, s, q)
    ensures if p < m then RankSum(n, s', m) > RankSum(n, s, m) else RankSum(n, s', m) == RankSum(n, s, m)
  {
    if m > 0 { RankSumRises(n, s, s', m - 1, p); }
  }

  lemma RankBound(n: nat, s: State, rounds: nat, p: int)
    requires Inv(n, s) && RootOk(n, s.stage[0]) && 0 <= p < n && Entered(s, p) <= rounds
    ensures Rank(n, s, p) <= rounds * RoundLength(n, p)
  {
    if p >= 1 { assert Pair(n, s, p); }
    MulMono(Entered(s, p), rounds, RoundLength(n, p));
    assert (s.left[p] + 1) * RoundLength(n, p) == s.left[p] * RoundLength(n, p) + RoundLength(n, p);
  }

  /** Nobody has entered more than `rounds` barriers. */
  ghost predicate WithinRounds(s: State, rounds: nat)
    requires |s.stage| == |s.left|
  { forall q :: 0 <= q < |s.stage| ==> Entered(s, q) <= rounds }

  lemma {:induction false} RankSumBound(n: nat, s: State, rounds: nat, m: nat)
    requires Inv(n, s) && RootOk(n, s.stage[0]) && 1 <= m <= n && WithinRounds(s, rounds)
    ensures RankSum(n, s, m) <= rounds * (2 * n + 1) + (m - 1) * (2 * rounds)
  {
    RankBound(n, s, rounds, m - 1);
    if m == 1 {
      assert RankSum(n, s, 0) == 0;
    } else {
      RankSumBound(n, s, rounds, m - 1);
      assert (m - 1) * (2 * rounds) == (m - 2) * (2 * rounds) + 2 * rounds;
    }
  }

  lemma Regroup(rounds: nat, n: nat)
    ensures rounds * (2 * n + 1) + (n - 1) * (2 * rounds) == rounds * (4 * n - 1)
  {}

  lemma ActProgress(n: nat, s: State, p: int)
    requires Inv(n, s) && RootOk(n, s.stage[0]) && 0 <= p < n
    ensures Act(n, s, p) == s || RankSum(n, Act(n, s, p), n) > RankSum(n, s, n)
  {
    if Act(n, s, p) != s {
      ActRaisesRank(n, s, p);
      RankSumRises(n, s, Act(n, s, p), n, p);
    }
  }

  /**
    Every action spins in place or brings the barriers closer to a bound that depends only on how many of
    them the PEs enter: a round ends after boundedly many actions that do not spin.
  */
  lemma ProgressIsBounded(n: nat, start: State, sched: seq<int>, p: int, rounds: nat)
    requires n >= 1 && Start(n, start) && 0 <= p < n
    ensures var (s, s') := (Run(n, start, sched), Run(n, start, sched + [p])); s' == s || RankSum(n, s', n) > RankSum(n, s, n)
    ensures WithinRounds(Run(n, start, sched), rounds) ==> RankSum(n, Run(n, start, sched), n) <= rounds * (4 * n - 1)
  {
    var s := Run(n, start, sched);
    RunInv(n, start, sched);
    RunRootOk(n, start, sched);
    assert (sched + [p])[..|sched|] == sched;
    ActProgress(n, s, p);
    if WithinRounds(s, rounds) { RankSumBound(n, s, rounds, n); }
    Regroup(rounds, n);
  }
}
