/**
  The queue lock of TicketMutex with tickets of a fixed width: they wrap around at
  `width`, a multiple of the number of slots (2^64 and 32 in the source).  As long
  as the threads are not too many, the lock goes through the same phases as with
  unbounded tickets.  One thread more, and an old entry of a slot can pass for a
  ticket of the next turn of the counter.
*/
module TicketWrap {
  import opened Arithmetic
  import opened TicketMutex

  datatype Machine = Machine(ticket: nat, turns: seq<nat>, threads: seq<Phase>)

  ghost predicate Fits(width: nat, channels: nat) { channels >= 1 && width >= 1 && width % channels == 0 }

  function Begin(channels: nat, n: nat): Machine { Machine(0, seq(channels, _ => 0), seq(n, _ => Outside)) }

  /** The next step of thread `t`, as in TicketMutex, with the additions modulo `width`. */
  function Act(width: nat, m: Machine, t: int): Machine
    requires |m.turns| >= 1 && width >= 1
  {
    if !(0 <= t < |m.threads|) then m
    else match m.threads[t]
      case Outside => Machine((m.ticket + 1) % width, m.turns, m.threads[t := Waiting(m.ticket)])
      case Waiting(k) => if m.turns[k % |m.turns|] == k then m.(threads := m.threads[t := Inside(k)]) else m
      case Inside(k) =>
        var next := (k + 1) % width;
        Machine(m.ticket, m.turns[next % |m.turns| := next], m.threads[t := Outside])
  }

  function ActAll(width: nat, channels: nat, n: nat, sched: seq<int>): (m: Machine)
    requires channels >= 1 && width >= 1
    ensures |m.turns| == channels && |m.threads| == n
  {
    if sched == [] then Begin(channels, n) else Act(width, ActAll(width, channels, n, sched[..|sched| - 1]), sched[|sched| - 1])
  }

  // ------------------------------------------------------------ what unbounded tickets keep besides

  /** How many threads hold a ticket. */
  function Busy(threads: seq<Phase>): nat {
    if threads == [] then 0 else Busy(threads[..|threads| - 1]) + if threads[|threads| - 1].Outside? then 0 else 1
  }

  lemma {:induction false} BusyUpdate(threads: seq<Phase>, t: int, p: Phase)
    requires 0 <= t < |threads|
    ensures Busy(threads[t := p]) == Busy(threads) + (if p.Outside? then 0 else 1) - (if threads[t].Outside? then 0 else 1)
  {
    var last := |threads| - 1;
    if t == last {
      assert threads[t := p][..last] == threads[..last];
    } else {
      BusyUpdate(threads[..last], t, p);
      assert threads[t := p][..last] == threads[..last][t := p];
    }
  }

  lemma {:induction false} BusyBound(threads: seq<Phase>)
    ensures Busy(threads) <= |threads|
    ensures (forall t :: 0 <= t < |threads| ==> threads[t].Outside?) ==> Busy(threads) == 0
  {
    if threads != [] { BusyBound(threads[..|threads| - 1]); }
  }

  /** Slot j shows the last ticket of its own that was called, or nothing yet. */
  ghost predicate Recent(turns: seq<nat>, served: nat, j: int)
    requires 0 <= j < |turns|
  {
    (turns[j] == 0 && served < j) || (turns[j] % |turns| == j && turns[j] <= served < turns[j] + |turns|)
  }

  ghost predicate Tight(s: State) {
    && |s.turns| >= 1 && s.ticket == s.served + Busy(s.threads)
    && forall j :: 0 <= j < |s.turns| ==> Recent(s.turns, s.served, j)
  }

  lemma RecentKept(turns: seq<nat>, served: nat, j: int)
    requires |turns| >= 1 && 0 <= j < |turns| && Recent(turns, served, j)
    ensures Recent(turns[(served + 1) % |turns| := served + 1], served + 1, j)
  {
    var c := |turns|;
    if j != (served + 1) % c {
      if turns[j] == 0 && served < j {
        SmallDiv(j, c);
      } else if served + 1 == turns[j] + c {
        AddMultiple(turns[j], 1, c);
      }
    }
  }

  lemma KeepTight(s: State, t: int)
    requires Inv(s) && Tight(s)
    ensures Tight(Exec(s, t))
  {
    if 0 <= t < |s.threads| {
      BusyUpdate(s.threads, t, Exec(s, t).threads[t]);
      if s.threads[t].Inside? {
        var (turns, served) := (Exec(s, t).turns, s.served + 1);
        forall j | 0 <= j < |s.turns|
          ensures Recent(turns, served, j)
        { RecentKept(s.turns, s.served, j); }
      }
    }
  }

  lemma {:induction false} RunTight(channels: nat, n: nat, sched: seq<int>)
    requires channels >= 1
    ensures Tight(Run(channels, n, sched))
  {
    if sched == [] {
      BusyBound(Init(channels, n).threads);
    } else {
      RunTight(channels, n, sched[..|sched| - 1]);
      RunInv(channels, n, sched[..|sched| - 1]);
      KeepTight(Run(channels, n, sched[..|sched| - 1]), sched[|sched| - 1]);
    }
  }

  // -------------------------------------------------------------------- simulation

  function WrapPhase(width: nat, p: Phase): Phase
    requires width >= 1
  {
    match p
    case Outside => Outside
    case Waiting(k) => Waiting(k % width)
    case Inside(k) => Inside(k % width)
  }

  /** The machine shows the state's tickets modulo `width`. */
  ghost predicate Shows(width: nat, m: Machine, s: State) {
    && width >= 1 && |m.turns| == |s.turns| && |m.threads| == |s.threads| && m.ticket == s.ticket % width
    && (forall j :: 0 <= j < |s.turns| ==> m.turns[j] == s.turns[j] % width)
    && forall t :: 0 <= t < |s.threads| ==> m.threads[t] == WrapPhase(width, s.threads[t])
  }

  lemma SameSlot(width: nat, channels: nat, k: nat)
    requires Fits(width, channels)
    ensures k % width % channels == k % channels
  {
    DivBounds(width, channels);
    ModOfMultiple(k, channels, width / channels, width);
  }

  lemma NextTicket(width: nat, k: nat)
    requires width >= 1
    ensures (k % width + 1) % width == (k + 1) % width
  { ModAdd(k, 1, width); }

  /** With few enough threads an old entry of a slot cannot be taken for a ticket that waits. */
  lemma NoFalseTurn(width: nat, s: State, k: nat)
    requires Fits(width, |s.turns|) && Tight(s) && |s.threads| + |s.turns| <= width + 1
    requires s.served <= k < s.ticket && s.turns[k % |s.turns|] % width == k % width
    ensures s.turns[k % |s.turns|] == k
  {
    var c := |s.turns|;
    var x := s.turns[k % c];
    BusyBound(s.threads);
    assert Recent(s.turns, s.served, k % c);
    if x == 0 && s.served < k % c {
      SmallDiv(0, width);
      SameSlot(width, c, k);
    } else {
      SameRemainder(x, k, width);
    }
  }

  lemma SameRemainder(x: nat, k: nat, width: nat)
    requires width >= 1 && x <= k < x + width && x % width == k % width
    ensures x == k
  {
    DivBounds(x, width);
    DivBounds(k, width);
    SmallMultiple(width, k / width - x / width);
  }

  lemma TakeShows(width: nat, m: Machine, s: State, t: int)
    requires Shows(width, m, s) && |s.turns| >= 1 && 0 <= t < |s.threads| && s.threads[t].Outside?
    ensures Shows(width, Act(width, m, t), Exec(s, t))
  { NextTicket(width, s.ticket); }

  lemma WaitShows(width: nat, m: Machine, s: State, t: int)
    requires Shows(width, m, s) && Inv(s) && Tight(s) && Fits(width, |s.turns|) && |s.threads| + |s.turns| <= width + 1
    requires 0 <= t < |s.threads| && s.threads[t].Waiting?
    ensures Shows(width, Act(width, m, t), Exec(s, t))
  {
    var k := s.threads[t].ticket;
    SameSlot(width, |s.turns|, k);
    if s.turns[k % |s.turns|] % width == k % width { NoFalseTurn(width, s, k); }
  }

  lemma LeaveShows(width: nat, m: Machine, s: State, t: int)
    requires Shows(width, m, s) && Fits(width, |s.turns|) && 0 <= t < |s.threads| && s.threads[t].Inside?
    ensures Shows(width, Act(width, m, t), Exec(s, t))
  {
    var k := s.threads[t].ticket;
    NextTicket(width, k);
    SameSlot(width, |s.turns|, k + 1);
  }

  /** Over every run the threads go through the same phases as with unbounded tickets. */
  lemma {:induction false} WrapSimulates(width: nat, channels: nat, n: nat, sched: seq<int>)
    requires Fits(width, channels) && n + channels <= width + 1
    ensures Shows(width, ActAll(width, channels, n, sched), Run(channels, n, sched))
  {
    if sched == [] {
      SmallDiv(0, width);
    } else {
      var (before, t) := (sched[..|sched| - 1], sched[|sched| - 1]);
      WrapSimulates(width, channels, n, before);
      RunInv(channels, n, before);
      RunTight(channels, n, before);
      var (m, s) := (ActAll(width, channels, n, before), Run(channels, n, before));
      if 0 <= t < n {
        match s.threads[t]
        case Outside => TakeShows(width, m, s, t);
        case Waiting(_) => WaitShows(width, m, s, t);
        case Inside(_) => LeaveShows(width, m, s, t);
      }
    }
  }

  // ------------------------------------------------------------------- one too many

  function Times(t: int, k: nat): seq<int> { if k == 0 then [] else Times(t, k - 1) + [t, t, t] }

  function Each(k: nat): seq<int> { seq(k, i => i) }

  /** Thread 0 has locked and unlocked k times, fewer than there are slots: slot 0 still shows ticket 0. */
  lemma {:induction false} LockedTimes(width: nat, channels: nat, n: nat, k: nat)
    requires Fits(width, channels) && k < channels && n >= 1
    ensures var m := ActAll(width, channels, n, Times(0, k));
      && m.ticket == k && m.turns[0] == 0 && m.turns[k] == k && forall t :: 0 <= t < n ==> m.threads[t] == Outside
  {
    if k > 0 {
      LockedTimes(width, channels, n, k - 1);
      LockedOnce(width, channels, n, Times(0, k - 1), k - 1);
    }
  }

  lemma LockedOnce(width: nat, channels: nat, n: nat, sched: seq<int>, k: nat)
    requires Fits(width, channels) && k + 1 < channels && n >= 1
    requires var m := ActAll(width, channels, n, sched);
      && m.ticket == k && m.turns[0] == 0 && m.turns[k] == k && forall t :: 0 <= t < n ==> m.threads[t] == Outside
    ensures var m := ActAll(width, channels, n, sched + [0, 0, 0]);
      && m.ticket == k + 1 && m.turns[0] == 0 && m.turns[k + 1] == k + 1 && forall t :: 0 <= t < n ==> m.threads[t] == Outside
  {
    WidthAtLeast(width, channels);
    SmallDiv(k, channels);
    SmallDiv(k + 1, channels);
    SmallDiv(k + 1, width);
    var three := sched + [0, 0, 0];
    assert three[..|sched| + 2] == sched + [0, 0] && (sched + [0, 0])[..|sched| + 1] == sched + [0] && (sched + [0])[..|sched|] == sched;
    var m := ActAll(width, channels, n, sched);
    assert ActAll(width, channels, n, sched + [0]) == Act(width, m, 0);
    assert ActAll(width, channels, n, sched + [0, 0]) == Act(width, Act(width, m, 0), 0);
  }

  lemma WidthAtLeast(width: nat, channels: nat)
    requires Fits(width, channels)
    ensures channels <= width
  {
    if width < channels { SmallDiv(width, channels); }
  }

  /** From m, where all are outside, the first j threads have taken a ticket each. */
  ghost predicate Taken(width: nat, m: Machine, m': Machine, j: nat) {
    && width >= 1 && |m'.threads| == |m.threads| && m'.turns == m.turns && m'.ticket == (m.ticket + j) % width
    && (forall t :: j <= t < |m.threads| ==> m'.threads[t] == Outside)
    && forall t :: 0 <= t < j && t < |m.threads| ==> m'.threads[t] == Waiting((m.ticket + t) % width)
  }

  lemma TakeOne(width: nat, m: Machine, m': Machine, j: nat)
    requires Taken(width, m, m', j) && j < |m.threads| && |m.turns| >= 1
    ensures Taken(width, m, Act(width, m', j), j + 1)
  { NextTicket(width, m.ticket + j); }

  lemma {:induction false} TicketsTaken(width: nat, channels: nat, n: nat, first: seq<int>, j: nat)
    requires Fits(width, channels) && j <= n
    requires var m := ActAll(width, channels, n, first); m.ticket < width && forall t :: 0 <= t < n ==> m.threads[t] == Outside
    ensures Taken(width, ActAll(width, channels, n, first), ActAll(width, channels, n, first + Each(j)), j)
  {
    var m := ActAll(width, channels, n, first);
    if j == 0 {
      assert first + Each(0) == first;
      SmallDiv(m.ticket, width);
    } else {
      TicketsTaken(width, channels, n, first, j - 1);
      assert (first + Each(j))[..|first| + j - 1] == first + Each(j - 1);
      TakeOne(width, m, ActAll(width, channels, n, first + Each(j - 1)), j - 1);
    }
  }

  /** Thread 0, whose turn it is, and the thread that got ticket 0 again both enter. */
  lemma BothEnter(width: nat, m: Machine, k: nat, u: int)
    requires width >= 1 && |m.turns| >= 1 && 0 < u < |m.threads| && k < |m.turns| && m.turns[k] == k && m.turns[0] == 0
    requires m.threads[0] == Waiting(k) && m.threads[u] == Waiting(0)
    ensures var m' := Act(width, Act(width, m, 0), u); m'.threads[0].Inside? && m'.threads[u].Inside?
  {
    SmallDiv(k, |m.turns|);
    SmallDiv(0, |m.turns|);
  }

  /** Ticket number k + u is 0 again if u completes the turn of the counter. */
  lemma BackToZero(width: nat, m: Machine, m': Machine, k: nat, u: nat)
    requires Taken(width, m, m', u + 1) && m.ticket == k && k + u == width && 0 < u < |m.threads|
    ensures m'.threads[0] == Waiting(k) && m'.threads[u] == Waiting(0)
  {
    SmallDiv(k, width);
    AddMultiple(0, 1, width);
    SmallDiv(0, width);
  }

  lemma ThenBoth(width: nat, channels: nat, n: nat, taken: seq<int>, u: int)
    requires channels >= 1 && width >= 1
    ensures ActAll(width, channels, n, taken + [0, u]) == Act(width, Act(width, ActAll(width, channels, n, taken), 0), u)
  {
    assert (taken + [0, u])[..|taken| + 1] == taken + [0] && (taken + [0])[..|taken|] == taken;
    assert ActAll(width, channels, n, taken + [0]) == Act(width, ActAll(width, channels, n, taken), 0);
  }

  lemma TwoInside(width: nat, channels: nat, n: nat) returns (sched: seq<int>, u: int)
    requires Fits(width, channels) && n + channels > width + 1
    ensures 0 < u < n && ActAll(width, channels, n, sched).threads[0].Inside? && ActAll(width, channels, n, sched).threads[u].Inside?
  {
    var k := channels - 1;
    WidthAtLeast(width, channels);
    u := width - k;
    LockedTimes(width, channels, n, k);
    var first := Times(0, k);
    TicketsTaken(width, channels, n, first, u + 1);
    var taken := first + Each(u + 1);
    BackToZero(width, ActAll(width, channels, n, first), ActAll(width, channels, n, taken), k, u);
    BothEnter(width, ActAll(width, channels, n, taken), k, u);
    ThenBoth(width, channels, n, taken, u);
    sched := taken + [0, u];
  }

  ghost predicate Exclusive(width: nat, channels: nat, n: nat)
    requires channels >= 1 && width >= 1
  {
    forall sched, t, u :: 0 <= t < u < n ==>
      var m := ActAll(width, channels, n, sched); !(m.threads[t].Inside? && m.threads[u].Inside?)
  }

  /**
    The lock with wrapping tickets excludes on every run if and only if there are at most
    width - channels + 1 threads: 2^64 - 31 in the source.
  */
  lemma ExclusionIff(width: nat, channels: nat, n: nat)
    requires Fits(width, channels)
    ensures Exclusive(width, channels, n) <==> n + channels <= width + 1
  {
    if n + channels <= width + 1 {
      forall sched, t, u | 0 <= t < u < n
        ensures var m := ActAll(width, channels, n, sched); !(m.threads[t].Inside? && m.threads[u].Inside?)
      {
        WrapSimulates(width, channels, n, sched);
        MutualExclusion(channels, n, sched, t, u);
      }
    } else {
      var sched, u := TwoInside(width, channels, n);
    }
  }

  /** No wake-up is lost either: while anybody holds or wants the lock, some such thread can move on. */
  lemma WrapNoLostWakeup(width: nat, channels: nat, n: nat, sched: seq<int>) returns (t: int)
    requires Fits(width, channels) && n + channels <= width + 1
    requires exists u :: 0 <= u < n && !ActAll(width, channels, n, sched).threads[u].Outside?
    ensures var m := ActAll(width, channels, n, sched);
      0 <= t < n && !m.threads[t].Outside? && Act(width, m, t).threads[t] != m.threads[t]
  {
    WrapSimulates(width, channels, n, sched);
    var (m, s) := (ActAll(width, channels, n, sched), Run(channels, n, sched));
    assert exists u :: 0 <= u < n && !s.threads[u].Outside? by {
      var u :| 0 <= u < n && !m.threads[u].Outside?;
      assert m.threads[u] == WrapPhase(width, s.threads[u]);
    }
    t := NoLostWakeup(channels, n, sched);
    assert m.threads[t] == WrapPhase(width, s.threads[t]);
    if s.threads[t].Waiting? { SameSlot(width, channels, s.threads[t].ticket); }
  }
}
