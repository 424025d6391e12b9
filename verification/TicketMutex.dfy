/**
  The array-based queue lock of the device (src/sync/abql_block_mutex.hpp and
  .cpp), which guards the free list.  A thread takes a ticket, spins on the slot
  `ticket % channels` until it shows the ticket, and on unlock writes the next
  ticket into the next slot.  Slots are shared by all tickets with the same
  remainder.  The model interleaves the atomic steps of any number of threads,
  each of which may lock again and again.
*/
module TicketMutex {

  datatype Phase = Outside | Waiting(ticket: nat) | Inside(ticket: nat)

  /** `served` counts the unlocks, `entered` lists the tickets in the order in which they got the lock. */
  datatype State = State(ticket: nat, turns: seq<nat>, threads: seq<Phase>, served: nat, entered: seq<nat>)

  function Init(channels: nat, n: nat): State {
    State(0, seq(channels, _ => 0), seq(n, _ => Outside), 0, [])
  }

  /** The next step of thread `t`; a spinning thread whose turn has not come changes nothing. */
  function Exec(s: State, t: int): State
    requires |s.turns| >= 1
  {
    if !(0 <= t < |s.threads|) then s
    else match s.threads[t]
      case Outside => s.(ticket := s.ticket + 1, threads := s.threads[t := Waiting(s.ticket)])
      case Waiting(k) =>
        if s.turns[k % |s.turns|] == k
        then s.(threads := s.threads[t := Inside(k)], entered := s.entered + [k])
        else s
      case Inside(k) =>
        s.(turns := s.turns[(k + 1) % |s.turns| := k + 1], threads := s.threads[t := Outside], served := s.served + 1)
  }

  function Run(channels: nat, n: nat, sched: seq<int>): (s: State)
    requires channels >= 1
    ensures |s.turns| == channels && |s.threads| == n
  {
    if sched == [] then Init(channels, n) else Exec(Run(channels, n, sched[..|sched| - 1]), sched[|sched| - 1])
  }

  // ---------------------------------------------------------------- invariant

  predicate Holds(p: Phase, k: nat) { !p.Outside? && p.ticket == k }

  ghost predicate SomeHolder(threads: seq<Phase>, k: nat) { exists t :: 0 <= t < |threads| && Holds(threads[t], k) }

  ghost predicate SomeInside(threads: seq<Phase>) { exists t :: 0 <= t < |threads| && threads[t].Inside? }

  /** The tickets from `served` up to the next one to be taken belong to one thread each; only the first can be inside. */
  ghost predicate TicketsOk(s: State) {
    && s.served <= s.ticket
    && (forall t :: 0 <= t < |s.threads| && !s.threads[t].Outside? ==> s.served <= s.threads[t].ticket < s.ticket)
    && (forall t, u :: 0 <= t < u < |s.threads| && !s.threads[t].Outside? && !s.threads[u].Outside?
          ==> s.threads[t].ticket != s.threads[u].ticket)
    && (forall k: nat :: s.served <= k < s.ticket ==> SomeHolder(s.threads, k))
    && (forall t :: 0 <= t < |s.threads| && s.threads[t].Inside? ==> s.threads[t].ticket == s.served)
  }

  /** The slot of `served` shows it, and no slot shows a later ticket. */
  ghost predicate TurnsOk(s: State) {
    && |s.turns| >= 1
    && s.turns[s.served % |s.turns|] == s.served
    && (forall j :: 0 <= j < |s.turns| ==> s.turns[j] <= s.served)
  }

  ghost predicate EnteredOk(s: State) {
    && (forall i :: 0 <= i < |s.entered| ==> s.entered[i] == i)
    && |s.entered| == if SomeInside(s.threads) then s.served + 1 else s.served
  }

  ghost predicate Inv(s: State) { TurnsOk(s) && TicketsOk(s) && EnteredOk(s) }

  lemma StillHeld(threads: seq<Phase>, t: int, p: Phase, k: nat)
    requires 0 <= t < |threads| && SomeHolder(threads, k) && (Holds(threads[t], k) ==> Holds(p, k))
    ensures SomeHolder(threads[t := p], k)
  {
    var u :| 0 <= u < |threads| && Holds(threads[u], k);
    assert Holds(threads[t := p][u], k);
  }

  lemma KeepOutside(s: State, t: int)
    requires Inv(s) && 0 <= t < |s.threads| && s.threads[t].Outside?
    ensures Inv(Exec(s, t))
  {
    var s' := Exec(s, t);
    forall k: nat | s'.served <= k < s'.ticket
      ensures SomeHolder(s'.threads, k)
    {
      if k == s.ticket { assert Holds(s'.threads[t], k); } else { StillHeld(s.threads, t, s'.threads[t], k); }
    }
    assert SomeInside(s.threads) <==> SomeInside(s'.threads) by {
      assert forall u :: 0 <= u < |s.threads| ==> s.threads[u].Inside? == s'.threads[u].Inside?;
    }
  }

  lemma KeepWaiting(s: State, t: int)
    requires Inv(s) && 0 <= t < |s.threads| && s.threads[t].Waiting?
    ensures Inv(Exec(s, t))
  {
    var s' := Exec(s, t);
    var k := s.threads[t].ticket;
    if s.turns[k % |s.turns|] == k {
      assert k == s.served;
      assert forall u :: 0 <= u < |s.threads| && u != t ==> !s.threads[u].Inside?;
      assert !SomeInside(s.threads) && s'.threads[t].Inside?;
      forall j: nat | s'.served <= j < s'.ticket
        ensures SomeHolder(s'.threads, j)
      { StillHeld(s.threads, t, s'.threads[t], j); }
    }
  }

  lemma KeepInside(s: State, t: int)
    requires Inv(s) && 0 <= t < |s.threads| && s.threads[t].Inside?
    ensures Inv(Exec(s, t))
  {
    var s' := Exec(s, t);
    assert forall u :: 0 <= u < |s.threads| && u != t ==> !s.threads[u].Inside?;
    assert SomeInside(s.threads) && !SomeInside(s'.threads);
    forall j: nat | s'.served <= j < s'.ticket
      ensures SomeHolder(s'.threads, j)
    { StillHeld(s.threads, t, s'.threads[t], j); }
    assert TicketsOk(s');
  }

  lemma {:induction false} RunInv(channels: nat, n: nat, sched: seq<int>)
    requires channels >= 1
    ensures Inv(Run(channels, n, sched))
  {
    if sched != [] {
      RunInv(channels, n, sched[..|sched| - 1]);
      var (s, t) := (Run(channels, n, sched[..|sched| - 1]), sched[|sched| - 1]);
      if 0 <= t < n {
        match s.threads[t]
        case Outside => KeepOutside(s, t);
        case Waiting(_) => KeepWaiting(s, t);
        case Inside(_) => KeepInside(s, t);
      }
    }
  }

  // -------------------------------------------------------------- main results

  /** At no time are two threads inside, however many threads share a slot. */
  lemma MutualExclusion(channels: nat, n: nat, sched: seq<int>, t: int, u: int)
    requires channels >= 1 && 0 <= t < u < n
    ensures !(Run(channels, n, sched).threads[t].Inside? && Run(channels, n, sched).threads[u].Inside?)
  {
    RunInv(channels, n, sched);
  }

  /** The lock is granted in the order in which tickets were taken, skipping nobody. */
  lemma FirstComeFirstServed(channels: nat, n: nat, sched: seq<int>)
    requires channels >= 1
    ensures var s := Run(channels, n, sched);
            && (forall i :: 0 <= i < |s.entered| ==> s.entered[i] == i)
            && (forall t :: 0 <= t < n && s.threads[t].Waiting? ==> s.threads[t].ticket >= |s.entered|)
  {
    RunInv(channels, n, sched);
    var s := Run(channels, n, sched);
    forall t | 0 <= t < n && s.threads[t].Waiting?
      ensures s.threads[t].ticket >= |s.entered|
    {
      if |s.entered| == s.served + 1 {
        var u :| 0 <= u < |s.threads| && s.threads[u].Inside?;
        assert s.threads[u].ticket == s.served != s.threads[t].ticket;
      }
    }
  }

  /** No wake-up is lost: while anybody holds or wants the lock, exactly the next ticket's thread can move on. */
  lemma NoLostWakeup(channels: nat, n: nat, sched: seq<int>) returns (t: int)
    requires channels >= 1 && exists u :: 0 <= u < n && !Run(channels, n, sched).threads[u].Outside?
    ensures var s := Run(channels, n, sched);
            && 0 <= t < n && Holds(s.threads[t], s.served) && Exec(s, t).threads[t] != s.threads[t]
            && forall u :: 0 <= u < n && u != t && !s.threads[u].Outside? ==> Exec(s, u) == s
  {
    RunInv(channels, n, sched);
    var s := Run(channels, n, sched);
    assert SomeHolder(s.threads, s.served);
    t :| 0 <= t < n && Holds(s.threads[t], s.served);
    forall u | 0 <= u < n && u != t && !s.threads[u].Outside?
      ensures Exec(s, u) == s
    {
      OnlyNextMoves(s, u);
    }
  }

  lemma OnlyNextMoves(s: State, u: int)
    requires Inv(s) && 0 <= u < |s.threads| && !s.threads[u].Outside? && s.threads[u].ticket != s.served
    ensures Exec(s, u) == s
  {}
}
