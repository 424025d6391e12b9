/**
  Wave-aggregated fetch-and-increment (src/containers/share_strategy.hpp and
  .cpp): one atomic add per wavefront stands in for one increment per active
  lane.  Counters are 64-bit words and wrap; a shuffle from an inactive lane
  yields 0.
*/
module WaveTickets {
  import opened Arithmetic
  import opened Counting
  import opened Wave

  /** The counter behind `out_ptr`. */
  class Counter {
    var value: int
    constructor (v: int)
      ensures value == v
    { value := v; }
  }

  // ------------------------------------------------------------ lane arithmetic

  /** Block::active_logical_lane_id */
  function ActiveLogicalLaneId(active: Word, lane: int): nat
    requires 0 <= lane < WF_SIZE
  {
    var laneMask := ShiftLeft(AllOnes(), lane);
    PopCount(And(active, Not(laneMask)))
  }

  /** Block::lowest_active_lane */
  function LowestActiveLane(active: Word): int { FindFirstSet(active) - 1 }

  /** Number of active lanes below `lane`. */
  function Rank(active: Word, lane: int): nat
    requires 0 <= lane <= WF_SIZE
  { PopCount(active[..lane]) }

  lemma LaneIdIsRank(active: Word, lane: int)
    requires 0 <= lane < WF_SIZE
    ensures ActiveLogicalLaneId(active, lane) == Rank(active, lane)
  {
    var below := And(active, Not(ShiftLeft(AllOnes(), lane)));
    PopCountPrefix(below, lane);
    assert below[..lane] == active[..lane];
  }

  ghost predicate IsLeader(active: Word, lane: int) {
    0 <= lane < WF_SIZE && active[lane] && forall i :: 0 <= i < lane ==> !active[i]
  }

  /** Exactly one active lane has logical id 0, and it is the one that find-first-set names. */
  lemma LeaderIffRankZero(active: Word, lane: int)
    requires 0 <= lane < WF_SIZE && active[lane]
    ensures IsLeader(active, lane) <==> ActiveLogicalLaneId(active, lane) == 0
    ensures IsLeader(active, lane) <==> LowestActiveLane(active) == lane
  {
    LaneIdIsRank(active, lane);
    if IsLeader(active, lane) {
      PopCountZero(active[..lane]);
      FindFromIs(active, 0, lane);
    } else {
      var i := FirstActive(active, lane);
      PopCountPositive(active[..lane], i);
      FindFromIs(active, 0, i);
    }
  }

  lemma {:induction false} FirstActive(active: Word, lane: int) returns (i: int)
    requires 0 <= lane < WF_SIZE && active[lane]
    ensures IsLeader(active, i) && i <= lane
  {
    i := lane;
    if !IsLeader(active, lane) {
      var j :| 0 <= j < lane && active[j];
      i := FirstActive(active, j);
    }
  }

  // ----------------------------------------------------------------- broadcast

  /** `__shfl_up(value, delta)` as lane `lane` sees it. */
  function ShuffleUp(active: Word, values: seq<int>, lane: int, delta: nat): int
    requires |values| == WF_SIZE && 0 <= lane < WF_SIZE
  {
    var from := if lane >= delta then lane - delta else lane;
    if active[from] then values[from] else 0
  }

  /** One lockstep round of `broadcast_up`: all lanes read before any lane writes. */
  function Round(active: Word, values: seq<int>, delta: nat): seq<int>
    requires |values| == WF_SIZE
  {
    seq(WF_SIZE, l requires 0 <= l < WF_SIZE =>
      if active[l] && ShuffleUp(active, values, l, delta) != 0 then ShuffleUp(active, values, l, delta) else values[l])
  }

  /** Block::broadcast_up: every active lane ends with the leader's value, also when that is 0. */
  method BroadcastUp(active: Word, fetched: seq<int>, ghost leader: int) returns (values: seq<int>)
    requires |fetched| == WF_SIZE && IsLeader(active, leader)
    requires forall l :: 0 <= l < WF_SIZE && active[l] && l != leader ==> fetched[l] == 0
    ensures |values| == WF_SIZE
    ensures forall l :: 0 <= l < WF_SIZE && active[l] ==> values[l] == fetched[leader]
  {
    values := fetched;
    var i := 0;
    while i < WF_SIZE
      invariant 0 <= i <= WF_SIZE && |values| == WF_SIZE
      invariant forall l :: 0 <= l < WF_SIZE && active[l] ==> values[l] == 0 || values[l] == fetched[leader]
      invariant forall l :: leader <= l < WF_SIZE && active[l] && (l < leader + i || l == leader) ==> values[l] == fetched[leader]
    {
      values := Round(active, values, i);
      i := i + 1;
    }
  }

  // ----------------------------------------------------------------- fetch_incr

  /** The ticket of an active lane when the counter stood at `base`. */
  function Ticket(base: int, active: Word, lane: int): int
    requires 0 <= lane < WF_SIZE
  { (base + Rank(active, lane)) % TWO_64 }

  /** Block::fetch_incr, executed by all active lanes of a wave. */
  method BlockFetchIncr(active: Word, counter: Counter) returns (tickets: seq<int>)
    requires exists l :: 0 <= l < WF_SIZE && active[l]
    requires 0 <= counter.value < TWO_64
    modifies counter
    ensures counter.value == (old(counter.value) + PopCount(active)) % TWO_64
    ensures |tickets| == WF_SIZE
    ensures forall l :: 0 <= l < WF_SIZE && active[l] ==> tickets[l] == Ticket(old(counter.value), active, l)
  {
    var numActiveLanes := PopCount(active);
    ghost var some :| 0 <= some < WF_SIZE && active[some];
    ghost var leader := FirstActive(active, some);
    forall l | 0 <= l < WF_SIZE && active[l]
      ensures ActiveLogicalLaneId(active, l) == 0 <==> l == leader
    {
      LeaderIffRankZero(active, l);
    }
    // In lockstep: the one lane that finds itself lowest adds, the others keep 0.
    var fetched := seq(WF_SIZE, l requires 0 <= l < WF_SIZE reads counter =>
      if active[l] && ActiveLogicalLaneId(active, l) == 0 then counter.value else 0);
    counter.value := (counter.value + numActiveLanes) % TWO_64;
    var values := BroadcastUp(active, fetched, leader);
    tickets := seq(WF_SIZE, i requires 0 <= i < WF_SIZE => (values[i] + ActiveLogicalLaneId(active, i)) % TWO_64);
    forall i | 0 <= i < WF_SIZE && active[i]
      ensures tickets[i] == Ticket(old(counter.value), active, i)
    {
      LaneIdIsRank(active, i);
    }
  }

  /** Private::fetch_incr */
  method PrivateFetchIncr(counter: Counter) returns (ticket: int)
    modifies counter
    ensures ticket == old(counter.value)
    ensures counter.value == (old(counter.value) + 1) % TWO_64
  {
    var orig := counter.value;
    counter.value := (orig + 1) % TWO_64;
    ticket := orig;
  }

  /** The lanes of a wave that target PE `pe`. */
  function Group(active: Word, target: seq<nat>, pe: nat): Word
    requires |target| == WF_SIZE
  { seq(WF_SIZE, l requires 0 <= l < WF_SIZE => active[l] && target[l] == pe) }

  /**
    ShareStrategy::fetch_incr for BLOCK: the loop over the PEs makes lanes of different targets
    diverge, so each target's counter serves its own group of lanes.
  */
  method StrategyFetchIncr(active: Word, target: seq<nat>, counters: array<Counter>) returns (tickets: seq<int>)
    requires |target| == WF_SIZE
    requires forall i, j :: 0 <= i < j < counters.Length ==> counters[i] != counters[j]
    requires forall i :: 0 <= i < counters.Length ==> 0 <= counters[i].value < TWO_64
    modifies set i | 0 <= i < counters.Length :: counters[i]
    ensures |tickets| == WF_SIZE
    ensures forall l :: 0 <= l < WF_SIZE && active[l] ==>
              tickets[l] == if target[l] < counters.Length
                            then Ticket(old(counters[target[l]].value), Group(active, target, target[l]), l) else 0
    ensures forall i :: 0 <= i < counters.Length ==>
              counters[i].value == (old(counters[i].value) + PopCount(Group(active, target, i))) % TWO_64
  {
    tickets := seq(WF_SIZE, _ => 0);
    for i := 0 to counters.Length
      invariant |tickets| == WF_SIZE
      invariant forall l :: 0 <= l < WF_SIZE && active[l] ==>
                  tickets[l] == if target[l] < i
                                then Ticket(old(counters[target[l]].value), Group(active, target, target[l]), l) else 0
      invariant forall k :: 0 <= k < i ==>
                  counters[k].value == (old(counters[k].value) + PopCount(Group(active, target, k))) % TWO_64
      invariant forall k :: i <= k < counters.Length ==> counters[k].value == old(counters[k].value)
    {
      var group := Group(active, target, i);
      var before := tickets;
      var got := GroupFetchIncr(group, counters[i]);
      tickets := seq(WF_SIZE, l requires 0 <= l < WF_SIZE => if group[l] then got[l] else before[l]);
    }
  }

  /** One iteration of that loop: without a lane in the group nothing is executed. */
  method GroupFetchIncr(group: Word, counter: Counter) returns (tickets: seq<int>)
    requires 0 <= counter.value < TWO_64
    modifies counter
    ensures counter.value == (old(counter.value) + PopCount(group)) % TWO_64
    ensures |tickets| == WF_SIZE
    ensures forall l :: 0 <= l < WF_SIZE && group[l] ==> tickets[l] == Ticket(old(counter.value), group, l)
  {
    if l :| 0 <= l < WF_SIZE && group[l] {
      tickets := BlockFetchIncr(group, counter);
    } else {
      PopCountZero(group);
      SmallDiv(counter.value, TWO_64);
      tickets := seq(WF_SIZE, _ => 0);
    }
  }

  // ------------------------------------------- refinement of the simple counter

  /** What `n` calls of Private::fetch_incr return, one after the other. */
  function OneAtATime(c: int, n: nat): seq<int>
    decreases n
  {
    if n == 0 then [] else [c] + OneAtATime((c + 1) % TWO_64, n - 1)
  }

  /** The tickets of the active lanes below `k`, in lane order. */
  function WaveTicketList(base: int, active: Word, k: nat): seq<int>
    requires k <= WF_SIZE
  {
    if k == 0 then []
    else WaveTicketList(base, active, k - 1) + if active[k - 1] then [Ticket(base, active, k - 1)] else []
  }

  lemma {:induction false} OneAtATimeIs(c: int, n: nat)
    requires 0 <= c < TWO_64
    ensures |OneAtATime(c, n)| == n
    ensures forall i :: 0 <= i < n ==> OneAtATime(c, n)[i] == (c + i) % TWO_64
    decreases n
  {
    if n > 0 {
      SmallDiv(c, TWO_64);
      OneAtATimeIs((c + 1) % TWO_64, n - 1);
      forall i | 1 <= i < n
        ensures OneAtATime(c, n)[i] == (c + i) % TWO_64
      {
        ModAdd(c + 1, i - 1, TWO_64);
      }
    }
  }

  /** Called n times, Private::fetch_incr hands out n tickets one after another and the counter counts the calls. */
  method PrivateTickets(counter: Counter, n: nat) returns (tickets: seq<int>)
    requires 0 <= counter.value < TWO_64
    modifies counter
    ensures tickets == OneAtATime(old(counter.value), n)
    ensures counter.value == (old(counter.value) + n) % TWO_64
  {
    tickets := [];
    ghost var c := counter.value;
    SmallDiv(c, TWO_64);
    for i := 0 to n
      invariant counter.value == (c + i) % TWO_64 && tickets == OneAtATime(c, i)
    {
      var ticket := PrivateFetchIncr(counter);
      NextValue(c + i);
      OneMore(c, i);
      tickets := tickets + [ticket];
    }
  }

  lemma NextValue(x: int)
    ensures (x % TWO_64 + 1) % TWO_64 == (x + 1) % TWO_64
  { ModAdd(x, 1, TWO_64); }

  lemma OneMore(c: int, n: nat)
    requires 0 <= c < TWO_64
    ensures OneAtATime(c, n + 1) == OneAtATime(c, n) + [(c + n) % TWO_64]
  {
    OneAtATimeIs(c, n);
    OneAtATimeIs(c, n + 1);
  }

  lemma {:induction false} WaveTicketListIs(base: int, active: Word, k: nat)
    requires k <= WF_SIZE
    ensures |WaveTicketList(base, active, k)| == Rank(active, k)
    ensures forall i :: 0 <= i < Rank(active, k) ==> WaveTicketList(base, active, k)[i] == (base + i) % TWO_64
  {
    if k > 0 {
      WaveTicketListIs(base, active, k - 1);
      assert active[..k][..k - 1] == active[..k - 1];
    }
  }

  /** One add per wave hands out exactly the tickets of one increment per active lane, in lane order. */
  lemma WaveRefinesCounter(base: int, active: Word)
    requires 0 <= base < TWO_64
    ensures WaveTicketList(base, active, WF_SIZE) == OneAtATime(base, PopCount(active))
  {
    assert active[..WF_SIZE] == active;
    WaveTicketListIs(base, active, WF_SIZE);
    OneAtATimeIs(base, PopCount(active));
  }

  // --------------------------------------------------- any interleaving of waves

  /** A wave has not added yet, has added and is broadcasting, or has returned. */
  datatype Phase = Waiting | Added(base: int) | Returned(tickets: seq<int>)

  datatype Machine = Machine(counter: int, phase: seq<Phase>)

  /** The next action of wave `w`; only the atomic add touches shared memory. */
  function Exec(waves: seq<Word>, m: Machine, w: int): Machine
    requires |m.phase| == |waves|
  {
    if !(0 <= w < |waves|) then m
    else match m.phase[w]
      case Waiting => Machine((m.counter + PopCount(waves[w])) % TWO_64, m.phase[w := Added(m.counter)])
      case Added(base) => m.(phase := m.phase[w := Returned(WaveTicketList(base, waves[w], WF_SIZE))])
      case Returned(_) => m
  }

  function Run(waves: seq<Word>, c: int, sched: seq<int>): (m: Machine)
    ensures |m.phase| == |waves|
  {
    if sched == [] then Machine(c, seq(|waves|, _ => Waiting))
    else Exec(waves, Run(waves, c, sched[..|sched| - 1]), sched[|sched| - 1])
  }

  /** Every wave gets its turn: its first action adds, its second returns, and nobody else's action concerns it. */
  lemma {:induction false} PhaseIs(waves: seq<Word>, c: int, sched: seq<int>, w: int)
    requires 0 <= w < |waves|
    ensures var phase := Run(waves, c, sched).phase[w];
      match multiset(sched)[w]
      case 0 => phase.Waiting?
      case 1 => phase.Added?
      case _ => phase.Returned? && |phase.tickets| == PopCount(waves[w])
  {
    if sched != [] {
      PhaseIs(waves, c, sched[..|sched| - 1], w);
      assert sched == sched[..|sched| - 1] + [sched[|sched| - 1]];
      var phase := Run(waves, c, sched[..|sched| - 1]).phase[w];
      if phase.Added? {
        assert waves[w][..WF_SIZE] == waves[w];
        WaveTicketListIs(phase.base, waves[w], WF_SIZE);
      }
    }
  }

  /** How often ticket `t` has been handed out to a lane of the waves below `n`. */
  function Issued(waves: seq<Word>, phase: seq<Phase>, n: nat, t: int): nat
    requires |phase| == |waves| && n <= |waves|
  {
    if n == 0 then 0 else Issued(waves, phase, n - 1, t) + IssuedBy(waves[n - 1], phase[n - 1], t)
  }

  function IssuedBy(wave: Word, phase: Phase, t: int): nat {
    match phase
    case Waiting => 0
    case Added(base) => multiset(WaveTicketList(base, wave, WF_SIZE))[t]
    case Returned(tickets) => multiset(tickets)[t]
  }

  /** How many lanes have been served. */
  function Served(waves: seq<Word>, phase: seq<Phase>, n: nat): nat
    requires |phase| == |waves| && n <= |waves|
  {
    if n == 0 then 0 else Served(waves, phase, n - 1) + if phase[n - 1].Waiting? then 0 else PopCount(waves[n - 1])
  }

  /** The tickets of a simple counter that starts at `c`. */
  function From(c: int): int -> int { k => (c + k) % TWO_64 }

  lemma {:induction false} OccurrencesTally(s: seq<int>, c: int, t: int)
    requires forall i :: 0 <= i < |s| ==> s[i] == (c + i) % TWO_64
    ensures multiset(s)[t] == Tally(From(c), 0, |s|, t)
  {
    if s != [] {
      OccurrencesTally(s[..|s| - 1], c, t);
      assert s == s[..|s| - 1] + [s[|s| - 1]];
    }
  }

  lemma FromShifted(c: int, n: nat, m: nat, t: int)
    ensures Tally(From((c + n) % TWO_64), 0, m, t) == Tally(From(c), n, m, t)
  {
    var (f, g) := (From((c + n) % TWO_64), From(c));
    forall k | 0 <= k < m
      ensures f(k) == g(n + k)
    {
      ModAdd(c + n, k, TWO_64);
    }
    TallyShift(f, g, n, m, t);
  }

  lemma {:induction false} UpdateSums(waves: seq<Word>, phase: seq<Phase>, w: int, p: Phase, n: nat, t: int)
    requires |phase| == |waves| && n <= |waves| && 0 <= w < |waves|
    ensures Issued(waves, phase[w := p], n, t) == Issued(waves, phase, n, t)
              + if w < n then IssuedBy(waves[w], p, t) - IssuedBy(waves[w], phase[w], t) else 0
    ensures Served(waves, phase[w := p], n) == Served(waves, phase, n)
              + if w < n then (if p.Waiting? then 0 else PopCount(waves[w])) - (if phase[w].Waiting? then 0 else PopCount(waves[w])) else 0
  {
    if n > 0 { UpdateSums(waves, phase, w, p, n - 1, t); }
  }

  /** The counter and the tickets of a state are those of a simple counter that served as many callers. */
  ghost predicate LikeSimpleCounter(waves: seq<Word>, c: int, m: Machine, t: int)
    requires |m.phase| == |waves|
  {
    var served := Served(waves, m.phase, |waves|);
    && m.counter == From(c)(served)
    && Issued(waves, m.phase, |waves|, t) == Tally(From(c), 0, served, t)
  }

  lemma {:induction false} TicketsOverAllRuns(waves: seq<Word>, c: int, sched: seq<int>, t: int)
    requires 0 <= c < TWO_64
    ensures LikeSimpleCounter(waves, c, Run(waves, c, sched), t)
  {
    if sched == [] {
      SmallDiv(c, TWO_64);
      NothingIssued(waves, Run(waves, c, sched).phase, |waves|, t);
    } else {
      TicketsOverAllRuns(waves, c, sched[..|sched| - 1], t);
      TicketsStep(waves, c, Run(waves, c, sched[..|sched| - 1]), sched[|sched| - 1], t);
    }
  }

  lemma TicketsStep(waves: seq<Word>, c: int, m: Machine, w: int, t: int)
    requires |m.phase| == |waves| && LikeSimpleCounter(waves, c, m, t)
    ensures LikeSimpleCounter(waves, c, Exec(waves, m, w), t)
  {
    if 0 <= w < |waves| {
      if m.phase[w].Waiting? {
        AddStep(waves, c, m, w, t);
      } else if m.phase[w].Added? {
        ReturnStep(waves, c, m, w, t);
      }
    }
  }

  /** A wave that returns keeps the tickets its add gave it. */
  lemma ReturnStep(waves: seq<Word>, c: int, m: Machine, w: int, t: int)
    requires |m.phase| == |waves| && LikeSimpleCounter(waves, c, m, t) && 0 <= w < |waves| && m.phase[w].Added?
    ensures LikeSimpleCounter(waves, c, Exec(waves, m, w), t)
  {
    UpdateSums(waves, m.phase, w, Returned(WaveTicketList(m.phase[w].base, waves[w], WF_SIZE)), |waves|, t);
  }

  /** The add of a wave serves all its lanes at once. */
  lemma AddSums(waves: seq<Word>, m: Machine, w: int, t: int)
    requires |m.phase| == |waves| && 0 <= w < |waves| && m.phase[w].Waiting?
    ensures var phase' := m.phase[w := Added(m.counter)];
      && Served(waves, phase', |waves|) == Served(waves, m.phase, |waves|) + PopCount(waves[w])
      && Issued(waves, phase', |waves|, t) == Issued(waves, m.phase, |waves|, t) + Tally(From(m.counter), 0, PopCount(waves[w]), t)
  {
    UpdateSums(waves, m.phase, w, Added(m.counter), |waves|, t);
    WaveOccurrences(m.counter, waves[w], t);
  }

  lemma AddStep(waves: seq<Word>, c: int, m: Machine, w: int, t: int)
    requires |m.phase| == |waves| && LikeSimpleCounter(waves, c, m, t) && 0 <= w < |waves| && m.phase[w].Waiting?
    ensures LikeSimpleCounter(waves, c, Exec(waves, m, w), t)
  {
    AddSums(waves, m, w, t);
    AddNumbers(c, Served(waves, m.phase, |waves|), PopCount(waves[w]), m.counter, t);
  }

  lemma AddNumbers(c: int, served: nat, n: nat, base: int, t: int)
    requires base == From(c)(served)
    ensures (base + n) % TWO_64 == From(c)(served + n)
    ensures Tally(From(c), 0, served, t) + Tally(From(base), 0, n, t) == Tally(From(c), 0, served + n, t)
  {
    CounterAdds(c, served, n);
    TallyAdds(c, served, n, base, t);
  }

  lemma CounterAdds(c: int, served: nat, n: nat)
    ensures (From(c)(served) + n) % TWO_64 == From(c)(served + n)
  {
    ModAdd(c + served, n, TWO_64);
  }

  lemma TallyAdds(c: int, served: nat, n: nat, base: int, t: int)
    requires base == From(c)(served)
    ensures Tally(From(c), 0, served, t) + Tally(From(base), 0, n, t) == Tally(From(c), 0, served + n, t)
  {
    FromShifted(c, served, n, t);
    TallyJoin(From(c), 0, served, n, t);
  }

  lemma WaveOccurrences(base: int, wave: Word, t: int)
    ensures multiset(WaveTicketList(base, wave, WF_SIZE))[t] == Tally(From(base), 0, PopCount(wave), t)
  {
    assert wave[..WF_SIZE] == wave;
    WaveTicketListIs(base, wave, WF_SIZE);
    OccurrencesTally(WaveTicketList(base, wave, WF_SIZE), base, t);
  }

  lemma {:induction false} NothingIssued(waves: seq<Word>, phase: seq<Phase>, n: nat, t: int)
    requires |phase| == |waves| && n <= |waves| && forall i :: 0 <= i < |waves| ==> phase[i] == Waiting
    ensures Issued(waves, phase, n, t) == 0 && Served(waves, phase, n) == 0
  {
    if n > 0 { NothingIssued(waves, phase, n - 1, t); }
  }

  /** As long as fewer than 2^64 lanes were served, tickets are distinct and leave no gap. */
  lemma TicketsDistinctGapFree(waves: seq<Word>, c: int, sched: seq<int>, k: nat)
    requires 0 <= c < TWO_64
    requires Served(waves, Run(waves, c, sched).phase, |waves|) <= TWO_64 && k < TWO_64
    ensures var m := Run(waves, c, sched);
            Issued(waves, m.phase, |waves|, (c + k) % TWO_64) == if k < Served(waves, m.phase, |waves|) then 1 else 0
  {
    TicketsOverAllRuns(waves, c, sched, (c + k) % TWO_64);
    TicketsOfSimpleCounter(c, Served(waves, Run(waves, c, sched).phase, |waves|), k);
  }

  /** A simple counter that has served at most 2^64 callers has given ticket number k once if it came to it. */
  lemma TicketsOfSimpleCounter(c: int, served: nat, k: nat)
    requires served <= TWO_64 && k < TWO_64
    ensures Tally(From(c), 0, served, (c + k) % TWO_64) == if k < served then 1 else 0
  {
    var t := (c + k) % TWO_64;
    forall i | 0 <= i < TWO_64 && i != k
      ensures From(c)(i) != t
    {
      DistinctModulo(c, i, k);
    }
    if k < served { TallyOnce(From(c), 0, served, t, k); } else { TallyNone(From(c), 0, served, t); }
  }

  lemma DistinctModulo(c: int, i: int, k: int)
    requires 0 <= i < TWO_64 && 0 <= k < TWO_64 && i != k
    ensures (c + i) % TWO_64 != (c + k) % TWO_64
  {
    DivBounds(c + i, TWO_64);
    DivBounds(c + k, TWO_64);
  }
}
