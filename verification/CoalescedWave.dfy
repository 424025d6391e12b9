/**
  When a whole wave moves exactly the requested bytes.  Equal bytes have equal
  totals, and a leader that sends a wrong size sends fewer bytes than its span
  asked for, unless it sends nearly 2^64.  So below that total no leader can make
  up for what another one misses.
*/
module CoalescedWave {
  import opened Arithmetic
  import opened Coalescer
  import opened Counting
  import opened Wave

  /** No wave that asks for fewer bytes can be right by accident. */
  const COMPENSATION := TWO_64 - TWO_31

  // ------------------------------------------------------------ bytes as a multiset

  function List(at: int -> Byte, n: nat): (s: seq<Byte>)
    ensures |s| == n
  {
    if n == 0 then [] else List(at, n - 1) + [at(n - 1)]
  }

  lemma {:induction false} ListCounts(at: int -> Byte, n: nat, b: Byte)
    ensures multiset(List(at, n))[b] == Tally(at, 0, n, b)
  {
    if n > 0 { ListCounts(at, n - 1, b); }
  }

  /** The bytes that those of the lanes from `lane` on that are in `who` move. */
  function Bytes(who: Word, msg: seq<Msg>, lane: int): seq<Byte>
    requires |msg| == WF_SIZE && 0 <= lane <= WF_SIZE
    decreases WF_SIZE - lane
  {
    if lane == WF_SIZE then []
    else if who[lane] then Bytes(who, msg, lane + 1) + List(Moves(msg[lane].pe, msg[lane].src, msg[lane].dst), msg[lane].size)
    else Bytes(who, msg, lane + 1)
  }

  /** The sum of the sizes of the lanes from `lane` on that are in `who`. */
  function Sum(who: Word, sizes: seq<int>, lane: int): int
    requires |sizes| == WF_SIZE && 0 <= lane <= WF_SIZE
    decreases WF_SIZE - lane
  {
    if lane == WF_SIZE then 0 else Sum(who, sizes, lane + 1) + if who[lane] then sizes[lane] else 0
  }

  function Sizes(msg: seq<Msg>): (s: seq<int>)
    ensures |s| == |msg| && forall i :: 0 <= i < |s| ==> s[i] == msg[i].size
  { seq(|msg|, i requires 0 <= i < |msg| => msg[i].size) }

  lemma {:induction false} BytesCount(who: Word, msg: seq<Msg>, lane: int, b: Byte)
    requires |msg| == WF_SIZE && 0 <= lane <= WF_SIZE
    ensures multiset(Bytes(who, msg, lane))[b] == BytesFrom(who, msg, lane, b)
    decreases WF_SIZE - lane
  {
    if lane < WF_SIZE {
      BytesCount(who, msg, lane + 1, b);
      ListCounts(Moves(msg[lane].pe, msg[lane].src, msg[lane].dst), msg[lane].size, b);
    }
  }

  lemma {:induction false} BytesLength(who: Word, msg: seq<Msg>, lane: int)
    requires |msg| == WF_SIZE && 0 <= lane <= WF_SIZE
    ensures |Bytes(who, msg, lane)| == Sum(who, Sizes(msg), lane)
    decreases WF_SIZE - lane
  {
    if lane < WF_SIZE { BytesLength(who, msg, lane + 1); }
  }

  /** The number of bytes the active lanes ask for. */
  function Asked(r: Request): int
    requires r.Valid()
  { Sum(r.active, Sizes(r.msg), 0) }

  lemma EqualMultisets(s: seq<Byte>, t: seq<Byte>)
    requires forall b :: multiset(s)[b] == multiset(t)[b]
    ensures |s| == |t|
  {
    assert multiset(s) == multiset(t);
    assert |multiset(s)| == |s| && |multiset(t)| == |t|;
  }

  lemma EqualBytesEqualTotals(r: Request, wide: WideShift)
    requires r.Valid() && forall b :: Sent(r, wide, b) == Requested(r, b)
    ensures Sum(Leaders(r), Sizes(Outgoing(r, wide)), 0) == Asked(r)
  {
    var (s, t) := (Bytes(Leaders(r), Outgoing(r, wide), 0), Bytes(r.active, r.msg, 0));
    forall b
      ensures multiset(s)[b] == multiset(t)[b]
    {
      BytesCount(Leaders(r), Outgoing(r, wide), 0, b);
      BytesCount(r.active, r.msg, 0, b);
      assert Sent(r, wide, b) == Requested(r, b);
    }
    EqualMultisets(s, t);
    BytesLength(Leaders(r), Outgoing(r, wide), 0);
    BytesLength(r.active, r.msg, 0);
  }

  // ------------------------------------------------------------- totals of the spans

  function SpanTotals(r: Request): (s: seq<int>)
    requires r.Valid()
    ensures |s| == WF_SIZE && forall i :: 0 <= i < WF_SIZE ==> s[i] == SpanTotal(r, i)
  { seq(WF_SIZE, i requires 0 <= i < WF_SIZE => SpanTotal(r, i)) }

  /** Entry i is the total of the run that starts at lane i. */
  ghost predicate RunTotal(coal: Word, msg: seq<Msg>, totals: seq<int>, i: int)
    requires |msg| == |totals| == WF_SIZE && 0 <= i < WF_SIZE
  {
    var n := Followers(coal, i + 1) + 1;
    i + n <= WF_SIZE && totals[i] == Total(msg, i, n)
  }

  lemma {:induction false} RunTotalsAddUp(active: Word, coal: Word, msg: seq<Msg>, leads: Word, totals: seq<int>, lane: int)
    requires |msg| == |totals| == WF_SIZE && 0 <= lane <= WF_SIZE
    requires forall i :: 0 <= i < WF_SIZE ==> (leads[i] <==> active[i] && !coal[i])
    requires forall i :: 0 <= i < WF_SIZE && !active[i] ==> Followers(coal, i) == 0 == Followers(coal, i + 1)
    requires forall i :: 0 <= i < WF_SIZE ==> RunTotal(coal, msg, totals, i)
    ensures lane + Followers(coal, lane) <= WF_SIZE
    ensures Sum(active, Sizes(msg), lane) == Total(msg, lane, Followers(coal, lane)) + Sum(leads, totals, lane)
    decreases WF_SIZE - lane
  {
    if lane < WF_SIZE {
      RunTotalsAddUp(active, coal, msg, leads, totals, lane + 1);
      assert RunTotal(coal, msg, totals, lane);
      TotalFromFront(msg, lane, Followers(coal, lane + 1) + 1);
      assert Total(msg, lane, 0) == 0;
    }
  }

  /** The spans' totals add up to what was asked for. */
  lemma SpansAddUp(r: Request)
    requires r.Valid()
    ensures Sum(Leaders(r), SpanTotals(r), 0) == Asked(r)
  {
    var coal := LowerNeighborCoal(r);
    forall i | 0 <= i < WF_SIZE && !r.active[i]
      ensures Followers(coal, i) == 0 == Followers(coal, i + 1)
    { InactiveBreaksRun(r, i); }
    forall i | 0 <= i < WF_SIZE
      ensures RunTotal(coal, r.msg, SpanTotals(r), i)
    { FollowersExact(coal, i + 1); }
    RunTotalsAddUp(r.active, coal, r.msg, Leaders(r), SpanTotals(r), 0);
    assert !coal[0];
    assert Total(r.msg, 0, 0) == 0;
  }

  // ------------------------------------------------------- what a leader sends at most

  lemma SignedPattern(x: int, total: nat)
    requires x % TWO_32 == total % TWO_32
    ensures Wrap64(Int32(x)) <= total || Wrap64(Int32(x)) >= COMPENSATION
  {
    DivBounds(total, TWO_32);
    var t := total % TWO_32;
    if t < TWO_31 { SmallDiv(t, TWO_64); } else { Quotient(t - TWO_32, TWO_64, -1); }
  }

  /** No more than its span asked for, or nearly 2^64. */
  lemma ChainSentBound(msg: seq<Msg>, lane: int, n: nat)
    requires Chain(msg, lane, n) && 1 <= n
    ensures CombinedSize(msg[lane].size, n) <= Total(msg, lane, n) || CombinedSize(msg[lane].size, n) >= COMPENSATION
  {
    var (size, rest) := (msg[lane].size, msg[lane].size * (n - 1));
    TotalCongruent(msg, lane, n);
    TotalBounds(msg, lane, n);
    assert size * n == size + rest;
    CombinedCongruent(size, rest);
    SignedPattern(Wrap64(Wrap64(Int32(size)) + rest), Total(msg, lane, n));
  }

  lemma SentBound(r: Request, leader: int, wide: WideShift)
    requires r.Valid() && 0 <= leader < WF_SIZE
    ensures 0 <= SentSize(r, leader, wide) <= SpanTotal(r, leader) || SentSize(r, leader, wide) >= COMPENSATION
    ensures SpanTotal(r, leader) >= 0
  {
    SpanSize(r, leader, wide);
    SpanIsChain(r, leader);
    var n := Followers(LowerNeighborCoal(r), leader + 1) + 1;
    ChainSentBound(r.msg, leader, n);
    TotalBounds(r.msg, leader, n);
  }

  // -------------------------------------------------------------------- the theorem

  lemma {:induction false} SumAtLeast(who: Word, sizes: seq<int>, lane: int, i: int)
    requires |sizes| == WF_SIZE && 0 <= lane <= i < WF_SIZE && who[i] && forall k :: 0 <= k < WF_SIZE ==> sizes[k] >= 0
    ensures Sum(who, sizes, lane) >= sizes[i]
    decreases WF_SIZE - lane
  {
    if lane < i { SumAtLeast(who, sizes, lane + 1, i); } else { SumNotNegative(who, sizes, lane + 1); }
  }

  lemma {:induction false} SumNotNegative(who: Word, sizes: seq<int>, lane: int)
    requires |sizes| == WF_SIZE && 0 <= lane <= WF_SIZE && forall k :: 0 <= k < WF_SIZE ==> sizes[k] >= 0
    ensures Sum(who, sizes, lane) >= 0
    decreases WF_SIZE - lane
  {
    if lane < WF_SIZE { SumNotNegative(who, sizes, lane + 1); }
  }

  lemma {:induction false} SumMonotone(who: Word, a: seq<int>, b: seq<int>, lane: int)
    requires |a| == |b| == WF_SIZE && 0 <= lane <= WF_SIZE && forall k :: 0 <= k < WF_SIZE && who[k] ==> a[k] <= b[k]
    ensures Sum(who, a, lane) <= Sum(who, b, lane)
    ensures Sum(who, a, lane) == Sum(who, b, lane) ==> forall k :: lane <= k < WF_SIZE && who[k] ==> a[k] == b[k]
    decreases WF_SIZE - lane
  {
    if lane < WF_SIZE { SumMonotone(who, a, b, lane + 1); }
  }

  lemma EqualBytesSendSpans(r: Request, wide: WideShift, leader: int)
    requires r.Valid() && Asked(r) < COMPENSATION && (forall b :: Sent(r, wide, b) == Requested(r, b))
    requires 0 <= leader < WF_SIZE && MustSend(r, leader)
    ensures SentSize(r, leader, wide) == SpanTotal(r, leader)
  {
    var (leads, sent, totals) := (Leaders(r), Sizes(Outgoing(r, wide)), SpanTotals(r));
    EqualBytesEqualTotals(r, wide);
    SpansAddUp(r);
    forall k | 0 <= k < WF_SIZE && leads[k]
      ensures sent[k] <= totals[k]
    {
      SumAtLeast(leads, sent, 0, k);
      SentBound(r, k, wide);
    }
    SumMonotone(leads, sent, totals, 0);
    assert leads[leader] && sent[leader] == SentSize(r, leader, wide);
  }

  lemma SpanBelow(r: Request, wide: WideShift, leader: int)
    requires r.Valid() && Asked(r) < COMPENSATION && 0 <= leader < WF_SIZE && MustSend(r, leader)
    ensures SpanTotal(r, leader) < COMPENSATION
  {
    SpansAddUp(r);
    forall k | 0 <= k < WF_SIZE
      ensures SpanTotals(r)[k] >= 0
    { SentBound(r, k, wide); }
    assert Leaders(r)[leader];
    SumAtLeast(Leaders(r), SpanTotals(r), 0, leader);
  }

  /**
    A wave that asks for fewer than 2^64 - 2^31 bytes in all moves exactly the requested bytes, each as
    often, if and only if every leader's total survives its conversion to `int`.
  */
  lemma WaveExactIff(r: Request, wide: WideShift)
    requires r.Valid() && Asked(r) < COMPENSATION
    ensures (forall b :: Sent(r, wide, b) == Requested(r, b)) <==> SpansSurvive(r)
  {
    if SpansSurvive(r) {
      forall b
        ensures Sent(r, wide, b) == Requested(r, b)
      { CoalescingPreservesBytes(r, wide, b); }
    }
    if forall b :: Sent(r, wide, b) == Requested(r, b) {
      forall lane | 0 <= lane < WF_SIZE && MustSend(r, lane)
        ensures Survives(r.msg[lane].size, SpanTotal(r, lane))
      {
        EqualBytesSendSpans(r, wide, lane);
        SpanBelow(r, wide, lane);
        SentSizeExact(r, lane, wide);
      }
    }
  }

  /** The bound cannot be raised: at 2^64 - 2^31 bytes two wrong leaders can be right together. */
  lemma BoundIsTight(r: Request, wide: WideShift)
    requires Compensating(r)
    ensures Asked(r) == COMPENSATION && !SpansSurvive(r) && forall b :: Sent(r, wide, b) == Requested(r, b)
  {
    forall b
      ensures Sent(r, wide, b) == Requested(r, b)
    { LeadersCanCompensate(r, wide, b); }
    NeitherSurvives(r, wide);
    CompensatingSizes(r, wide);
    NothingSummed(r.active, Sizes(r.msg), 2);
  }

  lemma {:induction false} NothingSummed(who: Word, sizes: seq<int>, lane: int)
    requires |sizes| == WF_SIZE && 0 <= lane <= WF_SIZE && forall i :: lane <= i < WF_SIZE ==> !who[i]
    ensures Sum(who, sizes, lane) == 0
    decreases WF_SIZE - lane
  {
    if lane < WF_SIZE { NothingSummed(who, sizes, lane + 1); }
  }
}
