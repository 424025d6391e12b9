/**
  The wavefront message coalescer (src/wf_coal_policy.cpp): neighbouring lanes
  whose messages continue one another are sent as one message by the lowest lane
  of the run.  All widths are modelled: 64-bit addresses with wrap-around,
  32-bit shuffles, the `int` that holds the combined size.
*/
module Coalescer {
  import opened Wave
  import opened Arithmetic
  import opened Counting

  const TWO_31 := 0x8000_0000
  const TWO_32 := 0x1_0000_0000

  type U64 = x: int | 0 <= x < TWO_64

  datatype Msg = Msg(pe: int, src: U64, dst: U64, size: U64)

  /** What each lane passed in; the entry of an inactive lane is whatever a shuffle from it returns. */
  datatype Request = Request(active: Word, msg: seq<Msg>)
  {
    ghost predicate Valid() { |msg| == WF_SIZE }
  }

  // ------------------------------------------------------------------ program

  function Low(x: U64): int { x % TWO_32 }

  function High(x: U64): int { x / TWO_32 % TWO_32 }

  /** (high << 32) | low; the two operands have no bit in common, so the OR is a sum. */
  function Recombine(high: int, low: int): int { high * TWO_32 % TWO_64 + low }

  function Wrap64(x: int): U64 { x % TWO_64 }

  function Int32(x: int): int { if x % TWO_32 < TWO_31 then x % TWO_32 else x % TWO_32 - TWO_32 }

  predicate Coalescable(r: Request, lane: int)
    requires r.Valid() && 0 <= lane < WF_SIZE
  {
    lane != 0 &&
    var (mine, lower) := (r.msg[lane], r.msg[lane - 1]);
    var lowerSrc := Recombine(High(lower.src), Low(lower.src));
    var lowerDst := Recombine(High(lower.dst), Low(lower.dst));
    && r.active[lane - 1]
    && lower.size % TWO_32 == mine.size
    && Wrap64(lowerSrc + mine.size) == mine.src
    && Wrap64(lowerDst + mine.size) == mine.dst
    && mine.pe == lower.pe
  }

  /** The ballot of the coalescable lanes; inactive lanes contribute 0. */
  function LowerNeighborCoal(r: Request): Word
    requires r.Valid()
  { seq(WF_SIZE, i requires 0 <= i < WF_SIZE => r.active[i] && Coalescable(r, i)) }

  /** `coalMsgs` as the leader `lane` computes it from the ballot. */
  function CoalMsgs(coal: Word, lane: int, wide: WideShift): int
    requires 0 <= lane < WF_SIZE
  { FindFirstSet(Not(ShiftRight(coal, lane + 1, wide))) }

  /** The size that ends up in `*size` of a lane that must send. */
  function CombinedSize(size: U64, coalMsgs: int): U64 {
    var coalSize := Int32(size);
    if coalMsgs != 0 then Wrap64(Int32(Wrap64(Wrap64(coalSize) + size * (coalMsgs - 1)))) else Wrap64(coalSize)
  }

  function SentSize(r: Request, lane: int, wide: WideShift): U64
    requires r.Valid() && 0 <= lane < WF_SIZE
  { CombinedSize(r.msg[lane].size, CoalMsgs(LowerNeighborCoal(r), lane, wide)) }

  predicate MustSend(r: Request, lane: int)
    requires r.Valid() && 0 <= lane < WF_SIZE
  { r.active[lane] && !LowerNeighborCoal(r)[lane] }

  // ------------------------------------------------- what coalescable means

  /** `b` starts where a message of its own size at the place of `a` would end. */
  predicate Continues(a: Msg, b: Msg) {
    && a.pe == b.pe && b.size == a.size % TWO_32
    && b.src == Wrap64(a.src + b.size) && b.dst == Wrap64(a.dst + b.size)
  }

  lemma RecombineIsIdentity(x: U64)
    ensures Recombine(High(x), Low(x)) == x
  {}

  /** The 32-bit shuffles lose nothing of the addresses: a lane coalesces exactly with an active lower lane it continues. */
  lemma CoalescableIff(r: Request, lane: int)
    requires r.Valid() && 0 <= lane < WF_SIZE
    ensures Coalescable(r, lane) <==> lane > 0 && r.active[lane - 1] && Continues(r.msg[lane - 1], r.msg[lane])
  {
    if lane > 0 {
      RecombineIsIdentity(r.msg[lane - 1].src);
      RecombineIsIdentity(r.msg[lane - 1].dst);
    }
  }

  // ----------------------------------------------------------------- the runs

  /** How many bits from `lane` on are set without a break. */
  function Followers(coal: Word, lane: int): nat
    requires 0 <= lane <= WF_SIZE
    decreases WF_SIZE - lane
  {
    if lane < WF_SIZE && coal[lane] then 1 + Followers(coal, lane + 1) else 0
  }

  lemma {:induction false} FollowersExact(coal: Word, lane: int)
    requires 0 <= lane <= WF_SIZE
    ensures lane + Followers(coal, lane) <= WF_SIZE
    ensures forall i :: lane <= i < lane + Followers(coal, lane) ==> coal[i]
    ensures var top := lane + Followers(coal, lane); top < WF_SIZE ==> !coal[top]
    decreases WF_SIZE - lane
  {
    if lane < WF_SIZE && coal[lane] { FollowersExact(coal, lane + 1); }
  }

  /** The shift, inversion and find-first-set count exactly the followers, also for lane 63 under either reading. */
  lemma CoalMsgsExact(coal: Word, lane: int, wide: WideShift)
    requires 0 <= lane < WF_SIZE && !coal[0]
    ensures CoalMsgs(coal, lane, wide) == Followers(coal, lane + 1) + 1
  {
    var word := Not(ShiftRight(coal, lane + 1, wide));
    FollowersExact(coal, lane + 1);
    var k := Followers(coal, lane + 1);
    assert word[k];
    assert forall j :: 0 <= j < k ==> !word[j];
    FindFromIs(word, 0, k);
  }

  /** A leader's span: its own lane and the lanes that follow it. */
  predicate InSpan(r: Request, leader: int, lane: int)
    requires r.Valid() && 0 <= leader < WF_SIZE
  { MustSend(r, leader) && leader <= lane <= leader + Followers(LowerNeighborCoal(r), leader + 1) }

  /** The spans of the sending lanes are runs that cannot be extended, and they split the active lanes exactly. */
  lemma SpansPartition(r: Request, lane: int)
    requires r.Valid() && 0 <= lane < WF_SIZE
    ensures r.active[lane] <==> exists leader :: 0 <= leader < WF_SIZE && InSpan(r, leader, lane)
    ensures forall a, b :: 0 <= a < WF_SIZE && 0 <= b < WF_SIZE && InSpan(r, a, lane) && InSpan(r, b, lane) ==> a == b
  {
    var coal := LowerNeighborCoal(r);
    forall a | 0 <= a < WF_SIZE && InSpan(r, a, lane)
      ensures r.active[lane] && (forall b :: a < b <= lane ==> coal[b])
    {
      FollowersExact(coal, a + 1);
      assert lane > a ==> coal[lane];
    }
    if r.active[lane] {
      var leader := LeaderOf(r, lane);
      assert InSpan(r, leader, lane);
    }
  }

  lemma {:induction false} LeaderOf(r: Request, lane: int) returns (leader: int)
    requires r.Valid() && 0 <= lane < WF_SIZE && r.active[lane]
    ensures 0 <= leader <= lane && InSpan(r, leader, lane)
  {
    if MustSend(r, lane) {
      leader := lane;
    } else {
      CoalescableIff(r, lane);
      leader := LeaderOf(r, lane - 1);
      FollowersReach(LowerNeighborCoal(r), leader + 1, lane);
    }
  }

  lemma {:induction false} FollowersReach(coal: Word, from: int, lane: int)
    requires 0 <= from <= lane < WF_SIZE && lane <= from + Followers(coal, from) && coal[lane]
    ensures lane < from + Followers(coal, from)
    decreases lane - from
  {
    if from < lane { FollowersReach(coal, from + 1, lane); }
  }

  ghost predicate ContinuesAt(msg: seq<Msg>, i: int) { 0 < i < |msg| && Continues(msg[i - 1], msg[i]) }

  /** `n` messages from `lane` on, each continuing the one before. */
  ghost predicate Chain(msg: seq<Msg>, lane: int, n: nat) {
    0 <= lane && lane + n <= |msg| && forall i :: lane < i < lane + n ==> ContinuesAt(msg, i)
  }

  lemma SpanIsChain(r: Request, lane: int)
    requires r.Valid() && 0 <= lane < WF_SIZE
    ensures Chain(r.msg, lane, Followers(LowerNeighborCoal(r), lane + 1) + 1)
  {
    FollowersExact(LowerNeighborCoal(r), lane + 1);
    forall i | lane < i < lane + Followers(LowerNeighborCoal(r), lane + 1) + 1
      ensures ContinuesAt(r.msg, i)
    {
      assert LowerNeighborCoal(r)[i];
      CoalescableIff(r, i);
    }
  }

  // ---------------------------------------------------------- the combined size

  /** Sum of the sizes of `n` messages from `lane` on. */
  function Total(msg: seq<Msg>, lane: int, n: nat): int
    requires 0 <= lane && lane + n <= |msg|
  {
    if n == 0 then 0 else Total(msg, lane, n - 1) + msg[lane + n - 1].size
  }

  /** All bytes requested by the lanes of a leader's span. */
  function SpanTotal(r: Request, leader: int): int
    requires r.Valid() && 0 <= leader < WF_SIZE
  {
    FollowersExact(LowerNeighborCoal(r), leader + 1);
    Total(r.msg, leader, Followers(LowerNeighborCoal(r), leader + 1) + 1)
  }

  /** Up to multiples of 2^32 all messages of a chain have the first one's size. */
  lemma {:induction false} TotalCongruent(msg: seq<Msg>, lane: int, n: nat)
    requires Chain(msg, lane, n) && 1 <= n
    ensures Total(msg, lane, n) % TWO_32 == (msg[lane].size * n) % TWO_32
    ensures msg[lane + n - 1].size % TWO_32 == msg[lane].size % TWO_32
    ensures n > 1 ==> msg[lane + n - 1].size == msg[lane].size % TWO_32
  {
    if n > 1 {
      TotalCongruent(msg, lane, n - 1);
      var (s, last) := (msg[lane].size, msg[lane + n - 1].size);
      assert ContinuesAt(msg, lane + n - 1);
      SmallDiv(last, TWO_32);
      assert s * n == s * (n - 1) + s;
      SumCongruent(Total(msg, lane, n - 1), s * (n - 1), last, s);
    } else {
      assert Total(msg, lane, 0) == 0;
    }
  }

  lemma SumCongruent(a: int, b: int, c: int, d: int)
    requires a % TWO_32 == b % TWO_32 && c % TWO_32 == d % TWO_32
    ensures (a + c) % TWO_32 == (b + d) % TWO_32
  {
    ModAdd(a, c, TWO_32);
    ModAdd(b, c, TWO_32);
    ModAdd(c, b, TWO_32);
    ModAdd(d, b, TWO_32);
  }

  lemma {:induction false} TotalBounds(msg: seq<Msg>, lane: int, n: nat)
    requires 0 <= lane && lane + n <= |msg|
    ensures Total(msg, lane, n) >= 0
    ensures forall i :: lane <= i < lane + n ==> msg[i].size <= Total(msg, lane, n)
  {
    if n > 0 { TotalBounds(msg, lane, n - 1); }
  }

  lemma CombinedCongruent(size: U64, rest: int)
    ensures Wrap64(Wrap64(Int32(size)) + rest) % TWO_32 == (size + rest) % TWO_32
  {
    ModAdd(Int32(size), rest, TWO_64);
    ModOfMultiple(Int32(size) + rest, TWO_32, TWO_32, TWO_64);
    Int32Congruent(size);
    SumCongruent(Int32(size), size, rest, rest);
  }

  /** Adding in 64 bits and storing in an `int` keeps a total exactly if its 64-bit pattern is a sign-extended one. */
  lemma Truncation(size: U64, rest: int, total: int)
    requires 0 <= total && total % TWO_32 == (size + rest) % TWO_32
    ensures Wrap64(Int32(Wrap64(Wrap64(Int32(size)) + rest))) == total
       <==> total < TWO_31 || TWO_64 - TWO_31 <= total < TWO_64
  {
    var x := Wrap64(Wrap64(Int32(size)) + rest);
    CombinedCongruent(size, rest);
    assert x % TWO_32 == total % TWO_32;
    SignExtended(x, total);
  }

  lemma Int32Congruent(x: int)
    ensures Int32(x) % TWO_32 == x % TWO_32
  {
    AddMultiple(x % TWO_32, -1, TWO_32);
    SmallDiv(x % TWO_32, TWO_32);
  }

  lemma SignExtended(x: int, total: int)
    requires x % TWO_32 == total % TWO_32 && 0 <= total
    ensures Wrap64(Int32(x)) == total <==> total < TWO_31 || TWO_64 - TWO_31 <= total < TWO_64
  {
    var t := total % TWO_32;
    DivBounds(total, TWO_32);
    if t < TWO_31 {
      SmallDiv(t, TWO_64);
    } else {
      Quotient(t - TWO_32, TWO_64, -1);
    }
  }

  lemma SpanSize(r: Request, leader: int, wide: WideShift)
    requires r.Valid() && 0 <= leader < WF_SIZE
    ensures CoalMsgs(LowerNeighborCoal(r), leader, wide) == Followers(LowerNeighborCoal(r), leader + 1) + 1
  {
    assert !LowerNeighborCoal(r)[0];
    CoalMsgsExact(LowerNeighborCoal(r), leader, wide);
  }

  /** The size a leader sends in any case: the pattern of an `int` that agrees with the span's total modulo 2^32. */
  lemma SentPattern(r: Request, leader: int, wide: WideShift)
    requires r.Valid() && 0 <= leader < WF_SIZE
    ensures SentSize(r, leader, wide) % TWO_32 == SpanTotal(r, leader) % TWO_32
    ensures SentSize(r, leader, wide) < TWO_31 || SentSize(r, leader, wide) >= TWO_64 - TWO_31
  {
    SpanSize(r, leader, wide);
    SpanIsChain(r, leader);
    ChainPattern(r.msg, leader, Followers(LowerNeighborCoal(r), leader + 1) + 1);
  }

  lemma ChainPattern(msg: seq<Msg>, lane: int, n: nat)
    requires Chain(msg, lane, n) && 1 <= n
    ensures CombinedSize(msg[lane].size, n) % TWO_32 == Total(msg, lane, n) % TWO_32
    ensures CombinedSize(msg[lane].size, n) < TWO_31 || CombinedSize(msg[lane].size, n) >= TWO_64 - TWO_31
  {
    var (size, rest) := (msg[lane].size, msg[lane].size * (n - 1));
    TotalCongruent(msg, lane, n);
    assert size * n == size + rest;
    CombinedCongruent(size, rest);
    PatternOfInt(Wrap64(Wrap64(Int32(size)) + rest));
  }

  lemma PatternOfInt(x: int)
    ensures Wrap64(Int32(x)) % TWO_32 == x % TWO_32 && (Wrap64(Int32(x)) < TWO_31 || Wrap64(Int32(x)) >= TWO_64 - TWO_31)
  {
    Int32Congruent(x);
    ModOfMultiple(Int32(x), TWO_32, TWO_32, TWO_64);
    if Int32(x) >= 0 { SmallDiv(Int32(x), TWO_64); } else { Quotient(Int32(x), TWO_64, -1); }
  }

  /** The size written by a leader is the size of its whole span if and only if an `int` can hold it. */
  lemma SentSizeExact(r: Request, leader: int, wide: WideShift)
    requires r.Valid() && 0 <= leader < WF_SIZE
    ensures SentSize(r, leader, wide) == SpanTotal(r, leader)
       <==> SpanTotal(r, leader) < TWO_31 || TWO_64 - TWO_31 <= SpanTotal(r, leader) < TWO_64
  {
    SpanSize(r, leader, wide);
    SpanIsChain(r, leader);
    ChainSize(r.msg, leader, Followers(LowerNeighborCoal(r), leader + 1) + 1);
  }

  lemma ChainSize(msg: seq<Msg>, lane: int, n: nat)
    requires Chain(msg, lane, n) && 1 <= n
    ensures CombinedSize(msg[lane].size, n) == Total(msg, lane, n)
       <==> Total(msg, lane, n) < TWO_31 || TWO_64 - TWO_31 <= Total(msg, lane, n) < TWO_64
  {
    var size := msg[lane].size;
    TotalCongruent(msg, lane, n);
    TotalBounds(msg, lane, n);
    assert size * n == size + size * (n - 1);
    Truncation(size, size * (n - 1), Total(msg, lane, n));
  }

  /** One lane with a message of 2^31 bytes is told to send a size near 2^64. */
  lemma LargeMessageExample(r: Request, wide: WideShift)
    requires r.Valid() && r.msg[0].size == TWO_31 && !r.active[1]
    ensures SpanTotal(r, 0) == TWO_31 && SentSize(r, 0, wide) != SpanTotal(r, 0)
  {
    assert Followers(LowerNeighborCoal(r), 1) == 0;
    assert Total(r.msg, 0, 0) == 0;
    SentSizeExact(r, 0, wide);
  }

  // ------------------------------------------------------ the bytes that move

  /** One byte of a put or get: from where to where, at which PE. */
  datatype Byte = Byte(pe: int, src: int, dst: int)

  /** The byte at offset `k` of a message. */
  function ByteAt(pe: int, src: int, dst: int, k: int): Byte { Byte(pe, Wrap64(src + k), Wrap64(dst + k)) }

  function Moves(pe: int, src: int, dst: int): int -> Byte { k => ByteAt(pe, src, dst, k) }

  lemma MovesShifted(pe: int, src: int, dst: int, a: int, n: nat, b: Byte)
    ensures Tally(Moves(pe, Wrap64(src + a), Wrap64(dst + a)), 0, n, b) == Tally(Moves(pe, src, dst), a, n, b)
  {
    var (f, g) := (Moves(pe, Wrap64(src + a), Wrap64(dst + a)), Moves(pe, src, dst));
    forall k | 0 <= k < n
      ensures f(k) == g(a + k)
    {
      ModAdd(src + a, k, TWO_64);
      ModAdd(dst + a, k, TWO_64);
    }
    TallyShift(f, g, a, n, b);
  }

  /** How often a message with the addresses of `m` and a size of `n` moves the byte `b`. */
  function BytesOf(m: Msg, n: nat, b: Byte): nat { Tally(Moves(m.pe, m.src, m.dst), 0, n, b) }

  /** How often a message moves the byte `b`. */
  function LaneBytes(m: Msg, b: Byte): nat { BytesOf(m, m.size, b) }

  /** How often those of the lanes from `lane` on that are in `who` move `b`. */
  function BytesFrom(who: Word, msg: seq<Msg>, lane: int, b: Byte): nat
    requires |msg| == WF_SIZE && 0 <= lane <= WF_SIZE
    decreases WF_SIZE - lane
  {
    if lane == WF_SIZE then 0
    else if who[lane] then BytesFrom(who, msg, lane + 1, b) + LaneBytes(msg[lane], b)
    else BytesFrom(who, msg, lane + 1, b)
  }

  /** How often the active lanes ask for `b`. */
  function Requested(r: Request, b: Byte): nat
    requires r.Valid()
  { BytesFrom(r.active, r.msg, 0, b) }

  /** The lanes that send, and the messages as they send them. */
  function Leaders(r: Request): Word
    requires r.Valid()
  { seq(WF_SIZE, i requires 0 <= i < WF_SIZE => MustSend(r, i)) }

  function Outgoing(r: Request, wide: WideShift): seq<Msg>
    requires r.Valid()
  { seq(WF_SIZE, i requires 0 <= i < WF_SIZE => r.msg[i].(size := SentSize(r, i, wide))) }

  /** How often the lanes send `b`. */
  function Sent(r: Request, wide: WideShift, b: Byte): nat
    requires r.Valid()
  { BytesFrom(Leaders(r), Outgoing(r, wide), 0, b) }

  /** How often `n` neighbouring lanes ask for `b`. */
  function RunBytes(msg: seq<Msg>, lane: int, n: nat, b: Byte): nat
    requires 0 <= lane && lane + n <= |msg|
    decreases n
  {
    if n == 0 then 0 else LaneBytes(msg[lane], b) + RunBytes(msg, lane + 1, n - 1, b)
  }

  ghost predicate SameSizes(msg: seq<Msg>, lane: int, n: nat) {
    0 <= lane && lane + n <= |msg| && forall i :: lane < i < lane + n ==> msg[i].size == msg[lane].size
  }

  /** A message of n bytes from where m ends, and m, move what one message of m.size + n bytes moves. */
  lemma TwoAreOne(m: Msg, next: Msg, n: nat, b: Byte)
    requires next.pe == m.pe && next.src == Wrap64(m.src + m.size) && next.dst == Wrap64(m.dst + m.size)
    ensures LaneBytes(m, b) + BytesOf(next, n, b) == BytesOf(m, m.size + n, b)
  {
    TallyJoin(Moves(m.pe, m.src, m.dst), 0, m.size, n, b);
    MovesShifted(m.pe, m.src, m.dst, m.size, n, b);
  }

  lemma {:induction false} TotalFromFront(msg: seq<Msg>, lane: int, n: nat)
    requires 0 <= lane && lane + n <= |msg| && n >= 1
    ensures Total(msg, lane, n) == msg[lane].size + Total(msg, lane + 1, n - 1)
  {
    if n > 1 { TotalFromFront(msg, lane, n - 1); } else { assert Total(msg, lane, 0) == 0 == Total(msg, lane + 1, 0); }
  }

  lemma ChainStep(msg: seq<Msg>, lane: int, n: nat, more: nat, b: Byte)
    requires Chain(msg, lane, n) && SameSizes(msg, lane, n) && 2 <= n
    ensures LaneBytes(msg[lane], b) + BytesOf(msg[lane + 1], more, b) == BytesOf(msg[lane], msg[lane].size + more, b)
  {
    assert ContinuesAt(msg, lane + 1) && msg[lane + 1].size == msg[lane].size;
    TwoAreOne(msg[lane], msg[lane + 1], more, b);
  }

  /** The messages of a chain of equal sizes are one message of their total size. */
  lemma {:induction false} ChainIsOneMessage(msg: seq<Msg>, lane: int, n: nat, b: Byte)
    requires Chain(msg, lane, n) && SameSizes(msg, lane, n) && 1 <= n
    ensures Total(msg, lane, n) >= 0
    ensures RunBytes(msg, lane, n, b) == BytesOf(msg[lane], Total(msg, lane, n), b)
    decreases n
  {
    TotalFromFront(msg, lane, n);
    if n == 1 {
      assert RunBytes(msg, lane + 1, 0, b) == 0 == Total(msg, lane + 1, 0);
    } else {
      RestIsChain(msg, lane, n);
      ChainIsOneMessage(msg, lane + 1, n - 1, b);
      var rest := Total(msg, lane + 1, n - 1);
      ChainStep(msg, lane, n, rest, b);
      assert RunBytes(msg, lane, n, b) == LaneBytes(msg[lane], b) + RunBytes(msg, lane + 1, n - 1, b);
    }
  }

  lemma RestIsChain(msg: seq<Msg>, lane: int, n: nat)
    requires Chain(msg, lane, n) && SameSizes(msg, lane, n) && 2 <= n
    ensures Chain(msg, lane + 1, n - 1) && SameSizes(msg, lane + 1, n - 1)
  {
    assert msg[lane + 1].size == msg[lane].size;
  }

  lemma {:induction false} TotalOfSame(msg: seq<Msg>, lane: int, n: nat)
    requires SameSizes(msg, lane, n) && 1 <= n
    ensures Total(msg, lane, n) == msg[lane].size * n
  {
    if n > 1 {
      TotalOfSame(msg, lane, n - 1);
      assert msg[lane].size * n == msg[lane].size * (n - 1) + msg[lane].size;
    } else {
      assert Total(msg, lane, 0) == 0;
    }
  }

  lemma {:induction false} ChainSameSizes(msg: seq<Msg>, lane: int, n: nat)
    requires Chain(msg, lane, n) && 1 <= n && msg[lane].size < TWO_32
    ensures SameSizes(msg, lane, n)
  {
    if n > 1 {
      ChainSameSizes(msg, lane, n - 1);
      TotalCongruent(msg, lane, n);
      SmallDiv(msg[lane].size, TWO_32);
    }
  }

  /** Offsets below 2^64 tell the bytes of a message apart. */
  lemma BytesDiffer(m: Msg, i: int, j: int)
    requires 0 <= i < j < TWO_64
    ensures ByteAt(m.pe, m.src, m.dst, i) != ByteAt(m.pe, m.src, m.dst, j)
  {
    assert Wrap64(m.src + i) == if m.src + i < TWO_64 then m.src + i else m.src + i - TWO_64;
    assert Wrap64(m.src + j) == if m.src + j < TWO_64 then m.src + j else m.src + j - TWO_64;
  }

  /** A message of n bytes moves each of its bytes once and the bytes behind it not at all. */
  lemma ByteMovedOnce(m: Msg, n: nat, k: nat)
    requires n <= TWO_64 && k < TWO_64
    ensures BytesOf(m, n, ByteAt(m.pe, m.src, m.dst, k)) == if k < n then 1 else 0
  {
    var (at, b) := (Moves(m.pe, m.src, m.dst), ByteAt(m.pe, m.src, m.dst, k));
    forall i | 0 <= i < n && i != k
      ensures at(i) != b
    {
      if i < k { BytesDiffer(m, i, k); } else { BytesDiffer(m, k, i); }
    }
    if k < n { TallyOnce(at, 0, n, b, k); } else { TallyNone(at, 0, n, b); }
  }

  /** Messages from one place with different sizes move different bytes. */
  lemma SizesTell(m: Msg, x: nat, y: nat) returns (b: Byte)
    requires x < TWO_64 && y < TWO_64 && x != y
    ensures BytesOf(m, x, b) != BytesOf(m, y, b)
  {
    var k := if x < y then x else y;
    b := ByteAt(m.pe, m.src, m.dst, k);
    ByteMovedOnce(m, x, k);
    ByteMovedOnce(m, y, k);
  }

  lemma {:induction false} EmptyMessages(msg: seq<Msg>, lane: int, n: nat, b: Byte)
    requires 0 <= lane && lane + n <= |msg| && forall i :: lane <= i < lane + n ==> msg[i].size == 0
    ensures Total(msg, lane, n) == 0
    ensures RunBytes(msg, lane, n, b) == 0
    decreases n
  {
    if n > 0 {
      EmptyMessages(msg, lane + 1, n - 1, b);
      EmptyMessages(msg, lane, n - 1, b);
    }
  }

  /** What the leader of these messages sends is what they ask for. */
  ghost predicate SendsAll(msg: seq<Msg>, lane: int, n: nat, sent: U64)
    requires 0 <= lane && lane + n <= |msg| && n >= 1
  {
    forall b :: RunBytes(msg, lane, n, b) == LaneBytes(msg[lane].(size := sent), b)
  }

  /** The total fits in an `int`, or it is all the leader's own and its pattern is that of a negative one. */
  predicate Survives(size: U64, total: int) {
    total < TWO_31 || (total == size && TWO_64 - TWO_31 <= total)
  }

  /** If the messages together are one of `asked` bytes, the size that is sent must be that. */
  lemma OneMessageIff(msg: seq<Msg>, lane: int, n: nat, asked: nat, sent: U64)
    requires 0 <= lane && lane + n <= |msg| && n >= 1 && asked < TWO_64
    requires forall b :: RunBytes(msg, lane, n, b) == BytesOf(msg[lane], asked, b)
    ensures SendsAll(msg, lane, n, sent) <==> sent == asked
  {
    if sent != asked {
      var b := SizesTell(msg[lane], sent, asked);
      assert RunBytes(msg, lane, n, b) != LaneBytes(msg[lane].(size := sent), b);
    }
  }

  lemma SmallChainIff(msg: seq<Msg>, lane: int, n: nat, sent: U64)
    requires Chain(msg, lane, n) && 1 <= n <= WF_SIZE && msg[lane].size < TWO_32 && sent == CombinedSize(msg[lane].size, n)
    ensures SendsAll(msg, lane, n, sent) <==> Survives(msg[lane].size, Total(msg, lane, n))
  {
    ChainSize(msg, lane, n);
    SmallChainAsks(msg, lane, n);
    OneMessageIff(msg, lane, n, Total(msg, lane, n), sent);
  }

  lemma SmallChainAsks(msg: seq<Msg>, lane: int, n: nat)
    requires Chain(msg, lane, n) && 1 <= n <= WF_SIZE && msg[lane].size < TWO_32
    ensures 0 <= Total(msg, lane, n) < TWO_32 * WF_SIZE
    ensures forall b :: RunBytes(msg, lane, n, b) == BytesOf(msg[lane], Total(msg, lane, n), b)
  {
    ChainSameSizes(msg, lane, n);
    TotalOfSame(msg, lane, n);
    MulMono(n, WF_SIZE, msg[lane].size);
    TotalBounds(msg, lane, n);
    forall b
      ensures RunBytes(msg, lane, n, b) == BytesOf(msg[lane], Total(msg, lane, n), b)
    { ChainIsOneMessage(msg, lane, n, b); }
  }

  /** Followers of a leader with 2^32 bytes or more start inside its message, so they may only be empty. */
  lemma LargeChainIff(msg: seq<Msg>, lane: int, n: nat, sent: U64)
    requires Chain(msg, lane, n) && 1 <= n && msg[lane].size >= TWO_32 && sent == CombinedSize(msg[lane].size, n)
    ensures SendsAll(msg, lane, n, sent) <==> Survives(msg[lane].size, Total(msg, lane, n))
  {
    ChainSize(msg, lane, n);
    TotalBounds(msg, lane, n);
    if n == 1 || msg[lane + 1].size == 0 {
      LargeAlone(msg, lane, n, sent);
    } else {
      var b := AskedTwice(msg, lane, n);
      AtMostOnce(msg[lane].(size := sent), b);
    }
  }

  lemma LargeAlone(msg: seq<Msg>, lane: int, n: nat, sent: U64)
    requires Chain(msg, lane, n) && 1 <= n && (n == 1 || msg[lane + 1].size == 0) && msg[lane].size >= TWO_32
    requires sent == Total(msg, lane, n) <==> TWO_64 - TWO_31 <= Total(msg, lane, n) < TWO_64
    ensures SendsAll(msg, lane, n, sent) <==> Survives(msg[lane].size, Total(msg, lane, n))
  {
    forall i | lane < i < lane + n
      ensures msg[i].size == 0
    { EmptyFollower(msg, lane, i - lane); }
    TotalOfFirst(msg, lane, n);
    forall b
      ensures RunBytes(msg, lane, n, b) == LaneBytes(msg[lane], b)
    { EmptyMessages(msg, lane + 1, n - 1, b); }
    OneMessageIff(msg, lane, n, msg[lane].size, sent);
  }

  lemma {:induction false} EmptyFollower(msg: seq<Msg>, lane: int, k: nat)
    requires 1 <= k && Chain(msg, lane, k + 1) && msg[lane + 1].size == 0
    ensures msg[lane + k].size == 0
  {
    if k > 1 {
      EmptyFollower(msg, lane, k - 1);
      assert ContinuesAt(msg, lane + k);
    }
  }

  lemma {:induction false} TotalOfFirst(msg: seq<Msg>, lane: int, n: nat)
    requires 0 <= lane && lane + n <= |msg| && n >= 1 && forall i :: lane < i < lane + n ==> msg[i].size == 0
    ensures Total(msg, lane, n) == msg[lane].size
  {
    if n == 1 { assert Total(msg, lane, 0) == 0; } else { TotalOfFirst(msg, lane, n - 1); }
  }

  lemma FirstByte(m: Msg, next: Msg)
    requires Continues(m, next)
    ensures ByteAt(next.pe, next.src, next.dst, 0) == ByteAt(m.pe, m.src, m.dst, next.size) && next.size < TWO_32
  {}

  /** The first byte of a follower that is not empty lies inside the large message too. */
  lemma SharedByte(m: Msg, next: Msg) returns (b: Byte)
    requires Continues(m, next) && m.size >= TWO_32 && next.size > 0
    ensures LaneBytes(m, b) == 1 && LaneBytes(next, b) == 1
  {
    FirstByte(m, next);
    b := ByteAt(m.pe, m.src, m.dst, next.size);
    ByteMovedOnce(m, m.size, next.size);
    ByteMovedOnce(next, next.size, 0);
  }

  lemma AskedTwice(msg: seq<Msg>, lane: int, n: nat) returns (b: Byte)
    requires Chain(msg, lane, n) && n >= 2 && msg[lane].size >= TWO_32 && msg[lane + 1].size > 0
    ensures RunBytes(msg, lane, n, b) >= 2 && Total(msg, lane, n) > msg[lane].size
  {
    var (m, next) := (msg[lane], msg[lane + 1]);
    assert ContinuesAt(msg, lane + 1);
    b := SharedByte(m, next);
    assert RunBytes(msg, lane, n, b) == LaneBytes(m, b) + LaneBytes(next, b) + RunBytes(msg, lane + 2, n - 2, b);
    TotalOfTwo(msg, lane, n);
  }

  lemma {:induction false} TotalOfTwo(msg: seq<Msg>, lane: int, n: nat)
    requires 0 <= lane && lane + n <= |msg| && n >= 2
    ensures Total(msg, lane, n) >= msg[lane].size + msg[lane + 1].size
  {
    if n == 2 {
      assert Total(msg, lane, 1) == Total(msg, lane, 0) + msg[lane].size;
    } else {
      TotalOfTwo(msg, lane, n - 1);
    }
  }

  lemma AtMostOnce(m: Msg, b: Byte)
    ensures LaneBytes(m, b) <= 1
  {
    var at := Moves(m.pe, m.src, m.dst);
    if k :| 0 <= k < m.size && at(k) == b {
      ByteMovedOnce(m, m.size, k);
    } else {
      TallyNone(at, 0, m.size, b);
    }
  }

  /** A leader sends exactly what the lanes of its span asked for, if and only if the span's total survives. */
  lemma LeaderSendsSpanIff(r: Request, lane: int, wide: WideShift)
    requires r.Valid() && 0 <= lane < WF_SIZE
    ensures lane + Followers(LowerNeighborCoal(r), lane + 1) + 1 <= WF_SIZE
    ensures SendsAll(r.msg, lane, Followers(LowerNeighborCoal(r), lane + 1) + 1, SentSize(r, lane, wide))
       <==> Survives(r.msg[lane].size, SpanTotal(r, lane))
  {
    var n := Followers(LowerNeighborCoal(r), lane + 1) + 1;
    SpanIsChain(r, lane);
    SpanSize(r, lane, wide);
    if r.msg[lane].size < TWO_32 {
      SmallChainIff(r.msg, lane, n, SentSize(r, lane, wide));
    } else {
      LargeChainIff(r.msg, lane, n, SentSize(r, lane, wide));
    }
  }

  ghost predicate SpansSurvive(r: Request)
    requires r.Valid()
  { forall lane :: 0 <= lane < WF_SIZE && MustSend(r, lane) ==> Survives(r.msg[lane].size, SpanTotal(r, lane)) }

  /** Runs break at inactive lanes. */
  lemma InactiveBreaksRun(r: Request, lane: int)
    requires r.Valid() && 0 <= lane < WF_SIZE && !r.active[lane]
    ensures Followers(LowerNeighborCoal(r), lane) == 0 && Followers(LowerNeighborCoal(r), lane + 1) == 0
  {
    if lane + 1 < WF_SIZE { CoalescableIff(r, lane + 1); }
  }

  /** What lane i sends is what the lanes of its run ask for. */
  predicate SendsRun(coal: Word, msg: seq<Msg>, sent: seq<Msg>, i: int, b: Byte)
    requires |msg| == |sent| == WF_SIZE && 0 <= i < WF_SIZE
  {
    var n := Followers(coal, i + 1) + 1;
    i + n <= WF_SIZE && RunBytes(msg, i, n, b) == LaneBytes(sent[i], b)
  }

  /** From any lane on, what was asked for is what is sent there plus what a run reaching down from it covers. */
  lemma {:induction false} RunsAddUp(active: Word, coal: Word, msg: seq<Msg>, leads: Word, sent: seq<Msg>, lane: int, b: Byte)
    requires |msg| == |sent| == WF_SIZE && 0 <= lane <= WF_SIZE
    requires forall i :: 0 <= i < WF_SIZE ==> (leads[i] <==> active[i] && !coal[i])
    requires forall i :: 0 <= i < WF_SIZE && !active[i] ==> Followers(coal, i) == 0 == Followers(coal, i + 1)
    requires forall i :: 0 <= i < WF_SIZE && leads[i] ==> SendsRun(coal, msg, sent, i, b)
    ensures lane + Followers(coal, lane) <= WF_SIZE
    ensures BytesFrom(active, msg, lane, b) == RunBytes(msg, lane, Followers(coal, lane), b) + BytesFrom(leads, sent, lane, b)
    decreases WF_SIZE - lane
  {
    if lane < WF_SIZE {
      RunsAddUp(active, coal, msg, leads, sent, lane + 1, b);
      if leads[lane] { assert SendsRun(coal, msg, sent, lane, b); }
    }
  }

  /** Coalescing moves exactly the requested bytes, each as often as it was requested. */
  lemma CoalescingPreservesBytes(r: Request, wide: WideShift, b: Byte)
    requires r.Valid() && SpansSurvive(r)
    ensures Sent(r, wide, b) == Requested(r, b)
  {
    var (coal, leads, sent) := (LowerNeighborCoal(r), Leaders(r), Outgoing(r, wide));
    forall i | 0 <= i < WF_SIZE && leads[i]
      ensures SendsRun(coal, r.msg, sent, i, b)
    { LeaderSendsRun(r, i, wide, b); }
    forall i | 0 <= i < WF_SIZE && !r.active[i]
      ensures Followers(coal, i) == 0 == Followers(coal, i + 1)
    { InactiveBreaksRun(r, i); }
    RunsAddUp(r.active, coal, r.msg, leads, sent, 0, b);
    assert !coal[0];
  }

  lemma LeaderSendsRun(r: Request, lane: int, wide: WideShift, b: Byte)
    requires r.Valid() && 0 <= lane < WF_SIZE && Survives(r.msg[lane].size, SpanTotal(r, lane))
    ensures SendsRun(LowerNeighborCoal(r), r.msg, Outgoing(r, wide), lane, b)
  {
    LeaderSendsSpanIff(r, lane, wide);
    SendsAllAt(r.msg, lane, Followers(LowerNeighborCoal(r), lane + 1) + 1, SentSize(r, lane, wide), b);
  }

  lemma SendsAllAt(msg: seq<Msg>, lane: int, n: nat, sent: U64, b: Byte)
    requires 0 <= lane && lane + n <= |msg| && n >= 1 && SendsAll(msg, lane, n, sent)
    ensures RunBytes(msg, lane, n, b) == LaneBytes(msg[lane].(size := sent), b)
  {}

  lemma {:induction false} NothingFrom(who: Word, msg: seq<Msg>, lane: int, b: Byte)
    requires |msg| == WF_SIZE && 0 <= lane <= WF_SIZE && forall i :: lane <= i < WF_SIZE ==> !who[i]
    ensures BytesFrom(who, msg, lane, b) == 0
    decreases WF_SIZE - lane
  {
    if lane < WF_SIZE { NothingFrom(who, msg, lane + 1, b); }
  }

  /** Two active lanes: lane 0 with 2^31 bytes, and lane 1 with 2^64 - 2^32 bytes from where lane 0 ends. */
  ghost predicate Compensating(r: Request) {
    && r.Valid() && r.active[0] && r.active[1] && (forall i :: 2 <= i < WF_SIZE ==> !r.active[i])
    && r.msg[0].size == TWO_31 && r.msg[1].size == TWO_64 - TWO_32 && r.msg[1].pe == r.msg[0].pe
    && r.msg[1].src == Wrap64(r.msg[0].src + TWO_31) && r.msg[1].dst == Wrap64(r.msg[0].dst + TWO_31)
  }

  lemma CompensatingLeaders(r: Request)
    requires Compensating(r)
    ensures var coal := LowerNeighborCoal(r); !coal[0] && !coal[1] && Followers(coal, 1) == 0 == Followers(coal, 2)
  {
    CoalescableIff(r, 1);
    InactiveBreaksRun(r, 2);
  }

  lemma SentAsNegative()
    ensures CombinedSize(TWO_31, 1) == TWO_64 - TWO_31
  {
    assert Int32(TWO_31) == -TWO_31;
    assert Wrap64(-TWO_31) == TWO_64 - TWO_31;
    assert Wrap64(TWO_64 - TWO_31) == TWO_64 - TWO_31;
    assert Int32(TWO_64 - TWO_31) == -TWO_31;
  }

  lemma SentAsZero()
    ensures CombinedSize(TWO_64 - TWO_32, 1) == 0
  {
    assert Int32(TWO_64 - TWO_32) == 0 == Wrap64(0) == Int32(0);
  }

  lemma CompensatingSizes(r: Request, wide: WideShift)
    requires Compensating(r)
    ensures MustSend(r, 0) && MustSend(r, 1)
    ensures SpanTotal(r, 0) == TWO_31 && SpanTotal(r, 1) == TWO_64 - TWO_32
    ensures SentSize(r, 0, wide) == TWO_64 - TWO_31 && SentSize(r, 1, wide) == 0
  {
    CompensatingLeaders(r);
    SpanSize(r, 0, wide);
    SpanSize(r, 1, wide);
    SentAsNegative();
    SentAsZero();
    TotalFromFront(r.msg, 0, 1);
    TotalFromFront(r.msg, 1, 1);
    assert Total(r.msg, 1, 0) == 0 == Total(r.msg, 2, 0);
  }

  /**
    The condition on every leader is not necessary for the wave as a whole: here neither leader sends
    what its span asked for, but what lane 0 sends too much is what lane 1 does not send.
  */
  lemma LeadersCanCompensate(r: Request, wide: WideShift, b: Byte)
    requires Compensating(r)
    ensures !Survives(r.msg[0].size, SpanTotal(r, 0)) && !Survives(r.msg[1].size, SpanTotal(r, 1))
    ensures Sent(r, wide, b) == Requested(r, b)
  {
    NeitherSurvives(r, wide);
    LeadersOfTwo(r, wide);
    PairSame(r, wide, b);
    SameBytes(r.active, r.msg, Leaders(r), Outgoing(r, wide), b);
  }

  lemma NeitherSurvives(r: Request, wide: WideShift)
    requires Compensating(r)
    ensures !Survives(r.msg[0].size, SpanTotal(r, 0)) && !Survives(r.msg[1].size, SpanTotal(r, 1))
  {
    CompensatingSizes(r, wide);
  }

  ghost predicate OnlyTwo(who: Word) { who[0] && who[1] && forall i :: 2 <= i < WF_SIZE ==> !who[i] }

  lemma LeadersOfTwo(r: Request, wide: WideShift)
    requires Compensating(r)
    ensures OnlyTwo(Leaders(r)) && OnlyTwo(r.active)
    ensures Outgoing(r, wide)[0] == r.msg[0].(size := TWO_64 - TWO_31) && Outgoing(r, wide)[1] == r.msg[1].(size := 0)
  {
    CompensatingSizes(r, wide);
    forall i | 2 <= i < WF_SIZE
      ensures !Leaders(r)[i]
    { assert !r.active[i]; }
  }

  lemma SameBytes(active: Word, msg: seq<Msg>, leads: Word, out: seq<Msg>, b: Byte)
    requires |msg| == |out| == WF_SIZE && OnlyTwo(active) && OnlyTwo(leads)
    requires LaneBytes(msg[0], b) + LaneBytes(msg[1], b) == LaneBytes(out[0], b) + LaneBytes(out[1], b)
    ensures BytesFrom(leads, out, 0, b) == BytesFrom(active, msg, 0, b)
  {
    TwoLanes(active, msg, b);
    TwoLanes(leads, out, b);
  }

  lemma PairSame(r: Request, wide: WideShift, b: Byte)
    requires Compensating(r)
    ensures var out := Outgoing(r, wide);
      LaneBytes(r.msg[0], b) + LaneBytes(r.msg[1], b) == LaneBytes(out[0], b) + LaneBytes(out[1], b)
  {
    LeadersOfTwo(r, wide);
    Together(r.msg[0], r.msg[1], TWO_64 - TWO_31, 0, b);
  }

  lemma TwoLanes(who: Word, msg: seq<Msg>, b: Byte)
    requires |msg| == WF_SIZE && OnlyTwo(who)
    ensures BytesFrom(who, msg, 0, b) == LaneBytes(msg[1], b) + LaneBytes(msg[0], b)
  {
    NothingFrom(who, msg, 2, b);
  }

  lemma Together(m: Msg, next: Msg, sent: U64, nothing: U64, b: Byte)
    requires next.pe == m.pe && next.src == Wrap64(m.src + m.size) && next.dst == Wrap64(m.dst + m.size)
    requires sent == m.size + next.size && nothing == 0
    ensures LaneBytes(m, b) + LaneBytes(next, b) == LaneBytes(m.(size := sent), b) + LaneBytes(next.(size := nothing), b)
  {
    TwoAreOne(m, next, next.size, b);
  }

  /** In particular for all messages below 32 MiB. */
  lemma SmallMessagesPreserved(r: Request, wide: WideShift, b: Byte)
    requires r.Valid() && forall i :: 0 <= i < WF_SIZE && r.active[i] ==> r.msg[i].size < 0x200_0000
    ensures Sent(r, wide, b) == Requested(r, b)
  {
    forall lane | 0 <= lane < WF_SIZE && MustSend(r, lane)
      ensures SpanTotal(r, lane) < TWO_31
    {
      var coal := LowerNeighborCoal(r);
      FollowersExact(coal, lane + 1);
      forall i | lane <= i < lane + Followers(coal, lane + 1) + 1
        ensures r.msg[i].size < 0x200_0000
      {
        if i > lane { assert coal[i]; }
      }
      TotalOfSmall(r.msg, lane, Followers(coal, lane + 1) + 1);
    }
    CoalescingPreservesBytes(r, wide, b);
  }

  lemma {:induction false} TotalOfSmall(msg: seq<Msg>, lane: int, n: nat)
    requires 0 <= lane && lane + n <= |msg|
    requires forall i :: lane <= i < lane + n ==> msg[i].size < 0x200_0000
    ensures Total(msg, lane, n) <= n * 0x1ff_ffff
  {
    if n > 0 { TotalOfSmall(msg, lane, n - 1); }
  }
}
