/**
  Team arithmetic: splitting, translation and membership (src/team.cpp,
  src/rocshmem.cpp, src/rocshmem_gpu.cpp).  A team is a triplet (start, stride,
  size) with respect to TEAM_WORLD.  Integers are unbounded; the source assumes
  no int overflow.
*/
module TeamArithmetic {
  import opened Arithmetic
  import opened Counting

  /** C++ division and remainder, which truncate towards zero. */
  function TruncDiv(a: int, b: int): int
    requires b > 0
  { if a >= 0 then a / b else -((-a) / b) }

  function TruncMod(a: int, b: int): int
    requires b > 0
  { a - TruncDiv(a, b) * b }

  /** They are the one quotient and remainder with a remainder smaller than b and of the sign of a. */
  lemma TruncExact(a: int, b: int, q: int, r: int)
    requires b > 0
    ensures q == TruncDiv(a, b) && r == TruncMod(a, b) <==>
              a == q * b + r && -b < r < b && (a >= 0 ==> r >= 0) && (a <= 0 ==> r <= 0)
  {
    DivBounds(a, b);
    DivBounds(-a, b);
    if a == q * b + r && -b < r < b && (a >= 0 ==> r >= 0) && (a <= 0 ==> r <= 0) {
      if a >= 0 { Quotient(a, b, q); } else { Quotient(-a, b, -q); }
    }
  }

  /** TeamInfo with respect to TEAM_WORLD; `size` is also the num_pes of the team. */
  datatype Triplet = Triplet(start: int, stride: int, size: int)

  ghost predicate Valid(t: Triplet) { t.start >= 0 && t.stride >= 1 && t.size >= 1 }

  /** Team::get_pe_in_world */
  function PeInWorld(t: Triplet, pe: int): int { t.start + t.stride * pe }

  /** Team::get_pe_in_my_team */
  function PeInMyTeam(t: Triplet, world: int): int
    requires t.stride > 0
  {
    if world < t.start then -1
    else if TruncMod(world - t.start, t.stride) != 0 then -1
    else
      var pe := TruncDiv(world - t.start, t.stride);
      if pe >= t.size then -1 else pe
  }

  /** rocshmem_ctx_my_pe: the calling PE's index in the team of the context, -1 if it is not a member. */
  function CtxMyPe(t: Triplet, myPe: int): int
    requires t.stride > 0
  {
    var translated := TruncDiv(myPe - t.start, t.stride);
    if myPe < t.start || TruncMod(myPe - t.start, t.stride) != 0 || translated >= t.size then -1 else translated
  }

  /** pe_in_active_set */
  function PeInActiveSet(start: int, stride: int, size: int, pe: int): int
    requires stride > 0
  {
    var translated := TruncDiv(pe - start, stride);
    if pe < start || TruncMod(pe - start, stride) != 0 || translated >= size then -1 else translated
  }

  /** A team handle; Invalid is ROCSHMEM_TEAM_INVALID. */
  datatype Handle = Invalid | Team(t: Triplet)

  /** team_translate_pe */
  function TranslatePe(src: Handle, pe: int, dst: Handle): int
    requires dst.Team? ==> dst.t.stride > 0
  {
    if src.Invalid? || dst.Invalid? then -1 else PeInMyTeam(dst.t, PeInWorld(src.t, pe))
  }

  // --------------------------------------------------------------- membership

  /** World PE `w` is the member with index `k`. */
  predicate MemberAt(t: Triplet, w: int, k: int) { 0 <= k < t.size && w == PeInWorld(t, k) }

  lemma MemberIndexUnique(t: Triplet, w: int, k: int, l: int)
    requires t.stride > 0 && MemberAt(t, w, k) && MemberAt(t, w, l)
    ensures k == l
  {
    if k < l { MulMono(k + 1, l, t.stride); }
    if l < k { MulMono(l + 1, k, t.stride); }
  }

  /** All three membership computations return the member index, and -1 exactly for PEs outside the team. */
  lemma MembershipExact(t: Triplet, w: int)
    requires t.stride > 0
    ensures PeInMyTeam(t, w) == PeInActiveSet(t.start, t.stride, t.size, w) == CtxMyPe(t, w)
    ensures PeInMyTeam(t, w) == -1 <==> forall k :: !MemberAt(t, w, k)
    ensures PeInMyTeam(t, w) != -1 ==> MemberAt(t, w, PeInMyTeam(t, w))
  {
    var d := w - t.start;
    if d >= 0 {
      DivBounds(d, t.stride);
      MulMono(0, t.stride, 1);
      forall k | MemberAt(t, w, k)
        ensures TruncDiv(d, t.stride) == k && TruncMod(d, t.stride) == 0
      { Quotient(d, t.stride, k); }
      if d / t.stride < 0 { MulMono(d / t.stride, -1, t.stride); }
      if PeInMyTeam(t, w) != -1 { assert MemberAt(t, w, d / t.stride); }
    } else {
      forall k | MemberAt(t, w, k)
        ensures false
      { MulMono(0, k, t.stride); }
    }
  }

  /** get_pe_in_my_team inverts get_pe_in_world. */
  lemma WorldRoundTrip(t: Triplet, pe: int)
    requires t.stride > 0 && 0 <= pe < t.size
    ensures PeInMyTeam(t, PeInWorld(t, pe)) == pe
  {
    var w := PeInWorld(t, pe);
    MembershipExact(t, w);
    assert MemberAt(t, w, pe);
    MemberIndexUnique(t, w, PeInMyTeam(t, w), pe);
  }

  /** Translation from A to B and back is the identity unless the PE is not in B, and -1 says exactly that. */
  lemma TranslationExact(a: Triplet, b: Triplet, pe: int)
    requires a.stride > 0 && b.stride > 0 && 0 <= pe < a.size
    ensures TranslatePe(Team(a), pe, Team(b)) == -1 <==> forall k :: !MemberAt(b, PeInWorld(a, pe), k)
    ensures var there := TranslatePe(Team(a), pe, Team(b));
            there != -1 ==> PeInWorld(b, there) == PeInWorld(a, pe) && TranslatePe(Team(b), there, Team(a)) == pe
  {
    MembershipExact(b, PeInWorld(a, pe));
    WorldRoundTrip(a, pe);
  }

  /** A PE of an invalid team, or asked for in one, has no translation. */
  lemma TranslateInvalid(src: Handle, pe: int, dst: Handle)
    requires (dst.Team? ==> dst.t.stride > 0) && (src.Invalid? || dst.Invalid?)
    ensures TranslatePe(src, pe, dst) == -1
  {}

  // ------------------------------------------------------------------- splits

  /** What rocshmem_team_split_strided does with its arguments: the new world triplet, or -1. */
  datatype Outcome = Accepted(t: Triplet) | Rejected

  function Split(parent: Triplet, start: int, stride: int, size: int, worldSize: int): Outcome {
    if start < 0 || start >= parent.size || size < 1 || size > parent.size || stride < 1 then Rejected
    else
      var startInWorld := PeInWorld(parent, start);
      var strideInWorld := stride * parent.stride;
      var endInWorld := startInWorld + strideInWorld * (size - 1);
      if endInWorld > worldSize then Rejected else Accepted(Triplet(startInWorld, strideInWorld, size))
  }

  /** The last member requested is a member of the parent. */
  predicate FitsParent(parent: Triplet, start: int, stride: int, size: int) { start + stride * (size - 1) < parent.size }

  /** Member k of the new team is member start + stride * k of the parent. */
  lemma SplitComposes(parent: Triplet, start: int, stride: int, size: int, k: int)
    ensures PeInWorld(Triplet(PeInWorld(parent, start), stride * parent.stride, size), k)
         == PeInWorld(parent, start + stride * k)
  {
    assert stride * parent.stride * k == parent.stride * (stride * k);
    assert parent.stride * (start + stride * k) == parent.stride * start + parent.stride * (stride * k);
  }

  lemma WorldMono(t: Triplet, a: int, b: int)
    requires t.stride > 0
    ensures a < b <==> PeInWorld(t, a) < PeInWorld(t, b)
  {
    if a < b { MulMono(a + 1, b, t.stride); } else { MulMono(b, a, t.stride); }
  }

  /** The source compares the last PE with the world size by `>`: its test lets one PE too many through. */
  lemma InWorldIff(parent: Triplet, start: int, stride: int, size: int, worldSize: int)
    requires Valid(parent) && Split(parent, start, stride, size, worldSize).Accepted?
    ensures var t := Split(parent, start, stride, size, worldSize).t;
            Valid(t) && ((forall k :: 0 <= k < t.size ==> 0 <= PeInWorld(t, k) < worldSize) <==> PeInWorld(t, t.size - 1) != worldSize)
  {
    var t := Split(parent, start, stride, size, worldSize).t;
    MulMono(0, start, parent.stride);
    MulMono(1, stride, parent.stride);
    forall k | 0 <= k < t.size
      ensures 0 <= PeInWorld(t, k) <= PeInWorld(t, t.size - 1) <= worldSize
    {
      MulMono(0, k, t.stride);
      MulMono(k, t.size - 1, t.stride);
    }
  }

  /** Four PEs: the team {1, 4} is accepted although PE 4 does not exist. */
  lemma OnePastTheWorldExample()
    ensures Split(Triplet(0, 1, 4), 1, 3, 2, 4) == Accepted(Triplet(1, 3, 2)) && PeInWorld(Triplet(1, 3, 2), 1) == 4
  {}

  predicate Member(t: Triplet, w: int)
    requires t.stride > 0
  { PeInMyTeam(t, w) != -1 }

  lemma MemberIff(t: Triplet, i: int)
    requires t.stride > 0
    ensures Member(t, PeInWorld(t, i)) <==> 0 <= i < t.size
  {
    var w := PeInWorld(t, i);
    MembershipExact(t, w);
    if Member(t, w) {
      WorldMono(t, i, PeInMyTeam(t, w));
      WorldMono(t, PeInMyTeam(t, w), i);
    } else if 0 <= i < t.size {
      assert MemberAt(t, w, i);
    }
  }

  /** All members of an accepted new team are members of the parent if and only if the split fits the parent. */
  lemma ContainedIff(parent: Triplet, start: int, stride: int, size: int, worldSize: int)
    requires Valid(parent) && Split(parent, start, stride, size, worldSize).Accepted?
    ensures var t := Split(parent, start, stride, size, worldSize).t;
            (forall k :: 0 <= k < size ==> Member(parent, PeInWorld(t, k))) <==> FitsParent(parent, start, stride, size)
  {
    var t := Split(parent, start, stride, size, worldSize).t;
    forall k | 0 <= k < size
      ensures Member(parent, PeInWorld(t, k)) <==> start + stride * k < parent.size
    {
      SplitComposes(parent, start, stride, size, k);
      MulMono(0, k, stride);
      MemberIff(parent, start + stride * k);
    }
    if FitsParent(parent, start, stride, size) {
      forall k | 0 <= k < size
        ensures start + stride * k < parent.size
      { MulMono(k, size - 1, stride); }
    } else {
      assert !Member(parent, PeInWorld(t, size - 1));
    }
  }

  // --------------------------------------------------------- chains of splits

  /** A split as the caller asks for it, relative to its parent. */
  datatype Request = Request(start: int, stride: int, size: int)

  /** The splits are all sane and each fits its parent. */
  ghost predicate ChainFits(team: Triplet, chain: seq<Request>)
    decreases chain
  {
    chain == [] ||
    var r := chain[0];
    && r.start >= 0 && r.stride >= 1 && 1 <= r.size && FitsParent(team, r.start, r.stride, r.size)
    && ChainFits(Child(team, r), chain[1..])
  }

  function Child(team: Triplet, r: Request): Triplet { Triplet(PeInWorld(team, r.start), r.stride * team.stride, r.size) }

  /** The world triplet after all splits of the chain. */
  function Last(team: Triplet, chain: seq<Request>): Triplet
    decreases chain
  { if chain == [] then team else Last(Child(team, chain[0]), chain[1..]) }

  /** Member k of the last team, traced back through the parent-relative triplets to an index in the first team. */
  function TraceBack(chain: seq<Request>, k: int): int
    decreases chain
  { if chain == [] then k else chain[0].start + chain[0].stride * TraceBack(chain[1..], k) }

  /** What the source demands of a request: sane numbers, and a last member that is at most the world's size. */
  predicate Acceptable(parent: Triplet, r: Request, worldSize: int) {
    && 0 <= r.start < parent.size && r.stride >= 1 && 1 <= r.size <= parent.size
    && PeInWorld(parent, r.start + r.stride * (r.size - 1)) <= worldSize
  }

  /** Exactly the acceptable requests are accepted, with the triplet that member by member agrees with the parent's. */
  lemma SplitIff(parent: Triplet, r: Request, worldSize: int)
    ensures Split(parent, r.start, r.stride, r.size, worldSize)
         == if Acceptable(parent, r, worldSize) then Accepted(Child(parent, r)) else Rejected
  { SplitComposes(parent, r.start, r.stride, r.size, r.size - 1); }

  /** Every sane request that fits a parent in the world is accepted. */
  lemma FittingIsAccepted(parent: Triplet, r: Request, worldSize: int)
    requires Valid(parent) && PeInWorld(parent, parent.size - 1) < worldSize
    requires r.start >= 0 && r.stride >= 1 && r.size >= 1 && FitsParent(parent, r.start, r.stride, r.size)
    ensures Split(parent, r.start, r.stride, r.size, worldSize) == Accepted(Child(parent, r))
    ensures Valid(Child(parent, r)) && PeInWorld(Child(parent, r), r.size - 1) < worldSize
  {
    var last := r.start + r.stride * (r.size - 1);
    MulMono(1, r.stride, r.size - 1);
    MulMono(last, parent.size - 1, parent.stride);
    MulMono(0, r.start, parent.stride);
    MulMono(1, r.stride, parent.stride);
    SplitComposes(parent, r.start, r.stride, r.size, r.size - 1);
    SplitIff(parent, r, worldSize);
  }

  /** The splits of a chain one after another. */
  function SplitAll(team: Triplet, chain: seq<Request>, worldSize: int): Outcome
    decreases chain
  {
    if chain == [] then Accepted(team)
    else
      match Split(team, chain[0].start, chain[0].stride, chain[0].size, worldSize)
      case Rejected => Rejected
      case Accepted(child) => SplitAll(child, chain[1..], worldSize)
  }

  /** All splits of a chain that fits are accepted and lead to its last team. */
  lemma {:induction false} ChainIsAccepted(team: Triplet, chain: seq<Request>, worldSize: int)
    requires Valid(team) && PeInWorld(team, team.size - 1) < worldSize && ChainFits(team, chain)
    ensures SplitAll(team, chain, worldSize) == Accepted(Last(team, chain))
    decreases chain
  {
    if chain != [] {
      FittingIsAccepted(team, chain[0], worldSize);
      ChainIsAccepted(Child(team, chain[0]), chain[1..], worldSize);
    }
  }

  /**
    For every chain of splits that fit their parents: the world triplet of the last team sends each
    member to the PE that composing the relative triplets gives, and that PE is a member of the first team.
  */
  lemma {:induction false} ChainComposes(team: Triplet, chain: seq<Request>, k: int)
    requires Valid(team) && ChainFits(team, chain) && 0 <= k < Last(team, chain).size
    ensures Valid(Last(team, chain))
    ensures 0 <= TraceBack(chain, k) < team.size
    ensures PeInWorld(Last(team, chain), k) == PeInWorld(team, TraceBack(chain, k))
    decreases chain
  {
    if chain != [] {
      var r := chain[0];
      var child := Child(team, r);
      MulMono(0, r.start, team.stride);
      MulMono(1, r.stride, team.stride);
      ChainComposes(child, chain[1..], k);
      var i := TraceBack(chain[1..], k);
      SplitComposes(team, r.start, r.stride, r.size, i);
      MulMono(0, i, r.stride);
      MulMono(i, r.size - 1, r.stride);
    }
  }

  /** Members of the last team are pairwise distinct PEs of the world. */
  lemma ChainMembers(worldSize: int, chain: seq<Request>, k: int, l: int)
    requires worldSize >= 1 && ChainFits(Triplet(0, 1, worldSize), chain)
    requires 0 <= k < l < Last(Triplet(0, 1, worldSize), chain).size
    ensures var t := Last(Triplet(0, 1, worldSize), chain);
            0 <= PeInWorld(t, k) < PeInWorld(t, l) < worldSize
  {
    var world := Triplet(0, 1, worldSize);
    ChainComposes(world, chain, k);
    ChainComposes(world, chain, l);
    WorldMono(Last(world, chain), k, l);
  }

  // ------------------------------------------------ the communicator of the new team

  /** my_pe_in_new_team, as member `i` of the parent computes it. */
  function MyPeInNewTeam(parent: Triplet, r: Request, i: int): int
    requires Valid(parent) && r.stride >= 1
  {
    MulMono(1, r.stride, parent.stride);
    PeInActiveSet(PeInWorld(parent, r.start), r.stride * parent.stride, r.size, PeInWorld(parent, i))
  }

  /** Member `i` of the parent joins the new communicator: its colour is defined. */
  predicate Joins(parent: Triplet, r: Request, i: int)
    requires Valid(parent) && r.stride >= 1
  { MyPeInNewTeam(parent, r, i) >= 0 }

  /** The request names index `i` of the parent as member `k`. */
  predicate Named(r: Request, i: int, k: int) { 0 <= k < r.size && i == r.start + r.stride * k }

  ghost predicate IsNamed(r: Request, i: int) { exists k :: Named(r, i, k) }

  /** A member of the parent joins exactly if the request names it, with the index the request gives it. */
  lemma JoinsIff(parent: Triplet, r: Request, i: int)
    requires Valid(parent) && r.stride >= 1
    ensures Joins(parent, r, i) <==> IsNamed(r, i)
    ensures forall k :: Named(r, i, k) ==> MyPeInNewTeam(parent, r, i) == k
  {
    MulMono(1, r.stride, parent.stride);
    var child := Child(parent, r);
    var w := PeInWorld(parent, i);
    MembershipExact(child, w);
    forall k
      ensures MemberAt(child, w, k) <==> Named(r, i, k)
    {
      SplitComposes(parent, r.start, r.stride, r.size, k);
      WorldMono(parent, i, r.start + r.stride * k);
      WorldMono(parent, r.start + r.stride * k, i);
    }
    forall k | Named(r, i, k)
      ensures PeInMyTeam(child, w) == k
    {
      assert MemberAt(child, w, k);
      MemberIndexUnique(child, w, k, PeInMyTeam(child, w));
    }
    if Joins(parent, r, i) { assert Named(r, i, PeInMyTeam(child, w)); }
  }

  /** How many of the indices below `n` satisfy `f`. */
  function Count(f: int -> bool, n: nat): nat { Tally(f, 0, n, true) }

  function JoinsFunction(parent: Triplet, r: Request): (f: int -> bool)
    requires Valid(parent) && r.stride >= 1
    ensures forall i :: f(i) == Joins(parent, r, i)
  {
    assert Valid(parent) && r.stride >= 1;
    (i: int) => parent.start >= 0 && parent.stride >= 1 && parent.size >= 1 && r.stride >= 1 && Joins(parent, r, i)
  }

  /** How many members of the parent join. */
  function CommunicatorSize(parent: Triplet, r: Request): nat
    requires Valid(parent) && r.stride >= 1
  { Count(JoinsFunction(parent, r), parent.size) }

  /** Those that join with a smaller key than member i; the key is the world PE. */
  function SmallerKey(parent: Triplet, r: Request, i: int): (f: int -> bool)
    requires Valid(parent) && r.stride >= 1
    ensures forall j :: f(j) == (Joins(parent, r, j) && PeInWorld(parent, j) < PeInWorld(parent, i))
  {
    var joins := JoinsFunction(parent, r);
    (j: int) => joins(j) && PeInWorld(parent, j) < PeInWorld(parent, i)
  }

  /** Members of the communicator are ordered by key: a member's rank is the number of members with a smaller one. */
  function RankByKey(parent: Triplet, r: Request, i: int): nat
    requires Valid(parent) && r.stride >= 1
  { Count(SmallerKey(parent, r, i), parent.size) }

  lemma CountNone(f: int -> bool, lo: nat, hi: nat)
    requires lo <= hi && forall i :: lo <= i < hi ==> !f(i)
    ensures Count(f, hi) == Count(f, lo)
  {
    TallyJoin(f, 0, lo, hi - lo, true);
    TallyNone(f, lo, hi - lo, true);
  }

  lemma CountGrows(f: int -> bool, lo: nat, hi: nat)
    requires lo <= hi
    ensures Count(f, lo) <= Count(f, hi)
  {
    TallyJoin(f, 0, lo, hi - lo, true);
  }

  lemma CountBelow(f: int -> bool, g: int -> bool, i: nat, n: nat)
    requires i <= n && forall j :: 0 <= j < n ==> g(j) == (f(j) && j < i)
    ensures Count(g, n) == Count(f, i)
  {
    CountNone(g, i, n);
    TallyShift(g, f, 0, i, true);
  }

  /** Keys grow with the index in the parent, so the rank is the number of joining members with a smaller index. */
  lemma RankCountsIndices(parent: Triplet, r: Request, i: nat)
    requires Valid(parent) && r.stride >= 1 && i < parent.size
    ensures RankByKey(parent, r, i) == Count(JoinsFunction(parent, r), i)
  {
    var (f, g) := (JoinsFunction(parent, r), SmallerKey(parent, r, i));
    forall j | 0 <= j < parent.size
      ensures g(j) == (f(j) && j < i)
    { WorldMono(parent, j, i); }
    CountBelow(f, g, i, parent.size);
  }

  /** Named indices are `stride` apart. */
  lemma NoneNamedBetween(r: Request, k: int, i: int)
    requires r.stride >= 1 && k >= -1
    requires if k < 0 then i < r.start else r.start + r.stride * k < i && (k + 1 < r.size ==> i < r.start + r.stride * (k + 1))
    ensures !IsNamed(r, i)
  {
    if IsNamed(r, i) {
      var l :| Named(r, i, l);
      if k < 0 { MulMono(0, l, r.stride); } else if l <= k { MulMono(l, k, r.stride); } else { MulMono(k + 1, l, r.stride); }
      assert false;
    }
  }

  /** Exactly k indices come before the one the request names as member k. */
  lemma {:induction false} CountNamed(f: int -> bool, r: Request, k: nat)
    requires r.start >= 0 && r.stride >= 1 && k < r.size && forall i :: f(i) == IsNamed(r, i)
    ensures r.start + r.stride * k >= 0
    ensures Count(f, r.start + r.stride * k) == k && Count(f, r.start + r.stride * k + 1) == k + 1
    decreases k
  {
    MulMono(0, k, r.stride);
    var at := r.start + r.stride * k;
    assert Named(r, at, k);
    if k == 0 {
      forall i | 0 <= i < at ensures !f(i) { NoneNamedBetween(r, -1, i); }
      CountNone(f, 0, at);
    } else {
      var before := r.start + r.stride * (k - 1);
      CountNamed(f, r, k - 1);
      assert at == before + r.stride;
      forall i | before + 1 <= i < at ensures !f(i) { NoneNamedBetween(r, k - 1, i); }
      CountNone(f, before + 1, at);
    }
  }

  /** The split of the parent's communicator by colour and key gives every member the rank it computed for itself. */
  lemma RankIsMyPe(parent: Triplet, r: Request, i: nat)
    requires Valid(parent) && r.start >= 0 && r.stride >= 1 && i < parent.size && Joins(parent, r, i)
    ensures RankByKey(parent, r, i) == MyPeInNewTeam(parent, r, i)
  {
    RankCountsIndices(parent, r, i);
    var f := JoinsFunction(parent, r);
    forall j ensures f(j) == IsNamed(r, j) { JoinsIff(parent, r, j); }
    JoinsIff(parent, r, i);
    var k :| Named(r, i, k);
    CountNamed(f, r, k);
  }

  /** It has as many members as were requested if and only if the split fits the parent. */
  lemma CommunicatorSizeIff(parent: Triplet, r: Request)
    requires Valid(parent) && 0 <= r.start < parent.size && r.stride >= 1 && r.size >= 1
    ensures CommunicatorSize(parent, r) == r.size <==> FitsParent(parent, r.start, r.stride, r.size)
  {
    var f := JoinsFunction(parent, r);
    forall j ensures f(j) == IsNamed(r, j) { JoinsIff(parent, r, j); }
    CountAllIff(f, r, parent.size);
  }

  lemma CountAllIff(f: int -> bool, r: Request, n: nat)
    requires r.start >= 0 && r.stride >= 1 && r.size >= 1 && forall i :: f(i) == IsNamed(r, i)
    ensures Count(f, n) == r.size <==> r.start + r.stride * (r.size - 1) < n
  {
    var last := r.start + r.stride * (r.size - 1);
    CountNamed(f, r, r.size - 1);
    if last < n {
      forall i | last + 1 <= i < n ensures !f(i) { NoneNamedBetween(r, r.size - 1, i); }
      CountNone(f, last + 1, n);
    } else {
      CountGrows(f, n, last);
    }
  }
}
