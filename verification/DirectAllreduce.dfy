/**
  The direct all-reduce of the IPC backend (src/ipc/context_ipc_tmpl_device.hpp):
  every PE copies its source, puts it into a slot of its own at every other PE,
  raises a flag there, then waits for the flags of the others in turn and
  combines their data.  As for the ring, the single actions of all PEs interleave in any order.
  The data of one call is `input(pe, 0, 0)` of a Ring value, so that both
  algorithms have one reference result.
*/
module DirectAllreduce {
  import opened RingAllreduce

  /** The action a PE performs next; `k` is the loop counter, counted in PEs of the team. */
  datatype Stage = Copy | Put | Signal | Wait | Combine | Reset | Done

  datatype Place = Place(stage: Stage, k: int)

  /** `work(q, p)` and `flag(q, p)` are the slots of PE p at PE q. */
  datatype World<!T> = World(at: seq<Place>, work: (int, int) -> T, flag: (int, int) -> int, dst: int -> T)

  const RAISED := 1

  // ------------------------------------------------------------------ program

  /** All PEs call with their flags reset; slots and destinations may hold anything. */
  ghost predicate Begin<T>(ring: Ring<T>, w: World<T>) {
    && |w.at| == ring.n
    && (forall p :: 0 <= p < ring.n ==> w.at[p] == Place(Copy, 0))
    && (forall q, p :: 0 <= q < ring.n && 0 <= p < ring.n ==> w.flag(q, p) == SYNC_VALUE)
  }

  /** After a PE of the team was served in the first loop; after the last one the second loop begins. */
  function NextSend(n: int, k: int): Place { if k + 1 < n then Place(Put, k + 1) else Place(Wait, 0) }

  function NextWait(n: int, k: int): Place { if k + 1 < n then Place(Wait, k + 1) else Place(Reset, 0) }

  /** One action of PE p; both loops pass over p itself, and a failed spin test changes nothing. */
  function Act<T>(ring: Ring<T>, w: World<T>, p: int): World<T>
    requires |w.at| == ring.n
  {
    if !(0 <= p < ring.n) then w
    else
      var (k, n) := (w.at[p].k, ring.n);
      match w.at[p].stage
      case Copy => Go(w, p, Place(Put, 0)).(dst := Set1(w.dst, p, ring.input(p, 0, 0)))
      case Put =>
        if k == p then Go(w, p, NextSend(n, k))
        else Go(w, p, Place(Signal, k)).(work := Set2(w.work, k, p, ring.input(p, 0, 0)))
      case Signal => Go(w, p, NextSend(n, k)).(flag := Set2(w.flag, k, p, RAISED))
      case Wait =>
        if k == p then Go(w, p, NextWait(n, k))
        else if w.flag(p, k) == RAISED then Go(w, p, Place(Combine, k)) else w
      case Combine => Go(w, p, NextWait(n, k)).(dst := Set1(w.dst, p, ring.op(w.dst(p), w.work(p, k))))
      case Reset => Go(w, p, Place(Done, 0)).(flag := (q: int, x: int) => if q == p then SYNC_VALUE else w.flag(q, x))
      case Done => w
  }

  function Go<T>(w: World<T>, p: int, place: Place): World<T>
    requires 0 <= p < |w.at|
  { w.(at := w.at[p := place]) }

  function Set1<V>(f: int -> V, a: int, v: V): int -> V { x => if x == a then v else f(x) }

  function ActAll<T>(ring: Ring<T>, w: World<T>, sched: seq<int>): (r: World<T>)
    requires |w.at| == ring.n
    ensures |r.at| == ring.n
  {
    if sched == [] then w else Act(ring, ActAll(ring, w, sched[..|sched| - 1]), sched[|sched| - 1])
  }

  // --------------------------------------------------------------- invariant

  /** PE at this place has put its data, or raised its flag, at PE q. */
  predicate HasPut(a: Place, q: int) {
    match a.stage
    case Copy => false
    case Put => q < a.k
    case Signal => q <= a.k
    case _ => true
  }

  predicate HasSignalled(a: Place, q: int) {
    if a.stage.Copy? then false else if a.stage.Put? || a.stage.Signal? then q < a.k else true
  }

  /** How many PEs of the team the second loop has passed. */
  function Passed(n: int, a: Place): int {
    match a.stage
    case Copy => 0
    case Put => 0
    case Signal => 0
    case Wait => a.k
    case Combine => a.k
    case Reset => n
    case Done => n
  }

  /** PE at this place has seen PE p's flag. */
  predicate HasSeen(n: int, a: Place, p: int) { p < Passed(n, a) || (a.stage.Combine? && p == a.k) }

  /** What PE p has combined after passing j PEs. */
  function Partial<T>(ring: Ring<T>, p: int, j: nat): T {
    if j == 0 then ring.input(p, 0, 0)
    else if j - 1 == p then Partial(ring, p, j - 1)
    else ring.op(Partial(ring, p, j - 1), ring.input(j - 1, 0, 0))
  }

  predicate PlaceOk(n: int, p: int, a: Place) {
    match a.stage
    case Reset => true
    case Done => true
    case Signal => 0 <= a.k < n && a.k != p
    case Combine => 0 <= a.k < n && a.k != p
    case _ => 0 <= a.k < n
  }

  /** What holds between the sender p and the receiver q. */
  ghost predicate Link<T>(ring: Ring<T>, w: World<T>, p: int, q: int)
    requires |w.at| == ring.n && 0 <= p < ring.n && 0 <= q < ring.n
  {
    && (HasPut(w.at[p], q) ==> w.work(q, p) == ring.input(p, 0, 0))
    && (HasSeen(ring.n, w.at[q], p) ==> HasSignalled(w.at[p], q))
    && w.flag(q, p) == if HasSignalled(w.at[p], q) && !w.at[q].stage.Done? then RAISED else SYNC_VALUE
  }

  /** From its copy on a PE's destination is what it has combined. */
  ghost predicate DstOk<T>(ring: Ring<T>, w: World<T>, p: int)
    requires |w.at| == ring.n && 0 <= p < ring.n
  { Passed(ring.n, w.at[p]) >= 0 && (!w.at[p].stage.Copy? ==> w.dst(p) == Partial(ring, p, Passed(ring.n, w.at[p]))) }

  ghost predicate Inv<T>(ring: Ring<T>, w: World<T>) {
    && |w.at| == ring.n
    && (forall p :: 0 <= p < ring.n ==> PlaceOk(ring.n, p, w.at[p]))
    && (forall p :: 0 <= p < ring.n ==> DstOk(ring, w, p))
    && (forall p, q :: 0 <= p < ring.n && 0 <= q < ring.n && p != q ==> Link(ring, w, p, q))
  }

  lemma BeginInv<T>(ring: Ring<T>, w: World<T>)
    requires ring.n >= 1 && Begin(ring, w)
    ensures Inv(ring, w)
  {}

  /** An action keeps what holds between any two PEs. */
  lemma LinkKept<T>(ring: Ring<T>, w: World<T>, r: int, p: int, q: int)
    requires Inv(ring, w) && 0 <= r < ring.n && 0 <= p < ring.n && 0 <= q < ring.n && p != q
    ensures Link(ring, Act(ring, w, r), p, q)
  {
    assert Link(ring, w, p, q);
    if r == p { SenderActs(ring, w, p, q); } else if r == q { ReceiverActs(ring, w, p, q); }
  }

  lemma SenderActs<T>(ring: Ring<T>, w: World<T>, p: int, q: int)
    requires Inv(ring, w) && 0 <= p < ring.n && 0 <= q < ring.n && p != q && Link(ring, w, p, q)
    ensures Link(ring, Act(ring, w, p), p, q)
  {}

  lemma ReceiverActs<T>(ring: Ring<T>, w: World<T>, p: int, q: int)
    requires Inv(ring, w) && 0 <= p < ring.n && 0 <= q < ring.n && p != q && Link(ring, w, p, q)
    ensures Link(ring, Act(ring, w, q), p, q)
  {}

  lemma PlaceKept<T>(ring: Ring<T>, w: World<T>, r: int, p: int)
    requires Inv(ring, w) && 0 <= r < ring.n && 0 <= p < ring.n
    ensures var w' := Act(ring, w, r);
      PlaceOk(ring.n, p, w'.at[p]) && DstOk(ring, w', p)
  {
    assert DstOk(ring, w, p);
    if r == p && w.at[p].stage.Combine? { assert Link(ring, w, w.at[p].k, p); }
  }

  lemma {:induction false} DirectInv<T>(ring: Ring<T>, start: World<T>, sched: seq<int>)
    requires ring.n >= 1 && Begin(ring, start)
    ensures Inv(ring, ActAll(ring, start, sched))
  {
    if sched == [] {
      BeginInv(ring, start);
    } else {
      DirectInv(ring, start, sched[..|sched| - 1]);
      KeepAct(ring, ActAll(ring, start, sched[..|sched| - 1]), sched[|sched| - 1]);
    }
  }

  lemma KeepAct<T>(ring: Ring<T>, w: World<T>, r: int)
    requires Inv(ring, w)
    ensures Inv(ring, Act(ring, w, r))
  {
    if 0 <= r < ring.n {
      var w' := Act(ring, w, r);
      forall p | 0 <= p < ring.n
        ensures PlaceOk(ring.n, p, w'.at[p]) && DstOk(ring, w', p)
      { PlaceKept(ring, w, r, p); }
      forall p, q | 0 <= p < ring.n && 0 <= q < ring.n && p != q
        ensures Link(ring, w', p, q)
      { LinkKept(ring, w, r, p, q); }
    }
  }

  // ----------------------------------------------------------------- results

  ghost predicate AllDone<T>(ring: Ring<T>, w: World<T>) {
    |w.at| == ring.n && forall p :: 0 <= p < ring.n ==> w.at[p].stage.Done?
  }

  /** The data of the others is combined in PE order onto a PE's own; with one order for all it is the reduction. */
  lemma {:induction false} PartialIsReduction<T(!new)>(ring: Ring<T>, p: int, j: nat)
    requires 0 <= p < ring.n && 1 <= j <= ring.n && Associative(ring.op) && Commutative(ring.op)
    ensures Partial(ring, p, j) == if j <= p then ring.op(InOrder(ring, 0, 0, 0, j), ring.input(p, 0, 0)) else InOrder(ring, 0, 0, 0, j)
  {
    var own, next := ring.input(p, 0, 0), ring.input(j - 1, 0, 0);
    if j == 1 {
      assert CommutativeAt(ring.op, own, next);
    } else {
      PartialIsReduction(ring, p, j - 1);
      var before := InOrder(ring, 0, 0, 0, j - 1);
      if j <= p {
        assert CommutativeAt(ring.op, ring.op(before, own), next);
        assert AssociativeAt(ring.op, next, before, own);
      } else {
        assert CommutativeAt(ring.op, before, next);
      }
    }
  }

  /** After every run in which all PEs returned, every PE holds the reduction over all PEs in PE order. */
  lemma DirectReduces<T(!new)>(ring: Ring<T>, start: World<T>, sched: seq<int>, p: int)
    requires ring.n >= 1 && Begin(ring, start) && AllDone(ring, ActAll(ring, start, sched))
    requires Associative(ring.op) && Commutative(ring.op) && 0 <= p < ring.n
    ensures ActAll(ring, start, sched).dst(p) == InOrder(ring, 0, 0, 0, ring.n)
  {
    DirectInv(ring, start, sched);
    assert DstOk(ring, ActAll(ring, start, sched), p);
    PartialIsReduction(ring, p, ring.n);
  }

  /** No reachable state is stuck. */
  lemma DirectNoDeadlock<T>(ring: Ring<T>, start: World<T>, sched: seq<int>) returns (p: int)
    requires ring.n >= 1 && Begin(ring, start) && !AllDone(ring, ActAll(ring, start, sched))
    ensures 0 <= p < ring.n
    ensures ActAll(ring, start, sched + [p]).at[p] != ActAll(ring, start, sched).at[p]
  {
    var w := ActAll(ring, start, sched);
    DirectInv(ring, start, sched);
    p :| 0 <= p < ring.n && !w.at[p].stage.Done?;
    if w.at[p].stage.Wait? && w.at[p].k != p {
      assert Link(ring, w, w.at[p].k, p);
      if !HasSignalled(w.at[w.at[p].k], p) { p := w.at[p].k; }
    }
    assert (sched + [p])[..|sched|] == sched;
  }

  /** Position of a place in program order. */
  function Position(n: int, a: Place): int {
    match a.stage
    case Copy => -1
    case Put => 2 * a.k
    case Signal => 2 * a.k + 1
    case Wait => 2 * n + 2 * a.k
    case Combine => 2 * n + 2 * a.k + 1
    case Reset => 4 * n
    case Done => 4 * n + 1
  }

  lemma ActMoves<T>(ring: Ring<T>, w: World<T>, p: int)
    requires |w.at| == ring.n && 0 <= p < ring.n && PlaceOk(ring.n, p, w.at[p])
    ensures var w' := Act(ring, w, p);
      && (w' == w || Position(ring.n, w'.at[p]) > Position(ring.n, w.at[p]))
      && forall q :: 0 <= q < ring.n && q != p ==> w'.at[q] == w.at[q]
  {}

  /** Every action spins in place or moves its PE forward, at most 4n + 2 times. */
  lemma DirectProgress<T>(ring: Ring<T>, start: World<T>, sched: seq<int>, p: int)
    requires ring.n >= 1 && Begin(ring, start) && 0 <= p < ring.n
    ensures var (w, w') := (ActAll(ring, start, sched), ActAll(ring, start, sched + [p]));
      && (w' == w || Position(ring.n, w'.at[p]) > Position(ring.n, w.at[p]))
      && (forall q :: 0 <= q < ring.n && q != p ==> w'.at[q] == w.at[q])
      && -1 <= Position(ring.n, w.at[p]) <= 4 * ring.n + 1
  {
    DirectInv(ring, start, sched);
    assert (sched + [p])[..|sched|] == sched;
    ActMoves(ring, ActAll(ring, start, sched), p);
  }

  /** A PE never combines a slot that its owner may still be writing. */
  lemma DirectNoRace<T>(ring: Ring<T>, start: World<T>, sched: seq<int>, p: int, q: int)
    requires ring.n >= 1 && Begin(ring, start) && 0 <= p < ring.n && 0 <= q < ring.n
    ensures var w := ActAll(ring, start, sched); !(w.at[p] == Place(Put, q) && w.at[q] == Place(Combine, p))
  {
    DirectInv(ring, start, sched);
    var w := ActAll(ring, start, sched);
    if p != q { assert Link(ring, w, p, q); }
  }

  /** When all PEs returned, all flags are cleared: the next call starts as this one did. */
  lemma DirectLeavesClean<T>(ring: Ring<T>, start: World<T>, sched: seq<int>, p: int, q: int)
    requires ring.n >= 1 && Begin(ring, start) && AllDone(ring, ActAll(ring, start, sched))
    requires 0 <= p < ring.n && 0 <= q < ring.n && p != q
    ensures ActAll(ring, start, sched).flag(q, p) == SYNC_VALUE
  {
    DirectInv(ring, start, sched);
    assert Link(ring, ActAll(ring, start, sched), p, q);
  }
}
