/**
  The direct all-reduce on the flags a team really has.  All collective
  operations of a team share one array of flags at each PE.  The direct algorithm
  uses the elements of that array that have the numbers of the team's PEs in the
  world, and clears as many as the world has PEs
  (src/ipc/context_ipc_tmpl_device.hpp, lines 196 and 219).
*/
module TeamFlags {
  import opened Arithmetic
  import opened RingAllreduce
  import opened D = DirectAllreduce

  /** PE k of the team is PE start + stride * k of a world of `world` PEs. */
  datatype Team = Team(start: nat, stride: nat, world: nat)
  {
    ghost predicate Ok(n: nat) { n >= 1 && stride >= 1 && start + stride * (n - 1) < world }

    function Flag(p: int): int { start + stride * p }
  }

  lemma FlagsDiffer(team: Team, n: nat, p: int, q: int)
    requires team.Ok(n) && 0 <= p < n && 0 <= q < n
    ensures 0 <= team.Flag(p) < team.world && (team.Flag(p) == team.Flag(q) <==> p == q)
  {
    MulMono(p, n - 1, team.stride);
    if p < q { MulMono(p + 1, q, team.stride); }
    if q < p { MulMono(q + 1, p, team.stride); }
  }

  /** A direct call and the flags of all PEs: `sync(q, k)` is element k of PE q's array. */
  datatype Direct<!T> = Direct(at: seq<Place>, slots: (int, int) -> T, dst: int -> T, sync: (int, int) -> int)

  function FlagsOf(team: Team, sync: (int, int) -> int): (int, int) -> int { (q: int, p: int) => sync(q, team.Flag(p)) }

  function WorldOf<T>(team: Team, d: Direct<T>): World<T> { World(d.at, d.slots, FlagsOf(team, d.sync), d.dst) }

  /** What the next action of PE r does to the arrays. */
  function Written(team: Team, sync: (int, int) -> int, a: Place, r: int): (int, int) -> int {
    match a.stage
    case Signal => Set2(sync, a.k, team.Flag(r), RAISED)
    case Reset => (q: int, k: int) => if q == r && 0 <= k < team.world then SYNC_VALUE else sync(q, k)
    case _ => sync
  }

  function Do<T>(team: Team, ring: Ring<T>, d: Direct<T>, r: int): (d': Direct<T>)
    requires |d.at| == ring.n
    ensures |d'.at| == ring.n
  {
    if 0 <= r < ring.n then
      var w := D.Act(ring, WorldOf(team, d), r);
      Direct(w.at, w.work, w.dst, Written(team, d.sync, d.at[r], r))
    else d
  }

  function DoAll<T>(team: Team, ring: Ring<T>, d: Direct<T>, sched: seq<int>): (d': Direct<T>)
    requires |d.at| == ring.n
    ensures |d'.at| == ring.n
  {
    if sched == [] then d else Do(team, ring, DoAll(team, ring, d, sched[..|sched| - 1]), sched[|sched| - 1])
  }

  // ------------------------------------------------------- it is the direct algorithm

  /** The arrays show the flags of the algorithm. */
  ghost predicate Shows<T>(team: Team, n: nat, d: Direct<T>, w: World<T>) {
    && |d.at| == n && w.at == d.at && w.work == d.slots && w.dst == d.dst
    && forall q, p :: 0 <= q < n && 0 <= p < n ==> w.flag(q, p) == d.sync(q, team.Flag(p))
  }

  lemma DoShows<T>(team: Team, ring: Ring<T>, d: Direct<T>, w: World<T>, r: int)
    requires team.Ok(ring.n) && Shows(team, ring.n, d, w) && D.Inv(ring, w) && 0 <= r < ring.n
    ensures Shows(team, ring.n, Do(team, ring, d, r), D.Act(ring, w, r))
  {
    var (d', w') := (Do(team, ring, d, r), D.Act(ring, w, r));
    forall q, p | 0 <= q < ring.n && 0 <= p < ring.n
      ensures w'.flag(q, p) == d'.sync(q, team.Flag(p))
    { FlagsDiffer(team, ring.n, p, r); }
  }

  /** Flags that do not belong to another PE of the team are never raised. */
  ghost predicate OnlyOthers<T>(team: Team, n: nat, d: Direct<T>) {
    forall q, k :: 0 <= q < n && d.sync(q, k) != SYNC_VALUE ==> exists p :: 0 <= p < n && p != q && k == team.Flag(p)
  }

  lemma DoOnlyOthers<T>(team: Team, ring: Ring<T>, d: Direct<T>, w: World<T>, r: int)
    requires team.Ok(ring.n) && Shows(team, ring.n, d, w) && D.Inv(ring, w) && 0 <= r < ring.n && OnlyOthers(team, ring.n, d)
    ensures OnlyOthers(team, ring.n, Do(team, ring, d, r))
  {
    var d' := Do(team, ring, d, r);
    assert PlaceOk(ring.n, r, d.at[r]);
    forall q, k | 0 <= q < ring.n && d'.sync(q, k) != SYNC_VALUE
      ensures exists p :: 0 <= p < ring.n && p != q && k == team.Flag(p)
    {
      if d.sync(q, k) == SYNC_VALUE {
        assert k == team.Flag(r) && q != r;
      }
    }
  }

  /** From any flags at all, a run changes none but as many as the world has PEs. */
  lemma {:induction false} OthersUntouched<T>(team: Team, ring: Ring<T>, d: Direct<T>, sched: seq<int>, q: int, k: int)
    requires team.Ok(ring.n) && |d.at| == ring.n && 0 <= q < ring.n && !(0 <= k < team.world)
    ensures DoAll(team, ring, d, sched).sync(q, k) == d.sync(q, k)
  {
    if sched != [] {
      OthersUntouched(team, ring, d, sched[..|sched| - 1], q, k);
      var r := sched[|sched| - 1];
      if 0 <= r < ring.n { FlagsDiffer(team, ring.n, r, r); }
    }
  }

  /** All PEs are about to call. */
  ghost predicate AtEntry<T>(n: nat, d: Direct<T>) { |d.at| == n && forall p :: 0 <= p < n ==> d.at[p] == Place(Copy, 0) }

  /** No PE of the team has a flag raised. */
  ghost predicate Clean(n: nat, sync: (int, int) -> int) { forall q, k :: 0 <= q < n ==> sync(q, k) == SYNC_VALUE }

  /** From clean arrays every run is one of the direct algorithm. */
  lemma {:induction false} IsDirect<T>(team: Team, ring: Ring<T>, d: Direct<T>, sched: seq<int>)
    requires team.Ok(ring.n) && AtEntry(ring.n, d) && Clean(ring.n, d.sync)
    ensures Begin(ring, WorldOf(team, d)) && D.Inv(ring, D.ActAll(ring, WorldOf(team, d), sched))
    ensures Shows(team, ring.n, DoAll(team, ring, d, sched), D.ActAll(ring, WorldOf(team, d), sched))
    ensures OnlyOthers(team, ring.n, DoAll(team, ring, d, sched))
  {
    DirectInv(ring, WorldOf(team, d), sched);
    if sched != [] {
      var (before, r) := (sched[..|sched| - 1], sched[|sched| - 1]);
      IsDirect(team, ring, d, before);
      if 0 <= r < ring.n {
        DoShows(team, ring, DoAll(team, ring, d, before), D.ActAll(ring, WorldOf(team, d), before), r);
        DoOnlyOthers(team, ring, DoAll(team, ring, d, before), D.ActAll(ring, WorldOf(team, d), before), r);
      }
    }
  }

  /** A PE that has returned has all its flags cleared. */
  lemma DoneIsClean<T>(team: Team, ring: Ring<T>, d: Direct<T>, w: World<T>, q: int, k: int)
    requires team.Ok(ring.n) && Shows(team, ring.n, d, w) && D.Inv(ring, w) && OnlyOthers(team, ring.n, d)
    requires 0 <= q < ring.n && d.at[q].stage.Done?
    ensures d.sync(q, k) == SYNC_VALUE
  {
    forall p | 0 <= p < ring.n && p != q
      ensures d.sync(q, team.Flag(p)) == SYNC_VALUE
    {
      assert Link(ring, w, p, q);
      assert w.flag(q, p) == d.sync(q, team.Flag(p));
    }
  }
}
