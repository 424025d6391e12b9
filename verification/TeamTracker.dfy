/**
  The teams one PE has created and not yet destroyed (src/team_tracker.hpp and
  .cpp), together with the slots they occupy in the pool of the backend.
*/
module TeamTracker {
  import opened PoolBitmask
  import Arithmetic
  import TA = TeamArithmetic

  /** ROCSHMEM_TEAM_INVALID, ROCSHMEM_TEAM_WORLD, or a team the user created, with its pool index. */
  datatype Handle = Invalid | WorldTeam | User(address: int, poolIndex: nat)

  /** Which return of rocshmem_team_split_strided is taken; NotMember and InvalidParent leave the new team invalid. */
  datatype Outcome = TooManyTeams | InvalidParent | BadArguments | NotMember | Abort | Created(team: Handle)

  /** The arguments of a split on one PE: the parent, the request, and this PE's place in the world. */
  datatype Arguments = Arguments(parent: TA.Handle, start: int, stride: int, size: int, worldSize: int, myPe: int)
  {
    predicate Valid() { parent.Team? ==> parent.t.start >= 0 && parent.t.stride >= 1 && parent.t.size >= 1 }

    function Asked(): TA.Request { TA.Request(start, stride, size) }

    /** The request is acceptable to the parent. */
    predicate Acceptable()
      requires parent.Team?
    { TA.Acceptable(parent.t, Asked(), worldSize) }

    /** The PE is one of the parent's members that the request names. */
    ghost predicate IsMember()
      requires parent.Team?
    { exists k :: Names(k) }

    ghost predicate Names(k: int)
      requires parent.Team?
    { 0 <= k < size && myPe == TA.PeInWorld(parent.t, start + stride * k) }
  }

  /** The PE finds itself in the new team exactly if the request names it. */
  lemma MemberIsNamed(args: Arguments)
    requires args.Valid() && args.parent.Team? && args.Acceptable() && args.stride * args.parent.t.stride > 0
    ensures var t := TA.Child(args.parent.t, args.Asked());
      TA.PeInActiveSet(t.start, t.stride, t.size, args.myPe) >= 0 <==> args.IsMember()
  {
    var t := TA.Child(args.parent.t, args.Asked());
    TA.MembershipExact(t, args.myPe);
    forall k
      ensures TA.MemberAt(t, args.myPe, k) <==> args.Names(k)
    { TA.SplitComposes(args.parent.t, args.start, args.stride, args.size, k); }
  }

  /** Some tracked team has pool index x. */
  ghost predicate UsedBy(teams: seq<Handle>, x: nat, i: int) { 0 <= i < |teams| && teams[i].User? && teams[i].poolIndex == x }

  ghost function Indices(teams: seq<Handle>): set<nat> { set i | 0 <= i < |teams| && teams[i].User? :: teams[i].poolIndex }

  lemma IndicesHolds(teams: seq<Handle>, x: nat)
    ensures x in Indices(teams) <==> exists i :: UsedBy(teams, x, i)
  {
    if x in Indices(teams) {
      var i :| 0 <= i < |teams| && teams[i].User? && teams[i].poolIndex == x;
      assert UsedBy(teams, x, i);
    }
  }

  ghost predicate TeamOk(team: Handle, max: nat) { team.User? && 1 <= team.poolIndex < max }

  ghost predicate UserTeams(teams: seq<Handle>, max: nat) {
    && (forall i :: 0 <= i < |teams| ==> TeamOk(teams[i], max))
    && (forall i, j :: 0 <= i < j < |teams| ==> teams[i].poolIndex != teams[j].poolIndex)
  }

  // ------------------------------------------------- a team leaves, or joins, the list

  function Without(teams: seq<Handle>, i: nat): seq<Handle>
    requires i < |teams|
  { teams[..i] + teams[i + 1..] }

  lemma WithoutAt(teams: seq<Handle>, i: nat, k: nat)
    requires i < |teams| && k < |teams| - 1
    ensures |Without(teams, i)| == |teams| - 1 && Without(teams, i)[k] == teams[if k < i then k else k + 1]
  {}

  lemma WithoutOk(teams: seq<Handle>, i: nat, max: nat)
    requires UserTeams(teams, max) && i < |teams|
    ensures UserTeams(Without(teams, i), max)
  {
    var rest := Without(teams, i);
    forall k | 0 <= k < |rest| ensures TeamOk(rest[k], max) { WithoutAt(teams, i, k); }
    forall k, l | 0 <= k < l < |rest| ensures rest[k].poolIndex != rest[l].poolIndex {
      WithoutAt(teams, i, k);
      WithoutAt(teams, i, l);
    }
  }

  lemma WithoutIndices(teams: seq<Handle>, i: nat, max: nat)
    requires UserTeams(teams, max) && i < |teams|
    ensures Indices(Without(teams, i)) == Indices(teams) - {teams[i].poolIndex}
  {
    var rest := Without(teams, i);
    forall x
      ensures x in Indices(rest) <==> x in Indices(teams) && x != teams[i].poolIndex
    {
      IndicesHolds(teams, x);
      IndicesHolds(rest, x);
      if k :| UsedBy(rest, x, k) {
        WithoutAt(teams, i, k);
        assert UsedBy(teams, x, if k < i then k else k + 1);
      }
      if k :| UsedBy(teams, x, k) && k != i {
        WithoutAt(teams, i, if k < i then k else k - 1);
        assert UsedBy(rest, x, if k < i then k else k - 1);
      }
    }
  }

  lemma WithoutMultiset(teams: seq<Handle>, i: nat)
    requires i < |teams|
    ensures multiset(Without(teams, i)) + multiset{teams[i]} == multiset(teams)
  {
    assert teams == teams[..i] + [teams[i]] + teams[i + 1..];
  }

  lemma TeamLeaves(teams: seq<Handle>, i: nat, max: nat)
    requires UserTeams(teams, max) && i < |teams|
    ensures UserTeams(Without(teams, i), max)
    ensures Indices(Without(teams, i)) == Indices(teams) - {teams[i].poolIndex}
    ensures multiset(Without(teams, i)) + multiset{teams[i]} == multiset(teams)
  {
    WithoutOk(teams, i, max);
    WithoutIndices(teams, i, max);
    WithoutMultiset(teams, i);
  }

  lemma TeamJoins(teams: seq<Handle>, t: Handle, max: nat)
    requires UserTeams(teams, max) && TeamOk(t, max) && t.poolIndex !in Indices(teams)
    ensures UserTeams(teams + [t], max)
    ensures Indices(teams + [t]) == Indices(teams) + {t.poolIndex}
    ensures multiset(teams + [t]) == multiset(teams) + multiset{t}
  {
    var all := teams + [t];
    assert Without(all, |teams|) == teams;
    forall k | 0 <= k < |teams| ensures teams[k].User? && teams[k].poolIndex in Indices(teams) {
      assert TeamOk(teams[k], max);
      IndicesHolds(teams, teams[k].poolIndex);
      assert UsedBy(teams, teams[k].poolIndex, k);
    }
    assert UserTeams(all, max);
    WithoutIndices(all, |teams|, max);
    IndicesHolds(all, t.poolIndex);
    assert UsedBy(all, t.poolIndex, |teams|);
  }

  class Backend {
    const pool: Pool
    var teams: seq<Handle>
    /** Every team ever created and every team ever destroyed. */
    ghost var created: multiset<Handle>
    ghost var destroyed: multiset<Handle>

    /** The pool knows exactly the tracked teams, and every created team is tracked or destroyed. */
    ghost predicate Valid()
      reads this, pool.poolBitmask
    {
      && pool.Valid()
      && UserTeams(teams, pool.max)
      && Free(pool.poolBitmask[..], pool.max) == Slots(1, pool.max) - Indices(teams)
      && created == destroyed + multiset(teams)
    }

    constructor (maxNumTeams: nat)
      ensures Valid() && pool.max == maxNumTeams && teams == [] && created == multiset{}
      ensures fresh(pool.poolBitmask) && fresh(pool.reducedBitmask)
    {
      pool := new Pool(maxNumTeams);
      teams := [];
      created := multiset{};
      destroyed := multiset{};
      new;
      assert Indices(teams) == {};
    }

    /** get_num_user_teams never exceeds the number of slots for user teams. */
    lemma TrackedCount()
      requires Valid()
      ensures pool.max >= 1 ==> |teams| <= pool.max - 1
    {
      CountIndices(teams, pool.max);
    }

    /** TeamTracker::track */
    method Track(team: Handle)
      modifies `teams
      ensures teams == if team.Invalid? then old(teams) else old(teams) + [team]
    {
      if team.Invalid? {
        return;
      }
      teams := teams + [team];
    }

    /** TeamTracker::untrack: the first occurrence of the team is erased. */
    method Untrack(team: Handle)
      requires team in teams
      modifies `teams
      ensures exists i :: 0 <= i < |old(teams)| && old(teams)[i] == team && team !in old(teams)[..i]
                && teams == Without(old(teams), i)
    {
      var i := 0;
      while teams[i] != team
        invariant 0 <= i < |teams| && team in teams[i..] && team !in teams[..i]
        decreases |teams| - i
      {
        i := i + 1;
      }
      teams := Without(teams, i);
    }

    /**
      rocshmem_team_split_strided: the checks in the source's order, each outcome under its exact
      condition.  `reduced` is what the all-reduce delivers if the PE takes part, which shows as free only
      what is free here; `address` is where the team object is put.
    */
    method Split(args: Arguments, reduced: Mask, address: int) returns (outcome: Outcome)
      requires Valid() && args.Valid() && |reduced| == BitmaskSize(pool.max)
      requires Free(reduced, pool.max) <= Free(pool.poolBitmask[..], pool.max)
      modifies this, pool.poolBitmask, pool.reducedBitmask
      ensures Valid() && destroyed == old(destroyed)
      ensures outcome.TooManyTeams? <==> |old(teams)| >= pool.max - 1
      ensures outcome.InvalidParent? ==> args.parent.Invalid?
      ensures outcome.BadArguments? ==> args.parent.Team? && !args.Acceptable()
      ensures outcome.NotMember? ==> args.parent.Team? && args.Acceptable() && !args.IsMember()
      ensures outcome.Abort? || outcome.Created? ==> args.parent.Team? && args.Acceptable() && args.IsMember()
      ensures outcome.Abort? ==> Free(reduced, pool.max) == {}
      ensures outcome.Created? ==>
                (outcome.team.User? && outcome.team.address == address
                 && IsLeast(Free(reduced, pool.max), outcome.team.poolIndex)
                 && teams == old(teams) + [outcome.team] && created == old(created) + multiset{outcome.team})
      ensures !outcome.Created? ==> teams == old(teams) && created == old(created)
    {
      if |teams| >= pool.max - 1 {
        return TooManyTeams;
      }
      if args.parent.Invalid? {
        return InvalidParent;
      }
      var verdict := TA.Split(args.parent.t, args.start, args.stride, args.size, args.worldSize);
      TA.SplitIff(args.parent.t, args.Asked(), args.worldSize);
      if verdict.Rejected? {
        return BadArguments;
      }
      var t := verdict.t;
      Arithmetic.MulMono(1, args.stride, args.parent.t.stride);
      MemberIsNamed(args);
      var myPeInNewTeam := TA.PeInActiveSet(t.start, t.stride, t.size, args.myPe);
      if myPeInNewTeam < 0 {
        return NotMember;
      }
      outcome := CreateTeam(reduced, address);
    }

    /** The part of a split that only members execute. */
    method CreateTeam(reduced: Mask, address: int) returns (outcome: Outcome)
      requires Valid() && |reduced| == BitmaskSize(pool.max)
      requires Free(reduced, pool.max) <= Free(pool.poolBitmask[..], pool.max)
      modifies this, pool.poolBitmask, pool.reducedBitmask
      ensures Valid() && destroyed == old(destroyed) && (outcome.Abort? || outcome.Created?)
      ensures outcome.Abort? ==> Free(reduced, pool.max) == {} && teams == old(teams) && created == old(created)
      ensures outcome.Created? ==>
                (outcome.team.User? && outcome.team.address == address
                 && IsLeast(Free(reduced, pool.max), outcome.team.poolIndex)
                 && teams == old(teams) + [outcome.team] && created == old(created) + multiset{outcome.team})
    {
      ghost var before := pool.poolBitmask[..];
      var index := pool.CreateNewTeam(reduced);
      if index < 0 {
        return Abort;
      }
      FreeClearBit(before, pool.max, index);
      var team := User(address, index);
      TeamJoins(teams, team, pool.max);
      Track(team);
      created := created + multiset{team};
      outcome := Created(team);
    }

    /** rocshmem_team_destroy */
    method TeamDestroy(team: Handle)
      requires Valid() && (team.User? ==> team in teams)
      modifies this, pool.poolBitmask
      ensures Valid() && created == old(created)
      ensures !team.User? ==> teams == old(teams) && destroyed == old(destroyed)
      ensures team.User? ==> destroyed == old(destroyed) + multiset{team}
      ensures team.User? ==> exists i :: 0 <= i < |old(teams)| && old(teams)[i] == team && teams == Without(old(teams), i)
      ensures team.User? ==> Free(pool.poolBitmask[..], pool.max) == old(Free(pool.poolBitmask[..], pool.max)) + {team.poolIndex}
    {
      if !team.User? {
        return;
      }
      ghost var before := teams;
      Untrack(team);
      ghost var i :| 0 <= i < |before| && before[i] == team && teams == Without(before, i);
      TeamLeaves(before, i, pool.max);
      pool.TeamDestroy(team.poolIndex);
      destroyed := destroyed + multiset{team};
    }

    /** The team tracked last is destroyed. */
    method DestroyLast()
      requires Valid() && teams != []
      modifies this, pool.poolBitmask
      ensures Valid() && created == old(created) && teams == old(teams)[..|old(teams)| - 1]
      ensures destroyed == old(destroyed) + multiset{old(teams)[|old(teams)| - 1]}
    {
      var last := |teams| - 1;
      var team := teams[last];
      TeamLeaves(teams, last, pool.max);
      pool.TeamDestroy(team.poolIndex);
      assert Without(teams, last) == teams[..last];
      teams := teams[..last];
      destroyed := destroyed + multiset{team};
    }

    /** TeamTracker::destroy_all: afterwards every team ever created was destroyed exactly as often as created. */
    method DestroyAll()
      requires Valid()
      modifies this, pool.poolBitmask
      ensures Valid() && teams == []
      ensures destroyed == created == old(created)
      ensures IsInitial(pool.poolBitmask[..], pool.max)
    {
      while teams != []
        invariant Valid() && created == old(created)
        decreases |teams|
      {
        DestroyLast();
      }
      assert Indices(teams) == {};
    }
  }

  lemma {:induction false} CountIndices(teams: seq<Handle>, max: nat)
    requires UserTeams(teams, max)
    ensures |Indices(teams)| == |teams| && (max >= 1 ==> |teams| <= max - 1)
    decreases |teams|
  {
    if teams == [] {
      assert Indices(teams) == {};
    } else {
      var last := |teams| - 1;
      TeamLeaves(teams, last, max);
      assert Without(teams, last) == teams[..last];
      CountIndices(teams[..last], max);
      assert teams[last].poolIndex in Indices(teams);
      SubsetSize(Indices(teams), Slots(1, max));
    }
  }
}
