/**
  A creation of a team from its first contribution to its end.  If all members run
  and pass the check of their team count, it ends for all of them in the same way.
*/
module TeamCreation {
  import opened TeamProtocol

  /** The first k members of creation o have contributed what was free at them. */
  ghost predicate Entered(v: World, u: World, o: nat, k: nat)
    requires o < |v.ops| && k <= |v.ops[o].members|
  {
    var members := v.ops[o].members;
    && u.max == v.max && |u.pes| == |v.pes| && |u.ops| == |v.ops| && u.ops[o].members == members
    && (forall p :: 0 <= p < |v.pes| ==> u.pes[p] == if p in members[..k] then v.pes[p].(status := Blocked(o)) else v.pes[p])
    && (forall p: nat :: p in u.ops[o].contrib <==> p in members[..k])
    && (forall p: nat :: p in u.ops[o].contrib && p < |v.pes| ==> u.ops[o].contrib[p] == v.pes[p].free)
  }

  /** All members run, pass the check and have not yet contributed. */
  ghost predicate AllReadyFor(v: World, o: nat) {
    && o < |v.ops| && v.ops[o].members != [] && v.ops[o].contrib == map[]
    && forall k :: 0 <= k < |v.ops[o].members| ==> RunsAndPasses(v, v.ops[o].members[k])
  }

  ghost predicate RunsAndPasses(v: World, p: nat) { p < |v.pes| && v.pes[p].status.Running? && GuardPasses(v.pes[p], v.max) }

  function Contributions(members: seq<nat>, o: nat): (acts: seq<Action>)
    ensures |acts| == |members|
  { seq(|members|, k requires 0 <= k < |members| => Contribute(members[k], o)) }

  function Completions(members: seq<nat>): (acts: seq<Action>)
    ensures |acts| == |members|
  { seq(|members|, k requires 0 <= k < |members| => Complete(members[k])) }

  lemma EnterOne(v: World, u: World, o: nat, k: nat)
    requires AllReadyFor(v, o) && 1 <= k <= |v.ops[o].members| && Entered(v, u, o, k - 1)
    ensures Entered(v, Exec(u, Contribute(v.ops[o].members[k - 1], o)), o, k)
  {
    var (members, p) := (v.ops[o].members, v.ops[o].members[k - 1]);
    assert RunsAndPasses(v, p);
    assert members[..k] == members[..k - 1] + [p];
    if p in members[..k - 1] {
      assert Exec(u, Contribute(p, o)) == u;
    } else {
      assert u.pes[p] == v.pes[p];
      ContributeWorks(u, p, o);
    }
  }

  lemma {:induction false} AllEnter(v: World, o: nat, k: nat)
    requires AllReadyFor(v, o) && k <= |v.ops[o].members|
    ensures Entered(v, Run(v, Contributions(v.ops[o].members[..k], o)), o, k)
  {
    if k > 0 {
      AllEnter(v, o, k - 1);
      var (acts, a) := (Contributions(v.ops[o].members[..k - 1], o), Contribute(v.ops[o].members[k - 1], o));
      assert Contributions(v.ops[o].members[..k], o) == acts + [a];
      RunThen(v, acts, a);
      EnterOne(v, Run(v, acts), o, k);
    }
  }

  /** The first k members have taken slot i, or aborted if i is negative; the others are still in the all-reduce. */
  ghost predicate Left(v: World, u: World, o: nat, k: nat, i: int)
    requires o < |v.ops| && k <= |v.ops[o].members|
  {
    var members := v.ops[o].members;
    && |u.pes| == |v.pes|
    && forall p :: 0 <= p < |v.pes| && p in members ==>
         u.pes[p] == if p in members[..k] then Finish(v.pes[p].(status := Blocked(o)), i) else v.pes[p].(status := Blocked(o))
  }

  lemma LeaveOne(v: World, u: World, o: nat, k: nat)
    requires AllReadyFor(v, o) && o < |u.ops| && Ready(u.ops[o]) && 1 <= k <= |v.ops[o].members|
    requires Left(v, u, o, k - 1, Least(Reduced(u.ops[o])))
    ensures Left(v, Exec(u, Complete(v.ops[o].members[k - 1])), o, k, Least(Reduced(u.ops[o])))
    ensures Exec(u, Complete(v.ops[o].members[k - 1])).ops == u.ops
  {
    var (members, p) := (v.ops[o].members, v.ops[o].members[k - 1]);
    assert RunsAndPasses(v, p);
    assert members[..k] == members[..k - 1] + [p];
  }

  lemma {:induction false} AllLeave(v: World, u: World, o: nat, k: nat)
    requires AllReadyFor(v, o) && o < |u.ops| && Ready(u.ops[o]) && k <= |v.ops[o].members| && Left(v, u, o, 0, Least(Reduced(u.ops[o])))
    ensures var u' := Run(u, Completions(v.ops[o].members[..k])); u'.ops == u.ops && Left(v, u', o, k, Least(Reduced(u.ops[o])))
  {
    if k > 0 {
      AllLeave(v, u, o, k - 1);
      var (acts, a) := (Completions(v.ops[o].members[..k - 1]), Complete(v.ops[o].members[k - 1]));
      assert Completions(v.ops[o].members[..k]) == acts + [a];
      RunThen(u, acts, a);
      LeaveOne(v, Run(u, acts), o, k);
    }
  }

  /** Slot j is free at every member now. */
  ghost predicate FreeAtAll(v: World, o: nat, j: nat)
    requires AllReadyFor(v, o)
  { forall k :: 0 <= k < |v.ops[o].members| ==> RunsAndPasses(v, v.ops[o].members[k]) && j in v.pes[v.ops[o].members[k]].free }

  lemma EnteredReduces(v: World, u: World, o: nat)
    requires AllReadyFor(v, o) && Entered(v, u, o, |v.ops[o].members|)
    ensures Ready(u.ops[o]) && forall j: nat :: FreeEverywhere(u.ops[o], j) <==> FreeAtAll(v, o, j)
  {
    var members := v.ops[o].members;
    assert members[..|members|] == members;
    forall k | 0 <= k < |members|
      ensures members[k] in u.ops[o].contrib && u.ops[o].contrib[members[k]] == v.pes[members[k]].free
    { assert RunsAndPasses(v, members[k]) && members[k] in members; }
  }

  /**
    From any state in which all members of a creation run and pass the check: once each has contributed
    and each has completed, all of them have the team in the least slot that was free at all of them, or
    all have aborted because there was none.
  */
  lemma CreationEnds(v: World, o: nat, k: nat)
    requires AllReadyFor(v, o) && k < |v.ops[o].members|
    ensures var (members, p) := (v.ops[o].members, v.ops[o].members[k]);
            var u := Run(Run(v, Contributions(members, o)), Completions(members));
            p < |v.pes| &&
            if forall j: nat :: !FreeAtAll(v, o, j) then u.pes[p] == v.pes[p].(status := Aborted)
            else
              && u.pes[p].status.Running? && o in u.pes[p].held && u.pes[p].held == v.pes[p].held[o := u.pes[p].held[o]]
              && FreeAtAll(v, o, u.pes[p].held[o]) && forall j: nat :: FreeAtAll(v, o, j) ==> u.pes[p].held[o] <= j
  {
    var (members, p) := (v.ops[o].members, v.ops[o].members[k]);
    assert members[..|members|] == members && RunsAndPasses(v, p);
    AllEnter(v, o, |members|);
    var u := Run(v, Contributions(members, o));
    EnteredReduces(v, u, o);
    LeastReduced(u.ops[o]);
    AllLeave(v, u, o, |members|);
  }
}
