/**
  Creation and destruction of teams by many PEs at once.  Each PE only ever
  changes its own set of free slots: it contributes the set to an all-reduce
  over the members of the new team, waits for all of them, takes the least slot
  that is free everywhere, and later gives the slot back on its own, without a
  barrier.  The model interleaves these steps of all PEs in any order.  It works
  on the sets that the bit masks stand for; module PoolBitmask shows that the
  byte operations compute the same set operations and the same choice.
*/
module TeamProtocol {
  import opened Arithmetic
  import opened PoolBitmask

  /** A PE runs, is blocked in the all-reduce of a creation, or has called abort(). */
  datatype Status = Running | Blocked(op: nat) | Aborted

  /** `held` maps a creation the PE took part in to the slot it got. */
  datatype PE = PE(free: set<nat>, held: map<nat, nat>, status: Status)

  /** One collective creation: who takes part, and what they contributed so far. */
  datatype Creation = Creation(members: seq<nat>, contrib: map<nat, set<nat>>)

  datatype World = World(max: nat, pes: seq<PE>, ops: seq<Creation>)

  datatype Action = Contribute(pe: nat, op: nat) | Complete(pe: nat) | Release(pe: nat, op: nat)

  // ------------------------------------------------------------------ program

  ghost predicate Start(w: World) {
    && (forall p :: 0 <= p < |w.pes| ==> w.pes[p] == PE(Slots(1, w.max), map[], Running))
    && (forall o :: 0 <= o < |w.ops| ==> w.ops[o].members != [] && w.ops[o].contrib == map[])
    && (forall o, k :: 0 <= o < |w.ops| && 0 <= k < |w.ops[o].members| ==> w.ops[o].members[k] < |w.pes|)
  }

  predicate Ready(c: Creation) {
    c.members != [] && forall k :: 0 <= k < |c.members| ==> c.members[k] in c.contrib
  }

  /** What the all-reduce delivers to every member. */
  ghost function Reduced(c: Creation): set<nat>
    requires Ready(c)
  { Common(seq(|c.members|, k requires 0 <= k < |c.members| => c.contrib[c.members[k]])) }

  ghost function Least(s: set<nat>): (i: int)
    ensures IsLeast(s, i)
  {
    LeastExists(s);
    var i :| IsLeast(s, i);
    i
  }

  lemma LeastExists(s: set<nat>)
    ensures exists i :: IsLeast(s, i)
  {
    var i := FindLeast(s);
  }

  lemma {:induction false} FindLeast(s: set<nat>) returns (i: int)
    ensures IsLeast(s, i)
    decreases s
  {
    if s == {} {
      i := -1;
    } else {
      var x :| x in s;
      var j := FindLeast(s - {x});
      i := if j < 0 || x < j then x else j;
      assert s == s - {x} + {x};
    }
  }

  /** A slot is in the result exactly if every member contributed it as free. */
  lemma ReducedIs(c: Creation, i: nat)
    requires Ready(c)
    ensures i in Reduced(c) <==> forall k :: 0 <= k < |c.members| ==> i in c.contrib[c.members[k]]
  {
    var sets := seq(|c.members|, k requires 0 <= k < |c.members| => c.contrib[c.members[k]]);
    assert forall k :: 0 <= k < |sets| ==> sets[k] == c.contrib[c.members[k]];
  }

  /** The check a PE makes on its own number of teams before it takes part in a split. */
  predicate GuardPasses(pe: PE, max: nat) { |pe.held| < max - 1 }

  /** One step; a step that is not possible changes nothing. */
  ghost function Exec(w: World, a: Action): (v: World)
    ensures v.max == w.max && |v.pes| == |w.pes| && |v.ops| == |w.ops|
  {
    if a.pe >= |w.pes| then w
    else
      var pe := w.pes[a.pe];
      match a
      case Contribute(p, o) =>
        if o < |w.ops| && pe.status.Running? && p in w.ops[o].members && p !in w.ops[o].contrib && GuardPasses(pe, w.max)
        then w.(pes := w.pes[p := pe.(status := Blocked(o))],
                ops := w.ops[o := Contributed(w.ops[o], p, pe.free)])
        else w
      case Complete(p) =>
        if pe.status.Blocked? && pe.status.op < |w.ops| && Ready(w.ops[pe.status.op])
        then w.(pes := w.pes[p := Finish(pe, Least(Reduced(w.ops[pe.status.op])))])
        else w
      case Release(p, o) =>
        if pe.status.Running? && o in pe.held
        then w.(pes := w.pes[p := PE(pe.free + {pe.held[o]}, pe.held - {o}, Running)])
        else w
  }

  function Contributed(c: Creation, p: nat, free: set<nat>): Creation { c.(contrib := c.contrib[p := free]) }

  /** What create_new_team does with the index it found. */
  function Finish(pe: PE, index: int): PE
    requires pe.status.Blocked?
  {
    if index < 0 then pe.(status := Aborted)
    else PE(pe.free - {index}, pe.held[pe.status.op := index], Running)
  }

  ghost function Run(w: World, acts: seq<Action>): (v: World)
    ensures v.max == w.max && |v.pes| == |w.pes| && |v.ops| == |w.ops|
  {
    if acts == [] then w else Exec(Run(w, acts[..|acts| - 1]), acts[|acts| - 1])
  }

  // ---------------------------------------------------------------- invariant

  /** The slots of the teams a PE is in. */
  function Image(held: map<nat, nat>): set<nat> { set o | o in held :: held[o] }

  ghost predicate Distinct(held: map<nat, nat>) {
    forall o, o' :: o in held && o' in held && o != o' ==> held[o] != held[o']
  }

  /** The free set says exactly which slots the PE does not hold, and no two teams share one. */
  ghost predicate PoolOk(pe: PE, max: nat) {
    && pe.free == Slots(1, max) - Image(pe.held)
    && Image(pe.held) <= Slots(1, max)
    && Distinct(pe.held)
  }

  /** A blocked PE's free set is the one it contributed; a held slot is the one its creation chose. */
  ghost predicate TakesPart(pe: PE, p: nat, ops: seq<Creation>) {
    && (pe.status.Blocked? ==>
          var o := pe.status.op;
          o < |ops| && o !in pe.held && p in ops[o].members && p in ops[o].contrib && ops[o].contrib[p] == pe.free)
    && (forall o :: o in pe.held ==> HoldsOutcome(pe, p, o, ops))
  }

  ghost predicate HoldsOutcome(pe: PE, p: nat, o: nat, ops: seq<Creation>)
    requires o in pe.held
  { o < |ops| && p in ops[o].contrib && Ready(ops[o]) && pe.held[o] == Least(Reduced(ops[o])) }

  ghost predicate Inv(w: World) {
    && (forall p :: 0 <= p < |w.pes| ==> PoolOk(w.pes[p], w.max))
    && (forall p :: 0 <= p < |w.pes| ==> TakesPart(w.pes[p], p, w.ops))
  }

  // ------------------------------------------------------------- every step keeps it

  lemma PoolTakes(pe: PE, max: nat, i: nat)
    requires PoolOk(pe, max) && pe.status.Blocked? && pe.status.op !in pe.held && i in pe.free
    ensures PoolOk(Finish(pe, i), max)
  {
    var held := pe.held[pe.status.op := i];
    assert Image(held) == Image(pe.held) + {i} by {
      assert held[pe.status.op] == i;
      forall x | x in pe.held
        ensures pe.held[x] in Image(held)
      { assert held[x] == pe.held[x]; }
    }
  }

  lemma PoolReleases(pe: PE, max: nat, o: nat)
    requires PoolOk(pe, max) && o in pe.held
    ensures PoolOk(PE(pe.free + {pe.held[o]}, pe.held - {o}, Running), max)
  {
    var held := pe.held - {o};
    forall i
      ensures i in Image(held) <==> i in Image(pe.held) && i != pe.held[o]
    {
      if i in Image(pe.held) && i != pe.held[o] {
        var x :| x in pe.held && pe.held[x] == i;
        assert held[x] == i;
      }
    }
  }

  /** A blocked member of a complete creation finds the chosen slot still free at itself. */
  lemma ChosenIsFreeHere(pe: PE, p: nat, ops: seq<Creation>)
    requires TakesPart(pe, p, ops) && pe.status.Blocked? && Ready(ops[pe.status.op])
    ensures Least(Reduced(ops[pe.status.op])) >= 0 ==> Least(Reduced(ops[pe.status.op])) in pe.free
  {
    var c := ops[pe.status.op];
    var i := Least(Reduced(c));
    if i >= 0 {
      ReducedIs(c, i);
      var k :| 0 <= k < |c.members| && c.members[k] == p;
    }
  }

  lemma FinishTakesPart(pe: PE, p: nat, ops: seq<Creation>)
    requires TakesPart(pe, p, ops) && pe.status.Blocked? && Ready(ops[pe.status.op])
    ensures TakesPart(Finish(pe, Least(Reduced(ops[pe.status.op]))), p, ops)
  {
    var pe' := Finish(pe, Least(Reduced(ops[pe.status.op])));
    forall o | o in pe'.held
      ensures HoldsOutcome(pe', p, o, ops)
    {
      if o in pe.held { assert HoldsOutcome(pe, p, o, ops); }
    }
  }

  lemma KeepComplete(w: World, p: nat)
    requires Inv(w)
    ensures Inv(Exec(w, Complete(p)))
  {
    if p < |w.pes| && w.pes[p].status.Blocked? && Ready(w.ops[w.pes[p].status.op]) {
      var pe := w.pes[p];
      ChosenIsFreeHere(pe, p, w.ops);
      FinishTakesPart(pe, p, w.ops);
      var i := Least(Reduced(w.ops[pe.status.op]));
      if i >= 0 { PoolTakes(pe, w.max, i); }
    }
  }

  lemma ReplaceKeeps(w: World, p: nat, pe: PE)
    requires Inv(w) && p < |w.pes| && PoolOk(pe, w.max) && TakesPart(pe, p, w.ops)
    ensures Inv(w.(pes := w.pes[p := pe]))
  {}

  lemma ReleaseTakesPart(pe: PE, p: nat, ops: seq<Creation>, o: nat)
    requires TakesPart(pe, p, ops) && o in pe.held
    ensures TakesPart(PE(pe.free + {pe.held[o]}, pe.held - {o}, Running), p, ops)
  {
    var pe' := PE(pe.free + {pe.held[o]}, pe.held - {o}, Running);
    forall x | x in pe'.held
      ensures HoldsOutcome(pe', p, x, ops)
    { assert HoldsOutcome(pe, p, x, ops); }
  }

  lemma KeepRelease(w: World, p: nat, o: nat)
    requires Inv(w)
    ensures Inv(Exec(w, Release(p, o)))
  {
    if p < |w.pes| && w.pes[p].status.Running? && o in w.pes[p].held {
      var pe := w.pes[p];
      var pe' := PE(pe.free + {pe.held[o]}, pe.held - {o}, Running);
      PoolReleases(pe, w.max, o);
      ReleaseTakesPart(pe, p, w.ops, o);
      ReplaceKeeps(w, p, pe');
      assert Exec(w, Release(p, o)) == w.(pes := w.pes[p := pe']);
    } else {
      assert Exec(w, Release(p, o)) == w;
    }
  }

  /** A contribution cannot change the outcome of a creation that is complete. */
  lemma ContributionElsewhere(pe: PE, q: nat, ops: seq<Creation>, o: nat, p: nat, free: set<nat>)
    requires TakesPart(pe, q, ops) && o < |ops| && p in ops[o].members && p !in ops[o].contrib
    ensures TakesPart(pe, q, ops[o := Contributed(ops[o], p, free)])
  {
    var ops' := ops[o := Contributed(ops[o], p, free)];
    assert !Ready(ops[o]) by {
      var k :| 0 <= k < |ops[o].members| && ops[o].members[k] == p;
    }
    forall x | x in pe.held
      ensures HoldsOutcome(pe, q, x, ops')
    { assert HoldsOutcome(pe, q, x, ops); }
  }

  lemma ContributorBlocks(pe: PE, p: nat, ops: seq<Creation>, o: nat)
    requires TakesPart(pe, p, ops) && o < |ops| && p in ops[o].members && p !in ops[o].contrib
    ensures TakesPart(pe.(status := Blocked(o)), p, ops[o := Contributed(ops[o], p, pe.free)])
  {
    var ops' := ops[o := Contributed(ops[o], p, pe.free)];
    var pe' := pe.(status := Blocked(o));
    ContributionElsewhere(pe.(status := Running), p, ops, o, p, pe.free) by {
      forall x | x in pe.held
        ensures HoldsOutcome(pe.(status := Running), p, x, ops)
      { assert HoldsOutcome(pe, p, x, ops); }
    }
    forall x | x in pe'.held
      ensures HoldsOutcome(pe', p, x, ops')
    { assert HoldsOutcome(pe.(status := Running), p, x, ops'); }
    assert o in pe.held ==> HoldsOutcome(pe, p, o, ops);
  }

  lemma KeepContribute(w: World, p: nat, o: nat)
    requires Inv(w)
    ensures Inv(Exec(w, Contribute(p, o)))
  {
    var w' := Exec(w, Contribute(p, o));
    if w' != w {
      forall q | 0 <= q < |w'.pes|
        ensures TakesPart(w'.pes[q], q, w'.ops)
      {
        if q == p {
          ContributorBlocks(w.pes[q], q, w.ops, o);
        } else {
          ContributionElsewhere(w.pes[q], q, w.ops, o, p, w.pes[p].free);
        }
      }
    }
  }

  lemma {:induction false} SafeOverAllRuns(w: World, acts: seq<Action>)
    requires Start(w)
    ensures Inv(Run(w, acts))
  {
    if acts == [] {
      assert Image(map[]) == {};
    } else {
      SafeOverAllRuns(w, acts[..|acts| - 1]);
      var v := Run(w, acts[..|acts| - 1]);
      match acts[|acts| - 1]
      case Contribute(p, o) => KeepContribute(v, p, o);
      case Complete(p) => KeepComplete(v, p);
      case Release(p, o) => KeepRelease(v, p, o);
    }
  }

  // ------------------------------------------------------------- main results

  lemma {:induction false} ImageSize(held: map<nat, nat>)
    ensures |Image(held)| <= |held|
    ensures Distinct(held) ==> |Image(held)| == |held|
    decreases |held|
  {
    if held == map[] {
      assert Image(held) == {};
    } else {
      var o :| o in held;
      var rest := held - {o};
      assert held.Keys == rest.Keys + {o};
      ImageSize(rest);
      assert Image(held) == Image(rest) + {held[o]};
      if Distinct(held) { assert held[o] !in Image(rest); }
    }
  }

  /**
    After every run: a PE shows as free exactly the slots 1 .. max-1 that none of its teams has,
    its teams have pairwise different slots, and there are at most max - 1 of them.
  */
  lemma PoolSafety(w: World, acts: seq<Action>, p: nat)
    requires Start(w) && p < |w.pes|
    ensures var pe := Run(w, acts).pes[p];
            && pe.free == Slots(1, w.max) - Image(pe.held)
            && Image(pe.held) <= Slots(1, w.max)
            && Distinct(pe.held)
            && (w.max >= 1 ==> |pe.held| <= w.max - 1)
  {
    SafeOverAllRuns(w, acts);
    var pe := Run(w, acts).pes[p];
    ImageSize(pe.held);
    SubsetSize(Image(pe.held), Slots(1, w.max));
  }

  /** Slot `j` was free at every member when it contributed. */
  ghost predicate FreeEverywhere(c: Creation, j: nat)
    requires Ready(c)
  { forall k :: 0 <= k < |c.members| ==> j in c.contrib[c.members[k]] }

  lemma LeastReduced(c: Creation)
    requires Ready(c)
    ensures Least(Reduced(c)) >= 0 ==> FreeEverywhere(c, Least(Reduced(c)))
    ensures forall j: nat :: FreeEverywhere(c, j) ==> 0 <= Least(Reduced(c)) <= j
  {
    forall j: nat
      ensures j in Reduced(c) <==> FreeEverywhere(c, j)
    {
      ReducedIs(c, j);
    }
  }

  /** All members of a team have it in the same slot, the least one that was free at all of them. */
  lemma SameSlotEverywhere(w: World, acts: seq<Action>, p: nat, q: nat, o: nat)
    requires Start(w) && p < |w.pes| && q < |w.pes|
    requires o in Run(w, acts).pes[p].held && o in Run(w, acts).pes[q].held
    ensures var v := Run(w, acts);
            && v.pes[p].held[o] == v.pes[q].held[o]
            && o < |v.ops| && Ready(v.ops[o])
            && FreeEverywhere(v.ops[o], v.pes[p].held[o])
            && forall j: nat :: FreeEverywhere(v.ops[o], j) ==> v.pes[p].held[o] <= j
  {
    SafeOverAllRuns(w, acts);
    var v := Run(w, acts);
    assert HoldsOutcome(v.pes[p], p, o, v.ops) && HoldsOutcome(v.pes[q], q, o, v.ops);
    LeastReduced(v.ops[o]);
  }

  /** All members have entered the all-reduce of creation `o` and none has left it. */
  ghost predicate AllBlocked(v: World, o: nat) {
    && o < |v.ops| && Ready(v.ops[o])
    && forall k :: 0 <= k < |v.ops[o].members| ==>
         v.ops[o].members[k] < |v.pes| && v.pes[v.ops[o].members[k]].status == Blocked(o)
  }

  /** Slot `i` is held by some member. */
  ghost predicate HeldByMember(v: World, o: nat, i: nat)
    requires AllBlocked(v, o)
  { exists k :: 0 <= k < |v.ops[o].members| && i in Image(v.pes[v.ops[o].members[k]].held) }

  lemma FreeEverywhereIff(v: World, o: nat, i: nat)
    requires Inv(v) && AllBlocked(v, o)
    ensures FreeEverywhere(v.ops[o], i) <==> i in Slots(1, v.max) && !HeldByMember(v, o, i)
  {
    var c := v.ops[o];
    forall k | 0 <= k < |c.members|
      ensures i in c.contrib[c.members[k]] <==> i in Slots(1, v.max) && i !in Image(v.pes[c.members[k]].held)
    {
      assert PoolOk(v.pes[c.members[k]], v.max) && TakesPart(v.pes[c.members[k]], c.members[k], v.ops);
    }
    if FreeEverywhere(c, i) { assert i in c.contrib[c.members[0]]; }
  }

  /** Creation aborts if and only if the members' teams together use up all slots. */
  lemma AbortIffExhausted(w: World, acts: seq<Action>, o: nat)
    requires Start(w) && AllBlocked(Run(w, acts), o)
    ensures var v := Run(w, acts);
            Least(Reduced(v.ops[o])) < 0 <==> forall i: nat :: i in Slots(1, v.max) ==> HeldByMember(v, o, i)
  {
    SafeOverAllRuns(w, acts);
    AbortIff(Run(w, acts), o);
  }

  lemma AbortIff(v: World, o: nat)
    requires Inv(v) && AllBlocked(v, o)
    ensures Least(Reduced(v.ops[o])) < 0 <==> forall i: nat :: i in Slots(1, v.max) ==> HeldByMember(v, o, i)
  {
    LeastReduced(v.ops[o]);
    forall i: nat
      ensures FreeEverywhere(v.ops[o], i) <==> i in Slots(1, v.max) && !HeldByMember(v, o, i)
    {
      FreeEverywhereIff(v, o, i);
    }
  }

  /** A PE that passes the check has a free slot itself. */
  lemma GuardMeansFree(pe: PE, max: nat) returns (i: nat)
    requires GuardPasses(pe, max)
    ensures i in Slots(1, max) && i !in Image(pe.held)
  {
    ImageSize(pe.held);
    if Slots(1, max) <= Image(pe.held) {
      SubsetSize(Slots(1, max), Image(pe.held));
    }
    i :| i in Slots(1, max) && i !in Image(pe.held);
  }

  /**
    The check of its own team count is enough when one member holds every slot that any
    member holds: then the creation finds a slot.
  */
  lemma GuardSuffices(w: World, acts: seq<Action>, o: nat, m: nat)
    requires Start(w) && AllBlocked(Run(w, acts), o) && m < |w.pes|
    requires GuardPasses(Run(w, acts).pes[m], w.max)
    requires forall i: nat :: HeldByMember(Run(w, acts), o, i) ==> i in Image(Run(w, acts).pes[m].held)
    ensures Least(Reduced(Run(w, acts).ops[o])) >= 1
  {
    var v := Run(w, acts);
    SafeOverAllRuns(w, acts);
    var i := GuardMeansFree(v.pes[m], w.max);
    FreeEverywhereIff(v, o, i);
    LeastReduced(v.ops[o]);
    FreeEverywhereIff(v, o, Least(Reduced(v.ops[o])));
  }

  // ------------------------------------------------------- every step has its effect

  /** A running member that passes the check and has not contributed enters the all-reduce with its free slots. */
  lemma ContributeWorks(v: World, p: nat, o: nat)
    requires p < |v.pes| && o < |v.ops| && v.pes[p].status.Running? && GuardPasses(v.pes[p], v.max)
    requires p in v.ops[o].members && p !in v.ops[o].contrib
    ensures var u := Exec(v, Contribute(p, o));
            && u.pes[p] == v.pes[p].(status := Blocked(o)) && (forall q :: 0 <= q < |v.pes| && q != p ==> u.pes[q] == v.pes[q])
            && u.ops[o].members == v.ops[o].members && u.ops[o].contrib == v.ops[o].contrib[p := v.pes[p].free]
  {}

  /**
    A member blocked in a complete creation gets out of it: it runs on with the team in the least slot
    that is free at all members, or aborts if there is none.
  */
  lemma CompleteWorks(w: World, acts: seq<Action>, p: nat, o: nat)
    requires Start(w) && p < |w.pes| && o < |w.ops| && Run(w, acts).pes[p].status == Blocked(o) && Ready(Run(w, acts).ops[o])
    ensures var v := Run(w, acts);
            var (pe, pe') := (v.pes[p], Exec(v, Complete(p)).pes[p]);
            if forall j: nat :: !FreeEverywhere(v.ops[o], j) then pe' == pe.(status := Aborted)
            else
              && pe'.status.Running? && o in pe'.held && pe'.held == pe.held[o := pe'.held[o]] && pe'.free == pe.free - {pe'.held[o]}
              && FreeEverywhere(v.ops[o], pe'.held[o]) && forall j: nat :: FreeEverywhere(v.ops[o], j) ==> pe'.held[o] <= j
  {
    LeastReduced(Run(w, acts).ops[o]);
  }

  /** A PE that gives up a team has its slot free again, and changes nothing else. */
  lemma ReleaseWorks(v: World, p: nat, o: nat)
    requires p < |v.pes| && v.pes[p].status.Running? && o in v.pes[p].held
    ensures var u := Exec(v, Release(p, o));
            && u.pes[p] == PE(v.pes[p].free + {v.pes[p].held[o]}, v.pes[p].held - {o}, Running)
            && (forall q :: 0 <= q < |v.pes| && q != p ==> u.pes[q] == v.pes[q]) && u.ops == v.ops
  {}

  // ------------------------------------------------- a member that fails the check

  /** A contribution was made by a PE that passed the check of its team count then. */
  lemma {:induction false} ContributorPassed(w: World, acts: seq<Action>, o: nat, p: nat) returns (i: nat)
    requires Start(w) && o < |w.ops| && p in Run(w, acts).ops[o].contrib
    ensures i < |acts| && acts[i] == Contribute(p, o) && p < |w.pes| && GuardPasses(Run(w, acts[..i]).pes[p], w.max)
  {
    var last := |acts| - 1;
    var v := Run(w, acts[..last]);
    if p in v.ops[o].contrib {
      i := ContributorPassed(w, acts[..last], o, p);
      assert acts[..last][..i] == acts[..i];
    } else {
      i := last;
    }
  }

  /** A team comes about only if every one of its members passed the check, at some time before. */
  lemma TeamNeedsAllChecks(w: World, acts: seq<Action>, o: nat, q: nat, k: nat) returns (i: nat)
    requires Start(w) && q < |w.pes| && o < |w.ops| && o in Run(w, acts).pes[q].held && k < |Run(w, acts).ops[o].members|
    ensures i < |acts|
    ensures var p := Run(w, acts).ops[o].members[k];
            acts[i] == Contribute(p, o) && p < |w.pes| && GuardPasses(Run(w, acts[..i]).pes[p], w.max)
  {
    SafeOverAllRuns(w, acts);
    var v := Run(w, acts);
    assert HoldsOutcome(v.pes[q], q, o, v.ops);
    i := ContributorPassed(w, acts, o, v.ops[o].members[k]);
  }

  predicate ReleasedBy(a: Action, q: nat) { a.Release? && a.pe == q }

  /** PE p is in the all-reduce of creation o, and member q, which has too many teams, is not. */
  ghost predicate WaitsFor(v: World, o: nat, p: nat, q: nat) {
    && p < |v.pes| && q < |v.pes| && o < |v.ops| && v.pes[p].status == Blocked(o)
    && q in v.ops[o].members && q !in v.ops[o].contrib && !GuardPasses(v.pes[q], v.max)
  }

  lemma WaitsOneMore(v: World, a: Action, o: nat, p: nat, q: nat)
    requires WaitsFor(v, o, p, q) && !ReleasedBy(a, q)
    ensures WaitsFor(Exec(v, a), o, p, q)
  {
    var k :| 0 <= k < |v.ops[o].members| && v.ops[o].members[k] == q;
    assert !Ready(v.ops[o]);
  }

  /** The others wait for it until it gives up one of its teams: it has returned early from its own call. */
  lemma {:induction false} WaitsUntilRelease(v: World, more: seq<Action>, o: nat, p: nat, q: nat)
    requires WaitsFor(v, o, p, q) && forall a <- more :: !ReleasedBy(a, q)
    ensures WaitsFor(Run(v, more), o, p, q)
  {
    if more != [] {
      WaitsUntilRelease(v, more[..|more| - 1], o, p, q);
      WaitsOneMore(Run(v, more[..|more| - 1]), more[|more| - 1], o, p, q);
    }
  }

  /** Element `x` of a sync or work array pool lies in the slice of slot `i`, `size` elements per slot. */
  predicate InSlice(i: int, size: int, x: int) { i * size <= x < (i + 1) * size }

  /** Element k of slot i's array, as the set-up loops place it in the pool. */
  function ElementOf(i: int, size: int, k: int): int { i * size + k }

  /** The slice of a slot holds exactly its `size` elements. */
  lemma InSliceIff(i: int, size: int, x: int)
    ensures InSlice(i, size, x) <==> exists k :: 0 <= k < size && x == ElementOf(i, size, k)
  {
    assert (i + 1) * size == i * size + size;
    if InSlice(i, size, x) { assert x == ElementOf(i, size, x - i * size); }
  }

  lemma SlicesApart(i: int, j: int, max: int, size: nat, x: int)
    requires 1 <= i < max && i != j && InSlice(i, size, x)
    ensures 0 <= x < max * size && !InSlice(j, size, x)
  {
    MulMono(0, i, size);
    MulMono(i + 1, max, size);
    if j < i { MulMono(j + 1, i, size); } else { MulMono(i + 1, j, size); }
  }

  /** The slices of a PE's teams lie inside the pool, apart from each other and from TEAM_WORLD's slice 0. */
  lemma SlicesDisjoint(w: World, acts: seq<Action>, p: nat, o: nat, size: nat, x: int)
    requires Start(w) && p < |w.pes| && o in Run(w, acts).pes[p].held
    requires InSlice(Run(w, acts).pes[p].held[o], size, x)
    ensures 0 <= x < w.max * size && !InSlice(0, size, x)
    ensures forall o' :: o' in Run(w, acts).pes[p].held && o' != o ==> !InSlice(Run(w, acts).pes[p].held[o'], size, x)
  {
    assert PoolOk(Run(w, acts).pes[p], w.max) by { SafeOverAllRuns(w, acts); }
    SlicesOfOne(Run(w, acts).pes[p], w.max, o, size, x);
  }

  lemma SlicesOfOne(pe: PE, max: nat, o: nat, size: nat, x: int)
    requires PoolOk(pe, max) && o in pe.held && InSlice(pe.held[o], size, x)
    ensures 0 <= x < max * size && !InSlice(0, size, x)
    ensures forall o' :: o' in pe.held && o' != o ==> !InSlice(pe.held[o'], size, x)
  {
    assert pe.held[o] in Image(pe.held);
    SlicesApart(pe.held[o], 0, max, size, x);
    forall o' | o' in pe.held && o' != o
      ensures !InSlice(pe.held[o'], size, x)
    {
      SlicesApart(pe.held[o], pe.held[o'], max, size, x);
    }
  }

  // ------------------------------------------------ the check alone is not enough

  lemma RunThen(w: World, acts: seq<Action>, a: Action)
    ensures Run(w, acts + [a]) == Exec(Run(w, acts), a)
  {
    assert (acts + [a])[..|acts|] == acts;
  }

  /** The slot a team of a PE alone gets: the least one the PE does not hold. */
  ghost predicate LeastUnheld(held: map<nat, nat>, max: nat, i: int) {
    && i >= 0 && i in Slots(1, max) && i !in Image(held)
    && forall j: nat :: j in Slots(1, max) && j !in Image(held) ==> i <= j
  }

  lemma SoloReduced(c: Creation, p: nat)
    requires c.members == [p] && p in c.contrib
    ensures Ready(c) && Reduced(c) == c.contrib[p]
  {
    forall i
      ensures i in Reduced(c) <==> i in c.contrib[p]
    {
      ReducedIs(c, i);
      assert c.members[0] == p;
    }
  }

  lemma LeastFreeIsUnheld(pe: PE, max: nat)
    requires PoolOk(pe, max) && GuardPasses(pe, max)
    ensures LeastUnheld(pe.held, max, Least(pe.free))
  {
    var s := GuardMeansFree(pe, max);
    assert s in pe.free;
    forall j: nat | j in Slots(1, max) && j !in Image(pe.held)
      ensures Least(pe.free) <= j
    { assert j in pe.free; }
  }

  /** A PE that splits off a team of its own gets that slot; nothing else changes. */
  ghost function Alone(v: World, p: nat, o: nat): World { Exec(Exec(v, Contribute(p, o)), Complete(p)) }

  lemma AloneIs(v: World, p: nat, o: nat)
    requires p < |v.pes| && o < |v.ops| && PoolOk(v.pes[p], v.max)
    requires v.pes[p].status.Running? && o !in v.pes[p].held && v.ops[o] == Creation([p], map[]) && GuardPasses(v.pes[p], v.max)
    ensures var (i, v') := (Least(v.pes[p].free), Alone(v, p, o));
            && LeastUnheld(v.pes[p].held, v.max, i)
            && v'.pes == v.pes[p := PE(v.pes[p].free - {i}, v.pes[p].held[o := i], Running)]
            && PoolOk(v'.pes[p], v.max)
            && forall x :: 0 <= x < |v.ops| && x != o ==> v'.ops[x] == v.ops[x]
  {
    var pe := v.pes[p];
    AloneBlocks(v, p, o);
    LeastFreeIsUnheld(pe, v.max);
    PoolTakes(pe.(status := Blocked(o)), v.max, Least(pe.free));
  }

  /** Its contribution is all there is to reduce. */
  lemma AloneBlocks(v: World, p: nat, o: nat)
    requires p < |v.pes| && o < |v.ops| && v.pes[p].status.Running? && v.ops[o] == Creation([p], map[]) && GuardPasses(v.pes[p], v.max)
    ensures var u := Exec(v, Contribute(p, o));
      && u.pes == v.pes[p := v.pes[p].(status := Blocked(o))]
      && u.ops == v.ops[o := Creation([p], map[p := v.pes[p].free])]
      && Ready(u.ops[o]) && Reduced(u.ops[o]) == v.pes[p].free
  {
    SoloReduced(Creation([p], map[p := v.pes[p].free]), p);
  }

  /** Both PEs run and hold the given slots. */
  ghost predicate Holding(v: World, held0: map<nat, nat>, held1: map<nat, nat>) {
    && v.max == 3 && |v.pes| == 2 && |v.ops| == 4
    && v.pes[0].status.Running? && v.pes[0].held == held0
    && v.pes[1].status.Running? && v.pes[1].held == held1
    && v.ops[3] == Creation([0, 1], map[])
  }

  lemma LeastOfThree(held: map<nat, nat>, i: int)
    requires LeastUnheld(held, 3, i)
    ensures i == if 1 in Image(held) then 2 else 1
  {
    assert 1 in Slots(1, 3) && 2 in Slots(1, 3);
  }

  lemma FirstTeamInSlotOne(v: World, p: nat, o: nat)
    requires v.max == 3 && p < |v.pes| && o < |v.ops| && v.pes[p] == PE(Slots(1, v.max), map[], Running) && v.ops[o] == Creation([p], map[])
    ensures var v' := Alone(v, p, o);
            && v'.pes == v.pes[p := v'.pes[p]] && v'.pes[p].held == map[o := 1] && v'.pes[p].status.Running? && PoolOk(v'.pes[p], v.max)
            && forall x :: 0 <= x < |v.ops| && x != o ==> v'.ops[x] == v.ops[x]
  {
    assert Image(v.pes[p].held) == {};
    AloneIs(v, p, o);
    LeastOfThree(v.pes[p].held, Least(v.pes[p].free));
  }

  lemma SecondTeamInSlotTwo(v: World, p: nat, o: nat)
    requires v.max == 3 && p < |v.pes| && o < |v.ops| && PoolOk(v.pes[p], v.max) && v.pes[p].status.Running? && v.ops[o] == Creation([p], map[])
    requires v.pes[p].held.Values == {1} && |v.pes[p].held| == 1 && o !in v.pes[p].held
    ensures var v' := Alone(v, p, o);
            && v'.pes == v.pes[p := v'.pes[p]] && v'.pes[p].held == v.pes[p].held[o := 2] && v'.pes[p].status.Running?
            && forall x :: 0 <= x < |v.ops| && x != o ==> v'.ops[x] == v.ops[x]
  {
    assert 1 in v.pes[p].held.Values;
    AloneIs(v, p, o);
    LeastOfThree(v.pes[p].held, Least(v.pes[p].free));
  }

  lemma ExampleFirstTeams(w: World)
    requires Start(w) && w.max == 3 && |w.pes| == 2 && |w.ops| == 4
    requires w.ops[0].members == [0] && w.ops[1].members == [1] && w.ops[2].members == [1] && w.ops[3].members == [0, 1]
    ensures var v := Alone(Alone(w, 0, 0), 1, 1);
            Holding(v, map[0 := 1], map[1 := 1]) && PoolOk(v.pes[1], 3) && v.ops[2] == Creation([1], map[])
  {
    FirstTeamInSlotOne(w, 0, 0);
    FirstTeamInSlotOne(Alone(w, 0, 0), 1, 1);
  }

  lemma ExampleTeams(w: World) returns (v: World)
    requires Start(w) && w.max == 3 && |w.pes| == 2 && |w.ops| == 4
    requires w.ops[0].members == [0] && w.ops[1].members == [1] && w.ops[2].members == [1] && w.ops[3].members == [0, 1]
    ensures v == Alone(Alone(Alone(w, 0, 0), 1, 1), 1, 2)
    ensures Holding(v, map[0 := 1], map[1 := 1, 2 := 2])
  {
    ExampleFirstTeams(w);
    var v2 := Alone(Alone(w, 0, 0), 1, 1);
    SecondTeamInSlotTwo(v2, 1, 2);
    v := Alone(v2, 1, 2);
  }

  lemma ExampleRelease(v: World)
    requires Holding(v, map[0 := 1], map[1 := 1, 2 := 2])
    ensures Holding(Exec(v, Release(1, 1)), map[0 := 1], map[2 := 2])
  {
    assert map[1 := 1, 2 := 2] - {1} == map[2 := 2];
  }

  lemma ExampleContribute(v: World)
    requires Holding(v, map[0 := 1], map[2 := 2])
    ensures var u := Exec(Exec(v, Contribute(0, 3)), Contribute(1, 3));
            && AllBlocked(u, 3) && u.pes[0].held == map[0 := 1] && u.pes[1].held == map[2 := 2]
            && u.ops[3].members == [0, 1] && GuardPasses(u.pes[0], 3) && GuardPasses(u.pes[1], 3)
  {}

  /**
    Three slots per PE: PE 0 has a team of its own in slot 1, PE 1 one in slot 2.  Both pass the check
    of their team count, yet the creation of a common team aborts.
  */
  lemma GuardIsNotEnough(w: World) returns (acts: seq<Action>)
    requires Start(w) && w.max == 3 && |w.pes| == 2 && |w.ops| == 4
    requires w.ops[0].members == [0] && w.ops[1].members == [1] && w.ops[2].members == [1] && w.ops[3].members == [0, 1]
    ensures var v := Run(w, acts);
            && AllBlocked(v, 3) && GuardPasses(v.pes[0], 3) && GuardPasses(v.pes[1], 3)
            && Least(Reduced(v.ops[3])) < 0
  {
    var v := ExampleTeams(w);
    ExampleRelease(v);
    ExampleContribute(Exec(v, Release(1, 1)));
    acts := ExampleActions(w);
    ExampleExhausted(Run(w, acts));
    AbortIffExhausted(w, acts, 3);
  }

  lemma ExampleExhausted(u: World)
    requires AllBlocked(u, 3) && u.max == 3 && |u.pes| == 2 && u.ops[3].members == [0, 1]
    requires u.pes[0].held == map[0 := 1] && u.pes[1].held == map[2 := 2]
    ensures forall i: nat :: i in Slots(1, u.max) ==> HeldByMember(u, 3, i)
  {
    assert u.pes[0].held[0] == 1 && u.pes[1].held[2] == 2;
    assert u.ops[3].members[0] == 0 && u.ops[3].members[1] == 1;
    assert HeldByMember(u, 3, 1) && HeldByMember(u, 3, 2);
  }

  lemma ExampleActions(w: World) returns (acts: seq<Action>)
    ensures Run(w, acts)
         == Exec(Exec(Exec(Alone(Alone(Alone(w, 0, 0), 1, 1), 1, 2), Release(1, 1)), Contribute(0, 3)), Contribute(1, 3))
  {
    acts := [];
    RunThen(w, acts, Contribute(0, 0)); acts := acts + [Contribute(0, 0)];
    RunThen(w, acts, Complete(0)); acts := acts + [Complete(0)];
    RunThen(w, acts, Contribute(1, 1)); acts := acts + [Contribute(1, 1)];
    RunThen(w, acts, Complete(1)); acts := acts + [Complete(1)];
    RunThen(w, acts, Contribute(1, 2)); acts := acts + [Contribute(1, 2)];
    RunThen(w, acts, Complete(1)); acts := acts + [Complete(1)];
    RunThen(w, acts, Release(1, 1)); acts := acts + [Release(1, 1)];
    RunThen(w, acts, Contribute(0, 3)); acts := acts + [Contribute(0, 3)];
    RunThen(w, acts, Contribute(1, 3)); acts := acts + [Contribute(1, 3)];
  }
}
