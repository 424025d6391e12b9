/**
  The waiting routines of the device (src/context_tmpl_device.hpp) against memory
  that other PEs change meanwhile.  `mem(t, i)` is what a read of `ivars[i]` at
  time t returns; every read takes the next moment of a clock.  Nothing is
  assumed about how memory changes: the source's endless loops are cut off after
  `limit` reads, for every limit, and may then be still waiting.  When they do
  return is the subject of separate lemmas.
*/
module WaitUntil {

  /** ROCSHMEM_CMP_*; any other number never compares true. */
  datatype Cmp = EQ | NE | GT | GE | LT | LE | Unknown

  type Memory = (nat, nat) -> int

  /** Context::test on the value it loaded. */
  predicate Test(cmp: Cmp, x: int, val: int) {
    match cmp
    case EQ => x == val
    case NE => x != val
    case GT => x > val
    case GE => x >= val
    case LT => x < val
    case LE => x <= val
    case Unknown => false
  }

  /** How a value can stand to the one it is compared with: below it, equal to it, or above it. */
  function Sign(x: int): int { if x < 0 then -1 else if x == 0 then 0 else 1 }

  function Signs(cmp: Cmp): set<int> {
    match cmp
    case EQ => {0}
    case NE => {-1, 1}
    case GT => {1}
    case GE => {0, 1}
    case LT => {-1}
    case LE => {-1, 0}
    case Unknown => {}
  }

  /** A test looks only at whether the value is below, equal to or above the other, as its name says. */
  lemma TestIsOrder(cmp: Cmp, x: int, val: int)
    ensures Test(cmp, x, val) <==> Sign(x - val) in Signs(cmp)
  {}

  /** The laws of the comparisons among each other. */
  lemma TestLaws(x: int, y: int, val: int)
    ensures Test(EQ, x, val) <==> x == val
    ensures Test(NE, x, val) <==> !Test(EQ, x, val)
    ensures Test(GE, x, val) <==> !Test(LT, x, val)
    ensures Test(LE, x, val) <==> !Test(GT, x, val)
    ensures (Test(LT, x, val) || Test(EQ, x, val) || Test(GT, x, val)) && !(Test(LT, x, val) && Test(GT, x, val))
    ensures Test(EQ, x, val) ==> !Test(LT, x, val) && !Test(GT, x, val)
    ensures Test(LT, x, val) <==> Test(GT, val, x)
    ensures x <= y && Test(GT, x, val) ==> Test(GT, y, val)
    ensures !Test(Unknown, x, val)
  {}

  /** The outcome of a test of element i at time t, for a comparison and whatever memory does. */
  function Outcomes(mem: Memory, cmp: Cmp, val: int): (nat, nat) -> bool { (t: nat, i: nat) => Test(cmp, mem(t, i), val) }

  /** What the caller waits for; `test` is Outcomes of the arguments. */
  datatype Wait = Wait(test: (nat, nat) -> bool, status: seq<int>)
  {
    predicate Unmasked(i: int) { 0 <= i < |status| && status[i] == 0 }

    predicate HoldsAt(t: nat, i: nat) { test(t, i) }

    /** From time `from` on the condition of element `i` holds whenever it is read. */
    ghost predicate HoldsFrom(from: nat, i: nat) { forall t: nat :: t >= from ==> HoldsAt(t, i) }

    /** Once true, the condition of element `i` stays true. */
    ghost predicate Stable(i: nat) { forall t: nat, u: nat :: t <= u && HoldsAt(t, i) ==> HoldsAt(u, i) }

    /** The first unmasked element from i on, or the number of elements. */
    function FirstFrom(i: nat): (r: nat)
      requires i <= |status|
      ensures i <= r <= |status| && (r < |status| ==> Unmasked(r))
      decreases |status| - i
    {
      if i == |status| || status[i] == 0 then i else FirstFrom(i + 1)
    }

    lemma {:induction false} FirstFromSkips(i: nat, k: int)
      requires i <= |status| && i <= k < FirstFrom(i)
      ensures !Unmasked(k)
      decreases |status| - i
    {
      if i < k { FirstFromSkips(i + 1, k); }
    }

    /** The element read when a sweep comes to i; past the last unmasked one the next sweep begins. */
    function At(i: nat): nat
      requires i <= |status|
    {
      if FirstFrom(i) < |status| then FirstFrom(i) else FirstFrom(0)
    }
  }

  /** status_entry: the first unmasked element, or the number of elements. */
  method StatusEntry(w: Wait) returns (i: nat)
    ensures i == w.FirstFrom(0)
    ensures i == |w.status| <==> forall k :: !w.Unmasked(k)
  {
    i := 0;
    while i < |w.status|
      invariant 0 <= i <= |w.status| && w.FirstFrom(0) == w.FirstFrom(i)
      invariant forall k :: 0 <= k < i ==> !w.Unmasked(k)
    {
      if w.status[i] == 0 {
        return;
      }
      i := i + 1;
    }
  }

  // --------------------------------------------------------------------- any

  /** The element that read number j reads, sweep after sweep. */
  function ReadAt(w: Wait, j: nat): (i: nat)
    requires w.FirstFrom(0) < |w.status|
    ensures w.Unmasked(i)
  {
    if j == 0 then w.At(0) else w.At(ReadAt(w, j - 1) + 1)
  }

  /** Read number j takes place at time start + j. */
  predicate Succeeds(w: Wait, start: nat, j: nat)
    requires w.FirstFrom(0) < |w.status|
  {
    w.HoldsAt(start + j, ReadAt(w, j))
  }

  /** None of the first n reads found its condition true. */
  predicate AllFail(w: Wait, start: nat, n: nat)
    requires w.FirstFrom(0) < |w.status|
  {
    n == 0 || (AllFail(w, start, n - 1) && !Succeeds(w, start, n - 1))
  }

  /** A failed read of element i moves the sweep on. */
  lemma ReadStep(w: Wait, start: nat, n: nat, i: nat)
    requires w.FirstFrom(0) < |w.status| && w.Unmasked(i) && ReadAt(w, n) == w.At(i)
    ensures ReadAt(w, n) == i && ReadAt(w, n + 1) == w.At(i + 1)
    ensures AllFail(w, start, n) && !w.HoldsAt(start + n, i) ==> AllFail(w, start, n + 1)
  {}

  lemma SkipMasked(w: Wait, i: nat)
    requires i < |w.status| && w.status[i] != 0
    ensures w.At(i) == w.At(i + 1)
  {}

  datatype Answer = Error | Element(i: nat) | StillWaiting

  /** One sweep of wait_until_any, from the first unmasked element on. */
  method SweepAny(w: Wait, start: nat, pos: nat, before: nat) returns (r: Answer, count: nat)
    requires pos == w.FirstFrom(0) < |w.status| && ReadAt(w, before) == pos && AllFail(w, start, before)
    ensures AllFail(w, start, count)
    ensures r.Element? ==> r.i == ReadAt(w, count) && Succeeds(w, start, count)
    ensures !r.Element? ==> r.StillWaiting? && ReadAt(w, count) == pos && count > before
  {
    count := before;
    var i := pos;
    assert w.status[pos] == 0;
    while i < |w.status|
      invariant pos <= i <= |w.status| && AllFail(w, start, count) && ReadAt(w, count) == w.At(i)
      invariant count >= before && (i > pos ==> count > before)
    {
      if w.status[i] == 0 {
        ReadStep(w, start, count, i);
        if w.HoldsAt(start + count, i) {
          return Element(i), count;
        }
        count := count + 1;
      } else {
        SkipMasked(w, i);
      }
      i := i + 1;
    }
    r := StillWaiting;
  }

  /**
    wait_until_any: it reads the unmasked elements in sweep after sweep and returns the element of the
    first read that found its condition true; it is an error exactly if no element is unmasked.
  */
  method WaitUntilAny(w: Wait, start: nat, limit: nat) returns (r: Answer, count: nat)
    ensures r.Error? <==> forall i :: !w.Unmasked(i)
    ensures r.Element? ==> w.FirstFrom(0) < |w.status| && r.i == ReadAt(w, count) && Succeeds(w, start, count)
    ensures !r.Error? ==> w.FirstFrom(0) < |w.status| && AllFail(w, start, count)
    ensures r.StillWaiting? ==> count >= limit
  {
    count := 0;
    var nelems := |w.status|;
    if nelems == 0 {
      return Error, count;
    }
    var pos := StatusEntry(w);
    if pos == nelems {
      return Error, count;
    }
    r := StillWaiting;
    while count < limit && r.StillWaiting?
      invariant r.StillWaiting? || r.Element?
      invariant r.StillWaiting? ==> ReadAt(w, count) == pos
      invariant r.Element? ==> r.i == ReadAt(w, count) && Succeeds(w, start, count)
      invariant AllFail(w, start, count)
      decreases r.StillWaiting?, limit - count
    {
      r, count := SweepAny(w, start, pos, count);
    }
  }

  /** A sweep reads the unmasked elements in order, from the first one on, and then the next one begins. */
  lemma ReadOrder(w: Wait, j: nat, i: nat)
    requires w.FirstFrom(0) < |w.status| && w.Unmasked(i)
    ensures ReadAt(w, 0) <= i
    ensures var (x, y) := (ReadAt(w, j), ReadAt(w, j + 1)); if x < y then !(x < i < y) else i <= x && y <= i
  {
    var (x, y) := (ReadAt(w, j), ReadAt(w, j + 1));
    if i < w.FirstFrom(0) { w.FirstFromSkips(0, i); }
    if x < i < w.FirstFrom(x + 1) { w.FirstFromSkips(x + 1, i); }
  }

  /** How many places element i is after element x in a cycle of n. */
  function Ahead(n: nat, x: nat, i: nat): int { if x <= i then i - x else i - x + n }

  /** Every sweep reads every unmasked element. */
  lemma {:induction false} ReadsReach(w: Wait, j: nat, i: nat) returns (k: nat)
    requires w.Unmasked(i)
    requires w.FirstFrom(0) < |w.status|
    ensures j <= k < j + |w.status| && ReadAt(w, k) == i
    ensures k <= j + Ahead(|w.status|, ReadAt(w, j), i)
    decreases Ahead(|w.status|, ReadAt(w, j), i)
  {
    var x := ReadAt(w, j);
    if x == i {
      k := j;
    } else {
      assert ReadAt(w, j + 1) == w.At(x + 1);
      if x < i < w.FirstFrom(x + 1) { w.FirstFromSkips(x + 1, i); }
      if i < w.FirstFrom(0) { w.FirstFromSkips(0, i); }
      k := ReadsReach(w, j + 1, i);
    }
  }

  lemma {:induction false} AllFailAt(w: Wait, start: nat, n: nat, j: nat)
    requires w.FirstFrom(0) < |w.status| && AllFail(w, start, n) && j < n
    ensures !Succeeds(w, start, j)
  {
    if j < n - 1 { AllFailAt(w, start, n - 1, j); }
  }

  /** Once an unmasked condition holds for good, one more sweep is enough: the wait cannot go on. */
  lemma AnyReturns(w: Wait, start: nat, count: nat, i: nat, from: nat)
    requires w.Unmasked(i) && w.HoldsFrom(start + from, i) && count >= from + |w.status|
    ensures w.FirstFrom(0) < |w.status| && !AllFail(w, start, count)
  {
    if i < w.FirstFrom(0) { w.FirstFromSkips(0, i); }
    var k := ReadsReach(w, from, i);
    if AllFail(w, start, count) { AllFailAt(w, start, count, k); }
  }

  // --------------------------------------------------------------------- all

  /** The element that wait_until_all waits for at read number j; the number of elements when it is done. */
  function WaitAt(w: Wait, start: nat, j: nat): (i: nat)
    ensures i <= |w.status| && (i < |w.status| ==> w.Unmasked(i))
  {
    if j == 0 then w.FirstFrom(0)
    else
      var i := WaitAt(w, start, j - 1);
      if i < |w.status| && w.HoldsAt(start + j - 1, i) then w.FirstFrom(i + 1) else i
  }

  /** The condition did not hold in the reads from a up to b. */
  predicate NotYet(w: Wait, start: nat, i: nat, a: nat, b: nat)
    requires a <= b
  {
    a == b || (NotYet(w, start, i, a, b - 1) && !w.HoldsAt(start + b - 1, i))
  }

  /** wait_until on one element: it reads until the condition holds. */
  method WaitUntilOne(w: Wait, start: nat, i: nat, before: nat, limit: nat) returns (held: bool, count: nat)
    ensures count >= before && NotYet(w, start, i, before, count)
    ensures held <==> w.HoldsAt(start + count, i)
    ensures !held ==> count >= limit
    ensures WaitAt(w, start, before) == i < |w.status| ==> WaitAt(w, start, count) == i
  {
    count := before;
    while !w.HoldsAt(start + count, i)
      invariant count >= before && NotYet(w, start, i, before, count)
      invariant WaitAt(w, start, before) == i < |w.status| ==> WaitAt(w, start, count) == i
      decreases limit - count
    {
      if count >= limit {
        return false, count;
      }
      count := count + 1;
    }
    held := true;
  }

  /** It was not done before the last of these reads. */
  predicate InTime(w: Wait, start: nat, count: nat) { count > 0 ==> WaitAt(w, start, count - 1) < |w.status| }

  lemma PassElement(w: Wait, start: nat, count: nat, i: nat)
    requires WaitAt(w, start, count) == i < |w.status| && w.HoldsAt(start + count, i)
    ensures WaitAt(w, start, count + 1) == w.FirstFrom(i + 1) && InTime(w, start, count + 1)
  {}

  /** One element of wait_until_all; the read that succeeded counts too. */
  method WaitForElement(w: Wait, start: nat, i: nat, before: nat, limit: nat) returns (held: bool, count: nat)
    requires WaitAt(w, start, before) == i < |w.status|
    ensures held ==> WaitAt(w, start, count) == w.FirstFrom(i + 1) && InTime(w, start, count)
    ensures !held ==> WaitAt(w, start, count) == i && count >= limit
  {
    held, count := WaitUntilOne(w, start, i, before, limit);
    if held {
      PassElement(w, start, count, i);
      count := count + 1;
    }
  }

  /** The loop over the elements, from the first unmasked one on. */
  method WaitFrom(w: Wait, start: nat, pos: nat, limit: nat) returns (done: bool, count: nat)
    requires pos == w.FirstFrom(0) < |w.status|
    ensures done <==> WaitAt(w, start, count) == |w.status|
    ensures done ==> InTime(w, start, count)
    ensures !done ==> count >= limit
  {
    count := 0;
    var i := pos;
    while i < |w.status|
      invariant i <= |w.status| && WaitAt(w, start, count) == w.FirstFrom(i) && InTime(w, start, count)
    {
      if w.status[i] == 0 {
        done, count := WaitForElement(w, start, i, count, limit);
        if !done {
          return;
        }
      }
      i := i + 1;
    }
    done := true;
  }

  /** wait_until_all: it waits for the unmasked elements one by one and returns after the last one's read succeeded. */
  method WaitUntilAll(w: Wait, start: nat, limit: nat) returns (done: bool, count: nat)
    ensures done <==> WaitAt(w, start, count) == |w.status|
    ensures done ==> InTime(w, start, count)
    ensures !done ==> count >= limit
  {
    count := 0;
    var nelems := |w.status|;
    if nelems == 0 {
      return true, count;
    }
    var pos := StatusEntry(w);
    if pos == nelems {
      return true, count;
    }
    done, count := WaitFrom(w, start, pos, limit);
  }

  lemma {:induction false} WaitAtGrows(w: Wait, start: nat, j: nat, k: nat)
    requires j <= k
    ensures WaitAt(w, start, j) <= WaitAt(w, start, k)
  {
    if j < k { WaitAtGrows(w, start, j, k - 1); }
  }

  /** Every unmasked element that was passed was waited for, and its condition held when it was last read. */
  lemma {:induction false} PassedHeld(w: Wait, start: nat, count: nat, i: nat) returns (t: nat)
    requires w.Unmasked(i) && i < WaitAt(w, start, count)
    ensures t < count && WaitAt(w, start, t) == i && w.HoldsAt(start + t, i)
  {
    if count == 0 {
      w.FirstFromSkips(0, i);
    } else {
      var x := WaitAt(w, start, count - 1);
      if i < x {
        t := PassedHeld(w, start, count - 1, i);
      } else {
        t := count - 1;
        if i > x { w.FirstFromSkips(x + 1, i); }
      }
    }
  }

  /** At the return each unmasked condition has held at its own moment, and these moments are in index order. */
  lemma AllHeldInOrder(w: Wait, start: nat, count: nat, i: nat, k: nat) returns (t: nat, u: nat)
    requires WaitAt(w, start, count) == |w.status| && w.Unmasked(i) && w.Unmasked(k) && i < k
    ensures t < u < count && w.HoldsAt(start + t, i) && w.HoldsAt(start + u, k)
  {
    t := PassedHeld(w, start, count, i);
    u := PassedHeld(w, start, count, k);
    if u <= t { WaitAtGrows(w, start, u, t); }
  }

  /** Conditions that stay true once they are true all hold together at the return and from then on. */
  lemma AllTogether(w: Wait, start: nat, count: nat, i: nat, later: nat)
    requires WaitAt(w, start, count) == |w.status| && w.Unmasked(i) && w.Stable(i) && later >= start + count
    ensures w.HoldsAt(later, i)
  {
    var t := PassedHeld(w, start, count, i);
  }

  lemma {:induction false} AllProgress(w: Wait, start: nat, from: nat, k: nat)
    requires (forall i :: w.Unmasked(i) ==> w.HoldsFrom(start + from, i)) && k <= |w.status|
    ensures WaitAt(w, start, from + k) >= k
  {
    if k > 0 {
      AllProgress(w, start, from, k - 1);
      var i := WaitAt(w, start, from + k - 1);
      assert i < |w.status| ==> w.HoldsFrom(start + from, i);
    }
  }

  /**
    In particular for counters that never decrease: after wait_until_all for "at least" or "greater" all
    of them are still past the value.
  */
  lemma CountersAllReached(mem: Memory, cmp: Cmp, val: int, status: seq<int>, start: nat, count: nat, i: nat, later: nat)
    requires cmp.GE? || cmp.GT?
    requires forall t: nat, u: nat :: t <= u ==> mem(t, i) <= mem(u, i)
    requires var w := Wait(Outcomes(mem, cmp, val), status); WaitAt(w, start, count) == |status| && w.Unmasked(i)
    requires later >= start + count
    ensures Test(cmp, mem(later, i), val)
  {
    var w := Wait(Outcomes(mem, cmp, val), status);
    AllTogether(w, start, count, i, later);
  }

  /** In general they need not have held together at any time: here each of two holds only when it is read. */
  lemma NeverTogetherExample(w: Wait, t: nat)
    requires w.status == [0, 0] && forall u: nat, i: nat :: w.HoldsAt(u, i) <==> u == i
    ensures WaitAt(w, 0, 2) == |w.status| && !(w.HoldsAt(t, 0) && w.HoldsAt(t, 1))
  {
    assert w.FirstFrom(0) == 0 && w.FirstFrom(1) == 1;
    assert w.HoldsAt(0, 0) && w.HoldsAt(1, 1);
    assert WaitAt(w, 0, 1) == 1;
  }

  /** wait_until_all returns after exactly `count` reads. */
  predicate ReturnsAfter(w: Wait, start: nat, count: nat) {
    WaitAt(w, start, count) == |w.status| && InTime(w, start, count)
  }

  /** That is one number of reads at most. */
  lemma ReturnsOnce(w: Wait, start: nat, a: nat, b: nat)
    requires ReturnsAfter(w, start, a) && ReturnsAfter(w, start, b)
    ensures a == b
  {
    if a < b { WaitAtGrows(w, start, a, b - 1); }
    if b < a { WaitAtGrows(w, start, b, a - 1); }
  }

  /** The condition of element i is true at the times at which f is. */
  ghost predicate Behaves(w: Wait, i: nat, f: nat -> bool) { forall t: nat :: w.HoldsAt(t, i) == f(t) }

  /** However the other elements behave, f holds at every return from a wait for it. */
  ghost predicate HoldsAtReturns(f: nat -> bool) {
    forall w: Wait, i: nat, start: nat, count: nat ::
      w.Unmasked(i) && Behaves(w, i, f) && ReturnsAfter(w, start, count) ==> f(start + count)
  }

  ghost predicate StaysTrue(f: nat -> bool) { forall t: nat, u: nat :: t <= u && f(t) ==> f(u) }

  /** A wait for f, and for a second element that holds at time `last` only. */
  function WaitWithLast(f: nat -> bool, last: nat): Wait { Wait((t: nat, i: nat) => if i == 0 then f(t) else t == last, [0, 0]) }

  lemma {:induction false} WaitsForLast(f: nat -> bool, t: nat, last: nat, count: nat)
    requires f(t) && t < last && 1 <= count <= last - t
    ensures WaitAt(WaitWithLast(f, last), t, count) == 1
  {
    var w := WaitWithLast(f, last);
    assert w.FirstFrom(0) == 0 && w.FirstFrom(1) == 1;
    if count == 1 { assert w.HoldsAt(t, 0); } else { WaitsForLast(f, t, last, count - 1); }
  }

  /** A condition that was true and is false later is missed by a return at that later time. */
  lemma ReturnMisses(f: nat -> bool, t: nat, u: nat)
    requires f(t) && t < u
    ensures exists w: Wait, start: nat, count: nat :: w.Unmasked(0) && Behaves(w, 0, f) && ReturnsAfter(w, start, count) && start + count == u
  {
    if u == t + 1 {
      var w := Wait((x: nat, i: nat) => f(x), [0]);
      assert w.FirstFrom(0) == 0 && w.FirstFrom(1) == 1 && w.HoldsAt(t, 0);
      assert w.Unmasked(0) && Behaves(w, 0, f) && ReturnsAfter(w, t, 1);
    } else {
      var w := WaitWithLast(f, u - 1);
      WaitsForLast(f, t, u - 1, u - 1 - t);
      assert w.HoldsAt(u - 1, 1) && w.FirstFrom(2) == 2;
      assert w.Unmasked(0) && Behaves(w, 0, f) && ReturnsAfter(w, t, u - t);
    }
  }

  /** A condition holds at the return of every wait_until_all for it and others, if and only if it stays true once it is. */
  lemma HoldsAtReturnIff(f: nat -> bool)
    ensures HoldsAtReturns(f) <==> StaysTrue(f)
  {
    if StaysTrue(f) {
      forall w: Wait, i: nat, start: nat, count: nat | w.Unmasked(i) && Behaves(w, i, f) && ReturnsAfter(w, start, count)
        ensures f(start + count)
      { AllTogether(w, start, count, i, start + count); }
    }
    if HoldsAtReturns(f) {
      forall t: nat, u: nat | t <= u && f(t)
        ensures f(u)
      {
        if t < u {
          ReturnMisses(f, t, u);
          var w: Wait, start: nat, count: nat :| w.Unmasked(0) && Behaves(w, 0, f) && ReturnsAfter(w, start, count) && start + count == u;
        }
      }
    }
  }

  /** Once all unmasked conditions hold for good, as many more reads as there are elements are enough. */
  lemma AllReturns(w: Wait, start: nat, from: nat, count: nat)
    requires (forall i :: w.Unmasked(i) ==> w.HoldsFrom(start + from, i)) && count >= from + |w.status|
    ensures WaitAt(w, start, count) == |w.status|
  {
    AllProgress(w, start, from, |w.status|);
    WaitAtGrows(w, start, from + |w.status|, count);
  }

  // ----------------------------------------------------- what the caller knows of memory

  /** The wait for a comparison of every element of `mem` with `val`. */
  function WaitFor(mem: Memory, cmp: Cmp, val: int, status: seq<int>): Wait { Wait(Outcomes(mem, cmp, val), status) }

  /** What was read at time t of element i is as the comparison asks. */
  predicate Seen(mem: Memory, cmp: Cmp, val: int, t: nat, i: nat) { Sign(mem(t, i) - val) in Signs(cmp) }

  lemma HoldsIsSeen(mem: Memory, cmp: Cmp, val: int, status: seq<int>, t: nat, i: nat)
    ensures WaitFor(mem, cmp, val, status).HoldsAt(t, i) <==> Seen(mem, cmp, val, t, i)
  { TestIsOrder(cmp, mem(t, i), val); }

  lemma {:induction false} NotYetSeen(mem: Memory, cmp: Cmp, val: int, status: seq<int>, start: nat, i: nat, a: nat, b: nat, t: nat)
    requires a <= t < b && NotYet(WaitFor(mem, cmp, val, status), start, i, a, b)
    ensures !Seen(mem, cmp, val, start + t, i)
  {
    HoldsIsSeen(mem, cmp, val, status, start + b - 1, i);
    if t < b - 1 { NotYetSeen(mem, cmp, val, status, start, i, a, b - 1, t); }
  }

  /** wait_until returns at the first read that stands to `val` as asked: equal to it for EQ, below it for LT. */
  method WaitUntilValue(mem: Memory, cmp: Cmp, val: int, i: nat, start: nat, limit: nat) returns (held: bool, count: nat)
    ensures held <==> Seen(mem, cmp, val, start + count, i)
    ensures forall t: nat :: start <= t < start + count ==> !Seen(mem, cmp, val, t, i)
    ensures !held ==> count >= limit
  {
    var w := WaitFor(mem, cmp, val, []);
    held, count := WaitUntilOne(w, start, i, 0, limit);
    HoldsIsSeen(mem, cmp, val, [], start + count, i);
    forall t: nat | start <= t < start + count
      ensures !Seen(mem, cmp, val, t, i)
    { NotYetSeen(mem, cmp, val, [], start, i, 0, count, t - start); }
  }

  /** wait_until_any: the value of the element it returns is as asked, and that of no read before was. */
  lemma AnyIsSeen(mem: Memory, cmp: Cmp, val: int, status: seq<int>, start: nat, count: nat, t: nat)
    requires var w := WaitFor(mem, cmp, val, status);
      w.FirstFrom(0) < |status| && Succeeds(w, start, count) && AllFail(w, start, count) && t <= count
    ensures var w := WaitFor(mem, cmp, val, status); Seen(mem, cmp, val, start + t, ReadAt(w, t)) <==> t == count
  {
    var w := WaitFor(mem, cmp, val, status);
    HoldsIsSeen(mem, cmp, val, status, start + t, ReadAt(w, t));
    if t < count { AllFailAt(w, start, count, t); }
  }

  /** wait_until_all: every unmasked element had a value as asked when it was read last. */
  lemma AllAreSeen(mem: Memory, cmp: Cmp, val: int, status: seq<int>, start: nat, count: nat, i: nat) returns (t: nat)
    requires var w := WaitFor(mem, cmp, val, status); WaitAt(w, start, count) == |status| && w.Unmasked(i)
    ensures t < count && Seen(mem, cmp, val, start + t, i)
  {
    t := PassedHeld(WaitFor(mem, cmp, val, status), start, count, i);
    HoldsIsSeen(mem, cmp, val, status, start + t, i);
  }

  // -------------------------------------------------------------------- some

  /** How many of the elements below i are unmasked. */
  function Before(w: Wait, i: nat): (n: nat)
    requires i <= |w.status|
    ensures n <= i
  {
    if i == 0 then 0 else Before(w, i - 1) + if w.Unmasked(i - 1) then 1 else 0
  }

  /** The elements below n whose condition holds when a sweep that starts at time t reads them. */
  function HeldIn(w: Wait, t: nat, n: nat): seq<nat>
    requires n <= |w.status|
  {
    if n == 0 then []
    else HeldIn(w, t, n - 1) + if w.Unmasked(n - 1) && w.HoldsAt(t + Before(w, n - 1), n - 1) then [n - 1] else []
  }

  /** The list holds exactly those elements ... */
  lemma {:induction false} HeldExact(w: Wait, t: nat, n: nat, k: nat)
    requires n <= |w.status|
    ensures k in HeldIn(w, t, n) <==> k < n && w.Unmasked(k) && w.HoldsAt(t + Before(w, k), k)
  {
    if n > 0 { HeldExact(w, t, n - 1, k); }
  }

  /** ... in strictly increasing order. */
  lemma {:induction false} HeldIncreasing(w: Wait, t: nat, n: nat)
    requires n <= |w.status|
    ensures forall a, b :: 0 <= a < b < |HeldIn(w, t, n)| ==> HeldIn(w, t, n)[a] < HeldIn(w, t, n)[b]
  {
    if n > 0 {
      HeldIncreasing(w, t, n - 1);
      var s := HeldIn(w, t, n - 1);
      forall a | 0 <= a < |s|
        ensures s[a] < n - 1
      {
        assert s[a] in s;
        HeldExact(w, t, n - 1, s[a]);
      }
    }
  }

  /** What a sweep that starts at time t finds. */
  function Found(w: Wait, t: nat): seq<nat> { HeldIn(w, t, |w.status|) }

  /** When sweep number s starts. */
  function SweepStart(w: Wait, start: nat, s: nat): nat {
    if s == 0 then start else SweepStart(w, start, s - 1) + Before(w, |w.status|)
  }

  /** None of the first s sweeps found a condition true. */
  predicate Fruitless(w: Wait, start: nat, s: nat) {
    s == 0 || (Fruitless(w, start, s - 1) && Found(w, SweepStart(w, start, s - 1)) == [])
  }

  /** One sweep of wait_until_some. */
  method SweepSome(w: Wait, pos: nat, start: nat) returns (indices: seq<nat>, time: nat)
    requires pos == w.FirstFrom(0)
    ensures indices == Found(w, start) && time == start + Before(w, |w.status|)
  {
    indices, time := [], start;
    NoneBeforeFirst(w, start, pos);
    var i := pos;
    while i < |w.status|
      invariant pos <= i <= |w.status| && time == start + Before(w, i) && indices == HeldIn(w, start, i)
    {
      if w.status[i] == 0 {
        if w.HoldsAt(time, i) {
          indices := indices + [i];
        }
        time := time + 1;
      }
      i := i + 1;
    }
  }

  lemma {:induction false} NoneBeforeFirst(w: Wait, t: nat, i: nat)
    requires i <= w.FirstFrom(0)
    ensures Before(w, i) == 0 && HeldIn(w, t, i) == []
  {
    if i > 0 {
      NoneBeforeFirst(w, t, i - 1);
      w.FirstFromSkips(0, i - 1);
    }
  }

  /**
    wait_until_some: it returns what the first sweep that found anything found, in increasing order,
    and nothing without waiting exactly if no element is unmasked.  Here `limit` counts sweeps.
  */
  method WaitUntilSome(w: Wait, start: nat, limit: nat) returns (indices: seq<nat>, sweeps: nat)
    ensures Fruitless(w, start, sweeps)
    ensures indices != [] ==> indices == Found(w, SweepStart(w, start, sweeps))
    ensures indices == [] ==> (forall i :: !w.Unmasked(i)) || sweeps >= limit
    ensures (forall i :: !w.Unmasked(i)) ==> sweeps == 0
  {
    indices, sweeps := [], 0;
    var nelems := |w.status|;
    if nelems == 0 {
      return;
    }
    var pos := StatusEntry(w);
    if pos == nelems {
      return;
    }
    var done, time := false, start;
    while !done && sweeps < limit
      invariant Fruitless(w, start, sweeps) && (done <==> indices != [])
      invariant !done ==> time == SweepStart(w, start, sweeps)
      invariant done ==> indices == Found(w, SweepStart(w, start, sweeps))
      decreases !done, limit - sweeps
    {
      indices, time := SweepSome(w, pos, time);
      done := indices != [];
      sweeps := if done then sweeps else sweeps + 1;
    }
  }

  lemma {:induction false} SweepsTakeTime(w: Wait, start: nat, s: nat, i: nat)
    requires w.Unmasked(i)
    ensures SweepStart(w, start, s) >= start + s
  {
    if s > 0 {
      SweepsTakeTime(w, start, s - 1, i);
      BeforeCounts(w, i, |w.status|);
    }
  }

  lemma {:induction false} BeforeCounts(w: Wait, i: nat, n: nat)
    requires w.Unmasked(i) && i < n <= |w.status|
    ensures Before(w, n) >= 1
  {
    if i < n - 1 { BeforeCounts(w, i, n - 1); }
  }

  /** Once an unmasked condition holds for good, the next sweep finds it: the wait cannot go on. */
  lemma SomeReturns(w: Wait, start: nat, sweeps: nat, i: nat, from: nat)
    requires w.Unmasked(i) && w.HoldsFrom(start + from, i) && sweeps > from
    ensures !Fruitless(w, start, sweeps)
  {
    SweepsTakeTime(w, start, sweeps - 1, i);
    var t := SweepStart(w, start, sweeps - 1);
    HeldExact(w, t, |w.status|, i);
    assert w.HoldsAt(t + Before(w, i), i);
    assert i in Found(w, t);
  }

  /** wait_until_some: the list holds exactly the unmasked elements whose value was as asked when the sweep read them. */
  lemma SomeAreSeen(mem: Memory, cmp: Cmp, val: int, status: seq<int>, t: nat, k: nat)
    requires k < |status|
    ensures var w := WaitFor(mem, cmp, val, status);
      k in HeldIn(w, t, |status|) <==> w.Unmasked(k) && Seen(mem, cmp, val, t + Before(w, k), k)
  {
    var w := WaitFor(mem, cmp, val, status);
    HeldExact(w, t, |status|, k);
    HoldsIsSeen(mem, cmp, val, status, t + Before(w, k), k);
  }
}
