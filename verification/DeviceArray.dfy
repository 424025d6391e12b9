/**
  Array::fill and Array::copy (src/containers/array_impl.hpp).  On the device
  every thread of the grid runs the loop with the default strategy: it starts at
  its global id and advances by the number of threads.
*/
module DeviceArray {
  import opened Arithmetic
  import opened IndexStrategy

  /** One more round of the loop visits one more index. */
  lemma VisitsStep(start: int, step: int, i: int, x: int)
    requires step >= 1 && start <= i && (i - start) % step == 0
    ensures Visits(start, step, i + step, x) <==> Visits(start, step, i, x) || x == i
  {
    if i < x < i + step && (x - start) % step == 0 {
      DivBounds(i - start, step);
      DivBounds(x - start, step);
      var k := (x - start) / step - (i - start) / step;
      assert step * k == x - i;
      SmallMultiple(step, k);
    }
  }

  lemma NextAligned(start: int, step: int, i: int)
    requires step >= 1 && (i - start) % step == 0
    ensures (i + step - start) % step == 0
  { AddMultiple(i - start, 1, step); }

  lemma VisitsEnd(start: int, step: int, end: int, i: int, x: int)
    requires step >= 1 && start <= i && (i - start) % step == 0 && end <= i && (i - step < end || i == start)
    ensures Visits(start, step, end, x) <==> Visits(start, step, i, x)
  {
    if Visits(start, step, i, x) && x >= end {
      DivBounds(i - start, step);
      DivBounds(x - start, step);
      var k := (i - start) / step - (x - start) / step;
      assert step * k == i - x;
      SmallMultiple(step, k);
    }
  }

  method HostFill<T>(a: array<T>, v: T, start: nat, length: nat)
    requires start + length <= a.Length
    modifies a
    ensures forall x :: 0 <= x < a.Length ==> a[x] == if start <= x < start + length then v else old(a[x])
  {
    var i := start;
    while i < start + length
      invariant start <= i <= start + length
      invariant forall x :: 0 <= x < a.Length ==> a[x] == if start <= x < i then v else old(a[x])
    {
      a[i] := v;
      i := i + 1;
    }
  }

  /** What the thread with this global id does; it stops at the end of the array. */
  method FillThread<T>(a: array<T>, v: T, start: nat, length: nat, id: nat, threads: nat)
    requires threads >= 1
    modifies a
    ensures var end := if start + length < a.Length then start + length else a.Length;
            forall x :: 0 <= x < a.Length ==> a[x] == if Visits(start + id, threads, end, x) then v else old(a[x])
  {
    ghost var end := if start + length < a.Length then start + length else a.Length;
    ghost var first := start + id;
    var i := start + id;
    SmallDiv(0, threads);
    while i < start + length && i < a.Length
      invariant start + id <= i && (i - start - id) % threads == 0 && (i - threads < end || i == start + id)
      invariant forall x :: 0 <= x < a.Length ==> a[x] == if Visits(start + id, threads, i, x) then v else old(a[x])
    {
      a[i] := v;
      ghost var next := i + threads;
      forall x ensures Visits(first, threads, next, x) <==> Visits(first, threads, i, x) || x == i {
        VisitsStep(first, threads, i, x);
      }
      NextAligned(first, threads, i);
      i := i + threads;
    }
    forall x ensures 0 <= x < a.Length ==> (Visits(first, threads, end, x) <==> Visits(first, threads, i, x)) {
      VisitsEnd(first, threads, end, i, x);
    }
  }

  /** Thread t of the grid visits index x. */
  predicate ThreadVisits(start: nat, threads: nat, end: int, t: nat, x: int)
    requires threads >= 1
  { Visits(start + t, threads, end, x) }

  ghost predicate SomeThreadVisits(start: nat, threads: nat, end: int, x: int)
    requires threads >= 1
  { exists t: nat :: t < threads && ThreadVisits(start, threads, end, t, x) }

  /** Every index of the range belongs to exactly one of the threads. */
  lemma OneThreadVisits(start: nat, threads: nat, end: int, x: int)
    requires threads >= 1
    ensures SomeThreadVisits(start, threads, end, x) <==> start <= x < end
    ensures forall t: nat, u: nat :: t < threads && u < threads && ThreadVisits(start, threads, end, t, x) && ThreadVisits(start, threads, end, u, x) ==> t == u
  {
    if start <= x < end {
      var owner := (x - start) % threads;
      DivBounds(x - start, threads);
      forall t: nat | t < threads
        ensures ThreadVisits(start, threads, end, t, x) <==> t == owner
      { StridedOwner(start, threads, end, x, t); }
      assert ThreadVisits(start, threads, end, owner, x);
    }
  }

  /** `sched` is some interleaving of the stores of all threads: it holds exactly the indices that some thread visits. */
  ghost predicate Interleaves(sched: seq<nat>, start: nat, threads: nat, end: int)
    requires threads >= 1
  { forall x: nat :: x in sched <==> SomeThreadVisits(start, threads, end, x) }

  lemma ScheduledIsRange(sched: seq<nat>, start: nat, threads: nat, end: int, x: nat)
    requires threads >= 1 && Interleaves(sched, start, threads, end)
    ensures x in sched <==> start <= x < end
  { OneThreadVisits(start, threads, end, x); }

  /** The stores of all threads, in any order: the result is that of the host loop, cut at the end of the array. */
  method DeviceFill<T>(a: array<T>, v: T, start: nat, length: nat, threads: nat, sched: seq<nat>)
    requires threads >= 1 && Interleaves(sched, start, threads, if start + length < a.Length then start + length else a.Length)
    modifies a
    ensures forall x :: 0 <= x < a.Length ==> a[x] == if start <= x < start + length then v else old(a[x])
  {
    ghost var end := if start + length < a.Length then start + length else a.Length;
    forall x: nat ensures x in sched <==> start <= x < end { ScheduledIsRange(sched, start, threads, end, x); }
    for n := 0 to |sched|
      invariant forall x :: 0 <= x < a.Length ==> a[x] == if x in sched[..n] then v else old(a[x])
    {
      assert sched[n] in sched;
      a[sched[n]] := v;
    }
    assert sched[..|sched|] == sched;
  }

  method HostCopy<T>(a: array<T>, other: array<T>, start: nat, length: nat)
    requires start + length <= a.Length && start + length <= other.Length
    modifies a
    ensures forall x :: 0 <= x < a.Length ==> a[x] == if start <= x < start + length then old(other[x]) else old(a[x])
  {
    var i := start;
    while i < start + length
      invariant start <= i <= start + length
      invariant forall x :: 0 <= x < a.Length ==> a[x] == if start <= x < i then old(other[x]) else old(a[x])
    {
      a[i] := other[i];
      i := i + 1;
    }
  }

  /** Unlike fill, copy relies on the range being inside both arrays. */
  method CopyThread<T>(a: array<T>, other: array<T>, start: nat, length: nat, id: nat, threads: nat)
    requires threads >= 1 && start + length <= a.Length && start + length <= other.Length
    modifies a
    ensures forall x :: 0 <= x < a.Length ==>
              a[x] == if Visits(start + id, threads, start + length, x) then old(other[x]) else old(a[x])
  {
    ghost var first := start + id;
    var i := start + id;
    SmallDiv(0, threads);
    while i < start + length
      invariant start + id <= i && (i - start - id) % threads == 0 && (i - threads < start + length || i == start + id)
      invariant forall x :: 0 <= x < a.Length ==>
                  a[x] == if x < start + length && Visits(start + id, threads, i, x) then old(other[x]) else old(a[x])
    {
      a[i] := other[i];
      ghost var next := i + threads;
      forall x ensures Visits(first, threads, next, x) <==> Visits(first, threads, i, x) || x == i {
        VisitsStep(first, threads, i, x);
      }
      NextAligned(first, threads, i);
      i := i + threads;
    }
    ghost var end := start + length;
    forall x ensures Visits(first, threads, end, x) <==> Visits(first, threads, i, x) {
      VisitsEnd(first, threads, end, i, x);
    }
  }

  method DeviceCopy<T>(a: array<T>, other: array<T>, start: nat, length: nat, threads: nat, sched: seq<nat>)
    requires threads >= 1 && Interleaves(sched, start, threads, start + length)
    requires start + length <= a.Length && start + length <= other.Length
    modifies a
    ensures forall x :: 0 <= x < a.Length ==> a[x] == if start <= x < start + length then old(other[x]) else old(a[x])
  {
    ghost var end := start + length;
    forall x: nat ensures x in sched <==> start <= x < end { ScheduledIsRange(sched, start, threads, end, x); }
    for n := 0 to |sched|
      invariant forall x :: 0 <= x < a.Length ==> a[x] == if start <= x < end && x in sched[..n] then old(other[x]) else old(a[x])
    {
      assert sched[n] in sched;
      a[sched[n]] := other[sched[n]];
    }
    assert sched[..|sched|] == sched;
  }
}
