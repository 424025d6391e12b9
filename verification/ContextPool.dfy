/**
  The pool of device contexts of the InfiniBand backend
  (src/gpu_ib/backend_ib.cpp): the host fills a free list once, the device pops a
  context to create one and pushes it back to destroy it.  The push ignores its
  result, so it must never find the recycled stack empty.
*/
module ContextPool {
  import opened FreeList
  import opened Options

  /** The free list as a value and the contexts that are in use. */
  datatype Contexts = Contexts(queue: Queue<nat>, inUse: set<nat>)

  function Numbers(max: nat): (s: seq<nat>)
    ensures |s| == max && forall i :: 0 <= i < max ==> s[i] == i
  { seq(max, i => i) }

  function Setup(max: nat): Contexts { Contexts(Queue(Numbers(max), 0), {}) }

  /** create_ctx: None stands for the result `false`. */
  function Create(s: Contexts): (Contexts, Option<nat>) {
    var (q, r) := Pop(s.queue);
    if r.None? then (s, None) else (Contexts(q, s.inUse + {r.value}), r)
  }

  /** destroy_ctx, and whether its push succeeded. */
  function Destroy(s: Contexts, ctx: nat): (Contexts, bool) {
    var (q, ok) := DevicePush(s.queue, ctx);
    (Contexts(q, s.inUse - {ctx}), ok)
  }

  /** Every context is either free or in use, and for each one in use a node waits to be reused. */
  ghost predicate Conserved(s: Contexts, max: nat) {
    && (forall c: nat :: c < max <==> c in s.queue.items || c in s.inUse)
    && (forall i, j :: 0 <= i < j < |s.queue.items| ==> s.queue.items[i] != s.queue.items[j])
    && (forall c <- s.queue.items :: c !in s.inUse)
    && s.queue.spare == |s.inUse| && |s.queue.items| + |s.inUse| == max
  }

  lemma SetupConserved(max: nat)
    ensures Conserved(Setup(max), max)
  {
    forall c: nat | c < max
      ensures c in Numbers(max)
    { assert Numbers(max)[c] == c; }
  }

  lemma CreateConserved(s: Contexts, max: nat)
    requires Conserved(s, max)
    ensures Conserved(Create(s).0, max)
    ensures Create(s).1.None? <==> |s.inUse| == max
    ensures Create(s).1.Some? ==> Create(s).1.value < max && Create(s).1.value !in s.inUse
  {
    var items := s.queue.items;
    if items != [] {
      assert items == [items[0]] + items[1..];
      assert items[0] !in items[1..];
    }
  }

  lemma DestroyConserved(s: Contexts, ctx: nat, max: nat)
    requires Conserved(s, max) && ctx in s.inUse
    ensures Destroy(s, ctx).1 && Conserved(Destroy(s, ctx).0, max)
  {
    var s' := Destroy(s, ctx).0;
    assert s.inUse == s'.inUse + {ctx};
    forall c: nat
      ensures c < max <==> c in s'.queue.items || c in s'.inUse
    {
      assert s'.queue.items[|s.queue.items|] == ctx;
    }
  }

  datatype Action = CreateCtx | DestroyCtx(ctx: nat)

  /** A run only destroys contexts that are in use; `failed` records a push that found no node. */
  function Run(max: nat, acts: seq<Action>): (Contexts, bool) {
    if acts == [] then (Setup(max), false)
    else
      var (s, failed) := Run(max, acts[..|acts| - 1]);
      match acts[|acts| - 1]
      case CreateCtx => (Create(s).0, failed)
      case DestroyCtx(c) => if c in s.inUse then (Destroy(s, c).0, failed || !Destroy(s, c).1) else (s, failed)
  }

  /** Over every run: free and used contexts partition all of them, and no push ever fails. */
  lemma {:induction false} ConservedOverAllRuns(max: nat, acts: seq<Action>)
    ensures Conserved(Run(max, acts).0, max) && !Run(max, acts).1
  {
    if acts == [] {
      SetupConserved(max);
    } else {
      ConservedOverAllRuns(max, acts[..|acts| - 1]);
      var s := Run(max, acts[..|acts| - 1]).0;
      match acts[|acts| - 1]
      case CreateCtx => CreateConserved(s, max);
      case DestroyCtx(c) => if c in s.inUse { DestroyConserved(s, c, max); }
    }
  }

  /** Every action has its effect: a creation adds a context unless all are in use, a destruction frees the one it names. */
  lemma RunStep(max: nat, acts: seq<Action>, a: Action)
    ensures var (s, s') := (Run(max, acts).0, Run(max, acts + [a]).0);
      match a
      case CreateCtx => s.inUse <= s'.inUse && |s'.inUse| == if |s.inUse| < max then |s.inUse| + 1 else |s.inUse|
      case DestroyCtx(c) => s'.inUse == s.inUse - {c}
  {
    ConservedOverAllRuns(max, acts);
    CreateConserved(Run(max, acts).0, max);
    assert (acts + [a])[..|acts|] == acts;
  }

  /** The backend's part: contexts are numbered by their place in `ctx_array`. */
  class Backend {
    const max: nat
    const ctxFreeList: List<nat>
    ghost var inUse: set<nat>

    ghost predicate Valid()
      reads this, ctxFreeList, ctxFreeList.Live(), ctxFreeList.spare
    { ctxFreeList.Valid() && Conserved(State(), max) }

    ghost function State(): Contexts
      reads this, ctxFreeList
    { Contexts(ctxFreeList.Model(), inUse) }

    constructor (maximumNumContexts: nat)
      ensures Valid() && max == maximumNumContexts && State() == Setup(max)
      ensures fresh(ctxFreeList) && fresh(ctxFreeList.nodes)
    {
      max := maximumNumContexts;
      var list := new List<nat>();
      SetupCtxs(list, maximumNumContexts);
      ctxFreeList := list;
      inUse := {};
      new;
      SetupConserved(max);
    }

    /** setup_ctxs: the host pushes every context. */
    static method SetupCtxs(list: List<nat>, max: nat)
      requires list.Valid() && list.Model() == Queue([], 0) && list.nodes == {}
      modifies list
      ensures list.Valid() && list.Model() == Queue(Numbers(max), 0) && fresh(list.nodes)
    {
      for i := 0 to max
        invariant list.Valid() && list.Model() == Queue(Numbers(i), 0) && fresh(list.nodes)
      {
        assert Numbers(i + 1) == Numbers(i) + [i];
        list.TailIsLive();
        list.PartsAreNodes();
        ghost var node;
        var ok;
        ok, node := list.HostPushBack(i, true);
      }
    }

    method CreateCtx() returns (ctx: Option<nat>)
      requires Valid()
      modifies this, ctxFreeList, ctxFreeList.Live()
      ensures Valid() && State() == Create(old(State())).0 && ctx == Create(old(State())).1
    {
      CreateConserved(State(), max);
      ctx := ctxFreeList.PopFront();
      if ctx.Some? { inUse := inUse + {ctx.value}; }
    }

    /** destroy_ctx ignores the result of the push; for a context in use it is always true. */
    method DestroyCtx(ctx: nat)
      requires Valid() && ctx in inUse
      modifies this, ctxFreeList, ctxFreeList.Live(), ctxFreeList.spare
      ensures Valid() && State() == Destroy(old(State()), ctx).0 && Destroy(old(State()), ctx).1
    {
      DestroyConserved(State(), ctx, max);
      inUse := inUse - {ctx};
      var pushed := ctxFreeList.DevicePushBack(ctx);
    }
  }
}
