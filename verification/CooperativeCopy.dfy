/**
  The copy routines of the device (src/util.hpp): `memcpy` by one thread,
  `memcpy_wg` by a thread block, `memcpy_wave` by the active lanes of a
  wavefront.  Memory is a sequence of bytes from the start of the copied region;
  source and destination do not overlap.  Sizes are below 2^31, where the `int`
  variables of the source are exact.
*/
module CooperativeCopy {
  import opened Arithmetic

  /** `store_asm(src + at, dst + at, width)`: all stores keep the offset. */
  datatype Store = Store(at: nat, width: nat)

  // ------------------------------------------------------- what one thread stores

  /** The inner loop: chunks i, i + step, i + 2 step, .. below `count`, of `width` bytes each. */
  function Chunks(i: nat, step: nat, count: nat, base: nat, width: nat): seq<Store>
    requires step >= 1
    decreases count - i
  {
    if i >= count then [] else [Store(base + i * width, width)] + Chunks(i + step, step, count, base, width)
  }

  /** The size left before the pass with chunks of `width` bytes: each pass leaves the remainder. */
  function Left(size: nat, width: nat): nat {
    if width == 8 then size else if width == 4 then size % 8 else if width == 2 then size % 4 else size % 2
  }

  function Pass(id: nat, step: nat, size: nat, width: nat): seq<Store>
    requires step >= 1 && width >= 1
  { Chunks(id, step, Left(size, width) / width, size - Left(size, width), width) }

  /** The outer loop over the chunk widths 8, 4, 2, from `width` on. */
  function Passes(id: nat, step: nat, size: nat, width: nat): seq<Store>
    requires step >= 1
    decreases width
  {
    if width == 8 then Pass(id, step, size, 8) + Passes(id, step, size, 4)
    else if width == 4 then Pass(id, step, size, 4) + Passes(id, step, size, 2)
    else if width == 2 then Pass(id, step, size, 2)
    else []
  }

  /** Where `dst_bytes` points after the loops: at the thread's last chunk, or at the start. */
  function LastChunk(stores: seq<Store>): nat { LastFrom(0, stores) }

  function LastFrom(before: nat, stores: seq<Store>): nat { if stores == [] then before else stores[|stores| - 1].at }

  /** All stores of the thread with this id among threads that advance by `step`. */
  function ThreadStores(id: nat, step: nat, size: nat): seq<Store>
    requires step >= 1
  {
    var stores := Passes(id, step, size, 8);
    if size % 2 == 1 && id == 0 then stores + [Store(LastChunk(stores), 1)] else stores
  }

  // ---------------------------------------------------------- what stores do to memory

  predicate Fits(stores: seq<Store>, n: nat) { forall i :: 0 <= i < |stores| ==> stores[i].at + stores[i].width <= n }

  function Copy<T>(src: seq<T>, dst: seq<T>, s: Store): (r: seq<T>)
    requires |src| == |dst| && s.at + s.width <= |dst|
    ensures |r| == |dst|
  { dst[..s.at] + src[s.at..s.at + s.width] + dst[s.at + s.width..] }

  function Apply<T>(src: seq<T>, dst: seq<T>, stores: seq<Store>): (r: seq<T>)
    requires |src| == |dst| && Fits(stores, |dst|)
    ensures |r| == |dst|
    decreases stores
  {
    if stores == [] then dst else Apply(src, Copy(src, dst, stores[0]), stores[1..])
  }

  predicate Covers(s: Store, x: int) { s.at <= x < s.at + s.width }

  ghost predicate Covered(stores: seq<Store>, x: int) { exists i :: 0 <= i < |stores| && Covers(stores[i], x) }

  /** Stores that keep the offset commute: only the set of bytes they cover matters. */
  lemma {:induction false} ApplyAt<T>(src: seq<T>, dst: seq<T>, stores: seq<Store>, x: int)
    requires |src| == |dst| && Fits(stores, |dst|) && 0 <= x < |dst|
    ensures Apply(src, dst, stores)[x] == if Covered(stores, x) then src[x] else dst[x]
    decreases stores
  {
    if stores != [] {
      var dst' := Copy(src, dst, stores[0]);
      assert dst'[x] == if Covers(stores[0], x) then src[x] else dst[x];
      ApplyAt(src, dst', stores[1..], x);
      CoveredCons(stores, x);
    }
  }

  lemma CoveredCons(stores: seq<Store>, x: int)
    requires stores != []
    ensures Covered(stores, x) <==> Covers(stores[0], x) || Covered(stores[1..], x)
  {
    if Covered(stores, x) {
      var i :| 0 <= i < |stores| && Covers(stores[i], x);
      if i > 0 { assert stores[1..][i - 1] == stores[i]; }
    }
    if Covered(stores[1..], x) {
      var i :| 0 <= i < |stores[1..]| && Covers(stores[1..][i], x);
      assert stores[i + 1] == stores[1..][i];
    }
  }

  lemma CoveredJoin(a: seq<Store>, b: seq<Store>, x: int)
    ensures Covered(a + b, x) <==> Covered(a, x) || Covered(b, x)
  {
    if Covered(a, x) {
      var i :| 0 <= i < |a| && Covers(a[i], x);
      assert (a + b)[i] == a[i];
    }
    if Covered(b, x) {
      var i :| 0 <= i < |b| && Covers(b[i], x);
      assert (a + b)[|a| + i] == b[i];
    }
  }

  // --------------------------------------------------------- which bytes a thread covers

  /** A thread with this id handles chunk `i`: its own number, or one it reaches by strides. */
  predicate Takes(id: nat, step: nat, i: int)
    requires step >= 1
    decreases i - id
  { i == id || (i > id && Takes(id, step, i - step)) }

  /** Byte x lies in chunk `c` of a pass. */
  predicate InChunk(base: nat, width: nat, c: int, x: int) { base + c * width <= x < base + c * width + width }

  lemma SameChunk(base: nat, width: nat, c: int, i: int, x: int)
    requires InChunk(base, width, c, x) && InChunk(base, width, i, x)
    ensures c == i
  {
    assert (c + 1) * width == c * width + width && (i + 1) * width == i * width + width;
    if c < i {
      MulMono(c + 1, i, width);
    } else if i < c {
      MulMono(i + 1, c, width);
    }
  }

  /** A thread at chunk i of a pass still covers exactly the chunks it takes from there on. */
  lemma {:induction false} ChunksCover(id: nat, i: nat, step: nat, count: nat, base: nat, width: nat, c: int, x: int)
    requires step >= 1 && width >= 1 && Takes(id, step, i) && InChunk(base, width, c, x)
    ensures Covered(Chunks(i, step, count, base, width), x) <==> i <= c < count && Takes(id, step, c)
    decreases count - i
  {
    if i < count {
      var stores := Chunks(i, step, count, base, width);
      FirstChunk(i, step, count, base, width, c, x);
      NextTaken(id, step, i);
      ChunksCover(id, i + step, step, count, base, width, c, x);
      if i <= c < i + step && Takes(id, step, c) { NoneBetween(id, step, i, c); }
    }
  }

  lemma FirstChunk(i: nat, step: nat, count: nat, base: nat, width: nat, c: int, x: int)
    requires step >= 1 && width >= 1 && i < count && InChunk(base, width, c, x)
    ensures Covered(Chunks(i, step, count, base, width), x) <==> i == c || Covered(Chunks(i + step, step, count, base, width), x)
  {
    var stores := Chunks(i, step, count, base, width);
    assert stores[1..] == Chunks(i + step, step, count, base, width);
    CoveredCons(stores, x);
    if InChunk(base, width, i, x) { SameChunk(base, width, c, i, x); }
  }

  lemma NextTaken(id: nat, step: nat, i: int)
    requires step >= 1 && Takes(id, step, i)
    ensures i >= id && Takes(id, step, i + step)
  {}

  lemma {:induction false} NoneBetween(id: nat, step: nat, i: int, c: int)
    requires step >= 1 && Takes(id, step, i) && Takes(id, step, c) && i <= c < i + step
    ensures c == i
    decreases i - id
  {
    if i > id { NoneBetween(id, step, i - step, c - step); }
  }

  lemma PassCovers(id: nat, step: nat, count: nat, base: nat, width: nat, x: int)
    requires step >= 1 && width >= 1
    ensures Covered(Chunks(id, step, count, base, width), x)
       <==> base <= x < base + count * width && Takes(id, step, (x - base) / width)
  {
    var c := (x - base) / width;
    DivBounds(x - base, width);
    ChunksCover(id, id, step, count, base, width, c, x);
    ChunkInRange(count, base, width, c, x);
    if Takes(id, step, c) { NextTaken(id, step, c); }
  }

  lemma ChunkInRange(count: nat, base: nat, width: nat, c: int, x: int)
    requires width >= 1 && InChunk(base, width, c, x)
    ensures base <= x < base + count * width <==> 0 <= c < count
  {
    if c < 0 { MulMono(c + 1, 0, width); } else { MulMono(0, c, width); }
    if c < count { MulMono(c + 1, count, width); } else { MulMono(count, c, width); }
    assert (c + 1) * width == c * width + width;
  }

  /** A pass with at most one chunk is done by thread 0. */
  lemma ShortPassCovers(id: nat, step: nat, count: nat, base: nat, width: nat, x: int)
    requires step >= 1 && width >= 1 && count <= 1
    ensures Covered(Chunks(id, step, count, base, width), x) <==> base <= x < base + count * width && id == 0
  {
    PassCovers(id, step, count, base, width, x);
    if base <= x < base + count * width { SmallDiv(x - base, width); }
    SmallDiv(0, step);
  }

  /** The chunk that byte `x` belongs to, counted within its pass. */
  function ChunkOf(size: nat, x: int): int { if x < Whole8(size) then x / 8 else 0 }

  /** Two passes with at most one chunk each, one where the other ends. */
  lemma TwoShortPasses(id: nat, step: nat, n4: nat, b4: nat, n2: nat, b2: nat, x: int)
    requires step >= 1 && n4 <= 1 && n2 <= 1 && b2 == b4 + n4 * 4
    ensures Covered(Chunks(id, step, n4, b4, 4) + Chunks(id, step, n2, b2, 2), x) <==> b4 <= x < b2 + n2 * 2 && id == 0
  {
    CoveredJoin(Chunks(id, step, n4, b4, 4), Chunks(id, step, n2, b2, 2), x);
    ShortPassCovers(id, step, n4, b4, 4, x);
    ShortPassCovers(id, step, n2, b2, 2, x);
  }

  /** The passes with chunks of 4 and 2 bytes are done by thread 0 and cover what is left but an odd byte. */
  lemma ShortPassesCover(id: nat, step: nat, size: nat, x: int)
    requires step >= 1
    ensures Covered(Passes(id, step, size, 4), x) <==> size - size % 8 <= x < Even(size) && id == 0
  {
    ShortPassesMeet(size);
    TwoShortPasses(id, step, size % 8 / 4, size - size % 8, size % 4 / 2, size - size % 4, x);
  }

  /** Each short pass starts where the one before ends. */
  lemma ShortPassesMeet(size: nat)
    ensures size % 8 / 4 * 4 == size % 8 - size % 4
    ensures size % 4 / 2 * 2 == size % 4 - size % 2
  {}

  /** How many bytes are in whole chunks of 8, and in whole chunks of 2. */
  function Whole8(size: nat): nat { size / 8 * 8 }

  function Even(size: nat): nat { size - size % 2 }

  /** The three passes cover the even part of the region, and a thread covers the chunks it takes. */
  lemma PassesCover(id: nat, step: nat, size: nat, x: int)
    requires step >= 1
    ensures Covered(Passes(id, step, size, 8), x) <==> 0 <= x < Even(size) && Takes(id, step, ChunkOf(size, x))
  {
    CoveredJoin(Pass(id, step, size, 8), Passes(id, step, size, 4), x);
    WidePassCovers(id, step, size, x);
    ShortPassesCover(id, step, size, x);
    WholeIsEven(size);
    TakesFirst(id, step);
  }

  lemma WidePassCovers(id: nat, step: nat, size: nat, x: int)
    requires step >= 1
    ensures Covered(Pass(id, step, size, 8), x) <==> 0 <= x < Whole8(size) && Takes(id, step, x / 8)
  {
    PassCovers(id, step, size / 8, 0, 8, x);
  }

  lemma WholeIsEven(size: nat)
    ensures Whole8(size) == size - size % 8 <= Even(size)
  {}

  lemma TakesFirst(id: nat, step: nat)
    requires step >= 1
    ensures Takes(id, step, 0) <==> id == 0
  {}

  /** The extra store of thread 0 for an odd size goes to a byte it has stored already, unless the size is 1. */
  lemma ThreadCovers(id: nat, step: nat, size: nat, x: int)
    requires step >= 1
    ensures Covered(ThreadStores(id, step, size), x)
       <==> Covered(Passes(id, step, size, 8), x) || (size == 1 && id == 0 && x == 0)
  {
    var stores := Passes(id, step, size, 8);
    if size % 2 == 1 && id == 0 {
      var extra := [Store(LastChunk(stores), 1)];
      CoveredJoin(stores, extra, x);
      assert Covered(extra, x) <==> Covers(extra[0], x);
      SmallDiv(0, step);
      if size == 1 {
        PassesCover(id, step, size, LastChunk(stores));
        if stores != [] { PassesWide(id, step, size, |stores| - 1); }
      } else {
        PassesCover(id, step, size, 0);
        PassesWide(id, step, size, |stores| - 1);
        assert Covers(stores[|stores| - 1], LastChunk(stores));
      }
    }
  }

  lemma {:induction false} ChunksWide(i: nat, step: nat, count: nat, base: nat, width: nat, k: nat)
    requires step >= 1 && k < |Chunks(i, step, count, base, width)|
    ensures Chunks(i, step, count, base, width)[k].width == width
    decreases count - i
  {
    if k > 0 { ChunksWide(i + step, step, count, base, width, k - 1); }
  }

  lemma PassesWide(id: nat, step: nat, size: nat, k: nat)
    requires step >= 1 && k < |Passes(id, step, size, 8)|
    ensures Passes(id, step, size, 8)[k].width >= 2
  {
    var (p8, p4, p2) := (Pass(id, step, size, 8), Pass(id, step, size, 4), Pass(id, step, size, 2));
    if k < |p8| {
      ChunksWide(id, step, size / 8, 0, 8, k);
    } else if k < |p8| + |p4| {
      ChunksWide(id, step, size % 8 / 4, size - size % 8, 4, k - |p8|);
    } else {
      ChunksWide(id, step, size % 4 / 2, size - size % 4, 2, k - |p8| - |p4|);
    }
  }

  lemma ThreadStoresFit(id: nat, step: nat, size: nat)
    requires step >= 1
    ensures Fits(ThreadStores(id, step, size), size)
  {
    var stores := ThreadStores(id, step, size);
    forall k | 0 <= k < |stores|
      ensures stores[k].at + stores[k].width <= size
    {
      if k < |Passes(id, step, size, 8)| { PassesWide(id, step, size, k); }
      var x := stores[k].at + stores[k].width - 1;
      assert Covers(stores[k], x);
      ThreadCovers(id, step, size, x);
      PassesCover(id, step, size, x);
    }
  }

  // ------------------------------------------------------------------ one thread's code

  /** Memory after stores that cover exactly the bytes `on`: these come from the source. */
  ghost predicate Effect<T>(src: seq<T>, before: seq<T>, after: seq<T>, stores: seq<Store>) {
    && |src| == |before| == |after|
    && forall x :: 0 <= x < |after| ==> after[x] == if Covered(stores, x) then src[x] else before[x]
  }

  lemma EffectIsApply<T>(src: seq<T>, before: seq<T>, after: seq<T>, stores: seq<Store>)
    requires Effect(src, before, after, stores) && Fits(stores, |before|)
    ensures after == Apply(src, before, stores)
  {
    forall x | 0 <= x < |after|
      ensures after[x] == Apply(src, before, stores)[x]
    { ApplyAt(src, before, stores, x); }
  }

  lemma EffectJoin<T>(src: seq<T>, m0: seq<T>, m1: seq<T>, m2: seq<T>, a: seq<Store>, b: seq<Store>)
    requires Effect(src, m0, m1, a) && Effect(src, m1, m2, b)
    ensures Effect(src, m0, m2, a + b)
  {
    forall x | 0 <= x < |m2|
      ensures m2[x] == if Covered(a + b, x) then src[x] else m0[x]
    { CoveredJoin(a, b, x); }
  }

  lemma LastFromJoin(before: nat, a: seq<Store>, b: seq<Store>)
    ensures LastFrom(before, a + b) == LastFrom(LastFrom(before, a), b)
  {}

  /** `store_asm`: n bytes. */
  method StoreAsm<T>(src: array<T>, dst: array<T>, at: nat, n: nat)
    requires src != dst && src.Length == dst.Length && at + n <= dst.Length
    modifies dst
    ensures forall k :: 0 <= k < dst.Length ==> dst[k] == if at <= k < at + n then src[k] else old(dst[k])
    ensures Effect(src[..], old(dst[..]), dst[..], [Store(at, n)])
  {
    for i := 0 to n
      invariant forall k :: 0 <= k < dst.Length ==> dst[k] == if at <= k < at + i then src[k] else old(dst[k])
    {
      dst[at + i] := src[at + i];
    }
    ghost var one := [Store(at, n)];
    assert forall x :: Covered(one, x) <==> Covers(one[0], x);
  }

  /** The inner loop of one thread; `last` follows `dst_bytes`. */
  method CopyPass<T>(src: array<T>, dst: array<T>, id: nat, step: nat, count: nat, def: nat, j: nat, before: nat) returns (last: nat)
    requires src != dst && src.Length == dst.Length && step >= 1
    requires Fits(Chunks(id, step, count, def, j), dst.Length)
    modifies dst
    ensures Effect(src[..], old(dst[..]), dst[..], Chunks(id, step, count, def, j))
    ensures last == LastFrom(before, Chunks(id, step, count, def, j))
  {
    last := before;
    var i := id;
    ghost var done: seq<Store> := [];
    NothingCovered(src[..], dst[..]);
    while i < count
      invariant done + Chunks(i, step, count, def, j) == Chunks(id, step, count, def, j)
      invariant Effect(src[..], old(dst[..]), dst[..], done) && last == LastFrom(before, done)
      decreases count - i
    {
      MulMono(0, i, j);
      ghost var (s, rest, m1) := (Store(def + i * j, j), Chunks(i + step, step, count, def, j), dst[..]);
      StoreComesNext(done, s, rest, Chunks(id, step, count, def, j), dst.Length);
      last := def + i * j;
      StoreAsm(src, dst, last, j);
      EffectJoin(src[..], old(dst[..]), m1, dst[..], done, [s]);
      done := done + [s];
      i := i + step;
    }
    assert done == Chunks(id, step, count, def, j);
  }

  lemma NothingCovered<T>(src: seq<T>, dst: seq<T>)
    requires |src| == |dst|
    ensures Effect(src, dst, dst, [])
  {}

  lemma StoreComesNext(done: seq<Store>, s: Store, rest: seq<Store>, all: seq<Store>, n: nat)
    requires done + ([s] + rest) == all && Fits(all, n)
    ensures s.at + s.width <= n && (done + [s]) + rest == all
  {
    assert all[|done|] == s;
  }

  lemma FitsJoin(a: seq<Store>, b: seq<Store>, n: nat)
    requires Fits(a + b, n)
    ensures Fits(a, n) && Fits(b, n)
  {
    assert forall k :: 0 <= k < |a| ==> a[k] == (a + b)[k];
    assert forall k :: 0 <= k < |b| ==> b[k] == (a + b)[|a| + k];
  }

  /** memcpy by one thread copies everything, whatever the size. */
  method Memcpy<T>(src: array<T>, dst: array<T>, size: nat)
    requires src != dst && src.Length == dst.Length && size <= dst.Length
    modifies dst
    ensures dst[..] == src[..size] + old(dst[size..])
  {
    var left, at := size, 0;
    var i := 8;
    while i > 1
      invariant i == 8 || i == 4 || i == 2 || i == 1
      invariant 0 <= left && at + left == size && (i < 8 ==> left < 2 * i)
      invariant forall k :: 0 <= k < dst.Length ==> dst[k] == if k < at then src[k] else old(dst[k])
    {
      while left >= i
        invariant 0 <= left && at + left == size
        invariant forall k :: 0 <= k < dst.Length ==> dst[k] == if k < at then src[k] else old(dst[k])
        decreases left
      {
        StoreAsm(src, dst, at, i);
        at := at + i;
        left := left - i;
      }
      i := i / 2;
    }
    if left == 1 {
      dst[at] := src[at];
    }
  }

  /**
    What one thread executes in memcpy_wg (`id` its flat id, `step` the block size) or in
    memcpy_wave (`id` its lane, `step` the number of active lanes).
  */
  method CopyThread<T>(src: array<T>, dst: array<T>, id: nat, step: nat, size: nat)
    requires src != dst && src.Length == dst.Length && size <= dst.Length && step >= 1
    modifies dst
    ensures Fits(ThreadStores(id, step, size), dst.Length) && dst[..] == Apply(src[..], old(dst[..]), ThreadStores(id, step, size))
    ensures Effect(src[..], old(dst[..]), dst[..], ThreadStores(id, step, size))
  {
    AllFit(id, step, size, dst.Length);
    StoreChunks(src, dst, id, step, size);
    EffectIsApply(src[..], old(dst[..]), dst[..], ThreadStores(id, step, size));
  }

  method StoreChunks<T>(src: array<T>, dst: array<T>, id: nat, step: nat, size: nat)
    requires src != dst && src.Length == dst.Length && size <= dst.Length && step >= 1
    modifies dst
    ensures Effect(src[..], old(dst[..]), dst[..], ThreadStores(id, step, size))
  {
    AllFit(id, step, size, dst.Length);
    NothingCovered(src[..], dst[..]);
    var left, def, last := size, 0, 0;
    var j := 8;
    while j > 1
      invariant j == 8 || j == 4 || j == 2 || j == 1
      invariant left == Left(size, j) && def == size - left
      invariant Effect(src[..], old(dst[..]), dst[..], Done(id, step, size, j)) && last == LastChunk(Done(id, step, size, j))
    {
      var cpySize := left / j;
      LeftStep(size, j);
      last := OnePass(src, dst, id, step, size, cpySize, def, j, last, old(dst[..]));
      left := left - cpySize * j;
      def := def + cpySize * j;
      j := j / 2;
    }
    if left == 1 && id == 0 {
      ghost var (m1, all) := (dst[..], Passes(id, step, size, 8));
      FitsJoin(all, [Store(last, 1)], dst.Length);
      assert [Store(last, 1)][0] == Store(last, 1);
      StoreAsm(src, dst, last, 1);
      EffectJoin(src[..], old(dst[..]), m1, dst[..], all, [Store(last, 1)]);
    }
  }

  /** One round of the outer loop: the pass with chunks of j bytes. */
  method OnePass<T>(src: array<T>, dst: array<T>, id: nat, step: nat, size: nat, cpySize: nat, def: nat, j: nat, before: nat,
                    ghost start: seq<T>) returns (last: nat)
    requires src != dst && src.Length == dst.Length && size <= dst.Length && step >= 1 && (j == 8 || j == 4 || j == 2)
    requires def == size - Left(size, j) && cpySize == Left(size, j) / j && Fits(Passes(id, step, size, 8), dst.Length)
    requires Effect(src[..], start, dst[..], Done(id, step, size, j)) && before == LastChunk(Done(id, step, size, j))
    modifies dst
    ensures Effect(src[..], start, dst[..], Done(id, step, size, j / 2)) && last == LastChunk(Done(id, step, size, j / 2))
  {
    DoneStep(id, step, size, j, dst.Length);
    LastFromJoin(0, Done(id, step, size, j), Pass(id, step, size, j));
    ghost var m1 := dst[..];
    last := CopyPass(src, dst, id, step, cpySize, def, j, before);
    EffectJoin(src[..], start, m1, dst[..], Done(id, step, size, j), Pass(id, step, size, j));
  }

  /** The stores of the passes before the one with chunks of `width` bytes. */
  function Done(id: nat, step: nat, size: nat, width: nat): seq<Store>
    requires step >= 1
  {
    if width == 8 then []
    else if width == 4 then Pass(id, step, size, 8)
    else if width == 2 then Pass(id, step, size, 8) + Pass(id, step, size, 4)
    else Passes(id, step, size, 8)
  }

  lemma LeftStep(size: nat, j: nat)
    requires j == 8 || j == 4 || j == 2
    ensures Left(size, j / 2) == Left(size, j) - Left(size, j) / j * j
  {
    if j == 8 { DivBounds(size, 8); } else { ShortPassesMeet(size); }
  }

  lemma DoneStep(id: nat, step: nat, size: nat, j: nat, n: nat)
    requires step >= 1 && (j == 8 || j == 4 || j == 2) && Fits(Passes(id, step, size, 8), n)
    ensures Done(id, step, size, j / 2) == Done(id, step, size, j) + Pass(id, step, size, j)
    ensures Fits(Pass(id, step, size, j), n)
  {
    ThreeParts(Pass(id, step, size, 8), Pass(id, step, size, 4), Pass(id, step, size, 2), n);
  }

  lemma ThreeParts(p8: seq<Store>, p4: seq<Store>, p2: seq<Store>, n: nat)
    requires Fits(p8 + (p4 + p2), n)
    ensures p8 + (p4 + p2) == p8 + p4 + p2 && [] + p8 == p8
    ensures Fits(p8, n) && Fits(p4, n) && Fits(p2, n)
  {
    FitsJoin(p8, p4 + p2, n);
    FitsJoin(p4, p2, n);
  }

  lemma AllFit(id: nat, step: nat, size: nat, n: nat)
    requires step >= 1 && size <= n
    ensures Fits(Passes(id, step, size, 8), n) && Fits(ThreadStores(id, step, size), n)
  {
    ThreadStoresFit(id, step, size);
    var all := Passes(id, step, size, 8);
    assert forall k :: 0 <= k < |all| ==> all[k] == ThreadStores(id, step, size)[k];
  }

  // ------------------------------------------------------- all threads, in any order

  /** `sched` is some interleaving of the stores of the threads `ids`: it holds exactly their stores. */
  ghost predicate Interleaves(sched: seq<Store>, ids: set<nat>, step: nat, size: nat)
    requires step >= 1
  {
    forall s :: s in sched <==> exists id :: id in ids && s in ThreadStores(id, step, size)
  }

  /** Some thread of `ids` writes byte `x`. */
  ghost predicate WrittenBy(ids: set<nat>, step: nat, size: nat, x: int)
    requires step >= 1
  { exists id :: id in ids && Covered(ThreadStores(id, step, size), x) }

  /** Whatever the order of the stores: the written bytes come from the source, all others are as before. */
  lemma AnyOrder<T>(src: seq<T>, dst: seq<T>, sched: seq<Store>, ids: set<nat>, step: nat, size: nat)
    requires step >= 1 && |src| == |dst| && size <= |dst| && Interleaves(sched, ids, step, size)
    ensures Fits(sched, |dst|)
    ensures forall x :: 0 <= x < |dst| ==> Apply(src, dst, sched)[x] == if WrittenBy(ids, step, size, x) then src[x] else dst[x]
  {
    forall k | 0 <= k < |sched|
      ensures sched[k].at + sched[k].width <= |dst|
    {
      assert sched[k] in sched;
      var id :| id in ids && sched[k] in ThreadStores(id, step, size);
      ThreadStoresFit(id, step, size);
    }
    forall x | 0 <= x < |dst|
      ensures Apply(src, dst, sched)[x] == if WrittenBy(ids, step, size, x) then src[x] else dst[x]
    {
      ApplyAt(src, dst, sched, x);
      CoveredIffWritten(sched, ids, step, size, x);
    }
  }

  lemma CoveredIffWritten(sched: seq<Store>, ids: set<nat>, step: nat, size: nat, x: int)
    requires step >= 1 && Interleaves(sched, ids, step, size)
    ensures Covered(sched, x) <==> WrittenBy(ids, step, size, x)
  {
    if Covered(sched, x) {
      var k :| 0 <= k < |sched| && Covers(sched[k], x);
      assert sched[k] in sched;
      var id :| id in ids && sched[k] in ThreadStores(id, step, size);
      assert Covered(ThreadStores(id, step, size), x);
    }
    if WrittenBy(ids, step, size, x) {
      var id :| id in ids && Covered(ThreadStores(id, step, size), x);
      var k :| 0 <= k < |ThreadStores(id, step, size)| && Covers(ThreadStores(id, step, size)[k], x);
      assert ThreadStores(id, step, size)[k] in sched;
    }
  }

  function Ids(n: nat): (s: set<nat>)
    ensures forall i: nat :: i in s <==> i < n
  { if n == 0 then {} else Ids(n - 1) + {n - 1} }

  /** How many bytes the cooperative copies get right: all of them for an even size and for size 1, else all but the last. */
  function Copied(size: nat): nat { if size == 1 then 1 else Even(size) }

  /** memcpy_wg: each of these bytes is written by exactly one thread of the block, and no other byte by any. */
  lemma BlockWrites(block: nat, size: nat, x: int)
    requires block >= 1
    ensures WrittenBy(Ids(block), block, size, x) <==> 0 <= x < Copied(size)
    ensures forall a, b | a in Ids(block) && b in Ids(block) ::
              Covered(ThreadStores(a, block, size), x) && Covered(ThreadStores(b, block, size), x) ==> a == b
  {
    var c := ChunkOf(size, x);
    forall id: nat | id < block
      ensures Covered(ThreadStores(id, block, size), x) <==> 0 <= x < Copied(size) && id == if size == 1 then 0 else c % block
    {
      ThreadCovers(id, block, size, x);
      PassesCover(id, block, size, x);
      if 0 <= x < Even(size) { TakesIffRemainder(id, block, c); }
    }
    if 0 <= x < Copied(size) {
      var owner := if size == 1 then 0 else c % block;
      assert owner in Ids(block) && Covered(ThreadStores(owner, block, size), x);
    }
  }

  /** Among ids below the step, exactly the remainder takes a chunk. */
  lemma {:induction false} TakesIffRemainder(id: nat, step: nat, c: int)
    requires step >= 1 && id < step && c >= 0
    ensures Takes(id, step, c) <==> id == c % step
    decreases c
  {
    if c < step {
      SmallDiv(c, step);
      if id != c && Takes(id, step, c) { TakesBelowStep(id, step, c); }
    } else {
      TakesIffRemainder(id, step, c - step);
      AddMultiple(c - step, 1, step);
    }
  }

  lemma CopiedBound(size: nat)
    ensures Copied(size) <= size
  {}

  /** memcpy_wg for every size, block size and order of the stores. */
  lemma BlockCopyResult<T>(src: seq<T>, dst: seq<T>, sched: seq<Store>, block: nat, size: nat)
    requires block >= 1 && |src| == |dst| && size <= |dst| && Interleaves(sched, Ids(block), block, size)
    ensures Fits(sched, |dst|) && Apply(src, dst, sched) == src[..Copied(size)] + dst[Copied(size)..]
  {
    AnyOrder(src, dst, sched, Ids(block), block, size);
    CopiedBound(size);
    forall x: nat { BlockWritten(block, size, x); }
    Splice(Apply(src, dst, sched), src, dst, Copied(size));
  }

  lemma Splice<T>(r: seq<T>, src: seq<T>, dst: seq<T>, n: nat)
    requires n <= |src| == |dst| == |r| && forall x :: 0 <= x < |r| ==> r[x] == if x < n then src[x] else dst[x]
    ensures r == src[..n] + dst[n..]
  {}

  lemma BlockWritten(block: nat, size: nat, x: nat)
    requires block >= 1
    ensures WrittenBy(Ids(block), block, size, x) <==> x < Copied(size)
  {
    BlockWrites(block, size, x);
  }

  function Flatten(parts: seq<seq<Store>>): seq<Store> {
    if parts == [] then [] else Flatten(parts[..|parts| - 1]) + parts[|parts| - 1]
  }

  ghost predicate InPart(parts: seq<seq<Store>>, k: int, s: Store) { 0 <= k < |parts| && s in parts[k] }

  lemma {:induction false} FlattenHolds(parts: seq<seq<Store>>, s: Store)
    ensures s in Flatten(parts) <==> exists k :: InPart(parts, k, s)
  {
    if parts != [] {
      var last := |parts| - 1;
      FlattenHolds(parts[..last], s);
      if k :| InPart(parts, k, s) { assert k < last ==> InPart(parts[..last], k, s); }
      if k :| InPart(parts[..last], k, s) { assert InPart(parts, k, s); }
      if s in parts[last] { assert InPart(parts, last, s); }
    }
  }

  /** What each of the first n threads stores. */
  function PartsOf(n: nat, step: nat, size: nat): seq<seq<Store>>
    requires step >= 1
  { seq(n, id requires 0 <= id < n => ThreadStores(id, step, size)) }

  lemma InTurnInterleaves(block: nat, size: nat)
    requires block >= 1
    ensures Interleaves(Flatten(PartsOf(block, block, size)), Ids(block), block, size)
  {
    var parts := PartsOf(block, block, size);
    forall s
      ensures s in Flatten(parts) <==> exists id :: id in Ids(block) && s in ThreadStores(id, block, size)
    {
      FlattenHolds(parts, s);
      if k :| InPart(parts, k, s) { assert k in Ids(block) && s in ThreadStores(k, block, size); }
      if id :| id in Ids(block) && s in ThreadStores(id, block, size) { assert InPart(parts, id, s); }
    }
  }

  lemma OneMorePart(n: nat, step: nat, size: nat)
    requires step >= 1
    ensures Flatten(PartsOf(n + 1, step, size)) == Flatten(PartsOf(n, step, size)) + ThreadStores(n, step, size)
  {
    assert PartsOf(n + 1, step, size)[..n] == PartsOf(n, step, size);
  }

  /** memcpy_wg with the threads' loops run one after another, one of the orders above. */
  method BlockCopy<T>(src: array<T>, dst: array<T>, block: nat, size: nat)
    requires src != dst && src.Length == dst.Length && size <= dst.Length && block >= 1
    modifies dst
    ensures dst[..] == src[..Copied(size)] + old(dst[Copied(size)..])
  {
    NothingCovered(src[..], dst[..]);
    for id := 0 to block
      invariant Effect(src[..], old(dst[..]), dst[..], Flatten(PartsOf(id, block, size)))
    {
      ghost var m1 := dst[..];
      OneMorePart(id, block, size);
      CopyThread(src, dst, id, block, size);
      EffectJoin(src[..], old(dst[..]), m1, dst[..], Flatten(PartsOf(id, block, size)), ThreadStores(id, block, size));
    }
    ghost var sched := Flatten(PartsOf(block, block, size));
    InTurnInterleaves(block, size);
    BlockCopyResult(src[..], old(dst[..]), sched, block, size);
    EffectIsApply(src[..], old(dst[..]), dst[..], sched);
  }

  /** memcpy_wg agrees with memcpy for all contents of memory if and only if the size is even or 1. */
  lemma BlockCopyIsMemcpyIff<T>(src: seq<T>, dst: seq<T>, sched: seq<Store>, block: nat, size: nat)
    requires block >= 1 && |src| == |dst| && size <= |dst| && Interleaves(sched, Ids(block), block, size)
    ensures Fits(sched, |dst|)
    ensures Apply(src, dst, sched) == src[..size] + dst[size..]
       <==> size % 2 == 0 || size == 1 || src[size - 1] == dst[size - 1]
  {
    BlockCopyResult(src, dst, sched, block, size);
    var (a, b) := (Apply(src, dst, sched), src[..size] + dst[size..]);
    if size % 2 == 1 && size != 1 {
      assert a[size - 1] == dst[size - 1] && b[size - 1] == src[size - 1];
      assert forall x :: 0 <= x < |dst| && x != size - 1 ==> a[x] == b[x];
    }
  }

  /** Lanes that must be active for memcpy_wave to reach every chunk. */
  ghost predicate PrefixActive(lanes: set<nat>, size: nat) {
    && (forall k: nat :: k < |lanes| && k < size / 8 ==> k in lanes)
    && (size % 8 >= 2 || size == 1 ==> 0 in lanes)
  }

  /** memcpy_wave writes the bytes memcpy_wg would write if and only if the active lanes start at lane 0 without a gap. */
  lemma WaveWritesIff(lanes: set<nat>, size: nat)
    requires |lanes| >= 1
    ensures (forall x :: 0 <= x < Copied(size) ==> WrittenBy(lanes, |lanes|, size, x)) <==> PrefixActive(lanes, size)
  {
    if PrefixActive(lanes, size) {
      forall x | 0 <= x < Copied(size)
        ensures WrittenBy(lanes, |lanes|, size, x)
      { WaveReaches(lanes, size, x); }
    }
    if forall x :: 0 <= x < Copied(size) ==> WrittenBy(lanes, |lanes|, size, x) {
      AllWrittenNeedsPrefix(lanes, size);
    }
  }

  lemma AllWrittenNeedsPrefix(lanes: set<nat>, size: nat)
    requires |lanes| >= 1 && forall x :: 0 <= x < Copied(size) ==> WrittenBy(lanes, |lanes|, size, x)
    ensures PrefixActive(lanes, size)
  {
    forall k: nat | k < |lanes| && k < size / 8
      ensures k in lanes
    {
      FirstByteOf(size, k);
      WaveNeeds(lanes, size, 8 * k);
    }
    if size % 8 >= 2 || size == 1 {
      var x := RestByte(size);
      WaveNeeds(lanes, size, x);
    }
  }

  lemma FirstByteOf(size: nat, k: nat)
    requires k < size / 8
    ensures 0 <= 8 * k < Copied(size) && ChunkOf(size, 8 * k) == k
  {}

  /** A byte of the last chunk, which lane 0 must store. */
  lemma RestByte(size: nat) returns (x: int)
    requires size % 8 >= 2 || size == 1
    ensures 0 <= x < Copied(size) && ChunkOf(size, x) == 0
  {
    x := if size == 1 then 0 else size - size % 8;
    WholeIsEven(size);
  }

  lemma WaveReaches(lanes: set<nat>, size: nat, x: int)
    requires lanes != {} && PrefixActive(lanes, size) && 0 <= x < Copied(size)
    ensures |lanes| >= 1 && WrittenBy(lanes, |lanes|, size, x)
  {
    var n := |lanes|;
    assert n >= 1;
    var c := ChunkOf(size, x);
    var id := c % n;
    DivBounds(c, n);
    MulMono(0, c / n, n);
    SmallDiv(0, n);
    TakesIffRemainder(id, n, c);
    ThreadCovers(id, n, size, x);
    PassesCover(id, n, size, x);
  }

  /** Only the lane equal to a chunk number below the stride can take that chunk. */
  lemma WaveNeeds(lanes: set<nat>, size: nat, x: int)
    requires lanes != {} && WrittenBy(lanes, |lanes|, size, x) && ChunkOf(size, x) < |lanes|
    ensures ChunkOf(size, x) in lanes
  {
    var n := |lanes|;
    var c := ChunkOf(size, x);
    var id :| id in lanes && Covered(ThreadStores(id, n, size), x);
    CoveredTakes(id, n, size, x);
    TakesBelowStep(id, n, c);
  }

  lemma TakesBelowStep(id: nat, step: nat, c: int)
    requires step >= 1 && Takes(id, step, c) && c < step
    ensures c == id
  {
    if c > id { NextTaken(id, step, c - step); }
  }

  /** A thread only stores bytes of chunks it takes. */
  lemma CoveredTakes(id: nat, step: nat, size: nat, x: int)
    requires step >= 1 && Covered(ThreadStores(id, step, size), x)
    ensures Takes(id, step, ChunkOf(size, x))
  {
    ThreadCovers(id, step, size, x);
    PassesCover(id, step, size, x);
    SmallDiv(0, step);
  }

  lemma {:induction false} IdsSize(n: nat)
    ensures |Ids(n)| == n
  {
    if n > 0 { IdsSize(n - 1); }
  }

  lemma OnlyIds(lanes: set<nat>, n: nat)
    requires |lanes| == n && Ids(n) <= lanes
    ensures lanes == Ids(n)
  {
    IdsSize(n);
    assert |lanes - Ids(n)| == 0;
  }

  /** With such lanes no byte is stored by two of them. */
  lemma WaveWritesOnce(lanes: set<nat>, size: nat, x: int, a: nat, b: nat)
    requires PrefixActive(lanes, size) && a in lanes && b in lanes && |lanes| >= 1
    requires Covered(ThreadStores(a, |lanes|, size), x) && Covered(ThreadStores(b, |lanes|, size), x)
    ensures a == b
  {
    var (n, c) := (|lanes|, ChunkOf(size, x));
    CoveredTakes(a, n, size, x);
    CoveredTakes(b, n, size, x);
    if c < n {
      TakesBelowStep(a, n, c);
      TakesBelowStep(b, n, c);
    } else {
      assert n < size / 8;
      OnlyIds(lanes, n);
      TakesIffRemainder(a, n, c);
      TakesIffRemainder(b, n, c);
    }
  }

  lemma WrittenIsCopied(ids: set<nat>, step: nat, size: nat, x: int)
    requires step >= 1 && WrittenBy(ids, step, size, x)
    ensures 0 <= x < Copied(size)
  {
    var id :| id in ids && Covered(ThreadStores(id, step, size), x);
    ThreadCovers(id, step, size, x);
    PassesCover(id, step, size, x);
  }

  /** memcpy_wave with such lanes leaves what memcpy_wg leaves, for every size and order of the stores. */
  lemma WaveCopyResult<T>(src: seq<T>, dst: seq<T>, sched: seq<Store>, lanes: set<nat>, size: nat)
    requires |lanes| >= 1 && |src| == |dst| && size <= |dst| && Interleaves(sched, lanes, |lanes|, size)
    requires PrefixActive(lanes, size)
    ensures Fits(sched, |dst|) && Apply(src, dst, sched) == src[..Copied(size)] + dst[Copied(size)..]
  {
    AnyOrder(src, dst, sched, lanes, |lanes|, size);
    CopiedBound(size);
    forall x: nat
      ensures WrittenBy(lanes, |lanes|, size, x) <==> x < Copied(size)
    {
      if x < Copied(size) { WaveReaches(lanes, size, x); }
      if WrittenBy(lanes, |lanes|, size, x) { WrittenIsCopied(lanes, |lanes|, size, x); }
    }
    Splice(Apply(src, dst, sched), src, dst, Copied(size));
  }
}
