/**
  Index strategies (src/containers/index_strategy.hpp): how the threads of a grid
  share the elements of a container, and the device loops of Array that use them
  (src/containers/array_impl.hpp).
*/
module IndexStrategy {
  import opened Arithmetic

  // ------------------------------------------------------------- flat thread ids

  datatype Dim3 = Dim3(x: int, y: int, z: int)

  ghost predicate InDim(i: Dim3, d: Dim3) { 0 <= i.x < d.x && 0 <= i.y < d.y && 0 <= i.z < d.z }

  /** Identity::local_thread_id with block dimensions, Identity::block_id with grid dimensions. */
  function Flat(i: Dim3, d: Dim3): int { i.x + i.y * d.x + i.z * d.x * d.y }

  function Volume(d: Dim3): int { d.x * d.y * d.z }

  /** The index a flat id comes from. */
  function Unflat(f: int, d: Dim3): Dim3
    requires d.x >= 1 && d.y >= 1
  { Dim3(f % d.x, f / d.x % d.y, f / d.x / d.y) }

  lemma FlatAsRows(i: Dim3, d: Dim3)
    ensures Flat(i, d) == (i.z * d.y + i.y) * d.x + i.x
    ensures Volume(d) == d.z * d.y * d.x
  {
    assert i.z * d.x * d.y == i.z * d.y * d.x;
    assert (i.z * d.y + i.y) * d.x == i.z * d.y * d.x + i.y * d.x;
  }

  /** Flattening is injective and stays below the volume ... */
  lemma FlatRoundTrip(i: Dim3, d: Dim3)
    requires InDim(i, d)
    ensures 0 <= Flat(i, d) < Volume(d) && Unflat(Flat(i, d), d) == i
  {
    FlatAsRows(i, d);
    var row := i.z * d.y + i.y;
    MulMono(0, i.z, d.y);
    MulMono(0, row, d.x);
    Quotient(Flat(i, d), d.x, row);
    Quotient(row, d.y, i.z);
    MulMono(i.z + 1, d.z, d.y);
    assert (i.z + 1) * d.y == i.z * d.y + d.y;
    MulMono(row + 1, d.z * d.y, d.x);
    assert (row + 1) * d.x == row * d.x + d.x;
  }

  /** ... and reaches every number below it. */
  lemma UnflatRoundTrip(f: int, d: Dim3)
    requires d.x >= 1 && d.y >= 1 && d.z >= 1 && 0 <= f < Volume(d)
    ensures InDim(Unflat(f, d), d) && Flat(Unflat(f, d), d) == f
  {
    var i := Unflat(f, d);
    var row := f / d.x;
    FlatAsRows(i, d);
    DivBounds(f, d.x);
    DivBounds(row, d.y);
    if row < 0 { MulMono(row, -1, d.x); }
    if i.z < 0 { MulMono(i.z, -1, d.y); }
    MulCancel(row, d.z * d.y, d.x);
    MulCancel(i.z, d.z, d.y);
  }

  // -------------------------------------------------------------- strided loops

  /** The loop i = start; i < end; i += step visits `i`. */
  predicate Visits(start: int, step: int, end: int, i: int)
    requires step >= 1
  { start <= i < end && (i - start) % step == 0 }

  /** Of `step` threads starting one after another, exactly the one given by the remainder visits an index. */
  lemma StridedOwner(base: int, step: int, end: int, i: int, t: int)
    requires step >= 1 && base <= i < end && 0 <= t < step
    ensures Visits(base + t, step, end, i) <==> t == (i - base) % step
  {
    var q := (i - base) / step;
    DivBounds(i - base, step);
    if t == (i - base) % step {
      if q < 0 { MulMono(q, -1, step); }
      MulMono(0, q, step);
      AddMultiple(0, q, step);
    } else if Visits(base + t, step, end, i) {
      var k := (i - base - t) / step;
      DivBounds(i - base - t, step);
      Quotient(i - base, step, k);
    }
  }

  // ----------------------------------------------------------- the strategies

  /** Where a thread stands: its flat index in the block, the block's flat index in the grid, and both sizes. */
  datatype Place = Place(local: int, block: int, blockSize: int, gridSize: int)

  ghost predicate ValidPlace(p: Place) { 0 <= p.local < p.blockSize && 0 <= p.block < p.gridSize }

  /** Identity::global_thread_id */
  function GlobalId(p: Place): int { p.local + p.block * p.blockSize }

  /** Thread_Discontiguous_Block_Discontiguous: start at the global id, advance by all threads of the grid. */
  predicate VisitsTDBD(p: Place, n: int, i: int)
    requires p.gridSize * p.blockSize >= 1
  { Visits(GlobalId(p), p.gridSize * p.blockSize, n, i) }

  /** Thread_Discontiguous_Block_Contiguous: tile of a block. */
  function TileOffset(n: nat, grid: nat, block: nat): int
    requires grid >= 1
  { block * (n / grid) + if block < n % grid then block else n % grid }

  function TileSize(n: nat, grid: nat, block: nat): int
    requires grid >= 1
  { n / grid + if block < n % grid then 1 else 0 }

  predicate VisitsTDBC(p: Place, n: nat, i: int)
    requires p.gridSize >= 1 && p.blockSize >= 1 && p.block >= 0
  {
    var offset := TileOffset(n, p.gridSize, p.block);
    Visits(offset + p.local, p.blockSize, offset + TileSize(n, p.gridSize, p.block), i)
  }

  /** Tiles follow one another without gap, the last one ends at n, and their sizes differ by at most one, larger ones first. */
  lemma TilesContiguous(n: nat, grid: nat, block: nat)
    requires block < grid
    ensures TileOffset(n, grid, 0) == 0 && TileOffset(n, grid, grid) == n
    ensures TileOffset(n, grid, block + 1) == TileOffset(n, grid, block) + TileSize(n, grid, block)
    ensures n / grid <= TileSize(n, grid, block) <= n / grid + 1
    ensures TileSize(n, grid, block + 1) <= TileSize(n, grid, block)
  {
    DivBounds(n, grid);
    assert (block + 1) * (n / grid) == block * (n / grid) + n / grid;
    assert grid * (n / grid) == n / grid * grid;
  }

  ghost predicate InTile(n: nat, grid: nat, block: nat, i: int)
    requires grid >= 1
  { TileOffset(n, grid, block) <= i < TileOffset(n, grid, block) + TileSize(n, grid, block) }

  lemma {:induction false} TileOf(n: nat, grid: nat, upto: nat, i: int) returns (block: nat)
    requires 1 <= upto <= grid && 0 <= i < TileOffset(n, grid, upto)
    ensures block < upto && InTile(n, grid, block, i)
    decreases upto
  {
    TilesContiguous(n, grid, upto - 1);
    if i >= TileOffset(n, grid, upto - 1) {
      block := upto - 1;
    } else {
      block := TileOf(n, grid, upto - 1, i);
    }
  }

  lemma {:induction false} OffsetsGrow(n: nat, grid: nat, a: nat, b: nat)
    requires a < b <= grid
    ensures TileOffset(n, grid, a) + TileSize(n, grid, a) <= TileOffset(n, grid, b)
    decreases b - a
  {
    TilesContiguous(n, grid, a);
    if a + 1 < b {
      TilesContiguous(n, grid, a + 1);
      DivBounds(n, grid);
      NonNegativeQuotient(n, grid);
      OffsetsGrow(n, grid, a + 1, b);
    }
  }

  lemma NonNegativeQuotient(n: nat, grid: nat)
    requires grid >= 1
    ensures n / grid >= 0
  {
    DivBounds(n, grid);
    if n / grid < 0 { MulMono(n / grid, -1, grid); }
  }

  /** Every index lies in exactly one tile. */
  lemma TilesPartition(n: nat, grid: nat, i: int) returns (block: nat)
    requires grid >= 1 && 0 <= i < n
    ensures block < grid && InTile(n, grid, block, i)
    ensures forall b: nat :: b < grid && InTile(n, grid, b, i) ==> b == block
  {
    TilesContiguous(n, grid, 0);
    block := TileOf(n, grid, grid, i);
    forall b: nat | b < grid && InTile(n, grid, b, i)
      ensures b == block
    {
      if b < block { OffsetsGrow(n, grid, b, block); }
      if block < b { OffsetsGrow(n, grid, block, b); }
    }
  }

  /** Under TDBC every index is visited by exactly one thread of exactly one block. */
  lemma TDBCPartition(n: nat, grid: nat, blockSize: nat, i: int) returns (owner: Place)
    requires grid >= 1 && blockSize >= 1 && 0 <= i < n
    ensures ValidPlace(owner) && owner.gridSize == grid && owner.blockSize == blockSize
    ensures InTile(n, grid, owner.block, i) && (i - TileOffset(n, grid, owner.block)) % blockSize == owner.local
    ensures forall p :: ValidPlace(p) && p.gridSize == grid && p.blockSize == blockSize ==> (VisitsTDBC(p, n, i) <==> p == owner)
  {
    var block := TilesPartition(n, grid, i);
    var (lo, hi) := (TileOffset(n, grid, block), TileOffset(n, grid, block) + TileSize(n, grid, block));
    DivBounds(i - lo, blockSize);
    owner := Place((i - lo) % blockSize, block, blockSize, grid);
    forall p | ValidPlace(p) && p.gridSize == grid && p.blockSize == blockSize
      ensures VisitsTDBC(p, n, i) <==> p == owner
    {
      if VisitsTDBC(p, n, i) { assert InTile(n, grid, p.block, i); }
      if p.block == block { StridedOwner(lo, blockSize, hi, i, p.local); }
    }
  }

  /** The global ids of a grid are the numbers below the number of its threads, each once. */
  lemma GlobalIdExact(p: Place)
    requires ValidPlace(p)
    ensures 0 <= GlobalId(p) < p.gridSize * p.blockSize
    ensures GlobalId(p) / p.blockSize == p.block && GlobalId(p) % p.blockSize == p.local
  {
    MulMono(0, p.block, p.blockSize);
    MulMono(p.block + 1, p.gridSize, p.blockSize);
    Quotient(GlobalId(p), p.blockSize, p.block);
  }

  lemma GlobalIdInjective(p: Place, q: Place)
    requires ValidPlace(p) && ValidPlace(q) && p.gridSize == q.gridSize && p.blockSize == q.blockSize
    ensures GlobalId(p) == GlobalId(q) <==> p == q
  {
    GlobalIdExact(p);
    GlobalIdExact(q);
  }

  /** Under TDBD every index is visited by exactly one thread. */
  lemma TDBDPartition(n: nat, grid: nat, blockSize: nat, i: int) returns (owner: Place)
    requires grid >= 1 && blockSize >= 1 && grid * blockSize >= 1 && 0 <= i < n
    ensures ValidPlace(owner) && owner.gridSize == grid && owner.blockSize == blockSize && GlobalId(owner) == i % (grid * blockSize)
    ensures forall p :: ValidPlace(p) && p.gridSize == grid && p.blockSize == blockSize ==> (VisitsTDBD(p, n, i) <==> p == owner)
  {
    DivBounds(i, grid * blockSize);
    owner := PlaceOf(i % (grid * blockSize), grid, blockSize);
    forall p | ValidPlace(p) && p.gridSize == grid && p.blockSize == blockSize
      ensures VisitsTDBD(p, n, i) <==> p == owner
    {
      TDBDOwner(p, owner, grid * blockSize, n, i);
    }
  }

  /** No thread visits anything else. */
  lemma NothingElse(p: Place, n: nat, i: int)
    requires ValidPlace(p) && p.gridSize * p.blockSize >= 1 && !(0 <= i < n)
    ensures !VisitsTDBD(p, n, i) && !VisitsTDBC(p, n, i)
  {
    GlobalIdExact(p);
    TilesContiguous(n, p.gridSize, p.block);
    NonNegativeQuotient(n, p.gridSize);
    DivBounds(n, p.gridSize);
    MulMono(0, p.block, n / p.gridSize);
    if p.block + 1 < p.gridSize { OffsetsGrow(n, p.gridSize, p.block, p.gridSize); }
  }

  lemma TDBDOwner(p: Place, owner: Place, threads: int, n: nat, i: int)
    requires ValidPlace(p) && ValidPlace(owner) && p.gridSize == owner.gridSize && p.blockSize == owner.blockSize
    requires threads == p.gridSize * p.blockSize && threads >= 1 && 0 <= i < n && GlobalId(owner) == i % threads
    ensures Visits(GlobalId(p), threads, n, i) <==> p == owner
  {
    GlobalIdExact(p);
    GlobalIdInjective(p, owner);
    StridedOwner(0, threads, n, i, GlobalId(p));
  }

  lemma PlaceOf(g: int, grid: nat, blockSize: nat) returns (p: Place)
    requires grid >= 1 && blockSize >= 1 && 0 <= g < grid * blockSize
    ensures ValidPlace(p) && p.gridSize == grid && p.blockSize == blockSize && GlobalId(p) == g
  {
    DivBounds(g, blockSize);
    NonNegativeQuotient(g, blockSize);
    MulCancel(g / blockSize, grid, blockSize);
    p := Place(g % blockSize, g / blockSize, blockSize, grid);
  }
}
