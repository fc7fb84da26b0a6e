/** Applying an inbound chunk payload to a client tile layer, and the
    stale-chunk test that guards it (src/client/game_update.rs:129-148,
    src/client/client_state.rs:107-120).

    Chunk `(x, y)` covers world tiles `[8x, 8x + 8) × [8y, 8y + 8)`. The
    payload is the chunk's 64 tiles row by row; it is written over the
    tile layer with `splice_wrapping`, but only if the tag cache slot of
    the chunk still names that chunk. */
module ChunkApply {
  import opened Arith
  import opened Ints
  import opened Traversal
  import opened Grids
  import opened Tiles
  import opened Chunks
  import opened Net

  /** Tiles in one chunk. */
  const CHUNK_TILES: nat := CHUNK_SIZE * CHUNK_SIZE

  /** World tile columns (or rows) of chunk coordinate `c`:
      `CHUNK_SIZE * c .. CHUNK_SIZE * (c + 1)`. */
  function ChunkRange(c: nat): (r: Range)
    ensures r.Len() == CHUNK_SIZE && r.start == CHUNK_SIZE * c
  {
    Range(CHUNK_SIZE * c, CHUNK_SIZE * (c + 1))
  }

  /** The test `&(x, y) == chunks.get_wrapping(x, y)`: the cache slot of
      chunk `(x, y)` still tags that chunk. */
  ghost predicate Current(chunks: FastArray2D<Tag>, x: u16, y: u16)
    requires chunks.Valid()
  {
    chunks.GetWrapping(x, y) == (x, y)
  }

  /** The storage cell of tile `(i, j)` of chunk `(x, y)`. */
  function ChunkCell(g: FastArray2D<Tile>, x: nat, y: nat, i: nat, j: nat): nat
  {
    StorageIndex(g.Width(), g.Height(), CHUNK_SIZE * x + i, CHUNK_SIZE * y + j)
  }

  /** Storage cell `k` of a grid is not a cell of chunk `(x, y)`. */
  ghost predicate OutsideChunk(g: FastArray2D<Tile>, x: nat, y: nat, k: nat)
  {
    forall i: nat, j: nat :: i < CHUNK_SIZE && j < CHUNK_SIZE ==> ChunkCell(g, x, y, i, j) != k
  }

  /** Grid `after` holds the payload on every tile of chunk `(x, y)`. */
  ghost predicate ChunkHolds(after: FastArray2D<Tile>, x: nat, y: nat, tiles: seq<Tile>)
    requires after.Valid() && |tiles| >= CHUNK_TILES
  {
    forall i: nat, j: nat :: i < CHUNK_SIZE && j < CHUNK_SIZE ==>
      after.GetWrapping(CHUNK_SIZE * x + i, CHUNK_SIZE * y + j) == tiles[Position(i, j, CHUNK_SIZE)]
  }

  /** Grid `after` agrees with `before` off chunk `(x, y)`. */
  ghost predicate SameOutside(before: FastArray2D<Tile>, after: FastArray2D<Tile>, x: nat, y: nat)
    requires before.Valid()
  {
    && |after.data| == |before.data|
    && forall k :: 0 <= k < |before.data| && OutsideChunk(before, x, y, k) ==> after.data[k] == before.data[k]
  }

  /** A walk over the chunk visits no cell outside it. */
  lemma OutsideUntouched(g: FastArray2D<Tile>, x: nat, y: nat, k: nat)
    requires g.Valid() && OutsideChunk(g, x, y, k)
    ensures Untouched(Traverse(g.Width(), g.Height(), ChunkRange(x), ChunkRange(y)), k)
  {
    var xr, yr := ChunkRange(x), ChunkRange(y);
    TraverseAt(g.Width(), g.Height(), xr, yr);
    var t := Traverse(g.Width(), g.Height(), xr, yr);
    forall m | 0 <= m < |t| ensures t[m].index != k {
      assert ChunkCell(g, x, y, m % CHUNK_SIZE, m / CHUNK_SIZE) != k;
    }
  }

  /** `splice_wrapping(8x..8x + 8, 8y..8y + 8, tiles)`. The payload must
      hold at least a chunk's tiles (indexing it panics otherwise). Cells
      off the chunk keep their tiles; when the grid is at least a chunk
      wide and high, every tile of the chunk takes its payload tile. */
  function SpliceChunk(g: FastArray2D<Tile>, x: nat, y: nat, tiles: seq<Tile>): (r: FastArray2D<Tile>)
    requires g.Valid() && |tiles| >= CHUNK_TILES
    ensures r.Valid() && r.wExp == g.wExp && r.xMask == g.xMask && r.yMask == g.yMask
    ensures SameOutside(g, r, x, y)
    ensures g.Width() >= CHUNK_SIZE && g.Height() >= CHUNK_SIZE ==> ChunkHolds(r, x, y, tiles)
  {
    var r := g.SpliceWrapping(ChunkRange(x), ChunkRange(y), tiles);
    SpliceOutside(g, x, y, tiles);
    SpliceHolds(g, x, y, tiles);
    r
  }

  lemma SpliceOutside(g: FastArray2D<Tile>, x: nat, y: nat, tiles: seq<Tile>)
    requires g.Valid() && |tiles| >= CHUNK_TILES
    ensures SameOutside(g, g.SpliceWrapping(ChunkRange(x), ChunkRange(y), tiles), x, y)
  {
    var r := g.SpliceWrapping(ChunkRange(x), ChunkRange(y), tiles);
    forall k | 0 <= k < |g.data| && OutsideChunk(g, x, y, k) ensures r.data[k] == g.data[k] {
      OutsideUntouched(g, x, y, k);
    }
  }

  lemma SpliceHolds(g: FastArray2D<Tile>, x: nat, y: nat, tiles: seq<Tile>)
    requires g.Valid() && |tiles| >= CHUNK_TILES
    ensures g.Width() >= CHUNK_SIZE && g.Height() >= CHUNK_SIZE ==>
      ChunkHolds(g.SpliceWrapping(ChunkRange(x), ChunkRange(y), tiles), x, y, tiles)
  {
    if g.Width() < CHUNK_SIZE || g.Height() < CHUNK_SIZE { return; }
    var xr, yr := ChunkRange(x), ChunkRange(y);
    var w, h := g.Width(), g.Height();
    var r := g.SpliceWrapping(xr, yr, tiles);
    TraverseDistinct(w, h, xr, yr);
    var t := Traverse(w, h, xr, yr);
    assert DistinctIndices(t);
    assert Written(r, t, tiles) && r.Width() == w && r.Height() == h;
    forall i: nat, j: nat | i < CHUNK_SIZE && j < CHUNK_SIZE
      ensures r.GetWrapping(CHUNK_SIZE * x + i, CHUNK_SIZE * y + j) == tiles[Position(i, j, CHUNK_SIZE)]
    {
      SpliceTile(r, w, h, t, tiles, x, y, i, j);
    }
  }

  /** Every cell of walk `t` holds the source element of its step. */
  ghost predicate Written(r: FastArray2D<Tile>, t: seq<Visit>, src: seq<Tile>)
  {
    forall m :: 0 <= m < |t| ==> m < |src| && t[m].index < |r.data| && r.data[t[m].index] == src[m]
  }

  /** Tile `(i, j)` of chunk `(x, y)` reads back as payload tile `8j + i`
      once the walk over the chunk has written the payload. */
  lemma SpliceTile(r: FastArray2D<Tile>, w: nat, h: nat, t: seq<Visit>, tiles: seq<Tile>, x: nat, y: nat, i: nat, j: nat)
    requires r.Valid() && r.Width() == w && r.Height() == h && i < CHUNK_SIZE && j < CHUNK_SIZE
    requires t == Traverse(w, h, ChunkRange(x), ChunkRange(y)) && Written(r, t, tiles)
    ensures Position(i, j, CHUNK_SIZE) < |tiles|
    ensures r.GetWrapping(CHUNK_SIZE * x + i, CHUNK_SIZE * y + j) == tiles[Position(i, j, CHUNK_SIZE)]
  {
    var xr, yr := ChunkRange(x), ChunkRange(y);
    var wx, wy, k := CHUNK_SIZE * x + i, CHUNK_SIZE * y + j, Position(i, j, CHUNK_SIZE);
    assert xr.start + i == wx && yr.start + j == wy && xr.Len() == CHUNK_SIZE;
    TraverseCell(w, h, xr, yr, i, j, k);
    ReadWritten(r, t[k], tiles[k], wx, wy);
  }

  /** A cell the walk wrote `v` to reads back as `v`. */
  lemma ReadWritten(r: FastArray2D<Tile>, v: Visit, tile: Tile, wx: nat, wy: nat)
    requires r.Valid() && v.index == StorageIndex(r.Width(), r.Height(), wx, wy)
    requires v.index < |r.data| && r.data[v.index] == tile
    ensures r.GetWrapping(wx, wy) == tile
  {
  }

  /** Reading the chunk back after splicing it returns the payload: the
      splice is the inverse of `clone_sub_wrapping` on the chunk. */
  lemma SpliceChunkReadBack(g: FastArray2D<Tile>, x: nat, y: nat, tiles: seq<Tile>)
    requires g.Valid() && |tiles| >= CHUNK_TILES
    requires g.Width() >= CHUNK_SIZE && g.Height() >= CHUNK_SIZE
    ensures SpliceChunk(g, x, y, tiles).CloneSubWrapping(ChunkRange(x), ChunkRange(y)).data == tiles[..CHUNK_TILES]
  {
    FastCloneAfterSplice(g, ChunkRange(x), ChunkRange(y), tiles);
  }

  /** `request_chunks_from_server` followed by the stale check of a reply
      for chunk `(x, y)` of the refreshed span. When the span fits the
      cache, the reply passes the check; a reply for any other chunk whose
      world position wraps onto the same slot is refused, because the
      refresh retagged that slot. */
  method RefreshedIsCurrent(view: (nat, nat), size: (nat, nat), chunks: FastArray2D<Tag>, outbound: seq<NetEvent>, x: u16, y: u16)
    returns (r: FastArray2D<Tag>, out: seq<NetEvent>)
    requires chunks.Valid()
    requires view.0 + size.0 + CHUNK_LOAD_BUFFER_SIZE_PX + CHUNK_SIZE_PX - 1 < USIZE_LIMIT
    requires view.1 + size.1 + CHUNK_LOAD_BUFFER_SIZE_PX + CHUNK_SIZE_PX - 1 < USIZE_LIMIT
    requires ChunkSpan(view.0, size.0).Len() <= chunks.Width() && ChunkSpan(view.1, size.1).Len() <= chunks.Height()
    requires ChunkSpan(view.0, size.0).Contains(x) && ChunkSpan(view.1, size.1).Contains(y)
    ensures r.Valid() && r.Width() == chunks.Width() && r.Height() == chunks.Height()
    ensures var visits := Traverse(chunks.Width(), chunks.Height(), ChunkSpan(view.0, size.0), ChunkSpan(view.1, size.1));
      IndicesBelow(visits, |chunks.data|) && r.data == Retag(chunks.data, visits) && out == outbound + Sent(chunks.data, visits)
    ensures Current(r, x, y)
    ensures forall x': u16, y': u16 :: x' % r.Width() == x % r.Width() && y' % r.Height() == y % r.Height() && (x', y') != (x, y) ==>
      !Current(r, x', y')
  {
    r, out := RequestChunksFromServer(view, size, chunks, outbound);
    assert r.GetWrapping(x, y) == TagOf(x, y);
    TagOfU16(x, y);
    SlotHoldsOnlyItsTag(r, x, y);
  }

  /** The tag of a chunk whose coordinates fit in `u16` is the chunk. */
  lemma TagOfU16(x: u16, y: u16)
    ensures TagOf(x, y) == (x, y)
  {
  }

  /** A slot tagged `(x, y)` refuses every other chunk that wraps onto it. */
  lemma SlotHoldsOnlyItsTag(r: FastArray2D<Tag>, x: u16, y: u16)
    requires r.Valid() && Current(r, x, y)
    ensures forall x': u16, y': u16 :: x' % r.Width() == x % r.Width() && y' % r.Height() == y % r.Height() && (x', y') != (x, y) ==>
      !Current(r, x', y')
  {
    forall x': u16, y': u16 | x' % r.Width() == x % r.Width() && y' % r.Height() == y % r.Height() && (x', y') != (x, y)
      ensures !Current(r, x', y')
    {
      assert StorageIndex(r.Width(), r.Height(), x', y') == StorageIndex(r.Width(), r.Height(), x, y);
    }
  }
}
