/** The client's chunk-tag cache (src/client/functions/request_chunks_from_server.rs).

    A power-of-two grid of `(u16, u16)` tags records, for every cache slot,
    which world chunk the slot's tiles currently belong to. Refreshing the
    cache walks the chunk rectangle around the view over the wrap-around
    grid; a slot whose tag differs from the chunk now mapped onto it is
    retagged and a `RequestChunk` for that chunk is sent. */
module Chunks {
  import opened Arith
  import opened Ints
  import opened Common
  import opened Traversal
  import opened Grids
  import opened Tiles
  import opened Net

  /** The world chunk a slot holds, both coordinates truncated to `u16`. */
  type Tag = (u16, u16)

  /** The slot tag the client starts with, `(u16::MAX, u16::MAX)`
      (src/client/game_update.rs:65). */
  const UNLOADED: Tag := (0xFFFF, 0xFFFF)

  /** Load margin in pixels. It multiplies by `CHUNK_SIZE`, not by
      `TILE_SIZE` (request_chunks_from_server.rs:12). */
  const CHUNK_LOAD_BUFFER_SIZE_PX: nat := CHUNK_LOAD_BUFFER_SIZE * CHUNK_SIZE

  /** Side of a chunk in pixels (request_chunks_from_server.rs:13). */
  const CHUNK_SIZE_PX: nat := TILE_SIZE * CHUNK_SIZE

  /** `(x as u16, y as u16)` (request_chunks_from_server.rs:19). */
  function TagOf(wx: nat, wy: nat): Tag
  {
    (AsU16(wx), AsU16(wy))
  }

  function Request(t: Tag): NetEvent
  {
    RequestChunk(t.0, t.1)
  }

  /** The chunks to hold along one axis, for a view at pixel `pos` of extent
      `len`: from the floor of the margin-widened start to the ceiling of the
      margin-widened end (request_chunks_from_server.rs:14-17). */
  function ChunkSpan(pos: nat, len: nat): (r: Range)
    requires pos + len + CHUNK_LOAD_BUFFER_SIZE_PX + CHUNK_SIZE_PX - 1 < USIZE_LIMIT
    ensures r.start * CHUNK_SIZE_PX <= SatSub(pos, CHUNK_LOAD_BUFFER_SIZE_PX) < (r.start + 1) * CHUNK_SIZE_PX
    ensures (r.end - 1) * CHUNK_SIZE_PX < pos + len + CHUNK_LOAD_BUFFER_SIZE_PX <= r.end * CHUNK_SIZE_PX
    ensures r.start < r.end
  {
    Range(IFDiv(SatSub(pos, CHUNK_LOAD_BUFFER_SIZE_PX), CHUNK_SIZE_PX),
          ICDiv(pos + len + CHUNK_LOAD_BUFFER_SIZE_PX, CHUNK_SIZE_PX))
  }

  /** Every pixel of the margin-widened view lies in a chunk of the span. */
  lemma ChunkSpanCovers(pos: nat, len: nat, p: nat)
    requires pos + len + CHUNK_LOAD_BUFFER_SIZE_PX + CHUNK_SIZE_PX - 1 < USIZE_LIMIT
    requires SatSub(pos, CHUNK_LOAD_BUFFER_SIZE_PX) <= p < pos + len + CHUNK_LOAD_BUFFER_SIZE_PX
    ensures ChunkSpan(pos, len).Contains(p / CHUNK_SIZE_PX)
  {
    var r := ChunkSpan(pos, len);
    var c := p / CHUNK_SIZE_PX;
    assert c * CHUNK_SIZE_PX <= p < (c + 1) * CHUNK_SIZE_PX;
  }

  /** Call `m` is the last call of the walk on its slot. */
  predicate LastVisit(visits: seq<Visit>, m: nat)
    requires m < |visits|
  {
    forall m' :: m < m' < |visits| ==> visits[m'].index != visits[m].index
  }

  /** Reference for what a refresh sends: one request per call whose slot,
      in the cache as it was before the walk, holds a different tag. */
  function Changed(tags: seq<Tag>, visits: seq<Visit>): (r: seq<NetEvent>)
    requires IndicesBelow(visits, |tags|)
    ensures |r| <= |visits|
    decreases |visits|
  {
    if |visits| == 0 then []
    else
      var v := visits[|visits| - 1];
      var t := TagOf(v.wx, v.wy);
      Changed(tags, visits[..|visits| - 1]) + (if tags[v.index] != t then [Request(t)] else [])
  }

  /** A request is sent for tag `t` exactly when some call maps a chunk with
      tag `t` onto a slot that held another tag. */
  lemma {:induction false} ChangedIff(tags: seq<Tag>, visits: seq<Visit>, t: Tag)
    requires IndicesBelow(visits, |tags|)
    ensures Request(t) in Changed(tags, visits) <==>
      exists m :: 0 <= m < |visits| && TagOf(visits[m].wx, visits[m].wy) == t && tags[visits[m].index] != t
    decreases |visits|
  {
    if |visits| > 0 {
      var init := visits[..|visits| - 1];
      ChangedIff(tags, init, t);
      assert forall m :: 0 <= m < |init| ==> init[m] == visits[m];
      var v := visits[|visits| - 1];
      if exists m :: 0 <= m < |visits| && TagOf(visits[m].wx, visits[m].wy) == t && tags[visits[m].index] != t {
        var m :| 0 <= m < |visits| && TagOf(visits[m].wx, visits[m].wy) == t && tags[visits[m].index] != t;
        if m < |init| {
          assert TagOf(init[m].wx, init[m].wy) == t && tags[init[m].index] != t;
        }
      }
    }
  }

  /** A cache that already holds every chunk of the walk sends nothing. */
  lemma {:induction false} ChangedNoneWhenCurrent(tags: seq<Tag>, visits: seq<Visit>)
    requires IndicesBelow(visits, |tags|)
    requires forall m :: 0 <= m < |visits| ==> tags[visits[m].index] == TagOf(visits[m].wx, visits[m].wy)
    ensures Changed(tags, visits) == []
    decreases |visits|
  {
    if |visits| > 0 {
      var init := visits[..|visits| - 1];
      assert forall m :: 0 <= m < |init| ==> init[m] == visits[m];
      ChangedNoneWhenCurrent(tags, init);
    }
  }

  /** Different calls carry different tags. */
  predicate TagsDistinct(visits: seq<Visit>)
  {
    forall a, b :: 0 <= a < b < |visits| ==>
      TagOf(visits[a].wx, visits[a].wy) != TagOf(visits[b].wx, visits[b].wy)
  }

  /** Every request sent names the tag of some call. */
  lemma {:induction false} ChangedFromVisits(tags: seq<Tag>, visits: seq<Visit>, e: NetEvent)
    requires IndicesBelow(visits, |tags|) && e in Changed(tags, visits)
    ensures exists m :: 0 <= m < |visits| && e == Request(TagOf(visits[m].wx, visits[m].wy))
    decreases |visits|
  {
    var init := visits[..|visits| - 1];
    var v := visits[|visits| - 1];
    if e in Changed(tags, init) {
      ChangedFromVisits(tags, init, e);
      var m :| 0 <= m < |init| && e == Request(TagOf(init[m].wx, init[m].wy));
      assert init[m] == visits[m];
    } else {
      assert e == Request(TagOf(v.wx, v.wy));
    }
  }

  /** No event occurs twice. */
  predicate NoRepeats(events: seq<NetEvent>)
  {
    forall a, b :: 0 <= a < b < |events| ==> events[a] != events[b]
  }

  /** When calls carry different tags, no request is sent twice. */
  lemma {:induction false} ChangedNoRepeats(tags: seq<Tag>, visits: seq<Visit>)
    requires IndicesBelow(visits, |tags|) && TagsDistinct(visits)
    ensures NoRepeats(Changed(tags, visits))
    decreases |visits|
  {
    if |visits| > 0 {
      var init := visits[..|visits| - 1];
      var v := visits[|visits| - 1];
      assert forall m :: 0 <= m < |init| ==> init[m] == visits[m];
      ChangedNoRepeats(tags, init);
      var front := Changed(tags, init);
      var r := Changed(tags, visits);
      if tags[v.index] != TagOf(v.wx, v.wy) {
        var last := Request(TagOf(v.wx, v.wy));
        assert r == front + [last];
        if last in front {
          ChangedFromVisits(tags, init, last);
          assert false;
        }
        assert last !in front;
        forall a, b | 0 <= a < b < |r|
          ensures r[a] != r[b]
        {
          assert r[a] == front[a] && r[a] in front;
          if b < |front| {
            assert r[b] == front[b];
            assert front[a] != front[b];
          } else {
            assert r[b] == last;
          }
        }
      } else {
        assert r == front;
      }
    }
  }

  /** A rectangle at most 65536 chunks wide and high has no two chunks with
      the same truncated tag. */
  lemma TraverseTagsDistinct(w: nat, h: nat, xr: Range, yr: Range, n: nat, m: nat)
    requires w > 0 && h > 0 && n == xr.Len() <= 0x1_0000 && m == yr.Len() <= 0x1_0000
    ensures TagsDistinct(Traverse(w, h, xr, yr))
  {
    TraverseRowMajor(w, h, xr, yr);
    TraverseInside(w, h, xr, yr, n, m);
    var t := Traverse(w, h, xr, yr);
    forall a, b | 0 <= a < b < |t|
      ensures TagOf(t[a].wx, t[a].wy) != TagOf(t[b].wx, t[b].wy)
    {
      TagsOfDistinctCells(xr.start, yr.start, t[a].wx, t[a].wy, t[b].wx, t[b].wy);
    }
  }

  /** Two different cells of a window at most 65536 on a side keep
      different tags after truncation. */
  lemma TagsOfDistinctCells(x0: nat, y0: nat, xa: nat, ya: nat, xb: nat, yb: nat)
    requires x0 <= xa < x0 + 0x1_0000 && x0 <= xb < x0 + 0x1_0000
    requires y0 <= ya < y0 + 0x1_0000 && y0 <= yb < y0 + 0x1_0000
    requires xa != xb || ya != yb
    ensures TagOf(xa, ya) != TagOf(xb, yb)
  {
    if TagOf(xa, ya) == TagOf(xb, yb) {
      if xa <= xb { WindowResidue(xa, xb, 0x1_0000); } else { WindowResidue(xb, xa, 0x1_0000); }
      if ya <= yb { WindowResidue(ya, yb, 0x1_0000); } else { WindowResidue(yb, ya, 0x1_0000); }
    }
  }

  /** The cache after the walk's retagging: call by call, each visited slot
      takes the tag of the chunk mapped onto it. */
  function Retag(tags: seq<Tag>, visits: seq<Visit>): (r: seq<Tag>)
    requires IndicesBelow(visits, |tags|)
    ensures |r| == |tags|
    decreases |visits|
  {
    if |visits| == 0 then tags
    else
      var v := visits[|visits| - 1];
      Retag(tags, visits[..|visits| - 1])[v.index := TagOf(v.wx, v.wy)]
  }

  /** The requests the walk sends, each decided against the cache as the
      earlier calls left it (request_chunks_from_server.rs:20-23). */
  function Sent(tags: seq<Tag>, visits: seq<Visit>): (r: seq<NetEvent>)
    requires IndicesBelow(visits, |tags|)
    ensures |r| <= |visits|
    decreases |visits|
  {
    if |visits| == 0 then []
    else
      var v := visits[|visits| - 1];
      var t := TagOf(v.wx, v.wy);
      Sent(tags, visits[..|visits| - 1])
        + (if Retag(tags, visits[..|visits| - 1])[v.index] != t then [Request(t)] else [])
  }

  /** A slot the walk never visits keeps its tag. */
  lemma {:induction false} RetagOutside(tags: seq<Tag>, visits: seq<Visit>, k: nat)
    requires IndicesBelow(visits, |tags|) && k < |tags| && Untouched(visits, k)
    ensures Retag(tags, visits)[k] == tags[k]
    decreases |visits|
  {
    if |visits| > 0 {
      var init := visits[..|visits| - 1];
      assert forall m :: 0 <= m < |init| ==> init[m] == visits[m];
      RetagOutside(tags, init, k);
    }
  }

  /** The last call on a slot decides its tag. */
  lemma {:induction false} RetagLast(tags: seq<Tag>, visits: seq<Visit>, m: nat)
    requires IndicesBelow(visits, |tags|) && m < |visits| && LastVisit(visits, m)
    ensures Retag(tags, visits)[visits[m].index] == TagOf(visits[m].wx, visits[m].wy)
    decreases |visits|
  {
    var init := visits[..|visits| - 1];
    assert forall j :: 0 <= j < |init| ==> init[j] == visits[j];
    if m < |init| {
      assert LastVisit(init, m);
      RetagLast(tags, init, m);
    }
  }

  /** When no slot is visited twice, each decision is taken against the
      untouched cache, so the walk sends exactly the reference requests. */
  lemma {:induction false} SentIsChanged(tags: seq<Tag>, visits: seq<Visit>)
    requires IndicesBelow(visits, |tags|) && DistinctIndices(visits)
    ensures Sent(tags, visits) == Changed(tags, visits)
    decreases |visits|
  {
    if |visits| > 0 {
      var init := visits[..|visits| - 1];
      var v := visits[|visits| - 1];
      assert forall j :: 0 <= j < |init| ==> init[j] == visits[j];
      SentIsChanged(tags, init);
      RetagOutside(tags, init, v.index);
    }
  }

  /** The callback of `for_each_sub_wrapping_mut` over the chunk rectangle
      (request_chunks_from_server.rs:18-24): retag every visited slot that
      holds another chunk's tag and append a request for the new chunk. */
  method RefreshTags(chunks: FastArray2D<Tag>, xr: Range, yr: Range, outbound: seq<NetEvent>)
    returns (r: FastArray2D<Tag>, out: seq<NetEvent>)
    requires chunks.Valid()
    ensures r.Valid() && r.wExp == chunks.wExp && r.xMask == chunks.xMask && r.yMask == chunks.yMask
    ensures IndicesBelow(Traverse(chunks.Width(), chunks.Height(), xr, yr), |chunks.data|)
    ensures r.data == Retag(chunks.data, Traverse(chunks.Width(), chunks.Height(), xr, yr))
    ensures out == outbound + Sent(chunks.data, Traverse(chunks.Width(), chunks.Height(), xr, yr))
  {
    var w, h := chunks.Width(), chunks.Height();
    TraverseAt(w, h, xr, yr);
    var tags;
    tags, out := RetagWalk(chunks.data, Traverse(w, h, xr, yr), outbound);
    r := FastArray2D(chunks.wExp, chunks.xMask, chunks.yMask, tags);
  }

  /** The loop of the walk on the bare cache store. */
  method RetagWalk(data: seq<Tag>, visits: seq<Visit>, outbound: seq<NetEvent>) returns (tags: seq<Tag>, out: seq<NetEvent>)
    requires IndicesBelow(visits, |data|)
    ensures tags == Retag(data, visits)
    ensures out == outbound + Sent(data, visits)
  {
    tags, out := data, outbound;
    var i := 0;
    while i < |visits|
      invariant 0 <= i <= |visits|
      invariant IndicesBelow(visits[..i], |data|)
      invariant tags == Retag(data, visits[..i])
      invariant out == outbound + Sent(data, visits[..i])
    {
      var v := visits[i];
      var t := TagOf(v.wx, v.wy);
      var pre := visits[..i + 1];
      assert pre[..i] == visits[..i] && pre[i] == v;
      assert IndicesBelow(pre, |data|);
      if t != tags[v.index] {
        tags := tags[v.index := t];
        out := out + [Request(t)];
      }
      i := i + 1;
    }
    assert visits[..i] == visits;
  }

  /** Slots the walk visits exactly once hold their chunk's tag, cell by
      cell of the rectangle. */
  lemma TaggedCells(w: nat, h: nat, xr: Range, yr: Range, data: seq<Tag>)
    requires w > 0 && h > 0 && xr.Len() <= w && yr.Len() <= h
    requires var visits := Traverse(w, h, xr, yr);
      forall m :: 0 <= m < |visits| ==> visits[m].index < |data| && data[visits[m].index] == TagOf(visits[m].wx, visits[m].wy)
    ensures forall cx, cy :: xr.Contains(cx) && yr.Contains(cy) ==>
      StorageIndex(w, h, cx, cy) < |data| && data[StorageIndex(w, h, cx, cy)] == TagOf(cx, cy)
  {
    forall cx, cy | xr.Contains(cx) && yr.Contains(cy)
      ensures StorageIndex(w, h, cx, cy) < |data| && data[StorageIndex(w, h, cx, cy)] == TagOf(cx, cy)
    {
      TraverseCovers(w, h, xr, yr, cx, cy);
    }
  }

  /** What the walk does to the cache store: unvisited slots keep their
      tags; when no slot is visited twice, every visited slot holds its
      chunk's tag and the requests are the reference ones. */
  lemma RetagSummary(tags: seq<Tag>, visits: seq<Visit>)
    requires IndicesBelow(visits, |tags|)
    ensures forall k :: 0 <= k < |tags| && Untouched(visits, k) ==> Retag(tags, visits)[k] == tags[k]
    ensures DistinctIndices(visits) ==>
      && (forall m :: 0 <= m < |visits| ==> Retag(tags, visits)[visits[m].index] == TagOf(visits[m].wx, visits[m].wy))
      && Sent(tags, visits) == Changed(tags, visits)
  {
    forall k | 0 <= k < |tags| && Untouched(visits, k)
      ensures Retag(tags, visits)[k] == tags[k]
    {
      RetagOutside(tags, visits, k);
    }
    if DistinctIndices(visits) {
      forall m | 0 <= m < |visits|
        ensures Retag(tags, visits)[visits[m].index] == TagOf(visits[m].wx, visits[m].wy)
      {
        RetagLast(tags, visits, m);
      }
      SentIsChanged(tags, visits);
    }
  }

  /** A walk over slots that already hold their chunks' tags changes no
      slot and sends nothing. */
  lemma {:induction false} RetagCurrent(tags: seq<Tag>, visits: seq<Visit>)
    requires IndicesBelow(visits, |tags|)
    requires forall m :: 0 <= m < |visits| ==> tags[visits[m].index] == TagOf(visits[m].wx, visits[m].wy)
    ensures Retag(tags, visits) == tags
    ensures Sent(tags, visits) == []
    decreases |visits|
  {
    if |visits| > 0 {
      var init := visits[..|visits| - 1];
      assert forall j :: 0 <= j < |init| ==> init[j] == visits[j];
      RetagCurrent(tags, init);
    }
  }

  /** `request_chunks_from_server(view_pos, view_size, chunks, outbound)`
      (request_chunks_from_server.rs:6-25). Requests are only appended.
      When the chunk rectangle is no larger than the cache, every chunk of
      it ends up tagged in its slot, and a request is sent for exactly the
      slots whose tag changed, in row-major chunk order. */
  method RequestChunksFromServer(view: (nat, nat), size: (nat, nat), chunks: FastArray2D<Tag>, outbound: seq<NetEvent>)
    returns (r: FastArray2D<Tag>, out: seq<NetEvent>)
    requires chunks.Valid()
    requires view.0 + size.0 + CHUNK_LOAD_BUFFER_SIZE_PX + CHUNK_SIZE_PX - 1 < USIZE_LIMIT
    requires view.1 + size.1 + CHUNK_LOAD_BUFFER_SIZE_PX + CHUNK_SIZE_PX - 1 < USIZE_LIMIT
    ensures r.Valid() && r.wExp == chunks.wExp && r.xMask == chunks.xMask && r.yMask == chunks.yMask
    ensures |out| >= |outbound| && out[..|outbound|] == outbound
    ensures var visits := Traverse(chunks.Width(), chunks.Height(), ChunkSpan(view.0, size.0), ChunkSpan(view.1, size.1));
      && IndicesBelow(visits, |chunks.data|)
      && r.data == Retag(chunks.data, visits)
      && out == outbound + Sent(chunks.data, visits)
      && (forall k :: 0 <= k < |chunks.data| && Untouched(visits, k) ==> r.data[k] == chunks.data[k])
      && (DistinctIndices(visits) ==>
            && (forall m :: 0 <= m < |visits| ==> r.data[visits[m].index] == TagOf(visits[m].wx, visits[m].wy))
            && out[|outbound|..] == Changed(chunks.data, visits))
    ensures var xr, yr := ChunkSpan(view.0, size.0), ChunkSpan(view.1, size.1);
      xr.Len() <= chunks.Width() && yr.Len() <= chunks.Height() ==>
        forall cx, cy :: xr.Contains(cx) && yr.Contains(cy) ==> r.GetWrapping(cx, cy) == TagOf(cx, cy)
  {
    var xr, yr := ChunkSpan(view.0, size.0), ChunkSpan(view.1, size.1);
    r, out := RefreshTags(chunks, xr, yr, outbound);
    var w, h := chunks.Width(), chunks.Height();
    var visits := Traverse(w, h, xr, yr);
    RetagSummary(chunks.data, visits);
    assert out[|outbound|..] == Sent(chunks.data, visits);
    if xr.Len() <= w && yr.Len() <= h {
      TraverseDistinct(w, h, xr, yr);
      TaggedCells(w, h, xr, yr, r.data);
    }
  }

  /** Refreshing twice with the same view, the rectangle no larger than the
      cache: the second refresh sends nothing and changes no slot. */
  method RequestChunksTwice(view: (nat, nat), size: (nat, nat), chunks: FastArray2D<Tag>)
    returns (r1: FastArray2D<Tag>, out1: seq<NetEvent>, r2: FastArray2D<Tag>, out2: seq<NetEvent>)
    requires chunks.Valid()
    requires view.0 + size.0 + CHUNK_LOAD_BUFFER_SIZE_PX + CHUNK_SIZE_PX - 1 < USIZE_LIMIT
    requires view.1 + size.1 + CHUNK_LOAD_BUFFER_SIZE_PX + CHUNK_SIZE_PX - 1 < USIZE_LIMIT
    requires ChunkSpan(view.0, size.0).Len() <= chunks.Width()
    requires ChunkSpan(view.1, size.1).Len() <= chunks.Height()
    ensures out2 == out1
    ensures r2.data == r1.data
  {
    var xr, yr := ChunkSpan(view.0, size.0), ChunkSpan(view.1, size.1);
    var w, h := chunks.Width(), chunks.Height();
    TraverseDistinct(w, h, xr, yr);
    r1, out1 := RequestChunksFromServer(view, size, chunks, []);
    assert r1.Width() == w && r1.Height() == h;
    r2, out2 := RequestChunksFromServer(view, size, r1, out1);
    RetagCurrent(r1.data, Traverse(w, h, xr, yr));
  }

  /** With a rectangle no larger than the cache and at most 65536 chunks on
      a side, no chunk is requested twice in one refresh, and a request is
      sent for a chunk exactly when its slot held another tag. */
  lemma RequestsOncePerChunk(chunks: FastArray2D<Tag>, xr: Range, yr: Range, t: Tag)
    requires chunks.Valid() && xr.Len() <= 0x1_0000 && yr.Len() <= 0x1_0000
    ensures var visits := Traverse(chunks.Width(), chunks.Height(), xr, yr);
      && IndicesBelow(visits, |chunks.data|)
      && (var sent := Changed(chunks.data, visits);
          && NoRepeats(sent)
          && (Request(t) in sent <==>
                exists m :: 0 <= m < |visits| && TagOf(visits[m].wx, visits[m].wy) == t && chunks.data[visits[m].index] != t))
  {
    var w, h := chunks.Width(), chunks.Height();
    TraverseAt(w, h, xr, yr);
    var visits := Traverse(w, h, xr, yr);
    TraverseTagsDistinct(w, h, xr, yr, xr.Len(), yr.Len());
    ChangedNoRepeats(chunks.data, visits);
    ChangedIff(chunks.data, visits, t);
  }
}
