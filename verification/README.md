# Duplicarria's wrap-around working set, modelled in Dafny

Duplicarria is a tile-world game with a client and a server. The world is
effectively unbounded, but the client keeps only a fixed, power-of-two
sized window of it. That window is stored as grids whose coordinates wrap
around, like a torus: world tile `(x, y)` lives in storage cell
`(x mod w) + (y mod h) * w`.

This project models that core as pure Dafny functions and a few methods,
and proves what each part promises:

- **Grids and the traversal** (`traversal.dfy`, `array2d.dfy`).
  `for_each_sub_wrapping` walks a world rectangle over a `w` by `h` torus.
  It splits each axis into a head run, full wrap runs and a tail run. The
  plain `Array2D` and the power-of-two `FastArray2D` are built on it, with
  their get, wrapped get, bounds-checked and wrapped clones, and splices.
- **Chunk-tag cache** (`chunks.dfy`). A grid of `(u16, u16)` tags records
  which world chunk each cache slot holds. A refresh sends a
  `RequestChunk` exactly for the slots whose tag changes.
- **Stale-chunk rejection** (`chunk_apply.dfy`, `client_game.dfy`,
  `client_state.dfy`). Both client revisions splice an inbound chunk into
  a tile layer only while its cache slot still names that chunk. The same
  files model the per-frame input bit queues and click edge detection
  (`input.dfy`).
- **Light field** (`lighting.dfy`, `propagate.dfy`, `client_lighting.dfy`).
  Seeding classifies every interior cell of the light window into a fade
  value and marks open-sky cells as light sources. Propagation is a FIFO
  breadth-first relaxation over `u8` brightness. Its loop is a method
  with a termination measure, and it ends at a fixed point of the
  relaxation.
- **Server dispatcher** (`server.dfy`). Per-peer outbound queues are
  filled by Connect, Disconnect, Close and RequestChunk, and drained at
  the end of the frame.
- **Shared pieces**: integer floor and ceiling division (`common.dfy`),
  `usize`/`u8`/`u16` helpers and bit masks (`ints.dfy`), tiles and the
  two lighting configurations (`tiles.dfy`), and the network events
  (`net.dfy`).

Integers are unbounded in Dafny, so the `usize` limits the source relies
on appear as explicit preconditions (`USIZE_LIMIT`). The `u8` and `u16`
values are subset types, and the `as u16` truncation of chunk tags is
written out.

The two lighting revisions differ only in three constants, so the model
takes a `LightConfig` parameter:

| revision | source | max brightness | min fade | MAX_LIGHT_DISTANCE |
|---|---|---|---|---|
| game | `src/game/lighting.rs` | 16 | 1 | 16 |
| shared | `src/shared/mod.rs` | 255 | 8 | 31 |

The three copies of `propogate_light_map_unbounded` have identical code.
They are modelled once, as `Propagation.Propagate`. The loop inside
`create_light_map` is modelled by the same method.

The shared `NetEvent` (`src/shared/net_event.rs`) has `UpdateChunk` but
no `Close`, yet the server's `GameUpdate::preframe` handles `Close`
(`src/server/game_update.rs:70`). The older `NetEvent`
(`src/game/net/net_event.rs`) has `Close` and separate foreground and
background chunk updates. `Net.NetEvent` is the union of both, so every
handler can be modelled as written.

## Model

| member | source | states |
|---|---|---|
| Common.IFDiv | src/common.rs:2-4 | the result is the floor of n/d: r·d ≤ n < (r+1)·d |
| Common.ICDiv | src/common.rs:7-9 | the result is the ceiling of n/d: r·d ≥ n, and (r−1)·d < n unless r = 0; it requires d > 0 and that n+d−1 fits in usize |
| Common.ICDivExact | src/common.rs:7-9 | the ceiling of k·d divided by d is exactly k |
| Common.CeilFloorGap | src/common.rs:2-9 | icdiv − ifdiv is 0 or 1, and it is 0 exactly when d divides n |
| Ints.LowMaskIsMod | src/array2d.rs:388-390 | masking with 2^k−1 is reduction modulo 2^k, for every x and k |
| Tiles.LightConstants | src/game/lighting.rs:6-12 | the derived constants: the game revision has OPAQUE_FADE 3, MAX_FADE 16, TRANSPARENT_FADE 1 and MAX_LIGHT_DISTANCE 16; the shared revision (src/shared/mod.rs:8-13) has OPAQUE_FADE 24 and MAX_LIGHT_DISTANCE 31; CHUNK_LOAD_BUFFER_SIZE equals the game's light distance; 2^CHUNK_SIZE_LOG2 = CHUNK_SIZE |
| Traversal.TraverseAt | src/array2d.rs:19-68 | an empty range makes no calls; otherwise there are len(xr)·len(yr) calls, and call k visits world cell (xr.start + k mod n, yr.start + k div n) with storage index (wx mod w) + (wy mod h)·w < w·h |
| Traversal.TraverseLength | src/array2d.rs:19-68 | the walk makes exactly one call per cell of the rectangle |
| Traversal.TraverseCell | src/array2d.rs:36-60 | column i of row j of the rectangle is call j·n + i, with the wrapped storage index of its world cell |
| Traversal.TraverseCovers | src/array2d.rs:24-68 | every world cell of the rectangle is visited, at its row-major position, with its wrapped storage index |
| Traversal.TraverseInside | src/array2d.rs:24-68 | no call lies outside the rectangle |
| Traversal.TraverseIndices | src/array2d.rs:29-49 | every call passes the storage index (wx mod w) + (wy mod h)·w of its world cell |
| Traversal.TraverseRowMajor | src/array2d.rs:54-68 | calls come in row-major order: wy ascending, and wx ascending within a row |
| Traversal.TraverseDistinct | src/array2d.rs:24-26 | when the rectangle is no wider than w and no higher than h, no two calls share a storage index |
| Traversal.TraversePairDistinct | src/array2d.rs:24-26 | calls k1 < k2 of such a rectangle hit different storage cells |
| Traversal.DistinctCells | src/array2d.rs:29-32 | two different cells of a window at most w by h map to different storage indices |
| Traversal.StorageIndexBound | src/array2d.rs:29-32 | every wrapped storage index is below w·h |
| Traversal.WrapCuts | src/array2d.rs:24-32 | when an axis wraps, the head run has w − start mod w cells, the full runs (crosses − 1)·w, the tail (end−1) mod w + 1, and together they cover the span |
| Traversal.AxisRunsWrapping | src/array2d.rs:40-42 | on a wrapping axis, head + full runs + tail produce exactly the residues of start, …, end−1 modulo w |
| Traversal.AxisRunsInBlock | src/array2d.rs:49 | on a non-wrapping axis, the single run x1..x2 produces the same residues |
| Traversal.AxisRunsModular | src/array2d.rs:24-61 | the i-th coordinate an axis loop produces is (start + i) mod w |
| Traversal.ModRunFullBlocks | src/array2d.rs:41 | c whole blocks starting at a multiple of w are c repetitions of 0..w |
| Traversal.ModRunWithinBlock | src/array2d.rs:49 | inside one block of w, the residues are consecutive |
| Traversal.RowsAt | src/array2d.rs:36-60 | the nested row loop makes call j·len(xs) + i for column i of row j, with index xs[i] + ys[j]·w |
| Traversal.RowsLength | src/array2d.rs:36-60 | the nested row loop makes len(xs)·len(ys) calls |
| Traversal.WrapExample | src/array2d.rs:40-42 | worked case: on a grid 4 wide, columns 3..6 of row 0 are visited at storage cells 3, 0, 1 |
| Grids.Gather | src/array2d.rs:289-300 | the cells a walk reads come back in call order: element k is the cell visited by call k |
| Grids.Scatter | src/array2d.rs:238-243 | the in-order scatter of the splice's write loop: data[k] goes to the cell of call k, first call first, so a later call overwrites an earlier one on the same cell; the store keeps its length (what each cell ends up holding is Grids.ScatterAt and Grids.ScatterOutside) |
| Grids.ScatterOutside | src/array2d.rs:238-243 | a splice leaves every storage cell that no call visits unchanged |
| Grids.ScatterAt | src/array2d.rs:238-243 | when calls hit different cells, call m's cell receives data[m] |
| Grids.ScatterGather | src/array2d.rs:238-300 | splicing back what a walk read changes nothing, whatever the walk |
| Grids.GatherScatter | src/array2d.rs:238-300 | reading back what a walk with distinct cells wrote returns the written data |
| Grids.SpliceEffect | src/array2d.rs:238-243 | both effects of a splice together: unvisited cells keep their value, and with distinct calls call m's cell holds data[m] |
| Grids.Tabulate | src/array2d.rs:171-189 | a row-major store of w·h cells whose cell (x, y) is f(x, y) |
| Grids.FromValue | src/array2d.rs:151-167 | a valid width-by-height grid whose every cell is t |
| Grids.FromClosure | src/array2d.rs:171-189 | a valid width-by-height grid whose cell (x, y) is f(x, y) |
| Grids.Array2D.Get | src/array2d.rs:211-216 | None when x > width (x = width is let through); the cell when (x, y) is in range; None for rows beyond the grid |
| Grids.Array2D.PositionBeyond | src/array2d.rs:211-216 | the flat position is inside the store exactly for in-range rows, which is why get returns None below the grid |
| Grids.Array2D.WithCell | src/array2d.rs:218-223 | get_mut refuses x ≥ width; for an in-range cell only that cell changes |
| Grids.Array2D.WithCellOthers | src/array2d.rs:218-223 | writing through get_mut changes the target cell and no other |
| Grids.Array2D.GetWrapping | src/array2d.rs:225-227 | returns the cell at (x mod w, y mod h), which is always in the store |
| Grids.Array2D.WithCellWrapping | src/array2d.rs:229-231 | afterwards get_wrapping(x, y) reads v, and every other storage cell is unchanged |
| Grids.Array2D.CloneSubWrapping | src/array2d.rs:289-300 | the clone is (xr.end − xr.start) by (yr.end − yr.start), and its cell (i, j) is get_wrapping(xr.start + i, yr.start + j) |
| Grids.Array2D.CloneCells | src/array2d.rs:289-300 | the clone built by pushing the walk's reads has that cell-by-cell property |
| Grids.Array2D.CloneSub | src/array2d.rs:281-287 | Err(OutOfBounds) exactly when inbounds fails (start < dim and end ≤ dim on both axes); otherwise it equals clone_sub_wrapping |
| Grids.Array2D.SpliceWrapping | src/array2d.rs:238-243 | cells the walk does not visit keep their value; with distinct visits, the k-th visited cell receives data[k] |
| Grids.Array2D.ForEach | src/array2d.rs:245-248 | one call per cell, in storage order: call k is (k mod w, k div w, data[k]) |
| Grids.ForEachInOrder | src/array2d.rs:245-248 | the whole-grid walk visits storage in order: call k is cell (k mod w, k div w) at index k |
| Grids.GetAliasesNextRow | src/array2d.rs:211-223 | quirk: get(width, y) returns cell (0, y+1), while get_mut(width, y) refuses |
| Grids.GetWrappingPeriodic | src/array2d.rs:225-227 | get_wrapping has period w in x and period h in y, and agrees with the cell when in range |
| Grids.CloneSubCells | src/array2d.rs:281-300 | an in-bounds clone_sub succeeds, and its cells are the original cells shifted by the range starts |
| Grids.SpliceCloneIdentity | src/array2d.rs:238-300 | splicing a rectangle's own clone back is a no-op, whatever the rectangle's size |
| Grids.CloneAfterSplice | src/array2d.rs:238-300 | for a rectangle no larger than the grid, cloning after a splice returns the spliced data |
| Grids.FastArray2D.Get | src/array2d.rs:380-382 | in range it returns the cell; rows beyond the grid give None; there is no x check |
| Grids.FastGetAliasesNextRow | src/array2d.rs:380-382 | quirk: get(x + width, y) is get(x, y + 1), for every x and y |
| Grids.FastArray2D.MasksAreMod | src/array2d.rs:388-390 | x & x_mask is x mod width, and y & y_mask is y mod height |
| Grids.FastArray2D.GetWrapping | src/array2d.rs:388-390 | the masked read equals the plain grid's get_wrapping, i.e. the cell at (x mod w, y mod h) |
| Grids.FastArray2D.WithCellWrapping | src/array2d.rs:392-394 | afterwards the wrapped read gives v, and every other storage cell is unchanged |
| Grids.FastArray2D.CloneSubWrapping | src/array2d.rs:409-416 | the clone's size is the ranges' lengths, and its cell (i, j) is get_wrapping(xr.start + i, yr.start + j) |
| Grids.FastArray2D.CloneSub | src/array2d.rs:396-407 | Err(OutOfBounds) exactly when inbounds fails; otherwise a valid grid of the rectangle's size whose cell (i, j) is get_wrapping(xr.start + i, yr.start + j) of the fast grid |
| Grids.FastArray2D.SpliceWrapping | src/array2d.rs:418-424 | unvisited cells keep their value; with distinct visits, the k-th visited cell receives data[k]; the masks are unchanged |
| Grids.FastFromValue | src/array2d.rs:329-339 | a 2^w_exp by 2^h_exp grid whose every cell is t |
| Grids.FastFromClosure | src/array2d.rs:341-358 | a 2^w_exp by 2^h_exp grid whose cell (x, y) is f(x, y) |
| Grids.FastCloneAfterSplice | src/array2d.rs:409-424 | splice_wrapping is undone by clone_sub_wrapping on a rectangle no larger than the grid |
| Chunks.ChunkSpan | src/client/functions/request_chunks_from_server.rs:12-17 | the first chunk contains pixel sat_sub(pos, buf); the last chunk ends at or past pos + len + buf and the one before does not; the span is never empty |
| Chunks.ChunkSpanCovers | src/client/functions/request_chunks_from_server.rs:12-17 | every pixel of the buffered view lies in a chunk of the span |
| Chunks.Changed | src/client/functions/request_chunks_from_server.rs:18-24 | the reference request list: one RequestChunk per call whose slot, in the cache as it was before the walk, held another tag; it has at most one request per call (its membership is Chunks.ChangedIff) |
| Chunks.ChangedIff | src/client/functions/request_chunks_from_server.rs:18-24 | RequestChunk(t) is in the reference list exactly when some call carries tag t and its slot held a different tag |
| Chunks.ChangedNoneWhenCurrent | src/client/functions/request_chunks_from_server.rs:20 | a cache that already holds every chunk of the walk yields no requests |
| Chunks.ChangedFromVisits | src/client/functions/request_chunks_from_server.rs:22 | every request names the tag of some visited chunk |
| Chunks.ChangedNoRepeats | src/client/functions/request_chunks_from_server.rs:18-24 | when calls carry distinct tags, no request appears twice |
| Chunks.TraverseTagsDistinct | src/client/functions/request_chunks_from_server.rs:19 | with at most 65536 chunks per axis, the u16-truncated tags of the walk's cells are distinct |
| Chunks.TagsOfDistinctCells | src/client/functions/request_chunks_from_server.rs:19 | two different chunks within a 65536-wide window keep different tags after `as u16` |
| Chunks.Retag | src/client/functions/request_chunks_from_server.rs:18-21 | the sequential retagging: call by call, the visited slot takes the tag of the chunk mapped onto it; the cache keeps its length (Chunks.RetagOutside and Chunks.RetagLast give each slot's tag) |
| Chunks.Sent | src/client/functions/request_chunks_from_server.rs:20-23 | the sequential sends: a request for a call whose slot, as the earlier calls left it, holds another tag; at most one request per call (equal to Chunks.Changed when the slots are distinct, Chunks.SentIsChanged) |
| Chunks.RetagOutside | src/client/functions/request_chunks_from_server.rs:18-24 | a slot the walk never visits keeps its tag |
| Chunks.RetagLast | src/client/functions/request_chunks_from_server.rs:18-21 | the last call on a slot decides its tag |
| Chunks.SentIsChanged | src/client/functions/request_chunks_from_server.rs:18-24 | when the walk hits distinct slots, the loop's requests equal the reference list of changed slots |
| Chunks.RetagSummary | src/client/functions/request_chunks_from_server.rs:18-24 | unvisited slots keep their tags; with distinct slots, every visited slot holds its chunk's tag and the sent list is the changed list |
| Chunks.RetagCurrent | src/client/functions/request_chunks_from_server.rs:20-23 | a cache that is already current is left unchanged and nothing is sent |
| Chunks.RetagWalk | src/client/functions/request_chunks_from_server.rs:18-24 | the imperative loop computes the reference retagging and appends exactly the reference requests |
| Chunks.RefreshTags | src/client/functions/request_chunks_from_server.rs:18-24 | the walk over the cache store retags the store and appends the requests, leaving the masks unchanged |
| Chunks.TaggedCells | src/client/functions/request_chunks_from_server.rs:18-21 | after the walk, every chunk of the rectangle is tagged in its wrapped slot |
| Chunks.RequestChunksFromServer | src/client/functions/request_chunks_from_server.rs:6-25 | outbound only grows by appends; unvisited slots are unchanged; with distinct slots the appended requests are exactly the changed chunks; when the span fits the cache, every chunk of the span is tagged |
| Chunks.RequestChunksTwice | src/client/functions/request_chunks_from_server.rs:6-25 | idempotence: when the span fits the cache, a second call with the same view sends nothing and changes no tag |
| Chunks.RequestsOncePerChunk | src/client/functions/request_chunks_from_server.rs:18-24 | within a 65536-chunk span no request repeats in the reference request list, and that list requests a chunk exactly when its slot held another tag (it equals what the loop sends when the slots are distinct, Chunks.SentIsChanged) |
| ChunkApply.ChunkRange | src/client/game_update.rs:133-134 | chunk c covers the eight tiles starting at 8c |
| ChunkApply.SpliceChunk | src/client/game_update.rs:132-136 | cells off the chunk keep their tiles; on a layer at least a chunk wide and high, tile (i, j) of the chunk takes payload tile 8j + i |
| ChunkApply.SpliceHolds | src/client/game_update.rs:132-136 | on a layer at least 8 by 8, every tile of the spliced chunk reads back its payload tile |
| ChunkApply.SpliceOutside | src/client/game_update.rs:132-136 | the splice leaves every tile outside the chunk unchanged |
| ChunkApply.SpliceChunkReadBack | src/array2d.rs:409-424 | cloning the chunk after splicing it returns the payload's 64 tiles |
| ChunkApply.RefreshedIsCurrent | src/client/game_update.rs:129-148 | runs request_chunks_from_server on the old cache and view; when the span fits the cache, a reply for any chunk of the span passes the stale check, and a reply for any other chunk that wraps onto the same slot is refused |
| Input.BindingInjective | src/client/game_update.rs:164-185 | no two keys drive the same queue |
| Input.Shift | src/client/game_update.rs:154-159 | the shift-left-keeping-bit-0 update keeps bit 0, and every higher bit takes the bit below it |
| Input.Press | src/client/game_update.rs:164-167 | setting bit 0 on a key press sets it and keeps the history bits |
| Input.Release | src/client/game_update.rs:168-171 | `q &= !1` clears bit 0 and keeps the history bits |
| Input.NoEdgeWithoutPress | src/client/game_update.rs:154-159 | a frame without events never shows a rising edge, and the held state carries over |
| Input.PressEdge | src/client/game_update.rs:191 | a press after the shift is a rising edge exactly when the control was not held before |
| Input.Queues.ShiftAll | src/client/game_update.rs:154-159 | all six queues shift: bit 0 is kept and the history moves up one bit |
| Input.Queues.Set | src/client/game_update.rs:164-185 | replacing one queue leaves the other five unchanged |
| Input.Target | src/client/game_update.rs:192-193 | the targeted tile is the one whose 16 pixels contain view + cursor |
| Input.InputsLastWins | src/client/game_update.rs:162-188 | after the input loop, bit 0 of each queue is the state of the control's last key event (or the old bit), the history bits are kept, and the cursor is the last position moved to |
| ClientGame.Pow2Plus3 | src/client/game_update.rs:69-71 | the tile layers are 8 times the chunk cache in each direction |
| ClientGame.VisibleTiles | src/client/game_update.rs:83-84 | icdiv(len − 1, 16) + 1 is the least r with (r − 1)·16 ≥ len − 1 |
| ClientGame.New | src/client/game_update.rs:45-117 | every cache slot is unloaded (u16::MAX, u16::MAX); both layers are air; the view starts at (32, 32); the light map is VisibleTiles + 2·MAX_LIGHT_DISTANCE on each side, the fade map has the same size, every light cell is MAX_BRIGHTNESS and every fade cell MAX_FADE |
| ClientGame.ApplyNet | src/client/game_update.rs:127-150 | an update for a chunk the cache no longer holds changes nothing; an accepted foreground chunk leaves the background untouched and splices only its own tiles, and likewise for background chunks |
| ClientGame.ApplyNets | src/client/game_update.rs:126-151 | the net loop changes nothing but the two tile layers |
| ClientGame.StaleNetsChangeNothing | src/client/game_update.rs:129-148 | a frame whose chunk updates are all stale leaves the game unchanged |
| ClientGame.NetLayersSeparate | src/client/game_update.rs:129-148 | foreground chunk updates never touch the background layer, and background updates never touch the foreground |
| ClientGame.ClickForeground | src/client/game_update.rs:190-197 | only on a rising edge: the targeted foreground tile becomes air, no other tile changes, and BreakForeground of the target is queued |
| ClientGame.ClickBackground | src/client/game_update.rs:199-206 | the same on the background layer, with BreakBackground |
| ClientGame.InputPhase | src/client/game_update.rs:153-188 | the queues are shifted and then set by the last key events; the cursor follows the last move |
| ClientGame.Clicks | src/client/game_update.rs:190-206 | each click acts only on its rising edge and queues its break event, left before right |
| ClientGame.Preframe | src/client/game_update.rs:119-207 | the whole preframe: the view and cache are unchanged, the queue history shifts, bit 0 is last-event-wins, clicked tiles become air, and the break events are appended |
| ClientGame.Axis | src/client/game_update.rs:213-228 | the view coordinate never drops below 16, and a coordinate already at least 16 moves by at most 3 |
| ClientGame.Camera | src/client/game_update.rs:212-228 | each held direction moves its axis by 3 before the clamp to 16 |
| ClientGame.LitFramed | src/client/game_update.rs:89 | a light map lit by update_lighting keeps the full-brightness border set at construction |
| ClientGame.Step | src/client/game_update.rs:209-246 | moves the camera, then refreshes the chunk cache for the new view: the cache becomes the retagging of the span's walk, slots the walk does not visit keep their tags, outbound grows by exactly the loop's sends (the reference changed-slot list when the slots are distinct), and every chunk of the span is tagged when it fits; then relights over the seeded fade map; the border stays at full brightness |
| ClientState.ApplyNet | src/client/client_state.rs:104-123 | a stale UpdateChunk, Accept and every other event change nothing; an accepted UpdateChunk writes the same payload over the chunk in both layers and leaves every other tile alone |
| ClientState.ApplyNets | src/client/client_state.rs:104-124 | the net loop changes nothing but the two layers |
| ClientState.LayersStayEqual | src/client/client_state.rs:107-120 | both layers receive the same payloads, so layers that agree before the net loop agree after it |
| ClientState.Break | src/client/client_state.rs:163-175 | only on a rising edge, the targeted tile becomes air and no other tile changes; nothing is sent |
| ClientState.Preframe | src/client/client_state.rs:97-176 | the view and cache are unchanged; queue history shifts and bit 0 is last-event-wins; each click breaks its layer's target on a rising edge and otherwise leaves the layer as the net loop left it |
| Lighting.Origin | src/game/lighting/gen_fade_map.rs:17-18 | the window starts MAX_LIGHT_DISTANCE tiles before the tile under the view's edge, or at tile 0 when the view is closer to the world's edge than that |
| Lighting.Calls | src/game/lighting/gen_fade_map.rs:24-35 | the seeding walk makes one call per interior world cell; each writes map cell (wx − ox) + (wy − oy)·w and reads the tile at the walk's storage index |
| Lighting.WalkInterior | src/game/lighting/gen_fade_map.rs:24-29 | every call of the seeding walk is for an interior cell of the window |
| Lighting.CallsFit | src/game/lighting/gen_fade_map.rs:29-35 | every call writes inside the light map and reads inside the tile layers |
| Lighting.CallsIncrease | src/game/lighting/gen_fade_map.rs:24-31 | the seeding walk writes map cells in strictly increasing order |
| Lighting.CallsCover | src/game/lighting/gen_fade_map.rs:24-31 | interior cell (i, j) is written by call (j−1)·(w−2) + (i−1), which reads world tile (ox + i, oy + j) |
| Lighting.CallAt | src/game/lighting/gen_fade_map.rs:24-31 | every call is for some interior cell (i, j) and reads that cell's world tile |
| Lighting.CallsMissBorder | src/game/lighting/gen_fade_map.rs:27-28 | no call writes a border cell |
| Lighting.SeedWalkOutside | src/game/lighting/gen_fade_map.rs:29-48 | a cell no call writes keeps its light and fade |
| Lighting.SeedWalkAt | src/game/lighting/gen_fade_map.rs:37-48 | a cell written by one call only gets full brightness exactly when its tiles are sky, and the fade of its class |
| Lighting.SeedWalkSources | src/game/lighting/gen_fade_map.rs:21-42 | the source list is exactly the cells of the sky calls |
| Lighting.SeedWalkSourcesIncrease | src/game/lighting/gen_fade_map.rs:21-52 | when the calls' cells increase, the sources are strictly increasing, so none repeats |
| Lighting.SeedRegion | src/game/lighting/gen_fade_map.rs:24-52 | interior sky cells get full brightness; interior cells get the fade of their class; border cells keep both values; the sources are the interior sky cells, increasing and each once |
| Lighting.SeedRegionLight | src/game/lighting/gen_fade_map.rs:37-43 | the seeded light map is the old one with every interior sky cell at full brightness |
| Lighting.SeedRegionFade | src/game/lighting/gen_fade_map.rs:37-48 | the seeded fade map gives every interior cell the fade of its class and keeps the border |
| Lighting.SeedCell | src/game/lighting/gen_fade_map.rs:29-48 | what one cell of the seeded maps holds, for interior and border cells alike |
| Lighting.SeedCellInterior | src/game/lighting/gen_fade_map.rs:37-48 | an interior cell's seeded light and fade |
| Lighting.SeedCellBorder | src/game/lighting/gen_fade_map.rs:27-28 | a border cell keeps its light and fade |
| Lighting.SeedCallsAt | src/game/lighting/gen_fade_map.rs:29-48 | the cell a call writes holds what that call decided, because no other call writes it |
| Lighting.InteriorCall | src/game/lighting/gen_fade_map.rs:29-48 | for an interior cell, the call that writes it and what it writes there |
| Lighting.ClassOfCall | src/game/lighting/gen_fade_map.rs:34-37 | the call reads the tile pair at its world cell on both layers |
| Lighting.ClassAtWrapping | src/game/lighting/gen_fade_map.rs:34-37 | that tile pair is the layers' get_wrapping pair at the world cell |
| Lighting.SeedRegionSources | src/game/lighting/gen_fade_map.rs:39-43 | the sources are strictly increasing, every source is an interior sky cell, and every interior sky cell is a source |
| Lighting.SourcesSoundFromCalls | src/game/lighting/gen_fade_map.rs:39-43 | every source is the position of an interior sky cell |
| Lighting.SourcesCompleteFromCalls | src/game/lighting/gen_fade_map.rs:39-43 | every interior sky cell is a source |
| Lighting.SkyCellSourced | src/game/lighting/gen_fade_map.rs:39-43 | the call for an interior sky cell is a sky call, so its cell is listed |
| Lighting.GenFadeMap | src/game/lighting/gen_fade_map.rs:7-53 | the single-channel seeding over the window at Origin(view) meets the seeding promise with the WriteAll fade policy |
| Lighting.GenFadeMapRgb | src/game/lighting.rs:15-65 | the three-channel seeding meets the seeding promise for each of the red, green and blue maps, with one shared fade map and source list |
| Lighting.SeedSharedParts | src/game/lighting.rs:47-59 | the fade map and the sources do not depend on the light map, which is why three channels can share them |
| Propagation.Offer | src/game/lighting/propogate_light_map_unbounded.rs:16-18 | a cell offers saturating_sub(brightness, fade), which is never above its brightness |
| Propagation.DeficitRaise | src/game/lighting/propogate_light_map_unbounded.rs:15-47 | termination measure: a strict raise of a bounded u8 lowers the map's total deficit |
| Propagation.RaiseStep | src/game/lighting/propogate_light_map_unbounded.rs:20-25 | one neighbour test keeps the loop invariant, never lowers a cell, leaves the neighbour at least at the offer, and makes progress |
| Propagation.RaiseBounded | src/game/lighting/propogate_light_map_unbounded.rs:18-23 | a raised cell stays within the maximum initial brightness and is an inner cell, since border cells already hold the maximum |
| Propagation.RaiseSettled | src/game/lighting/propogate_light_map_unbounded.rs:22-25 | raising and enqueuing a neighbour keeps every other seen cell settled |
| Propagation.RaiseSupported | src/game/lighting/propogate_light_map_unbounded.rs:22-25 | a raised cell is supported by the neighbour whose offer it took |
| Propagation.PopStep | src/game/lighting/propogate_light_map_unbounded.rs:15 | popping the queue head makes it the one cell that may be unsettled |
| Propagation.RaiseTwo | src/game/lighting/propogate_light_map_unbounded.rs:20-32 | the left and right tests leave both neighbours at least at the popped cell's offer |
| Propagation.SettledAfter | src/game/lighting/propogate_light_map_unbounded.rs:20-46 | after all four tests, the popped cell is settled: each neighbour holds at least its offer |
| Propagation.InvBounded | src/game/lighting/propogate_light_map_unbounded.rs:18 | under the loop invariant, no cell exceeds the maximum initial brightness |
| Propagation.RelaxCell | src/game/lighting/propogate_light_map_unbounded.rs:16-46 | one iteration over the popped cell keeps the invariant and makes progress |
| Propagation.ProgressChain | src/game/lighting/propogate_light_map_unbounded.rs:15-47 | progress composes across the four neighbour tests |
| Propagation.Start | src/game/lighting/propogate_light_map_unbounded.rs:13 | the initial queue of inner sources establishes the loop invariant |
| Propagation.Finish | src/game/lighting/propogate_light_map_unbounded.rs:15-47 | with an empty queue, the sources are settled, and every changed cell is settled and holds a settled neighbour's offer |
| Propagation.Propagate | src/game/lighting/propogate_light_map_unbounded.rs:5-48 | the loop terminates; no cell decreases or exceeds the maximum initial brightness; every source is settled; every changed cell is settled and holds exactly what a settled neighbour offers |
| ClientLighting.ClearInterior | src/client/functions/update_lighting.rs:14-15 | the interior is reset to MIN_BRIGHTNESS and the border is untouched |
| ClientLighting.ClearCells | src/client/functions/update_lighting.rs:15 | the splice-based clear over 1..w−1 by 1..h−1 has that cell-by-cell effect |
| ClientLighting.SeededLevels | src/client/functions/update_lighting.rs:14-51 | after clearing and seeding a framed map, every cell holds its seed level: full brightness on the border and on open sky, the minimum elsewhere |
| ClientLighting.ReadyToFlood | src/client/functions/update_lighting.rs:54 | the seeded map meets the flood's preconditions: its maximum is full brightness, every border cell holds it, and every source is inner |
| ClientLighting.FloodCells | src/client/functions/update_lighting.rs:54 | the flood's flat-map promise, restated as the lit property of the window |
| ClientLighting.UpdateLighting | src/client/functions/update_lighting.rs:6-55 | given the border set at construction, every interior fade cell is reseeded by class and the light map is lit: between seed level and full brightness, sky cells settled, and raised cells settled and supported by a neighbour |
| ClientLighting.FreshLight | src/client/functions/create_light_map.rs:26-38 | the fresh map has a full-brightness border and MIN_BRIGHTNESS inside |
| ClientLighting.FreshLevels | src/client/functions/create_light_map.rs:26-63 | seeding a fresh map leaves every cell at its seed level |
| ClientLighting.CreateLightMap | src/client/functions/create_light_map.rs:20-110 | fails exactly when the layers differ in size; otherwise it returns origin (x1, y1) and a (x2−x1) by (y2−y1) map lit over an OPAQUE_FADE map, where sky cells keep OPAQUE_FADE and only backdrop cells become transparent |
| Server.New | src/server/game_update.rs:19-40 | no peers, nothing queued, and a world of 8·1024 by 8·256 tiles whose tile (x, y) is the generator's |
| Server.WorldChunks | src/server/game_update.rs:20-21 | a chunk is inside the world exactly when x < 1024 and y < 256 |
| Server.ChunkReply | src/server/game_update.rs:73-81 | no reply exactly when the chunk is out of the world; otherwise UpdateChunk(x, y) with the chunk's 64 tiles row by row |
| Server.ReplyCells | src/server/game_update.rs:75-79 | the cloned 8 by 8 block, taken raw, is the chunk's tiles row by row |
| Server.HandleGameUpdate | src/server/game_update.rs:47-84 | Connect from an unknown address registers it with [Accept]; events from unknown addresses are ignored; a repeated Connect changes nothing; Disconnect removes the peer; Close sets kill; RequestChunk appends the chunk's reply and panics for an out-of-world chunk; other peers are never touched |
| Server.HandleServerState | src/server/server_state.rs:44-75 | Connect always (re)registers with [Accept], dropping pending events; unknown addresses are ignored; RequestChunk appends the reply or panics; nothing else changes state |
| Server.Preframe | src/server/game_update.rs:42-85 | the world and the broadcast list are unchanged by the dispatch loop |
| Server.PreframeIsolation | src/server/game_update.rs:47-84 | a peer that sent nothing this frame keeps its registration and its queue |
| Server.RepeatedConnect | src/server/game_update.rs:49-65 | a second Connect is a no-op for GameUpdate but resets the queue to [Accept] for ServerState |
| Server.ConnectThenRequest | src/server/game_update.rs:49-81 | Connect then RequestChunk of an in-world chunk leaves the queue [Accept, UpdateChunk with the chunk's tiles] in both revisions |
| Server.Postframe | src/server/game_update.rs:89-102 | every peer is sent its queue and the broadcast list; afterwards every queue and the broadcast list are empty; kill is returned unchanged |
| Server.PostframeTwice | src/server/game_update.rs:95-99 | a second postframe sends every peer two empty batches |
| Server.ReplyRoundTrip | src/client/client_state.rs:107-120 | a server reply spliced into a client layer shows the world's tiles on every tile of the chunk |

## Left out

- Rendering, GL buffers, textures and shaders are not modelled.
- Threads, channels, timers, process bootstrap, UDP sockets and bincode packing are not modelled. The server takes its frame's events as a list of (event, address) pairs.
- `println!` logging is left out.
- Server.Postframe: the batches sent to each peer are returned as a map from address to (queue, broadcast). The map has no order, so the HashMap iteration order of the sends is not modelled.
- Server.New: the sine-based world generator is a parameter `gen`. It uses `f32` arithmetic.
- ClientGame.New: the chunk cache exponents are parameters. The source computes them with `f32` `log2().ceil()`. It also requires a view at least one pixel wide and high: `view_w - 1` on usize panics for an empty view (src/client/game_update.rs:83-84).
- ClientLighting.CreateLightMap: the light rectangle `x1..y2` is an integer input. The source derives it from `f32` view coordinates.
- ClientLighting.CreateLightMap: the `assert_eq!` on the layer sizes is modelled as a `None` result instead of a panic.
- View positions and the cursor are natural numbers. The later client keeps them as `f32`.
- Physics, collision, humanoids and items are not modelled.
- `GameUpdate::postframe` frame extraction on the client is not modelled. It is not part of the chunk or lighting core.
- `clone_onscreen_tiles` is not modelled.
- `from_box`, `into_raw`, `raw`, `for_each_mut` and the `for_each_sub_wrapping` method wrappers are not modelled separately. They are plain reshapes of the same store and walk.
- `FastArray2D::get_mut` and `from_box` are not modelled. Nothing in the modelled core calls them.
- The commented-out code in src/game/functions/create_light_map.rs is not modelled.
- Traversal.Traverse: requires both sides to be non-zero unless a range is empty. The walk divides by `w` and `h` (src/array2d.rs:24-32), which panics on a zero side; an empty range returns first (src/array2d.rs:19-21).
- Grids.Array2D.GetWrapping: requires a non-empty grid. `x % self.width` panics on a zero side (src/array2d.rs:226).
- Grids.Array2D.CloneSubWrapping: requires start ≤ end on both ranges. A reversed range panics in the usize subtraction `xr.end - xr.start` (src/array2d.rs:290-291). It also requires a non-empty grid unless a range is empty, as Traversal.Traverse does.
- Grids.Array2D.CloneSub: requires start ≤ end when `inbounds` holds. `inbounds` does not compare start with end, so a reversed range inside the grid passes it and then panics in `clone_sub_wrapping` (src/array2d.rs:281-291).
- Grids.Array2D.SpliceWrapping: requires `data` to hold at least one element per call of the walk. A shorter `data` panics at `i.next().unwrap()` (src/array2d.rs:241). It also requires a non-empty grid unless a range is empty, as Traversal.Traverse does.
- Grids.FastArray2D.CloneSubWrapping: requires start ≤ end on both ranges. A reversed range panics in the usize subtraction (src/array2d.rs:410-411).
- Grids.FastArray2D.CloneSub: requires start ≤ end when `inbounds` holds, for the same reason as Grids.Array2D.CloneSub (src/array2d.rs:401-411).
- Grids.FastArray2D.SpliceWrapping: requires `data` to hold at least one element per call of the walk. Indexing `data[i]` past its end panics (src/array2d.rs:421).
- Common.ICDiv: requires that n + d − 1 fits in usize. Overflow of that sum is a panic in debug builds, so it is a precondition, not modelled wrap-around.
- Chunks.RequestChunksFromServer: requires the view arithmetic to fit in usize, for the same reason.
- ClientGame.Axis: requires that a held up or left key does not take the view below 0. The `-= 3` on usize would panic there. `GameUpdate` keeps the view at 16 or more, so the precondition always holds in the game.
- ClientGame.ApplyNet, ClientState.ApplyNet: require an accepted chunk's payload to hold at least 64 tiles. Indexing a shorter payload panics in `splice_wrapping`.
- Propagation.Propagate: requires every source to be an inner cell and every border cell to hold the maximum initial brightness. Without that, the source's neighbour indices could underflow or run out of range.
- ClientLighting.UpdateLighting: requires the light map's border to be at full brightness, which `GameUpdate::new` establishes (src/client/game_update.rs:89).
- Propagation.Propagate: the post-state is stated as a relaxation fixed point over the changed and source cells. The FIFO order is kept in the method, but the contract does not state which fixed point is reached.
- Server.HandleGameUpdate, Server.HandleServerState: an out-of-world RequestChunk is modelled as a `Panicked` outcome, which ends the frame.

## Quirks reproduced

- `Array2D::get` rejects only `x > width`, so `get(width, y)` reads the first cell of the next row, while `get_mut` rejects `x >= width` (Grids.GetAliasesNextRow).
- `FastArray2D::get` has no x check at all (Grids.FastGetAliasesNextRow).
- The chunk request buffer is `CHUNK_LOAD_BUFFER_SIZE * CHUNK_SIZE` pixels (src/client/functions/request_chunks_from_server.rs:12). The cache sizing in `GameUpdate::new` uses `* TILE_SIZE` (src/client/game_update.rs:50). Each is modelled as written.
- Tags are truncated with `as u16`. Distinct tags are therefore only proved for spans of at most 65536 chunks.
- `create_light_map` leaves sky cells at `OPAQUE_FADE` (the `BackdropOnly` fade policy). `gen_fade_map` and `update_lighting` write `MIN_FADE` there (the `WriteAll` policy).
