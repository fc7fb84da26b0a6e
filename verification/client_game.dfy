/** The client's frame logic (src/client/game_update.rs): `preframe`
    applies inbound chunks behind the stale-chunk test, advances the input
    queues and turns a fresh click into a broken tile and an outbound
    `Break…` event; `step` moves and clamps the camera, refreshes the chunk
    cache and relights the view. */
module ClientGame {
  import opened Ints
  import opened Common
  import opened Wrappers
  import opened Traversal
  import opened Grids
  import opened Tiles
  import opened Net
  import opened Chunks
  import opened ChunkApply
  import opened Input
  import opened Lighting
  import opened ClientLighting

  /** The smallest view coordinate `step` allows (game_update.rs:227-228). */
  const VIEW_MIN: nat := 16

  /** The view coordinate `GameUpdate::new` starts at (game_update.rs:105). */
  const VIEW_START: nat := 32

  /** Pixels a held direction key moves the camera per step
      (game_update.rs:213-224). */
  const CAMERA_STEP: nat := 3

  /** `GameUpdate` without its unused timer and exit flag. */
  datatype Game = Game(
    pointer: Pointer,
    view: (nat, nat),
    viewSize: (nat, nat),
    outbound: seq<NetEvent>,
    chunks: FastArray2D<Tag>,
    fg: FastArray2D<Tile>,
    bg: FastArray2D<Tile>,
    light: Array2D<u8>,
    fade: Array2D<u8>)
  {
    /** The tag cache and both tile layers are valid power-of-two grids,
        and each layer holds one chunk of tiles per cache slot. */
    ghost predicate TilesFit()
    {
      && chunks.Valid() && SameLayers(fg, bg)
      && fg.Width() == CHUNK_SIZE * chunks.Width() && fg.Height() == CHUNK_SIZE * chunks.Height()
    }

    /** What `new` establishes and every frame keeps: the tiles fit, the
        light map is framed in full brightness and matches the fade map,
        and the view is inside the clamp. */
    ghost predicate Valid(cfg: LightConfig)
    {
      && cfg.Valid() && TilesFit()
      && Framed(cfg, light) && light.width >= 1 && light.height >= 1
      && MapsFit(Window(0, 0, light.width, light.height), light, fade)
      && view.0 >= VIEW_MIN && view.1 >= VIEW_MIN
    }
  }

  lemma Pow2Plus3(k: nat)
    ensures Pow2(k + CHUNK_SIZE_LOG2) == CHUNK_SIZE * Pow2(k)
  {
    assert Pow2(k + 3) == 2 * Pow2(k + 2) == 4 * Pow2(k + 1) == 8 * Pow2(k);
  }

  /** The most tiles a view `len` pixels wide can show: `icdiv(len - 1, 16) + 1`
      (game_update.rs:83-84). */
  function VisibleTiles(len: nat): (r: nat)
    requires len >= 1 && len + TILE_SIZE - 2 < USIZE_LIMIT
    ensures r >= 1 && (r - 1) * TILE_SIZE >= len - 1
    ensures r == 1 || (r - 2) * TILE_SIZE < len - 1
  {
    ICDiv(len - 1, TILE_SIZE) + 1
  }

  /** `GameUpdate::new` (game_update.rs:45-117), with the two cache
      exponents, which the source derives through `f32` logarithms, given.
      The light map is the visible tiles plus the light distance on each
      side, full brightness everywhere; the fade map is the maximum fade. */
  function New(cfg: LightConfig, wExp: nat, hExp: nat, viewW: nat, viewH: nat): (r: Game)
    requires cfg.Valid() && viewW >= 1 && viewH >= 1
    requires viewW + TILE_SIZE - 2 < USIZE_LIMIT && viewH + TILE_SIZE - 2 < USIZE_LIMIT
    ensures r.Valid(cfg)
    ensures r.view == (VIEW_START, VIEW_START) && r.viewSize == (viewW, viewH) && r.outbound == []
    ensures r.pointer == Pointer((0, 0), NoInput)
    ensures r.chunks.Width() == Pow2(wExp) && r.chunks.Height() == Pow2(hExp)
    ensures forall x: nat, y: nat :: x < r.chunks.Width() && y < r.chunks.Height() ==> r.chunks.Get(x, y) == Some(UNLOADED)
    ensures forall x: nat, y: nat :: x < r.fg.Width() && y < r.fg.Height() ==>
      r.fg.Get(x, y) == Some(Tile.None) && r.bg.Get(x, y) == Some(Tile.None)
    ensures r.light.width == VisibleTiles(viewW) + 2 * cfg.MaxLightDistance()
    ensures r.light.height == VisibleTiles(viewH) + 2 * cfg.MaxLightDistance()
    ensures r.fade.width == r.light.width && r.fade.height == r.light.height
    ensures forall x: nat, y: nat :: x < r.light.width && y < r.light.height ==>
      r.light.Cell(x, y) == cfg.maxBrightness && r.fade.Cell(x, y) == cfg.MaxFade()
  {
    Pow2Plus3(wExp);
    Pow2Plus3(hExp);
    var lw := VisibleTiles(viewW) + 2 * cfg.MaxLightDistance();
    var lh := VisibleTiles(viewH) + 2 * cfg.MaxLightDistance();
    Game(
      Pointer((0, 0), NoInput),
      (VIEW_START, VIEW_START), (viewW, viewH), [],
      FastFromValue(wExp, hExp, UNLOADED),
      FastFromValue(wExp + CHUNK_SIZE_LOG2, hExp + CHUNK_SIZE_LOG2, Tile.None),
      FastFromValue(wExp + CHUNK_SIZE_LOG2, hExp + CHUNK_SIZE_LOG2, Tile.None),
      FromValue(lw, lh, cfg.maxBrightness),
      FromValue(lw, lh, cfg.MaxFade()))
  }

  // ---------------------------------------------------------------------
  // preframe: the net loop.

  /** A chunk event the cache accepts carries at least a chunk of tiles;
      splicing a shorter payload panics. */
  ghost predicate PayloadFits(chunks: FastArray2D<Tag>, e: NetEvent)
    requires chunks.Valid()
  {
    (e.UpdateForegroundChunk? || e.UpdateBackgroundChunk?) && Current(chunks, e.x, e.y) ==> |e.tiles| >= CHUNK_TILES
  }

  /** The chunk event `e` is accepted: an update whose slot still tags it. */
  ghost predicate Accepted(chunks: FastArray2D<Tag>, e: NetEvent)
    requires chunks.Valid()
  {
    (e.UpdateForegroundChunk? || e.UpdateBackgroundChunk?) && Current(chunks, e.x, e.y)
  }

  /** One iteration of the net loop (game_update.rs:127-150). An update of
      a chunk the cache still holds is spliced into its own layer and no
      other; a stale update, and every other event, changes nothing. */
  function ApplyNet(g: Game, e: NetEvent): (r: Game)
    requires g.TilesFit() && PayloadFits(g.chunks, e)
    ensures r.TilesFit() && r == g.(fg := r.fg, bg := r.bg)
    ensures !Accepted(g.chunks, e) ==> r == g
    ensures e.UpdateForegroundChunk? && Current(g.chunks, e.x, e.y) ==>
      && r.bg == g.bg
      && SameOutside(g.fg, r.fg, e.x, e.y) && ChunkHolds(r.fg, e.x, e.y, e.tiles)
    ensures e.UpdateBackgroundChunk? && Current(g.chunks, e.x, e.y) ==>
      && r.fg == g.fg
      && SameOutside(g.bg, r.bg, e.x, e.y) && ChunkHolds(r.bg, e.x, e.y, e.tiles)
  {
    match e
    case UpdateForegroundChunk(x, y, tiles) =>
      if g.chunks.GetWrapping(x, y) == (x, y) then g.(fg := SpliceChunk(g.fg, x, y, tiles)) else g
    case UpdateBackgroundChunk(x, y, tiles) =>
      if g.chunks.GetWrapping(x, y) == (x, y) then g.(bg := SpliceChunk(g.bg, x, y, tiles)) else g
    case _ => g
  }

  /** The net loop over the frame's events, first to last. It changes
      nothing but the two tile layers. */
  function ApplyNets(g: Game, events: seq<NetEvent>): (r: Game)
    requires g.TilesFit() && forall k :: 0 <= k < |events| ==> PayloadFits(g.chunks, events[k])
    ensures r.TilesFit() && r == g.(fg := r.fg, bg := r.bg)
    decreases |events|
  {
    if |events| == 0 then g
    else
      var g1 := ApplyNet(g, events[0]);
      ApplyNets(g1, events[1..])
  }

  /** A frame whose chunk updates are all stale, or that has none, leaves
      both tile layers as they were. */
  lemma {:induction false} StaleNetsChangeNothing(g: Game, events: seq<NetEvent>)
    requires g.TilesFit() && forall k :: 0 <= k < |events| ==> PayloadFits(g.chunks, events[k])
    requires forall k :: 0 <= k < |events| ==> !Accepted(g.chunks, events[k])
    ensures ApplyNets(g, events) == g
    decreases |events|
  {
    if |events| > 0 {
      StaleNetsChangeNothing(ApplyNet(g, events[0]), events[1..]);
    }
  }

  /** Foreground updates never touch the background layer, and background
      updates never touch the foreground layer. */
  lemma {:induction false} NetLayersSeparate(g: Game, events: seq<NetEvent>)
    requires g.TilesFit() && forall k :: 0 <= k < |events| ==> PayloadFits(g.chunks, events[k])
    ensures (forall k :: 0 <= k < |events| ==> !events[k].UpdateBackgroundChunk?) ==> ApplyNets(g, events).bg == g.bg
    ensures (forall k :: 0 <= k < |events| ==> !events[k].UpdateForegroundChunk?) ==> ApplyNets(g, events).fg == g.fg
    decreases |events|
  {
    if |events| > 0 {
      NetLayersSeparate(ApplyNet(g, events[0]), events[1..]);
    }
  }

  // ---------------------------------------------------------------------
  // preframe: clicks.

  /** The left click (game_update.rs:190-197): on a rising edge the
      foreground tile under the cursor becomes air and a
      `BreakForeground` with the tile's coordinates cast to `u16` is
      queued; otherwise nothing happens. */
  function ClickForeground(g: Game): (r: Game)
    requires g.TilesFit()
    ensures r.TilesFit() && r == g.(fg := r.fg, outbound := r.outbound)
    ensures !RisingEdge(g.pointer.queues.cursorLeft) ==> r == g
    ensures var t := Target(g.pointer, g.view);
      RisingEdge(g.pointer.queues.cursorLeft) ==>
        && r.fg.GetWrapping(t.0, t.1) == Tile.None
        && (forall k :: 0 <= k < |g.fg.data| && k != StorageIndex(g.fg.Width(), g.fg.Height(), t.0, t.1) ==>
              r.fg.data[k] == g.fg.data[k])
        && r.outbound == g.outbound + [BreakForeground(AsU16(t.0), AsU16(t.1))]
  {
    var q := g.pointer.queues.cursorLeft;
    if q % 2 == 1 && (q / 2) % 2 == 0 then
      var t := Target(g.pointer, g.view);
      g.(fg := g.fg.WithCellWrapping(t.0, t.1, Tile.None),
         outbound := g.outbound + [BreakForeground(AsU16(t.0), AsU16(t.1))])
    else g
  }

  /** The right click (game_update.rs:199-206), on the background layer. */
  function ClickBackground(g: Game): (r: Game)
    requires g.TilesFit()
    ensures r.TilesFit() && r == g.(bg := r.bg, outbound := r.outbound)
    ensures !RisingEdge(g.pointer.queues.cursorRight) ==> r == g
    ensures var t := Target(g.pointer, g.view);
      RisingEdge(g.pointer.queues.cursorRight) ==>
        && r.bg.GetWrapping(t.0, t.1) == Tile.None
        && (forall k :: 0 <= k < |g.bg.data| && k != StorageIndex(g.bg.Width(), g.bg.Height(), t.0, t.1) ==>
              r.bg.data[k] == g.bg.data[k])
        && r.outbound == g.outbound + [BreakBackground(AsU16(t.0), AsU16(t.1))]
  {
    var q := g.pointer.queues.cursorRight;
    if q % 2 == 1 && (q / 2) % 2 == 0 then
      var t := Target(g.pointer, g.view);
      g.(bg := g.bg.WithCellWrapping(t.0, t.1, Tile.None),
         outbound := g.outbound + [BreakBackground(AsU16(t.0), AsU16(t.1))])
    else g
  }

  /** The break events a frame's clicks queue, left before right. */
  function Breaks(p: Pointer, view: (nat, nat)): seq<NetEvent>
  {
    var t := Target(p, view);
    (if RisingEdge(p.queues.cursorLeft) then [BreakForeground(AsU16(t.0), AsU16(t.1))] else [])
    + (if RisingEdge(p.queues.cursorRight) then [BreakBackground(AsU16(t.0), AsU16(t.1))] else [])
  }

  /** `GameUpdate::preframe` (game_update.rs:119-207): net loop, queue
      shift, input loop, clicks. Only the tile layers, the input state and
      the outbound queue change. Every queue's history moves up one bit and
      its bit 0 is the frame's last event for the control; the clicks act
      after the chunks are applied, so a freshly clicked tile is air even
      if a chunk update of the same frame covered it. */
  function Preframe(g: Game, inputs: seq<InputEvent>, nets: seq<NetEvent>): (r: Game)
    requires g.TilesFit() && forall k :: 0 <= k < |nets| ==> PayloadFits(g.chunks, nets[k])
    ensures r.TilesFit()
    ensures r == g.(pointer := r.pointer, fg := r.fg, bg := r.bg, outbound := r.outbound)
    ensures forall c :: r.pointer.queues.Get(c) / 2 == g.pointer.queues.Get(c) % 0x80
    ensures forall c :: r.pointer.queues.Get(c) % 2 == HeldAfter(inputs, c, g.pointer.queues.Get(c))
    ensures r.pointer.cursor == (match LastCursor(inputs) case Some(p) => p case None => g.pointer.cursor)
    ensures r.outbound == g.outbound + Breaks(r.pointer, r.view)
    ensures var t := Target(r.pointer, r.view);
      && (RisingEdge(r.pointer.queues.cursorLeft) ==> r.fg.GetWrapping(t.0, t.1) == Tile.None)
      && (RisingEdge(r.pointer.queues.cursorRight) ==> r.bg.GetWrapping(t.0, t.1) == Tile.None)
    ensures !RisingEdge(r.pointer.queues.cursorLeft) ==> r.fg == ApplyNets(g, nets).fg
    ensures !RisingEdge(r.pointer.queues.cursorRight) ==> r.bg == ApplyNets(g, nets).bg
  {
    Clicks(InputPhase(ApplyNets(g, nets), inputs))
  }

  /** The queue shift and the input loop of a frame; nothing but the input
      state changes. */
  function InputPhase(g: Game, inputs: seq<InputEvent>): (r: Game)
    requires g.TilesFit()
    ensures r.TilesFit() && r == g.(pointer := r.pointer)
    ensures forall c :: r.pointer.queues.Get(c) / 2 == g.pointer.queues.Get(c) % 0x80
    ensures forall c :: r.pointer.queues.Get(c) % 2 == HeldAfter(inputs, c, g.pointer.queues.Get(c))
    ensures r.pointer.cursor == (match LastCursor(inputs) case Some(p) => p case None => g.pointer.cursor)
  {
    var shifted := Pointer(g.pointer.cursor, g.pointer.queues.ShiftAll());
    InputsLastWins(shifted, inputs);
    g.(pointer := ApplyInputs(shifted, inputs))
  }

  /** Both clicks of a frame, left before right: each rising edge turns the
      tile under the cursor into air on its layer and queues its break. */
  function Clicks(g: Game): (r: Game)
    requires g.TilesFit()
    ensures r.TilesFit() && r == g.(fg := r.fg, bg := r.bg, outbound := r.outbound)
    ensures r.outbound == g.outbound + Breaks(g.pointer, g.view)
    ensures var t := Target(g.pointer, g.view);
      && (RisingEdge(g.pointer.queues.cursorLeft) ==> r.fg.GetWrapping(t.0, t.1) == Tile.None)
      && (RisingEdge(g.pointer.queues.cursorRight) ==> r.bg.GetWrapping(t.0, t.1) == Tile.None)
    ensures !RisingEdge(g.pointer.queues.cursorLeft) ==> r.fg == g.fg
    ensures !RisingEdge(g.pointer.queues.cursorRight) ==> r.bg == g.bg
  {
    ClickBackground(ClickForeground(g))
  }

  // ---------------------------------------------------------------------
  // step.

  /** `v.max(16)`. */
  function Clamp(v: int): (r: nat)
  {
    if v < VIEW_MIN then VIEW_MIN else v
  }

  /** One view coordinate: `-= 3` if the decreasing key is held, then
      `+= 3` if the increasing one is, then `max(16)`. With both held the
      moves cancel. The subtraction is in `usize`, so it needs `v >= 3`. */
  function Axis(v: nat, dec: bool, inc: bool): (r: nat)
    requires dec ==> v >= CAMERA_STEP
    ensures r >= VIEW_MIN
    ensures r == Clamp(v + (if inc then CAMERA_STEP else 0) - (if dec then CAMERA_STEP else 0))
    ensures v >= VIEW_MIN ==> v - CAMERA_STEP <= r <= v + CAMERA_STEP
  {
    var a := if dec then v - CAMERA_STEP else v;
    var b := if inc then a + CAMERA_STEP else a;
    if b < VIEW_MIN then VIEW_MIN else b
  }

  /** The camera after one step (game_update.rs:212-228): W and S move the
      view up and down, A and D left and right. */
  function Camera(view: (nat, nat), q: Queues): (r: (nat, nat))
    requires view.0 >= VIEW_MIN && view.1 >= VIEW_MIN
    ensures r.0 == Axis(view.0, Held(q.left), Held(q.right))
    ensures r.1 == Axis(view.1, Held(q.up), Held(q.down))
  {
    (Axis(view.0, q.left % 2 == 1, q.right % 2 == 1), Axis(view.1, q.up % 2 == 1, q.down % 2 == 1))
  }

  /** A lit map keeps its full-brightness border: every border cell's seed
      level is the maximum, and no cell exceeds it. */
  lemma LitFramed(cfg: LightConfig, win: Window, fg: FastArray2D<Tile>, bg: FastArray2D<Tile>,
                  fade: Array2D<u8>, out: Array2D<u8>)
    requires SameLayers(fg, bg) && Lit(cfg, win, fg, bg, fade, out)
    ensures Framed(cfg, out)
  {
    forall i: nat, j: nat | i < out.width && j < out.height && !Window(0, 0, out.width, out.height).Interior(i, j)
      ensures out.Cell(i, j) == cfg.maxBrightness
    {
      assert Level(cfg, win, fg, bg, i, j) == cfg.maxBrightness;
    }
  }

  /** `GameUpdate::step` (game_update.rs:209-246): move and clamp the
      camera, refresh the chunk cache for the new view, then relight it.
      The refresh only touches the cache and the outbound queue and the
      relighting only the two light maps, so the two calls are independent
      and run in the source's order. Sums of view, size and load margin
      must fit a `usize`. */
  method Step(cfg: LightConfig, g: Game) returns (r: Game)
    requires g.Valid(cfg)
    requires g.view.0 + CAMERA_STEP + g.viewSize.0 + CHUNK_LOAD_BUFFER_SIZE_PX + CHUNK_SIZE_PX - 1 < USIZE_LIMIT
    requires g.view.1 + CAMERA_STEP + g.viewSize.1 + CHUNK_LOAD_BUFFER_SIZE_PX + CHUNK_SIZE_PX - 1 < USIZE_LIMIT
    ensures r.Valid(cfg)
    ensures r.view == Camera(g.view, g.pointer.queues)
    ensures r == g.(view := r.view, chunks := r.chunks, outbound := r.outbound, light := r.light, fade := r.fade)
    ensures |r.outbound| >= |g.outbound| && r.outbound[..|g.outbound|] == g.outbound
    ensures var visits := Traverse(g.chunks.Width(), g.chunks.Height(), ChunkSpan(r.view.0, g.viewSize.0), ChunkSpan(r.view.1, g.viewSize.1));
      && IndicesBelow(visits, |g.chunks.data|)
      && r.chunks.data == Retag(g.chunks.data, visits)
      && r.outbound == g.outbound + Sent(g.chunks.data, visits)
      && (forall k :: 0 <= k < |g.chunks.data| && Untouched(visits, k) ==> r.chunks.data[k] == g.chunks.data[k])
      && (DistinctIndices(visits) ==> r.outbound[|g.outbound|..] == Changed(g.chunks.data, visits))
    ensures var xr, yr := ChunkSpan(r.view.0, r.viewSize.0), ChunkSpan(r.view.1, r.viewSize.1);
      xr.Len() <= r.chunks.Width() && yr.Len() <= r.chunks.Height() ==>
        forall cx, cy :: xr.Contains(cx) && yr.Contains(cy) ==> r.chunks.GetWrapping(cx, cy) == TagOf(cx, cy)
    ensures r.light.width == g.light.width && r.light.height == g.light.height
    ensures var win := Window(Origin(cfg, r.view.0), Origin(cfg, r.view.1), g.light.width, g.light.height);
      && FadeSeeded(cfg, WriteAll, win, g.fg, g.bg, g.fade, r.fade)
      && Lit(cfg, win, g.fg, g.bg, r.fade, r.light)
  {
    var view := Camera(g.view, g.pointer.queues);
    var chunks, outbound := RequestChunksFromServer(view, g.viewSize, g.chunks, g.outbound);
    var light, fade := UpdateLighting(cfg, view, g.fg, g.bg, g.light, g.fade);
    var win := Window(Origin(cfg, view.0), Origin(cfg, view.1), g.light.width, g.light.height);
    LitFramed(cfg, win, g.fg, g.bg, fade, light);
    r := g.(view := view, chunks := chunks, outbound := outbound, light := light, fade := fade);
  }
}
