/** The later client revision's frame input (src/client/client_state.rs):
    chunks arrive as one `UpdateChunk` that fills both tile layers, and a
    click breaks the tile under the cursor without telling the server. */
module ClientState {
  import opened Ints
  import opened Traversal
  import opened Grids
  import opened Tiles
  import opened Net
  import opened Chunks
  import opened ChunkApply
  import opened Input
  import opened Lighting

  /** `ClientState` without timer, exit flag and view extent. The view
      position is a pixel coordinate; the source keeps it as `f32`. */
  datatype State = State(
    pointer: Pointer,
    view: (nat, nat),
    chunks: FastArray2D<Tag>,
    fg: FastArray2D<Tile>,
    bg: FastArray2D<Tile>)
  {
    /** The tag cache and both tile layers are valid power-of-two grids,
        each layer one chunk of tiles per cache slot (client_state.rs:52-67). */
    ghost predicate Valid()
    {
      && chunks.Valid() && SameLayers(fg, bg)
      && fg.Width() == CHUNK_SIZE * chunks.Width() && fg.Height() == CHUNK_SIZE * chunks.Height()
    }
  }

  /** An `UpdateChunk` the cache accepts carries at least a chunk of
      tiles; a shorter payload makes the splice panic. */
  ghost predicate PayloadFits(chunks: FastArray2D<Tag>, e: NetEvent)
    requires chunks.Valid()
  {
    e.UpdateChunk? && Current(chunks, e.x, e.y) ==> |e.tiles| >= CHUNK_TILES
  }

  /** One iteration of the net loop (client_state.rs:104-123). An
      `UpdateChunk` for a chunk the cache still holds writes the same
      payload into both layers over the chunk's tiles; a stale chunk,
      `Accept` and every other event change nothing. */
  function ApplyNet(s: State, e: NetEvent): (r: State)
    requires s.Valid() && PayloadFits(s.chunks, e)
    ensures r.Valid() && r == s.(fg := r.fg, bg := r.bg)
    ensures !(e.UpdateChunk? && Current(s.chunks, e.x, e.y)) ==> r == s
    ensures e.UpdateChunk? && Current(s.chunks, e.x, e.y) ==>
      && SameOutside(s.fg, r.fg, e.x, e.y) && ChunkHolds(r.fg, e.x, e.y, e.tiles)
      && SameOutside(s.bg, r.bg, e.x, e.y) && ChunkHolds(r.bg, e.x, e.y, e.tiles)
  {
    match e
    case UpdateChunk(x, y, tiles) =>
      if s.chunks.GetWrapping(x, y) == (x, y) then
        s.(fg := SpliceChunk(s.fg, x, y, tiles), bg := SpliceChunk(s.bg, x, y, tiles))
      else s
    case _ => s
  }

  /** The net loop over the frame's events, first to last. */
  function ApplyNets(s: State, events: seq<NetEvent>): (r: State)
    requires s.Valid() && forall k :: 0 <= k < |events| ==> PayloadFits(s.chunks, events[k])
    ensures r.Valid() && r == s.(fg := r.fg, bg := r.bg)
    decreases |events|
  {
    if |events| == 0 then s
    else
      var s1 := ApplyNet(s, events[0]);
      ApplyNets(s1, events[1..])
  }

  /** Both layers receive the same payloads: layers that agree before the
      net loop agree after it. */
  lemma {:induction false} LayersStayEqual(s: State, events: seq<NetEvent>)
    requires s.Valid() && forall k :: 0 <= k < |events| ==> PayloadFits(s.chunks, events[k])
    requires s.fg == s.bg
    ensures ApplyNets(s, events).fg == ApplyNets(s, events).bg
    decreases |events|
  {
    if |events| > 0 {
      LayersStayEqual(ApplyNet(s, events[0]), events[1..]);
    }
  }

  /** A click on a rising edge turns the tile under the cursor into air on
      one layer (client_state.rs:163-175); nothing is sent. */
  function Break(g: FastArray2D<Tile>, q: u8, p: Pointer, view: (nat, nat)): (r: FastArray2D<Tile>)
    requires g.Valid()
    ensures r.Valid() && r.wExp == g.wExp && r.xMask == g.xMask && r.yMask == g.yMask
    ensures !RisingEdge(q) ==> r == g
    ensures var t := Target(p, view);
      RisingEdge(q) ==>
        && r.GetWrapping(t.0, t.1) == Tile.None
        && forall k :: 0 <= k < |g.data| && k != StorageIndex(g.Width(), g.Height(), t.0, t.1) ==> r.data[k] == g.data[k]
  {
    if q % 2 == 1 && (q / 2) % 2 == 0 then
      var t := Target(p, view);
      g.WithCellWrapping(t.0, t.1, Tile.None)
    else g
  }

  /** `ClientState::preframe` (client_state.rs:97-176): net loop, queue
      shift, input loop, clicks. The view and the cache never change. */
  function Preframe(s: State, inputs: seq<InputEvent>, nets: seq<NetEvent>): (r: State)
    requires s.Valid() && forall k :: 0 <= k < |nets| ==> PayloadFits(s.chunks, nets[k])
    ensures r.Valid() && r.view == s.view && r.chunks == s.chunks
    ensures forall c :: r.pointer.queues.Get(c) / 2 == s.pointer.queues.Get(c) % 0x80
    ensures forall c :: r.pointer.queues.Get(c) % 2 == HeldAfter(inputs, c, s.pointer.queues.Get(c))
    ensures r.pointer.cursor == (match LastCursor(inputs) case Some(p) => p case None => s.pointer.cursor)
    ensures var t := Target(r.pointer, r.view);
      && (RisingEdge(r.pointer.queues.cursorLeft) ==> r.fg.GetWrapping(t.0, t.1) == Tile.None)
      && (RisingEdge(r.pointer.queues.cursorRight) ==> r.bg.GetWrapping(t.0, t.1) == Tile.None)
    ensures !RisingEdge(r.pointer.queues.cursorLeft) ==> r.fg == ApplyNets(s, nets).fg
    ensures !RisingEdge(r.pointer.queues.cursorRight) ==> r.bg == ApplyNets(s, nets).bg
  {
    var a := ApplyNets(s, nets);
    var shifted := Pointer(a.pointer.cursor, a.pointer.queues.ShiftAll());
    InputsLastWins(shifted, inputs);
    var p := ApplyInputs(shifted, inputs);
    a.(pointer := p,
       fg := Break(a.fg, p.queues.cursorLeft, p, a.view),
       bg := Break(a.bg, p.queues.cursorRight, p, a.view))
  }
}
