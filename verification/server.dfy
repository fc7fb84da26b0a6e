/** The server's request dispatcher in its two revisions:
    `GameUpdate` (src/server/game_update.rs) and `ServerState`
    (src/server/server_state.rs). Each keeps a map from peer address to
    that peer's pending outbound events and a world of tiles; `preframe`
    handles the frame's `(event, address)` pairs in order and `postframe`
    hands every pending queue, and the broadcast list, to the transport
    and empties them. Sockets are replaced by the list of received pairs
    and the map of batches handed over. */
module Server {
  import opened Ints
  import opened Wrappers
  import opened Traversal
  import opened Grids
  import opened Tiles
  import opened Net
  import opened ChunkApply

  /** A peer's socket address; only equality matters. */
  type Addr = nat

  /** The world is 1024 by 256 chunks (game_update.rs:20-21). */
  const WORLD_CHUNKS_X: nat := 1024
  const WORLD_CHUNKS_Y: nat := 256

  /** Which of the two server revisions handles the events. */
  datatype Revision = GameUpdateRev | ServerStateRev

  /** The state of either revision; `kill` is only ever set by
      `GameUpdate`. */
  datatype Server = Server(
    kill: bool,
    broadcast: seq<NetEvent>,
    connections: map<Addr, seq<NetEvent>>,
    tiles: Array2D<Tile>)

  /** A frame either runs to the end or panics in `unwrap`. */
  datatype Outcome = Running(server: Server) | Panicked

  /** `new`: no peers, nothing queued, and a world of `8 * 1024` by
      `8 * 256` tiles filled by the generator `gen`, which the model takes
      as a parameter (game_update.rs:19-40, server_state.rs:20-41). */
  function New(gen: (nat, nat) -> Tile): (r: Server)
    ensures r.tiles.Valid() && r.tiles.width == CHUNK_SIZE * WORLD_CHUNKS_X && r.tiles.height == CHUNK_SIZE * WORLD_CHUNKS_Y
    ensures forall x: nat, y: nat :: x < r.tiles.width && y < r.tiles.height ==> r.tiles.Cell(x, y) == gen(x, y)
    ensures !r.kill && r.broadcast == [] && r.connections == map[]
  {
    Server(false, [], map[], FromClosure(CHUNK_SIZE * WORLD_CHUNKS_X, CHUNK_SIZE * WORLD_CHUNKS_Y, gen))
  }

  /** The 64 tiles of chunk `(x, y)` hold the world's tiles row by row. */
  ghost predicate ChunkOf(world: Array2D<Tile>, x: nat, y: nat, tiles: seq<Tile>)
    requires world.Valid()
  {
    && |tiles| == CHUNK_TILES
    && forall i: nat, j: nat :: i < CHUNK_SIZE && j < CHUNK_SIZE ==>
         && CHUNK_SIZE * x + i < world.width && CHUNK_SIZE * y + j < world.height
         && tiles[Position(i, j, CHUNK_SIZE)] == world.Cell(CHUNK_SIZE * x + i, CHUNK_SIZE * y + j)
  }

  /** The reply to `RequestChunk(x, y)`:
      `tiles.clone_sub(8x..8x + 8, 8y..8y + 8).unwrap().into_raw()`
      wrapped in `UpdateChunk(x, y, _)` (game_update.rs:73-81,
      server_state.rs:64-72). `None` where the chunk leaves the world and
      `unwrap` panics. */
  function ChunkReply(world: Array2D<Tile>, x: u16, y: u16): (r: Option<NetEvent>)
    requires world.Valid()
    ensures r.None? <==> !world.Inbounds(ChunkRange(x), ChunkRange(y))
    ensures r.Some? ==> r.value.UpdateChunk? && r.value.x == x && r.value.y == y && ChunkOf(world, x, y, r.value.tiles)
  {
    var xr, yr := ChunkRange(x), ChunkRange(y);
    match world.CloneSub(xr, yr)
    case Err(_) => Option.None
    case Ok(c) =>
      CloneSubCells(world, xr, yr);
      ReplyCells(world, x, y, c);
      Some(UpdateChunk(x, y, c.data))
  }

  lemma ReplyCells(world: Array2D<Tile>, x: nat, y: nat, c: Array2D<Tile>)
    requires world.Valid() && c.Valid() && c.width == CHUNK_SIZE && c.height == CHUNK_SIZE
    requires world.Inbounds(ChunkRange(x), ChunkRange(y))
    requires forall i: nat, j: nat :: i < c.width && j < c.height ==>
      c.Cell(i, j) == world.Cell(CHUNK_SIZE * x + i, CHUNK_SIZE * y + j)
    ensures ChunkOf(world, x, y, c.data)
  {
    forall i: nat, j: nat | i < CHUNK_SIZE && j < CHUNK_SIZE
      ensures c.data[Position(i, j, CHUNK_SIZE)] == world.Cell(CHUNK_SIZE * x + i, CHUNK_SIZE * y + j)
    {
      assert c.Cell(i, j) == c.data[Position(i, j, CHUNK_SIZE)];
    }
  }

  /** In the `8 * 1024` by `8 * 256` world a chunk can be served exactly
      when both of its coordinates are inside the world's chunk grid. */
  lemma WorldChunks(world: Array2D<Tile>, x: u16, y: u16)
    requires world.width == CHUNK_SIZE * WORLD_CHUNKS_X && world.height == CHUNK_SIZE * WORLD_CHUNKS_Y
    ensures world.Inbounds(ChunkRange(x), ChunkRange(y)) <==> x < WORLD_CHUNKS_X && y < WORLD_CHUNKS_Y
  {
  }

  /** Every address but `a` has the same entry, or lack of one, in both maps. */
  ghost predicate OthersUnchanged(before: map<Addr, seq<NetEvent>>, after: map<Addr, seq<NetEvent>>, a: Addr)
  {
    forall b :: b != a ==> (b in after <==> b in before) && (b in before ==> after[b] == before[b])
  }

  /** The events a registered peer can send that only queue a reply or
      change nothing: all except the connection events. */
  predicate Quiet(e: NetEvent)
  {
    !e.Connect? && !e.Disconnect? && !e.Close? && !e.RequestChunk?
  }

  /** One pair of `GameUpdate::preframe` (game_update.rs:47-83). A
      `Connect` from a new address registers it with `[Accept]` queued; any
      event from an unregistered address is dropped; a repeated `Connect`
      changes nothing; `Disconnect` forgets the peer; `Close` sets `kill`;
      `RequestChunk` queues the chunk for the peer or panics outside the
      world. */
  function HandleGameUpdate(s: Server, e: NetEvent, a: Addr): (r: Outcome)
    requires s.tiles.Valid()
    ensures r.Panicked? <==> a in s.connections && e.RequestChunk? && !s.tiles.Inbounds(ChunkRange(e.x), ChunkRange(e.y))
    ensures r.Running? ==> r.server.tiles == s.tiles && r.server.broadcast == s.broadcast
    ensures r.Running? ==> OthersUnchanged(s.connections, r.server.connections, a)
    ensures a !in s.connections ==> r == Running(if e.Connect? then s.(connections := s.connections[a := [Accept]]) else s)
    ensures a in s.connections && (e.Connect? || Quiet(e)) ==> r == Running(s)
    ensures a in s.connections && e.Disconnect? ==> r == Running(s.(connections := s.connections - {a}))
    ensures a in s.connections && e.Close? ==> r == Running(s.(kill := true))
    ensures a in s.connections && e.RequestChunk? && r.Running? ==>
      && r.server.kill == s.kill && a in r.server.connections
      && |r.server.connections[a]| == |s.connections[a]| + 1
      && r.server.connections[a][..|s.connections[a]|] == s.connections[a]
      && var reply := r.server.connections[a][|s.connections[a]|];
         reply.UpdateChunk? && reply.x == e.x && reply.y == e.y && ChunkOf(s.tiles, e.x, e.y, reply.tiles)
  {
    if e.Connect? && a !in s.connections then
      Running(s.(connections := s.connections[a := [Accept]]))
    else if a !in s.connections then
      Running(s)
    else
      match e
      case Connect => Running(s)
      case Disconnect => Running(s.(connections := s.connections - {a}))
      case Close => Running(s.(kill := true))
      case RequestChunk(x, y) =>
        (match ChunkReply(s.tiles, x, y)
         case None => Panicked
         case Some(reply) => Running(s.(connections := s.connections[a := s.connections[a] + [reply]])))
      case _ => Running(s)
  }

  /** One pair of `ServerState::preframe` (server_state.rs:44-75). A
      `Connect` always (re)registers the address with only `[Accept]`
      queued, dropping whatever was pending; events from unregistered
      addresses are dropped; `RequestChunk` queues the chunk or panics;
      everything else, `Disconnect` included, changes nothing. */
  function HandleServerState(s: Server, e: NetEvent, a: Addr): (r: Outcome)
    requires s.tiles.Valid()
    ensures r.Panicked? <==> a in s.connections && e.RequestChunk? && !s.tiles.Inbounds(ChunkRange(e.x), ChunkRange(e.y))
    ensures r.Running? ==> r.server.tiles == s.tiles && r.server.broadcast == s.broadcast && r.server.kill == s.kill
    ensures r.Running? ==> OthersUnchanged(s.connections, r.server.connections, a)
    ensures e.Connect? ==> r == Running(s.(connections := s.connections[a := [Accept]]))
    ensures a !in s.connections && !e.Connect? ==> r == Running(s)
    ensures a in s.connections && !e.Connect? && !e.RequestChunk? ==> r == Running(s)
    ensures a in s.connections && e.RequestChunk? && r.Running? ==>
      && a in r.server.connections
      && |r.server.connections[a]| == |s.connections[a]| + 1
      && r.server.connections[a][..|s.connections[a]|] == s.connections[a]
      && var reply := r.server.connections[a][|s.connections[a]|];
         reply.UpdateChunk? && reply.x == e.x && reply.y == e.y && ChunkOf(s.tiles, e.x, e.y, reply.tiles)
  {
    if e.Connect? then
      Running(s.(connections := s.connections[a := [Accept]]))
    else if a !in s.connections then
      Running(s)
    else
      match e
      case RequestChunk(x, y) =>
        (match ChunkReply(s.tiles, x, y)
         case None => Panicked
         case Some(reply) => Running(s.(connections := s.connections[a := s.connections[a] + [reply]])))
      case _ => Running(s)
  }

  function Handle(rev: Revision, s: Server, e: NetEvent, a: Addr): (r: Outcome)
    requires s.tiles.Valid()
    ensures r.Running? ==> r.server.tiles == s.tiles && r.server.broadcast == s.broadcast
    ensures r.Running? ==> OthersUnchanged(s.connections, r.server.connections, a)
  {
    match rev
    case GameUpdateRev => HandleGameUpdate(s, e, a)
    case ServerStateRev => HandleServerState(s, e, a)
  }

  /** `preframe`: the frame's pairs in arrival order; a panic ends the frame. */
  function Preframe(rev: Revision, s: Server, events: seq<(NetEvent, Addr)>): (r: Outcome)
    requires s.tiles.Valid()
    ensures r.Running? ==> r.server.tiles == s.tiles && r.server.broadcast == s.broadcast
    decreases |events|
  {
    if |events| == 0 then Running(s)
    else
      match Handle(rev, s, events[0].0, events[0].1)
      case Panicked => Panicked
      case Running(s1) => Preframe(rev, s1, events[1..])
  }

  /** A peer that sent nothing this frame keeps its registration and its
      queue, whatever the others sent. */
  lemma {:induction false} PreframeIsolation(rev: Revision, s: Server, events: seq<(NetEvent, Addr)>, b: Addr)
    requires s.tiles.Valid()
    requires forall k :: 0 <= k < |events| ==> events[k].1 != b
    ensures var r := Preframe(rev, s, events);
      r.Running? ==>
        && (b in r.server.connections <==> b in s.connections)
        && (b in s.connections ==> r.server.connections[b] == s.connections[b])
    decreases |events|
  {
    if |events| > 0 {
      var h := Handle(rev, s, events[0].0, events[0].1);
      if h.Running? {
        PreframeIsolation(rev, h.server, events[1..], b);
      }
    }
  }

  /** The two revisions differ on a repeated `Connect`: `GameUpdate` keeps
      the peer's pending events, `ServerState` replaces them by `[Accept]`. */
  lemma RepeatedConnect(s: Server, a: Addr)
    requires s.tiles.Valid() && a in s.connections
    ensures HandleGameUpdate(s, Connect, a) == Running(s)
    ensures HandleServerState(s, Connect, a).server.connections[a] == [Accept]
  {
  }

  /** A new peer that connects and asks for a chunk inside the world has
      `Accept` and then the chunk queued, in that order, under both
      revisions. */
  lemma ConnectThenRequest(rev: Revision, s: Server, a: Addr, x: u16, y: u16)
    requires s.tiles.Valid() && a !in s.connections
    requires s.tiles.Inbounds(ChunkRange(x), ChunkRange(y))
    ensures var r := Preframe(rev, s, [(Connect, a), (RequestChunk(x, y), a)]);
      && r.Running? && a in r.server.connections
      && |r.server.connections[a]| == 2 && r.server.connections[a][0] == Accept
      && r.server.connections[a][1] == UpdateChunk(x, y, ChunkReply(s.tiles, x, y).value.tiles)
  {
    var events := [(Connect, a), (RequestChunk(x, y), a)];
    var s1 := s.(connections := s.connections[a := [Accept]]);
    assert Handle(rev, s, Connect, a) == Running(s1);
    assert events[1..] == [(RequestChunk(x, y), a)];
    var h := Handle(rev, s1, RequestChunk(x, y), a);
    assert h == Running(s1.(connections := s1.connections[a := [Accept] + [ChunkReply(s.tiles, x, y).value]]));
    assert Preframe(rev, s1, events[1..]) == Preframe(rev, h.server, []);
  }

  /** What `postframe` hands the transport for one peer: its pending
      events, then a copy of the broadcast list. */
  datatype Batches = Batches(pending: seq<NetEvent>, broadcast: seq<NetEvent>)

  /** `postframe` (game_update.rs:89-102, server_state.rs:80-89): every
      registered peer gets its queue and the broadcast list, in the
      map's iteration order, which the model leaves unordered; afterwards
      every queue and the broadcast list are empty. `GameUpdate` also
      returns `kill`, which is `r.0.kill`. */
  function Postframe(s: Server): (r: (Server, map<Addr, Batches>))
    ensures r.0.connections.Keys == s.connections.Keys && r.1.Keys == s.connections.Keys
    ensures forall a :: a in r.0.connections ==> r.0.connections[a] == []
    ensures r.0.broadcast == []
    ensures r.0.kill == s.kill && r.0.tiles == s.tiles
    ensures forall a :: a in r.1 ==> r.1[a] == Batches(s.connections[a], s.broadcast)
  {
    (s.(connections := map a | a in s.connections :: [], broadcast := []),
     map a | a in s.connections :: Batches(s.connections[a], s.broadcast))
  }

  /** Every event queued is handed over exactly once: a second `postframe`
      with nothing received in between hands over only empty batches. */
  lemma PostframeTwice(s: Server)
    ensures var r2 := Postframe(Postframe(s).0);
      && r2.1.Keys == s.connections.Keys
      && forall a :: a in r2.1 ==> r2.1[a] == Batches([], [])
  {
  }

  /** Tile `(i, j)` of chunk `(x, y)` as a client layer shows it. */
  ghost function LayerTile(layer: FastArray2D<Tile>, x: nat, y: nat, i: nat, j: nat): Tile
    requires layer.Valid()
  {
    layer.GetWrapping(CHUNK_SIZE * x + i, CHUNK_SIZE * y + j)
  }

  /** The chunk a peer receives, spliced into a client layer at least a
      chunk wide and high, shows the world's tiles there: the server's
      `clone_sub` and the client's `splice_wrapping` are inverse on a chunk. */
  lemma ReplyRoundTrip(world: Array2D<Tile>, x: u16, y: u16, layer: FastArray2D<Tile>)
    requires world.Valid() && world.Inbounds(ChunkRange(x), ChunkRange(y))
    requires layer.Valid() && layer.Width() >= CHUNK_SIZE && layer.Height() >= CHUNK_SIZE
    ensures var after := SpliceChunk(layer, x, y, ChunkReply(world, x, y).value.tiles);
      && after.Valid()
      && forall i: nat, j: nat :: i < CHUNK_SIZE && j < CHUNK_SIZE ==>
           && CHUNK_SIZE * x + i < world.width && CHUNK_SIZE * y + j < world.height
           && LayerTile(after, x, y, i, j) == world.Cell(CHUNK_SIZE * x + i, CHUNK_SIZE * y + j)
  {
    var reply := ChunkReply(world, x, y).value;
    var after := SpliceChunk(layer, x, y, reply.tiles);
    forall i: nat, j: nat | i < CHUNK_SIZE && j < CHUNK_SIZE
      ensures LayerTile(after, x, y, i, j) == world.Cell(CHUNK_SIZE * x + i, CHUNK_SIZE * y + j)
    {
      assert after.GetWrapping(CHUNK_SIZE * x + i, CHUNK_SIZE * y + j) == reply.tiles[Position(i, j, CHUNK_SIZE)];
    }
  }
}
