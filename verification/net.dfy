/** Messages between client and server. The repository carries two
    revisions of `NetEvent` (src/game/net/net_event.rs and
    src/shared/net_event.rs); the server's `GameUpdate` handles `Close`,
    which only the first declares. This datatype is the union of both. */
module Net {
  import opened Ints
  import opened Tiles

  datatype NetEvent =
    | Connect
    | Accept
    | Ping
    | Disconnect
    | Close
    | RequestChunk(x: u16, y: u16)
    | BreakForeground(x: u16, y: u16)
    | BreakBackground(x: u16, y: u16)
    | UpdateForegroundChunk(x: u16, y: u16, tiles: seq<Tile>)
    | UpdateBackgroundChunk(x: u16, y: u16, tiles: seq<Tile>)
    | UpdateChunk(x: u16, y: u16, tiles: seq<Tile>)
    | ChatMessage(text: string)
}
