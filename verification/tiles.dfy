/** Tiles, the tile and chunk sizes, and the lighting constants the client
    game and the shared code each define (src/game/tile.rs,
    src/game/lighting.rs:6-12, src/shared/mod.rs). */
module Tiles {
  import opened Ints

  /** `Tile` (src/game/tile.rs:13-17); `None` is air. */
  datatype Tile = None | Dirt | Stone

  /** Side of a tile, in pixels. */
  const TILE_SIZE: nat := 16

  /** Side of a chunk, in tiles, and its base-two logarithm. */
  const CHUNK_SIZE: nat := 8
  const CHUNK_SIZE_LOG2: nat := 3

  /** One revision's brightness scale. Every other lighting constant is
      derived from these three exactly as the source derives it. */
  datatype LightConfig = LightConfig(maxBrightness: u8, minBrightness: u8, minFade: u8) {

    /** The constants are well formed: a fade is never zero and three of
        them still fit in a `u8`. */
    predicate Valid()
    {
      0 < minFade && 3 * minFade < 0x100 && minBrightness <= maxBrightness
    }

    function MaxFade(): u8 { maxBrightness }

    function TransparentFade(): u8 { minFade }

    function OpaqueFade(): (r: u8)
      requires Valid()
    {
      3 * minFade
    }

    /** How many tiles light travels through free space. */
    function MaxLightDistance(): nat
      requires Valid()
    {
      maxBrightness / minFade
    }
  }

  /** src/game/lighting.rs:6-12 (and src/game/lighting/constants.rs). */
  const GameLighting: LightConfig := LightConfig(16, 0, 1)

  /** src/shared/mod.rs:8-13. */
  const SharedLighting: LightConfig := LightConfig(255, 0, 8)

  /** Chunks loaded beyond the view on each side, in tiles
      (src/game/tile.rs:9): the client game's light distance. */
  const CHUNK_LOAD_BUFFER_SIZE: nat := 16

  /** The derived constants of both revisions. */
  lemma LightConstants()
    ensures GameLighting.Valid() && SharedLighting.Valid()
    ensures GameLighting.OpaqueFade() == 3 && GameLighting.MaxLightDistance() == 16
    ensures GameLighting.MaxFade() == 16 && GameLighting.TransparentFade() == 1
    ensures SharedLighting.OpaqueFade() == 24 && SharedLighting.MaxLightDistance() == 31
    ensures CHUNK_LOAD_BUFFER_SIZE == GameLighting.MaxLightDistance()
    ensures Pow2(CHUNK_SIZE_LOG2) == CHUNK_SIZE
  {
    assert Pow2(CHUNK_SIZE_LOG2) == 2 * 2 * 2 * Pow2(0);
  }
}
