/** The client's two ways of lighting its window onto the world:
    `update_lighting` (src/client/functions/update_lighting.rs), which
    relights a persistent light map in place every step, and
    `create_light_map` (src/client/functions/create_light_map.rs), which
    builds a fresh map for a rectangle of world tiles. Both seed the
    interior from the tiles and then flood the light with the propagation
    loop; the lemmas describe the result cell by cell. */
module ClientLighting {
  import opened Arith
  import opened Ints
  import opened Traversal
  import opened Grids
  import opened Tiles
  import opened Wrappers
  import opened Lighting
  import opened Propagation

  // ---------------------------------------------------------------------
  // Shared vocabulary.

  /** Every cell on the one-cell border of `light` holds full brightness. */
  predicate Framed(cfg: LightConfig, light: Array2D<u8>)
  {
    && light.Valid()
    && forall i: nat, j: nat :: i < light.width && j < light.height && !Window(0, 0, light.width, light.height).Interior(i, j) ==>
         light.Cell(i, j) == cfg.maxBrightness
  }

  /** The brightness a cell is seeded with before the flood: full on the
      border and on open sky, the minimum everywhere else. */
  ghost function Level(cfg: LightConfig, win: Window, fg: FastArray2D<Tile>, bg: FastArray2D<Tile>, i: nat, j: nat): u8
    requires SameLayers(fg, bg)
  {
    if !win.Interior(i, j) || SkyCell(win, fg, bg, i, j) then cfg.maxBrightness else cfg.minBrightness
  }

  /** The light map `out` of window `win`, flooded over fade map `fade`:
      every cell lies between its seed level and full brightness; every
      sky cell is settled; and a cell above its seed level is settled and
      holds exactly what one settled neighbour offers it. */
  ghost predicate Lit(cfg: LightConfig, win: Window, fg: FastArray2D<Tile>, bg: FastArray2D<Tile>,
                      fade: Array2D<u8>, out: Array2D<u8>)
    requires SameLayers(fg, bg)
  {
    && MapsFit(win, out, fade)
    && (forall i: nat, j: nat :: i < win.w && j < win.h ==>
          Level(cfg, win, fg, bg, i, j) <= out.Cell(i, j) <= cfg.maxBrightness)
    && (forall i: nat, j: nat :: SkyCell(win, fg, bg, i, j) ==>
          Settled(out.data, fade.data, win.w, Position(i, j, win.w)))
    && (forall i: nat, j: nat :: i < win.w && j < win.h && out.Cell(i, j) != Level(cfg, win, fg, bg, i, j) ==>
          && Settled(out.data, fade.data, win.w, Position(i, j, win.w))
          && exists p :: 0 <= p < |out.data| && Neighbour(p, Position(i, j, win.w), win.w)
               && Settled(out.data, fade.data, win.w, p) && out.Cell(i, j) == Offer(out.data, fade.data, p))
  }

  /** `fade` is `prior` seeded under `policy`, and `out` is lit over it. */
  ghost predicate Relit(cfg: LightConfig, policy: FadePolicy, win: Window, fg: FastArray2D<Tile>, bg: FastArray2D<Tile>,
                        prior: Array2D<u8>, fade: Array2D<u8>, out: Array2D<u8>)
    requires cfg.Valid() && SameLayers(fg, bg) && MapsFit(win, prior, prior)
  {
    && MapsFit(win, fade, fade)
    && FadeSeeded(cfg, policy, win, fg, bg, prior, fade)
    && Lit(cfg, win, fg, bg, fade, out)
  }

  // ---------------------------------------------------------------------
  // Row arithmetic of flat maps.

  /** Flat cell `p` of a `w` by `h` map is cell `(i, j)`. */
  lemma CellOfIndex(p: nat, w: nat, h: nat) returns (i: nat, j: nat)
    requires p < w * h
    ensures i < w && j < h && p == Position(i, j, w)
  {
    RowMajorBounds(p, w, h);
    RowMajorRecompose(p, w);
    i, j := p % w, p / w;
  }

  /** A cell has rows above and below it exactly when it is off the first
      and the last row. */
  lemma InnerRows(i: nat, j: nat, w: nat, h: nat)
    requires i < w && j < h
    ensures Inner(Position(i, j, w), w, w * h) <==> 1 <= j && j + 1 < h
  {
    if j >= 1 {
      MulAtLeast(j, w);
    }
    if j + 1 < h {
      MulMono(j + 2, h, w);
      assert Position(i, j, w) + w < (j + 2) * w;
    } else {
      assert j + 1 == h;
      assert Position(i, j, w) + w == h * w + i;
    }
  }

  // ---------------------------------------------------------------------
  // update_lighting.

  /** `light_map.for_each_sub_wrapping_mut(1..w - 1, 1..h - 1, |_, _, t| *t = MIN_BRIGHTNESS)`
      (src/client/functions/update_lighting.rs:14-15): the walk over the
      map's own interior writes the minimum brightness. `w - 1` and `h - 1`
      are `usize` subtractions, so an empty map panics. */
  function ClearInterior(cfg: LightConfig, light: Array2D<u8>): (r: Array2D<u8>)
    requires light.Valid() && light.width >= 1 && light.height >= 1
    ensures r.Valid() && r.width == light.width && r.height == light.height
    ensures forall i: nat, j: nat :: i < light.width && j < light.height ==>
      r.Cell(i, j) == (if Window(0, 0, light.width, light.height).Interior(i, j) then cfg.minBrightness else light.Cell(i, j))
  {
    var xr, yr := Range(1, light.width - 1), Range(1, light.height - 1);
    var r := light.SpliceWrapping(xr, yr, seq(xr.Len() * yr.Len(), _ => cfg.minBrightness));
    ClearCells(cfg, light);
    r
  }

  lemma ClearCells(cfg: LightConfig, light: Array2D<u8>)
    requires light.Valid() && light.width >= 1 && light.height >= 1
    ensures var xr, yr := Range(1, light.width - 1), Range(1, light.height - 1);
      var r := light.SpliceWrapping(xr, yr, seq(xr.Len() * yr.Len(), _ => cfg.minBrightness));
      forall i: nat, j: nat :: i < light.width && j < light.height ==>
        r.Cell(i, j) == (if Window(0, 0, light.width, light.height).Interior(i, j) then cfg.minBrightness else light.Cell(i, j))
  {
    var w, h := light.width, light.height;
    var xr, yr := Range(1, w - 1), Range(1, h - 1);
    var src := seq(xr.Len() * yr.Len(), _ => cfg.minBrightness);
    var r := light.SpliceWrapping(xr, yr, src);
    var win := Window(0, 0, w, h);
    var visits := Traverse(w, h, xr, yr);
    assert visits == win.Walk(w, h);
    SelfWalk(w, h);
    TraverseDistinct(w, h, xr, yr);
    forall i: nat, j: nat | i < w && j < h
      ensures r.Cell(i, j) == (if win.Interior(i, j) then cfg.minBrightness else light.Cell(i, j))
    {
      RowMajorPosition(i, j, w, h);
      if win.Interior(i, j) {
        var m := CallOf(win, w, h, i, j);
        assert visits[m].index == Position(i, j, w);
      } else {
        CallsMissBorder(win, w, h, i, j);
        assert Untouched(visits, Position(i, j, w));
      }
    }
  }

  /** On a map walked over itself, the storage index of each call is the
      cell it writes. */
  lemma SelfWalk(w: nat, h: nat)
    requires w >= 1 && h >= 1
    ensures |Window(0, 0, w, h).Walk(w, h)| == |Calls(Window(0, 0, w, h), w, h)|
    ensures forall k :: 0 <= k < |Window(0, 0, w, h).Walk(w, h)| ==>
      Window(0, 0, w, h).Walk(w, h)[k].index == Calls(Window(0, 0, w, h), w, h)[k].cell
  {
    var win := Window(0, 0, w, h);
    var t, c := win.Walk(w, h), Calls(win, w, h);
    WalkInterior(win, w, h);
    CallsFit(win, w, h);
    forall k | 0 <= k < |t|
      ensures t[k].index == c[k].cell
    {
      DivModUnique(t[k].wx, w, 0, t[k].wx);
      DivModUnique(t[k].wy, h, 0, t[k].wy);
    }
  }

  /** After clearing and seeding a framed map, every cell holds its seed level. */
  lemma SeededLevels(cfg: LightConfig, win: Window, fg: FastArray2D<Tile>, bg: FastArray2D<Tile>,
                     light: Array2D<u8>, cleared: Array2D<u8>, seeded: Array2D<u8>)
    requires cfg.Valid() && SameLayers(fg, bg) && Framed(cfg, light)
    requires light.width == win.w && light.height == win.h && light.width >= 1 && light.height >= 1
    requires cleared == ClearInterior(cfg, light)
    requires MapsFit(win, seeded, seeded) && LightSeeded(cfg, win, fg, bg, cleared, seeded)
    ensures forall i: nat, j: nat :: i < win.w && j < win.h ==> seeded.Cell(i, j) == Level(cfg, win, fg, bg, i, j)
  {
  }

  /** A map seeded to its levels meets what the flood asks of it: the
      brightest value is full brightness, it fills the first and last rows,
      and every source has rows above and below it. */
  lemma ReadyToFlood(cfg: LightConfig, win: Window, fg: FastArray2D<Tile>, bg: FastArray2D<Tile>,
                     seeded: Array2D<u8>, sources: seq<nat>)
    requires cfg.Valid() && SameLayers(fg, bg) && win.w >= 1 && win.h >= 1
    requires MapsFit(win, seeded, seeded)
    requires forall i: nat, j: nat :: i < win.w && j < win.h ==> seeded.Cell(i, j) == Level(cfg, win, fg, bg, i, j)
    requires SourcesSound(win, fg, bg, sources)
    ensures MaxOf(seeded.data) == cfg.maxBrightness
    ensures forall p :: 0 <= p < |seeded.data| && !Inner(p, win.w, |seeded.data|) ==> seeded.data[p] == MaxOf(seeded.data)
    ensures forall k :: 0 <= k < |sources| ==> Inner(sources[k], win.w, |seeded.data|)
  {
    var w, h := win.w, win.h;
    forall p | 0 <= p < |seeded.data|
      ensures seeded.data[p] <= cfg.maxBrightness
      ensures !Inner(p, w, |seeded.data|) ==> seeded.data[p] == cfg.maxBrightness
    {
      var i, j := CellOfIndex(p, w, h);
      InnerRows(i, j, w, h);
      assert seeded.Cell(i, j) == Level(cfg, win, fg, bg, i, j);
    }
    assert seeded.Cell(0, 0) == cfg.maxBrightness;
    RowMajorPosition(0, 0, w, h);
    assert seeded.data[0] == cfg.maxBrightness;
    forall k | 0 <= k < |sources|
      ensures Inner(sources[k], w, |seeded.data|)
    {
      assert SkySource(win, fg, bg, sources[k]);
      var i: nat, j: nat :| SkyCell(win, fg, bg, i, j) && sources[k] == Position(i, j, w);
      InnerRows(i, j, w, h);
    }
  }

  /** What the flood promises on flat maps, restated cell by cell. */
  lemma FloodCells(cfg: LightConfig, win: Window, fg: FastArray2D<Tile>, bg: FastArray2D<Tile>,
                   seeded: Array2D<u8>, fade: Array2D<u8>, sources: seq<nat>, out: seq<u8>)
    requires cfg.Valid() && SameLayers(fg, bg)
    requires MapsFit(win, seeded, fade)
    requires forall i: nat, j: nat :: i < win.w && j < win.h ==> seeded.Cell(i, j) == Level(cfg, win, fg, bg, i, j)
    requires SourcesComplete(win, fg, bg, sources)
    requires |out| == |seeded.data|
    requires forall i :: 0 <= i < |out| ==> seeded.data[i] <= out[i] <= cfg.maxBrightness
    requires forall k :: 0 <= k < |sources| ==> Settled(out, fade.data, win.w, sources[k])
    requires forall q :: 0 <= q < |out| && out[q] != seeded.data[q] ==> Settled(out, fade.data, win.w, q)
    requires forall q :: 0 <= q < |out| && out[q] != seeded.data[q] ==>
      exists p :: 0 <= p < |out| && Neighbour(p, q, win.w) && Settled(out, fade.data, win.w, p) && out[q] == Offer(out, fade.data, p)
    ensures Lit(cfg, win, fg, bg, fade, Array2D(win.w, win.h, out))
  {
    var lit := Array2D(win.w, win.h, out);
    forall i: nat, j: nat | i < win.w && j < win.h
      ensures Level(cfg, win, fg, bg, i, j) <= lit.Cell(i, j) <= cfg.maxBrightness
    {
      RowMajorPosition(i, j, win.w, win.h);
    }
    forall i: nat, j: nat | SkyCell(win, fg, bg, i, j)
      ensures Settled(out, fade.data, win.w, Position(i, j, win.w))
    {
      var k :| 0 <= k < |sources| && sources[k] == Position(i, j, win.w);
    }
    forall i: nat, j: nat | i < win.w && j < win.h && lit.Cell(i, j) != Level(cfg, win, fg, bg, i, j)
      ensures && Settled(out, fade.data, win.w, Position(i, j, win.w))
              && exists p :: 0 <= p < |out| && Neighbour(p, Position(i, j, win.w), win.w)
                   && Settled(out, fade.data, win.w, p) && lit.Cell(i, j) == Offer(out, fade.data, p)
    {
      RowMajorPosition(i, j, win.w, win.h);
    }
  }

  /** `update_lighting(view, _, fg, bg, light_map, fade_map)`
      (src/client/functions/update_lighting.rs:6-55): clear the interior,
      seed the window that starts at the light origin of the view, and
      flood. The border of the light map holds full brightness from its
      construction on (src/client/game_update.rs:89); the flood then never
      leaves the map and never touches the border. */
  method UpdateLighting(cfg: LightConfig, view: (nat, nat), fg: FastArray2D<Tile>, bg: FastArray2D<Tile>,
                        light: Array2D<u8>, fade: Array2D<u8>)
      returns (light2: Array2D<u8>, fade2: Array2D<u8>)
    requires cfg.Valid() && SameLayers(fg, bg)
    requires Framed(cfg, light) && light.width >= 1 && light.height >= 1
    requires MapsFit(Window(0, 0, light.width, light.height), light, fade)
    ensures var win := Window(Origin(cfg, view.0), Origin(cfg, view.1), light.width, light.height);
      && MapsFit(win, light2, fade2)
      && FadeSeeded(cfg, WriteAll, win, fg, bg, fade, fade2)
      && Lit(cfg, win, fg, bg, fade2, light2)
  {
    var win := Window(Origin(cfg, view.0), Origin(cfg, view.1), light.width, light.height);
    var cleared := ClearInterior(cfg, light);
    var s := SeedRegion(cfg, WriteAll, win, fg, bg, cleared, fade);
    SeededLevels(cfg, win, fg, bg, light, cleared, s.light);
    ReadyToFlood(cfg, win, fg, bg, s.light, s.sources);
    var out := Propagate(s.light.data, s.fade.data, win.w, s.sources);
    FloodCells(cfg, win, fg, bg, s.light, s.fade, s.sources, out);
    light2, fade2 := Array2D(win.w, win.h, out), s.fade;
  }

  // ---------------------------------------------------------------------
  // create_light_map.

  /** The fresh light map of a `w` by `h` window: minimum brightness inside,
      full brightness on the border rows and columns
      (src/client/functions/create_light_map.rs:25-38). */
  function FreshLight(cfg: LightConfig, w: nat, h: nat): (r: Array2D<u8>)
    ensures Framed(cfg, r) && r.width == w && r.height == h
    ensures forall i: nat, j: nat :: i < w && j < h && Window(0, 0, w, h).Interior(i, j) ==> r.Cell(i, j) == cfg.minBrightness
  {
    FromClosure(w, h, (i, j) => if Window(0, 0, w, h).Interior(i, j) then cfg.minBrightness else cfg.maxBrightness)
  }

  /** Seeding a fresh map leaves every cell at its seed level. */
  lemma FreshLevels(cfg: LightConfig, win: Window, fg: FastArray2D<Tile>, bg: FastArray2D<Tile>, seeded: Array2D<u8>)
    requires cfg.Valid() && SameLayers(fg, bg)
    requires MapsFit(win, seeded, seeded) && LightSeeded(cfg, win, fg, bg, FreshLight(cfg, win.w, win.h), seeded)
    ensures forall i: nat, j: nat :: i < win.w && j < win.h ==> seeded.Cell(i, j) == Level(cfg, win, fg, bg, i, j)
  {
  }

  /** `create_light_map` from the integer tile rectangle `[x1, x2) × [y1, y2)`
      on (src/client/functions/create_light_map.rs:20-110): a fresh map of
      the rectangle's size with origin `(x1, y1)`, seeded with the client's
      fade rule (sky keeps `OPAQUE_FADE`) and flooded. The tile layers must
      have one size; the source asserts it, and the model answers `None`
      where the assertion would fail. The rectangle is never empty: the
      source widens the view by `MAX_LIGHT_DISTANCE` tiles on every side
      (create_light_map.rs:13-18), so `x2 - x1` and `y2 - y1` are at least
      `2 * MAX_LIGHT_DISTANCE`, or at least `MAX_LIGHT_DISTANCE` where the
      `as usize` cast clamps a negative start to 0. */
  method CreateLightMap(cfg: LightConfig, x1: nat, y1: nat, x2: nat, y2: nat, fg: FastArray2D<Tile>, bg: FastArray2D<Tile>)
      returns (r: Option<(nat, nat, Array2D<u8>)>)
    requires cfg.Valid() && fg.Valid() && bg.Valid()
    requires x1 < x2 && y1 < y2
    ensures r.None? <==> fg.xMask != bg.xMask || fg.yMask != bg.yMask
    ensures r.Some? ==> r.value.0 == x1 && r.value.1 == y1
    ensures r.Some? ==> r.value.2.width == x2 - x1 && r.value.2.height == y2 - y1
    ensures r.Some? ==>
      exists fade :: Relit(cfg, BackdropOnly, Window(x1, y1, r.value.2.width, r.value.2.height), fg, bg,
                           FromValue(r.value.2.width, r.value.2.height, cfg.OpaqueFade()), fade, r.value.2)
  {
    if fg.xMask != bg.xMask || fg.yMask != bg.yMask {
      return Option.None;
    }
    var w, h := x2 - x1, y2 - y1;
    var win := Window(x1, y1, w, h);
    var fade := FromValue(w, h, cfg.OpaqueFade());
    var light := FreshLight(cfg, w, h);
    var s := SeedRegion(cfg, BackdropOnly, win, fg, bg, light, fade);
    FreshLevels(cfg, win, fg, bg, s.light);
    ReadyToFlood(cfg, win, fg, bg, s.light, s.sources);
    var out := Propagate(s.light.data, s.fade.data, w, s.sources);
    FloodCells(cfg, win, fg, bg, s.light, s.fade, s.sources, out);
    assert Relit(cfg, BackdropOnly, win, fg, bg, fade, s.fade, Array2D(w, h, out));
    r := Some((x1, y1, Array2D(w, h, out)));
  }
}
