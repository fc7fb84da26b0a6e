/** The seeding pass of the light field: `gen_fade_map` of
    src/game/lighting/gen_fade_map.rs and src/game/lighting.rs, the walk
    inside `update_lighting` (src/client/functions/update_lighting.rs) and
    the one inside the client's `create_light_map`
    (src/client/functions/create_light_map.rs).

    A light window is a `w` by `h` map whose cell `(i, j)` shows world tile
    `(ox + i, oy + j)`. The pass walks the window's interior over the
    wrap-around tile grids, classifies each tile pair, writes a fade and,
    for open sky, full brightness, and collects the sky cells as light
    sources. The walk is modelled call by call; the lemmas then show that
    it agrees with a cell-by-cell description read straight off the tiles. */
module Lighting {
  import opened Arith
  import opened Ints
  import opened Common
  import opened Traversal
  import opened Grids
  import opened Tiles

  /** How a foreground/background tile pair treats light. */
  datatype Class = Sky | Backdrop | Solid

  /** `(None, None)` is open sky, air in front of a wall is a backdrop and
      a solid foreground blocks light (src/game/lighting/gen_fade_map.rs:37-48). */
  function Classify(fg: Tile, bg: Tile): Class
  {
    if fg != None then Solid
    else if bg == None then Sky
    else Backdrop
  }

  /** Which classes a revision writes a fade for: `gen_fade_map` and
      `update_lighting` write all three; the client's `create_light_map`
      writes only the backdrop fade and leaves its `OPAQUE_FADE` default
      everywhere else, sky included (src/client/functions/create_light_map.rs:56-61). */
  datatype FadePolicy = WriteAll | BackdropOnly

  /** The fade a cell of class `c` ends up with when it held `prior`. */
  function NewFade(cfg: LightConfig, policy: FadePolicy, c: Class, prior: u8): u8
    requires cfg.Valid()
  {
    match c
    case Sky => if policy == WriteAll then cfg.minFade else prior
    case Backdrop => cfg.TransparentFade()
    case Solid => if policy == WriteAll then cfg.OpaqueFade() else prior
  }

  /** `ifdiv(view, TILE_SIZE).saturating_sub(MAX_LIGHT_DISTANCE)`: the
      window starts `MAX_LIGHT_DISTANCE` tiles before the tile under the
      view's edge, or at tile 0 (src/game/lighting/gen_fade_map.rs:17-18). */
  function Origin(cfg: LightConfig, view: nat): (r: nat)
    requires cfg.Valid()
    ensures r * TILE_SIZE <= view
    ensures r == 0 || (r + cfg.MaxLightDistance()) * TILE_SIZE <= view < (r + cfg.MaxLightDistance() + 1) * TILE_SIZE
    ensures r == 0 ==> view < (cfg.MaxLightDistance() + 1) * TILE_SIZE
  {
    var t := IFDiv(view, TILE_SIZE);
    if t > cfg.MaxLightDistance() then t - cfg.MaxLightDistance() else 0
  }

  /** A `w` by `h` light window whose cell `(0, 0)` is world tile `(ox, oy)`. */
  datatype Window = Window(ox: nat, oy: nat, w: nat, h: nat) {

    /** Light-map index `x + y * w - m`, `m = ox + oy * w`, of world tile
        `(x, y)` (src/game/lighting/gen_fade_map.rs:23, 31). */
    function Index(x: nat, y: nat): nat
      requires ox <= x && oy <= y
    {
      Position(x - ox, y - oy, w)
    }

    /** Cell `(i, j)` is off the one-cell border. */
    predicate Interior(i: nat, j: nat)
    {
      1 <= i && i + 1 < w && 1 <= j && j + 1 < h
    }

    /** `x + w - 1` and `y + h - 1` do not underflow. */
    predicate Walkable()
    {
      ox + w >= 1 && oy + h >= 1
    }

    /** The world columns `[ox + 1, ox + w - 1)` and rows `[oy + 1, oy + h - 1)`
        of the interior (src/game/lighting/gen_fade_map.rs:27-28). */
    function Columns(): Range
      requires Walkable()
    {
      Range(ox + 1, ox + w - 1)
    }

    function Rows(): Range
      requires Walkable()
    {
      Range(oy + 1, oy + h - 1)
    }

    /** The interior walk over a `tw` by `th` tile grid
        (src/game/lighting/gen_fade_map.rs:24-29). */
    function Walk(tw: nat, th: nat): seq<Visit>
      requires tw > 0 && th > 0 && Walkable()
    {
      Traverse(tw, th, Columns(), Rows())
    }
  }

  /** What the closure sees of one call: the light-map cell it writes
      (`light_index`) and the tile cell it reads (`tile_index`). */
  datatype Call = Call(cell: nat, tile: nat)

  /** The calls of the interior walk. */
  function Calls(win: Window, tw: nat, th: nat): (r: seq<Call>)
    requires tw > 0 && th > 0 && win.Walkable()
    ensures |r| == |win.Walk(tw, th)|
    ensures forall k :: 0 <= k < |r| ==>
      && win.ox < win.Walk(tw, th)[k].wx && win.oy < win.Walk(tw, th)[k].wy
      && r[k] == Call(win.Index(win.Walk(tw, th)[k].wx, win.Walk(tw, th)[k].wy), win.Walk(tw, th)[k].index)
  {
    var t := win.Walk(tw, th);
    TraverseInside(tw, th, win.Columns(), win.Rows(), win.Columns().Len(), win.Rows().Len());
    seq(|t|, k requires 0 <= k < |t| => Call(win.Index(t[k].wx, t[k].wy), t[k].index))
  }

  /** Every call writes one of `n` map cells and reads one of `tiles` tile cells. */
  predicate Fits(calls: seq<Call>, n: nat, tiles: nat)
  {
    forall k :: 0 <= k < |calls| ==> calls[k].cell < n && calls[k].tile < tiles
  }

  /** No call writes cell `p`. */
  predicate Misses(calls: seq<Call>, p: nat)
  {
    forall k :: 0 <= k < |calls| ==> calls[k].cell != p
  }

  /** The light map, fade map and source list as the walk builds them. */
  datatype Walked = Walked(light: seq<u8>, fade: seq<u8>, sources: seq<nat>)

  /** The class of the tile pair a call reads. */
  function ClassOf(fgc: seq<Tile>, bgc: seq<Tile>, c: Call): Class
    requires c.tile < |fgc| && c.tile < |bgc|
  {
    Classify(fgc[c.tile], bgc[c.tile])
  }

  /** The closure of the seeding walk applied to every call in order. Sky
      sets brightness `MAX_BRIGHTNESS` and is pushed as a source; every
      class writes its fade according to `policy`
      (src/game/lighting/gen_fade_map.rs:29-49). */
  function SeedWalk(cfg: LightConfig, policy: FadePolicy, fgc: seq<Tile>, bgc: seq<Tile>,
                    light: seq<u8>, fade: seq<u8>, calls: seq<Call>): (r: Walked)
    requires cfg.Valid() && |fade| == |light| && |bgc| == |fgc| && Fits(calls, |light|, |fgc|)
    ensures |r.light| == |light| && |r.fade| == |light|
    decreases |calls|
  {
    if |calls| == 0 then Walked(light, fade, [])
    else
      var init, c := calls[..|calls| - 1], calls[|calls| - 1];
      assert forall k :: 0 <= k < |init| ==> init[k] == calls[k];
      var prev := SeedWalk(cfg, policy, fgc, bgc, light, fade, init);
      var kind := ClassOf(fgc, bgc, c);
      Walked(
        if kind == Sky then prev.light[c.cell := cfg.maxBrightness] else prev.light,
        prev.fade[c.cell := NewFade(cfg, policy, kind, prev.fade[c.cell])],
        if kind == Sky then prev.sources + [c.cell] else prev.sources)
  }

  /** A cell no call writes keeps its light and fade. */
  lemma {:induction false} SeedWalkOutside(cfg: LightConfig, policy: FadePolicy, fgc: seq<Tile>, bgc: seq<Tile>,
                                           light: seq<u8>, fade: seq<u8>, calls: seq<Call>, p: nat)
    requires cfg.Valid() && |fade| == |light| && |bgc| == |fgc| && Fits(calls, |light|, |fgc|)
    requires p < |light| && Misses(calls, p)
    ensures SeedWalk(cfg, policy, fgc, bgc, light, fade, calls).light[p] == light[p]
    ensures SeedWalk(cfg, policy, fgc, bgc, light, fade, calls).fade[p] == fade[p]
    decreases |calls|
  {
    if |calls| > 0 {
      var init := calls[..|calls| - 1];
      assert forall k :: 0 <= k < |init| ==> init[k] == calls[k];
      SeedWalkOutside(cfg, policy, fgc, bgc, light, fade, init, p);
    }
  }

  /** The one call that writes a cell decides it, from the cell's initial
      light and fade. */
  lemma {:induction false} SeedWalkAt(cfg: LightConfig, policy: FadePolicy, fgc: seq<Tile>, bgc: seq<Tile>,
                                      light: seq<u8>, fade: seq<u8>, calls: seq<Call>, m: nat)
    requires cfg.Valid() && |fade| == |light| && |bgc| == |fgc| && Fits(calls, |light|, |fgc|)
    requires m < |calls| && forall k :: 0 <= k < |calls| && k != m ==> calls[k].cell != calls[m].cell
    ensures var r, p, c := SeedWalk(cfg, policy, fgc, bgc, light, fade, calls), calls[m].cell, ClassOf(fgc, bgc, calls[m]);
      && r.light[p] == (if c == Sky then cfg.maxBrightness else light[p])
      && r.fade[p] == NewFade(cfg, policy, c, fade[p])
    decreases |calls|
  {
    var init := calls[..|calls| - 1];
    assert forall k :: 0 <= k < |init| ==> init[k] == calls[k];
    if m == |calls| - 1 {
      SeedWalkOutside(cfg, policy, fgc, bgc, light, fade, init, calls[m].cell);
    } else {
      SeedWalkAt(cfg, policy, fgc, bgc, light, fade, init, m);
    }
  }

  /** `sources` lists exactly the cells of the sky calls. */
  predicate SkyCallsAre(fgc: seq<Tile>, bgc: seq<Tile>, calls: seq<Call>, sources: seq<nat>)
  {
    SourcesFromSkyCalls(fgc, bgc, calls, sources) && SkyCallsIn(fgc, bgc, calls, sources)
  }

  /** Call `c` reads a tile of both layers, and that tile is sky. */
  predicate IsSkyCall(fgc: seq<Tile>, bgc: seq<Tile>, c: Call)
  {
    c.tile < |fgc| && c.tile < |bgc| && ClassOf(fgc, bgc, c) == Sky
  }

  /** Some sky call in `calls` writes cell `p`. */
  predicate FromSkyCall(fgc: seq<Tile>, bgc: seq<Tile>, calls: seq<Call>, p: nat)
  {
    exists m :: 0 <= m < |calls| && IsSkyCall(fgc, bgc, calls[m]) && calls[m].cell == p
  }

  /** Every entry of `sources` is the cell of a sky call. */
  predicate SourcesFromSkyCalls(fgc: seq<Tile>, bgc: seq<Tile>, calls: seq<Call>, sources: seq<nat>)
  {
    forall k :: 0 <= k < |sources| ==> FromSkyCall(fgc, bgc, calls, sources[k])
  }

  /** The sky call behind entry `k` of `sources`. */
  lemma SourceCall(fgc: seq<Tile>, bgc: seq<Tile>, calls: seq<Call>, sources: seq<nat>, k: nat) returns (m: nat)
    requires SourcesFromSkyCalls(fgc, bgc, calls, sources) && k < |sources|
    ensures m < |calls| && IsSkyCall(fgc, bgc, calls[m]) && calls[m].cell == sources[k]
  {
    assert FromSkyCall(fgc, bgc, calls, sources[k]);
    var i :| 0 <= i < |calls| && IsSkyCall(fgc, bgc, calls[i]) && calls[i].cell == sources[k];
    m := i;
  }

  /** Every sky call's cell is in `sources`. */
  predicate SkyCallsIn(fgc: seq<Tile>, bgc: seq<Tile>, calls: seq<Call>, sources: seq<nat>)
  {
    forall m :: 0 <= m < |calls| && IsSkyCall(fgc, bgc, calls[m]) ==> calls[m].cell in sources
  }

  /** Strictly increasing, hence without repeats. */
  predicate Increasing(s: seq<nat>)
  {
    forall a, b :: 0 <= a < b < |s| ==> s[a] < s[b]
  }

  /** The sources are exactly the cells of the sky calls. */
  lemma {:induction false} SeedWalkSources(cfg: LightConfig, policy: FadePolicy, fgc: seq<Tile>, bgc: seq<Tile>,
                                           light: seq<u8>, fade: seq<u8>, calls: seq<Call>)
    requires cfg.Valid() && |fade| == |light| && |bgc| == |fgc| && Fits(calls, |light|, |fgc|)
    ensures SkyCallsAre(fgc, bgc, calls, SeedWalk(cfg, policy, fgc, bgc, light, fade, calls).sources)
    decreases |calls|
  {
    if |calls| > 0 {
      var init := calls[..|calls| - 1];
      assert forall k :: 0 <= k < |init| ==> init[k] == calls[k];
      SeedWalkSources(cfg, policy, fgc, bgc, light, fade, init);
      var r := SeedWalk(cfg, policy, fgc, bgc, light, fade, calls);
      var prev := SeedWalk(cfg, policy, fgc, bgc, light, fade, init);
      var last := calls[|calls| - 1];
      var sky := ClassOf(fgc, bgc, last) == Sky;
      assert r.sources == if sky then prev.sources + [last.cell] else prev.sources;
      assert SourcesFromSkyCalls(fgc, bgc, init, prev.sources);
      forall k | 0 <= k < |r.sources|
        ensures FromSkyCall(fgc, bgc, calls, r.sources[k])
      {
        if k < |prev.sources| {
          assert r.sources[k] == prev.sources[k];
          var m := SourceCall(fgc, bgc, init, prev.sources, k);
          assert calls[m] == init[m];
        } else {
          assert sky && r.sources[k] == last.cell;
          assert calls[|calls| - 1].cell == r.sources[k] && IsSkyCall(fgc, bgc, calls[|calls| - 1]);
        }
      }
      assert SourcesFromSkyCalls(fgc, bgc, calls, r.sources);
      assert SkyCallsIn(fgc, bgc, init, prev.sources);
      forall m | 0 <= m < |calls| && IsSkyCall(fgc, bgc, calls[m])
        ensures calls[m].cell in r.sources
      {
        if m < |init| {
          assert init[m] == calls[m] && IsSkyCall(fgc, bgc, init[m]);
          assert init[m].cell in prev.sources;
          var k :| 0 <= k < |prev.sources| && prev.sources[k] == init[m].cell;
          assert r.sources[k] == prev.sources[k];
        } else {
          assert m == |calls| - 1 && sky;
        }
      }
      assert SkyCallsIn(fgc, bgc, calls, r.sources);
      assert SkyCallsAre(fgc, bgc, calls, r.sources);
    }
  }

  /** When the calls' cells strictly increase, so do the sources. */
  lemma {:induction false} SeedWalkSourcesIncrease(cfg: LightConfig, policy: FadePolicy, fgc: seq<Tile>, bgc: seq<Tile>,
                                                   light: seq<u8>, fade: seq<u8>, calls: seq<Call>)
    requires cfg.Valid() && |fade| == |light| && |bgc| == |fgc| && Fits(calls, |light|, |fgc|)
    requires forall k1, k2 :: 0 <= k1 < k2 < |calls| ==> calls[k1].cell < calls[k2].cell
    ensures Increasing(SeedWalk(cfg, policy, fgc, bgc, light, fade, calls).sources)
    decreases |calls|
  {
    if |calls| > 0 {
      var init := calls[..|calls| - 1];
      assert forall k :: 0 <= k < |init| ==> init[k] == calls[k];
      SeedWalkSourcesIncrease(cfg, policy, fgc, bgc, light, fade, init);
      SeedWalkSources(cfg, policy, fgc, bgc, light, fade, init);
      var prev := SeedWalk(cfg, policy, fgc, bgc, light, fade, init);
      assert SourcesFromSkyCalls(fgc, bgc, init, prev.sources);
      forall k | 0 <= k < |prev.sources|
        ensures prev.sources[k] < calls[|calls| - 1].cell
      {
        var m := SourceCall(fgc, bgc, init, prev.sources, k);
        assert calls[m].cell < calls[|calls| - 1].cell;
      }
    }
  }

  // ---------------------------------------------------------------------
  // The interior walk and the window's cells.

  /** Cell `(i, j)` of a row-major map `w` wide is recovered from its index. */
  lemma IndexInjective(w: nat, i1: nat, j1: nat, i2: nat, j2: nat)
    requires i1 < w && i2 < w && Position(i1, j1, w) == Position(i2, j2, w)
    ensures i1 == i2 && j1 == j2
  {
    DivModUnique(Position(i1, j1, w), w, j1, i1);
    DivModUnique(Position(i2, j2, w), w, j2, i2);
  }

  /** Every call of the interior walk is for an interior cell of the window. */
  lemma WalkInterior(win: Window, tw: nat, th: nat)
    requires tw > 0 && th > 0 && win.Walkable()
    ensures forall k :: 0 <= k < |win.Walk(tw, th)| ==>
      && win.ox < win.Walk(tw, th)[k].wx && win.oy < win.Walk(tw, th)[k].wy
      && win.Interior(win.Walk(tw, th)[k].wx - win.ox, win.Walk(tw, th)[k].wy - win.oy)
  {
    TraverseInside(tw, th, win.Columns(), win.Rows(), win.Columns().Len(), win.Rows().Len());
  }

  /** Call `k` reads the storage index of the tile visited at step `k`. */
  predicate ReadsWalk(win: Window, tw: nat, th: nat)
    requires tw > 0 && th > 0 && win.Walkable()
  {
    var t, c := win.Walk(tw, th), Calls(win, tw, th);
    forall k :: 0 <= k < |c| ==> c[k].tile == StorageIndex(tw, th, t[k].wx, t[k].wy)
  }

  /** The calls write inside the map and read inside the tile grid, at the
      storage index of the world tile they are for. */
  lemma CallsFit(win: Window, tw: nat, th: nat)
    requires tw > 0 && th > 0 && win.Walkable()
    ensures Fits(Calls(win, tw, th), win.w * win.h, tw * th) && ReadsWalk(win, tw, th)
  {
    var t, c := win.Walk(tw, th), Calls(win, tw, th);
    WalkInterior(win, tw, th);
    TraverseIndices(tw, th, win.Columns(), win.Rows(), win.Columns().Len(), win.Rows().Len());
    forall k | 0 <= k < |c|
      ensures c[k].cell < win.w * win.h && c[k].tile < tw * th
    {
      RowMajorPosition(t[k].wx - win.ox, t[k].wy - win.oy, win.w, win.h);
      StorageIndexBound(tw, th, t[k].wx, t[k].wy);
    }
  }

  /** The interior walk writes cells in strictly increasing map order. */
  lemma CallsIncrease(win: Window, tw: nat, th: nat)
    requires tw > 0 && th > 0 && win.Walkable()
    ensures forall k1, k2 :: 0 <= k1 < k2 < |Calls(win, tw, th)| ==>
      Calls(win, tw, th)[k1].cell < Calls(win, tw, th)[k2].cell
  {
    var t, c := win.Walk(tw, th), Calls(win, tw, th);
    WalkInterior(win, tw, th);
    TraverseRowMajor(tw, th, win.Columns(), win.Rows());
    forall k1, k2 | 0 <= k1 < k2 < |c|
      ensures c[k1].cell < c[k2].cell
    {
      CellOrder(win.w, t[k1].wx - win.ox, t[k1].wy - win.oy, t[k2].wx - win.ox, t[k2].wy - win.oy);
    }
  }

  /** Row-major order of cells is the order of their indices. */
  lemma CellOrder(w: nat, i1: nat, j1: nat, i2: nat, j2: nat)
    requires i1 < w && i2 < w && (j1 < j2 || (j1 == j2 && i1 < i2))
    ensures Position(i1, j1, w) < Position(i2, j2, w)
  {
    if j1 < j2 {
      MulMono(j1 + 1, j2, w);
      assert (j1 + 1) * w == j1 * w + w;
    }
  }

  /** Interior cell `(i, j)` is written by call `(j - 1) * (w - 2) + (i - 1)`. */
  lemma CallsCover(win: Window, tw: nat, th: nat, i: nat, j: nat)
    requires tw > 0 && th > 0 && win.Walkable() && win.Interior(i, j)
    ensures Position(i - 1, j - 1, win.w - 2) < |Calls(win, tw, th)|
    ensures Calls(win, tw, th)[Position(i - 1, j - 1, win.w - 2)]
      == Call(Position(i, j, win.w), StorageIndex(tw, th, win.ox + i, win.oy + j))
  {
    assert win.Columns().Len() == win.w - 2;
    TraverseCovers(tw, th, win.Columns(), win.Rows(), win.ox + i, win.oy + j);
  }

  /** The call that writes interior cell `(i, j)`. */
  lemma CallOf(win: Window, tw: nat, th: nat, i: nat, j: nat) returns (m: nat)
    requires tw > 0 && th > 0 && win.Walkable() && win.Interior(i, j)
    ensures m < |Calls(win, tw, th)|
    ensures Calls(win, tw, th)[m] == Call(Position(i, j, win.w), StorageIndex(tw, th, win.ox + i, win.oy + j))
  {
    CallsCover(win, tw, th, i, j);
    m := Position(i - 1, j - 1, win.w - 2);
  }

  /** Call `m` is for interior cell `(i, j)` of the window. */
  lemma CallAt(win: Window, tw: nat, th: nat, m: nat) returns (i: nat, j: nat)
    requires tw > 0 && th > 0 && win.Walkable() && m < |Calls(win, tw, th)|
    ensures win.Interior(i, j)
    ensures Calls(win, tw, th)[m] == Call(Position(i, j, win.w), StorageIndex(tw, th, win.ox + i, win.oy + j))
  {
    var t := win.Walk(tw, th);
    WalkInterior(win, tw, th);
    CallsFit(win, tw, th);
    i, j := t[m].wx - win.ox, t[m].wy - win.oy;
  }

  /** No call writes a border cell. */
  lemma CallsMissBorder(win: Window, tw: nat, th: nat, i: nat, j: nat)
    requires tw > 0 && th > 0 && win.Walkable() && i < win.w && !win.Interior(i, j)
    ensures Misses(Calls(win, tw, th), Position(i, j, win.w))
  {
    var t, c := win.Walk(tw, th), Calls(win, tw, th);
    WalkInterior(win, tw, th);
    forall k | 0 <= k < |c|
      ensures c[k].cell != Position(i, j, win.w)
    {
      if c[k].cell == Position(i, j, win.w) {
        IndexInjective(win.w, t[k].wx - win.ox, t[k].wy - win.oy, i, j);
        assert false;
      }
    }
  }

  // ---------------------------------------------------------------------
  // The seeding pass on grids.

  /** The class of world tile `(x, y)`: the tiles at its wrapped storage
      index in both layers. */
  ghost function ClassAt(fg: FastArray2D<Tile>, bg: FastArray2D<Tile>, x: nat, y: nat): Class
    requires SameLayers(fg, bg)
  {
    StorageIndexBound(fg.Width(), fg.Height(), x, y);
    Classify(fg.data[StorageIndex(fg.Width(), fg.Height(), x, y)], bg.data[StorageIndex(fg.Width(), fg.Height(), x, y)])
  }

  /** That is the pair `get_wrapping(x, y)` returns on both layers. */
  lemma ClassAtWrapping(fg: FastArray2D<Tile>, bg: FastArray2D<Tile>, x: nat, y: nat)
    requires SameLayers(fg, bg)
    ensures ClassAt(fg, bg, x, y) == Classify(fg.GetWrapping(x, y), bg.GetWrapping(x, y))
  {
  }

  /** Interior cell `(i, j)` of the window shows open sky. */
  ghost predicate SkyCell(win: Window, fg: FastArray2D<Tile>, bg: FastArray2D<Tile>, i: nat, j: nat)
    requires SameLayers(fg, bg)
  {
    win.Interior(i, j) && ClassAt(fg, bg, win.ox + i, win.oy + j) == Sky
  }

  /** Both tile layers are valid grids of the same size. */
  ghost predicate SameLayers(fg: FastArray2D<Tile>, bg: FastArray2D<Tile>)
  {
    fg.Valid() && bg.Valid() && fg.xMask == bg.xMask && fg.yMask == bg.yMask
  }

  /** The maps are valid and have the window's size. */
  predicate MapsFit(win: Window, light: Array2D<u8>, fade: Array2D<u8>)
  {
    && light.Valid() && fade.Valid()
    && light.width == win.w && light.height == win.h
    && fade.width == win.w && fade.height == win.h
  }

  /** The seeded light map, fade map and light sources. */
  datatype Seeded = Seeded(light: Array2D<u8>, fade: Array2D<u8>, sources: seq<nat>)

  /** What seeding promises, cell by cell: interior sky cells get full
      brightness, interior cells get the fade of their class, border cells
      keep both values; the sources are the interior sky cells, in
      increasing order and each once. */
  ghost predicate SeedSpec(cfg: LightConfig, policy: FadePolicy, win: Window, fg: FastArray2D<Tile>, bg: FastArray2D<Tile>,
                           light: Array2D<u8>, fade: Array2D<u8>, r: Seeded)
    requires cfg.Valid() && SameLayers(fg, bg) && MapsFit(win, light, fade)
  {
    && MapsFit(win, r.light, r.fade)
    && LightSeeded(cfg, win, fg, bg, light, r.light)
    && FadeSeeded(cfg, policy, win, fg, bg, fade, r.fade)
    && Increasing(r.sources)
    && SourcesSound(win, fg, bg, r.sources)
    && SourcesComplete(win, fg, bg, r.sources)
  }

  /** `out` is `light` with every interior sky cell at full brightness. */
  ghost predicate LightSeeded(cfg: LightConfig, win: Window, fg: FastArray2D<Tile>, bg: FastArray2D<Tile>,
                              light: Array2D<u8>, out: Array2D<u8>)
    requires SameLayers(fg, bg) && MapsFit(win, light, light) && MapsFit(win, out, out)
  {
    forall i: nat, j: nat :: i < win.w && j < win.h ==>
      out.Cell(i, j) == (if SkyCell(win, fg, bg, i, j) then cfg.maxBrightness else light.Cell(i, j))
  }

  /** `out` is `fade` with every interior cell given the fade of its class. */
  ghost predicate FadeSeeded(cfg: LightConfig, policy: FadePolicy, win: Window, fg: FastArray2D<Tile>, bg: FastArray2D<Tile>,
                             fade: Array2D<u8>, out: Array2D<u8>)
    requires cfg.Valid() && SameLayers(fg, bg) && MapsFit(win, fade, fade) && MapsFit(win, out, out)
  {
    forall i: nat, j: nat :: i < win.w && j < win.h ==>
      out.Cell(i, j)
        == (if win.Interior(i, j) then NewFade(cfg, policy, ClassAt(fg, bg, win.ox + i, win.oy + j), fade.Cell(i, j))
            else fade.Cell(i, j))
  }

  /** Every source is the position of an interior sky cell. */
  ghost predicate SourcesSound(win: Window, fg: FastArray2D<Tile>, bg: FastArray2D<Tile>, sources: seq<nat>)
    requires SameLayers(fg, bg)
  {
    forall k :: 0 <= k < |sources| ==> SkySource(win, fg, bg, sources[k])
  }

  /** Map cell `p` is the position of an interior sky cell. */
  ghost predicate SkySource(win: Window, fg: FastArray2D<Tile>, bg: FastArray2D<Tile>, p: nat)
    requires SameLayers(fg, bg)
  {
    exists i: nat, j: nat :: SkyCell(win, fg, bg, i, j) && p == Position(i, j, win.w)
  }

  /** Every interior sky cell is a source. */
  ghost predicate SourcesComplete(win: Window, fg: FastArray2D<Tile>, bg: FastArray2D<Tile>, sources: seq<nat>)
    requires SameLayers(fg, bg)
  {
    forall i: nat, j: nat :: SkyCell(win, fg, bg, i, j) ==> Position(i, j, win.w) in sources
  }

  /** The seeding walk over the window's interior, as every revision runs it. */
  function SeedRegion(cfg: LightConfig, policy: FadePolicy, win: Window, fg: FastArray2D<Tile>, bg: FastArray2D<Tile>,
                      light: Array2D<u8>, fade: Array2D<u8>): (r: Seeded)
    requires cfg.Valid() && win.Walkable() && SameLayers(fg, bg) && MapsFit(win, light, fade)
    ensures SeedSpec(cfg, policy, win, fg, bg, light, fade, r)
  {
    var s := SeedCalls(cfg, policy, win, fg, bg, light, fade);
    SeedRegionLight(cfg, policy, win, fg, bg, light, fade);
    SeedRegionFade(cfg, policy, win, fg, bg, light, fade);
    SeedRegionSources(cfg, policy, win, fg, bg, light, fade);
    Seeded(Array2D(win.w, win.h, s.light), Array2D(win.w, win.h, s.fade), s.sources)
  }

  /** The walk over the window's interior, on the grids' stores. */
  function SeedCalls(cfg: LightConfig, policy: FadePolicy, win: Window, fg: FastArray2D<Tile>, bg: FastArray2D<Tile>,
                     light: Array2D<u8>, fade: Array2D<u8>): (r: Walked)
    requires cfg.Valid() && win.Walkable() && SameLayers(fg, bg) && MapsFit(win, light, fade)
    ensures |r.light| == win.w * win.h && |r.fade| == win.w * win.h
  {
    CallsFit(win, fg.Width(), fg.Height());
    SeedWalk(cfg, policy, fg.data, bg.data, light.data, fade.data, Calls(win, fg.Width(), fg.Height()))
  }

  /** A call that reads the storage index of world tile `(x, y)` sees that
      tile's class. */
  lemma ClassOfCall(fg: FastArray2D<Tile>, bg: FastArray2D<Tile>, c: Call, x: nat, y: nat)
    requires SameLayers(fg, bg)
    requires c.tile == StorageIndex(fg.Width(), fg.Height(), x, y)
    ensures c.tile < |fg.data| && c.tile < |bg.data|
    ensures ClassOf(fg.data, bg.data, c) == ClassAt(fg, bg, x, y)
  {
    StorageIndexBound(fg.Width(), fg.Height(), x, y);
  }

  lemma SeedRegionLight(cfg: LightConfig, policy: FadePolicy, win: Window, fg: FastArray2D<Tile>, bg: FastArray2D<Tile>,
                        light: Array2D<u8>, fade: Array2D<u8>)
    requires cfg.Valid() && win.Walkable() && SameLayers(fg, bg) && MapsFit(win, light, fade)
    ensures MapsFit(win, Array2D(win.w, win.h, SeedCalls(cfg, policy, win, fg, bg, light, fade).light),
                         Array2D(win.w, win.h, SeedCalls(cfg, policy, win, fg, bg, light, fade).light))
    ensures LightSeeded(cfg, win, fg, bg, light, Array2D(win.w, win.h, SeedCalls(cfg, policy, win, fg, bg, light, fade).light))
  {
    var out := Array2D(win.w, win.h, SeedCalls(cfg, policy, win, fg, bg, light, fade).light);
    forall i: nat, j: nat | i < win.w && j < win.h
      ensures out.Cell(i, j) == (if SkyCell(win, fg, bg, i, j) then cfg.maxBrightness else light.Cell(i, j))
    {
      SeedCell(cfg, policy, win, fg, bg, light, fade, i, j);
    }
  }

  lemma SeedRegionFade(cfg: LightConfig, policy: FadePolicy, win: Window, fg: FastArray2D<Tile>, bg: FastArray2D<Tile>,
                       light: Array2D<u8>, fade: Array2D<u8>)
    requires cfg.Valid() && win.Walkable() && SameLayers(fg, bg) && MapsFit(win, light, fade)
    ensures MapsFit(win, Array2D(win.w, win.h, SeedCalls(cfg, policy, win, fg, bg, light, fade).fade),
                         Array2D(win.w, win.h, SeedCalls(cfg, policy, win, fg, bg, light, fade).fade))
    ensures FadeSeeded(cfg, policy, win, fg, bg, fade, Array2D(win.w, win.h, SeedCalls(cfg, policy, win, fg, bg, light, fade).fade))
  {
    var out := Array2D(win.w, win.h, SeedCalls(cfg, policy, win, fg, bg, light, fade).fade);
    forall i: nat, j: nat | i < win.w && j < win.h
      ensures out.Cell(i, j)
        == (if win.Interior(i, j) then NewFade(cfg, policy, ClassAt(fg, bg, win.ox + i, win.oy + j), fade.Cell(i, j))
            else fade.Cell(i, j))
    {
      SeedCell(cfg, policy, win, fg, bg, light, fade, i, j);
    }
  }

  /** One cell of the seeded maps. */
  lemma SeedCell(cfg: LightConfig, policy: FadePolicy, win: Window, fg: FastArray2D<Tile>, bg: FastArray2D<Tile>,
                 light: Array2D<u8>, fade: Array2D<u8>, i: nat, j: nat)
    requires cfg.Valid() && win.Walkable() && SameLayers(fg, bg) && MapsFit(win, light, fade)
    requires i < win.w && j < win.h
    ensures var s := SeedCalls(cfg, policy, win, fg, bg, light, fade);
      && Position(i, j, win.w) < |light.data|
      && s.light[Position(i, j, win.w)]
           == (if SkyCell(win, fg, bg, i, j) then cfg.maxBrightness else light.Cell(i, j))
      && s.fade[Position(i, j, win.w)]
           == (if win.Interior(i, j) then NewFade(cfg, policy, ClassAt(fg, bg, win.ox + i, win.oy + j), fade.Cell(i, j))
               else fade.Cell(i, j))
  {
    RowMajorPosition(i, j, win.w, win.h);
    if win.Interior(i, j) {
      SeedCellInterior(cfg, policy, win, fg, bg, light, fade, i, j);
    } else {
      SeedCellBorder(cfg, policy, win, fg, bg, light, fade, i, j);
    }
  }

  lemma SeedCellInterior(cfg: LightConfig, policy: FadePolicy, win: Window, fg: FastArray2D<Tile>, bg: FastArray2D<Tile>,
                         light: Array2D<u8>, fade: Array2D<u8>, i: nat, j: nat)
    requires cfg.Valid() && win.Walkable() && SameLayers(fg, bg) && MapsFit(win, light, fade)
    requires win.Interior(i, j) && Position(i, j, win.w) < win.w * win.h
    ensures SeedCalls(cfg, policy, win, fg, bg, light, fade).light[Position(i, j, win.w)]
      == (if SkyCell(win, fg, bg, i, j) then cfg.maxBrightness else light.Cell(i, j))
    ensures SeedCalls(cfg, policy, win, fg, bg, light, fade).fade[Position(i, j, win.w)]
      == NewFade(cfg, policy, ClassAt(fg, bg, win.ox + i, win.oy + j), fade.Cell(i, j))
  {
    var c := InteriorCall(cfg, policy, win, fg, bg, light, fade, i, j);
    ClassOfCall(fg, bg, c, win.ox + i, win.oy + j);
    CellOfCall(cfg, policy, win, fg, bg, light, fade, SeedCalls(cfg, policy, win, fg, bg, light, fade), c, i, j);
  }

  /** The call of the interior walk that writes interior cell `(i, j)`,
      and what it writes there. */
  lemma InteriorCall(cfg: LightConfig, policy: FadePolicy, win: Window, fg: FastArray2D<Tile>, bg: FastArray2D<Tile>,
                     light: Array2D<u8>, fade: Array2D<u8>, i: nat, j: nat) returns (c: Call)
    requires cfg.Valid() && win.Walkable() && SameLayers(fg, bg) && MapsFit(win, light, fade)
    requires win.Interior(i, j)
    ensures c.cell == Position(i, j, win.w) && c.cell < |light.data| && c.cell < |fade.data|
    ensures c.tile == StorageIndex(fg.Width(), fg.Height(), win.ox + i, win.oy + j)
    ensures c.tile < |fg.data| && c.tile < |bg.data|
    ensures SeedCalls(cfg, policy, win, fg, bg, light, fade).light[c.cell]
      == (if ClassOf(fg.data, bg.data, c) == Sky then cfg.maxBrightness else light.data[c.cell])
    ensures SeedCalls(cfg, policy, win, fg, bg, light, fade).fade[c.cell]
      == NewFade(cfg, policy, ClassOf(fg.data, bg.data, c), fade.data[c.cell])
  {
    var m := CallOf(win, fg.Width(), fg.Height(), i, j);
    c := Calls(win, fg.Width(), fg.Height())[m];
    SeedCallsAt(cfg, policy, win, fg, bg, light, fade, m);
  }

  /** Restates what call `c` wrote in terms of the window cell `(i, j)` it
      writes and the world tile it reads. */
  lemma CellOfCall(cfg: LightConfig, policy: FadePolicy, win: Window, fg: FastArray2D<Tile>, bg: FastArray2D<Tile>,
                   light: Array2D<u8>, fade: Array2D<u8>, s: Walked, c: Call, i: nat, j: nat)
    requires cfg.Valid() && SameLayers(fg, bg) && MapsFit(win, light, fade) && win.Interior(i, j)
    requires c.cell == Position(i, j, win.w)
    requires c.cell < |s.light| && c.cell < |s.fade| && c.cell < |light.data| && c.cell < |fade.data|
    requires c.tile < |fg.data| && c.tile < |bg.data|
    requires ClassOf(fg.data, bg.data, c) == ClassAt(fg, bg, win.ox + i, win.oy + j)
    requires s.light[c.cell] == (if ClassOf(fg.data, bg.data, c) == Sky then cfg.maxBrightness else light.data[c.cell])
    requires s.fade[c.cell] == NewFade(cfg, policy, ClassOf(fg.data, bg.data, c), fade.data[c.cell])
    ensures s.light[Position(i, j, win.w)] == (if SkyCell(win, fg, bg, i, j) then cfg.maxBrightness else light.Cell(i, j))
    ensures s.fade[Position(i, j, win.w)] == NewFade(cfg, policy, ClassAt(fg, bg, win.ox + i, win.oy + j), fade.Cell(i, j))
  {
  }

  /** Call `m` of the interior walk alone decides the cell it writes. */
  lemma SeedCallsAt(cfg: LightConfig, policy: FadePolicy, win: Window, fg: FastArray2D<Tile>, bg: FastArray2D<Tile>,
                    light: Array2D<u8>, fade: Array2D<u8>, m: nat)
    requires cfg.Valid() && win.Walkable() && SameLayers(fg, bg) && MapsFit(win, light, fade)
    requires m < |Calls(win, fg.Width(), fg.Height())|
    ensures var c := Calls(win, fg.Width(), fg.Height())[m];
      && c.cell < |light.data| && c.tile < |fg.data| && c.tile < |bg.data|
      && SeedCalls(cfg, policy, win, fg, bg, light, fade).light[c.cell]
           == (if ClassOf(fg.data, bg.data, c) == Sky then cfg.maxBrightness else light.data[c.cell])
      && SeedCalls(cfg, policy, win, fg, bg, light, fade).fade[c.cell]
           == NewFade(cfg, policy, ClassOf(fg.data, bg.data, c), fade.data[c.cell])
  {
    var calls := Calls(win, fg.Width(), fg.Height());
    CallsFit(win, fg.Width(), fg.Height());
    CallsIncrease(win, fg.Width(), fg.Height());
    CellsDistinct(calls, m);
    SeedWalkAt(cfg, policy, fg.data, bg.data, light.data, fade.data, calls, m);
  }

  /** In a walk whose cells increase, no other call writes call `m`'s cell. */
  lemma CellsDistinct(calls: seq<Call>, m: nat)
    requires m < |calls| && forall k1, k2 :: 0 <= k1 < k2 < |calls| ==> calls[k1].cell < calls[k2].cell
    ensures forall k :: 0 <= k < |calls| && k != m ==> calls[k].cell != calls[m].cell
  {
  }

  lemma SeedCellBorder(cfg: LightConfig, policy: FadePolicy, win: Window, fg: FastArray2D<Tile>, bg: FastArray2D<Tile>,
                       light: Array2D<u8>, fade: Array2D<u8>, i: nat, j: nat)
    requires cfg.Valid() && win.Walkable() && SameLayers(fg, bg) && MapsFit(win, light, fade)
    requires i < win.w && j < win.h && !win.Interior(i, j) && Position(i, j, win.w) < win.w * win.h
    ensures SeedCalls(cfg, policy, win, fg, bg, light, fade).light[Position(i, j, win.w)] == light.Cell(i, j)
    ensures SeedCalls(cfg, policy, win, fg, bg, light, fade).fade[Position(i, j, win.w)] == fade.Cell(i, j)
  {
    var tw, th := fg.Width(), fg.Height();
    CallsFit(win, tw, th);
    CallsMissBorder(win, tw, th, i, j);
    SeedWalkOutside(cfg, policy, fg.data, bg.data, light.data, fade.data, Calls(win, tw, th), Position(i, j, win.w));
  }

  lemma SeedRegionSources(cfg: LightConfig, policy: FadePolicy, win: Window, fg: FastArray2D<Tile>, bg: FastArray2D<Tile>,
                          light: Array2D<u8>, fade: Array2D<u8>)
    requires cfg.Valid() && win.Walkable() && SameLayers(fg, bg) && MapsFit(win, light, fade)
    ensures Increasing(SeedCalls(cfg, policy, win, fg, bg, light, fade).sources)
    ensures SourcesSound(win, fg, bg, SeedCalls(cfg, policy, win, fg, bg, light, fade).sources)
    ensures SourcesComplete(win, fg, bg, SeedCalls(cfg, policy, win, fg, bg, light, fade).sources)
  {
    var tw, th := fg.Width(), fg.Height();
    var c := Calls(win, tw, th);
    CallsFit(win, tw, th);
    CallsIncrease(win, tw, th);
    SeedWalkSourcesIncrease(cfg, policy, fg.data, bg.data, light.data, fade.data, c);
    SeedWalkSources(cfg, policy, fg.data, bg.data, light.data, fade.data, c);
    SourcesSoundFromCalls(win, fg, bg, SeedCalls(cfg, policy, win, fg, bg, light, fade).sources);
    SourcesCompleteFromCalls(win, fg, bg, SeedCalls(cfg, policy, win, fg, bg, light, fade).sources);
  }

  /** Sources that are exactly the cells of the sky calls are exactly the
      interior sky cells of the window. */
  lemma SourcesSoundFromCalls(win: Window, fg: FastArray2D<Tile>, bg: FastArray2D<Tile>, sources: seq<nat>)
    requires win.Walkable() && SameLayers(fg, bg)
    requires Fits(Calls(win, fg.Width(), fg.Height()), win.w * win.h, |fg.data|)
    requires SkyCallsAre(fg.data, bg.data, Calls(win, fg.Width(), fg.Height()), sources)
    ensures SourcesSound(win, fg, bg, sources)
  {
    SkyCallsAreSkyCells(win, fg, bg);
    SourcesSoundFrom(win, fg, bg, Calls(win, fg.Width(), fg.Height()), sources);
  }

  /** Every sky call in `calls` writes an interior sky cell. */
  ghost predicate SkyCallsWrite(win: Window, fg: FastArray2D<Tile>, bg: FastArray2D<Tile>, calls: seq<Call>)
    requires SameLayers(fg, bg)
  {
    forall m :: 0 <= m < |calls| && IsSkyCall(fg.data, bg.data, calls[m]) ==>
      SkySource(win, fg, bg, calls[m].cell)
  }

  lemma SourcesSoundFrom(win: Window, fg: FastArray2D<Tile>, bg: FastArray2D<Tile>, calls: seq<Call>, sources: seq<nat>)
    requires SameLayers(fg, bg) && Fits(calls, win.w * win.h, |fg.data|)
    requires SkyCallsAre(fg.data, bg.data, calls, sources) && SkyCallsWrite(win, fg, bg, calls)
    ensures SourcesSound(win, fg, bg, sources)
  {
    forall k | 0 <= k < |sources|
      ensures SkySource(win, fg, bg, sources[k])
    {
      var m := SourceCall(fg.data, bg.data, calls, sources, k);
    }
  }

  lemma SkyCallsAreSkyCells(win: Window, fg: FastArray2D<Tile>, bg: FastArray2D<Tile>)
    requires win.Walkable() && SameLayers(fg, bg)
    requires Fits(Calls(win, fg.Width(), fg.Height()), win.w * win.h, |fg.data|)
    ensures SkyCallsWrite(win, fg, bg, Calls(win, fg.Width(), fg.Height()))
  {
    var c := Calls(win, fg.Width(), fg.Height());
    forall m | 0 <= m < |c| && IsSkyCall(fg.data, bg.data, c[m])
      ensures SkySource(win, fg, bg, c[m].cell)
    {
      var i, j := SkyCallCell(win, fg, bg, c, m);
      assert SkyCell(win, fg, bg, i, j) && c[m].cell == Position(i, j, win.w);
    }
  }

  /** A sky call is for an interior sky cell. */
  lemma SkyCallCell(win: Window, fg: FastArray2D<Tile>, bg: FastArray2D<Tile>, c: seq<Call>, m: nat)
      returns (i: nat, j: nat)
    requires win.Walkable() && SameLayers(fg, bg) && c == Calls(win, fg.Width(), fg.Height())
    requires m < |c| && IsSkyCall(fg.data, bg.data, c[m])
    ensures SkyCell(win, fg, bg, i, j) && c[m].cell == Position(i, j, win.w)
  {
    i, j := CallAt(win, fg.Width(), fg.Height(), m);
    ClassOfCall(fg, bg, c[m], win.ox + i, win.oy + j);
  }

  lemma SourcesCompleteFromCalls(win: Window, fg: FastArray2D<Tile>, bg: FastArray2D<Tile>, sources: seq<nat>)
    requires win.Walkable() && SameLayers(fg, bg)
    requires Fits(Calls(win, fg.Width(), fg.Height()), win.w * win.h, |fg.data|)
    requires SkyCallsAre(fg.data, bg.data, Calls(win, fg.Width(), fg.Height()), sources)
    ensures SourcesComplete(win, fg, bg, sources)
  {
    assert SkyCallsIn(fg.data, bg.data, Calls(win, fg.Width(), fg.Height()), sources);
    forall i: nat, j: nat | SkyCell(win, fg, bg, i, j)
      ensures Position(i, j, win.w) in sources
    {
      SkyCellSourced(win, fg, bg, Calls(win, fg.Width(), fg.Height()), sources, i, j);
    }
  }

  /** The call for an interior sky cell is a sky call, so its cell is listed. */
  lemma SkyCellSourced(win: Window, fg: FastArray2D<Tile>, bg: FastArray2D<Tile>, c: seq<Call>, sources: seq<nat>,
                       i: nat, j: nat)
    requires win.Walkable() && SameLayers(fg, bg) && c == Calls(win, fg.Width(), fg.Height())
    requires Fits(c, win.w * win.h, |fg.data|) && SkyCallsIn(fg.data, bg.data, c, sources)
    requires SkyCell(win, fg, bg, i, j)
    ensures Position(i, j, win.w) in sources
  {
    var m := CallOf(win, fg.Width(), fg.Height(), i, j);
    ClassOfCall(fg, bg, c[m], win.ox + i, win.oy + j);
    assert IsSkyCall(fg.data, bg.data, c[m]) && c[m].cell == Position(i, j, win.w);
  }

  /** `gen_fade_map(view, fg, bg, fade_map, light_map)`: the window starts
      at the light origin of the view and covers the light map
      (src/game/lighting/gen_fade_map.rs:7-53). */
  function GenFadeMap(cfg: LightConfig, view: (nat, nat), fg: FastArray2D<Tile>, bg: FastArray2D<Tile>,
                      fade: Array2D<u8>, light: Array2D<u8>): (r: Seeded)
    requires cfg.Valid() && SameLayers(fg, bg)
    requires MapsFit(Window(0, 0, light.width, light.height), light, fade)
    requires Origin(cfg, view.0) + light.width >= 1 && Origin(cfg, view.1) + light.height >= 1
    ensures SeedSpec(cfg, WriteAll, Window(Origin(cfg, view.0), Origin(cfg, view.1), light.width, light.height),
                     fg, bg, light, fade, r)
  {
    var win := Window(Origin(cfg, view.0), Origin(cfg, view.1), light.width, light.height);
    SeedRegion(cfg, WriteAll, win, fg, bg, light, fade)
  }

  /** The three-channel `gen_fade_map` of src/game/lighting.rs:15-65. The
      channels do not interact, so each ends as the single-channel pass
      would leave it, and all share one fade map and one source list. */
  function GenFadeMapRgb(cfg: LightConfig, view: (nat, nat), fg: FastArray2D<Tile>, bg: FastArray2D<Tile>,
                         fade: Array2D<u8>, red: Array2D<u8>, green: Array2D<u8>, blue: Array2D<u8>)
    : (r: (Array2D<u8>, Array2D<u8>, Array2D<u8>, Array2D<u8>, seq<nat>))
    requires cfg.Valid() && SameLayers(fg, bg)
    requires MapsFit(Window(0, 0, red.width, red.height), red, fade)
    requires MapsFit(Window(0, 0, red.width, red.height), green, fade)
    requires MapsFit(Window(0, 0, red.width, red.height), blue, fade)
    requires Origin(cfg, view.0) + red.width >= 1 && Origin(cfg, view.1) + red.height >= 1
    ensures var win := Window(Origin(cfg, view.0), Origin(cfg, view.1), red.width, red.height);
      && SeedSpec(cfg, WriteAll, win, fg, bg, red, fade, Seeded(r.1, r.0, r.4))
      && SeedSpec(cfg, WriteAll, win, fg, bg, green, fade, Seeded(r.2, r.0, r.4))
      && SeedSpec(cfg, WriteAll, win, fg, bg, blue, fade, Seeded(r.3, r.0, r.4))
  {
    var win := Window(Origin(cfg, view.0), Origin(cfg, view.1), red.width, red.height);
    var sr := SeedRegion(cfg, WriteAll, win, fg, bg, red, fade);
    var sg := SeedRegion(cfg, WriteAll, win, fg, bg, green, fade);
    var sb := SeedRegion(cfg, WriteAll, win, fg, bg, blue, fade);
    SeedSharedParts(cfg, WriteAll, win, fg, bg, red, green, fade, sr, sg);
    SeedSharedParts(cfg, WriteAll, win, fg, bg, red, blue, fade, sr, sb);
    (sr.fade, sr.light, sg.light, sb.light, sr.sources)
  }

  /** The fade map and the source list do not depend on the light map the
      pass started from. */
  lemma SeedSharedParts(cfg: LightConfig, policy: FadePolicy, win: Window, fg: FastArray2D<Tile>, bg: FastArray2D<Tile>,
                        light1: Array2D<u8>, light2: Array2D<u8>, fade: Array2D<u8>, r1: Seeded, r2: Seeded)
    requires cfg.Valid() && SameLayers(fg, bg) && MapsFit(win, light1, fade) && MapsFit(win, light2, fade)
    requires SeedSpec(cfg, policy, win, fg, bg, light1, fade, r1)
    requires SeedSpec(cfg, policy, win, fg, bg, light2, fade, r2)
    ensures r1.fade == r2.fade && r1.sources == r2.sources
  {
    SameCells(r1.fade, r2.fade);
    forall x
      ensures x in r1.sources <==> x in r2.sources
    {
      if x in r1.sources {
        var k :| 0 <= k < |r1.sources| && r1.sources[k] == x;
        var i: nat, j: nat :| SkyCell(win, fg, bg, i, j) && x == Position(i, j, win.w);
      }
      if x in r2.sources {
        var k :| 0 <= k < |r2.sources| && r2.sources[k] == x;
        var i: nat, j: nat :| SkyCell(win, fg, bg, i, j) && x == Position(i, j, win.w);
      }
    }
    SortedSetsEqual(r1.sources, r2.sources);
  }

  /** Two valid grids of one size with the same cells are equal. */
  lemma SameCells<T>(a: Array2D<T>, b: Array2D<T>)
    requires a.Valid() && b.Valid() && a.width == b.width && a.height == b.height
    requires forall i: nat, j: nat :: i < a.width && j < a.height ==> a.Cell(i, j) == b.Cell(i, j)
    ensures a == b
  {
    forall k | 0 <= k < |a.data|
      ensures a.data[k] == b.data[k]
    {
      RowMajorBounds(k, a.width, a.height);
      RowMajorRecompose(k, a.width);
      assert a.Cell(k % a.width, k / a.width) == b.Cell(k % a.width, k / a.width);
    }
  }

  /** Two strictly increasing lists with the same elements are equal. */
  lemma {:induction false} SortedSetsEqual(a: seq<nat>, b: seq<nat>)
    requires Increasing(a) && Increasing(b)
    requires forall x :: x in a <==> x in b
    ensures a == b
    decreases |a| + |b|
  {
    if |a| > 0 && |b| > 0 {
      SortedHead(b, a[0]);
      SortedHead(a, b[0]);
      forall x
        ensures x in a[1..] <==> x in b[1..]
      {
        if x in a[1..] {
          var k :| 0 <= k < |a| - 1 && a[1..][k] == x;
          assert a[0] < a[k + 1] && a[k + 1] == x && x in a;
          var k' :| 0 <= k' < |b| && b[k'] == x;
          assert b[1..][k' - 1] == x;
        }
        if x in b[1..] {
          var k :| 0 <= k < |b| - 1 && b[1..][k] == x;
          assert b[0] < b[k + 1] && b[k + 1] == x && x in b;
          var k' :| 0 <= k' < |a| && a[k'] == x;
          assert a[1..][k' - 1] == x;
        }
      }
      SortedSetsEqual(a[1..], b[1..]);
      assert a == [a[0]] + a[1..] && b == [b[0]] + b[1..];
    } else if |a| > 0 {
      Member(a, 0);
      assert false;
    } else if |b| > 0 {
      Member(b, 0);
      assert false;
    }
  }

  lemma Member(s: seq<nat>, k: nat)
    requires k < |s|
    ensures s[k] in s
  {
  }

  /** The head of an increasing list is its least element. */
  lemma SortedHead(s: seq<nat>, x: nat)
    requires Increasing(s) && x in s
    ensures s[0] <= x
  {
    var k :| 0 <= k < |s| && s[k] == x;
    assert k == 0 || s[0] < s[k];
  }
}
