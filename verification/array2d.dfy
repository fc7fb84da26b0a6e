/** `Array2D` and `FastArray2D` of src/array2d.rs as immutable values.

    A grid stores its cells row-major in `data`; cell `(x, y)` lives at
    `x + y * width`. Every sub-rectangle operation is the walk of
    `Traversal` applied to the grid's own size, so a world coordinate that
    leaves the grid wraps around to the opposite edge. Operations that
    mutate in place in the source return the updated grid here. */
module Grids {
  import opened Arith
  import opened Ints
  import opened Wrappers
  import opened Traversal

  /** The only error of the grid API. */
  datatype Array2DErr = OutOfBounds

  /** The calls of a walk hit pairwise different storage cells. */
  predicate DistinctIndices(visits: seq<Visit>)
  {
    forall a, b :: 0 <= a < b < |visits| ==> visits[a].index != visits[b].index
  }

  /** Every call of a walk indexes into a store of `n` cells. */
  predicate IndicesBelow(visits: seq<Visit>, n: nat)
  {
    forall k :: 0 <= k < |visits| ==> visits[k].index < n
  }

  /** No call of the walk touches storage cell `k`. */
  predicate Untouched(visits: seq<Visit>, k: nat)
  {
    forall m :: 0 <= m < |visits| ==> visits[m].index != k
  }

  /** The cells a walk reads, in call order (`arr.push(t.clone())`). */
  function Gather<T>(cells: seq<T>, visits: seq<Visit>): (r: seq<T>)
    requires IndicesBelow(visits, |cells|)
    ensures |r| == |visits|
    ensures forall k :: 0 <= k < |visits| ==> r[k] == cells[visits[k].index]
  {
    seq(|visits|, k requires 0 <= k < |visits| => cells[visits[k].index])
  }

  /** Writes `src[k]` to the cell of the `k`-th call, first call first, so
      a later call to the same cell overwrites an earlier one. */
  function Scatter<T>(cells: seq<T>, visits: seq<Visit>, src: seq<T>): (r: seq<T>)
    requires |src| >= |visits| && IndicesBelow(visits, |cells|)
    ensures |r| == |cells|
    decreases |visits|
  {
    if |visits| == 0 then cells
    else Scatter(cells[visits[0].index := src[0]], visits[1..], src[1..])
  }

  /** A cell no call writes keeps its value. */
  lemma {:induction false} ScatterOutside<T>(cells: seq<T>, visits: seq<Visit>, src: seq<T>, j: nat)
    requires |src| >= |visits| && IndicesBelow(visits, |cells|) && j < |cells|
    requires Untouched(visits, j)
    ensures Scatter(cells, visits, src)[j] == cells[j]
    decreases |visits|
  {
    if |visits| > 0 {
      assert visits[0].index != j;
      assert forall k :: 0 <= k < |visits| - 1 ==> visits[1..][k] == visits[k + 1];
      ScatterOutside(cells[visits[0].index := src[0]], visits[1..], src[1..], j);
    }
  }

  /** When calls hit different cells, call `m`'s cell receives `src[m]`. */
  lemma {:induction false} ScatterAt<T>(cells: seq<T>, visits: seq<Visit>, src: seq<T>, m: nat)
    requires |src| >= |visits| && IndicesBelow(visits, |cells|) && DistinctIndices(visits)
    requires m < |visits|
    ensures Scatter(cells, visits, src)[visits[m].index] == src[m]
    decreases |visits|
  {
    var next := cells[visits[0].index := src[0]];
    assert forall k :: 0 <= k < |visits| - 1 ==> visits[1..][k] == visits[k + 1];
    if m == 0 {
      ScatterOutside(next, visits[1..], src[1..], visits[0].index);
    } else {
      ScatterAt(next, visits[1..], src[1..], m - 1);
    }
  }

  /** Writing back what was read changes nothing, whatever the walk. */
  lemma {:induction false} ScatterGather<T>(cells: seq<T>, visits: seq<Visit>)
    requires IndicesBelow(visits, |cells|)
    ensures Scatter(cells, visits, Gather(cells, visits)) == cells
    decreases |visits|
  {
    if |visits| > 0 {
      var src := Gather(cells, visits);
      assert cells[visits[0].index := src[0]] == cells;
      assert src[1..] == Gather(cells, visits[1..]);
      ScatterGather(cells, visits[1..]);
    }
  }

  /** Reading back what was written returns it, when calls hit different cells. */
  lemma GatherScatter<T>(cells: seq<T>, visits: seq<Visit>, src: seq<T>)
    requires |src| >= |visits| && IndicesBelow(visits, |cells|) && DistinctIndices(visits)
    ensures Gather(Scatter(cells, visits, src), visits) == src[..|visits|]
  {
    var r := Scatter(cells, visits, src);
    forall m | 0 <= m < |visits|
      ensures Gather(r, visits)[m] == src[m]
    {
      ScatterAt(cells, visits, src, m);
    }
  }

  /** The cells `f(x, y)` of a `w` by `h` grid in row-major order: the order in
      which both `from_closure`s call `f`. */
  function Tabulate<T>(w: nat, h: nat, f: (nat, nat) -> T): (r: seq<T>)
    ensures |r| == w * h
    ensures forall x: nat, y: nat :: x < w && y < h ==>
      Position(x, y, w) < |r| && r[Position(x, y, w)] == f(x, y)
  {
    if w == 0 then []
    else
      var r := seq(w * h, k requires 0 <= k < w * h => f(k % w, k / w));
      assert forall x: nat, y: nat :: x < w && y < h ==>
        Position(x, y, w) < |r| && r[Position(x, y, w)] == f(x, y) by {
        forall x: nat, y: nat | x < w && y < h
          ensures Position(x, y, w) < |r| && r[Position(x, y, w)] == f(x, y)
        {
          RowMajorPosition(x, y, w, h);
        }
      }
      r
  }

  /** `Array2D::from_value(width, height, t)` (src/array2d.rs:151-167). */
  function FromValue<T>(width: nat, height: nat, t: T): (r: Array2D<T>)
    ensures r.Valid() && r.width == width && r.height == height
    ensures forall x: nat, y: nat :: x < width && y < height ==> r.Cell(x, y) == t
  {
    FromClosure(width, height, (x, y) => t)
  }

  /** `Array2D::from_closure(width, height, f)` (src/array2d.rs:171-189). */
  function FromClosure<T>(width: nat, height: nat, f: (nat, nat) -> T): (r: Array2D<T>)
    ensures r.Valid() && r.width == width && r.height == height
    ensures forall x: nat, y: nat :: x < width && y < height ==> r.Cell(x, y) == f(x, y)
  {
    Array2D(width, height, Tabulate(width, height, f))
  }

  /** `Array2D<T>`: `width`, `height` and the boxed slice of cells. */
  datatype Array2D<T> = Array2D(width: nat, height: nat, data: seq<T>) {

    /** Every constructor except `from_box` yields exactly `width * height` cells. */
    predicate Valid()
    {
      |data| == width * height
    }

    /** Cell `(x, y)` of a valid grid. */
    function Cell(x: nat, y: nat): T
      requires Valid() && x < width && y < height
    {
      RowMajorPosition(x, y, width, height);
      data[Position(x, y, width)]
    }

    /** `get(x, y)` (src/array2d.rs:211-216). */
    function Get(x: nat, y: nat): (r: Option<T>)
      ensures x > width ==> r == None
      ensures Valid() && x < width && y < height ==> r == Some(Cell(x, y))
      ensures Valid() && y >= height ==> r == None
    {
      PositionBeyond(x, y);
      if x > width then None
      else if Position(x, y, width) < |data| then Some(data[Position(x, y, width)])
      else None
    }

    /** A position is inside the store exactly for in-range rows. */
    lemma PositionBeyond(x: nat, y: nat)
      ensures Valid() && y >= height ==> Position(x, y, width) >= |data|
      ensures Valid() && x < width && y < height ==> Position(x, y, width) < |data|
    {
      if Valid() && y >= height { MulMono(height, y, width); }
      if Valid() && x < width && y < height { RowMajorPosition(x, y, width, height); }
    }

    /** `get_mut(x, y)` followed by a write of `v` through the reference
        (src/array2d.rs:218-223); `None` where `get_mut` returns `None`. */
    function WithCell(x: nat, y: nat, v: T): (r: Option<Array2D<T>>)
      ensures x >= width ==> r == None
      ensures Valid() && x < width && y < height ==>
        && r.Some? && r.value.Valid() && r.value.width == width && r.value.height == height
        && r.value.Cell(x, y) == v
        && forall x': nat, y': nat :: x' < width && y' < height && (x' != x || y' != y) ==>
             r.value.Cell(x', y') == Cell(x', y')
    {
      PositionBeyond(x, y);
      if x >= width then None
      else if Position(x, y, width) < |data| then
        if Valid() && y < height then
          WithCellOthers(x, y, v);
          Some(Array2D(width, height, data[Position(x, y, width) := v]))
        else Some(Array2D(width, height, data[Position(x, y, width) := v]))
      else None
    }

    lemma WithCellOthers(x: nat, y: nat, v: T)
      requires Valid() && x < width && y < height && Position(x, y, width) < |data|
      ensures var g := Array2D(width, height, data[Position(x, y, width) := v]);
        && g.Valid() && g.Cell(x, y) == v
        && forall x': nat, y': nat :: x' < width && y' < height && (x' != x || y' != y) ==>
             g.Cell(x', y') == Cell(x', y')
    {
      var g := Array2D(width, height, data[Position(x, y, width) := v]);
      RowMajorPosition(x, y, width, height);
      forall x': nat, y': nat | x' < width && y' < height && (x' != x || y' != y)
        ensures g.Cell(x', y') == Cell(x', y')
      {
        RowMajorPosition(x', y', width, height);
      }
    }

    /** `get_wrapping(x, y)`: the cell at `(x mod width, y mod height)`
        (src/array2d.rs:225-227). The `unwrap` cannot fail on a valid grid;
        a zero dimension makes the source divide by zero. */
    function GetWrapping(x: nat, y: nat): (r: T)
      requires Valid() && width > 0 && height > 0
      ensures StorageIndex(width, height, x, y) < |data|
      ensures r == data[StorageIndex(width, height, x, y)]
    {
      StorageIndexBound(width, height, x, y);
      var c := Get(x % width, y % height);
      c.value
    }

    /** `*get_wrapping_mut(x, y) = v` (src/array2d.rs:229-231). */
    function WithCellWrapping(x: nat, y: nat, v: T): (r: Array2D<T>)
      requires Valid() && width > 0 && height > 0
      ensures r.Valid() && r.width == width && r.height == height
      ensures r.GetWrapping(x, y) == v
      ensures forall k :: 0 <= k < |data| && k != StorageIndex(width, height, x, y) ==> r.data[k] == data[k]
    {
      StorageIndexBound(width, height, x, y);
      var r := WithCell(x % width, y % height, v);
      r.value
    }

    /** `inbounds(xr, yr)` (src/array2d.rs:233-236). */
    predicate Inbounds(xr: Range, yr: Range)
    {
      xr.start < width && yr.start < height && xr.end <= width && yr.end <= height
    }

    /** `clone_sub_wrapping(xr, yr)`: the cells of the walk, read in order,
        as a grid of the rectangle's size (src/array2d.rs:289-300). The
        source computes `xr.end - xr.start` in `usize`, so a reversed range
        panics. */
    function CloneSubWrapping(xr: Range, yr: Range): (r: Array2D<T>)
      requires Valid() && xr.start <= xr.end && yr.start <= yr.end
      requires xr.IsEmpty() || yr.IsEmpty() || (width > 0 && height > 0)
      ensures r.Valid() && r.width == xr.end - xr.start && r.height == yr.end - yr.start
      ensures forall i: nat, j: nat :: i < r.width && j < r.height ==>
        r.Cell(i, j) == GetWrapping(xr.start + i, yr.start + j)
    {
      TraverseAt(width, height, xr, yr);
      var visits := Traverse(width, height, xr, yr);
      var r := Array2D(xr.end - xr.start, yr.end - yr.start, Gather(data, visits));
      CloneCells(xr, yr);
      r
    }

    lemma CloneCells(xr: Range, yr: Range)
      requires Valid() && xr.start <= xr.end && yr.start <= yr.end
      requires xr.IsEmpty() || yr.IsEmpty() || (width > 0 && height > 0)
      ensures IndicesBelow(Traverse(width, height, xr, yr), |data|)
      ensures var r := Array2D(xr.end - xr.start, yr.end - yr.start, Gather(data, Traverse(width, height, xr, yr)));
        && r.Valid()
        && forall i: nat, j: nat :: i < r.width && j < r.height ==>
             r.Cell(i, j) == GetWrapping(xr.start + i, yr.start + j)
    {
      TraverseAt(width, height, xr, yr);
      var visits := Traverse(width, height, xr, yr);
      var r := Array2D(xr.end - xr.start, yr.end - yr.start, Gather(data, visits));
      forall i: nat, j: nat | i < r.width && j < r.height
        ensures r.Cell(i, j) == GetWrapping(xr.start + i, yr.start + j)
      {
        TraverseCell(width, height, xr, yr, i, j, Position(i, j, xr.Len()));
      }
    }

    /** `clone_sub(xr, yr)`: `Err(OutOfBounds)` exactly when the rectangle
        is not inside the grid, otherwise the wrapping clone
        (src/array2d.rs:281-287). */
    function CloneSub(xr: Range, yr: Range): (r: Result<Array2D<T>, Array2DErr>)
      requires Valid()
      requires Inbounds(xr, yr) ==> xr.start <= xr.end && yr.start <= yr.end
      ensures r.Err? <==> !Inbounds(xr, yr)
      ensures r.Err? ==> r.error == OutOfBounds
      ensures r.Ok? ==> r.value == CloneSubWrapping(xr, yr)
    {
      if !Inbounds(xr, yr) then Err(OutOfBounds)
      else Ok(CloneSubWrapping(xr, yr))
    }

    /** `splice_wrapping(xr, yr, data)`: the `k`-th cell of the walk receives
        `src[k]` (src/array2d.rs:238-243). The source's `unwrap` panics when
        `src` is shorter than the walk. */
    function SpliceWrapping(xr: Range, yr: Range, src: seq<T>): (r: Array2D<T>)
      requires Valid() && (xr.IsEmpty() || yr.IsEmpty() || (width > 0 && height > 0))
      requires |src| >= xr.Len() * yr.Len()
      ensures r.Valid() && r.width == width && r.height == height
      ensures var visits := Traverse(width, height, xr, yr);
        && |visits| == xr.Len() * yr.Len()
        && IndicesBelow(visits, |data|)
        && (forall k :: 0 <= k < |data| && Untouched(visits, k) ==> r.data[k] == data[k])
        && (DistinctIndices(visits) ==>
              forall m :: 0 <= m < |visits| ==> r.data[visits[m].index] == src[m])
    {
      TraverseAt(width, height, xr, yr);
      var visits := Traverse(width, height, xr, yr);
      var cells := Scatter(data, visits, src);
      SpliceEffect(data, visits, src);
      Array2D(width, height, cells)
    }

    /** `for_each(f)`: the calls `f(x, y, &cell)` over the whole grid
        (src/array2d.rs:245-248). */
    function ForEach(): (r: seq<(nat, nat, T)>)
      requires Valid()
      ensures |r| == |data|
      ensures width > 0 ==> forall k :: 0 <= k < |r| ==> r[k] == (k % width, k / width, data[k])
    {
      if width == 0 || height == 0 then
        assert |data| == 0;
        []
      else
        var visits := Traverse(width, height, Range(0, width), Range(0, height));
        ForEachInOrder(width, height, visits);
        seq(|visits|, k requires 0 <= k < |visits| => (visits[k].wx, visits[k].wy, data[visits[k].index]))
    }
  }

  /** `get` lets `x == width` through: it reads the first cell of the next
      row, where `get_mut` refuses (src/array2d.rs:212, 219). */
  lemma GetAliasesNextRow<T>(g: Array2D<T>, y: nat, v: T)
    requires g.Valid() && g.width > 0 && y + 1 < g.height
    ensures g.Get(g.width, y) == Some(g.Cell(0, y + 1))
    ensures g.WithCell(g.width, y, v) == None
  {
    var w := g.width;
    RowMajorPosition(0, y + 1, w, g.height);
    assert (y + 1) * w == y * w + w;
    assert Position(w, y, w) == Position(0, y + 1, w);
  }

  /** Wrapped access is periodic in both axes and agrees with plain access
      inside the grid (src/array2d.rs:225-227). */
  lemma GetWrappingPeriodic<T>(g: Array2D<T>, x: nat, y: nat)
    requires g.Valid() && g.width > 0 && g.height > 0
    ensures g.GetWrapping(x + g.width, y) == g.GetWrapping(x, y)
    ensures g.GetWrapping(x, y + g.height) == g.GetWrapping(x, y)
    ensures x < g.width && y < g.height ==> g.GetWrapping(x, y) == g.Cell(x, y)
  {
    DivModUnique(x + g.width, g.width, x / g.width + 1, x % g.width);
    DivModUnique(y + g.height, g.height, y / g.height + 1, y % g.height);
    if x < g.width && y < g.height {
      DivModUnique(x, g.width, 0, x);
      DivModUnique(y, g.height, 0, y);
    }
  }

  /** Inside the bounds `clone_sub` never wraps: cell `(i, j)` of the copy is
      cell `(xr.start + i, yr.start + j)` of the grid (src/array2d.rs:281-287). */
  lemma CloneSubCells<T>(g: Array2D<T>, xr: Range, yr: Range)
    requires g.Valid() && g.Inbounds(xr, yr) && xr.start <= xr.end && yr.start <= yr.end
    ensures g.CloneSub(xr, yr).Ok?
    ensures var c := g.CloneSub(xr, yr).value;
      forall i: nat, j: nat :: i < c.width && j < c.height ==>
        c.Cell(i, j) == g.Cell(xr.start + i, yr.start + j)
  {
    var c := g.CloneSub(xr, yr).value;
    forall i: nat, j: nat | i < c.width && j < c.height
      ensures c.Cell(i, j) == g.Cell(xr.start + i, yr.start + j)
    {
      GetWrappingPeriodic(g, xr.start + i, yr.start + j);
    }
  }

  /** Splicing a rectangle's own clone back changes nothing, whatever its size. */
  lemma SpliceCloneIdentity<T>(g: Array2D<T>, xr: Range, yr: Range)
    requires g.Valid() && xr.start <= xr.end && yr.start <= yr.end
    requires xr.IsEmpty() || yr.IsEmpty() || (g.width > 0 && g.height > 0)
    ensures g.SpliceWrapping(xr, yr, g.CloneSubWrapping(xr, yr).data) == g
  {
    TraverseAt(g.width, g.height, xr, yr);
    ScatterGather(g.data, Traverse(g.width, g.height, xr, yr));
  }

  /** Cloning a rectangle no larger than the grid after splicing `src` into it
      returns the spliced values, in walk order. */
  lemma CloneAfterSplice<T>(g: Array2D<T>, xr: Range, yr: Range, src: seq<T>)
    requires g.Valid() && g.width > 0 && g.height > 0
    requires xr.start <= xr.end && yr.start <= yr.end
    requires xr.Len() <= g.width && yr.Len() <= g.height && |src| >= xr.Len() * yr.Len()
    ensures g.SpliceWrapping(xr, yr, src).CloneSubWrapping(xr, yr).data == src[..xr.Len() * yr.Len()]
  {
    TraverseAt(g.width, g.height, xr, yr);
    TraverseDistinct(g.width, g.height, xr, yr);
    GatherScatter(g.data, Traverse(g.width, g.height, xr, yr), src);
  }

  /** `FastArray2D<T>`: a grid whose sides are powers of two, so that wrapping
      is a bit mask and a row offset is a shift (src/array2d.rs:304-309). */
  datatype FastArray2D<T> = FastArray2D(wExp: nat, xMask: nat, yMask: nat, data: seq<T>) {

    /** `size()` (src/array2d.rs:376-378). */
    function Width(): nat { xMask + 1 }

    function Height(): nat { yMask + 1 }

    /** What every constructor establishes: both masks are one below a power
        of two, the row shift matches the width, and the store is full. */
    ghost predicate Valid()
    {
      && xMask + 1 == Pow2(wExp)
      && (exists k: nat :: Pow2(k) == yMask + 1)
      && |data| == Width() * Height()
    }

    /** The same cells seen as a plain grid. */
    function AsArray2D(): (r: Array2D<T>)
      ensures r.width == Width() && r.height == Height() && r.data == data
      ensures Valid() ==> r.Valid()
    {
      Array2D(Width(), Height(), data)
    }

    /** `get(x, y)`: the store index is `x + (y << w_exp)` and only the
        store's length is checked (src/array2d.rs:380-382). */
    function Get(x: nat, y: nat): (r: Option<T>)
      ensures Valid() && x < Width() && y < Height() ==> r == Some(AsArray2D().Cell(x, y))
      ensures Valid() && y >= Height() ==> r == None
    {
      AsArray2D().PositionBeyond(x, y);
      var index := x + y * Pow2(wExp);
      if index < |data| then Some(data[index]) else None
    }

    /** `get_wrapping(x, y)`: masks both coordinates
        (src/array2d.rs:388-390). */
    function GetWrapping(x: nat, y: nat): (r: T)
      requires Valid()
      ensures r == AsArray2D().GetWrapping(x, y)
    {
      MasksAreMod(x, y);
      StorageIndexBound(Width(), Height(), x, y);
      Get(BitAnd(x, xMask), BitAnd(y, yMask)).value
    }

    /** Masking a coordinate reduces it modulo the side. */
    lemma MasksAreMod(x: nat, y: nat)
      requires Valid()
      ensures BitAnd(x, xMask) == x % Width() && BitAnd(y, yMask) == y % Height()
    {
      LowMaskIsMod(x, wExp);
      var k: nat :| Pow2(k) == yMask + 1;
      LowMaskIsMod(y, k);
    }

    /** `*get_wrapping_mut(x, y) = v` (src/array2d.rs:392-394). */
    function WithCellWrapping(x: nat, y: nat, v: T): (r: FastArray2D<T>)
      requires Valid()
      ensures r.Valid() && r.wExp == wExp && r.xMask == xMask && r.yMask == yMask
      ensures r.GetWrapping(x, y) == v
      ensures forall k :: 0 <= k < |data| && k != StorageIndex(Width(), Height(), x, y) ==> r.data[k] == data[k]
    {
      MasksAreMod(x, y);
      StorageIndexBound(Width(), Height(), x, y);
      FastArray2D(wExp, xMask, yMask, data[BitAnd(x, xMask) + BitAnd(y, yMask) * Pow2(wExp) := v])
    }

    /** `inbounds(xr, yr)` (src/array2d.rs:396-399). */
    predicate Inbounds(xr: Range, yr: Range)
    {
      xr.start < Width() && yr.start < Height() && xr.end <= Width() && yr.end <= Height()
    }

    /** `clone_sub_wrapping(xr, yr)`: a plain grid of the rectangle's size
        holding the wrapped cells (src/array2d.rs:409-416). */
    function CloneSubWrapping(xr: Range, yr: Range): (r: Array2D<T>)
      requires Valid() && xr.start <= xr.end && yr.start <= yr.end
      ensures r.Valid() && r.width == xr.end - xr.start && r.height == yr.end - yr.start
      ensures forall i: nat, j: nat :: i < r.width && j < r.height ==>
        r.Cell(i, j) == GetWrapping(xr.start + i, yr.start + j)
    {
      AsArray2D().CloneSubWrapping(xr, yr)
    }

    /** `clone_sub(xr, yr)` (src/array2d.rs:401-407): the same check and
        clone as the plain grid's, on the same cells. */
    function CloneSub(xr: Range, yr: Range): (r: Result<Array2D<T>, Array2DErr>)
      requires Valid()
      requires Inbounds(xr, yr) ==> xr.start <= xr.end && yr.start <= yr.end
      ensures r.Err? <==> !Inbounds(xr, yr)
      ensures r.Err? ==> r.error == OutOfBounds
      ensures r.Ok? ==> r.value.Valid() && r.value.width == xr.end - xr.start && r.value.height == yr.end - yr.start
      ensures r.Ok? ==> forall i: nat, j: nat :: i < r.value.width && j < r.value.height ==>
        r.value.Cell(i, j) == GetWrapping(xr.start + i, yr.start + j)
    {
      AsArray2D().CloneSub(xr, yr)
    }

    /** `splice_wrapping(xr, yr, data)`: the `k`-th cell of the walk receives
        `src[k]`; indexing `data[i]` panics when `src` is too short
        (src/array2d.rs:418-424). */
    function SpliceWrapping(xr: Range, yr: Range, src: seq<T>): (r: FastArray2D<T>)
      requires Valid() && |src| >= xr.Len() * yr.Len()
      ensures r.Valid() && r.wExp == wExp && r.xMask == xMask && r.yMask == yMask
      ensures var visits := Traverse(Width(), Height(), xr, yr);
        && |visits| == xr.Len() * yr.Len()
        && IndicesBelow(visits, |data|)
        && (forall k :: 0 <= k < |data| && Untouched(visits, k) ==> r.data[k] == data[k])
        && (DistinctIndices(visits) ==>
              forall m :: 0 <= m < |visits| ==> r.data[visits[m].index] == src[m])
    {
      var g := AsArray2D().SpliceWrapping(xr, yr, src);
      FastArray2D(wExp, xMask, yMask, g.data)
    }
  }

  /** `FastArray2D::from_value(w_exp, h_exp, t)` (src/array2d.rs:329-339). */
  function FastFromValue<T>(wExp: nat, hExp: nat, t: T): (r: FastArray2D<T>)
    ensures r.Valid() && r.Width() == Pow2(wExp) && r.Height() == Pow2(hExp)
    ensures forall x: nat, y: nat :: x < r.Width() && y < r.Height() ==> r.Get(x, y) == Some(t)
  {
    FastFromClosure(wExp, hExp, (x, y) => t)
  }

  /** `FastArray2D::from_closure(w_exp, h_exp, f)`: `f` is called row by row
      and its results pushed (src/array2d.rs:341-358). */
  function FastFromClosure<T>(wExp: nat, hExp: nat, f: (nat, nat) -> T): (r: FastArray2D<T>)
    ensures r.Valid() && r.Width() == Pow2(wExp) && r.Height() == Pow2(hExp)
    ensures forall x: nat, y: nat :: x < r.Width() && y < r.Height() ==> r.Get(x, y) == Some(f(x, y))
  {
    var r := FastArray2D(wExp, Pow2(wExp) - 1, Pow2(hExp) - 1, Tabulate(Pow2(wExp), Pow2(hExp), f));
    assert Pow2(hExp) == r.yMask + 1;
    r
  }

  /** The fast `get` does not check `x`: one step past the right edge is the
      first cell of the next row (src/array2d.rs:380-382). */
  lemma FastGetAliasesNextRow<T>(g: FastArray2D<T>, x: nat, y: nat)
    requires g.Valid()
    ensures g.Get(x + g.Width(), y) == g.Get(x, y + 1)
  {
    assert x + g.Width() + y * g.Width() == x + (y + 1) * g.Width();
  }

  /** Clone after splice returns what was spliced whenever the rectangle is no
      larger than the grid. */
  lemma FastCloneAfterSplice<T>(g: FastArray2D<T>, xr: Range, yr: Range, src: seq<T>)
    requires g.Valid() && xr.start <= xr.end && yr.start <= yr.end
    requires xr.Len() <= g.Width() && yr.Len() <= g.Height() && |src| >= xr.Len() * yr.Len()
    ensures g.SpliceWrapping(xr, yr, src).CloneSubWrapping(xr, yr).data == src[..xr.Len() * yr.Len()]
  {
    CloneAfterSplice(g.AsArray2D(), xr, yr, src);
  }

  /** The two effects of a splice, for any walk. */
  lemma SpliceEffect<T>(cells: seq<T>, visits: seq<Visit>, src: seq<T>)
    requires |src| >= |visits| && IndicesBelow(visits, |cells|)
    ensures forall k :: 0 <= k < |cells| && Untouched(visits, k) ==> Scatter(cells, visits, src)[k] == cells[k]
    ensures DistinctIndices(visits) ==>
      forall m :: 0 <= m < |visits| ==> Scatter(cells, visits, src)[visits[m].index] == src[m]
  {
    forall k | 0 <= k < |cells| && Untouched(visits, k)
      ensures Scatter(cells, visits, src)[k] == cells[k]
    {
      ScatterOutside(cells, visits, src, k);
    }
    if DistinctIndices(visits) {
      forall m | 0 <= m < |visits|
        ensures Scatter(cells, visits, src)[visits[m].index] == src[m]
      {
        ScatterAt(cells, visits, src, m);
      }
    }
  }

  /** Row `k / w`, column `k % w` is storage cell `k` again. */
  lemma StorageIndexOfPosition(w: nat, h: nat, k: nat)
    requires w > 0 && h > 0 && k < w * h
    ensures StorageIndex(w, h, k % w, k / w) == k
  {
    RowMajorBounds(k, w, h);
    RowMajorRecompose(k, w);
    DivModUnique(k % w, w, 0, k % w);
    DivModUnique(k / w, h, 0, k / w);
  }

  /** The whole-grid walk visits storage in order: call `k` is cell `k`. */
  lemma ForEachInOrder(w: nat, h: nat, visits: seq<Visit>)
    requires w > 0 && h > 0 && visits == Traverse(w, h, Range(0, w), Range(0, h))
    ensures |visits| == w * h
    ensures forall k :: 0 <= k < |visits| ==> visits[k].wx == k % w && visits[k].wy == k / w && visits[k].index == k
  {
    TraverseLength(w, h, Range(0, w), Range(0, h), w, h);
    forall k | 0 <= k < |visits|
      ensures visits[k].wx == k % w && visits[k].wy == k / w && visits[k].index == k
    {
      var i, j := TraverseAtOne(w, h, Range(0, w), Range(0, h), w, h, k);
      StorageIndexOfPosition(w, h, k);
    }
  }
}
