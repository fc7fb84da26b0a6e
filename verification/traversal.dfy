/** The wrap-aware sub-rectangle walk `for_each_sub_wrapping` of
    src/array2d.rs. Instead of calling a closure, the walk returns the
    sequence of calls `f(world_x, world_y, index)` it would make, in order.

    Each axis is cut exactly as the source cuts it: when the range crosses
    no wrap boundary it is one run `[x1, x2)`; otherwise it is a head run
    `[x1, w)`, `crosses - 1` full runs `[0, w)` and a tail run `[0, x2)`.
    No modulo is taken per cell; the lemmas below prove that the runs
    nevertheless produce `wx % w` for every world coordinate `wx`. */
module Traversal {
  import opened Arith

  /** A Rust `Range<usize>`; it is empty when `start >= end`. */
  datatype Range = Range(start: nat, end: nat) {
    predicate IsEmpty() { start >= end }
    function Len(): nat { if start < end then end - start else 0 }
    predicate Contains(x: nat) { start <= x < end }
  }

  /** One call `f(world_x, world_y, index)` of the walk. */
  datatype Visit = Visit(wx: nat, wy: nat, index: nat)

  /** Where world cell `(wx, wy)` lives in a `w` by `h` row-major store. */
  function StorageIndex(w: nat, h: nat, wx: nat, wy: nat): nat
    requires w > 0 && h > 0
  {
    wx % w + (wy % h) * w
  }

  /** The loop `for x in a..b`. */
  function Span(a: nat, b: nat): seq<nat>
    requires a <= b
  {
    seq(b - a, i requires 0 <= i < b - a => a + i)
  }

  /** The loop `for _ in 0..n { <s> }`. */
  function Repeat(n: nat, s: seq<nat>): seq<nat>
  {
    if n == 0 then [] else s + Repeat(n - 1, s)
  }

  /** Storage coordinates visited along one axis for world range `[start, end)`
      (src/array2d.rs:24-32 with the x-loops of lines 36-51). */
  function AxisRuns(start: nat, end: nat, w: nat): seq<nat>
    requires start < end && w > 0
  {
    var first, last := start / w, (end - 1) / w;
    var x1, x2 := start % w, (end - 1) % w + 1;
    if last > first then
      Span(x1, w) + Repeat(last - first - 1, Span(0, w)) + Span(0, x2)
    else
      DivMono(start, end - 1, w);
      Span(x1, x2)
  }

  /** One row: `for x in xs { f(world_x, world_y, x + index_base); world_x += 1 }`. */
  function Row(xs: seq<nat>, x0: nat, wy: nat, base: nat): seq<Visit>
  {
    seq(|xs|, i requires 0 <= i < |xs| => Visit(x0 + i, wy, xs[i] + base))
  }

  /** The row loop: each storage row `y` gets `index_base = y * w`; `world_y`
      counts up from `y0`. */
  function Rows(xs: seq<nat>, ys: seq<nat>, x0: nat, y0: nat, w: nat): seq<Visit>
    decreases |ys|
  {
    if |ys| == 0 then []
    else Row(xs, x0, y0, ys[0] * w) + Rows(xs, ys[1..], x0, y0 + 1, w)
  }

  /** `for_each_sub_wrapping(w, h, xr, yr, f)` as the list of calls to `f`.
      An empty range returns at once, before any division by `w` or `h`. */
  function Traverse(w: nat, h: nat, xr: Range, yr: Range): seq<Visit>
    requires xr.IsEmpty() || yr.IsEmpty() || (w > 0 && h > 0)
  {
    if xr.IsEmpty() || yr.IsEmpty() then []
    else Rows(AxisRuns(xr.start, xr.end, w), AxisRuns(yr.start, yr.end, h), xr.start, yr.start, w)
  }

  // ---------------------------------------------------------------------
  // The runs of one axis are the residues modulo the axis length.

  /** Reference definition: the residues of `a, a+1, ..., a+n-1`. */
  function ModRun(a: nat, n: nat, w: nat): seq<nat>
    requires w > 0
  {
    seq(n, i requires 0 <= i < n => (a + i) % w)
  }

  lemma ModRunSplit(a: nat, n: nat, m: nat, w: nat)
    requires w > 0
    ensures ModRun(a, n + m, w) == ModRun(a, n, w) + ModRun(a + n, m, w)
  {
  }

  lemma ResidueInBlock(a: nat, i: nat, w: nat)
    requires w > 0 && a % w + i < w
    ensures (a + i) % w == a % w + i
  {
    DivModUnique(a + i, w, a / w, a % w + i);
  }

  /** Inside one block of `w` the residues are consecutive. */
  lemma ModRunWithinBlock(a: nat, n: nat, w: nat)
    requires w > 0 && a % w + n <= w
    ensures ModRun(a, n, w) == Span(a % w, a % w + n)
  {
    var q, r := a / w, a % w;
    forall i | 0 <= i < n
      ensures ModRun(a, n, w)[i] == Span(r, r + n)[i]
    {
      ResidueInBlock(a, i, w);
    }
  }

  /** `c` whole blocks starting on a block boundary are `c` full runs. */
  lemma {:induction false} ModRunFullBlocks(a: nat, c: nat, w: nat)
    requires w > 0 && a % w == 0
    ensures ModRun(a, c * w, w) == Repeat(c, Span(0, w))
    decreases c
  {
    if c > 0 {
      assert c * w == w + (c - 1) * w;
      ModRunSplit(a, w, (c - 1) * w, w);
      ModRunWithinBlock(a, w, w);
      DivModUnique(a + w, w, a / w + 1, 0);
      ModRunFullBlocks(a + w, c - 1, w);
    }
  }

  /** The cut points of a wrapping axis range, as plain arithmetic facts:
      a head up to the next block boundary, whole blocks, and a tail. */
  lemma WrapCuts(start: nat, end: nat, w: nat) returns (head: nat, full: nat, tail: nat)
    requires start < end && w > 0 && (end - 1) / w > start / w
    ensures head == w - start % w && tail == (end - 1) % w + 1
    ensures full == ((end - 1) / w - start / w - 1) * w
    ensures (start + head) % w == 0 && (start + head + full) % w == 0
    ensures 0 < tail <= w
    ensures end - start == head + full + tail
  {
    var first, last := start / w, (end - 1) / w;
    var x1, x2 := start % w, (end - 1) % w + 1;
    var c := last - first;
    head, full, tail := w - x1, (c - 1) * w, x2;
    assert start == first * w + x1;
    assert end - 1 == last * w + (x2 - 1);
    assert last * w == first * w + c * w by {
      assert last * w == (first + c) * w;
    }
    assert c * w == (c - 1) * w + w;
    DivModUnique(start + (w - x1), w, first + 1, 0);
    assert start + (w - x1) + (c - 1) * w == last * w;
    DivModUnique(last * w, w, last, 0);
  }

  lemma AxisRunsWrapping(start: nat, end: nat, w: nat)
    requires start < end && w > 0 && (end - 1) / w > start / w
    ensures AxisRuns(start, end, w) == ModRun(start, end - start, w)
  {
    var head, full, tail := WrapCuts(start, end, w);
    var c := (end - 1) / w - start / w;
    ModRunSplit(start, head, full + tail, w);
    ModRunSplit(start + head, full, tail, w);
    ModRunWithinBlock(start, head, w);
    ModRunFullBlocks(start + head, c - 1, w);
    ModRunWithinBlock(start + head + full, tail, w);
    assert ModRun(start, end - start, w)
      == ModRun(start, head, w) + (ModRun(start + head, full, w) + ModRun(start + head + full, tail, w));
  }

  lemma AxisRunsInBlock(start: nat, end: nat, w: nat)
    requires start < end && w > 0 && (end - 1) / w <= start / w
    ensures AxisRuns(start, end, w) == ModRun(start, end - start, w)
  {
    DivMono(start, end - 1, w);
    SameBlockOffset(start, end - 1, w);
    ModRunWithinBlock(start, end - start, w);
  }

  /** Two coordinates of one block are as far apart as their residues. */
  lemma SameBlockOffset(a: nat, b: nat, w: nat)
    requires w > 0 && a <= b && b / w == a / w
    ensures b % w == a % w + (b - a)
  {
    var q := a / w;
    assert a == q * w + a % w;
    assert b == q * w + b % w;
  }

  /** The head/full/tail decomposition visits exactly `(start + i) % w` at
      step `i`, one step per world coordinate of `[start, end)`
      (src/array2d.rs:24-32, 38-49). */
  lemma AxisRunsModular(start: nat, end: nat, w: nat)
    requires start < end && w > 0
    ensures |AxisRuns(start, end, w)| == end - start
    ensures forall i :: 0 <= i < end - start ==> AxisRuns(start, end, w)[i] == (start + i) % w
  {
    if (end - 1) / w > start / w {
      AxisRunsWrapping(start, end, w);
    } else {
      AxisRunsInBlock(start, end, w);
    }
  }

  lemma AxisRunsLength(start: nat, end: nat, w: nat)
    requires start < end && w > 0
    ensures |AxisRuns(start, end, w)| == end - start
  {
    AxisRunsModular(start, end, w);
  }

  // ---------------------------------------------------------------------
  // The two-dimensional walk.

  /** Row-major position of column `i` in row `j` of rows `n` long. */
  function Position(i: nat, j: nat, n: nat): nat
  {
    j * n + i
  }

  /** Dropping the first row of `n` positions shifts the row number by one. */
  lemma NextRow(k: nat, n: nat, m: nat)
    requires n > 0 && n <= k < n * m
    ensures m > 0 && k - n < n * (m - 1)
    ensures (k - n) % n == k % n && (k - n) / n == k / n - 1
  {
    assert n * m == n + n * (m - 1);
    DivModUnique(k, n, (k - n) / n + 1, (k - n) % n);
  }

  lemma {:induction false} RowsLength(xs: seq<nat>, ys: seq<nat>, x0: nat, y0: nat, w: nat)
    ensures |Rows(xs, ys, x0, y0, w)| == |xs| * |ys|
    decreases |ys|
  {
    if |ys| > 0 {
      RowsLength(xs, ys[1..], x0, y0 + 1, w);
      assert |xs| * |ys| == |xs| + |xs| * (|ys| - 1);
    }
  }

  /** Column `i` of row `j` is call `j * |xs| + i` of the row loop. */
  lemma {:induction false} RowsAt(xs: seq<nat>, ys: seq<nat>, x0: nat, y0: nat, w: nat, i: nat, j: nat)
    requires i < |xs| && j < |ys|
    ensures j * |xs| + i < |Rows(xs, ys, x0, y0, w)|
    ensures Rows(xs, ys, x0, y0, w)[j * |xs| + i] == Visit(x0 + i, y0 + j, xs[i] + ys[j] * w)
    decreases j
  {
    var n := |xs|;
    var row := Row(xs, x0, y0, ys[0] * w);
    var rest := Rows(xs, ys[1..], x0, y0 + 1, w);
    assert Rows(xs, ys, x0, y0, w) == row + rest;
    if j > 0 {
      RowsAt(xs, ys[1..], x0, y0 + 1, w, i, j - 1);
      assert j * n + i == n + ((j - 1) * n + i);
    }
  }

  lemma StorageIndexBound(w: nat, h: nat, wx: nat, wy: nat)
    requires w > 0 && h > 0
    ensures StorageIndex(w, h, wx, wy) < w * h
  {
    MulMono(wy % h, h - 1, w);
    assert (h - 1) * w + w == w * h;
  }

  /** Call `j * n + i` of a non-empty walk, `n = xr.Len()`, visits world cell
      `(xr.start + i, yr.start + j)` at its storage index. */
  lemma TraverseCell(w: nat, h: nat, xr: Range, yr: Range, i: nat, j: nat, k: nat)
    requires w > 0 && h > 0 && i < xr.Len() && j < yr.Len() && k == j * xr.Len() + i
    ensures k < |Traverse(w, h, xr, yr)|
    ensures Traverse(w, h, xr, yr)[k]
      == Visit(xr.start + i, yr.start + j, StorageIndex(w, h, xr.start + i, yr.start + j))
  {
    var xs := AxisRuns(xr.start, xr.end, w);
    var ys := AxisRuns(yr.start, yr.end, h);
    AxisRunsModular(xr.start, xr.end, w);
    AxisRunsModular(yr.start, yr.end, h);
    assert xs[i] == (xr.start + i) % w;
    assert ys[j] == (yr.start + j) % h;
    RowsAt(xs, ys, xr.start, yr.start, w, i, j);
  }

  /** Call `k` of a non-empty walk is for world cell `(xr.start + i, yr.start + j)`
      with `i = k % n`, `j = k / n` and `n = xr.Len()`, i.e. the walk is
      row-major with `wy` outer and `wx` inner; its index is that cell's
      storage index; an empty range makes no call at all
      (src/array2d.rs:19-21, 24-68). */
  lemma TraverseAtOne(w: nat, h: nat, xr: Range, yr: Range, n: nat, m: nat, k: nat) returns (i: nat, j: nat)
    requires w > 0 && h > 0 && n == xr.Len() > 0 && m == yr.Len() && k < n * m
    ensures i == k % n && j == k / n && i < n && j < m
    ensures k < |Traverse(w, h, xr, yr)|
    ensures Traverse(w, h, xr, yr)[k] == Visit(xr.start + i, yr.start + j, StorageIndex(w, h, xr.start + i, yr.start + j))
  {
    i, j := k % n, k / n;
    RowMajorBounds(k, n, m);
    RowMajorRecompose(k, n);
    TraverseCell(w, h, xr, yr, i, j, k);
  }

  lemma TraverseAt(w: nat, h: nat, xr: Range, yr: Range)
    requires xr.IsEmpty() || yr.IsEmpty() || (w > 0 && h > 0)
    ensures xr.IsEmpty() || yr.IsEmpty() ==> Traverse(w, h, xr, yr) == []
    ensures |Traverse(w, h, xr, yr)| == xr.Len() * yr.Len()
    ensures var t, n := Traverse(w, h, xr, yr), xr.Len();
      forall k :: 0 <= k < |t| ==>
        && t[k].wx == xr.start + k % n
        && t[k].wy == yr.start + k / n
        && t[k].index == StorageIndex(w, h, t[k].wx, t[k].wy)
        && t[k].index < w * h
  {
    if !xr.IsEmpty() && !yr.IsEmpty() {
      var n := xr.Len();
      AxisRunsLength(xr.start, xr.end, w);
      AxisRunsLength(yr.start, yr.end, h);
      RowsLength(AxisRuns(xr.start, xr.end, w), AxisRuns(yr.start, yr.end, h), xr.start, yr.start, w);
      var t := Traverse(w, h, xr, yr);
      assert |t| == n * yr.Len();
      forall k | 0 <= k < |t|
        ensures t[k].wx == xr.start + k % n && t[k].wy == yr.start + k / n
        ensures t[k].index == StorageIndex(w, h, t[k].wx, t[k].wy) && t[k].index < w * h
      {
        var i, j := TraverseAtOne(w, h, xr, yr, n, yr.Len(), k);
        StorageIndexBound(w, h, xr.start + i, yr.start + j);
      }
    }
  }

  /** The walk makes one call per cell of the rectangle. */
  lemma TraverseLength(w: nat, h: nat, xr: Range, yr: Range, n: nat, m: nat)
    requires xr.IsEmpty() || yr.IsEmpty() || (w > 0 && h > 0)
    requires n == xr.Len() && m == yr.Len()
    ensures |Traverse(w, h, xr, yr)| == n * m
  {
    TraverseAt(w, h, xr, yr);
  }

  /** Every call lies in the rectangle. */
  lemma TraverseInside(w: nat, h: nat, xr: Range, yr: Range, n: nat, m: nat)
    requires w > 0 && h > 0 && n == xr.Len() && m == yr.Len()
    ensures forall k :: 0 <= k < |Traverse(w, h, xr, yr)| ==>
      xr.Contains(Traverse(w, h, xr, yr)[k].wx) && yr.Contains(Traverse(w, h, xr, yr)[k].wy)
  {
    TraverseLength(w, h, xr, yr, n, m);
    var t := Traverse(w, h, xr, yr);
    forall k | 0 <= k < |t|
      ensures xr.Contains(t[k].wx) && yr.Contains(t[k].wy)
    {
      var i, j := TraverseAtOne(w, h, xr, yr, n, m, k);
    }
  }

  /** Every call passes the storage index of its world cell. */
  lemma TraverseIndices(w: nat, h: nat, xr: Range, yr: Range, n: nat, m: nat)
    requires w > 0 && h > 0 && n == xr.Len() && m == yr.Len()
    ensures forall k :: 0 <= k < |Traverse(w, h, xr, yr)| ==>
      Traverse(w, h, xr, yr)[k].index
        == StorageIndex(w, h, Traverse(w, h, xr, yr)[k].wx, Traverse(w, h, xr, yr)[k].wy)
  {
    TraverseLength(w, h, xr, yr, n, m);
    var t := Traverse(w, h, xr, yr);
    forall k | 0 <= k < |t|
      ensures t[k].index == StorageIndex(w, h, t[k].wx, t[k].wy)
    {
      var i, j := TraverseAtOne(w, h, xr, yr, n, m, k);
    }
  }

  /** Every cell of the rectangle is visited, at row-major position
      `(y - yr.start) * n + (x - xr.start)`. */
  lemma TraverseCovers(w: nat, h: nat, xr: Range, yr: Range, x: nat, y: nat)
    requires w > 0 && h > 0 && xr.Contains(x) && yr.Contains(y)
    ensures Position(x - xr.start, y - yr.start, xr.Len()) < |Traverse(w, h, xr, yr)|
    ensures Traverse(w, h, xr, yr)[Position(x - xr.start, y - yr.start, xr.Len())]
      == Visit(x, y, StorageIndex(w, h, x, y))
  {
    var i, j := x - xr.start, y - yr.start;
    TraverseCell(w, h, xr, yr, i, j, Position(i, j, xr.Len()));
  }

  /** Calls come in strictly increasing row-major order of world cells, so no
      world cell is visited twice. */
  lemma TraverseRowMajor(w: nat, h: nat, xr: Range, yr: Range)
    requires xr.IsEmpty() || yr.IsEmpty() || (w > 0 && h > 0)
    ensures forall k1, k2 :: 0 <= k1 < k2 < |Traverse(w, h, xr, yr)| ==>
      || Traverse(w, h, xr, yr)[k1].wy < Traverse(w, h, xr, yr)[k2].wy
      || (&& Traverse(w, h, xr, yr)[k1].wy == Traverse(w, h, xr, yr)[k2].wy
          && Traverse(w, h, xr, yr)[k1].wx < Traverse(w, h, xr, yr)[k2].wx)
  {
    TraverseAt(w, h, xr, yr);
    var t := Traverse(w, h, xr, yr);
    var n := xr.Len();
    forall k1, k2 | 0 <= k1 < k2 < |t|
      ensures t[k1].wy < t[k2].wy || (t[k1].wy == t[k2].wy && t[k1].wx < t[k2].wx)
    {
      DivMono(k1, k2, n);
      if k1 / n == k2 / n {
        RowMajorRecompose(k1, n);
        RowMajorRecompose(k2, n);
      }
    }
  }

  /** Two world coordinates less than `w` apart with the same residue are equal. */
  lemma WindowResidue(a: nat, b: nat, w: nat)
    requires w > 0 && a <= b < a + w && a % w == b % w
    ensures a == b
  {
    var qa, qb := a / w, b / w;
    assert a == qa * w + a % w && b == qb * w + b % w;
    DivMono(a, b, w);
    if qa < qb {
      assert (qb - qa) * w == qb * w - qa * w;
      MulAtLeast(qb - qa, w);
    }
  }

  /** Different storage coordinates give different storage indices. */
  lemma StorageIndexInjective(w: nat, h: nat, a1: nat, b1: nat, a2: nat, b2: nat)
    requires w > 0 && h > 0
    requires StorageIndex(w, h, a1, b1) == StorageIndex(w, h, a2, b2)
    ensures a1 % w == a2 % w && b1 % h == b2 % h
  {
    var i := StorageIndex(w, h, a1, b1);
    DivModUnique(i, w, b1 % h, a1 % w);
    DivModUnique(i, w, b2 % h, a2 % w);
  }

  /** Two different cells of an `n` by `m` window no larger than the grid
      have different storage indices. */
  lemma DistinctCells(w: nat, h: nat, x0: nat, y0: nat, n: nat, m: nat, i1: nat, j1: nat, i2: nat, j2: nat)
    requires w > 0 && h > 0 && n <= w && m <= h
    requires i1 < n && i2 < n && j1 < m && j2 < m
    requires i1 != i2 || j1 != j2
    ensures StorageIndex(w, h, x0 + i1, y0 + j1) != StorageIndex(w, h, x0 + i2, y0 + j2)
  {
    var a1, b1, a2, b2 := x0 + i1, y0 + j1, x0 + i2, y0 + j2;
    if StorageIndex(w, h, a1, b1) == StorageIndex(w, h, a2, b2) {
      StorageIndexInjective(w, h, a1, b1, a2, b2);
      if a1 <= a2 { WindowResidue(a1, a2, w); } else { WindowResidue(a2, a1, w); }
      if b1 <= b2 { WindowResidue(b1, b2, h); } else { WindowResidue(b2, b1, h); }
    }
  }

  /** Two different row-major positions of a window no larger than the grid
      have different storage indices. */
  lemma PositionsDistinct(w: nat, h: nat, x0: nat, y0: nat, n: nat, m: nat, k1: nat, k2: nat)
    requires w > 0 && h > 0 && 0 < n <= w && m <= h && k1 < k2 < n * m
    ensures StorageIndex(w, h, x0 + k1 % n, y0 + k1 / n) != StorageIndex(w, h, x0 + k2 % n, y0 + k2 / n)
  {
    RowMajorBounds(k1, n, m);
    RowMajorBounds(k2, n, m);
    var i1, j1, i2, j2 := k1 % n, k1 / n, k2 % n, k2 / n;
    assert i1 != i2 || j1 != j2 by {
      RowMajorRecompose(k1, n);
      RowMajorRecompose(k2, n);
    }
    DistinctCells(w, h, x0, y0, n, m, i1, j1, i2, j2);
  }

  lemma TraversePairDistinct(w: nat, h: nat, xr: Range, yr: Range, n: nat, m: nat, k1: nat, k2: nat)
    requires w > 0 && h > 0 && n == xr.Len() > 0 && m == yr.Len() && n <= w && m <= h
    requires k1 < k2 < n * m
    ensures k2 < |Traverse(w, h, xr, yr)|
    ensures Traverse(w, h, xr, yr)[k1].index != Traverse(w, h, xr, yr)[k2].index
  {
    PositionsDistinct(w, h, xr.start, yr.start, n, m, k1, k2);
    var i1, j1 := TraverseAtOne(w, h, xr, yr, n, m, k1);
    var i2, j2 := TraverseAtOne(w, h, xr, yr, n, m, k2);
  }

  /** When the rectangle is no larger than the grid, no storage cell is
      visited twice (src/array2d.rs:24-26, 63-68). */
  lemma TraverseDistinct(w: nat, h: nat, xr: Range, yr: Range)
    requires w > 0 && h > 0 && xr.Len() <= w && yr.Len() <= h
    ensures forall k1, k2 :: 0 <= k1 < k2 < |Traverse(w, h, xr, yr)| ==>
      Traverse(w, h, xr, yr)[k1].index != Traverse(w, h, xr, yr)[k2].index
  {
    TraverseAt(w, h, xr, yr);
    var t := Traverse(w, h, xr, yr);
    var n, m := xr.Len(), yr.Len();
    forall k1, k2 | 0 <= k1 < k2 < |t|
      ensures t[k1].index != t[k2].index
    {
      TraversePairDistinct(w, h, xr, yr, n, m, k1, k2);
    }
  }

  /** The example of a width-4 grid walked over `x` in `[3, 6)`: world
      columns 3, 4, 5 land in storage columns 3, 0, 1, in that order. */
  lemma WrapExample()
    ensures Traverse(4, 1, Range(3, 6), Range(0, 1))
      == [Visit(3, 0, 3), Visit(4, 0, 0), Visit(5, 0, 1)]
  {
    assert AxisRuns(3, 6, 4) == [3, 0, 1];
    assert AxisRuns(0, 1, 1) == [0];
  }
}
