/** Small facts about Euclidean division on naturals that the index arithmetic
    of the wrap-around grids relies on. Dafny's solver does not find these on
    its own because they are non-linear. */
module Arith {

  lemma MulAtLeast(k: int, w: nat)
    requires k >= 1
    ensures k * w >= w
  {
    var j := k - 1;
    assert k * w == j * w + w;
  }

  lemma MulMono(a: nat, b: nat, w: nat)
    requires a <= b
    ensures a * w <= b * w
  {
    if a < b {
      assert b * w - a * w == (b - a) * w;
      MulAtLeast(b - a, w);
    }
  }

  /** Division is determined by any decomposition `a == q * w + r` with `r < w`. */
  lemma DivModUnique(a: nat, w: nat, q: nat, r: nat)
    requires 0 <= r < w && a == q * w + r
    ensures a / w == q && a % w == r
  {
    var q', r' := a / w, a % w;
    assert a == q' * w + r';
    if q < q' {
      assert (q' - q) * w == q' * w - q * w;
      MulAtLeast(q' - q, w);
    } else if q' < q {
      assert (q - q') * w == q * w - q' * w;
      MulAtLeast(q - q', w);
    }
  }

  lemma DivMono(a: nat, b: nat, w: nat)
    requires w > 0 && a <= b
    ensures a / w <= b / w
  {
    var qa, qb := a / w, b / w;
    if qb < qa {
      assert (qa - qb) * w == qa * w - qb * w;
      MulAtLeast(qa - qb, w);
    }
  }

  /** A row-major position `k < n * m` splits into a column `k % n < n` and a row `k / n < m`. */
  lemma RowMajorBounds(k: nat, n: nat, m: nat)
    requires n > 0 && k < n * m
    ensures k % n < n && k / n < m
  {
    assert m * n == n * m;
    if k / n >= m {
      MulMono(m, k / n, n);
    }
  }

  /** The row-major position of column `i` in row `j` is `j * n + i`. */
  lemma RowMajorPosition(i: nat, j: nat, n: nat, m: nat)
    requires i < n && j < m
    ensures j * n + i < n * m
    ensures (j * n + i) % n == i && (j * n + i) / n == j
  {
    DivModUnique(j * n + i, n, j, i);
    MulMono(j + 1, m, n);
    assert (j + 1) * n == j * n + n;
    assert m * n == n * m;
  }

  /** A position is recovered from its column and row. */
  lemma RowMajorRecompose(k: nat, n: nat)
    requires n > 0
    ensures k == (k / n) * n + k % n
  {
  }
}
