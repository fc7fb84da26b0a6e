/** Integer floor and ceiling division used for every view-to-tile and
    view-to-chunk rectangle (src/common.rs). Operands are `usize`. */
module Common {
  import opened Arith
  import opened Ints

  /** `ifdiv(n, d)`: floor of `n / d`. */
  function IFDiv(n: nat, d: nat): (r: nat)
    requires d > 0
    ensures r * d <= n < (r + 1) * d
  {
    assert n == (n / d) * d + n % d;
    n / d
  }

  /** `icdiv(n, d) = ifdiv(n + d - 1, d)`; the sum must not overflow `usize`. */
  function ICDiv(n: nat, d: nat): (r: nat)
    requires d > 0 && n + d - 1 < USIZE_LIMIT
    ensures r * d >= n
    ensures r == 0 || (r - 1) * d < n
  {
    var r := IFDiv(n + d - 1, d);
    assert (r - 1) * d == r * d - d;
    r
  }

  /** `icdiv` is exact on multiples of the divisor. */
  lemma ICDivExact(k: nat, d: nat)
    requires d > 0 && k * d + d - 1 < USIZE_LIMIT
    ensures ICDiv(k * d, d) == k
  {
    DivModUnique(k * d + d - 1, d, k, d - 1);
  }

  /** The ceiling exceeds the floor by at most one, and by exactly one when
      `d` does not divide `n`. */
  lemma CeilFloorGap(n: nat, d: nat)
    requires d > 0 && n + d - 1 < USIZE_LIMIT
    ensures ICDiv(n, d) - IFDiv(n, d) in {0, 1}
    ensures ICDiv(n, d) == IFDiv(n, d) <==> n % d == 0
  {
    var q, r := n / d, n % d;
    assert n == q * d + r;
    if r == 0 {
      DivModUnique(n + d - 1, d, q, d - 1);
    } else {
      assert n + d - 1 == (q + 1) * d + (r - 1);
      DivModUnique(n + d - 1, d, q + 1, r - 1);
    }
  }
}
