/** Fixed-width integers of the client and server, and the bit tricks the
    power-of-two grids use instead of `%`. */
module Ints {
  import opened Arith

  type u8 = x: int | 0 <= x < 0x100
  type u16 = x: int | 0 <= x < 0x1_0000

  /** One past the largest `usize` of a 64-bit target. */
  const USIZE_LIMIT: nat := 0x1_0000_0000_0000_0000

  /** `a.saturating_sub(b)` on unsigned integers. */
  function SatSub(a: nat, b: nat): nat
  {
    if a > b then a - b else 0
  }

  /** `x as u16`: keeps the low sixteen bits. */
  function AsU16(x: nat): u16
  {
    x % 0x1_0000
  }

  function Pow2(k: nat): (r: nat)
    ensures r >= 1
  {
    if k == 0 then 1 else 2 * Pow2(k - 1)
  }

  /** Bitwise `a & b` on unsigned integers, one bit at a time from the bottom. */
  function BitAnd(a: nat, b: nat): nat
  {
    if a == 0 || b == 0 then 0
    else (a % 2) * (b % 2) + 2 * BitAnd(a / 2, b / 2)
  }

  lemma BitAndOddMask(a: nat, b: nat)
    requires a > 0 && b % 2 == 1
    ensures BitAnd(a, b) == a % 2 + 2 * BitAnd(a / 2, b / 2)
  {
  }

  /** Halving commutes with reduction modulo an even modulus. */
  lemma ModDoubling(x: nat, p: nat)
    requires p >= 1
    ensures x % (2 * p) == 2 * ((x / 2) % p) + x % 2
  {
    var q, lo := (x / 2) / p, (x / 2) % p;
    assert x / 2 == q * p + lo;
    assert x == 2 * (x / 2) + x % 2;
    assert x == q * (2 * p) + (2 * lo + x % 2);
    DivModUnique(x, 2 * p, q, 2 * lo + x % 2);
  }

  /** Masking with `2^k - 1` keeps exactly the remainder modulo `2^k`: this is
      why the fast grids may replace `x % width` by `x & x_mask`. */
  lemma {:induction false} LowMaskIsMod(x: nat, k: nat)
    ensures BitAnd(x, Pow2(k) - 1) == x % Pow2(k)
  {
    if k == 0 {
    } else if x == 0 {
    } else {
      var p := Pow2(k - 1);
      var m := Pow2(k) - 1;
      assert m == (p - 1) * 2 + 1;
      DivModUnique(m, 2, p - 1, 1);
      BitAndOddMask(x, m);
      LowMaskIsMod(x / 2, k - 1);
      ModDoubling(x, p);
    }
  }
}
