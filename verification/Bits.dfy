/** Machine words, powers of two and single bits of a byte. */
module Bits {

  function Max(a: int, b: int): int { if a < b then b else a }

  function Min(a: int, b: int): int { if a < b then a else b }

  function Pow2(n: nat): (p: nat)
    ensures p > 0
  {
    if n == 0 then 1 else 2 * Pow2(n - 1)
  }

  /** `k` whole units of size `d` fit into `x` exactly when `k` is at most the quotient. */
  lemma FitsIn(k: int, x: int, d: int)
    requires d > 0
    ensures k <= x / d <==> k * d <= x
  {
    var q := x / d;
    assert q * d <= x < q * d + d;
    if k <= q { assert k * d <= q * d; } else { assert (q + 1) * d <= k * d; }
  }

  lemma QuotientBound(x: nat, d: int)
    requires d > 0
    ensures 0 <= x / d <= x
  {
    FitsIn(0, x, d);
    FitsIn(x + 1, x, d);
    assert (x + 1) * (d - 1) >= 0;
    assert (x + 1) * d == (x + 1) * (d - 1) + (x + 1);
  }

  const UINT32 := 0x1_0000_0000
  const UINT64 := 0x1_0000_0000_0000_0000

  /** Maps a 32-bit hash to the range below `n` by multiplying and keeping the upper word. */
  function FastMod(x: nat, n: nat): (r: nat)
    requires x < UINT32 && n > 0
    ensures r < n
  {
    FitsIn(n, x * n, UINT32);
    assert x * n < n * UINT32;
    x * n / UINT32
  }

  /** The byte whose only set bit is bit `k`. */
  function Mask(k: nat): bv8
    requires k < 8
  {
    if k == 0 then 1 else if k == 1 then 2 else if k == 2 then 4 else if k == 3 then 8
    else if k == 4 then 16 else if k == 5 then 32 else if k == 6 then 64 else 128
  }

  predicate BitOf(b: bv8, k: nat)
    requires k < 8
  {
    b & Mask(k) != 0
  }

  lemma OrMask(b: bv8, k: nat, j: nat)
    requires k < 8 && j < 8
    ensures BitOf(b | Mask(k), j) <==> j == k || BitOf(b, j)
  {
  }

  lemma AndNotMask(b: bv8, k: nat, j: nat)
    requires k < 8 && j < 8
    ensures BitOf(b & !Mask(k), j) <==> j != k && BitOf(b, j)
  {
  }
}
