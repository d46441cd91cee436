/** Sizes, and small functions on numbers. */
module Numbers {
  const TWO_31 := 0x8000_0000
  const TWO_32 := 0x1_0000_0000

  /** The size of a page of memory. */
  const PAGE: nat := 4096

  function Min(a: int, b: int): int { if a < b then a else b }

  function Pow2(k: nat): nat {
    if k == 0 then 1 else 2 * Pow2(k - 1)
  }

  lemma MultipleOf(q: int, m: int)
    requires m > 0
    ensures (q * m) % m == 0
  {
    var r := (q * m) % m;
    var p := (q * m) / m;
    assert q * m == p * m + r;
    assert (q - p) * m == r;
    assert q - p >= 1 ==> (q - p) * m >= m;
    assert q - p <= -1 ==> (q - p) * m <= -m;
  }
}
