/** Remainders, stated by what determines them. */
module Arith {
  lemma Scaled(m: int, d: int)
    requires m > 0
    ensures d >= 1 ==> m * d >= m
    ensures d <= -1 ==> m * d <= -m
  {
  }

  /** The remainder is determined by x = m * q + r with r in range. */
  lemma RemainderIs(x: int, m: int, q: int, r: int)
    requires m > 0 && x == m * q + r && 0 <= r < m
    ensures x % m == r
  {
    var p := x / m;
    assert x == m * p + x % m;
    assert m * (q - p) == m * q - m * p;
    Scaled(m, q - p);
  }
}
