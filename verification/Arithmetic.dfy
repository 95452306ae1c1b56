/** Powers of two and reduction modulo them. */
module Arithmetic {

  function Pow2(w: nat): (p: nat)
    ensures p > 0 && (w > 0 ==> p >= 2)
  {
    if w == 0 then 1 else 2 * Pow2(w - 1)
  }

  lemma SmallMod(x: nat, m: nat)
    requires x < m
    ensures x % m == x
  {
  }

  lemma ModOnce(x: nat, m: nat)
    requires 0 < m && x < m + m
    ensures x % m == if x < m then x else x - m
  {
    if x >= m { assert x / m == 1; }
  }

  lemma MinusOneMod(m: nat)
    requires m > 0
    ensures -1 % m == m - 1
  {
    assert -1 == (-1) * m + (m - 1);
  }
}
