/** Division facts that the word and address arithmetic rests on. */
module Arithmetic {

  lemma Multiples(k: int, a: int)
    requires a > 0
    ensures k >= 1 ==> k * a >= a
    ensures k <= -1 ==> k * a <= -a
  {}

  /** Quotient and remainder of a number given in that form. */
  lemma DivMod(q: int, m: nat, r: nat)
    requires r < m
    ensures (q * m + r) / m == q && (q * m + r) % m == r
  {
    var x := q * m + r;
    var d, e := x / m, x % m;
    assert (q - d) * m == e - r;
    Multiples(q - d, m);
  }

  /** What division by m means. */
  lemma Parts(x: nat, m: nat) returns (q: nat, r: nat)
    requires m > 0
    ensures q == x / m && r == x % m && x == q * m + r && r < m
  {
    q, r := x / m, x % m;
  }

  lemma ModShift(x: int, k: int, m: nat)
    requires m > 0
    ensures (x + k * m) % m == x % m
  {
    var d, e := x / m, x % m;
    assert x + k * m == (d + k) * m + e;
    DivMod(d + k, m, e);
  }

  function Pow256(k: nat): nat { if k == 0 then 1 else 256 * Pow256(k - 1) }
}
