/** Division with a remainder, for divisors that are not constants, and powers of two. */
module Arithmetic {

  lemma NextMultiple(n: nat, m: nat)
    ensures (n + 1) * m == n * m + m
  {
  }

  lemma AtLeastOnce(d: int, m: nat)
    ensures d >= 1 ==> d * m >= m
    ensures d <= -1 ==> d * m <= -(m as int)
  {
    if d >= 1 {
      assert (d - 1) * m >= 0;
    } else if d <= -1 {
      assert (-1 - d) * m >= 0;
    }
  }

  /** There is only one quotient and one remainder. */
  lemma Divides(c: int, m: nat, q: int, r: nat)
    requires r < m && c == q * m + r
    ensures c / m == q && c % m == r
  {
    assert (q - c / m) * m == c % m - r;
    AtLeastOnce(q - c / m, m);
  }

  // ----- Powers of two

  function Pow2(n: nat): (r: nat)
    ensures r > 0
  {
    if n == 0 then 1 else 2 * Pow2(n - 1)
  }

  lemma {:induction false} PowGrows(n: nat)
    requires n >= 8
    ensures Pow2(n) >= 256
  {
    if n > 8 {
      PowGrows(n - 1);
    } else {
      assert Pow2(8) == 2 * Pow2(7) && Pow2(7) == 2 * Pow2(6) && Pow2(6) == 2 * Pow2(5) && Pow2(5) == 2 * Pow2(4);
      assert Pow2(4) == 2 * Pow2(3) && Pow2(3) == 8;
    }
  }
}
