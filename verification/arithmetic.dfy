/** Powers of two, and division with remainder. */
module Arithmetic {

  function Pow2(n: nat): (r: nat)
    ensures r > 0
  {
    if n == 0 then 1 else 2 * Pow2(n - 1)
  }

  lemma Pow2More(m: nat)
    ensures Pow2(m + 2) == 4 * Pow2(m) && Pow2(m + 5) == 32 * Pow2(m) && Pow2(m + 8) == 256 * Pow2(m)
  {
    assert Pow2(m + 1) == 2 * Pow2(m) && Pow2(m + 2) == 2 * Pow2(m + 1) && Pow2(m + 3) == 2 * Pow2(m + 2);
    assert Pow2(m + 4) == 2 * Pow2(m + 3) && Pow2(m + 5) == 2 * Pow2(m + 4) && Pow2(m + 6) == 2 * Pow2(m + 5);
    assert Pow2(m + 7) == 2 * Pow2(m + 6) && Pow2(m + 8) == 2 * Pow2(m + 7);
  }

  lemma NextRound(n: nat, d: nat)
    requires d > 0
    ensures n % d + 1 < d ==> (n + 1) / d == n / d && (n + 1) % d == n % d + 1
    ensures n % d + 1 == d ==> (n + 1) / d == n / d + 1 && (n + 1) % d == 0
  {
    var q, r := n / d, n % d;
    assert n == d * q + r;
    if r + 1 < d {
      DivUnique(n + 1, d, q, r + 1);
    } else {
      assert d * (q + 1) == d * q + d;
      DivUnique(n + 1, d, q + 1, 0);
    }
  }

  lemma DivUnique(n: nat, d: nat, q: nat, r: nat)
    requires r < d && n == d * q + r
    ensures n / d == q && n % d == r
  {
    var e := n / d - q;
    assert d * (n / d) - d * q == d * e;
    assert d * e == r - n % d;
    ProductIsFar(d, e);
  }

  lemma ProductIsFar(d: nat, e: int)
    ensures e >= 1 ==> d * e >= d
    ensures e <= -1 ==> d * e + d <= 0
  {
    if e >= 1 {
      assert d * e == d + d * (e - 1);
    } else if e <= -1 {
      assert d * e + d == d * (e + 1);
    }
  }
}
