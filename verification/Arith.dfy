/** Facts about products and quotients of variables. */
module Arith {

  function Min(a: int, b: int): (m: int)
    ensures m <= a && m <= b && (m == a || m == b)
  {
    if a <= b then a else b
  }

  function Max(a: int, b: int): (m: int)
    ensures a <= m && b <= m && (m == a || m == b)
  {
    if a < b then b else a
  }

  lemma MulOrder(g: int, a: int, b: int)
    requires g > 0
    ensures a < b ==> g * a + g <= g * b
  {
    if a < b {
      ProductOfNats(g, b - a - 1);
      assert g * b == g * a + g + g * (b - a - 1);
    }
  }

  lemma ProductOfNats(x: nat, y: nat)
    ensures x * y >= 0
  {
  }

  lemma SameResidue(len: nat, a: nat, b: nat, z: int)
    requires a < len && b < len && a - b == len * z
    ensures a == b
  {
    MulOrder(len, 0, z);
    MulOrder(len, z, 0);
  }

  lemma CancelFactor(g: nat, a: int, b: int)
    requires g > 0 && g * a == g * b
    ensures a == b
  {
    MulOrder(g, a, b);
    MulOrder(g, b, a);
  }

  lemma DivideExact(a: nat, g: nat, q: nat)
    requires g > 0 && a == g * q
    ensures a / g == q
  {
    MulOrder(g, a / g, q);
    MulOrder(g, q, a / g);
  }

  lemma DivideWithRest(a: int, m: nat) returns (q: int, k: nat)
    requires m > 0
    ensures a == m * q + k && k < m
  {
    q, k := a / m, a % m;
  }

  lemma DistributeMinus(g: int, x: int, y: int)
    ensures g * (x - y) == g * x - g * y
  {
  }

  lemma OneMore(k: int, x: int)
    ensures (k + 1) * x == k * x + x
  {
  }

  lemma QuotientIsUnique(p: nat, q: int, r: nat, q': int, r': nat)
    requires r < p && r' < p && p * q + r == p * q' + r'
    ensures q == q' && r == r'
  {
    MulOrder(p, q, q');
    MulOrder(p, q', q);
  }

  lemma DivMod(x: nat, p: nat, q: nat, r: nat)
    requires r < p && x == p * q + r
    ensures x / p == q && x % p == r
  {
    QuotientIsUnique(p, q, r, x / p, x % p);
  }
}
