/** Multiplication and division of natural numbers, one step at a time. */
module Arithmetic {

  lemma MulMonotone(m: nat, a: nat, b: nat)
    requires a <= b
    ensures m * a <= m * b
  {
  }

  /** Products with the same factor compare like the other factors. */
  lemma MulCancels(m: nat, a: nat, b: nat)
    requires m * a < m * b
    ensures a < b
  {
    if b <= a {
      MulMonotone(m, b, a);
    }
  }

  lemma DivisionIsUnique(n: nat, m: nat, q: nat, r: nat)
    requires m > 0 && n == m * q + r && r < m
    ensures n / m == q && n % m == r
  {
    var k := n / m;
    assert n == m * k + n % m;
    assert m * (k + 1) == m * k + m && m * (q + 1) == m * q + m;
    MulCancels(m, k, q + 1);
    MulCancels(m, q, k + 1);
  }

  lemma MulDistributes(m: nat, a: nat, b: nat)
    ensures m * (a + b) == m * a + m * b
  {
  }

  lemma RemainderOfSum(n: nat, k: nat, m: nat, q: nat, r: nat, p: nat, t: nat)
    requires m > 0 && n == m * q + r && r + k == m * p + t && t < m
    ensures (n + k) % m == t
  {
    MulDistributes(m, q, p);
    DivisionIsUnique(n + k, m, q + p, t);
  }

  /** Counting on from a count that has wrapped around. */
  lemma ModuloPlus(n: nat, k: nat, m: nat)
    requires m > 0
    ensures (n % m + k) % m == (n + k) % m
  {
    var r := n % m;
    RemainderOfSum(n, k, m, n / m, r, (r + k) / m, (r + k) % m);
  }

  lemma DivideOut(n: nat, m: nat)
    requires m > 0
    ensures m * (n / m + 1) == n - n % m + m
  {
    assert n == m * (n / m) + n % m;
    assert m * (n / m + 1) == m * (n / m) + m;
  }
}
