/** Non-linear facts about natural numbers that the solver does not find by itself. */
module Arithmetic {
  lemma MulMono(a: nat, b: nat, c: nat)
    requires a <= b
    ensures a * c <= b * c && c * a <= c * b
  {
  }

  lemma MulNat(m: nat, n: nat)
    ensures m * n >= 0
  {
  }

  lemma DivLess(m: nat, k: nat, e: nat)
    requires e >= 1 && m < k * e
    ensures m / e < k
  {
    var q := m / e;
    assert m == q * e + m % e;
    assert q >= k ==> q * e >= k * e;
  }

  lemma DivAtLeast(m: nat, k: nat, e: nat)
    requires e >= 1 && k * e <= m
    ensures k <= m / e
  {
    var q := m / e;
    assert m == q * e + m % e;
    assert q + 1 <= k ==> (q + 1) * e <= k * e;
    assert (q + 1) * e == q * e + e;
  }

  /** Division is determined by quotient and remainder. */
  lemma DivUnique(m: nat, e: nat, q: nat, r: nat)
    requires e >= 1 && m == q * e + r && r < e
    ensures m / e == q && m % e == r
  {
    DivAtLeast(m, q, e);
    assert (q + 1) * e == q * e + e;
    DivLess(m, q + 1, e);
  }
}
