/** Products, quotients and remainders, in the small steps the other modules use. */
module Arithmetic {

  function Positive(x: int): nat {
    if x > 0 then x else 0
  }

  /** k copies of m: multiplication that unfolds one factor at a time. */
  function Times(k: nat, m: int): int {
    if k == 0 then 0 else Times(k - 1, m) + m
  }

  lemma {:induction false} TimesIsProduct(k: nat, m: int)
    ensures Times(k, m) == k * m == m * k
  {
    if k > 0 {
      TimesIsProduct(k - 1, m);
      assert k * m == (k - 1) * m + m;
    }
  }

  lemma {:induction false} TimesAdd(j: nat, k: nat, m: int)
    ensures Times(j + k, m) == Times(j, m) + Times(k, m)
  {
    if k > 0 {
      TimesAdd(j, k - 1, m);
      assert j + k - 1 == j + (k - 1);
    }
  }

  lemma {:induction false} TimesMonotone(j: nat, k: nat, m: nat)
    requires j <= k
    ensures Times(j, m) <= Times(k, m)
    decreases k
  {
    if j < k {
      TimesMonotone(j, k - 1, m);
    }
  }

  lemma {:induction false} MulGap(m: nat, a: nat, b: nat)
    requires a < b
    ensures m * b >= m * a + m
  {
    if b > a + 1 {
      MulGap(m, a, b - 1);
    }
    assert m * b == m * (b - 1) + m;
  }

  /** A quotient and a remainder in range are the quotient and the remainder. */
  lemma {:induction false} DivModUnique(x: nat, m: nat, q: nat, r: nat)
    requires r < m && x == m * q + r
    ensures x / m == q && x % m == r
  {
    var q': nat := x / m;
    if q < q' {
      MulGap(m, q, q');
    } else if q' < q {
      MulGap(m, q', q);
    }
  }

  lemma {:induction false} DivStep(x: nat, m: nat)
    requires 0 < m
    ensures (x + m) / m == x / m + 1
  {
    var q: nat, r: nat := x / m, x % m;
    assert x == m * q + r;
    assert m * (q + 1) == m * q + m;
    DivModUnique(x + m, m, q + 1, r);
  }

  lemma {:induction false} QuotientBound(k: nat, m: nat, x: int)
    requires m > 0 && Times(k, m) <= x
    ensures x >= 0 && k <= x / m
  {
    if k > 0 {
      QuotientBound(k - 1, m, x - m);
      DivStep(x - m, m);
    }
  }
}
