/** Multiplication and division facts with variable operands. */
module Arithmetic {

  lemma {:induction false} MulMonotone(m: nat, a: int, b: int)
    requires a <= b
    ensures m * a <= m * b
    decreases m
  {
    if m > 0 {
      MulMonotone(m - 1, a, b);
      assert m * a == (m - 1) * a + a && m * b == (m - 1) * b + b;
    }
  }

  lemma RemaindersAgree(m: nat, q: int, r: int, q': int, r': int)
    requires m * q + r == m * q' + r' && 0 <= r < m && 0 <= r' < m
    ensures q == q' && r == r'
  {
    if q < q' {
      assert m * (q + 1) == m * q + m;
      MulMonotone(m, q + 1, q');
    } else if q' < q {
      assert m * (q' + 1) == m * q' + m;
      MulMonotone(m, q' + 1, q);
    }
  }

  lemma DivModIdentity(x: int, m: int)
    requires m > 0
    ensures x == m * (x / m) + x % m && 0 <= x % m < m
  {
  }

  /** A quotient and remainder that fit are the quotient and remainder. */
  lemma DivModUnique(x: int, m: int, q: int, r: int)
    requires m > 0 && x == m * q + r && 0 <= r < m
    ensures x / m == q && x % m == r
  {
    DivModIdentity(x, m);
    RemaindersAgree(m, q, r, x / m, x % m);
  }
}
