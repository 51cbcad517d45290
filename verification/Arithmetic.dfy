/** Small facts about products, quotients and remainders. */
module Arithmetic {
  lemma Distribute(a: int, b: int, c: int)
    ensures (a + b) * c == a * c + b * c
  {}

  lemma Associate(a: int, b: int, c: int)
    ensures a * b * c == a * (b * c)
  {}

  lemma MulLe(a: nat, b: nat, c: nat)
    requires a <= b
    ensures a * c <= b * c
  {
    Distribute(a, b - a, c);
  }

  lemma SameQuotient(a: nat, b: nat, c: nat, d: nat, m: nat)
    requires b < m && d < m && a * m + b == c * m + d
    ensures a == c && b == d
  {
    if a < c {
      MulLe(a + 1, c, m);
      Distribute(a, 1, m);
    } else if c < a {
      MulLe(c + 1, a, m);
      Distribute(c, 1, m);
    }
  }

  lemma Divide(x: nat, p: nat)
    requires p > 0
    ensures x == (x / p) * p + x % p && x % p < p
  {}

  lemma ModUnique(x: nat, m: nat, e: nat, r: nat)
    requires m > 0 && x == e * m + r && r < m
    ensures x % m == r && x / m == e
  {
    Divide(x, m);
    SameQuotient(x / m, x % m, e, r, m);
  }

  lemma Quotient(a: nat, b: nat, m: nat)
    requires b < m
    ensures (a * m + b) / m == a
  {
    ModUnique(a * m + b, m, a, b);
  }

  /** Division of natural numbers is a natural number. */
  function Div(x: nat, p: nat): nat
    requires p > 0
  {
    x / p
  }

  lemma Sixty(a: nat, q: nat, r: nat)
    requires a == 60 * q + r && r < 60
    ensures a / 60 == q && a % 60 == r
  {}
}
