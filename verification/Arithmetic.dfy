/** Division with remainder, in small steps. */
module Arithmetic {

  lemma {:induction false} Divided(x: nat, n: nat)
    requires n > 0
    ensures x == x / n * n + x % n && x / n >= 0 && x % n < n
  {
  }

  lemma {:induction false} Times(j: int, k: int, n: nat)
    ensures (k - j) * n == k * n - j * n
    ensures j < k ==> j * n + n <= k * n
  {
    if j < k { assert (k - j) * n == (k - j - 1) * n + n; }
  }

  /** Quotient and remainder are unique. */
  lemma {:induction false} SameQuotient(x: nat, n: nat, q: nat, r: nat)
    requires x == q * n + r && r < n
    ensures x / n == q && x % n == r
  {
    Divided(x, n);
    Times(q, x / n, n);
    Times(x / n, q, n);
  }

  /** The remainder by a product, from a quotient and its own remainder. */
  lemma {:induction false} Compose(x: nat, n: nat, m: nat)
    requires n > 0 && m > 0
    ensures x % (n * m) == x / n % m * n + x % n && n * m > 0
  {
    Positive(n, m);
    Divided(x, n);
    Divided(x / n, m);
    var q, r := x / n / m, x / n % m * n + x % n;
    Rearranged(q, m, x / n % m, n, x % n);
    Times(x / n % m, m, n);
    Commuted(m, n);
    SameQuotient(x, n * m, q, r);
  }

  lemma {:induction false} Positive(n: nat, m: nat)
    requires n > 0 && m > 0
    ensures n * m > 0
  {
  }

  lemma {:induction false} Commuted(m: int, n: int)
    ensures m * n == n * m
  {
  }

  lemma {:induction false} Rearranged(q: int, m: int, a: int, n: int, b: int)
    ensures (q * m + a) * n + b == q * (n * m) + (a * n + b)
  {
    assert (q * m + a) * n == q * m * n + a * n;
    assert q * m * n == q * (m * n) == q * (n * m);
  }
}
