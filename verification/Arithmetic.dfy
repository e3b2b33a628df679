/** Products and quotients of natural numbers, in the small steps the ledger proofs need. */
module Arithmetic {

  lemma MulMono(a: nat, b: nat, c: nat, d: nat)
    requires a <= b && c <= d
    ensures a * c <= b * d
  {
    assert a * c <= b * c <= b * d;
  }

  lemma DivBounds(n: nat, d: nat)
    requires d > 0
    ensures 0 <= n / d && (n / d) * d <= n < (n / d) * d + d
  {
  }

  lemma DivAtMost(n: nat, d: nat, q: nat)
    requires d > 0 && n <= q * d
    ensures n / d <= q
  {
    DivBounds(n, d);
    if n / d > q {
      MulMono(q + 1, n / d, d, d);
    }
  }

  lemma ExactQuotient(n: nat, d: nat)
    requires d > 0
    ensures d * n / d == n
  {
    DivBounds(d * n, d);
    DivAtMost(d * n, d, n);
    if d * n / d < n {
      MulMono(d * n / d + 1, n, d, d);
    }
  }

  lemma Commute(x: int, y: int)
    ensures x * y == y * x
  {
  }

  lemma CancelFactor(x: nat, y: nat, c: nat)
    requires c > 0 && x * c >= y * c
    ensures x >= y
  {
    if x < y {
      MulMono(x + 1, y, c, c);
    }
  }

  lemma CancelLess(a: nat, b: nat, n: nat)
    requires a * n < b * n
    ensures a < b
  {
    if a >= b { MulMono(b, a, n, n); }
  }

  /** A quotient and remainder are determined by their defining equation. */
  lemma DivModUnique(x: nat, n: nat, q: nat, r: nat)
    requires r < n && x == q * n + r
    ensures x / n == q && x % n == r
  {
    var q' := x / n;
    assert x == q' * n + x % n;
    assert (q + 1) * n == q * n + n && (q' + 1) * n == q' * n + n;
    CancelLess(q, q' + 1, n);
    CancelLess(q', q + 1, n);
  }

  lemma ModTimesAdd(x: nat, q: nat, n: nat)
    requires x < n
    ensures (q * n + x) % n == x
  {
    DivModUnique(q * n + x, n, q, x);
  }

  lemma DivisionOf(x: int, m: nat)
    requires m > 0
    ensures x == (x / m) * m + x % m && 0 <= x % m < m
  {
  }

  /** Numbers that differ by a multiple of m have the same residue. */
  lemma SameResidues(x: int, y: int, m: nat, k: int)
    requires m > 0 && x == y + k * m
    ensures x % m == y % m
  {
    DivisionOf(x, m);
    DivisionOf(y, m);
    var q: int := x / m - y / m - k;
    assert q * m == (x / m) * m - (y / m) * m - k * m;
    NoFullStep(q, m, y % m - x % m);
  }

  lemma NoFullStep(q: int, m: int, d: int)
    requires m > 0 && q * m == d && -m < d < m
    ensures d == 0
  {
    if q > 0 { MulMono(1, q, m, m); } else if q < 0 { MulMono(1, -q, m, m); }
  }

  /** Reducing one summand first does not change a sum's remainder. */
  lemma ModSum(a: nat, b: nat, n: nat)
    requires n > 0
    ensures (a % n + b) % n == (a + b) % n
  {
    DivisionOf(a, n);
    SameResidues(a + b, a % n + b, n, a / n);
  }

  /** The quotient is the largest factor that fits. */
  lemma QuotientIsLargest(x: nat, n: nat, d: nat)
    requires d > 0
    ensures x <= n / d <==> x * d <= n
  {
    DivBounds(n, d);
    if x <= n / d {
      MulMono(x, n / d, d, d);
    } else {
      MulMono(n / d + 1, x, d, d);
    }
  }
}
