/** Facts about products, quotients and bits of integers that several units rest on. */
module Arithmetic {

  lemma ProductMono(x: int, y: int, d: int)
    requires x <= y && 0 <= d
    ensures x * d <= y * d
  {
  }

  lemma SameDivision(d: int, q: int, r: int, q': int, r': int)
    requires q * d + r == q' * d + r' && 0 <= r < d && 0 <= r' < d
    ensures q == q' && r == r'
  {
    if q < q' {
      ProductMono(q + 1, q', d);
    } else if q > q' {
      ProductMono(q' + 1, q, d);
    }
  }

  /** Quotient and remainder are the only way to write a number as a multiple and a rest. */
  lemma DivModUnique(n: int, d: int, q: int, r: int)
    requires d > 0 && n == q * d + r && 0 <= r < d
    ensures n / d == q && n % d == r
  {
    SameDivision(d, q, r, n / d, n % d);
  }

  lemma QuotientInRange(N: int, A: int, K: int)
    requires A > 0 && 0 <= N < A * K
    ensures 0 <= N / A < K
  {
    var hi := N / A;
    assert N == hi * A + N % A;
    if hi < 0 {
      ProductMono(hi, -1, A);
    } else if hi >= K {
      ProductMono(K, hi, A);
    }
  }

  lemma DivBelow(n: nat, d: nat, q: nat)
    requires d > 0 && n < q * d
    ensures n / d < q
    ensures n == n / d * d + n % d && n % d < d
  {
    var k := n / d;
    assert n == k * d + n % d;
    if k >= q {
      ProductMono(q, k, d);
    }
  }

  /** Bitwise or of two indices. */
  function BitOr(x: nat, y: nat): nat {
    if x == 0 then y
    else if y == 0 then x
    else 2 * BitOr(x / 2, y / 2) + (if x % 2 == 1 || y % 2 == 1 then 1 else 0)
  }
}
