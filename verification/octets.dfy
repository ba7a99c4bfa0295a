/** Bytes and powers of two. */
module Octets {

  type byte = x: int | 0 <= x < 256

  function Pow2(k: nat): (p: nat)
    ensures p > 0
  {
    if k == 0 then 1 else 2 * Pow2(k - 1)
  }

  lemma Pow2Adds(a: nat, b: nat)
    ensures Pow2(a + b) == Pow2(a) * Pow2(b)
  {
    if a > 0 {
      Pow2Adds(a - 1, b);
      assert Pow2(a + b) == 2 * Pow2(a - 1 + b);
      assert Pow2(a) * Pow2(b) == 2 * (Pow2(a - 1) * Pow2(b));
    }
  }

  lemma Pow2Grows(a: nat, b: nat)
    requires a <= b
    ensures Pow2(a) <= Pow2(b)
  {
    if a < b { Pow2Grows(a, b - 1); }
  }

  /** Bit i of a number, counted from the lowest. */
  predicate Bit(n: nat, i: nat) {
    n / Pow2(i) % 2 == 1
  }

  lemma LowBit(n: nat)
    ensures Bit(n, 0) <==> n % 2 == 1
  {
  }

  lemma BitUp(n: nat, i: nat)
    ensures Bit(n, i + 1) <==> Bit(n / 2, i)
  {
    Halves(n, Pow2(i));
  }

  lemma Halves(n: nat, p: nat)
    requires p > 0
    ensures n / (2 * p) == n / 2 / p
  {
    var q, r := n / 2 / p, n / 2 % p;
    assert n / 2 == q * p + r && n == 2 * (n / 2) + n % 2;
    assert n == (2 * p) * q + (2 * r + n % 2);
    assert 0 <= 2 * r + n % 2 < 2 * p;
    Quotient(n, 2 * p, q);
  }

  lemma Quotient(n: int, d: int, q: int)
    requires d > 0 && q * d <= n < q * d + d
    ensures n / d == q
  {
    var k := n / d;
    assert n == k * d + n % d;
    if k < q { Times(k + 1, q, d); }
    if k > q { Times(q + 1, k, d); }
  }

  lemma DivMod(n: int, d: int, q: int, r: int)
    requires d > 0 && 0 <= r < d && n == q * d + r
    ensures n / d == q && n % d == r
  {
    Quotient(n, d, q);
    assert n == n / d * d + n % d;
  }

  lemma Times(a: int, b: int, d: int)
    requires a <= b && d >= 0
    ensures a * d <= b * d
  {
    assert (b - a) * d >= 0;
  }
}
