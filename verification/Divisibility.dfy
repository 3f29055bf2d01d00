/** Divisors, primes and Euclid's lemma. */
module Divisibility {

  /** A quotient and remainder are determined by the division identity. */
  lemma DivisionUnique(n: int, d: int, q: int, r: int)
    requires d > 0 && 0 <= r < d && n == d * q + r
    ensures n / d == q && n % d == r
  {
    var gap := n / d - q;
    assert d * gap == r - n % d;
    if gap >= 1 {
      Scale(d, 1, gap);
    } else if gap <= -1 {
      Scale(d, gap, -1);
    }
  }

  lemma Scale(d: int, a: int, b: int)
    requires d >= 0 && a <= b
    ensures d * a <= d * b
  {
  }

  lemma Multiple(d: nat, k: nat)
    requires d > 0
    ensures (d * k) % d == 0 && (d * k) / d == k
  {
    DivisionUnique(d * k, d, k, 0);
  }

  lemma Quotient(n: nat, d: nat)
    requires d > 0 && n % d == 0
    ensures n == d * (n / d)
    ensures n > 0 ==> n / d > 0 && d <= n
  {
    if n > 0 {
      assert n / d != 0;
      Scale(d, 1, n / d);
    }
  }

  lemma DividesTransitive(a: nat, b: nat, c: nat)
    requires a > 0 && b > 0 && b % a == 0 && c % b == 0
    ensures c % a == 0
  {
    Quotient(b, a);
    Quotient(c, b);
    var k := b / a;
    var m := c / b;
    assert c == a * (k * m);
    Multiple(a, k * m);
  }

  lemma DividesProduct(d: nat, a: nat, b: nat)
    requires d > 0 && a % d == 0
    ensures (a * b) % d == 0 && (b * a) % d == 0
  {
    Quotient(a, d);
    assert a * b == d * (a / d * b);
    Multiple(d, a / d * b);
  }

  lemma DividesDifference(d: nat, a: nat, b: nat)
    requires d > 0 && a % d == 0 && b % d == 0 && b <= a
    ensures (a - b) % d == 0
  {
    Quotient(a, d);
    Quotient(b, d);
    assert a - b == d * (a / d - b / d);
    DivisionUnique(a - b, d, a / d - b / d, 0);
  }

  predicate Prime(p: nat) {
    p >= 2 && forall d | 2 <= d < p :: p % d != 0
  }

  lemma RemainderKeepsDivisibility(p: nat, a: nat, b: nat)
    requires p > 0 && (a * b) % p == 0
    ensures (a % p * b) % p == 0
  {
    var q, r := a / p, a % p;
    assert a * b == p * (q * b) + r * b by { assert a == p * q + r; }
    Scale(b, 0, r);
    Multiple(p, q * b);
    DividesDifference(p, a * b, p * (q * b));
  }

  lemma SwappedRemainderKeepsDivisibility(p: nat, a: nat, b: nat)
    requires p > 0 && a > 0 && (a * b) % p == 0
    ensures (p % a * b) % p == 0
  {
    var q, r := p / a, p % a;
    assert p * b == q * (a * b) + r * b by { assert p == a * q + r; }
    Scale(b, 0, r);
    DividesProduct(p, p, b);
    DividesProduct(p, a * b, q);
    DividesDifference(p, p * b, q * (a * b));
  }

  lemma SmallIsOwnRemainder(r: nat, p: nat)
    requires r < p
    ensures r % p == r
  {
    DivisionUnique(r, p, 0, r);
  }

  /** A prime that divides a product divides a factor. */
  lemma {:induction false} Euclid(p: nat, a: nat, b: nat)
    requires Prime(p) && (a * b) % p == 0 && a % p != 0
    ensures b % p == 0
    decreases a
  {
    if a >= p {
      RemainderKeepsDivisibility(p, a, b);
      SmallIsOwnRemainder(a % p, p);
      Euclid(p, a % p, b);
    } else if a > 1 {
      SwappedRemainderKeepsDivisibility(p, a, b);
      SmallIsOwnRemainder(p % a, p);
      Euclid(p, p % a, b);
    }
  }

  /** Two divisors, one of them a prime that does not divide the other, divide jointly. */
  lemma CoprimeProduct(p: nat, e: nat, n: nat)
    requires Prime(p) && e > 0 && n % p == 0 && n % e == 0 && e % p != 0
    ensures n % (p * e) == 0
  {
    Quotient(n, e);
    var q := n / e;
    Euclid(p, e, q);
    Quotient(q, p);
    assert n == p * e * (q / p);
    Multiple(p * e, q / p);
  }

  // ---- Least prime factor -------------------------------------------------

  function LeastFactorFrom(n: nat, d: nat): (r: nat)
    requires 2 <= d <= n && forall k | 2 <= k < d :: n % k != 0
    ensures d <= r <= n && n % r == 0 && forall k | 2 <= k < r :: n % k != 0
    decreases n - d
  {
    if n % d == 0 then d
    else
      assert d != n by { DivisionUnique(n, n, 1, 0); }
      LeastFactorFrom(n, d + 1)
  }

  /** The least divisor above one. */
  function LeastFactor(n: nat): (r: nat)
    requires n >= 2
    ensures 2 <= r <= n && n % r == 0 && forall k | 2 <= k < r :: n % k != 0
  {
    LeastFactorFrom(n, 2)
  }

  lemma LeastFactorPrime(n: nat)
    requires n >= 2
    ensures Prime(LeastFactor(n))
    ensures LeastFactor(n) == n <==> Prime(n)
  {
    var p := LeastFactor(n);
    forall d | 2 <= d < p
      ensures p % d != 0
    {
      if p % d == 0 { DividesTransitive(d, p, n); }
    }
  }

  lemma LeastFactorIs(n: nat, p: nat)
    requires n >= 2 && p >= 2 && n % p == 0 && forall k | 2 <= k < p :: n % k != 0
    ensures LeastFactor(n) == p
  {
    Quotient(n, p);
  }
}
