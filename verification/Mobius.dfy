/** Finite sums, the Moebius function the sieves tabulate, and its inversion identity
    (reference/tg_cdem_abel.cpp, lines 105-126). */
module Sums {

  /** The sum of f over lo <= i < hi. */
  function Sum(f: int -> int, lo: int, hi: int): int
    decreases hi - lo
  {
    if hi <= lo then 0 else Sum(f, lo, hi - 1) + f(hi - 1)
  }

  lemma {:induction false} SumSplit(f: int -> int, lo: int, mid: int, hi: int)
    requires lo <= mid <= hi
    ensures Sum(f, lo, hi) == Sum(f, lo, mid) + Sum(f, mid, hi)
    decreases hi - mid
  {
    if hi <= mid {
    } else {
      SumSplit(f, lo, mid, hi - 1);
    }
  }

  lemma {:induction false} SumEqual(f: int -> int, g: int -> int, lo: int, hi: int)
    requires forall i | lo <= i < hi :: f(i) == g(i)
    ensures Sum(f, lo, hi) == Sum(g, lo, hi)
    decreases hi - lo
  {
    if hi <= lo {
    } else {
      SumEqual(f, g, lo, hi - 1);
    }
  }

  lemma {:induction false} SumZero(f: int -> int, lo: int, hi: int)
    requires forall i | lo <= i < hi :: f(i) == 0
    ensures Sum(f, lo, hi) == 0
    decreases hi - lo
  {
    if hi <= lo {
    } else {
      SumZero(f, lo, hi - 1);
    }
  }

  lemma {:induction false} SumAdd(f: int -> int, g: int -> int, h: int -> int, lo: int, hi: int)
    requires forall i | lo <= i < hi :: h(i) == f(i) + g(i)
    ensures Sum(h, lo, hi) == Sum(f, lo, hi) + Sum(g, lo, hi)
    decreases hi - lo
  {
    if hi <= lo {
    } else {
      SumAdd(f, g, h, lo, hi - 1);
    }
  }

  lemma {:induction false} SumNegate(f: int -> int, g: int -> int, lo: int, hi: int)
    requires forall i | lo <= i < hi :: g(i) == -f(i)
    ensures Sum(g, lo, hi) == -Sum(f, lo, hi)
    decreases hi - lo
  {
    if hi <= lo {
    } else {
      SumNegate(f, g, lo, hi - 1);
    }
  }

  lemma {:induction false} SumMonotone(f: int -> int, g: int -> int, lo: int, hi: int)
    requires forall i | lo <= i < hi :: f(i) <= g(i)
    ensures Sum(f, lo, hi) <= Sum(g, lo, hi)
    decreases hi - lo
  {
    if hi <= lo {
    } else {
      SumMonotone(f, g, lo, hi - 1);
    }
  }

  function RealSum(f: int -> real, lo: int, hi: int): real
    decreases hi - lo
  {
    if hi <= lo then 0.0 else RealSum(f, lo, hi - 1) + f(hi - 1)
  }

  lemma {:induction false} RealSumSplit(f: int -> real, lo: int, mid: int, hi: int)
    requires lo <= mid <= hi
    ensures RealSum(f, lo, hi) == RealSum(f, lo, mid) + RealSum(f, mid, hi)
    decreases hi - mid
  {
    if hi <= mid {
    } else {
      RealSumSplit(f, lo, mid, hi - 1);
    }
  }

  lemma {:induction false} RealSumMonotone(f: int -> real, g: int -> real, lo: int, hi: int)
    requires forall i | lo <= i < hi :: f(i) <= g(i)
    ensures RealSum(f, lo, hi) <= RealSum(g, lo, hi)
    decreases hi - lo
  {
    if hi <= lo {
    } else {
      RealSumMonotone(f, g, lo, hi - 1);
    }
  }

  lemma {:induction false} RealSumAdd(f: int -> real, g: int -> real, h: int -> real, lo: int, hi: int)
    requires forall i | lo <= i < hi :: h(i) == f(i) + g(i)
    ensures RealSum(h, lo, hi) == RealSum(f, lo, hi) + RealSum(g, lo, hi)
    decreases hi - lo
  {
    if hi <= lo {
    } else {
      RealSumAdd(f, g, h, lo, hi - 1);
    }
  }

  lemma {:induction false} RealSumNonnegative(f: int -> real, lo: int, hi: int)
    requires forall i | lo <= i < hi :: f(i) >= 0.0
    ensures RealSum(f, lo, hi) >= 0.0
    decreases hi - lo
  {
    if hi <= lo {
    } else {
      RealSumNonnegative(f, lo, hi - 1);
    }
  }

  lemma RealSumWidens(f: int -> real, lo: int, hi: int, lo': int, hi': int)
    requires lo' <= lo <= hi <= hi' && forall i | lo' <= i < hi' :: f(i) >= 0.0
    ensures RealSum(f, lo, hi) <= RealSum(f, lo', hi')
  {
    RealSumSplit(f, lo', lo, hi');
    RealSumSplit(f, lo, hi, hi');
    RealSumNonnegative(f, lo', lo);
    RealSumNonnegative(f, hi, hi');
  }

  lemma {:induction false} RealSumAtMost(f: int -> real, g: int -> int, lo: int, hi: int)
    requires forall i | lo <= i < hi :: f(i) <= g(i) as real
    ensures RealSum(f, lo, hi) <= Sum(g, lo, hi) as real
    decreases hi - lo
  {
    if hi <= lo {
    } else {
      RealSumAtMost(f, g, lo, hi - 1);
    }
  }

  lemma {:induction false} RealSumAtLeast(f: int -> real, g: int -> int, slack: int -> int, lo: int, hi: int)
    requires forall i | lo <= i < hi :: g(i) as real <= f(i) + slack(i) as real
    ensures Sum(g, lo, hi) as real <= RealSum(f, lo, hi) + Sum(slack, lo, hi) as real
    decreases hi - lo
  {
    if hi <= lo {
    } else {
      RealSumAtLeast(f, g, slack, lo, hi - 1);
    }
  }
}

module Mobius {
  import opened Divisibility
  import opened Sums

  /** The Moebius function, by its least prime factor. */
  function Mu(n: nat): int
    requires n >= 1
    decreases n
  {
    if n == 1 then 1
    else
      var p := LeastFactor(n);
      Quotient(n, p);
      SmallerQuotient(n, p);
      if n / p % p == 0 then 0 else -Mu(n / p)
  }

  lemma SmallerQuotient(n: nat, p: nat)
    requires p >= 2 && n >= 1 && n % p == 0
    ensures 1 <= n / p < n
  {
    Quotient(n, p);
    Scale(n / p, 2, p);
  }

  lemma {:induction false} MuBounds(n: nat)
    requires n >= 1
    ensures -1 <= Mu(n) <= 1
    decreases n
  {
    if n <= 1 {
    } else {
      SmallerQuotient(n, LeastFactor(n));
      MuBounds(n / LeastFactor(n));
    }
  }

  // ---- The inversion identity ---------------------------------------------

  function DivisorTerm(n: nat, d: int): int {
    if d >= 1 && n % d == 0 then Mu(d) else 0
  }

  function DivisorTerms(n: nat): int -> int {
    d => DivisorTerm(n, d)
  }

  /** The sum of mu over the divisors of n up to K. */
  function DivisorSum(n: nat, K: nat): int {
    Sum(DivisorTerms(n), 1, K + 1)
  }

  function CoprimeTerm(n: nat, p: nat, d: int): int
    requires p > 0
  {
    if d % p != 0 then DivisorTerm(n, d) else 0
  }

  function MultipleTerm(n: nat, p: nat, d: int): int
    requires p > 0
  {
    if d % p == 0 then DivisorTerm(n, d) else 0
  }

  /** Summing over the multiples of p is summing over their quotients. */
  lemma {:induction false} SumOverMultiples(n: nat, p: nat, m: nat)
    requires p >= 1
    ensures Sum(d => MultipleTerm(n, p, d), 1, p * m + 1) == Sum(e => MultipleTerm(n, p, p * e), 1, m + 1)
    decreases m
  {
    var f := d => MultipleTerm(n, p, d);
    var g := e => MultipleTerm(n, p, p * e);
    if m == 0 {
      assert Sum(f, 1, 1) == Sum(g, 1, 1);
    } else {
      SumOverMultiples(n, p, m - 1);
      var start := p * (m - 1);
      assert p * m == start + p;
      SumSplit(f, 1, start + 1, p * m + 1);
      forall d | start + 1 <= d < p * m
        ensures f(d) == 0
      {
        DivisionUnique(d, p, m - 1, d - start);
      }
      SumZero(f, start + 1, p * m);
      assert Sum(f, start + 1, p * m + 1) == f(p * m) == g(m);
    }
  }

  lemma LeastFactorOfMultiple(n: nat, p: nat, e: nat)
    requires n >= 2 && p == LeastFactor(n) && e >= 1 && n % (p * e) == 0
    ensures LeastFactor(p * e) == p && (p * e) / p == e
  {
    Multiple(p, e);
    Scale(p, 1, e);
    forall k | 2 <= k < p
      ensures (p * e) % k != 0
    {
      if (p * e) % k == 0 { DividesTransitive(k, p * e, n); }
    }
    LeastFactorIs(p * e, p);
  }

  /** The divisors p e and e of n cancel, where p is the least prime factor of n. */
  lemma TermsCancel(n: nat, p: nat, e: nat)
    requires n >= 2 && p == LeastFactor(n) && e >= 1
    ensures MultipleTerm(n, p, p * e) == -CoprimeTerm(n, p, e)
  {
    LeastFactorPrime(n);
    Multiple(p, e);
    Scale(p, 1, e);
    if n % (p * e) == 0 {
      LeastFactorOfMultiple(n, p, e);
      Multiple(e, p);
      DividesTransitive(e, p * e, n);
    } else if n % e == 0 && e % p != 0 {
      CoprimeProduct(p, e, n);
    }
  }

  lemma CoprimeDivisorBound(n: nat, p: nat, e: nat)
    requires n > 0 && Prime(p) && e > 0 && n % p == 0 && n % e == 0 && e % p != 0
    ensures e <= n / p
  {
    CoprimeProduct(p, e, n);
    Quotient(n, p * e);
    Quotient(n, p);
    if e > n / p { LargerFactor(p, n / p, e); }
  }

  lemma LargerFactor(p: nat, q: nat, e: nat)
    requires p > 0 && q < e
    ensures p * q < p * e
  {
  }

  /** A divisor prime to p is at most n / p. */
  lemma CoprimeDivisorsAreSmall(n: nat, p: nat, e: nat)
    requires n >= 2 && p == LeastFactor(n) && n / p < e
    ensures CoprimeTerm(n, p, e) == 0
  {
    if n % e == 0 && e % p != 0 {
      LeastFactorPrime(n);
      CoprimeDivisorBound(n, p, e);
    }
  }

  /** MOEBIUS INVERSION. The sum of mu over all divisors of n is 1 for n = 1 and 0 otherwise. */
  lemma DivisorSumIsUnit(n: nat)
    requires n >= 1
    ensures DivisorSum(n, n) == if n == 1 then 1 else 0
  {
    if n == 1 {
      assert Sum(DivisorTerms(1), 1, 2) == Sum(DivisorTerms(1), 1, 1) + DivisorTerm(1, 1);
    } else {
      var p := LeastFactor(n);
      Quotient(n, p);
      SmallerQuotient(n, p);
      var m := n / p;
      var all, coprime, multiple := DivisorTerms(n), d => CoprimeTerm(n, p, d), d => MultipleTerm(n, p, d);
      SumAdd(coprime, multiple, all, 1, n + 1);
      MultiplesCancel(n, p, m, coprime, multiple);
      LargeCoprimes(n, p, m, coprime);
    }
  }

  lemma MultiplesCancel(n: nat, p: nat, m: nat, coprime: int -> int, multiple: int -> int)
    requires n >= 2 && p == LeastFactor(n) && p > 0
    requires forall d :: coprime(d) == CoprimeTerm(n, p, d) && multiple(d) == MultipleTerm(n, p, d)
    ensures Sum(multiple, 1, p * m + 1) == -Sum(coprime, 1, m + 1)
  {
    var named, lifted := d => MultipleTerm(n, p, d), e => MultipleTerm(n, p, p * e);
    SumEqual(multiple, named, 1, p * m + 1);
    SumOverMultiples(n, p, m);
    forall e | 1 <= e < m + 1
      ensures lifted(e) == -coprime(e)
    {
      TermsCancel(n, p, e);
    }
    SumNegate(coprime, lifted, 1, m + 1);
  }

  lemma LargeCoprimes(n: nat, p: nat, m: nat, coprime: int -> int)
    requires n >= 2 && p == LeastFactor(n) && p > 0 && m == n / p && m <= n
    requires forall d :: coprime(d) == CoprimeTerm(n, p, d)
    ensures Sum(coprime, 1, n + 1) == Sum(coprime, 1, m + 1)
  {
    forall e | m + 1 <= e < n + 1
      ensures coprime(e) == 0
    {
      CoprimeDivisorsAreSmall(n, p, e);
    }
    SumZero(coprime, m + 1, n + 1);
    SumSplit(coprime, 1, m + 1, n + 1);
  }

  /** Divisors above n do not exist, so truncating at any K >= n changes nothing. */
  lemma DivisorSumTruncated(n: nat, K: nat)
    requires 1 <= n <= K
    ensures DivisorSum(n, K) == if n == 1 then 1 else 0
  {
    var f := DivisorTerms(n);
    DivisorSumIsUnit(n);
    forall d | n + 1 <= d < K + 1
      ensures f(d) == 0
    {
      SmallIsOwnRemainder(n, d);
    }
    SumZero(f, n + 1, K + 1);
    SumSplit(f, 1, n + 1, K + 1);
  }
}
