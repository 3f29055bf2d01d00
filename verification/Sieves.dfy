/** The linear sieve of the producer and the flip-and-zero sieve of the replayer both tabulate the
    Moebius function (reference/tg_cdem_abel.cpp, lines 105-126;
    reference/tg_cdem_abel_chunk_replay.cpp, lines 122-147). */
module Sieves {
  import opened Divisibility
  import opened Mobius

  // ---- The linear sieve ---------------------------------------------------

  function Cofactor(m: nat): (c: nat)
    requires m >= 2
    ensures 1 <= c < m && m == LeastFactor(m) * c
  {
    Quotient(m, LeastFactor(m));
    SmallerQuotient(m, LeastFactor(m));
    m / LeastFactor(m)
  }

  lemma CofactorLaws(m: nat)
    requires m >= 2 && !Prime(m)
    ensures Cofactor(m) >= 2
    ensures LeastFactor(m) <= LeastFactor(Cofactor(m)) <= Cofactor(m)
  {
    LeastFactorPrime(m);
    var p, c := LeastFactor(m), Cofactor(m);
    var q := LeastFactor(c);
    Multiple(c, p);
    DividesTransitive(q, c, m);
  }

  /** Multiplying i by a prime up to its least factor gives the number with that least factor and
      cofactor i. */
  lemma ProductFactors(i: nat, p: nat)
    requires i >= 2 && Prime(p) && p <= LeastFactor(i)
    ensures i * p >= 2 && LeastFactor(i * p) == p && Cofactor(i * p) == i && !Prime(i * p)
    ensures Mu(i * p) == if i % p == 0 then 0 else -Mu(i)
  {
    Scale(i, 2, p);
    Multiple(p, i);
    Multiple(i, p);
    forall k | 2 <= k < p
      ensures (i * p) % k != 0
    {
      if (i * p) % k == 0 {
        var q := LeastFactor(k);
        LeastFactorPrime(k);
        DividesTransitive(q, k, i * p);
        if i % q != 0 {
          Euclid(q, i, p);
        }
      }
    }
    LeastFactorIs(i * p, p);
    LeastFactorPrime(i * p);
  }

  /** The primes below n, in order. */
  ghost predicate PrimesBelow(primes: seq<nat>, n: nat) {
    && (forall j | 0 <= j < |primes| :: Prime(primes[j]) && primes[j] < n)
    && (forall j, k | 0 <= j < k < |primes| :: primes[j] < primes[k])
    && (forall p: nat | Prime(p) && p < n :: p in primes)
  }

  /** m's entry has been written once i is the number in hand and its primes below bound are used. */
  predicate Marked(m: nat, i: nat, bound: nat)
    requires m >= 2
  {
    !Prime(m) && (Cofactor(m) < i || (Cofactor(m) == i && LeastFactor(m) < bound))
  }

  lemma CofactorBound(m: nat, i: nat)
    requires m >= 2 && !Prime(m) && Cofactor(m) == i
    ensures i >= 2 && m == i * LeastFactor(m) && Prime(LeastFactor(m)) && LeastFactor(m) <= LeastFactor(i) <= i
  {
    CofactorLaws(m);
    LeastFactorPrime(m);
  }

  /** Past the table there is nothing left to mark. */
  lemma MarkedBeyondTable(m: nat, i: nat, p: nat, K: nat)
    requires 2 <= m <= K < i * p && Marked(m, i, i + 1)
    ensures Marked(m, i, p)
  {
    if Cofactor(m) == i {
      CofactorBound(m, i);
      if LeastFactor(m) >= p { Scale(i, p, LeastFactor(m)); }
    }
  }

  /** After the least factor of i there is nothing left to mark. */
  lemma MarkedLast(m: nat, i: nat)
    requires m >= 2 && i >= 2 && Marked(m, i, i + 1) && m != i * LeastFactor(i)
    ensures Marked(m, i, LeastFactor(i))
  {
    if Cofactor(m) == i { CofactorBound(m, i); }
  }

  function Bound(primes: seq<nat>, j: nat, i: nat): nat {
    if j < |primes| then primes[j] else i + 1
  }

  /** One prime marks one number. */
  lemma MarkedNext(m: nat, i: nat, primes: seq<nat>, j: nat)
    requires m >= 2 && PrimesBelow(primes, i + 1) && j < |primes|
    requires Marked(m, i, Bound(primes, j + 1, i)) && m != i * primes[j]
    ensures Marked(m, i, primes[j])
  {
    if Cofactor(m) == i {
      CofactorBound(m, i);
      var k :| 0 <= k < |primes| && primes[k] == LeastFactor(m);
    }
  }

  lemma NoDivisorYet(i: nat, primes: seq<nat>, j: nat)
    requires i >= 2 && PrimesBelow(primes, i + 1) && j < |primes|
    requires forall k | 0 <= k < j :: i % primes[k] != 0
    ensures primes[j] <= LeastFactor(i)
    ensures i % primes[j] == 0 ==> primes[j] == LeastFactor(i)
  {
    LeastFactorPrime(i);
    var k :| 0 <= k < |primes| && primes[k] == LeastFactor(i);
  }

  ghost predicate LinearState(mu: seq<int>, composite: seq<bool>, K: nat, i: nat, bound: nat) {
    && |mu| == |composite| == K + 1 && K >= 1
    && mu[0] == 0 && mu[1] == 1
    && (forall m | 2 <= m <= K :: composite[m] <==> Marked(m, i, bound))
    && (forall m | 2 <= m <= K && Marked(m, i, bound) :: mu[m] == Mu(m))
  }

  ghost predicate PrimesSet(mu: seq<int>, i: nat) {
    forall m | 2 <= m < |mu| && m < i && Prime(m) :: mu[m] == -1
  }

  lemma PrimeMu(p: nat)
    requires Prime(p)
    ensures Mu(p) == -1
  {
    LeastFactorPrime(p);
    DivisionUnique(p, p, 1, 0);
    SmallIsOwnRemainder(1, p);
  }

  /** Writing the entry i * p completes the state when p was the only prime missing. */
  lemma WriteProduct(
    mu: seq<int>, composite: seq<bool>, K: nat, i: nat, p: nat, bound: nat, mu': seq<int>, composite': seq<bool>)
    requires 2 <= i <= K && LinearState(mu, composite, K, i, p) && mu[i] == Mu(i)
    requires Prime(p) && p <= LeastFactor(i) && i * p <= K && p < bound
    requires mu' == mu[i * p := if i % p == 0 then 0 else -mu[i]] && composite' == composite[i * p := true]
    requires forall m | 2 <= m <= K && Marked(m, i, bound) && m != i * p :: Marked(m, i, p)
    ensures LinearState(mu', composite', K, i, bound)
    ensures forall m | 2 <= m <= K && Prime(m) :: mu'[m] == mu[m]
  {
    ProductFactors(i, p);
    forall m | 2 <= m <= K
      ensures composite'[m] <==> Marked(m, i, bound)
      ensures Marked(m, i, bound) ==> mu'[m] == Mu(m)
    {
    }
  }

  lemma WidenBound(mu: seq<int>, composite: seq<bool>, K: nat, i: nat, p: nat, i': nat, bound: nat)
    requires LinearState(mu, composite, K, i, p)
    requires forall m | 2 <= m <= K :: Marked(m, i, p) <==> Marked(m, i', bound)
    ensures LinearState(mu, composite, K, i', bound)
  {
  }

  lemma NextNumber(mu: seq<int>, composite: seq<bool>, K: nat, i: nat, next: nat)
    requires i >= 2 && next == i + 1 && LinearState(mu, composite, K, i, next)
    ensures LinearState(mu, composite, K, next, 0)
  {
    forall m | 2 <= m <= K
      ensures Marked(m, i, next) <==> Marked(m, next, 0)
    {
      if !Prime(m) && Cofactor(m) == i { CofactorBound(m, i); }
    }
    WidenBound(mu, composite, K, i, next, next, 0);
  }

  lemma FirstPrime(mu: seq<int>, composite: seq<bool>, K: nat, i: nat, primes: seq<nat>)
    requires i >= 2 && PrimesBelow(primes, i + 1) && LinearState(mu, composite, K, i, 0)
    ensures LinearState(mu, composite, K, i, Bound(primes, 0, i))
  {
    assert 2 in primes by { assert Prime(2); }
    assert primes[0] == 2;
    WidenBound(mu, composite, K, i, 0, i, Bound(primes, 0, i));
  }

  lemma BeyondTable(mu: seq<int>, composite: seq<bool>, K: nat, i: nat, p: nat)
    requires LinearState(mu, composite, K, i, p) && K < i * p && p <= i
    ensures LinearState(mu, composite, K, i, i + 1)
  {
    forall m | 2 <= m <= K && Marked(m, i, i + 1)
      ensures Marked(m, i, p)
    {
      MarkedBeyondTable(m, i, p, K);
    }
    WidenBound(mu, composite, K, i, p, i, i + 1);
  }

  lemma LastProduct(mu: seq<int>, composite: seq<bool>, K: nat, i: nat, p: nat, mu': seq<int>, composite': seq<bool>)
    requires 2 <= i <= K && LinearState(mu, composite, K, i, p) && mu[i] == Mu(i)
    requires Prime(p) && p == LeastFactor(i) && i * p <= K
    requires mu' == mu[i * p := 0] && composite' == composite[i * p := true]
    ensures LinearState(mu', composite', K, i, i + 1)
    ensures forall m | 2 <= m <= K && Prime(m) :: mu'[m] == mu[m]
  {
    forall m | 2 <= m <= K && Marked(m, i, i + 1) && m != i * p
      ensures Marked(m, i, p)
    {
      MarkedLast(m, i);
    }
    WriteProduct(mu, composite, K, i, p, i + 1, mu', composite');
  }

  lemma NextProduct(
    mu: seq<int>, composite: seq<bool>, K: nat, i: nat, primes: seq<nat>, j: nat, mu': seq<int>, composite': seq<bool>)
    requires 2 <= i <= K && PrimesBelow(primes, i + 1) && j < |primes|
    requires LinearState(mu, composite, K, i, primes[j]) && mu[i] == Mu(i)
    requires primes[j] <= LeastFactor(i) && i % primes[j] != 0 && i * primes[j] <= K
    requires mu' == mu[i * primes[j] := -mu[i]] && composite' == composite[i * primes[j] := true]
    ensures LinearState(mu', composite', K, i, Bound(primes, j + 1, i))
    ensures forall m | 2 <= m <= K && Prime(m) :: mu'[m] == mu[m]
  {
    var next := Bound(primes, j + 1, i);
    forall m | 2 <= m <= K && Marked(m, i, next) && m != i * primes[j]
      ensures Marked(m, i, primes[j])
    {
      MarkedNext(m, i, primes, j);
    }
    WriteProduct(mu, composite, K, i, primes[j], next, mu', composite');
  }

  /** Mark i p for the next prime p; stop past the table, or after a prime that divides i. */
  method MarkProduct(K: nat, i: nat, primes: seq<nat>, j: nat, mu: array<int>, composite: array<bool>)
    returns (last: bool)
    requires 2 <= i <= K && PrimesBelow(primes, i + 1) && mu.Length == composite.Length == K + 1 && j < |primes|
    requires LinearState(mu[..], composite[..], K, i, primes[j]) && PrimesSet(mu[..], i + 1) && mu[i] == Mu(i)
    requires 2 <= primes[j] <= LeastFactor(i) && Prime(primes[j])
    requires i % primes[j] == 0 ==> primes[j] == LeastFactor(i)
    modifies mu, composite
    ensures last == (i * primes[j] > K || i % primes[j] == 0) && mu[i] == Mu(i) && PrimesSet(mu[..], i + 1)
    ensures LinearState(mu[..], composite[..], K, i, if last then i + 1 else Bound(primes, j + 1, i))
  {
    ghost var mu0, composite0 := mu[..], composite[..];
    var p := primes[j];
    var product := i * p;
    if product > K {
      BeyondTable(mu0, composite0, K, i, p);
      return true;
    }
    Scale(i, 2, p);
    composite[product] := true;
    if i % p == 0 {
      mu[product] := 0;
      LastProduct(mu0, composite0, K, i, p, mu[..], composite[..]);
      return true;
    }
    mu[product] := -mu[i];
    NextProduct(mu0, composite0, K, i, primes, j, mu[..], composite[..]);
    last := false;
  }

  /** The inner loop: mark the multiples of i by the primes up to its least factor. */
  method MarkMultiples(K: nat, i: nat, primes: seq<nat>, mu: array<int>, composite: array<bool>)
    requires 2 <= i <= K && PrimesBelow(primes, i + 1) && mu.Length == composite.Length == K + 1
    requires LinearState(mu[..], composite[..], K, i, 0) && PrimesSet(mu[..], i + 1) && mu[i] == Mu(i)
    modifies mu, composite
    ensures LinearState(mu[..], composite[..], K, i + 1, 0) && PrimesSet(mu[..], i + 1)
  {
    FirstPrime(mu[..], composite[..], K, i, primes);
    var j := 0;
    while j < |primes|
      invariant 0 <= j <= |primes| && mu[i] == Mu(i)
      invariant forall k | 0 <= k < j :: i % primes[k] != 0
      invariant LinearState(mu[..], composite[..], K, i, Bound(primes, j, i))
      invariant PrimesSet(mu[..], i + 1)
    {
      NoDivisorYet(i, primes, j);
      var last := MarkProduct(K, i, primes, j, mu, composite);
      if last {
        break;
      }
      j := j + 1;
    }
    NextNumber(mu[..], composite[..], K, i, i + 1);
  }

  method LinearSieve(K: nat) returns (mu: array<int>)
    requires K >= 1
    ensures fresh(mu) && mu.Length == K + 1 && mu[0] == 0
    ensures forall d | 1 <= d <= K :: mu[d] == Mu(d)
  {
    mu := new int[K + 1](_ => 0);
    var composite := new bool[K + 1](_ => false);
    var primes: seq<nat> := [];
    mu[1] := 1;
    NothingMarked();
    for i := 2 to K + 1
      invariant PrimesBelow(primes, i) && mu.Length == composite.Length == K + 1
      invariant LinearState(mu[..], composite[..], K, i, 0)
      invariant PrimesSet(mu[..], i)
    {
      if !composite[i] {
        primes := primes + [i];
        mu[i] := -1;
        PrimeMu(i);
      }
      MarkMultiples(K, i, primes, mu, composite);
    }
    forall d | 2 <= d <= K
      ensures mu[d] == Mu(d)
    {
      if Prime(d) { PrimeMu(d); }
    }
  }

  lemma NothingMarked()
    ensures forall m | m >= 2 :: !Marked(m, 2, 0)
  {
    forall m | m >= 2
      ensures !Marked(m, 2, 0)
    {
      if !Prime(m) { CofactorLaws(m); }
    }
  }

  // ---- The flip-and-zero sieve --------------------------------------------

  /** The product of -1 over the primes below i that divide m, or 0 when the square of one does. */
  function PartialMu(m: nat, i: nat): int
    requires m >= 1 && i >= 2
    decreases i
  {
    if i == 2 then 1
    else
      var q := i - 1;
      var rest := PartialMu(m, q);
      if !Prime(q) || m % q != 0 then rest
      else if m % (q * q) == 0 then 0
      else -rest
  }

  lemma {:induction false} PartialMuTrivial(m: nat, i: nat)
    requires m >= 1 && i >= 2 && forall k | 2 <= k < i :: m % k != 0
    ensures PartialMu(m, i) == 1
    decreases i
  {
    if i <= 2 {
    } else {
      PartialMuTrivial(m, i - 1);
    }
  }

  /** Other primes divide m = p c to the same power as they divide c. */
  lemma OtherPrimes(p: nat, c: nat, q: nat)
    requires c >= 1 && Prime(p) && Prime(q) && q != p
    ensures (p * c) % q == 0 <==> c % q == 0
    ensures (p * c) % (q * q) == 0 <==> c % (q * q) == 0
  {
    DistinctPrimes(p, q);
    if c % q == 0 { DividesProduct(q, c, p); }
    if (p * c) % q == 0 { Euclid(q, p, c); }
    if c % (q * q) == 0 { DividesProduct(q * q, c, p); }
    if (p * c) % (q * q) == 0 { OtherPrimeSquare(p, c, q); }
  }

  lemma OtherPrimeSquare(p: nat, c: nat, q: nat)
    requires c >= 1 && Prime(p) && Prime(q) && p % q != 0 && (p * c) % (q * q) == 0
    ensures c % (q * q) == 0
  {
    Multiple(q, q);
    DividesTransitive(q, q * q, p * c);
    Euclid(q, p, c);
    Quotient(c, q);
    Quotient(p * c, q * q);
    var k, t := c / q, (p * c) / (q * q);
    SwapFactors(p, q, k);
    SquareFirst(q, t);
    SameFactor(q, p * k, q * t);
    Multiple(q, t);
    Euclid(q, p, k);
    Quotient(k, q);
    SquareFirst(q, k / q);
    Multiple(q * q, k / q);
  }

  lemma SwapFactors(p: nat, q: nat, k: nat)
    ensures p * (q * k) == q * (p * k)
  {
  }

  lemma SquareFirst(q: nat, t: nat)
    ensures q * q * t == q * (q * t)
  {
  }

  lemma SameFactor(q: nat, a: nat, b: nat)
    requires q > 0 && q * a == q * b
    ensures a == b
  {
  }

  lemma DistinctPrimes(p: nat, q: nat)
    requires Prime(p) && Prime(q) && q != p
    ensures p % q != 0
  {
    if p < q { SmallIsOwnRemainder(p, q); }
  }

  /** Dividing out the least prime factor changes the partial product by that factor alone. */
  lemma {:induction false} PartialMuPeels(m: nat, i: nat)
    requires m >= 2 && i > LeastFactor(m)
    ensures PartialMu(m, i) == if Cofactor(m) % LeastFactor(m) == 0 then 0 else -PartialMu(Cofactor(m), i)
    decreases i
  {
    var p, c := LeastFactor(m), Cofactor(m);
    LeastFactorPrime(m);
    SquareDivides(m, p, c);
    if i == p + 1 {
      PartialMuTrivial(m, p);
      forall k | 2 <= k < p
        ensures c % k != 0
      {
        if c % k == 0 { DividesProduct(k, c, p); }
      }
      PartialMuTrivial(c, p);
    } else {
      PartialMuPeels(m, i - 1);
      if Prime(i - 1) { OtherPrimes(p, c, i - 1); }
    }
  }

  lemma SquareDivides(m: nat, p: nat, c: nat)
    requires p >= 2 && c >= 1 && m == p * c
    ensures m % (p * p) == 0 <==> c % p == 0
  {
    if c % p == 0 {
      Quotient(c, p);
      assert m == p * p * (c / p);
      Multiple(p * p, c / p);
    }
    if m % (p * p) == 0 {
      Quotient(m, p * p);
      var t := m / (p * p);
      assert p * c == p * (p * t);
      SameFactor(p, c, p * t);
      Multiple(p, t);
    }
  }

  /** Squarefree with the parity of the distinct primes is the least-factor definition. */
  lemma {:induction false} PartialMuIsMu(m: nat, i: nat)
    requires 1 <= m < i && i >= 2
    ensures PartialMu(m, i) == Mu(m)
    decreases m
  {
    if m == 1 {
      forall k | 2 <= k < i
        ensures 1 % k != 0
      {
        SmallIsOwnRemainder(1, k);
      }
      PartialMuTrivial(1, i);
    } else {
      PartialMuPeels(m, i);
      PartialMuIsMu(Cofactor(m), i);
    }
  }

  /** m has been struck out by a prime below i that is at most its root. */
  ghost predicate Struck(m: nat, i: nat) {
    exists q: nat :: StruckBy(m, q) && q < i
  }

  predicate StruckBy(m: nat, q: nat) {
    Prime(q) && m % q == 0 && q * q <= m
  }

  lemma StruckIsComposite(m: nat)
    requires m >= 2
    ensures Struck(m, m) <==> !Prime(m)
  {
    LeastFactorPrime(m);
    if Struck(m, m) {
      var q: nat :| StruckBy(m, q) && q < m;
    }
    if !Prime(m) {
      CofactorLaws(m);
      Scale(LeastFactor(m), LeastFactor(m), Cofactor(m));
      assert StruckBy(m, LeastFactor(m));
    }
  }

  lemma StruckStep(m: nat, i: nat)
    ensures Struck(m, i + 1) <==> Struck(m, i) || StruckBy(m, i)
  {
    if Struck(m, i + 1) && !StruckBy(m, i) {
      var q: nat :| StruckBy(m, q) && q < i + 1;
    }
  }

  /** No multiple of step lies strictly between two consecutive ones. */
  lemma NoMultipleBetween(step: nat, multiple: nat, m: nat)
    requires step > 0 && multiple % step == 0 && multiple <= m < multiple + step
    ensures m % step == 0 <==> m == multiple
  {
    Quotient(multiple, step);
    DivisionUnique(m, step, multiple / step, m - multiple);
  }

  lemma NextMultiple(step: nat, multiple: nat)
    requires step > 0 && multiple % step == 0
    ensures (multiple + step) % step == 0
  {
    Quotient(multiple, step);
    assert multiple + step == step * (multiple / step + 1);
    Multiple(step, multiple / step + 1);
  }

  method FlipMultiples(mu: array<int>, K: nat, prime: nat)
    requires mu.Length == K + 1 && prime >= 2
    modifies mu
    ensures forall m | 1 <= m <= K :: mu[m] == if m % prime == 0 then -old(mu[m]) else old(mu[m])
    ensures mu[0] == old(mu[0])
  {
    Multiple(prime, 1);
    var multiple := prime;
    forall m | 1 <= m < prime
      ensures m % prime != 0
    {
      SmallIsOwnRemainder(m, prime);
    }
    while multiple <= K
      invariant multiple >= prime && multiple % prime == 0
      invariant forall m | 1 <= m <= K ::
        mu[m] == if m < multiple && m % prime == 0 then -old(mu[m]) else old(mu[m])
      invariant mu[0] == old(mu[0])
    {
      mu[multiple] := -mu[multiple];
      NextMultiple(prime, multiple);
      forall m | multiple <= m < multiple + prime
        ensures m % prime == 0 <==> m == multiple
      {
        NoMultipleBetween(prime, multiple, m);
      }
      multiple := multiple + prime;
    }
  }

  method ZeroMultiples(mu: array<int>, K: nat, square: nat)
    requires mu.Length == K + 1 && square >= 2
    modifies mu
    ensures forall m | 1 <= m <= K :: mu[m] == if m % square == 0 then 0 else old(mu[m])
    ensures mu[0] == old(mu[0])
  {
    Multiple(square, 1);
    var multiple := square;
    forall m | 1 <= m < square
      ensures m % square != 0
    {
      SmallIsOwnRemainder(m, square);
    }
    while multiple <= K
      invariant multiple >= square && multiple % square == 0
      invariant forall m | 1 <= m <= K ::
        mu[m] == if m < multiple && m % square == 0 then 0 else old(mu[m])
      invariant mu[0] == old(mu[0])
    {
      mu[multiple] := 0;
      NextMultiple(square, multiple);
      forall m | multiple <= m < multiple + square
        ensures m % square == 0 <==> m == multiple
      {
        NoMultipleBetween(square, multiple, m);
      }
      multiple := multiple + square;
    }
  }

  method StrikeMultiples(composite: array<bool>, K: nat, prime: nat)
    requires composite.Length == K + 1 && prime >= 2
    modifies composite
    ensures forall m | 0 <= m <= K ::
      composite[m] <==> old(composite[m]) || (m % prime == 0 && prime * prime <= m)
  {
    var square := prime * prime;
    Multiple(prime, prime);
    var multiple := square;
    while multiple <= K
      invariant multiple >= square && multiple % prime == 0
      invariant forall m | 0 <= m <= K ::
        composite[m] <==> old(composite[m]) || (m % prime == 0 && square <= m < multiple)
    {
      composite[multiple] := true;
      NextMultiple(prime, multiple);
      forall m | multiple <= m < multiple + prime
        ensures m % prime == 0 <==> m == multiple
      {
        NoMultipleBetween(prime, multiple, m);
      }
      multiple := multiple + prime;
    }
  }

  /** One prime's turn: flip its multiples, then strike out and zero from its square on. */
  method SievePrime(mu: array<int>, composite: array<bool>, K: nat, prime: nat)
    requires mu.Length == composite.Length == K + 1 && 2 <= prime <= K && Prime(prime)
    requires forall m | 1 <= m <= K :: mu[m] == PartialMu(m, prime)
    modifies mu, composite
    ensures mu[0] == old(mu[0])
    ensures forall m | 1 <= m <= K :: mu[m] == PartialMu(m, prime + 1)
    ensures forall m | 0 <= m <= K :: composite[m] <==> old(composite[m]) || StruckBy(m, prime)
  {
    FlipMultiples(mu, K, prime);
    if prime <= K / prime {
      StrikeMultiples(composite, K, prime);
      ZeroMultiples(mu, K, prime * prime);
      SquareMultiples(prime, K);
    } else {
      SquareTooLarge(prime, K);
    }
  }

  lemma SquareMultiples(p: nat, K: nat)
    requires p >= 2
    ensures forall m | 1 <= m <= K && m % (p * p) == 0 :: m % p == 0
  {
    forall m | 1 <= m <= K && m % (p * p) == 0
      ensures m % p == 0
    {
      Multiple(p, p);
      DividesTransitive(p, p * p, m);
    }
  }

  lemma StruckAfter(K: nat, prime: nat, next: nat)
    requires prime >= 2 && next == prime + 1
    ensures forall m | 2 <= m <= K :: Struck(m, next) <==> Struck(m, prime) || StruckBy(m, prime)
  {
    forall m | 2 <= m <= K
      ensures Struck(m, next) <==> Struck(m, prime) || StruckBy(m, prime)
    {
      StruckStep(m, prime);
    }
  }

  method PrimeFactorSieve(K: nat) returns (mu: array<int>)
    requires K >= 1
    ensures fresh(mu) && mu.Length == K + 1 && mu[0] == 0
    ensures forall d | 1 <= d <= K :: mu[d] == Mu(d)
  {
    mu := new int[K + 1](_ => 1);
    var composite := new bool[K + 1](_ => false);
    mu[0] := 0;
    for prime := 2 to K + 1
      invariant mu[0] == 0
      invariant forall m | 1 <= m <= K :: mu[m] == PartialMu(m, prime)
      invariant forall m | 2 <= m <= K :: composite[m] <==> Struck(m, prime)
    {
      StruckIsComposite(prime);
      StruckAfter(K, prime, prime + 1);
      if composite[prime] {
        continue;
      }
      SievePrime(mu, composite, K, prime);
    }
    forall d | 1 <= d <= K
      ensures mu[d] == Mu(d)
    {
      PartialMuIsMu(d, K + 1);
    }
  }

  lemma SquareTooLarge(p: nat, K: nat)
    requires p >= 2 && p > K / p
    ensures p * p > K
    ensures forall m | 1 <= m <= K :: m % (p * p) != 0
  {
    Scale(p, K / p + 1, p);
    assert K < p * (K / p + 1);
    forall m | 1 <= m <= K
      ensures m % (p * p) != 0
    {
      SmallIsOwnRemainder(m, p * p);
    }
  }
}
