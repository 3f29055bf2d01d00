/** Machine-word bounds: no in-range scan can overflow
    (reference/tg_cdem_abel_chunk_replay.cpp, lines 185-262). */
module AbelBounds {
  import opened MachineWords
  import opened Divisibility
  import opened Sums
  import opened Mobius
  import opened Weights
  import opened AbelRecurrence

  // ---- Divisor sums -------------------------------------------------------

  /** Every partial divisor sum up to d is bounded by the number of divisors tried. */
  lemma {:induction false} PartialDivisorSumBound(n: nat, end: nat)
    requires end >= 1
    ensures -(end - 1) <= Sum(DivisorTerms(n), 1, end) <= end - 1
    decreases end
  {
    if end <= 1 {
    } else {
      PartialDivisorSumBound(n, end - 1);
      MuBounds(end - 1);
    }
  }

  lemma DeltaBound(K: nat, m: int)
    ensures -(K as int) <= Delta(K, m) <= K
  {
    if m >= 1 { PartialDivisorSumBound(m, K + 1); }
  }

  lemma Product(a: int, b: int, a': nat, b': nat)
    requires -(a' as int) <= a <= a' && 0 <= b <= b'
    ensures -(a' * b') <= a * b <= a' * b'
  {
    Scale(b, a, a');
    Scale(b, -(a' as int), a);
    Scale(a', b, b');
  }

  lemma {:induction false} FloorStateBound(K: nat, low: int, before: int, n: int)
    requires low <= n + 1
    ensures AbsInt(FloorState(K, low, before, n)) <= AbsInt(before) + K * (n + 1 - low)
    decreases n - low
  {
    if low <= n {
      FloorStateBound(K, low, before, n - 1);
      DeltaBound(K, n);
      assert FloorState(K, low, before, n) == FloorState(K, low, before, n - 1) + Delta(K, n);
      assert K * (n + 1 - low) == K * (n - low) + K;
    }
  }

  /** What the first step of a scan may add on account of the explicit value at 0. */
  function FirstStep(K: nat, before: int): nat {
    AbsInt(before) + 1 + K
  }

  /** Past the first number an increment is at most the divisor sum. */
  lemma IncrementBound(K: nat, low: int, before: int, n: int)
    requires 1 <= low <= n
    ensures AbsInt(Increment(K, low, before, n)) <= if n == 1 then FirstStep(K, before) else K
  {
    DeltaBound(K, n);
    assert FloorState(K, low, before, n) == FloorState(K, low, before, n - 1) + Delta(K, n);
    if n == 1 { assert FloorState(K, 1, before, 0) == before; }
  }

  // ---- Dyadic bounds on the weights ----------------------------------------

  function Power2(k: nat): nat {
    if k == 0 then 1 else 2 * Power2(k - 1)
  }

  function Quotients(S: nat): int -> int {
    n => if n >= 1 then S / n else 0
  }

  function Roots(S: nat): int -> int {
    n => if n >= 1 then LeastRoot(n, S) else 0
  }

  lemma {:induction false} SumBelowConstant(f: int -> int, c: int, lo: int, hi: int)
    requires lo <= hi && forall i | lo <= i < hi :: f(i) <= c
    ensures Sum(f, lo, hi) <= (hi - lo) * c
    decreases hi - lo
  {
    if hi <= lo {
    } else {
      SumBelowConstant(f, c, lo, hi - 1);
      assert (hi - lo) * c == (hi - 1 - lo) * c + c;
    }
  }

  lemma {:induction false} SumNonnegative(f: int -> int, lo: int, hi: int)
    requires forall i | lo <= i < hi :: f(i) >= 0
    ensures Sum(f, lo, hi) >= 0
    decreases hi - lo
  {
    if hi <= lo {
    } else {
      SumNonnegative(f, lo, hi - 1);
    }
  }

  lemma {:induction false} SumSizes(f: int -> int, g: int -> int, lo: int, hi: int)
    requires forall i | lo <= i < hi :: AbsInt(f(i)) <= g(i)
    ensures AbsInt(Sum(f, lo, hi)) <= Sum(g, lo, hi)
    decreases hi - lo
  {
    if hi <= lo {
    } else {
      SumSizes(f, g, lo, hi - 1);
    }
  }

  lemma SumWidens(f: int -> int, lo: int, hi: int, lo': int, hi': int)
    requires lo' <= lo <= hi <= hi' && forall i | lo' <= i < hi' :: f(i) >= 0
    ensures Sum(f, lo, hi) <= Sum(f, lo', hi')
  {
    SumSplit(f, lo', lo, hi');
    SumSplit(f, lo, hi, hi');
    SumNonnegative(f, lo', lo);
    SumNonnegative(f, hi, hi');
  }

  lemma {:induction false} Power2Positive(k: nat)
    ensures Power2(k) >= 1
  {
    if k == 0 {
    } else {
      Power2Positive(k - 1);
    }
  }

  /** Each dyadic block of quotients adds at most S. */
  lemma QuotientBlock(S: nat, p: nat)
    requires p >= 1
    ensures Sum(Quotients(S), p, 2 * p) <= S
  {
    var f := Quotients(S);
    forall n | p <= n < 2 * p
      ensures f(n) <= S / p
    {
      QuotientAntitone(S, p, n);
    }
    SumBelowConstant(f, S / p, p, 2 * p);
    CeilDivLeast(S, p, S / p);
  }

  lemma {:induction false} QuotientSum(S: nat, k: nat)
    ensures Sum(Quotients(S), 1, Power2(k)) <= k * S
  {
    var f := Quotients(S);
    if k == 0 {
      assert Sum(f, 1, 1) == 0;
    } else {
      var p := Power2(k - 1);
      Power2Positive(k - 1);
      QuotientSum(S, k - 1);
      QuotientBlock(S, p);
      SumSplit(f, 1, p, 2 * p);
      assert k * S == (k - 1) * S + S;
    }
  }

  lemma QuotientAntitone(S: nat, p: nat, n: nat)
    requires 1 <= p <= n
    ensures S / n <= S / p
  {
    CeilDivLeast(S, n, S / n);
    CeilDivLeast(S, p, S / n);
    Scale(S / n, p, n);
  }

  lemma RootOfBlock(S: nat, p: nat, n: nat)
    requires p >= 1 && n >= p * p
    ensures LeastRoot(n, S) <= S / p + 1
  {
    var q := S / p + 1;
    CeilDivLeast(S, p, q);
    var scaled := q * p;
    assert scaled > S;
    Scale(scaled, S, scaled);
    Scale(S, S, scaled);
    assert q * q * (p * p) == scaled * scaled;
    Scale(q * q, p * p, n);
    if q < LeastRoot(n, S) {
      EnoughMonotone(q, LeastRoot(n, S) - 1, n, S);
    }
  }

  /** Blocks between consecutive powers of four. */
  lemma RootBlock(S: nat, p: nat, square: nat)
    requires p >= 1 && square == p * p
    ensures Sum(Roots(S), square, 4 * square) <= 3 * (p * S) + 3 * square
  {
    var f := Roots(S);
    Scale(p, 1, p);
    forall n | square <= n < 4 * square
      ensures f(n) <= S / p + 1
    {
      RootOfBlock(S, p, n);
    }
    SumBelowConstant(f, S / p + 1, square, 4 * square);
    BlockTotal(S, p);
  }

  lemma Doubled(half: nat, S: nat)
    requires half >= 1
    ensures 2 * half * (2 * half) == 4 * (half * half) && 2 * half * S == 2 * (half * S) && half * half >= 1
  {
    Scale(half, 1, half);
  }

  lemma {:induction false} RootSum(S: nat, k: nat, p: nat, square: nat)
    requires p == Power2(k) && square == p * p
    ensures Sum(Roots(S), 1, square) <= 3 * (p * S) + square
    decreases k
  {
    var f := Roots(S);
    if k == 0 {
      assert Sum(f, 1, 1) == 0;
    } else {
      var half := Power2(k - 1);
      Power2Positive(k - 1);
      var quarter := half * half;
      Doubled(half, S);
      RootSum(S, k - 1, half, quarter);
      RootBlock(S, half, quarter);
      SumSplit(f, 1, quarter, 4 * quarter);
    }
  }

  lemma BlockTotal(S: nat, p: nat)
    requires p >= 1
    ensures 3 * (p * p) * (S / p + 1) <= 3 * (p * S) + 3 * (p * p)
  {
    CeilDivLeast(S, p, S / p);
    Scale(p, S / p * p, S);
    assert 3 * (p * p) * (S / p + 1) == 3 * (p * (S / p * p)) + 3 * (p * p);
  }

  lemma Power2By8(k: nat)
    ensures Power2(k + 8) == 256 * Power2(k)
  {
    assert Power2(k + 2) == 4 * Power2(k);
    assert Power2(k + 4) == 4 * Power2(k + 2);
    assert Power2(k + 6) == 4 * Power2(k + 4);
  }

  lemma Power2Values()
    ensures Power2(32) == TWO_32 && Power2(64) == TWO_64
  {
    Power2By8(0);
    Power2By8(8);
    Power2By8(16);
    Power2By8(24);
    Power2By8(32);
    Power2By8(40);
    Power2By8(48);
    Power2By8(56);
  }

  lemma QuotientsBelow(S: nat, low: nat, end: nat, k: nat)
    requires 1 <= low <= end <= Power2(k)
    ensures 0 <= Sum(Quotients(S), low, end) <= k * S
  {
    var f, top := Quotients(S), Power2(k);
    QuotientSum(S, k);
    assert forall i | 1 <= i < top :: f(i) >= 0;
    SumNonnegative(f, low, end);
    SumWidens(f, low, end, 1, top);
  }

  lemma RootsBelow(S: nat, low: nat, end: nat, k: nat)
    requires 1 <= low <= end <= Power2(k) * Power2(k)
    ensures 0 <= Sum(Roots(S), low, end) <= 3 * (Power2(k) * S) + Power2(k) * Power2(k)
  {
    RootSum(S, k, Power2(k), Power2(k) * Power2(k));
    SumNonnegative(Roots(S), low, end);
    SumWidens(Roots(S), low, end, 1, Power2(k) * Power2(k));
  }

  /** The reciprocal weights of an addressable range add up to at most 64 S, the root weights to 3 2^32 S + 2^64. */
  lemma WeightSums(S: nat, low: nat, end: nat)
    requires 1 <= low <= end <= TWO_64
    ensures 0 <= Sum(Quotients(S), low, end) <= 64 * S
    ensures 0 <= Sum(Roots(S), low, end) <= 3 * (TWO_32 * S) + TWO_64
  {
    Power2Values();
    QuotientsBelow(S, low, end, 64);
    RootsBelow(S, low, end, 32);
  }

  // ---- No in-range scan overflows -------------------------------------------

  lemma WeightBound(increment: int, n: nat, S: nat)
    requires n >= 1
    ensures DirectedWeight(increment, n, S) <= S / n + 1
    ensures n == 1 ==> DirectedWeight(increment, n, S) == S
  {
  }

  lemma Distribute(k: int, a: int, b: int)
    ensures k * (a + b) == k * a + k * b
  {
  }

  lemma SignedTermBound(K: nat, S: nat, low: int, before: int, n: int)
    requires 1 <= low <= n
    ensures AbsInt(SignedTerm(K, S, low, before, n)) <=
      if n == 1 then FirstStep(K, before) * S else K * (S / n) + K
  {
    var increment := Increment(K, low, before, n);
    var weight := DirectedWeight(increment, n, S);
    IncrementBound(K, low, before, n);
    WeightBound(increment, n, S);
    if n == 1 {
      Product(increment, weight, FirstStep(K, before), S);
    } else {
      Product(increment, weight, K, S / n + 1);
      Distribute(K, S / n, 1);
    }
  }

  lemma AbsoluteTermBound(K: nat, S: nat, low: int, before: int, n: int)
    requires 1 <= low <= n
    ensures AbsoluteTerm(K, S, low, before, n) <=
      if n == 1 then FirstStep(K, before) * S else K * LeastRoot(n, S)
  {
    var size := AbsInt(Increment(K, low, before, n));
    IncrementBound(K, low, before, n);
    if n == 1 {
      Product(size, LeastRoot(n, S), FirstStep(K, before), S);
    } else {
      Product(size, LeastRoot(n, S), K, LeastRoot(n, S));
    }
  }

  lemma NonnegativeProduct(a: nat, b: nat)
    ensures a * b >= 0
  {
  }

  lemma {:induction false} SignedSumBound(K: nat, S: nat, low: nat, before: int, end: nat, first: nat)
    requires 1 <= low <= end && first == FirstStep(K, before) * S
    ensures Sum(Quotients(S), low, end) >= 0
    ensures AbsInt(SignedSum(K, S, low, before, end)) <=
      K * Sum(Quotients(S), low, end) + K * (end - low) + first
    decreases end
  {
    SumNonnegative(Quotients(S), low, end);
    NonnegativeProduct(K, Sum(Quotients(S), low, end));
    NonnegativeProduct(K, end - low);
    if end <= low {
    } else {
      var n := end - 1;
      SignedTermBound(K, S, low, before, n);
      if n == 1 {
        assert SignedSum(K, S, low, before, n) == 0;
      } else {
        SignedSumBound(K, S, low, before, n, first);
        Distribute(K, Sum(Quotients(S), low, n), S / n);
        Distribute(K, n - low, 1);
      }
    }
  }

  lemma {:induction false} AbsoluteSumBound(K: nat, S: nat, low: nat, before: int, end: nat, first: nat)
    requires 1 <= low <= end && first == FirstStep(K, before) * S
    ensures Sum(Roots(S), low, end) >= 0
    ensures 0 <= AbsoluteSum(K, S, low, before, end) <= K * Sum(Roots(S), low, end) + first
    decreases end
  {
    SumNonnegative(Roots(S), low, end);
    NonnegativeProduct(K, Sum(Roots(S), low, end));
    if end <= low {
    } else {
      var n := end - 1;
      AbsoluteTermBound(K, S, low, before, n);
      if n == 1 {
        assert AbsoluteSum(K, S, low, before, n) == 0;
      } else {
        AbsoluteSumBound(K, S, low, before, n, first);
        Distribute(K, Sum(Roots(S), low, n), LeastRoot(n, S));
      }
    }
  }

  lemma {:induction false} VariationSumBound(K: nat, low: nat, before: int, end: nat)
    requires 1 <= low <= end
    ensures 0 <= VariationSum(K, low, before, end) <= K * (end - low) + FirstStep(K, before)
    decreases end
  {
    NonnegativeProduct(K, end - low);
    if end <= low {
    } else {
      var n := end - 1;
      IncrementBound(K, low, before, n);
      if n == 1 {
        assert VariationSum(K, low, before, n) == 0;
      } else {
        VariationSumBound(K, low, before, n);
        Distribute(K, n - low, 1);
      }
    }
  }

  /** The arguments the replayer accepts, with a scale below 2^60. */
  predicate InRange(K: nat, S: nat, low: nat, before: int, end: nat) {
    && 1 <= K <= INT32_MAX && S <= SCALE_LIMIT
    && 1 <= low <= end <= TWO_64
    && -(INT64_LIMIT as int) <= before < INT64_LIMIT
  }

  lemma StateFits(K: nat, S: nat, low: nat, before: int, end: nat)
    requires InRange(K, S, low, before, end)
    ensures AbsInt(FloorState(K, low, before, end - 1)) < INT128_LIMIT - 1
  {
    FloorStateBound(K, low, before, end - 1);
    Product(K, end - low, INT32_MAX, TWO_64);
  }

  lemma SignedFits(K: nat, S: nat, low: nat, before: int, end: nat)
    requires InRange(K, S, low, before, end)
    ensures AbsInt(SignedSum(K, S, low, before, end)) < INT128_LIMIT
  {
    var first := FirstStep(K, before) * S;
    WeightSums(S, low, end);
    SignedSumBound(K, S, low, before, end, first);
    FirstProductFits(K, S, before);
    WeightProductFits(K, Sum(Quotients(S), low, end), end - low);
  }

  lemma FirstProductFits(K: nat, S: nat, before: int)
    requires K <= INT32_MAX && S <= SCALE_LIMIT && -(INT64_LIMIT as int) <= before < INT64_LIMIT
    ensures FirstStep(K, before) * S <= 2 * INT64_LIMIT * SCALE_LIMIT
  {
    Product(FirstStep(K, before), S, 2 * INT64_LIMIT, SCALE_LIMIT);
  }

  lemma WeightProductFits(K: nat, weights: nat, length: nat)
    requires K <= INT32_MAX && weights <= 64 * SCALE_LIMIT && length <= TWO_64
    ensures K * weights <= INT32_MAX * (64 * SCALE_LIMIT) && K * length <= INT32_MAX * TWO_64
  {
    Product(K, weights, INT32_MAX, 64 * SCALE_LIMIT);
    Product(K, length, INT32_MAX, TWO_64);
  }

  /** 2^94, above the sum of all root weights at the largest scale. */
  const ROOT_TOTAL: nat := 0x4000_0000_0000_0000_0000_0000

  lemma RootTotal(S: nat, low: nat, end: nat)
    requires 1 <= low <= end <= TWO_64 && S <= SCALE_LIMIT
    ensures 0 <= Sum(Roots(S), low, end) <= ROOT_TOTAL
  {
    WeightSums(S, low, end);
  }

  lemma AbsoluteFits(K: nat, S: nat, low: nat, before: int, end: nat)
    requires InRange(K, S, low, before, end)
    ensures 0 <= AbsoluteSum(K, S, low, before, end) < TWO_128
  {
    var first := FirstStep(K, before) * S;
    var roots := Sum(Roots(S), low, end);
    RootTotal(S, low, end);
    AbsoluteSumBound(K, S, low, before, end, first);
    FirstProductFits(K, S, before);
    RootProductFits(K, roots);
    AbsoluteTotalFits(first, K * roots);
  }

  lemma AbsoluteTotalFits(first: nat, product: nat)
    requires first <= 2 * INT64_LIMIT * SCALE_LIMIT && product <= INT32_MAX * ROOT_TOTAL
    ensures first + product < TWO_128
  {
  }

  lemma RootProductFits(K: nat, roots: nat)
    requires K <= INT32_MAX && roots <= ROOT_TOTAL
    ensures K * roots <= INT32_MAX * ROOT_TOTAL
  {
    Product(K, roots, INT32_MAX, ROOT_TOTAL);
  }

  lemma VariationFits(K: nat, S: nat, low: nat, before: int, end: nat)
    requires InRange(K, S, low, before, end)
    ensures 0 <= VariationSum(K, low, before, end) < TWO_128
  {
    VariationSumBound(K, low, before, end);
    Product(K, end - low, INT32_MAX, TWO_64);
  }

  /** At every point of an in-range scan the state and the three accumulators fit their machine words. */
  lemma ScanFits(K: nat, S: nat, low: nat, before: int, end: nat)
    requires InRange(K, S, low, before, end)
    ensures AbsInt(FloorState(K, low, before, end - 1)) < INT128_LIMIT - 1
    ensures AbsInt(SignedSum(K, S, low, before, end)) < INT128_LIMIT
    ensures 0 <= AbsoluteSum(K, S, low, before, end) < TWO_128
    ensures 0 <= VariationSum(K, low, before, end) < TWO_128
  {
    StateFits(K, S, low, before, end);
    SignedFits(K, S, low, before, end);
    AbsoluteFits(K, S, low, before, end);
    VariationFits(K, S, low, before, end);
  }

  lemma StepFits(K: nat, S: nat, low: nat, before: int, n: nat)
    requires InRange(K, S, low, before, n + 1) && low <= n
    ensures AbsInt(SignedTerm(K, S, low, before, n)) < INT128_LIMIT
    ensures AbsoluteTerm(K, S, low, before, n) < TWO_128
  {
    SignedTermBound(K, S, low, before, n);
    AbsoluteTermBound(K, S, low, before, n);
    if n == 1 {
      Product(FirstStep(K, before), S, 2 * INT64_LIMIT, SCALE_LIMIT);
    } else {
      CeilDivLeast(S, n, S / n);
      Scale(S / n, 1, n);
      Product(K, S / n, INT32_MAX, SCALE_LIMIT);
      Product(K, LeastRoot(n, S), INT32_MAX, SCALE_LIMIT);
    }
  }
}
