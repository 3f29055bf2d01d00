/** How large the variation of a block really gets
    (reference/tg_cdem_abel.cpp, lines 242-272).

    A divisor sum truncated at K pairs off the divisors d and p d, where p is the least prime factor of n,
    so that for even n and for odd multiples of 3 only divisors near K are left. Counting the others among
    the numbers prime to 6 alone keeps the total variation below four times the window's length. */
module VariationBounds {
  import opened Numbers
  import opened MachineWords
  import opened Divisibility
  import opened Sums
  import opened Mobius
  import opened AbelRecurrence
  import opened AbelBounds
  import opened StateBounds

  // ---- Pairing divisors -------------------------------------------------------

  function CoprimeTerms(n: nat, p: nat): int -> int
    requires p > 0
  {
    d => CoprimeTerm(n, p, d)
  }

  function MultipleTerms(n: nat, p: nat): int -> int
    requires p > 0
  {
    d => MultipleTerm(n, p, d)
  }

  lemma NoMultiplesPast(n: nat, p: nat, K: nat, q: nat, end: nat, f: int -> int)
    requires p >= 2 && end == p * q && end <= K < end + p && f == MultipleTerms(n, p)
    ensures Sum(f, 1, K + 1) == Sum(f, 1, end + 1)
  {
    forall d | end + 1 <= d < K + 1
      ensures f(d) == 0
    {
      DivisionUnique(d, p, q, d - end);
    }
    SumSplit(f, 1, end + 1, K + 1);
    SumZero(f, end + 1, K + 1);
  }

  lemma MultiplesPaired(n: nat, p: nat, K: nat, q: nat, end: nat)
    requires n >= 2 && p == LeastFactor(n) && end == p * q && end <= K < end + p
    ensures Sum(MultipleTerms(n, p), 1, K + 1) == -Sum(CoprimeTerms(n, p), 1, q + 1)
  {
    NoMultiplesPast(n, p, K, q, end, MultipleTerms(n, p));
    MultiplesCancel(n, p, q, CoprimeTerms(n, p), MultipleTerms(n, p));
  }

  lemma SplitByFactor(n: nat, p: nat, K: nat, q: nat, coprime: int -> int, multiple: int -> int)
    requires p >= 2 && coprime == CoprimeTerms(n, p) && multiple == MultipleTerms(n, p) && q <= K
    ensures DivisorSum(n, K) == Sum(coprime, 1, q + 1) + Sum(coprime, q + 1, K + 1) + Sum(multiple, 1, K + 1)
  {
    SumAdd(coprime, multiple, DivisorTerms(n), 1, K + 1);
    SumSplit(coprime, 1, q + 1, K + 1);
  }

  /** Of the divisors of n up to K only those prime to p and above K / p are not paired off. */
  lemma Unpaired(n: nat, p: nat, K: nat, q: nat)
    requires n >= 2 && p == LeastFactor(n) && p * q <= K < p * q + p && q <= K
    ensures DivisorSum(n, K) == Sum(CoprimeTerms(n, p), q + 1, K + 1)
  {
    MultiplesPaired(n, p, K, q, p * q);
    SplitByFactor(n, p, K, q, CoprimeTerms(n, p), MultipleTerms(n, p));
  }

  // ---- Counting what is left --------------------------------------------------

  function Hit(n: int, d: int): nat {
    if d >= 1 && n % d == 0 then 1 else 0
  }

  /** What the multiples of d, 2 d, 3 d and 6 d contribute to the count of d. */
  function Combine(K: nat, d: int, one: int, two: int, three: int, six: int): int {
    (if 2 * d > K then two else 0)
    + (if 3 * d > K then three - six else 0)
    + (if d % 2 != 0 && d % 3 != 0 then one - two - three + six else 0)
  }

  /** At least 1 when d is left over at n. */
  function Weight(K: nat, n: int, d: int): int {
    Combine(K, d, Hit(n, d), Hit(n, 2 * d), Hit(n, 3 * d), Hit(n, 6 * d))
  }

  function WeightsAt(K: nat, n: int): int -> int {
    d => Weight(K, n, d)
  }

  lemma MultipleOfProduct(n: nat, d: nat, k: nat, t: nat)
    requires d >= 1 && k >= 1 && n == d * (k * t)
    ensures k * d >= 1 && n % (k * d) == 0 && n % d == 0 && n / d % k == 0
  {
    Scale(d, 1, k);
    assert n == k * d * t;
    Multiple(k * d, t);
    Multiple(d, k * t);
    Multiple(k, t);
  }

  lemma MultipleOfDivisor(n: nat, d: nat, k: nat)
    requires d >= 1 && k >= 1
    ensures k * d >= 1 && (n % (k * d) == 0 <==> n % d == 0 && n / d % k == 0)
  {
    Scale(d, 1, k);
    if n % (k * d) == 0 {
      Quotient(n, k * d);
      Regroup(d, k, n / (k * d));
      MultipleOfProduct(n, d, k, n / (k * d));
    } else if n % d == 0 && n / d % k == 0 {
      Quotient(n, d);
      Quotient(n / d, k);
      MultipleOfProduct(n, d, k, n / d / k);
    }
  }

  lemma Regroup(d: nat, k: nat, t: nat)
    ensures k * d * t == d * (k * t)
  {
  }

  lemma HitsOfQuotient(n: nat, d: nat)
    requires d >= 1
    ensures Hit(n, 2 * d) == 1 <==> Hit(n, d) == 1 && n / d % 2 == 0
    ensures Hit(n, 3 * d) == 1 <==> Hit(n, d) == 1 && n / d % 3 == 0
    ensures Hit(n, 6 * d) == 1 <==> Hit(n, 2 * d) == 1 && Hit(n, 3 * d) == 1
  {
    HitOfQuotient(n, d, 2);
    HitOfQuotient(n, d, 3);
    HitOfQuotient(n, d, 6);
    SixDivides(n / d);
  }

  lemma HitOfQuotient(n: nat, d: nat, k: nat)
    requires d >= 1 && k >= 1
    ensures Hit(n, k * d) == 1 <==> Hit(n, d) == 1 && n / d % k == 0
  {
    MultipleOfDivisor(n, d, k);
  }

  lemma SixDivides(q: nat)
    ensures q % 6 == 0 <==> q % 2 == 0 && q % 3 == 0
  {
    var k, r := q / 6, q % 6;
    DivisionUnique(q, 2, 3 * k + r / 2, r % 2);
    DivisionUnique(q, 3, 2 * k + r / 3, r % 3);
  }

  lemma WeightNonnegative(K: nat, n: nat, d: nat)
    requires d >= 1
    ensures Weight(K, n, d) >= 0
  {
    HitsOfQuotient(n, d);
  }

  lemma TwoAndThree()
    ensures Prime(2) && Prime(3)
  {
  }

  lemma EvenWeight(K: nat, n: nat, d: nat)
    requires n >= 1 && n % 2 == 0 && d >= 1 && 2 * d > K
    ensures AbsInt(CoprimeTerm(n, 2, d)) <= Weight(K, n, d)
  {
    HitsOfQuotient(n, d);
    MuBounds(d);
    TwoAndThree();
    if n % d == 0 && d % 2 != 0 { CoprimeProduct(2, d, n); }
  }

  lemma OddMultipleOfSix(n: nat, d: nat)
    requires d >= 1 && n % 2 != 0
    ensures Hit(n, 2 * d) == 0 && Hit(n, 6 * d) == 0
  {
    HitsOfQuotient(n, d);
    Multiple(2, d);
    if n % (2 * d) == 0 { DividesTransitive(2, 2 * d, n); }
  }

  lemma ThirdWeight(K: nat, n: nat, d: nat)
    requires n >= 1 && n % 2 != 0 && n % 3 == 0 && d >= 1 && 3 * d > K
    ensures AbsInt(CoprimeTerm(n, 3, d)) <= Weight(K, n, d)
  {
    HitsOfQuotient(n, d);
    OddMultipleOfSix(n, d);
    MuBounds(d);
    TwoAndThree();
    if n % d == 0 && d % 3 != 0 { CoprimeProduct(3, d, n); }
  }

  lemma NotMultipleOfThree(n: nat, d: nat)
    requires d >= 1 && n % 3 != 0
    ensures Hit(n, 3 * d) == 0 && Hit(n, 6 * d) == 0
  {
    HitsOfQuotient(n, d);
    Multiple(3, d);
    if n % (3 * d) == 0 { DividesTransitive(3, 3 * d, n); }
  }

  lemma OtherWeight(K: nat, n: nat, d: nat)
    requires n >= 1 && n % 2 != 0 && n % 3 != 0 && d >= 1
    ensures AbsInt(DivisorTerm(n, d)) <= Weight(K, n, d)
  {
    OddMultipleOfSix(n, d);
    NotMultipleOfThree(n, d);
    MuBounds(d);
    if n % d == 0 && d % 2 == 0 { DividesTransitive(2, d, n); }
    if n % d == 0 && d % 3 == 0 { DividesTransitive(3, d, n); }
  }

  lemma AbsSumAtMost(f: int -> int, g: int -> int, lo: int, mid: int, hi: int)
    requires lo <= mid <= hi && forall i | lo <= i < hi :: g(i) >= 0
    requires forall i | mid <= i < hi :: AbsInt(f(i)) <= g(i)
    ensures AbsInt(Sum(f, mid, hi)) <= Sum(g, lo, hi)
  {
    SumSizes(f, g, mid, hi);
    SumWidens(g, mid, hi, lo, hi);
  }

  lemma WeightsNonnegative(K: nat, n: nat)
    ensures forall d | 1 <= d < K + 1 :: WeightsAt(K, n)(d) >= 0
  {
    forall d | 1 <= d < K + 1
      ensures WeightsAt(K, n)(d) >= 0
    {
      WeightNonnegative(K, n, d);
    }
  }

  lemma LeftOver(K: nat, n: nat, f: int -> int, g: int -> int, start: nat, end: nat, total: int)
    requires 1 <= start <= end == K + 1 && total == Sum(f, start, end) && g == WeightsAt(K, n)
    requires forall i | start <= i < end :: AbsInt(f(i)) <= g(i)
    ensures AbsInt(total) <= Sum(g, 1, end)
  {
    WeightsNonnegative(K, n);
    AbsSumAtMost(f, g, 1, start, end);
  }

  lemma PairedDelta(K: nat, n: nat, p: nat, q: nat)
    requires n >= 2 && p == LeastFactor(n) && p * q <= K < p * q + p && q <= K
    requires forall d | q + 1 <= d < K + 1 :: AbsInt(CoprimeTerms(n, p)(d)) <= WeightsAt(K, n)(d)
    ensures AbsInt(DivisorSum(n, K)) <= Sum(WeightsAt(K, n), 1, K + 1)
  {
    Unpaired(n, p, K, q);
    LeftOver(K, n, CoprimeTerms(n, p), WeightsAt(K, n), q + 1, K + 1, DivisorSum(n, K));
  }

  lemma EvenDelta(K: nat, n: nat, p: nat)
    requires n >= 2 && p == 2 && n % p == 0
    ensures AbsInt(DivisorSum(n, K)) <= Sum(WeightsAt(K, n), 1, K + 1)
  {
    var q := K / 2;
    LeastFactorIs(n, p);
    forall d | q + 1 <= d < K + 1
      ensures AbsInt(CoprimeTerms(n, p)(d)) <= WeightsAt(K, n)(d)
    {
      EvenWeight(K, n, d);
    }
    PairedDelta(K, n, p, q);
  }

  lemma ThirdDelta(K: nat, n: nat, p: nat)
    requires n >= 2 && p == 3 && n % 2 != 0 && n % p == 0
    ensures AbsInt(DivisorSum(n, K)) <= Sum(WeightsAt(K, n), 1, K + 1)
  {
    var q := K / 3;
    LeastFactorIs(n, p);
    forall d | q + 1 <= d < K + 1
      ensures AbsInt(CoprimeTerms(n, p)(d)) <= WeightsAt(K, n)(d)
    {
      ThirdWeight(K, n, d);
    }
    PairedDelta(K, n, p, q);
  }

  lemma OtherDelta(K: nat, n: nat)
    requires n >= 1 && n % 2 != 0 && n % 3 != 0
    ensures AbsInt(DivisorSum(n, K)) <= Sum(WeightsAt(K, n), 1, K + 1)
  {
    WeightsNonnegative(K, n);
    forall d | 1 <= d < K + 1
      ensures AbsInt(DivisorTerms(n)(d)) <= WeightsAt(K, n)(d)
    {
      OtherWeight(K, n, d);
    }
    AbsSumAtMost(DivisorTerms(n), WeightsAt(K, n), 1, 1, K + 1);
  }

  /** A divisor sum is at most the number of divisors left over. */
  lemma DeltaBelowWeights(K: nat, n: nat)
    requires n >= 1
    ensures AbsInt(Delta(K, n)) <= Sum(WeightsAt(K, n), 1, K + 1)
  {
    if n % 2 == 0 {
      EvenDelta(K, n, 2);
    } else if n % 3 == 0 {
      ThirdDelta(K, n, 3);
    } else {
      OtherDelta(K, n);
    }
  }

  // ---- Adding up over a window ------------------------------------------------

  /** The multiples of d after m up to n. */
  function Multiples(m: nat, n: nat, d: int): int {
    if d >= 1 then n / d - m / d else 0
  }

  lemma MultiplesStep(m: nat, n: nat, d: nat)
    requires n >= 1 && d >= 1
    ensures Multiples(m, n, d) == Multiples(m, n - 1, d) + Hit(n, d)
  {
    QuotientStep(n, d);
  }

  function WindowWeight(K: nat, m: nat, n: nat, d: int): int {
    Combine(K, d, Multiples(m, n, d), Multiples(m, n, 2 * d), Multiples(m, n, 3 * d), Multiples(m, n, 6 * d))
  }

  function WindowWeights(K: nat, m: nat, n: nat): int -> int {
    d => WindowWeight(K, m, n, d)
  }

  lemma WindowWeightStep(K: nat, m: nat, n: nat, d: nat)
    requires n >= 1 && d >= 1
    ensures WindowWeight(K, m, n, d) == WindowWeight(K, m, n - 1, d) + Weight(K, n, d)
  {
    MultiplesStep(m, n, d);
    MultiplesStep(m, n, 2 * d);
    MultiplesStep(m, n, 3 * d);
    MultiplesStep(m, n, 6 * d);
  }

  lemma WeightsStep(K: nat, m: nat, n: nat)
    requires n >= 1
    ensures Sum(WindowWeights(K, m, n), 1, K + 1)
      == Sum(WindowWeights(K, m, n - 1), 1, K + 1) + Sum(WeightsAt(K, n), 1, K + 1)
  {
    forall d | 1 <= d < K + 1
      ensures WindowWeights(K, m, n)(d) == WindowWeights(K, m, n - 1)(d) + WeightsAt(K, n)(d)
    {
      WindowWeightStep(K, m, n, d);
    }
    SumAdd(WindowWeights(K, m, n - 1), WeightsAt(K, n), WindowWeights(K, m, n), 1, K + 1);
  }

  lemma EmptyWindow(K: nat, m: nat)
    ensures Sum(WindowWeights(K, m, m), 1, K + 1) == 0
  {
    SumZero(WindowWeights(K, m, m), 1, K + 1);
  }

  /** One step changes the error by at most the divisor sum, and at 1 not at all. */
  lemma VariationBelowDelta(K: nat, low: nat, before: int, n: nat)
    requires K >= 1 && 1 <= low <= n && before == SerialState(K, low - 1)
    ensures VariationTerm(K, low, before, n) <= AbsInt(Delta(K, n))
  {
    ScanStep(K, 0, low, before, n);
    if n == 1 {
      NoState(K);
      VanishingPrefix(K, 0, 1);
    } else if n == low {
      assert FloorState(K, low, before, n - 1) == before;
    }
  }

  lemma TermBelowWeights(K: nat, low: nat, before: int, n: nat)
    requires K >= 1 && 1 <= low <= n && before == SerialState(K, low - 1)
    ensures VariationTerm(K, low, before, n) <= Sum(WeightsAt(K, n), 1, K + 1)
  {
    VariationBelowDelta(K, low, before, n);
    DeltaBelowWeights(K, n);
  }

  function WindowCount(K: nat, m: nat, n: int): int {
    if n >= 0 then Sum(WindowWeights(K, m, n), 1, K + 1) else 0
  }

  function WindowCounts(K: nat, m: nat): int -> int {
    n => WindowCount(K, m, n)
  }

  lemma {:induction false} Telescope(f: int -> int, h: int -> int, lo: int, hi: int)
    requires lo <= hi && forall n | lo <= n < hi :: f(n) <= h(n) - h(n - 1)
    ensures Sum(f, lo, hi) <= h(hi - 1) - h(lo - 1)
    decreases hi - lo
  {
    if lo == hi {
    } else {
      Telescope(f, h, lo, hi - 1);
    }
  }

  lemma CountGrows(K: nat, m: nat, low: nat, before: int, n: nat)
    requires K >= 1 && 1 <= low <= n && before == SerialState(K, low - 1)
    ensures VariationTerm(K, low, before, n) <= WindowCount(K, m, n) - WindowCount(K, m, n - 1)
  {
    TermBelowWeights(K, low, before, n);
    WeightsStep(K, m, n);
  }

  lemma NothingCounted(K: nat, m: nat)
    ensures WindowCounts(K, m)(m) == 0
  {
    EmptyWindow(K, m);
  }

  lemma CountsGrow(K: nat, m: nat, low: nat, before: int, f: int -> int, h: int -> int)
    requires K >= 1 && low == m + 1 && before == SerialState(K, m)
    requires f == VariationTerms(K, low, before) && h == WindowCounts(K, m)
    ensures forall n | low <= n :: f(n) <= h(n) - h(n - 1)
  {
    forall n | low <= n
      ensures f(n) <= h(n) - h(n - 1)
    {
      CountGrows(K, m, low, before, n);
      assert f(n) == VariationTerm(K, low, before, n);
    }
  }

  lemma VariationBelowWeights(K: nat, low: nat, before: int, end: nat)
    requires K >= 1 && 1 <= low <= end && before == SerialState(K, low - 1)
    ensures VariationSum(K, low, before, end) <= WindowCounts(K, low - 1)(end - 1)
  {
    var f, h := VariationTerms(K, low, before), WindowCounts(K, low - 1);
    CountsGrow(K, low - 1, low, before, f, h);
    NothingCounted(K, low - 1);
    Telescope(f, h, low, end);
  }

  lemma VariationNonnegative(K: nat, low: nat, before: int, end: nat)
    ensures VariationSum(K, low, before, end) >= 0
  {
    SumNonnegative(VariationTerms(K, low, before), low, end);
  }

  // ---- Reciprocals ------------------------------------------------------------

  function Recip(d: int): real {
    if d >= 1 then 1.0 / d as real else 0.0
  }

  function Recips(): int -> real {
    d => Recip(d)
  }

  lemma RecipOrder(d: nat, e: nat)
    requires 1 <= d <= e
    ensures 0.0 < Recip(e) <= Recip(d)
  {
    var x, y := d as real, e as real;
    assert 1.0 / x - 1.0 / y == (y - x) / (x * y);
  }

  lemma RecipDoubles(x: nat)
    requires x >= 1
    ensures Recip(2 * x) == Recip(x) / 2.0 && Recip(6 * x) == Recip(x) / 6.0
  {
  }

  /** The reciprocals of an octave. */
  lemma {:induction false} Octave(x: nat)
    requires x >= 1
    ensures RealSum(Recips(), x, 2 * x) <= if x == 1 then 1.0 else 5.0 / 6.0
    decreases x
  {
    var f := Recips();
    if x == 1 {
      assert RealSum(f, 1, 2) == RealSum(f, 1, 1) + Recip(1);
    } else if x == 2 {
      assert RealSum(f, 2, 4) == RealSum(f, 2, 2) + Recip(2) + Recip(3);
    } else {
      var y := x - 1;
      Octave(y);
      FirstRealTerm(f, y, 2 * y);
      OctaveStep(y, f);
    }
  }

  lemma OctaveStep(y: nat, f: int -> real)
    requires y >= 1 && f == Recips()
    requires RealSum(f, y, 2 * y) == f(y) + RealSum(f, y + 1, 2 * y)
    ensures RealSum(f, y + 1, 2 * (y + 1)) <= RealSum(f, y, 2 * y)
  {
    assert RealSum(f, y + 1, 2 * y + 2) == RealSum(f, y + 1, 2 * y) + f(2 * y) + f(2 * y + 1);
    RecipDoubles(y);
    RecipOrder(2 * y, 2 * y + 1);
  }

  lemma RecipsNonnegative()
    ensures forall d :: Recips()(d) >= 0.0
  {
  }

  /** The harmonic numbers grow by at most 5/6 with each doubling. */
  lemma {:induction false} Harmonic(n: nat, k: nat)
    requires n < Power2(k + 1)
    ensures RealSum(Recips(), 1, n + 1) <= 1.0 + 5.0 * k as real / 6.0
    decreases k
  {
    var f := Recips();
    assert Power2(k + 1) == 2 * Power2(k);
    if n <= 1 {
      Octave(1);
      RecipsNonnegative();
      RealSumWidens(f, 1, n + 1, 1, 2);
    } else {
      var h := n / 2;
      Harmonic(h, k - 1);
      Octave(h + 1);
      RecipsNonnegative();
      RealSumSplit(f, 1, h + 1, n + 1);
      RealSumWidens(f, h + 1, n + 1, h + 1, 2 * (h + 1));
    }
  }

  function CoprimeRecip(d: int): real {
    if d % 2 != 0 && d % 3 != 0 then Recip(d) else 0.0
  }

  function CoprimeRecips(): int -> real {
    d => CoprimeRecip(d)
  }

  lemma RealSumNext(f: int -> real, lo: int, hi: int)
    requires lo <= hi
    ensures RealSum(f, lo, hi + 1) == RealSum(f, lo, hi) + f(hi)
  {
  }

  /** From six numbers starting with a multiple of 6 only the second and the last count. */
  lemma SixMore(f: int -> real, start: int)
    requires start >= 1 && f(start) == f(start + 2) == f(start + 3) == f(start + 4) == 0.0
    ensures RealSum(f, 1, start + 6) == RealSum(f, 1, start) + f(start + 1) + f(start + 5)
  {
    RealSumNext(f, 1, start);
    RealSumNext(f, 1, start + 1);
    RealSumNext(f, 1, start + 2);
    RealSumNext(f, 1, start + 3);
    RealSumNext(f, 1, start + 4);
    RealSumNext(f, 1, start + 5);
  }

  lemma FirstFive(f: int -> real, start: int)
    requires start == 1 && f == CoprimeRecips()
    ensures RealSum(f, 1, start + 5) == 6.0 / 5.0
  {
    RealSumNext(f, 1, start);
    RealSumNext(f, 1, start + 1);
    RealSumNext(f, 1, start + 2);
    RealSumNext(f, 1, start + 3);
    RealSumNext(f, 1, start + 4);
    assert RealSum(f, 1, start) == 0.0;
  }

  lemma SixRemainders(k: nat, start: nat)
    requires start == 6 * k
    ensures start % 2 == 0 && (start + 2) % 2 == 0 && (start + 4) % 2 == 0 && (start + 3) % 3 == 0
  {
    Multiple(2, 3 * k);
    Multiple(2, 3 * k + 1);
    Multiple(2, 3 * k + 2);
    Multiple(3, 2 * k + 1);
  }

  lemma CoprimeRecipBelow(d: nat, e: nat)
    requires 1 <= d <= e
    ensures CoprimeRecip(e) <= Recip(d)
  {
    RecipOrder(d, e);
  }

  lemma SixthNumbers(k: nat, f: int -> real, start: int)
    requires k >= 1 && start == 6 * k && f == CoprimeRecips()
    ensures f(start) == f(start + 2) == f(start + 3) == f(start + 4) == 0.0
    ensures f(start + 1) + f(start + 5) <= Recip(k) / 3.0
  {
    SixRemainders(k, start);
    CoprimeRecipBelow(start, start + 1);
    CoprimeRecipBelow(start, start + 5);
    RecipDoubles(k);
  }

  /** Among six numbers two are prime to 6. */
  lemma {:induction false} CoprimeBlocks(k: nat)
    ensures RealSum(CoprimeRecips(), 1, 6 * k + 6) <= 6.0 / 5.0 + RealSum(Recips(), 1, k + 1) / 3.0
  {
    var f := CoprimeRecips();
    if k == 0 {
      FirstFive(f, 1);
    } else {
      CoprimeBlocks(k - 1);
      SixthNumbers(k, f, 6 * k);
      SixMore(f, 6 * k);
      RealSumNext(Recips(), 1, k);
    }
  }

  lemma CoprimesNonnegative()
    ensures forall d :: CoprimeRecips()(d) >= 0.0
  {
    RecipsNonnegative();
  }

  lemma CoprimesBelow(K: nat, k: nat, doublings: nat)
    requires K <= 6 * k + 5 && k < Power2(doublings + 1)
    ensures RealSum(CoprimeRecips(), 1, K + 1) <= 6.0 / 5.0 + (1.0 + 5.0 * doublings as real / 6.0) / 3.0
  {
    CoprimeBlocks(k);
    Harmonic(k, doublings);
    CoprimesNonnegative();
    RealSumWidens(CoprimeRecips(), 1, K + 1, 1, 6 * k + 6);
  }

  lemma CoprimeTotal(K: nat)
    requires K <= INT32_MAX
    ensures RealSum(CoprimeRecips(), 1, K + 1) <= 419.0 / 45.0
  {
    Power2Of29();
    CoprimesBelow(K, K / 6, 28);
  }

  lemma Power2Of29()
    ensures 4 * Power2(29) == INT32_MAX + 1
  {
    Power2Values();
    assert Power2(32) == 2 * Power2(31) && Power2(31) == 2 * Power2(30) && Power2(30) == 2 * Power2(29);
  }

  // ---- The share of each d ----------------------------------------------------

  function Late(K: nat, factor: nat, d: int): real {
    if factor * d > K then Recip(d) else 0.0
  }

  function Lates(K: nat, factor: nat): int -> real {
    d => Late(K, factor, d)
  }

  lemma LateSum(K: nat, factor: nat, start: nat, f: int -> real)
    requires start >= 1 && (factor == 2 || factor == 3) && start == K / factor + 1 && f == Lates(K, factor)
    ensures start <= K + 1 && RealSum(f, 1, K + 1) <= RealSum(Recips(), start, K + 1)
  {
    forall d | 1 <= d < start
      ensures f(d) <= 0.0
    {
    }
    RealSumSplit(f, 1, start, K + 1);
    NotPositive(f, 1, start);
    RecipsNonnegative();
    RealSumMonotone(f, Recips(), start, K + 1);
  }

  lemma {:induction false} NotPositive(f: int -> real, lo: int, hi: int)
    requires forall i | lo <= i < hi :: f(i) <= 0.0
    ensures RealSum(f, lo, hi) <= 0.0
    decreases hi - lo
  {
    if hi <= lo {
    } else {
      NotPositive(f, lo, hi - 1);
    }
  }

  lemma LateHalves(K: nat)
    ensures RealSum(Lates(K, 2), 1, K + 1) <= 1.0
  {
    var x := K / 2 + 1;
    LateSum(K, 2, x, Lates(K, 2));
    Octave(x);
    RecipsNonnegative();
    RealSumWidens(Recips(), x, K + 1, x, 2 * x);
  }

  lemma LateThirds(K: nat)
    ensures RealSum(Lates(K, 3), 1, K + 1) <= 11.0 / 6.0
  {
    var x := K / 3 + 1;
    LateSum(K, 3, x, Lates(K, 3));
    Octave(x);
    Octave(2 * x);
    RecipsNonnegative();
    RealSumWidens(Recips(), x, K + 1, x, 2 * (2 * x));
    RealSumSplit(Recips(), x, 2 * x, 2 * (2 * x));
  }

  /** The density of the numbers counted by d. */
  function Share(K: nat, d: int): real {
    Late(K, 2, d) / 2.0 + Late(K, 3, d) / 6.0 + CoprimeRecip(d) / 3.0
  }

  function Shares(K: nat): int -> real {
    d => Share(K, d)
  }

  lemma {:induction false} ShareSum(K: nat, end: nat)
    ensures RealSum(Shares(K), 1, end) == RealSum(Lates(K, 2), 1, end) / 2.0
      + RealSum(Lates(K, 3), 1, end) / 6.0 + RealSum(CoprimeRecips(), 1, end) / 3.0
  {
    if end <= 1 {
    } else {
      ShareSum(K, end - 1);
    }
  }

  lemma ShareTotal(K: nat)
    requires K <= INT32_MAX
    ensures RealSum(Shares(K), 1, K + 1) <= 98.0 / 25.0
  {
    ShareSum(K, K + 1);
    LateHalves(K);
    LateThirds(K);
    CoprimeTotal(K);
  }

  /** The quotients by d, 2 d, 3 d and 6 d of a length are one number and its parts. */
  lemma MultiplesNear(m: nat, n: nat, d: nat, k: nat, ratio: real)
    requires m <= n && d >= 1 && k >= 1 && ratio == (n - m) as real / d as real
    ensures -1.0 < Multiples(m, n, k * d) as real - ratio / k as real < 1.0
  {
    Scale(d, 1, k);
    WindowFraction(m, n, k * d);
    assert (k * d) as real == k as real * d as real;
    assert (n - m) as real / (k * d) as real == ratio / k as real;
  }

  lemma ShareOfLength(K: nat, length: real, d: nat, ratio: real)
    requires d >= 1 && ratio == length / d as real
    ensures Multiply(length, Share(K, d)) == (if 2 * d > K then ratio / 2.0 else 0.0)
      + (if 3 * d > K then ratio / 6.0 else 0.0) + (if d % 2 != 0 && d % 3 != 0 then ratio / 3.0 else 0.0)
  {
    var r := Recip(d);
    assert Multiply(length, r) == ratio;
    PartOfProduct(length, r, if 2 * d > K then 1.0 else 0.0, if 3 * d > K then 1.0 else 0.0,
                  if d % 2 != 0 && d % 3 != 0 then 1.0 else 0.0);
  }

  lemma PartOfProduct(length: real, r: real, a: real, b: real, c: real)
    ensures Multiply(length, r * a / 2.0 + r * b / 6.0 + r * c / 3.0)
      == Multiply(length, r) * a / 2.0 + Multiply(length, r) * b / 6.0 + Multiply(length, r) * c / 3.0
  {
  }

  lemma WindowWeightNear(K: nat, m: nat, n: nat, d: nat)
    requires m <= n && d >= 1
    ensures WindowWeight(K, m, n, d) as real <= Multiply((n - m) as real, Share(K, d)) + 7.0
  {
    var ratio := (n - m) as real / d as real;
    MultiplesNear(m, n, d, 1, ratio);
    MultiplesNear(m, n, d, 2, ratio);
    MultiplesNear(m, n, d, 3, ratio);
    MultiplesNear(m, n, d, 6, ratio);
    ShareOfLength(K, (n - m) as real, d, ratio);
    CombineNear(K, d, Multiples(m, n, 1 * d), Multiples(m, n, 2 * d), Multiples(m, n, 3 * d), Multiples(m, n, 6 * d),
                ratio);
  }

  /** Seven counts at most are off by less than one each. */
  lemma CombineNear(K: nat, d: int, one: int, two: int, three: int, six: int, ratio: real)
    requires -1.0 < one as real - ratio < 1.0 && -1.0 < two as real - ratio / 2.0 < 1.0
    requires -1.0 < three as real - ratio / 3.0 < 1.0 && -1.0 < six as real - ratio / 6.0 < 1.0
    ensures Combine(K, d, one, two, three, six) as real <= (if 2 * d > K then ratio / 2.0 else 0.0)
      + (if 3 * d > K then ratio / 6.0 else 0.0) + (if d % 2 != 0 && d % 3 != 0 then ratio / 3.0 else 0.0) + 7.0
  {
  }

  lemma {:induction false} ScaledAtMost(f: int -> int, g: int -> real, length: real, slack: real, lo: int, hi: int)
    requires lo <= hi && forall i | lo <= i < hi :: f(i) as real <= Multiply(length, g(i)) + slack
    ensures Sum(f, lo, hi) as real <= Multiply(length, RealSum(g, lo, hi)) + slack * (hi - lo) as real
    decreases hi - lo
  {
    if hi <= lo {
      MultiplySum(length, 0.0, 0.0);
    } else {
      ScaledAtMost(f, g, length, slack, lo, hi - 1);
      MultiplySum(length, RealSum(g, lo, hi - 1), g(hi - 1));
    }
  }

  lemma WindowTotal(K: nat, m: nat, n: nat, length: real)
    requires K <= INT32_MAX && m <= n && length == (n - m) as real
    ensures Sum(WindowWeights(K, m, n), 1, K + 1) as real <= length * (98.0 / 25.0) + 7.0 * K as real
  {
    forall d | 1 <= d < K + 1
      ensures WindowWeights(K, m, n)(d) as real <= Multiply(length, Shares(K)(d)) + 7.0
    {
      WindowWeightNear(K, m, n, d);
    }
    ScaledAtMost(WindowWeights(K, m, n), Shares(K), length, 7.0, 1, K + 1);
    ShareTotal(K);
    MultiplyMonotone(RealSum(Shares(K), 1, K + 1), 98.0 / 25.0, length);
    MultiplySymmetric(length, RealSum(Shares(K), 1, K + 1));
    MultiplySymmetric(length, 98.0 / 25.0);
  }

  /** VARIATION GROWS SLOWLY. Over a window that enters with the true state the variation is below four times
      the window's length, and 7 K. */
  lemma VariationWindow(K: nat, low: nat, before: int, end: nat)
    requires 1 <= K <= INT32_MAX && 1 <= low <= end && before == SerialState(K, low - 1)
    ensures 0 <= VariationSum(K, low, before, end)
    ensures 25 * VariationSum(K, low, before, end) <= 98 * (end - low) + 175 * K
  {
    VariationNonnegative(K, low, before, end);
    VariationBelowWeights(K, low, before, end);
    WindowTotal(K, low - 1, end - 1, (end - low) as real);
  }
}
