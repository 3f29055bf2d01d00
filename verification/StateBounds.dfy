/** How large the states of the recurrence really get
    (reference/tg_cdem_abel.cpp, lines 220-240). */
module StateBounds {
  import opened Numbers
  import opened MachineWords
  import opened Sums
  import opened Mobius
  import opened Weights
  import opened AbelRecurrence
  import opened AbelBounds

  // ---- The mean of the Moebius function -------------------------------------

  /** mu(d) / d. */
  function MuOver(d: int): real {
    if d >= 1 then Mu(d) as real / d as real else 0.0
  }

  function MuOvers(): int -> real {
    d => MuOver(d)
  }

  function ScaledMu(length: real, d: int): real {
    Multiply(length, MuOver(d))
  }

  function ScaledMus(length: real): int -> real {
    d => ScaledMu(length, d)
  }

  lemma {:induction false} ScaledSum(length: real, lo: int, hi: int)
    ensures RealSum(ScaledMus(length), lo, hi) == Multiply(length, RealSum(MuOvers(), lo, hi))
    decreases hi - lo
  {
    if hi <= lo {
    } else {
      ScaledSum(length, lo, hi - 1);
      MultiplySum(length, RealSum(MuOvers(), lo, hi - 1), MuOver(hi - 1));
    }
  }

  predicate Close(x: real, y: real) {
    -1.0 <= x - y <= 1.0
  }

  lemma {:induction false} CloseSums(f: int -> int, g: int -> real, lo: int, hi: int)
    requires lo <= hi && forall i | lo <= i < hi :: Close(f(i) as real, g(i))
    ensures -((hi - lo) as real) <= Sum(f, lo, hi) as real - RealSum(g, lo, hi) <= (hi - lo) as real
    decreases hi - lo
  {
    if lo == hi {
    } else {
      CloseSums(f, g, lo, hi - 1);
    }
  }

  lemma {:induction false} FirstRealTerm(g: int -> real, lo: int, hi: int)
    requires lo < hi
    ensures RealSum(g, lo, hi) == g(lo) + RealSum(g, lo + 1, hi)
    decreases hi - lo
  {
    if lo + 1 == hi {
      assert RealSum(g, lo, lo) == 0.0 && RealSum(g, hi, hi) == 0.0;
    } else {
      FirstRealTerm(g, lo, hi - 1);
    }
  }

  /** What the numbers after m up to n add to the term of d. */
  function WindowTerm(m: nat, n: nat, d: int): int {
    MuFloor(n, d) - MuFloor(m, d)
  }

  function WindowTerms(m: nat, n: nat): int -> int {
    d => WindowTerm(m, n, d)
  }

  lemma FractionOrder(x: int, d: nat, q: int)
    requires d >= 1
    ensures q * d <= x ==> q as real <= x as real / d as real
    ensures x < q * d ==> x as real / d as real < q as real
  {
    var r := x as real / d as real;
    assert r * d as real == x as real;
    assert (q * d) as real == q as real * d as real;
  }

  lemma QuotientFraction(n: nat, d: nat)
    requires d >= 1
    ensures (n / d) as real <= n as real / d as real < (n / d) as real + 1.0
  {
    CeilDivLeast(n, d, n / d);
    CeilDivLeast(n, d, n / d + 1);
    FractionOrder(n, d, n / d);
    FractionOrder(n, d, n / d + 1);
  }

  lemma FractionDifference(m: nat, n: nat, d: nat)
    requires d >= 1
    ensures (n - m) as real / d as real == n as real / d as real - m as real / d as real
  {
  }

  lemma WindowFraction(m: nat, n: nat, d: nat)
    requires m <= n && d >= 1
    ensures -1.0 < (n / d - m / d) as real - (n - m) as real / d as real < 1.0
  {
    QuotientFraction(n, d);
    QuotientFraction(m, d);
    FractionDifference(m, n, d);
  }

  /** A sign times a count stays close to the length times the signed reciprocal. */
  lemma SignedFraction(sign: int, count: int, length: real, d: real)
    requires -1 <= sign <= 1 && d > 0.0 && Close(count as real, length / d)
    ensures Close((sign * count) as real, Multiply(length, sign as real / d))
  {
    if sign == 0 {
      assert 0.0 / d == 0.0;
    } else if sign == 1 {
      assert Multiply(length, 1.0 / d) == length / d;
    } else {
      assert Multiply(length, -1.0 / d) == -(length / d);
    }
  }

  lemma WindowTermIs(m: nat, n: nat, d: nat)
    requires d >= 1
    ensures WindowTerm(m, n, d) == Mu(d) * (n / d - m / d)
  {
    Distribute(Mu(d), m / d, n / d - m / d);
  }

  lemma WindowTermClose(m: nat, n: nat, d: nat)
    requires m <= n && d >= 1
    ensures Close(WindowTerm(m, n, d) as real, ScaledMu((n - m) as real, d))
  {
    MuBounds(d);
    WindowFraction(m, n, d);
    WindowTermIs(m, n, d);
    SignedFraction(Mu(d), n / d - m / d, (n - m) as real, d as real);
  }

  lemma WindowSum(K: nat, m: nat, n: nat)
    ensures Sum(WindowTerms(m, n), 1, K + 1) == SerialState(K, n) - SerialState(K, m)
  {
    FloorSumIdentity(K, n);
    FloorSumIdentity(K, m);
    SumAdd(MuFloors(m), WindowTerms(m, n), MuFloors(n), 1, K + 1);
  }

  lemma TailsClose(K: nat, f: int -> int, g: int -> real, start: nat)
    requires 1 <= start <= K + 1 && f == WindowTerms(0, K) && g == ScaledMus(K as real)
    ensures -((K + 1 - start) as real) <= Sum(f, start, K + 1) as real - RealSum(g, start, K + 1)
    ensures Sum(f, start, K + 1) as real - RealSum(g, start, K + 1) <= (K + 1 - start) as real
  {
    forall d | start <= d < K + 1
      ensures Close(f(d) as real, g(d))
    {
      WindowTermClose(0, K, d);
    }
    CloseSums(f, g, start, K + 1);
  }

  /** Up to K the terms add up to 1, and the first one is K. */
  lemma HeadsOfSums(K: nat, f: int -> int, g: int -> real, start: nat)
    requires K >= 1 && start == 2 && f == WindowTerms(0, K) && g == ScaledMus(K as real)
    ensures Sum(f, start, K + 1) == 1 - K
    ensures RealSum(g, start, K + 1) == RealSum(g, 1, K + 1) - K as real
  {
    SumSplit(f, 1, start, K + 1);
    FirstRealTerm(g, 1, K + 1);
    FirstTermExact(K, f, g);
    WindowSum(K, 0, K);
    VanishingPrefix(K, 0, K);
  }

  /** Up to K the state is 1, so K times the mean differs from 1 by at most K - 1. */
  lemma MeanNearOne(K: nat, mean: real, start: nat)
    requires K >= 1 && mean == RealSum(MuOvers(), 1, K + 1) && start == 2
    ensures -((K - 1) as real) <= 1.0 - Multiply(K as real, mean) <= (K - 1) as real
  {
    var f, g := WindowTerms(0, K), ScaledMus(K as real);
    TailsClose(K, f, g, start);
    HeadsOfSums(K, f, g, start);
    ScaledSum(K as real, 1, K + 1);
  }

  lemma NoState(K: nat)
    ensures SerialState(K, 0) == 0
  {
  }

  lemma FirstTermExact(K: nat, f: int -> int, g: int -> real)
    requires f == WindowTerms(0, K) && g == ScaledMus(K as real)
    ensures Sum(f, 1, 2) == K && g(1) == K as real && SerialState(K, 0) == 0
  {
    NoState(K);
    WindowTermIs(0, K, 1);
    assert Sum(f, 1, 2) == Sum(f, 1, 1) + f(1);
    assert MuOver(1) == 1.0;
  }

  lemma AtMostOne(k: real, mean: real)
    requires k > 0.0
    ensures Multiply(k, mean) <= k ==> mean <= 1.0
    ensures -k <= Multiply(k, mean) ==> -1.0 <= mean
  {
    assert k * (mean - 1.0) == k * mean - k;
    assert k * (mean + 1.0) == k * mean + k;
  }

  /** THE MEAN OF MU. The sum of mu(d) / d over d <= K never leaves [-1, 1]. */
  lemma MeanOfMu(K: nat)
    requires K >= 1
    ensures -1.0 <= RealSum(MuOvers(), 1, K + 1) <= 1.0
  {
    var mean := RealSum(MuOvers(), 1, K + 1);
    MeanNearOne(K, mean, 2);
    AtMostOne(K as real, mean);
  }

  lemma WindowNearMean(K: nat, m: nat, n: nat, length: real, moved: int)
    requires m <= n && length == (n - m) as real && moved == SerialState(K, n) - SerialState(K, m)
    ensures -(K as real) <= moved as real - Multiply(length, RealSum(MuOvers(), 1, K + 1)) <= K as real
  {
    var f, g := WindowTerms(m, n), ScaledMus(length);
    forall d | 1 <= d < K + 1
      ensures Close(f(d) as real, g(d))
    {
      WindowTermClose(m, n, d);
    }
    CloseSums(f, g, 1, K + 1);
    WindowSum(K, m, n);
    ScaledSum(length, 1, K + 1);
  }

  /** STATES GROW SLOWLY. Over n - m numbers the state moves by at most n - m + K. */
  lemma StateMoves(K: nat, m: nat, n: nat)
    requires K >= 1 && m <= n
    ensures AbsInt(SerialState(K, n) - SerialState(K, m)) <= n - m + K
  {
    var length, mean := (n - m) as real, RealSum(MuOvers(), 1, K + 1);
    WindowNearMean(K, m, n, length, SerialState(K, n) - SerialState(K, m));
    MeanOfMu(K);
    UnitTimes(length, mean);
  }

  lemma UnitTimes(length: real, mean: real)
    requires length >= 0.0 && -1.0 <= mean <= 1.0
    ensures -length <= Multiply(length, mean) <= length
  {
    assert length * (1.0 - mean) >= 0.0 && length * (mean + 1.0) >= 0.0;
  }

  lemma StateSize(K: nat, n: nat)
    requires K >= 1
    ensures AbsInt(SerialState(K, n)) <= n + K
  {
    StateMoves(K, 0, n);
    NoState(K);
  }

  /** The growth is attained: with K = 1 the state of the recurrence after n is n. */
  lemma StateOfOne(n: nat)
    ensures SerialState(1, n) == n
    ensures Signed64(SerialState(1, n)) <==> n < INT64_LIMIT
  {
    FloorSumIdentity(1, n);
    assert Sum(MuFloors(n), 1, 1) == 0;
    assert Mu(1) == 1;
    assert n / 1 == n;
  }
}
