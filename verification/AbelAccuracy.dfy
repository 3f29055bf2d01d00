/** How far the emitted fixed-point bounds are from the real sums they bound
    (reference/tg_cdem_abel.cpp, lines 128-143 and 246-267). */
module AbelAccuracy {
  import opened Numbers
  import opened Sums
  import opened Mobius
  import opened Weights
  import opened AbelRecurrence
  import opened Producer

  function Ratio(a: int, n: int): real
    requires n >= 1
  {
    a as real / n as real
  }

  lemma RatioOrder(a: int, n: int, q: int)
    requires n >= 1
    ensures q * n <= a ==> q as real <= Ratio(a, n)
    ensures a <= q * n ==> Ratio(a, n) <= q as real
  {
    var r := Ratio(a, n);
    assert r * n as real == a as real;
    assert (q * n) as real == q as real * n as real;
  }

  lemma RatioBetween(S: nat, n: nat)
    requires n >= 1
    ensures (S / n) as real <= Ratio(S, n) <= CeilDiv(S, n) as real
    ensures CeilDiv(S, n) as real <= Ratio(S, n) + 1.0
    ensures Ratio(S, n) <= (S / n) as real + 1.0
  {
    var q := S / n;
    CeilDivLeast(S, n, q);
    CeilDivLeast(S, n, CeilDiv(S, n));
    CeilDivLeast(S, n, q + 1);
    RatioOrder(S, n, q);
    RatioOrder(S, n, CeilDiv(S, n));
    RatioOrder(S, n, q + 1);
  }

  // ---- The signed aggregate -------------------------------------------------

  lemma ScaledOrder(x: int, y: real, z: real)
    requires y <= z
    ensures x >= 0 ==> Multiply(x as real, y) <= Multiply(x as real, z)
    ensures x <= 0 ==> Multiply(x as real, z) <= Multiply(x as real, y)
  {
  }

  lemma ScaledWhole(x: int, y: int)
    ensures Multiply(x as real, y as real) == (x * y) as real
    ensures Multiply(x as real, y as real + 1.0) == Multiply(x as real, y as real) + x as real
    ensures Multiply(x as real, y as real - 1.0) == Multiply(x as real, y as real) - x as real
  {
  }

  function ExactTerm(K: nat, S: nat, low: int, before: int, n: int): real {
    if n >= 1 then Multiply(Increment(K, low, before, n) as real, Ratio(S, n)) else 0.0
  }

  function ExactTerms(K: nat, S: nat, low: int, before: int): int -> real {
    n => ExactTerm(K, S, low, before, n)
  }

  /** Rounding one weight in its increment's direction costs between 0 and the increment's size. */
  lemma DirectedProduct(increment: int, n: nat, S: nat)
    requires n >= 1
    ensures var product := (increment * DirectedWeight(increment, n, S)) as real;
      && Multiply(increment as real, Ratio(S, n)) <= product
      && product <= Multiply(increment as real, Ratio(S, n)) + AbsInt(increment) as real
  {
    RatioBetween(S, n);
    var exact := Ratio(S, n);
    var weight := DirectedWeight(increment, n, S);
    ScaledWhole(increment, weight);
    if increment > 0 {
      ScaledOrder(increment, exact, weight as real);
      ScaledOrder(increment, weight as real - 1.0, exact);
    } else {
      ScaledOrder(increment, weight as real, exact);
      ScaledOrder(increment, exact, weight as real + 1.0);
    }
  }

  /** The signed aggregate is an upper bound on the scaled sum of increment(n) / n, and exceeds it by
      at most the total variation. */
  lemma SignedAccuracy(K: nat, S: nat, low: nat, before: int, end: int)
    requires low >= 1
    ensures RealSum(ExactTerms(K, S, low, before), low, end) <= SignedSum(K, S, low, before, end) as real
    ensures SignedSum(K, S, low, before, end) as real
      <= RealSum(ExactTerms(K, S, low, before), low, end) + VariationSum(K, low, before, end) as real
  {
    var exact, rounded, variation :=
      ExactTerms(K, S, low, before), SignedTerms(K, S, low, before), VariationTerms(K, low, before);
    forall n | low <= n < end
      ensures exact(n) <= rounded(n) as real <= exact(n) + variation(n) as real
    {
      DirectedProduct(Increment(K, low, before, n), n, S);
    }
    RealSumAtMost(exact, rounded, low, end);
    RealSumAtLeast(exact, rounded, variation, low, end);
  }

  // ---- The absolute aggregate ------------------------------------------------

  /** |increment(n)| times a stand-in for S / sqrt(n). */
  function RootTerm(K: nat, low: int, before: int, root: int -> real, n: int): real {
    if n >= 1 then Multiply(AbsInt(Increment(K, low, before, n)) as real, root(n)) else 0.0
  }

  function RootTerms(K: nat, low: int, before: int, root: int -> real): int -> real {
    n => RootTerm(K, low, before, root, n)
  }

  function Squared(x: real, n: int): real {
    x * x * n as real
  }

  /** The stand-in is at most S / sqrt(n). */
  predicate BelowRoot(x: real, n: int, S: nat) {
    x >= 0.0 && Squared(x, n) <= (S * S) as real
  }

  predicate AboveRoot(x: real, n: int, S: nat) {
    x >= 0.0 && Squared(x, n) >= (S * S) as real
  }

  lemma StrictProduct(x: real, y: real, z: real)
    requires x < y && z > 0.0
    ensures x * z < y * z
  {
  }

  lemma StrictSquare(b: real, a: real)
    requires 0.0 <= b < a
    ensures b * b < a * a
  {
    var gap := a - b;
    StrictProduct(0.0, gap, a);
    WeakProduct(gap, b);
    Expand(gap, a, b);
  }

  lemma WeakProduct(x: real, y: real)
    requires x >= 0.0 && y >= 0.0
    ensures x * y >= 0.0
  {
  }

  lemma Expand(gap: real, a: real, b: real)
    requires gap == a - b
    ensures a * a - b * b == gap * a + gap * b
  {
  }

  lemma SquareOrder(a: real, b: real, n: int)
    requires a >= 0.0 && b >= 0.0 && n >= 1 && Squared(a, n) <= Squared(b, n)
    ensures a <= b
  {
    if b < a {
      StrictSquare(b, a);
      StrictProduct(b * b, a * a, n as real);
    }
  }

  lemma WholeSquare(q: nat, n: nat)
    ensures Squared(q as real, n) == (q * q * n) as real
  {
    assert q as real * q as real == (q * q) as real;
  }

  /** The integer weight is at least S / sqrt(n) and less than 1 above it. */
  lemma RootBetween(n: nat, S: nat, x: real)
    requires n >= 1
    ensures BelowRoot(x, n, S) ==> x <= LeastRoot(n, S) as real
    ensures AboveRoot(x, n, S) ==> LeastRoot(n, S) as real <= x + 1.0
  {
    var q := LeastRoot(n, S);
    assert IsLeastRoot(q, n, S);
    LeastBetween(q, n, S, x);
  }

  lemma LeastBetween(q: nat, n: nat, S: nat, x: real)
    requires n >= 1 && IsLeastRoot(q, n, S)
    ensures BelowRoot(x, n, S) ==> x <= q as real
    ensures AboveRoot(x, n, S) ==> q as real <= x + 1.0
  {
    WholeSquare(q, n);
    if BelowRoot(x, n, S) {
      SquareOrder(x, q as real, n);
    }
    if AboveRoot(x, n, S) && q > 0 {
      WholeSquare(q - 1, n);
      SquareOrder((q - 1) as real, x, n);
    }
  }

  lemma RootProduct(size: nat, weight: nat, x: real)
    requires x >= 0.0
    ensures x <= weight as real ==> Multiply(size as real, x) <= (size * weight) as real
    ensures weight as real <= x + 1.0 ==> (size * weight) as real <= Multiply(size as real, x) + size as real
  {
    ScaledWhole(size, weight);
    if x <= weight as real { ScaledOrder(size, x, weight as real); }
    if weight as real <= x + 1.0 { ScaledOrder(size, weight as real - 1.0, x); }
  }

  /** The absolute aggregate is at least the scaled sum of |increment(n)| / sqrt(n): at least the sum with
      any numbers whose squares are at most S^2 / n in its place. */
  lemma AbsoluteIsUpperBound(K: nat, S: nat, low: nat, before: int, end: int, root: int -> real)
    requires low >= 1 && forall n | low <= n < end :: BelowRoot(root(n), n, S)
    ensures RealSum(RootTerms(K, low, before, root), low, end) <= AbsoluteSum(K, S, low, before, end) as real
  {
    var exact, rounded := RootTerms(K, low, before, root), AbsoluteTerms(K, S, low, before);
    forall n | low <= n < end
      ensures exact(n) <= rounded(n) as real
    {
      RootBetween(n, S, root(n));
      RootProduct(AbsInt(Increment(K, low, before, n)), LeastRoot(n, S), root(n));
    }
    RealSumAtMost(exact, rounded, low, end);
  }

  /** And it exceeds that sum by at most the variation. */
  lemma AbsoluteIsAccurate(K: nat, S: nat, low: nat, before: int, end: int, root: int -> real)
    requires low >= 1 && forall n | low <= n < end :: AboveRoot(root(n), n, S)
    ensures AbsoluteSum(K, S, low, before, end) as real
      <= RealSum(RootTerms(K, low, before, root), low, end) + VariationSum(K, low, before, end) as real
  {
    var exact, rounded, variation :=
      RootTerms(K, low, before, root), AbsoluteTerms(K, S, low, before), VariationTerms(K, low, before);
    forall n | low <= n < end
      ensures rounded(n) as real <= exact(n) + variation(n) as real
    {
      RootBetween(n, S, root(n));
      RootProduct(AbsInt(Increment(K, low, before, n)), LeastRoot(n, S), root(n));
    }
    RealSumAtLeast(exact, rounded, variation, low, end);
  }

  // ---- The reciprocal sum ---------------------------------------------------

  /** scale mu(d) / d. */
  function MuRatio(scale: nat, d: int): real {
    if d >= 1 then Multiply(Mu(d) as real, Ratio(scale, d)) else 0.0
  }

  function MuRatios(scale: nat): int -> real {
    d => MuRatio(scale, d)
  }

  /** 1 for a squarefree d that does not divide the scale. */
  function Uneven(scale: nat, d: int): nat {
    if d >= 1 && Mu(d) != 0 && scale % d != 0 then 1 else 0
  }

  function UnevenCounts(scale: nat): int -> int {
    d => Uneven(scale, d)
  }

  function NoSlack(): int -> int {
    d => 0
  }

  lemma BracketTerm(scale: nat, d: nat)
    requires d >= 1
    ensures LowerTerm(scale, d) as real <= MuRatio(scale, d) <= UpperTerm(scale, d) as real
    ensures UpperTerm(scale, d) == LowerTerm(scale, d) + Uneven(scale, d)
  {
    MuBounds(d);
    RatioBetween(scale, d);
  }

  /** The two numerators bracket the scaled sum of mu(d) / d over d <= K, and differ by exactly the
      number of squarefree d <= K that do not divide the scale. */
  lemma ReciprocalBracket(K: nat, scale: nat)
    ensures SummaryOf(K, scale).reciprocalLower as real <= RealSum(MuRatios(scale), 1, K + 1)
    ensures RealSum(MuRatios(scale), 1, K + 1) <= SummaryOf(K, scale).reciprocalUpper as real
    ensures SummaryOf(K, scale).reciprocalUpper
      == SummaryOf(K, scale).reciprocalLower + Sum(UnevenCounts(scale), 1, K + 1)
  {
    var lower, exact, upper := LowerTerms(scale), MuRatios(scale), UpperTerms(scale);
    forall d | 1 <= d < K + 1
      ensures lower(d) as real <= exact(d) <= upper(d) as real
      ensures upper(d) == lower(d) + UnevenCounts(scale)(d)
    {
      BracketTerm(scale, d);
    }
    RealSumAtMost(exact, upper, 1, K + 1);
    SumZero(NoSlack(), 1, K + 1);
    RealSumAtLeast(exact, lower, NoSlack(), 1, K + 1);
    SumAdd(lower, UnevenCounts(scale), upper, 1, K + 1);
  }
}
