/** The block-parallel producer (reference/tg_cdem_abel.cpp, lines 105-280). */
module Producer {
  import opened Outcomes
  import opened MachineWords
  import opened Divisibility
  import opened Sums
  import opened Mobius
  import opened Sieves
  import opened Strides
  import opened Weights
  import opened AbelRecurrence
  import opened AbelBounds
  import opened StateBounds
  import opened VariationBounds

  // ---- The Moebius table and its summaries ----------------------------------

  /** The numbers up to K with a nonzero Moebius value, in order. */
  function NonzeroUpTo(K: nat): seq<nat> {
    if K == 0 then [] else NonzeroUpTo(K - 1) + (if Mu(K) != 0 then [K] else [])
  }

  function MuAt(d: int): int {
    if d >= 1 then Mu(d) else 0
  }

  function MuAbsAt(d: int): int {
    AbsInt(MuAt(d))
  }

  /** What a number with Moebius value m adds to the lower and to the upper numerator. */
  function LowerPart(m: int, scale: nat, d: int): int
    requires d >= 1
  {
    if m > 0 then scale / d else if m < 0 then -(CeilDiv(scale, d) as int) else 0
  }

  function UpperPart(m: int, scale: nat, d: int): int
    requires d >= 1
  {
    if m > 0 then CeilDiv(scale, d) else if m < 0 then -(scale / d) else 0
  }

  function LowerTerm(scale: nat, d: int): int {
    if d >= 1 then LowerPart(Mu(d), scale, d) else 0
  }

  function UpperTerm(scale: nat, d: int): int {
    if d >= 1 then UpperPart(Mu(d), scale, d) else 0
  }

  datatype MobiusSummary = MobiusSummary(
    mertens: int, squarefreeMass: int, reciprocalLower: int, reciprocalUpper: int)

  function MuValues(): int -> int {
    d => MuAt(d)
  }

  function MuSizes(): int -> int {
    d => MuAbsAt(d)
  }

  function LowerTerms(scale: nat): int -> int {
    d => LowerTerm(scale, d)
  }

  function UpperTerms(scale: nat): int -> int {
    d => UpperTerm(scale, d)
  }

  function SummaryOf(K: nat, scale: nat): MobiusSummary {
    MobiusSummary(
      Sum(MuValues(), 1, K + 1),
      Sum(MuSizes(), 1, K + 1),
      Sum(LowerTerms(scale), 1, K + 1),
      Sum(UpperTerms(scale), 1, K + 1))
  }

  function AddToSummary(s: MobiusSummary, value: int, d: nat, scale: nat): MobiusSummary
    requires d >= 1
  {
    var floorTerm := scale / d;
    var ceilTerm: int := CeilDiv(scale, d);
    MobiusSummary(
      s.mertens + value,
      s.squarefreeMass + AbsInt(value),
      s.reciprocalLower + (if value > 0 then floorTerm else if value < 0 then -ceilTerm else 0),
      s.reciprocalUpper + (if value > 0 then ceilTerm else if value < 0 then -floorTerm else 0))
  }

  lemma SummaryStep(d: nat, scale: nat)
    requires d >= 1
    ensures SummaryOf(d, scale) == AddToSummary(SummaryOf(d - 1, scale), Mu(d), d, scale)
  {
    assert SummaryOf(d, scale).mertens == SummaryOf(d - 1, scale).mertens + MuAt(d);
    assert SummaryOf(d, scale).squarefreeMass == SummaryOf(d - 1, scale).squarefreeMass + MuAbsAt(d);
  }

  lemma NoSummary(scale: nat)
    ensures SummaryOf(0, scale) == MobiusSummary(0, 0, 0, 0)
  {
  }

  lemma TableStep(nonzero: seq<nat>, summary: MobiusSummary, value: int, d: nat, scale: nat)
    requires d >= 1 && value == Mu(d)
    requires nonzero == NonzeroUpTo(d - 1) && summary == SummaryOf(d - 1, scale)
    ensures NonzeroUpTo(d) == nonzero + (if value != 0 then [d] else [])
    ensures SummaryOf(d, scale) == AddToSummary(summary, value, d, scale)
  {
    SummaryStep(d, scale);
  }

  /** 2^120, above the scale of the reciprocal sums. */
  const COEFFICIENT_LIMIT: nat := 0x100_0000_0000_0000_0000_0000_0000_0000

  /** The four summaries as the program stores them. */
  predicate SummaryFits(s: MobiusSummary) {
    && Signed64(s.mertens) && 0 <= s.squarefreeMass < TWO_64
    && Signed128(s.reciprocalLower) && Signed128(s.reciprocalUpper)
  }

  function QuotientAndOne(length: nat, d: int): int {
    if d >= 1 then length / d + 1 else 1
  }

  function QuotientsAndOne(length: nat): int -> int {
    d => QuotientAndOne(length, d)
  }

  lemma {:induction false} SumOfOnes(f: int -> int, g: int -> int, lo: int, hi: int)
    requires lo <= hi && forall i | lo <= i < hi :: g(i) == f(i) + 1
    ensures Sum(g, lo, hi) == Sum(f, lo, hi) + (hi - lo)
    decreases hi - lo
  {
    if lo == hi {
    } else {
      SumOfOnes(f, g, lo, hi - 1);
    }
  }

  lemma MuAtBounds(d: nat)
    ensures -1 <= MuAt(d) <= 1
  {
    if d >= 1 { MuBounds(d); }
  }

  lemma PartSizes(m: int, scale: nat, d: nat)
    requires d >= 1
    ensures AbsInt(LowerPart(m, scale, d)) <= scale / d + 1 && AbsInt(UpperPart(m, scale, d)) <= scale / d + 1
  {
  }

  lemma QuotientSums(K: nat, scale: nat)
    requires K <= INT32_MAX
    ensures Sum(QuotientsAndOne(scale), 1, K + 1) <= 31 * scale + K
  {
    SumOfOnes(Quotients(scale), QuotientsAndOne(scale), 1, K + 1);
    Power2Values();
    assert Power2(32) == 2 * Power2(31);
    QuotientsBelow(scale, 1, K + 1, 31);
  }

  lemma MuSumsFrom(values: int -> int, sizes: int -> int, K: nat)
    requires forall d | 1 <= d < K + 1 :: AbsInt(values(d)) <= sizes(d) <= 1
    ensures AbsInt(Sum(values, 1, K + 1)) <= K && 0 <= Sum(sizes, 1, K + 1) <= K
  {
    SumSizes(values, sizes, 1, K + 1);
    SumBelowConstant(sizes, 1, 1, K + 1);
    SumNonnegative(sizes, 1, K + 1);
  }

  lemma MuSums(K: nat)
    ensures AbsInt(Sum(MuValues(), 1, K + 1)) <= K && 0 <= Sum(MuSizes(), 1, K + 1) <= K
  {
    forall d | 1 <= d < K + 1
      ensures AbsInt(MuValues()(d)) <= MuSizes()(d) <= 1
    {
      MuAtBounds(d);
    }
    MuSumsFrom(MuValues(), MuSizes(), K);
  }

  lemma ReciprocalSums(K: nat, scale: nat)
    requires K <= INT32_MAX
    ensures AbsInt(Sum(LowerTerms(scale), 1, K + 1)) <= 31 * scale + K
    ensures AbsInt(Sum(UpperTerms(scale), 1, K + 1)) <= 31 * scale + K
  {
    var bound := QuotientsAndOne(scale);
    forall d | 1 <= d < K + 1
      ensures AbsInt(LowerTerms(scale)(d)) <= bound(d) && AbsInt(UpperTerms(scale)(d)) <= bound(d)
    {
      PartSizes(Mu(d), scale, d);
    }
    SumSizes(LowerTerms(scale), bound, 1, K + 1);
    SumSizes(UpperTerms(scale), bound, 1, K + 1);
    QuotientSums(K, scale);
  }

  lemma SummaryInWords(K: nat, scale: nat, s: MobiusSummary)
    requires K <= INT32_MAX && scale <= COEFFICIENT_LIMIT && s == SummaryOf(K, scale)
    ensures SummaryFits(s)
  {
    MuSums(K);
    ReciprocalSums(K, scale);
  }

  /** Summarize a filled table. */
  method Tabulate(mu: array<int>, K: nat, coefficientScale: nat)
    returns (nonzero: seq<nat>, summary: MobiusSummary)
    requires 1 <= K <= INT32_MAX && coefficientScale <= COEFFICIENT_LIMIT
    requires mu.Length == K + 1 && forall d | 1 <= d <= K :: mu[d] == Mu(d)
    ensures nonzero == NonzeroUpTo(K) && summary == SummaryOf(K, coefficientScale) && SummaryFits(summary)
  {
    nonzero := [];
    summary := MobiusSummary(0, 0, 0, 0);
    NoSummary(coefficientScale);
    for d := 1 to K + 1
      invariant nonzero == NonzeroUpTo(d - 1) && summary == SummaryOf(d - 1, coefficientScale)
      invariant SummaryFits(summary)
    {
      var value := mu[d];
      TableStep(nonzero, summary, value, d, coefficientScale);
      SummaryInWords(d, coefficientScale, SummaryOf(d, coefficientScale));
      summary := AddToSummary(summary, value, d, coefficientScale);
      if value != 0 {
        nonzero := nonzero + [d];
      }
    }
  }

  method MakeMobius(K: nat, coefficientScale: nat)
    returns (mu: array<int>, nonzero: seq<nat>, summary: MobiusSummary)
    requires 1 <= K <= INT32_MAX && coefficientScale <= COEFFICIENT_LIMIT
    ensures SummaryFits(summary)
    ensures fresh(mu) && mu.Length == K + 1 && forall d | 1 <= d <= K :: mu[d] == Mu(d)
    ensures nonzero == NonzeroUpTo(K) && summary == SummaryOf(K, coefficientScale)
  {
    mu := LinearSieve(K);
    nonzero, summary := Tabulate(mu, K, coefficientScale);
  }

  // ---- Filling a block ------------------------------------------------------

  function SumOver(list: seq<nat>, n: nat): int {
    if |list| == 0 then 0 else SumOver(list[..|list| - 1], n) + DivisorTerm(n, list[|list| - 1])
  }

  lemma SumOverAppend(list: seq<nat>, d: nat, n: nat)
    ensures SumOver(list + [d], n) == SumOver(list, n) + DivisorTerm(n, d)
  {
    assert (list + [d])[..|list|] == list;
  }

  lemma DivisorSumStep(n: nat, K: nat)
    requires K >= 1
    ensures DivisorSum(n, K) == DivisorSum(n, K - 1) + DivisorTerm(n, K)
  {
  }

  lemma ZeroTerm(n: nat, d: nat)
    requires d >= 1 && Mu(d) == 0
    ensures DivisorTerm(n, d) == 0
  {
  }

  lemma NonzeroStep(K: nat)
    requires K >= 1
    ensures NonzeroUpTo(K) == if Mu(K) != 0 then NonzeroUpTo(K - 1) + [K] else NonzeroUpTo(K - 1)
  {
  }

  /** The listed divisors and the sum over them grow together. */
  lemma SumOverStep(front: seq<nat>, d: nat, n: nat)
    requires d >= 1 && SumOver(front, n) == DivisorSum(n, d - 1)
    ensures Mu(d) != 0 ==> SumOver(front + [d], n) == DivisorSum(n, d)
    ensures Mu(d) == 0 ==> SumOver(front, n) == DivisorSum(n, d)
  {
    DivisorSumStep(n, d);
    SumOverAppend(front, d, n);
    if Mu(d) == 0 {
      ZeroTerm(n, d);
    }
  }

  lemma {:induction false} SumOverNonzero(K: nat, n: nat)
    ensures SumOver(NonzeroUpTo(K), n) == DivisorSum(n, K)
  {
    if K == 0 {
    } else {
      SumOverNonzero(K - 1, n);
      NonzeroStep(K);
      SumOverStep(NonzeroUpTo(K - 1), K, n);
    }
  }

  lemma {:induction false} NonzeroPrefix(K: nat, j: nat)
    requires j < |NonzeroUpTo(K)|
    ensures 1 <= NonzeroUpTo(K)[j] <= K
    ensures NonzeroUpTo(K)[..j] == NonzeroUpTo(NonzeroUpTo(K)[j] - 1)
    ensures NonzeroUpTo(K)[..j + 1] == NonzeroUpTo(NonzeroUpTo(K)[j])
  {
    if K == 0 {
    } else {
      var before := NonzeroUpTo(K - 1);
      var list := NonzeroUpTo(K);
      if j < |before| {
        NonzeroPrefix(K - 1, j);
        assert list[..j] == before[..j] && list[..j + 1] == before[..j + 1];
      } else {
        assert list[..j] == before && list[..j + 1] == list;
      }
    }
  }

  /** The turn of divisor d at the entry of n, after the divisors below d. */
  lemma FillTurn(front: seq<nat>, d: nat, n: nat)
    requires d >= 1 && SumOver(front, n) == DivisorSum(n, d - 1)
    ensures -1 <= Mu(d) <= 1 && -(d as int) < SumOver(front, n) < d
    ensures SumOver(front + [d], n) == SumOver(front, n) + if n % d == 0 then Mu(d) else 0
  {
    MuBounds(d);
    PartialDivisorSumBound(n, d);
    SumOverAppend(front, d, n);
  }

  lemma FillFrom(front: seq<nat>, m: nat, d: nat, n: nat)
    requires d == m + 1 && front == NonzeroUpTo(m)
    ensures -1 <= Mu(d) <= 1 && -(d as int) < SumOver(front, n) < d
    ensures SumOver(front + [d], n) == SumOver(front, n) + if n % d == 0 then Mu(d) else 0
  {
    SumOverNonzero(m, n);
    FillTurn(front, d, n);
  }

  /** One listed divisor's turn at the entry of n. */
  lemma FillStep(K: nat, nonzero: seq<nat>, j: nat, n: nat)
    requires nonzero == NonzeroUpTo(K) && j < |nonzero|
    ensures 1 <= nonzero[j] <= K && -1 <= Mu(nonzero[j]) <= 1
    ensures -(nonzero[j] as int) < SumOver(nonzero[..j], n) < nonzero[j]
    ensures SumOver(nonzero[..j + 1], n)
      == SumOver(nonzero[..j], n) + if n % nonzero[j] == 0 then Mu(nonzero[j]) else 0
  {
    NonzeroPrefix(K, j);
    FillFrom(nonzero[..j], nonzero[j] - 1, nonzero[j], n);
    assert nonzero[..j + 1] == nonzero[..j] + [nonzero[j]];
  }

  /** And at every entry of a block. */
  lemma FillRound(
    K: nat, nonzero: seq<nat>, j: nat, done: seq<nat>, next: seq<nat>, low: nat, high: nat)
    requires nonzero == NonzeroUpTo(K) && j < |nonzero| && done == nonzero[..j] && next == nonzero[..j + 1]
    requires low <= high
    ensures 1 <= nonzero[j] <= K && -1 <= Mu(nonzero[j]) <= 1
    ensures forall n | low <= n <= high :: -(nonzero[j] as int) < SumOver(done, n) < nonzero[j]
    ensures forall n | low <= n <= high ::
      SumOver(next, n) == SumOver(done, n) + if (0 + n) % nonzero[j] == 0 then Mu(nonzero[j]) else 0
  {
    FillStep(K, nonzero, j, low);
    forall n | low <= n <= high
      ensures -(nonzero[j] as int) < SumOver(done, n) < nonzero[j]
      ensures SumOver(next, n) == SumOver(done, n) + if (0 + n) % nonzero[j] == 0 then Mu(nonzero[j]) else 0
    {
      FillStep(K, nonzero, j, n);
    }
  }

  /** Each entry of a block ends up as the divisor sum of its number, entries outside it untouched. */
  method FillBlock(K: nat, mu: array<int>, nonzero: seq<nat>, delta: array<int>, low: nat, high: nat)
    requires 1 <= K <= INT32_MAX && mu.Length == K + 1 && mu != delta
    requires forall d | 1 <= d <= K :: mu[d] == Mu(d)
    requires nonzero == NonzeroUpTo(K) && 1 <= low <= high < delta.Length
    requires forall n | low <= n <= high :: delta[n] == 0
    modifies delta
    ensures forall n | low <= n <= high :: delta[n] == Delta(K, n)
    ensures forall n | 0 <= n < delta.Length && !(low <= n <= high) :: delta[n] == old(delta[n])
  {
    for j := 0 to |nonzero|
      invariant forall n | low <= n <= high :: delta[n] == SumOver(nonzero[..j], n)
      invariant forall n | 0 <= n < delta.Length && !(low <= n <= high) :: delta[n] == old(delta[n])
    {
      var d := nonzero[j];
      FillRound(K, nonzero, j, nonzero[..j], nonzero[..j + 1], low, high);
      AddStrided(delta, 0, low, high, d, mu[d]);
    }
    forall n | low <= n <= high
      ensures delta[n] == Delta(K, n)
    {
      assert nonzero[..|nonzero|] == nonzero;
      SumOverNonzero(K, n);
    }
  }

  // ---- Scanning a block -----------------------------------------------------

  lemma CeilingByAddition(S: nat, n: nat)
    requires n >= 1
    ensures (S + n - 1) / n == CeilDiv(S, n)
  {
    var q, r := S / n, S % n;
    assert S == n * q + r;
    if r == 0 {
      DivisionUnique(S + n - 1, n, q, n - 1);
    } else {
      assert S + n - 1 == n * (q + 1) + (r - 1);
      DivisionUnique(S + n - 1, n, q + 1, r - 1);
    }
  }

  /** The table of N + 1 32-bit entries can be addressed at all; its allocation fails otherwise. */
  predicate Addressable(N: nat) {
    N + 1 <= SIZE_MAX / 4
  }

  /** The arguments that get as far as a table. */
  predicate StateRange(K: nat, N: nat) {
    1 <= K <= INT32_MAX && K <= N && Addressable(N)
  }

  predicate ProducerRange(K: nat, N: nat, S: nat, blockSize: nat) {
    StateRange(K, N) && S <= SCALE_LIMIT && blockSize >= 1
  }

  /** The aggregates as the program stores them. */
  predicate FitsWords(a: Aggregates) {
    Signed64(a.after) && Signed128(a.signedUpper) && 0 <= a.absoluteUpper < TWO_128 && 0 <= a.variation < TWO_64
  }

  /** The starting estimates of the root computation: any whose products fit 128 bits. */
  predicate EstimateFits(estimate: nat -> nat, n: nat) {
    estimate(n) * estimate(n) * n < TWO_128
  }

  lemma SerialStateBound(K: nat, N: nat, n: nat)
    requires StateRange(K, N) && n <= N
    ensures AbsInt(SerialState(K, n)) < INT64_LIMIT - 1
  {
    StateSize(K, n);
    assert N + K < INT64_LIMIT - 1;
  }

  /** The weights of one step, as the producer writes them. */
  lemma StepWeights(K: nat, S: nat, low: int, before: int, n: nat, increment: int)
    requires 1 <= low <= n && increment == Increment(K, low, before, n)
    ensures increment > 0 ==> SignedTerm(K, S, low, before, n) == increment * ((S + n - 1) / n)
    ensures increment <= 0 ==> SignedTerm(K, S, low, before, n) == increment * (S / n)
    ensures AbsoluteTerm(K, S, low, before, n) == AbsInt(increment) * LeastRoot(n, S)
    ensures VariationTerm(K, low, before, n) == AbsInt(increment)
  {
    CeilingByAddition(S, n);
  }

  lemma NoWeight(a: int)
    ensures 0 * a == 0
  {
  }

  /** One step's weights, added without checks: in range they cannot wrap. */
  method Accumulate(K: nat, S: nat, ghost low: nat, ghost before: int, n: nat, increment: int, accumulated: Aggregates,
                    estimate: nat -> nat)
    returns (r: Aggregates)
    requires InRange(K, S, low, before, n + 1) && low <= n && increment == Increment(K, low, before, n)
    requires n + S < TWO_64 && EstimateFits(estimate, n)
    requires accumulated.signedUpper == SignedSum(K, S, low, before, n)
    requires accumulated.absoluteUpper == AbsoluteSum(K, S, low, before, n)
    requires accumulated.variation == VariationSum(K, low, before, n)
    ensures r == Aggregates(accumulated.after, SignedSum(K, S, low, before, n + 1),
                            AbsoluteSum(K, S, low, before, n + 1), VariationSum(K, low, before, n + 1))
    ensures -(INT128_LIMIT as int) <= r.signedUpper < INT128_LIMIT && 0 <= r.absoluteUpper < TWO_128
  {
    ScanFits(K, S, low, before, n + 1);
    ScanStep(K, S, low, before, n);
    StepWeights(K, S, low, before, n, increment);
    NoWeight(S / n);
    NoWeight(LeastRoot(n, S));
    var signedUpper := accumulated.signedUpper;
    if increment > 0 {
      var weight := (S + n - 1) / n;
      signedUpper := signedUpper + increment * weight;
    } else if increment < 0 {
      var weight := S / n;
      signedUpper := signedUpper + increment * weight;
    }
    var absoluteIncrement := AbsInt(increment);
    r := accumulated.(signedUpper := signedUpper);
    if absoluteIncrement != 0 {
      var root := CorrectedRoot(n, S, estimate(n));
      r := r.(variation := r.variation + absoluteIncrement,
              absoluteUpper := r.absoluteUpper + absoluteIncrement * root);
    }
  }

  /** One step of a block scan, whose incoming state is the serial one. */
  lemma BlockStep(K: nat, N: nat, S: nat, blockSize: nat, low: nat, before: int, n: nat)
    requires ProducerRange(K, N, S, blockSize) && 1 <= low <= n <= N && before == SerialState(K, low - 1)
    ensures InRange(K, S, low, before, n + 1)
    ensures FloorState(K, low, before, n) == FloorState(K, low, before, n - 1) + Delta(K, n)
    ensures AbsInt(FloorState(K, low, before, n)) < INT64_LIMIT - 1
    ensures ErrorAt(K, low, before, n) == AbsInt(1 - FloorState(K, low, before, n))
    ensures Increment(K, low, before, n) == ErrorAt(K, low, before, n) - ErrorAt(K, low, before, n - 1)
  {
    ScanStep(K, S, low, before, n);
    ScanContinuesSerial(K, low, before, n);
    SerialStateBound(K, N, n);
    SerialStateBound(K, N, low - 1);
  }

  lemma BlockStart(K: nat, S: nat, low: nat, before: int)
    requires low >= 1
    ensures ChunkAggregates(K, S, low, low - 1, before) == Aggregates(before, 0, 0, 0)
    ensures ErrorAt(K, low, before, low - 1) == if low == 1 then 0 else AbsInt(1 - before)
  {
  }

  /** A block's variation fits an unsigned 64-bit word. */
  lemma VariationFitsWord(
    K: nat, N: nat, S: nat, blockSize: nat, low: nat, before: int, n: nat, variation: int)
    requires ProducerRange(K, N, S, blockSize) && 1 <= low <= n <= N && n - low < blockSize
    requires before == SerialState(K, low - 1) && variation == VariationSum(K, low, before, n + 1)
    ensures 0 <= variation < TWO_64
  {
    VariationWindow(K, low, before, n + 1);
  }

  /** What a scan has gathered at any point fits the program's words. */
  lemma BlockFitsWords(K: nat, N: nat, S: nat, blockSize: nat, low: nat, before: int, n: nat, sums: Aggregates)
    requires ProducerRange(K, N, S, blockSize) && 1 <= low <= n <= N && n - low < blockSize
    requires before == SerialState(K, low - 1) && sums == ChunkAggregates(K, S, low, n, before)
    ensures FitsWords(sums)
  {
    BlockStep(K, N, S, blockSize, low, before, n);
    SignedFits(K, S, low, before, n + 1);
    AbsoluteFits(K, S, low, before, n + 1);
    VariationFitsWord(K, N, S, blockSize, low, before, n, sums.variation);
  }

  /** One number's turn. */
  method ScanOne(K: nat, N: nat, S: nat, ghost blockSize: nat, ghost low: nat, ghost before: int, n: nat,
                 accumulated: Aggregates, previousError: nat, cell: int, estimate: nat -> nat)
    returns (r: Aggregates, error: nat)
    requires ProducerRange(K, N, S, blockSize) && 1 <= low <= n <= N && n - low < blockSize
    requires before == SerialState(K, low - 1)
    requires accumulated == ChunkAggregates(K, S, low, n - 1, before)
    requires previousError == ErrorAt(K, low, before, n - 1)
    requires cell == Delta(K, n) && EstimateFits(estimate, n)
    ensures r == ChunkAggregates(K, S, low, n, before) && error == ErrorAt(K, low, before, n)
    ensures FitsWords(r)
  {
    BlockStep(K, N, S, blockSize, low, before, n);
    var floorSum := accumulated.after + cell;
    error := AbsInt(1 - floorSum);
    r := Accumulate(K, S, low, before, n, error - previousError, accumulated.(after := floorSum), estimate);
    BlockFitsWords(K, N, S, blockSize, low, before, n, r);
  }

  /** The values carried from number to number: what the scan has before n. */
  predicate Scanned(K: nat, S: nat, low: nat, before: int, n: int, sums: Aggregates, previousError: nat) {
    sums == ChunkAggregates(K, S, low, n - 1, before) && previousError == ErrorAt(K, low, before, n - 1)
  }

  method ScanBlock(
    K: nat, N: nat, S: nat, ghost blockSize: nat, low: nat, high: nat, before: int, delta: array<int>,
    estimate: nat -> nat)
    returns (r: Aggregates)
    requires ProducerRange(K, N, S, blockSize) && 1 <= low <= high <= N && high - low < blockSize
    requires delta.Length == N + 1
    requires forall n | 1 <= n <= N :: delta[n] == Delta(K, n)
    requires forall n | 1 <= n <= N :: EstimateFits(estimate, n)
    requires before == SerialState(K, low - 1)
    ensures r == ChunkAggregates(K, S, low, high, before) && FitsWords(r)
  {
    BlockStart(K, S, low, before);
    r := Aggregates(before, 0, 0, 0);
    var previousError := AbsInt(1 - before);
    if low == 1 {
      previousError := 0;
    }
    for n := low to high + 1
      invariant Scanned(K, S, low, before, n, r, previousError)
    {
      r, previousError := ScanOne(K, N, S, blockSize, low, before, n, r, previousError, delta[n], estimate);
    }
    BlockFitsWords(K, N, S, blockSize, low, before, high, r);
  }

  // ---- Block tables ---------------------------------------------------------

  function Blocks(count: nat): (s: set<nat>)
    ensures forall b: nat :: b in s <==> b < count
  {
    if count == 0 then {} else Blocks(count - 1) + {count - 1}
  }

  /** Where block b begins, less one: the last number before it, and N past the last block. */
  function Boundary(block: nat, N: nat, blockSize: nat): nat {
    if block * blockSize <= N then block * blockSize else N
  }

  lemma BlockBoundaries(block: nat, N: nat, blockSize: nat)
    requires blockSize > 0 && block < BlockCount(N, blockSize)
    ensures 1 <= BlockLow(block, blockSize) <= N
    ensures BlockLow(block, blockSize) == Boundary(block, N, blockSize) + 1
    ensures BlockHigh(BlockLow(block, blockSize), N, blockSize) == Boundary(block + 1, N, blockSize)
    ensures BlockLow(block, blockSize) <= Boundary(block + 1, N, blockSize) <= N
    ensures Boundary(block + 1, N, blockSize) - BlockLow(block, blockSize) < blockSize
  {
    BlockInRange(block, N, blockSize);
    BlockInRange(block + 1, N, blockSize);
    assert (block + 1) * blockSize == block * blockSize + blockSize;
  }

  lemma LastBoundary(N: nat, blockSize: nat)
    requires blockSize > 0
    ensures Boundary(BlockCount(N, blockSize), N, blockSize) == N && Boundary(0, N, blockSize) == 0
  {
    BlockInRange(BlockCount(N, blockSize), N, blockSize);
  }

  function StateBefore(K: nat, block: nat, N: nat, blockSize: nat): int {
    SerialState(K, Boundary(block, N, blockSize))
  }

  lemma FloorStateSteps(K: nat, low: nat, high: nat)
    requires 1 <= low <= high + 1
    ensures SerialState(K, high) == SerialState(K, low - 1) + FloorState(K, low, 0, high)
  {
    SumSplit(Deltas(K), 1, low, high + 1);
  }

  // ---- Filling every block --------------------------------------------------

  /** The blocks still to do are zero, the others hold their divisor sums. */
  ghost predicate Filled(K: nat, N: nat, blockSize: nat, cells: seq<int>, todo: set<nat>)
    requires blockSize > 0
  {
    && |cells| == N + 1
    && forall n: nat | 1 <= n <= N :: cells[n] == if BlockOf(n, blockSize) in todo then 0 else Delta(K, n)
  }

  lemma TodoIsZero(K: nat, N: nat, blockSize: nat, cells: seq<int>, todo: set<nat>, block: nat)
    requires blockSize > 0 && Filled(K, N, blockSize, cells, todo)
    requires block in todo && block < BlockCount(N, blockSize)
    ensures var low := BlockLow(block, blockSize);
      1 <= low <= N && forall n: nat | low <= n <= BlockHigh(low, N, blockSize) :: n <= N && cells[n] == 0
  {
    var low := BlockLow(block, blockSize);
    BlockBoundaries(block, N, blockSize);
    forall n: nat | low <= n <= BlockHigh(low, N, blockSize)
      ensures n <= N && cells[n] == 0
    {
      BlocksTile(N, blockSize, n, block);
    }
  }

  lemma FilledStep(
    K: nat, N: nat, blockSize: nat, cells: seq<int>, filled: seq<int>, todo: set<nat>, block: nat, low: nat, high: nat)
    requires blockSize > 0 && Filled(K, N, blockSize, cells, todo) && |filled| == N + 1
    requires block < BlockCount(N, blockSize)
    requires low == BlockLow(block, blockSize) && low <= N && high == BlockHigh(low, N, blockSize)
    requires forall n: nat | n <= N :: filled[n] == if low <= n <= high then Delta(K, n) else cells[n]
    ensures Filled(K, N, blockSize, filled, todo - {block})
  {
    forall n: nat | 1 <= n <= N
      ensures filled[n] == if BlockOf(n, blockSize) in todo - {block} then 0 else Delta(K, n)
    {
      BlocksTile(N, blockSize, n, block);
    }
  }

  lemma NothingFilled(K: nat, N: nat, blockSize: nat, cells: seq<int>)
    requires blockSize > 0 && |cells| == N + 1 && forall n: nat | n <= N :: cells[n] == 0
    ensures Filled(K, N, blockSize, cells, Blocks(BlockCount(N, blockSize)))
  {
    forall n: nat | 1 <= n <= N
      ensures BlockOf(n, blockSize) in Blocks(BlockCount(N, blockSize))
    {
      BlocksTile(N, blockSize, n, 0);
    }
  }

  /** Fill every block, in whatever order the scheduler picks them. */
  method FillAll(K: nat, N: nat, blockSize: nat, mu: array<int>, nonzero: seq<nat>) returns (delta: array<int>)
    requires 1 <= K <= INT32_MAX && N >= 1 && blockSize >= 1 && mu.Length == K + 1
    requires forall d | 1 <= d <= K :: mu[d] == Mu(d)
    requires nonzero == NonzeroUpTo(K)
    ensures fresh(delta) && delta.Length == N + 1 && forall n | 1 <= n <= N :: delta[n] == Delta(K, n)
  {
    delta := new int[N + 1](_ => 0);
    var todo := Blocks(BlockCount(N, blockSize));
    NothingFilled(K, N, blockSize, delta[..]);
    while todo != {}
      invariant todo <= Blocks(BlockCount(N, blockSize))
      invariant Filled(K, N, blockSize, delta[..], todo)
      decreases todo
    {
      var block :| block in todo;
      ghost var cells := delta[..];
      BlockBoundaries(block, N, blockSize);
      TodoIsZero(K, N, blockSize, cells, todo, block);
      var low := BlockLow(block, blockSize);
      var high := BlockHigh(low, N, blockSize);
      assert forall n | low <= n <= high :: delta[n] == cells[n];
      FillBlock(K, mu, nonzero, delta, low, high);
      FilledStep(K, N, blockSize, cells, delta[..], todo, block, low, high);
      todo := todo - {block};
    }
    assert forall n: nat | 1 <= n <= N :: delta[n] == delta[..][n];
  }

  // ---- The prefix pass ------------------------------------------------------

  method SumBlock(K: nat, N: nat, low: nat, high: nat, delta: array<int>) returns (sum: int)
    requires StateRange(K, N) && 1 <= low <= high <= N && delta.Length == N + 1
    requires forall n | 1 <= n <= N :: delta[n] == Delta(K, n)
    ensures sum == FloorState(K, low, 0, high)
  {
    sum := 0;
    for n := low to high + 1
      invariant sum == FloorState(K, low, 0, n - 1)
    {
      sum := sum + delta[n];
      FloorStateSteps(K, low, n);
      StateMoves(K, low - 1, n);
      assert Signed64(sum);
    }
  }

  /** Every block's own sum is the step between the serial states around it. */
  method BlockDeltas(K: nat, N: nat, blockSize: nat, delta: array<int>) returns (blockDelta: array<int>)
    requires StateRange(K, N) && blockSize >= 1 && delta.Length == N + 1
    requires forall n | 1 <= n <= N :: delta[n] == Delta(K, n)
    ensures fresh(blockDelta) && blockDelta.Length == BlockCount(N, blockSize)
    ensures forall b: nat | b < blockDelta.Length ::
      StateBefore(K, b, N, blockSize) + blockDelta[b] == StateBefore(K, b + 1, N, blockSize)
  {
    var blockCount := BlockCount(N, blockSize);
    blockDelta := new int[blockCount];
    for block := 0 to blockCount
      invariant forall b: nat | b < block ::
        StateBefore(K, b, N, blockSize) + blockDelta[b] == StateBefore(K, b + 1, N, blockSize)
    {
      BlockBoundaries(block, N, blockSize);
      var low := BlockLow(block, blockSize);
      var high := BlockHigh(low, N, blockSize);
      FloorStateSteps(K, low, high);
      blockDelta[block] := SumBlock(K, N, low, high, delta);
    }
  }

  lemma StateInWord(K: nat, N: nat, block: nat, blockSize: nat)
    requires StateRange(K, N)
    ensures Signed64(StateBefore(K, block, N, blockSize))
  {
    SerialStateBound(K, N, Boundary(block, N, blockSize));
  }

  /** Every block's incoming state is the serial one. */
  method Prefixes(K: nat, N: nat, blockSize: nat, delta: array<int>)
    returns (blockBefore: array<int>, blockDelta: array<int>, finalFloorSum: int)
    requires StateRange(K, N) && blockSize >= 1 && delta.Length == N + 1
    requires forall n | 1 <= n <= N :: delta[n] == Delta(K, n)
    ensures blockBefore.Length == blockDelta.Length == BlockCount(N, blockSize)
    ensures forall b: nat | b < blockBefore.Length ::
      && blockBefore[b] == StateBefore(K, b, N, blockSize)
      && blockBefore[b] + blockDelta[b] == StateBefore(K, b + 1, N, blockSize)
    ensures finalFloorSum == SerialState(K, N)
    ensures Signed64(finalFloorSum) && forall b: nat | b < blockBefore.Length :: Signed64(blockBefore[b])
  {
    var blockCount := BlockCount(N, blockSize);
    blockDelta := BlockDeltas(K, N, blockSize, delta);
    blockBefore := new int[blockCount];
    LastBoundary(N, blockSize);
    StateInWord(K, N, blockCount, blockSize);
    finalFloorSum := 0;
    for block := 0 to blockCount
      invariant forall b: nat | b < blockCount ::
        StateBefore(K, b, N, blockSize) + blockDelta[b] == StateBefore(K, b + 1, N, blockSize)
      invariant forall b: nat | b < block :: blockBefore[b] == StateBefore(K, b, N, blockSize)
      invariant finalFloorSum == StateBefore(K, block, N, blockSize)
      invariant forall b: nat | b < block :: Signed64(blockBefore[b])
    {
      StateInWord(K, N, block, blockSize);
      blockBefore[block] := finalFloorSum;
      finalFloorSum := finalFloorSum + blockDelta[block];
    }
  }

  // ---- The whole production -------------------------------------------------

  datatype Production = Production(
    summary: MobiusSummary, rows: seq<ChunkRow>, finalFloorSum: int, finalError: int,
    signedUpper: int, absoluteUpper: int, totalVariation: int, endpointRoot: nat)

  /** Block b as a row of the serial recurrence. */
  function BlockRow(K: nat, N: nat, S: nat, blockSize: nat, block: nat): ChunkRow {
    var low := BlockLow(block, blockSize);
    var high := Boundary(block + 1, N, blockSize);
    var before := StateBefore(K, block, N, blockSize);
    ChunkRow(low, high, before, ChunkAggregates(K, S, low, high, before))
  }

  /** Scan every block, in whatever order the scheduler picks them. */
  method ScanAll(K: nat, N: nat, S: nat, blockSize: nat, delta: array<int>, blockBefore: array<int>,
                 estimate: nat -> nat) returns (scanned: array<Aggregates>)
    requires ProducerRange(K, N, S, blockSize) && delta.Length == N + 1
    requires forall n | 1 <= n <= N :: delta[n] == Delta(K, n)
    requires forall n | 1 <= n <= N :: EstimateFits(estimate, n)
    requires blockBefore.Length == BlockCount(N, blockSize)
    requires forall b: nat | b < blockBefore.Length :: blockBefore[b] == StateBefore(K, b, N, blockSize)
    ensures fresh(scanned) && scanned.Length == BlockCount(N, blockSize)
    ensures forall b: nat | b < scanned.Length :: scanned[b] == BlockRow(K, N, S, blockSize, b).aggregates
  {
    var blockCount := BlockCount(N, blockSize);
    scanned := new Aggregates[blockCount](_ => Aggregates(0, 0, 0, 0));
    var todo := Blocks(blockCount);
    while todo != {}
      invariant todo <= Blocks(blockCount)
      invariant forall b: nat | b < blockCount && b !in todo ::
        scanned[b] == BlockRow(K, N, S, blockSize, b).aggregates
      decreases todo
    {
      var block :| block in todo;
      BlockBoundaries(block, N, blockSize);
      var low := BlockLow(block, blockSize);
      var high := BlockHigh(low, N, blockSize);
      scanned[block] := ScanBlock(K, N, S, blockSize, low, high, blockBefore[block], delta, estimate);
      todo := todo - {block};
    }
  }

  /** Rows 0 to count - 1 are the blocks' rows. */
  ghost predicate OnGrid(K: nat, N: nat, S: nat, blockSize: nat, rows: seq<ChunkRow>) {
    forall b: nat | b < |rows| :: rows[b] == BlockRow(K, N, S, blockSize, b)
  }

  lemma GridReplays(K: nat, N: nat, S: nat, blockSize: nat, rows: seq<ChunkRow>)
    requires OnGrid(K, N, S, blockSize, rows)
    ensures RowsReplay(K, S, rows)
  {
    forall i | 0 <= i < |rows|
      ensures rows[i].aggregates == ChunkAggregates(K, S, rows[i].low, rows[i].high, rows[i].before)
    {
      assert rows[i] == BlockRow(K, N, S, blockSize, i);
    }
  }

  lemma BlockRowAfter(K: nat, N: nat, S: nat, blockSize: nat, block: nat)
    requires blockSize > 0 && block < BlockCount(N, blockSize)
    ensures BlockRow(K, N, S, blockSize, block).aggregates.after == StateBefore(K, block + 1, N, blockSize)
  {
    BlockBoundaries(block, N, blockSize);
    var row := BlockRow(K, N, S, blockSize, block);
    ScanContinuesSerial(K, row.low, row.before, row.high);
  }

  lemma GridStep(K: nat, N: nat, S: nat, blockSize: nat, rows: seq<ChunkRow>, row: ChunkRow, block: nat)
    requires blockSize > 0 && block < BlockCount(N, blockSize) && row == BlockRow(K, N, S, blockSize, block)
    requires Threaded(rows, Boundary(block, N, blockSize) + 1)
    requires EndState(rows) == StateBefore(K, block, N, blockSize)
    ensures Threaded(rows + [row], Boundary(block + 1, N, blockSize) + 1)
    ensures EndState(rows + [row]) == StateBefore(K, block + 1, N, blockSize)
  {
    BlockBoundaries(block, N, blockSize);
    BlockRowAfter(K, N, S, blockSize, block);
    ThreadedAppend(rows, row);
  }

  lemma NoRows(K: nat, rows: seq<ChunkRow>)
    requires rows == []
    ensures Threaded(rows, 1) && EndState(rows) == SerialState(K, 0)
  {
  }

  lemma {:induction false} GridThreads(K: nat, N: nat, S: nat, blockSize: nat, rows: seq<ChunkRow>, count: nat)
    requires blockSize > 0 && count <= |rows| <= BlockCount(N, blockSize) && OnGrid(K, N, S, blockSize, rows)
    ensures Threaded(rows[..count], Boundary(count, N, blockSize) + 1)
    ensures EndState(rows[..count]) == StateBefore(K, count, N, blockSize)
  {
    if count == 0 {
      LastBoundary(N, blockSize);
      NoRows(K, rows[..0]);
    } else {
      var last := count - 1;
      var before, row := rows[..last], rows[last];
      GridThreads(K, N, S, blockSize, rows, last);
      assert row == BlockRow(K, N, S, blockSize, last);
      assert rows[..count] == before + [row];
      GridStep(K, N, S, blockSize, before, row, last);
    }
  }

  /** The whole grid is the serial pass. */
  lemma GridIsSerial(K: nat, N: nat, S: nat, blockSize: nat, rows: seq<ChunkRow>)
    requires blockSize > 0 && |rows| == BlockCount(N, blockSize) && OnGrid(K, N, S, blockSize, rows)
    ensures Threaded(rows, N + 1) && RowsReplay(K, S, rows)
    ensures TotalSigned(rows) == SignedSum(K, S, 1, 0, N + 1)
    ensures TotalAbsolute(rows) == AbsoluteSum(K, S, 1, 0, N + 1)
    ensures TotalVariation(rows) == VariationSum(K, 1, 0, N + 1)
  {
    GridThreads(K, N, S, blockSize, rows, |rows|);
    LastBoundary(N, blockSize);
    assert rows[..|rows|] == rows;
    GridReplays(K, N, S, blockSize, rows);
    PartitionIsSerial(K, S, rows, N + 1);
  }

  lemma FinalError(K: nat, N: nat)
    requires N >= 1
    ensures ErrorAt(K, 1, 0, N) == AbsInt(1 - SerialState(K, N))
  {
  }

  lemma TotalsAppend(rows: seq<ChunkRow>, row: ChunkRow)
    ensures TotalSigned(rows + [row]) == TotalSigned(rows) + row.aggregates.signedUpper
    ensures TotalAbsolute(rows + [row]) == TotalAbsolute(rows) + row.aggregates.absoluteUpper
    ensures TotalVariation(rows + [row]) == TotalVariation(rows) + row.aggregates.variation
  {
    assert (rows + [row])[..|rows|] == rows;
  }

  lemma IsBlockRow(K: nat, N: nat, S: nat, blockSize: nat, block: nat, row: ChunkRow, sums: Aggregates)
    requires blockSize > 0 && block < BlockCount(N, blockSize)
    requires row.low == BlockLow(block, blockSize) && row.high == Boundary(block + 1, N, blockSize)
    requires row.before == StateBefore(K, block, N, blockSize)
    requires sums == BlockRow(K, N, S, blockSize, block).aggregates
    requires row.aggregates == sums.(after := StateBefore(K, block + 1, N, blockSize))
    ensures row == BlockRow(K, N, S, blockSize, block)
  {
    BlockRowAfter(K, N, S, blockSize, block);
  }

  lemma GridAppend(K: nat, N: nat, S: nat, blockSize: nat, rows: seq<ChunkRow>, row: ChunkRow)
    requires OnGrid(K, N, S, blockSize, rows) && row == BlockRow(K, N, S, blockSize, |rows|)
    ensures OnGrid(K, N, S, blockSize, rows + [row])
  {
  }

  /** The totals of the first blocks are serial sums, which fit the program's words. */
  lemma GridTotalsFit(K: nat, N: nat, S: nat, blockSize: nat, rows: seq<ChunkRow>)
    requires ProducerRange(K, N, S, blockSize) && |rows| <= BlockCount(N, blockSize)
    requires OnGrid(K, N, S, blockSize, rows)
    ensures Signed128(TotalSigned(rows)) && 0 <= TotalAbsolute(rows) < TWO_128 && 0 <= TotalVariation(rows) < TWO_128
  {
    var end := Boundary(|rows|, N, blockSize) + 1;
    GridThreads(K, N, S, blockSize, rows, |rows|);
    assert rows[..|rows|] == rows;
    GridReplays(K, N, S, blockSize, rows);
    PartitionIsSerial(K, S, rows, end);
    ScanFits(K, S, 1, 0, end);
  }

  /** Add up the blocks and write one row for each. */
  method Reduce(K: nat, N: nat, S: nat, blockSize: nat, blockBefore: array<int>, blockDelta: array<int>,
                scanned: array<Aggregates>)
    returns (rows: seq<ChunkRow>, signedUpper: int, absoluteUpper: int, totalVariation: int)
    requires ProducerRange(K, N, S, blockSize)
    requires blockBefore.Length == blockDelta.Length == scanned.Length == BlockCount(N, blockSize)
    requires forall b: nat | b < blockBefore.Length ::
      && blockBefore[b] == StateBefore(K, b, N, blockSize)
      && blockBefore[b] + blockDelta[b] == StateBefore(K, b + 1, N, blockSize)
    requires forall b: nat | b < scanned.Length :: scanned[b] == BlockRow(K, N, S, blockSize, b).aggregates
    ensures |rows| == BlockCount(N, blockSize) && OnGrid(K, N, S, blockSize, rows)
    ensures signedUpper == TotalSigned(rows) && absoluteUpper == TotalAbsolute(rows)
    ensures totalVariation == TotalVariation(rows)
    ensures Signed128(signedUpper) && 0 <= absoluteUpper < TWO_128 && 0 <= totalVariation < TWO_128
  {
    rows := [];
    signedUpper, absoluteUpper, totalVariation := 0, 0, 0;
    for block := 0 to BlockCount(N, blockSize)
      invariant |rows| == block && OnGrid(K, N, S, blockSize, rows)
      invariant signedUpper == TotalSigned(rows) && absoluteUpper == TotalAbsolute(rows)
      invariant totalVariation == TotalVariation(rows)
      invariant Signed128(signedUpper) && 0 <= absoluteUpper < TWO_128 && 0 <= totalVariation < TWO_128
    {
      BlockBoundaries(block, N, blockSize);
      var low := BlockLow(block, blockSize);
      var high := BlockHigh(low, N, blockSize);
      var before := blockBefore[block];
      var sums := scanned[block];
      var row := ChunkRow(low, high, before, sums.(after := before + blockDelta[block]));
      IsBlockRow(K, N, S, blockSize, block, row, sums);
      TotalsAppend(rows, row);
      GridAppend(K, N, S, blockSize, rows, row);
      rows := rows + [row];
      GridTotalsFit(K, N, S, blockSize, rows);
      signedUpper := signedUpper + sums.signedUpper;
      absoluteUpper := absoluteUpper + sums.absoluteUpper;
      totalVariation := totalVariation + sums.variation;
    }
  }

  /** The root weight just past the end. */
  method EndpointRoot(N: nat, S: nat, estimate: nat -> nat) returns (root: nat)
    requires N + 1 < TWO_64 && S <= SCALE_LIMIT && EstimateFits(estimate, N + 1)
    ensures root == LeastRoot(N + 1, S)
  {
    root := CorrectedRoot(N + 1, S, estimate(N + 1));
  }

  /** What a production must be: rows that thread from state 0 and replay, and totals equal to the one serial
      pass over [1, N]. */
  ghost predicate IsProduction(
    K: nat, N: nat, S: nat, coefficientScale: nat, blockSize: nat, production: Production)
    requires blockSize >= 1
  {
    && production.summary == SummaryOf(K, coefficientScale) && SummaryFits(production.summary)
    && |production.rows| == BlockCount(N, blockSize) && OnGrid(K, N, S, blockSize, production.rows)
    && Threaded(production.rows, N + 1) && RowsReplay(K, S, production.rows)
    && production.finalFloorSum == SerialState(K, N) && production.finalError == ErrorAt(K, 1, 0, N)
    && production.signedUpper == SignedSum(K, S, 1, 0, N + 1)
    && production.absoluteUpper == AbsoluteSum(K, S, 1, 0, N + 1)
    && production.totalVariation == VariationSum(K, 1, 0, N + 1)
    && production.endpointRoot == LeastRoot(N + 1, S)
  }

  /** Every scheduling of the blocks, for every block size, yields that production. */
  method Compute(K: nat, N: nat, S: nat, coefficientScale: nat, blockSize: nat, estimate: nat -> nat)
    returns (production: Production)
    requires ProducerRange(K, N, S, blockSize) && coefficientScale <= COEFFICIENT_LIMIT
    requires forall n | 1 <= n <= N + 1 :: EstimateFits(estimate, n)
    ensures IsProduction(K, N, S, coefficientScale, blockSize, production)
  {
    var mu, nonzero, summary := MakeMobius(K, coefficientScale);
    var delta := FillAll(K, N, blockSize, mu, nonzero);
    var blockBefore, blockDelta, finalFloorSum := Prefixes(K, N, blockSize, delta);
    var scanned := ScanAll(K, N, S, blockSize, delta, blockBefore, estimate);
    var rows, signedUpper, absoluteUpper, totalVariation :=
      Reduce(K, N, S, blockSize, blockBefore, blockDelta, scanned);
    GridIsSerial(K, N, S, blockSize, rows);
    FinalError(K, N);
    var endpointRoot := EndpointRoot(N, S, estimate);
    production := Production(
      summary, rows, finalFloorSum, AbsInt(1 - finalFloorSum), signedUpper, absoluteUpper, totalVariation,
      endpointRoot);
  }

  datatype ProducerFault = ArgumentsRejected | TableTooLarge

  predicate ArgumentsPass(K: nat, N: nat, blockSize: nat) {
    1 <= K <= INT32_MAX && K <= N < MAX_64 && blockSize >= 1
  }

  /** THE WHOLE PROGRAM, on all 64-bit arguments: they are refused exactly out of range, the table of N + 1
      entries is refused exactly when it cannot be addressed, and whatever is produced is the serial pass. */
  method Produce(K: nat, N: nat, S: nat, coefficientScale: nat, blockSize: nat, estimate: nat -> nat)
    returns (r: Result<Production, ProducerFault>)
    requires K < TWO_64 && N < TWO_64 && blockSize < TWO_64
    requires S <= SCALE_LIMIT && coefficientScale <= COEFFICIENT_LIMIT
    requires forall n | 1 <= n <= N + 1 :: EstimateFits(estimate, n)
    ensures r == Failure(ArgumentsRejected) <==> !ArgumentsPass(K, N, blockSize)
    ensures r == Failure(TableTooLarge) <==> ArgumentsPass(K, N, blockSize) && !Addressable(N)
    ensures r.Success? ==> blockSize >= 1 && IsProduction(K, N, S, coefficientScale, blockSize, r.value)
  {
    if K > INT32_MAX {
      return Failure(ArgumentsRejected);
    }
    if K == 0 || N < K || N == MAX_64 || blockSize == 0 || N > SIZE_MAX - 1 {
      return Failure(ArgumentsRejected);
    }
    if N + 1 > SIZE_MAX / 4 {
      return Failure(TableTooLarge);
    }
    var production := Compute(K, N, S, coefficientScale, blockSize, estimate);
    r := Success(production);
  }
}
