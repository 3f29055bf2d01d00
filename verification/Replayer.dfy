/** The strided fill both programs share, and the independent chunk replayer
    (reference/tg_cdem_abel_chunk_replay.cpp, lines 82-101 and 156-276). */
module Strides {
  import opened MachineWords
  import opened Divisibility
  import opened Sieves

  /** The first multiple of d from low on lies before low + d. */
  lemma FirstMultiple(low: nat, d: nat)
    requires d > 0
    ensures low % d == 0 || (low + (d - low % d)) % d == 0
    ensures low % d != 0 ==> forall m | low <= m < low + (d - low % d) :: m % d != 0
  {
    var q, r := low / d, low % d;
    assert low == d * q + r;
    if r != 0 {
      assert low + (d - r) == d * (q + 1);
      Multiple(d, q + 1);
      forall m | low <= m < low + (d - r)
        ensures m % d != 0
      {
        DivisionUnique(m, d, q, m - d * q);
      }
    }
  }

  /** Add value at every multiple of d in [low, high]; entry i of the array belongs to base + i.
      Entries of size below d keep every addition of a sign inside 32 bits. */
  method AddStrided(delta: array<int>, base: nat, low: nat, high: nat, d: nat, value: int)
    requires base <= low <= high < base + delta.Length && 1 <= d <= INT32_MAX && -1 <= value <= 1
    requires forall i | low - base <= i <= high - base :: -(d as int) < delta[i] < d
    modifies delta
    ensures forall i | low - base <= i <= high - base ::
      delta[i] == old(delta[i]) + if (base + i) % d == 0 then value else 0
    ensures forall i | 0 <= i < delta.Length && !(low - base <= i <= high - base) :: delta[i] == old(delta[i])
  {
    FirstMultiple(low, d);
    var multiple := low;
    var remainder := low % d;
    if remainder != 0 {
      var advance := d - remainder;
      if advance > high - low {
        return;
      }
      multiple := multiple + advance;
    }
    while true
      invariant low <= multiple <= high && multiple % d == 0
      invariant forall i | low - base <= i <= high - base ::
        delta[i] == old(delta[i]) + if base + i < multiple && (base + i) % d == 0 then value else 0
      invariant forall i | 0 <= i < delta.Length && !(low - base <= i <= high - base) :: delta[i] == old(delta[i])
      decreases high - multiple
    {
      var entry := delta[multiple - base];
      if (value > 0 && entry == INT32_MAX) || (value < 0 && entry == -(INT32_MAX as int) - 1) {
        assert false; // the replayer fails here; entries never get this far
      }
      delta[multiple - base] := entry + value;
      forall m | multiple <= m < multiple + d
        ensures m % d == 0 <==> m == multiple
      {
        NoMultipleBetween(d, multiple, m);
      }
      if high - multiple < d {
        break;
      }
      NextMultiple(d, multiple);
      multiple := multiple + d;
    }
  }
}

module Replayer {
  import opened Outcomes
  import opened MachineWords
  import opened Sums
  import opened Mobius
  import opened Sieves
  import opened Strides
  import opened Weights
  import opened AbelRecurrence
  import opened AbelBounds

  datatype ReplayFault = RangeRejected | ChunkTooLarge

  datatype ReplayOutput = ReplayOutput(
    K: nat, low: nat, high: nat, before: int, deltaSum: int, aggregates: Aggregates, weightScale: nat)

  // ---- 128-bit arithmetic with overflow checks ------------------------------

  function CheckedSigned(x: int): Option<int> {
    if -(INT128_LIMIT as int) <= x < INT128_LIMIT then Some(x) else None
  }

  function CheckedUnsigned(x: int): Option<nat> {
    if 0 <= x < TWO_128 then Some(x) else None
  }

  /** The magnitude, computed without negating the least signed value. */
  function UnsignedAbs(value: int): int {
    if value >= 0 then value else -(value + 1) + 1
  }

  /** What the replayer prints for accepted arguments. */
  function ReplayOf(K: nat, S: nat, low: nat, high: nat, before: int): ReplayOutput {
    var aggregates := ChunkAggregates(K, S, low, high, before);
    ReplayOutput(K, low, high, before, aggregates.after - before, aggregates, S)
  }

  function ReplayResult(K: nat, S: nat, low: nat, high: nat, before: int): Result<ReplayOutput, ReplayFault> {
    if K == 0 || K > INT32_MAX || low == 0 || high < low then Failure(RangeRejected)
    else if high - low + 1 > SIZE_MAX / 4 then Failure(ChunkTooLarge)
    else Success(ReplayOf(K, S, low, high, before))
  }

  /** One divisor's turn at the entry of n. */
  lemma DivisorTurn(n: nat, divisor: nat, entry: int)
    requires n >= 1 && divisor >= 1 && entry == Sum(DivisorTerms(n), 1, divisor)
    ensures -(divisor as int) < entry < divisor
    ensures Sum(DivisorTerms(n), 1, divisor + 1) == entry + if n % divisor == 0 then Mu(divisor) else 0
  {
    PartialDivisorSumBound(n, divisor);
  }

  /** A divisor with a nonzero coefficient is added at its multiples, the others are skipped. */
  method AddDivisor(delta: array<int>, low: nat, high: nat, divisor: nat, coefficient: int)
    requires 1 <= low <= high && delta.Length == high - low + 1 && 1 <= divisor <= INT32_MAX
    requires coefficient == Mu(divisor)
    requires forall i | 0 <= i < delta.Length :: delta[i] == Sum(DivisorTerms(low + i), 1, divisor)
    modifies delta
    ensures forall i | 0 <= i < delta.Length :: delta[i] == Sum(DivisorTerms(low + i), 1, divisor + 1)
  {
    ghost var entries := delta[..];
    forall i | 0 <= i < |entries|
      ensures -(divisor as int) < entries[i] < divisor
      ensures Sum(DivisorTerms(low + i), 1, divisor + 1)
        == entries[i] + if (low + i) % divisor == 0 then coefficient else 0
    {
      DivisorTurn(low + i, divisor, entries[i]);
    }
    if coefficient == 0 {
      assert forall i | 0 <= i < delta.Length :: delta[i] == entries[i];
      return;
    }
    MuBounds(divisor);
    AddStrided(delta, low, low, high, divisor, coefficient);
  }

  method FillChunk(K: nat, low: nat, high: nat) returns (delta: array<int>)
    requires 1 <= K <= INT32_MAX && 1 <= low <= high
    ensures fresh(delta) && delta.Length == high - low + 1
    ensures forall i | 0 <= i < delta.Length :: delta[i] == Delta(K, low + i)
  {
    var mu := PrimeFactorSieve(K);
    delta := new int[high - low + 1](_ => 0);
    for divisor := 1 to K + 1
      invariant forall d | 1 <= d <= K :: mu[d] == Mu(d)
      invariant forall i | 0 <= i < delta.Length :: delta[i] == Sum(DivisorTerms(low + i), 1, divisor)
    {
      AddDivisor(delta, low, high, divisor, mu[divisor]);
    }
  }

  /** The weights' part of one step of the scan. */
  method Accumulate(K: nat, S: nat, ghost low: nat, ghost before: int, n: nat, increment: int, accumulated: Aggregates)
    returns (r: Aggregates)
    requires InRange(K, S, low, before, n + 1) && low <= n && increment == Increment(K, low, before, n)
    requires accumulated.signedUpper == SignedSum(K, S, low, before, n)
    requires accumulated.absoluteUpper == AbsoluteSum(K, S, low, before, n)
    requires accumulated.variation == VariationSum(K, low, before, n)
    ensures r == Aggregates(accumulated.after, SignedSum(K, S, low, before, n + 1),
                            AbsoluteSum(K, S, low, before, n + 1), VariationSum(K, low, before, n + 1))
  {
    ScanFits(K, S, low, before, n + 1);
    StepFits(K, S, low, before, n);
    ScanStep(K, S, low, before, n);
    if increment == 0 {
      return accumulated;
    }
    var directedWeight := if increment > 0 then S / n + (if S % n != 0 then 1 else 0) else S / n;
    assert increment * directedWeight == SignedTerm(K, S, low, before, n);
    var weighted := CheckedSigned(increment * directedWeight);
    if weighted.None? {
      assert false; // "signed Abel accumulator overflow"
    }
    var nextSigned := CheckedSigned(accumulated.signedUpper + weighted.value);
    if nextSigned.None? {
      assert false; // "signed Abel accumulator overflow"
    }
    var absoluteIncrement := UnsignedAbs(increment);
    var nextVariation := CheckedUnsigned(accumulated.variation + absoluteIncrement);
    if nextVariation.None? {
      assert false; // "variation accumulator overflow"
    }
    var sqrtWeight := SearchedRoot(n, S);
    assert absoluteIncrement * sqrtWeight == AbsoluteTerm(K, S, low, before, n);
    var weightedAbsolute := CheckedUnsigned(absoluteIncrement * sqrtWeight);
    if weightedAbsolute.None? {
      assert false; // "absolute Abel accumulator overflow"
    }
    var nextAbsolute := CheckedUnsigned(accumulated.absoluteUpper + weightedAbsolute.value);
    if nextAbsolute.None? {
      assert false; // "absolute Abel accumulator overflow"
    }
    r := Aggregates(accumulated.after, nextSigned.value, nextAbsolute.value, nextVariation.value);
  }

  /** The scan over a filled chunk; every overflow check passes. */
  method Scan(K: nat, S: nat, low: nat, high: nat, incoming: int, delta: array<int>) returns (r: Aggregates)
    requires InRange(K, S, low, incoming, high + 1) && low <= high && delta.Length == high - low + 1
    requires forall i | 0 <= i < delta.Length :: delta[i] == Delta(K, low + i)
    ensures r == ChunkAggregates(K, S, low, high, incoming)
  {
    r := Aggregates(incoming, 0, 0, 0);
    var previousError := UnsignedAbs(1 - incoming);
    if low == 1 {
      previousError := 0;
    }
    for n := low to high + 1
      invariant r == Aggregates(FloorState(K, low, incoming, n - 1), SignedSum(K, S, low, incoming, n),
                                AbsoluteSum(K, S, low, incoming, n), VariationSum(K, low, incoming, n))
      invariant previousError == ErrorAt(K, low, incoming, n - 1)
    {
      StateFits(K, S, low, incoming, n + 1);
      ScanStep(K, S, low, incoming, n);
      assert delta[n - low] == Delta(K, n);
      var nextFloorSum := CheckedSigned(r.after + delta[n - low]);
      if nextFloorSum.None? {
        assert false; // "F state overflow"
      }
      r := r.(after := nextFloorSum.value);
      var errorMagnitude := UnsignedAbs(1 - r.after);
      if errorMagnitude > INT128_LIMIT - 1 {
        assert false; // "error magnitude exceeds signed recurrence range"
      }
      r := Accumulate(K, S, low, incoming, n, errorMagnitude - previousError, r);
      previousError := errorMagnitude;
    }
  }

  /** The whole replay: on arguments in range it succeeds, every overflow check passes, and it
      prints the aggregates of the recurrence. */
  method Replay(K: nat, low: nat, high: nat, incoming: int, S: nat) returns (r: Result<ReplayOutput, ReplayFault>)
    requires low < TWO_64 && high < TWO_64 && -(INT64_LIMIT as int) <= incoming < INT64_LIMIT
    requires S <= SCALE_LIMIT
    ensures r == ReplayResult(K, S, low, high, incoming)
  {
    if K == 0 || K > INT32_MAX || low == 0 || high < low {
      return Failure(RangeRejected);
    }
    var span := high - low + 1;
    if span > SIZE_MAX / 4 {
      return Failure(ChunkTooLarge);
    }
    var delta := FillChunk(K, low, high);
    var aggregates := Scan(K, S, low, high, incoming, delta);
    r := Success(ReplayOutput(K, low, high, incoming, aggregates.after - incoming, aggregates, S));
  }
}
