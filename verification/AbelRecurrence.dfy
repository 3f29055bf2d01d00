/** The Abel recurrence over truncated divisor sums: the specification both programs compute
    (reference/tg_cdem_abel.cpp, lines 193-280; reference/tg_cdem_abel_chunk_replay.cpp, lines 183-264). */
module AbelRecurrence {
  import opened Divisibility
  import opened Sums
  import opened Mobius
  import opened Weights

  function AbsInt(x: int): nat {
    if x < 0 then -x else x
  }

  /** The truncated divisor sum at m. */
  function Delta(K: nat, m: int): int {
    if m >= 1 then DivisorSum(m, K) else 0
  }

  function Deltas(K: nat): int -> int {
    m => Delta(K, m)
  }

  /** The F state after n, for a scan that enters low with the state before. */
  function FloorState(K: nat, low: int, before: int, n: int): int {
    before + Sum(Deltas(K), low, n + 1)
  }

  /** |1 - F|, with the explicit value 0 at n = 0. */
  function ErrorAt(K: nat, low: int, before: int, n: int): nat {
    if n == 0 then 0 else AbsInt(1 - FloorState(K, low, before, n))
  }

  function Increment(K: nat, low: int, before: int, n: int): int {
    ErrorAt(K, low, before, n) - ErrorAt(K, low, before, n - 1)
  }

  /** The reciprocal S/n, rounded so that its product with the increment is rounded up. */
  function DirectedWeight(increment: int, n: int, S: nat): nat
    requires n >= 1
  {
    if increment > 0 then CeilDiv(S, n) else S / n
  }

  function SignedTerm(K: nat, S: nat, low: int, before: int, n: int): int {
    var increment := Increment(K, low, before, n);
    if n >= 1 then increment * DirectedWeight(increment, n, S) else 0
  }

  function AbsoluteTerm(K: nat, S: nat, low: int, before: int, n: int): nat {
    if n >= 1 then AbsInt(Increment(K, low, before, n)) * LeastRoot(n, S) else 0
  }

  function VariationTerm(K: nat, low: int, before: int, n: int): nat {
    AbsInt(Increment(K, low, before, n))
  }

  function SignedTerms(K: nat, S: nat, low: int, before: int): int -> int {
    n => SignedTerm(K, S, low, before, n)
  }

  function AbsoluteTerms(K: nat, S: nat, low: int, before: int): int -> int {
    n => AbsoluteTerm(K, S, low, before, n)
  }

  function VariationTerms(K: nat, low: int, before: int): int -> int {
    n => VariationTerm(K, low, before, n)
  }

  // The three aggregates of a scan from low up to but excluding end.

  function SignedSum(K: nat, S: nat, low: int, before: int, end: int): int {
    Sum(SignedTerms(K, S, low, before), low, end)
  }

  function AbsoluteSum(K: nat, S: nat, low: int, before: int, end: int): int {
    Sum(AbsoluteTerms(K, S, low, before), low, end)
  }

  function VariationSum(K: nat, low: int, before: int, end: int): int {
    Sum(VariationTerms(K, low, before), low, end)
  }

  /** The state of the serial recurrence over 1, 2, ..., n. */
  function SerialState(K: nat, n: int): int {
    FloorState(K, 1, 0, n)
  }

  datatype Aggregates = Aggregates(after: int, signedUpper: int, absoluteUpper: int, variation: int)

  /** What one scan of [low, high] yields. */
  function ChunkAggregates(K: nat, S: nat, low: int, high: int, before: int): Aggregates {
    Aggregates(
      FloorState(K, low, before, high),
      SignedSum(K, S, low, before, high + 1),
      AbsoluteSum(K, S, low, before, high + 1),
      VariationSum(K, low, before, high + 1))
  }

  /** What one more number adds. */
  lemma ScanStep(K: nat, S: nat, low: int, before: int, n: int)
    requires 1 <= low <= n
    ensures FloorState(K, low, before, n) == FloorState(K, low, before, n - 1) + Delta(K, n)
    ensures SignedSum(K, S, low, before, n + 1) == SignedSum(K, S, low, before, n) + SignedTerm(K, S, low, before, n)
    ensures AbsoluteSum(K, S, low, before, n + 1)
      == AbsoluteSum(K, S, low, before, n) + AbsoluteTerm(K, S, low, before, n)
    ensures VariationSum(K, low, before, n + 1) == VariationSum(K, low, before, n) + VariationTerm(K, low, before, n)
  {
  }

  // ---- The floor-sum identity ----------------------------------------------

  function MuFloor(n: int, d: int): int {
    if d >= 1 then Mu(d) * (n / d) else 0
  }

  function MuFloors(n: int): int -> int {
    d => MuFloor(n, d)
  }

  lemma QuotientStep(n: int, d: int)
    requires n >= 1 && d >= 1
    ensures n / d == (n - 1) / d + if n % d == 0 then 1 else 0
  {
    if n % d == 0 {
      assert n - 1 == d * (n / d - 1) + (d - 1);
      DivisionUnique(n - 1, d, n / d - 1, d - 1);
    } else {
      DivisionUnique(n - 1, d, n / d, n % d - 1);
    }
  }

  lemma MuFloorStep(n: int, d: int)
    requires n >= 1
    ensures MuFloor(n, d) == MuFloor(n - 1, d) + DivisorTerm(n, d)
  {
    if d >= 1 { QuotientStep(n, d); }
  }

  /** FLOOR-SUM IDENTITY. F(n) is the sum of mu(d) floor(n / d) over d <= K. */
  lemma {:induction false} FloorSumIdentity(K: nat, n: nat)
    ensures SerialState(K, n) == Sum(MuFloors(n), 1, K + 1)
  {
    if n == 0 {
      forall d | 1 <= d < K + 1
        ensures MuFloor(0, d) == 0
      {
        SmallIsOwnRemainder(0, d);
        DivisionUnique(0, d, 0, 0);
      }
      SumZero(MuFloors(0), 1, K + 1);
    } else {
      FloorSumIdentity(K, n - 1);
      forall d | 1 <= d < K + 1
        ensures MuFloor(n, d) == MuFloor(n - 1, d) + DivisorTerm(n, d)
      {
        MuFloorStep(n, d);
      }
      SumAdd(MuFloors(n - 1), DivisorTerms(n), MuFloors(n), 1, K + 1);
    }
  }

  /** VANISHING PREFIX. Up to K the state is 1 and the recurrence contributes nothing. */
  lemma {:induction false} VanishingPrefix(K: nat, S: nat, n: nat)
    requires 1 <= n <= K
    ensures SerialState(K, n) == 1
    ensures Increment(K, 1, 0, n) == 0
    ensures SignedTerm(K, S, 1, 0, n) == 0 && AbsoluteTerm(K, S, 1, 0, n) == 0
  {
    DivisorSumTruncated(n, K);
    assert SerialState(K, n) == SerialState(K, n - 1) + Delta(K, n);
    if n <= 1 {
    } else {
      VanishingPrefix(K, S, n - 1);
    }
  }

  // ---- Threading and block independence -------------------------------------

  /** A scan that enters low with the serial state continues the serial recurrence. */
  lemma ScanContinuesSerial(K: nat, low: int, before: int, n: int)
    requires 1 <= low <= n + 1 && before == SerialState(K, low - 1)
    ensures FloorState(K, low, before, n) == SerialState(K, n)
    ensures ErrorAt(K, low, before, n) == ErrorAt(K, 1, 0, n)
  {
    SumSplit(Deltas(K), 1, low, n + 1);
  }

  lemma ScanTermsAreSerial(K: nat, S: nat, low: int, before: int, n: int)
    requires 1 <= low <= n && before == SerialState(K, low - 1)
    ensures SignedTerm(K, S, low, before, n) == SignedTerm(K, S, 1, 0, n)
    ensures AbsoluteTerm(K, S, low, before, n) == AbsoluteTerm(K, S, 1, 0, n)
    ensures VariationTerm(K, low, before, n) == VariationTerm(K, 1, 0, n)
  {
    ScanContinuesSerial(K, low, before, n);
    ScanContinuesSerial(K, low, before, n - 1);
  }

  // Appending a threaded scan of [low, high] to the serial recurrence up to low - 1 gives the serial
  // recurrence up to high.

  lemma SignedExtends(K: nat, S: nat, low: int, end: int, before: int)
    requires 1 <= low <= end && before == SerialState(K, low - 1)
    ensures SignedSum(K, S, 1, 0, end) == SignedSum(K, S, 1, 0, low) + SignedSum(K, S, low, before, end)
  {
    var terms, serial := SignedTerms(K, S, low, before), SignedTerms(K, S, 1, 0);
    forall n | low <= n < end
      ensures terms(n) == serial(n)
    {
      ScanTermsAreSerial(K, S, low, before, n);
    }
    SumEqual(terms, serial, low, end);
    SumSplit(serial, 1, low, end);
  }

  lemma AbsoluteExtends(K: nat, S: nat, low: int, end: int, before: int)
    requires 1 <= low <= end && before == SerialState(K, low - 1)
    ensures AbsoluteSum(K, S, 1, 0, end) == AbsoluteSum(K, S, 1, 0, low) + AbsoluteSum(K, S, low, before, end)
  {
    var terms, serial := AbsoluteTerms(K, S, low, before), AbsoluteTerms(K, S, 1, 0);
    forall n | low <= n < end
      ensures terms(n) == serial(n)
    {
      ScanTermsAreSerial(K, S, low, before, n);
    }
    SumEqual(terms, serial, low, end);
    SumSplit(serial, 1, low, end);
  }

  lemma VariationExtends(K: nat, S: nat, low: int, end: int, before: int)
    requires 1 <= low <= end && before == SerialState(K, low - 1)
    ensures VariationSum(K, 1, 0, end) == VariationSum(K, 1, 0, low) + VariationSum(K, low, before, end)
  {
    var terms, serial := VariationTerms(K, low, before), VariationTerms(K, 1, 0);
    forall n | low <= n < end
      ensures terms(n) == serial(n)
    {
      ScanTermsAreSerial(K, S, low, before, n);
    }
    SumEqual(terms, serial, low, end);
    SumSplit(serial, 1, low, end);
  }

  /** A row of a chunk table: its range, the states around it, and its aggregates. */
  datatype ChunkRow = ChunkRow(low: int, high: int, before: int, aggregates: Aggregates)

  /** The state after the last row. */
  function EndState(rows: seq<ChunkRow>): int {
    if |rows| == 0 then 0 else rows[|rows| - 1].aggregates.after
  }

  /** The rows tile [1, end - 1] and hand their states on, starting from 0. */
  predicate Threaded(rows: seq<ChunkRow>, end: int) {
    if |rows| == 0 then end == 1
    else
      var row := rows[|rows| - 1];
      var rest := rows[..|rows| - 1];
      && row.low <= row.high && row.high + 1 == end
      && Threaded(rest, row.low)
      && row.before == EndState(rest)
  }

  lemma ThreadedAppend(rows: seq<ChunkRow>, row: ChunkRow)
    requires Threaded(rows, row.low) && row.low <= row.high && row.before == EndState(rows)
    ensures Threaded(rows + [row], row.high + 1) && EndState(rows + [row]) == row.aggregates.after
  {
    assert (rows + [row])[..|rows|] == rows;
  }

  predicate RowsReplay(K: nat, S: nat, rows: seq<ChunkRow>) {
    forall i | 0 <= i < |rows| ::
      rows[i].aggregates == ChunkAggregates(K, S, rows[i].low, rows[i].high, rows[i].before)
  }

  function TotalSigned(rows: seq<ChunkRow>): int {
    if |rows| == 0 then 0 else TotalSigned(rows[..|rows| - 1]) + rows[|rows| - 1].aggregates.signedUpper
  }

  function TotalAbsolute(rows: seq<ChunkRow>): int {
    if |rows| == 0 then 0 else TotalAbsolute(rows[..|rows| - 1]) + rows[|rows| - 1].aggregates.absoluteUpper
  }

  function TotalVariation(rows: seq<ChunkRow>): int {
    if |rows| == 0 then 0 else TotalVariation(rows[..|rows| - 1]) + rows[|rows| - 1].aggregates.variation
  }

  /** BLOCK INDEPENDENCE. Whatever the partition into rows, rows that are threaded from 0 and each
      correct for its own incoming state end in the serial state and add up to the serial sums. */
  lemma {:induction false} PartitionIsSerial(K: nat, S: nat, rows: seq<ChunkRow>, end: int)
    requires Threaded(rows, end) && RowsReplay(K, S, rows)
    ensures end >= 1
    ensures EndState(rows) == SerialState(K, end - 1)
    ensures TotalSigned(rows) == SignedSum(K, S, 1, 0, end)
    ensures TotalAbsolute(rows) == AbsoluteSum(K, S, 1, 0, end)
    ensures TotalVariation(rows) == VariationSum(K, 1, 0, end)
  {
    if |rows| == 0 {
    } else {
      var last := |rows| - 1;
      var row := rows[last];
      PartitionIsSerial(K, S, rows[..last], row.low);
      assert row.aggregates == ChunkAggregates(K, S, row.low, row.high, row.before);
      ScanContinuesSerial(K, row.low, row.before, row.high);
      SignedExtends(K, S, row.low, end, row.before);
      AbsoluteExtends(K, S, row.low, end, row.before);
      VariationExtends(K, S, row.low, end, row.before);
    }
  }

  /** Every row of such a partition enters with the serial state. */
  lemma {:induction false} PartitionStates(K: nat, S: nat, rows: seq<ChunkRow>, end: int, i: nat, row: ChunkRow)
    requires Threaded(rows, end) && RowsReplay(K, S, rows) && i < |rows| && row == rows[i]
    ensures row.before == SerialState(K, row.low - 1)
    ensures row.aggregates.after == SerialState(K, row.high)
  {
    var last := |rows| - 1;
    if i < last {
      PrefixReplays(K, S, rows, last);
      PartitionStates(K, S, rows[..last], rows[last].low, i, row);
    } else {
      LastRowState(K, S, rows, end);
    }
  }

  lemma PrefixReplays(K: nat, S: nat, rows: seq<ChunkRow>, n: nat)
    requires RowsReplay(K, S, rows) && n <= |rows|
    ensures RowsReplay(K, S, rows[..n])
  {
  }

  lemma LastRowState(K: nat, S: nat, rows: seq<ChunkRow>, end: int)
    requires Threaded(rows, end) && RowsReplay(K, S, rows) && |rows| > 0
    ensures var row := rows[|rows| - 1];
      row.before == SerialState(K, row.low - 1) && row.aggregates.after == SerialState(K, row.high)
  {
    var last := |rows| - 1;
    PrefixReplays(K, S, rows, last);
    PartitionIsSerial(K, S, rows, end);
    PartitionIsSerial(K, S, rows[..last], rows[last].low);
  }

  // ---- The block grid -------------------------------------------------------

  function BlockCount(N: nat, blockSize: nat): nat
    requires blockSize > 0
  {
    CeilDiv(N, blockSize)
  }

  function BlockLow(block: nat, blockSize: nat): nat {
    block * blockSize + 1
  }

  function BlockHigh(low: nat, N: nat, blockSize: nat): nat
    requires 1 <= low <= N && blockSize > 0
  {
    var remaining := N - low + 1;
    if remaining <= blockSize then N else low + blockSize - 1
  }

  /** The block that n lies in. */
  function BlockOf(n: nat, blockSize: nat): nat
    requires n >= 1 && blockSize > 0
  {
    (n - 1) / blockSize
  }

  lemma BlockInRange(block: nat, N: nat, blockSize: nat)
    requires blockSize > 0
    ensures block < BlockCount(N, blockSize) <==> BlockLow(block, blockSize) <= N
    ensures block < BlockCount(N, blockSize) ==>
      var high := BlockHigh(BlockLow(block, blockSize), N, blockSize);
      && BlockLow(block, blockSize) <= high <= N
      && (if block + 1 < BlockCount(N, blockSize) then high + 1 == BlockLow(block + 1, blockSize) else high == N)
  {
    CeilDivLeast(N, blockSize, block);
    CeilDivLeast(N, blockSize, block + 1);
  }

  /** The blocks cover [1, N], and each number lies in one block only. */
  lemma BlocksTile(N: nat, blockSize: nat, n: nat, block: nat)
    requires blockSize > 0 && 1 <= n <= N
    ensures BlockOf(n, blockSize) < BlockCount(N, blockSize)
    ensures block < BlockCount(N, blockSize) ==>
      && BlockLow(block, blockSize) <= N
      && ((BlockLow(block, blockSize) <= n <= BlockHigh(BlockLow(block, blockSize), N, blockSize))
          == (block == BlockOf(n, blockSize)))
  {
    var home := BlockOf(n, blockSize);
    CeilDivLeast(n - 1, blockSize, home);
    CeilDivLeast(n - 1, blockSize, block);
    CeilDivLeast(n - 1, blockSize, block + 1);
    CeilDivLeast(n - 1, blockSize, home + 1);
    BlockInRange(home, N, blockSize);
    BlockInRange(block, N, blockSize);
  }
}
