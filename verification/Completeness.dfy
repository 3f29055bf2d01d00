/** The producer's own rows pass every check of the terminal
    (reference/tg_cdem_abel.cpp, lines 239-301; reference/tg_cdem_abel_artifact_terminal.cpp, lines 342-447). */
module Completeness {
  import opened Numbers
  import opened MachineWords
  import opened Decimals
  import opened AbelRecurrence
  import opened Producer
  import opened ArtifactFrame
  import opened Terminal
  import opened Transcript
  import opened WorkerPool
  import opened Publication

  predicate PrintableRow(row: ChunkRow) {
    row.low >= 0 && row.high >= 0 && row.aggregates.absoluteUpper >= 0 && row.aggregates.variation >= 0
  }

  function ChunkOf(row: ChunkRow): Chunk
    requires PrintableRow(row)
  {
    Chunk(row.low, row.high, row.before, row.aggregates.after, row.aggregates.signedUpper, row.aggregates.absoluteUpper)
  }

  predicate Printable(rows: seq<ChunkRow>) {
    forall i | 0 <= i < |rows| :: PrintableRow(rows[i])
  }

  function ChunksOf(rows: seq<ChunkRow>): (chunks: seq<Chunk>)
    requires Printable(rows)
    ensures |chunks| == |rows|
  {
    if rows == [] then [] else ChunksOf(rows[..|rows| - 1]) + [ChunkOf(rows[|rows| - 1])]
  }

  function VariationsOf(rows: seq<ChunkRow>): (variations: seq<nat>)
    requires Printable(rows)
    ensures |variations| == |rows|
  {
    if rows == [] then [] else VariationsOf(rows[..|rows| - 1]) + [rows[|rows| - 1].aggregates.variation]
  }

  /** The profile fits the producer's range. */
  predicate Feasible(p: Profile) {
    Computable(p) && ProducerRange(p.K, p.N, p.weightScale, p.blockSize)
  }

  lemma BlockRowPrintable(p: Profile, block: nat)
    requires p.blockSize > 0 && block < BlockCount(p.N, p.blockSize)
    ensures PrintableRow(BlockRow(p.K, p.N, p.weightScale, p.blockSize, block))
  {
    var row := BlockRow(p.K, p.N, p.weightScale, p.blockSize, block);
    AggregatesNonnegative(p.K, p.weightScale, row.low, row.high, row.before);
  }

  lemma GridPrintable(p: Profile, rows: seq<ChunkRow>)
    requires p.blockSize > 0 && |rows| <= BlockCount(p.N, p.blockSize)
    requires OnGrid(p.K, p.N, p.weightScale, p.blockSize, rows)
    ensures Printable(rows)
  {
    forall i: nat | i < |rows|
      ensures PrintableRow(rows[i])
    {
      BlockRowPrintable(p, i);
    }
  }

  /** The shape of a block's row. */
  lemma BlockRowShape(p: Profile, block: nat, row: ChunkRow)
    requires Feasible(p) && block < BlockCount(p.N, p.blockSize)
    requires row == BlockRow(p.K, p.N, p.weightScale, p.blockSize, block)
    ensures 1 <= row.low <= row.high <= p.N && row.high - row.low < p.blockSize
    ensures row.low == Boundary(block, p.N, p.blockSize) + 1 && row.high == Boundary(block + 1, p.N, p.blockSize)
    ensures row.high + 1 == Lesser(p.N + 1, row.low + p.blockSize)
    ensures row.before == SerialState(p.K, row.low - 1)
    ensures row.aggregates == ChunkAggregates(p.K, p.weightScale, row.low, row.high, row.before)
    ensures row.aggregates.after == SerialState(p.K, row.high)
  {
    BlockBoundaries(block, p.N, p.blockSize);
    BlockRowAfter(p.K, p.N, p.weightScale, p.blockSize, block);
    assert (block + 1) * p.blockSize == block * p.blockSize + p.blockSize;
  }

  lemma AggregatesPass(p: Profile, low: nat, high: nat, before: int, sums: Aggregates)
    requires Feasible(p) && 1 <= low <= high <= p.N && high - low < p.blockSize
    requires before == SerialState(p.K, low - 1)
    requires sums == ChunkAggregates(p.K, p.weightScale, low, high, before)
    ensures Signed64(before) && Signed64(sums.after) && Signed128(sums.signedUpper)
    ensures 0 <= sums.absoluteUpper < TWO_128 && 0 <= sums.variation <= MAX_64
  {
    SerialStateBound(p.K, p.N, low - 1);
    BlockFitsWords(p.K, p.N, p.weightScale, p.blockSize, low, before, high, sums);
  }

  /** A block's row fits the wire and is what its replay gives. */
  lemma BlockRowPasses(p: Profile, row: ChunkRow, c: Chunk, variation: nat)
    requires Feasible(p) && 1 <= row.low <= row.high <= p.N && row.high - row.low < p.blockSize
    requires row.before == SerialState(p.K, row.low - 1)
    requires row.aggregates == ChunkAggregates(p.K, p.weightScale, row.low, row.high, row.before)
    requires PrintableRow(row) && c == ChunkOf(row) && variation == row.aggregates.variation
    ensures WireRange(c) && RowCorrect(p, c, variation)
  {
    AggregatesPass(p, row.low, row.high, row.before, row.aggregates);
  }

  lemma TrueTableAppend(p: Profile, chunks: seq<Chunk>, variations: seq<nat>, c: Chunk, variation: nat)
    requires TrueTable(p, chunks, variations) && WireRange(c) && RowCorrect(p, c, variation)
    requires c.low == ExpectedLow(chunks) && c.high + 1 == Lesser(p.N + 1, c.low + p.blockSize)
    requires c.before == SerialState(p.K, c.low - 1)
    ensures TrueTable(p, chunks + [c], variations + [variation]) && ExpectedLow(chunks + [c]) == c.high + 1
  {
    assert (chunks + [c])[..|chunks|] == chunks && (variations + [variation])[..|variations|] == variations;
  }

  /** One more block. */
  lemma GridChunksStep(
    p: Profile, chunks: seq<Chunk>, variations: seq<nat>, block: nat, row: ChunkRow, c: Chunk, variation: nat)
    requires Feasible(p) && block < BlockCount(p.N, p.blockSize)
    requires row == BlockRow(p.K, p.N, p.weightScale, p.blockSize, block) && PrintableRow(row)
    requires c == ChunkOf(row) && variation == row.aggregates.variation
    requires TrueTable(p, chunks, variations) && ExpectedLow(chunks) == Boundary(block, p.N, p.blockSize) + 1
    ensures TrueTable(p, chunks + [c], variations + [variation])
    ensures ExpectedLow(chunks + [c]) == Boundary(block + 1, p.N, p.blockSize) + 1
  {
    BlockRowShape(p, block, row);
    BlockRowPasses(p, row, c, variation);
    TrueTableAppend(p, chunks, variations, c, variation);
  }

  lemma {:induction false} GridIsTrueTable(p: Profile, rows: seq<ChunkRow>)
    requires Feasible(p) && |rows| <= BlockCount(p.N, p.blockSize) && Printable(rows)
    requires OnGrid(p.K, p.N, p.weightScale, p.blockSize, rows)
    ensures TrueTable(p, ChunksOf(rows), VariationsOf(rows))
    ensures ExpectedLow(ChunksOf(rows)) == Boundary(|rows|, p.N, p.blockSize) + 1
  {
    if rows == [] {
      LastBoundary(p.N, p.blockSize);
    } else {
      var last := |rows| - 1;
      GridIsTrueTable(p, rows[..last]);
      BlockRowPrintable(p, last);
      var row := rows[last];
      GridChunksStep(
        p, ChunksOf(rows[..last]), VariationsOf(rows[..last]), last, row, ChunkOf(row), row.aggregates.variation);
    }
  }

  lemma {:induction false} TrueTableCorrect(p: Profile, chunks: seq<Chunk>, variations: seq<nat>)
    requires TrueTable(p, chunks, variations)
    ensures RowsCorrect(p, chunks, variations)
  {
    if chunks == [] {
    } else {
      var last := |chunks| - 1;
      TrueTableCorrect(p, chunks[..last], variations[..last]);
      RowsCorrectStep(p, chunks, variations, last);
    }
  }

  lemma RowsCorrectStep(p: Profile, chunks: seq<Chunk>, variations: seq<nat>, last: nat)
    requires |chunks| == |variations| == last + 1 && RowsCorrect(p, chunks[..last], variations[..last])
    requires RowCorrect(p, chunks[last], variations[last])
    ensures RowsCorrect(p, chunks, variations)
  {
    forall i | 0 <= i < |chunks|
      ensures RowCorrect(p, chunks[i], variations[i])
    {
      if i < last { assert RowCorrect(p, chunks[..last][i], variations[..last][i]); }
    }
  }

  lemma VariationsAddUp(p: Profile, chunks: seq<Chunk>, variations: seq<nat>)
    requires Connected(p, chunks) && RowsCorrect(p, chunks, variations)
    ensures Total(variations) == VariationSum(p.K, 1, 0, ExpectedLow(chunks))
  {
    TableThreads(p, chunks, variations);
    TableReplays(p, chunks, variations);
    PartitionIsSerial(p.K, p.weightScale, TableOf(chunks, variations), ExpectedLow(chunks));
  }

  lemma AcceptableParts(p: Profile, chunks: seq<Chunk>)
    requires Acceptable(p, chunks)
    ensures Connected(p, chunks) && ExpectedLow(chunks) == p.N + 1
  {
  }

  lemma TrueTableAccepted(p: Profile, chunks: seq<Chunk>, variations: seq<nat>)
    requires Computable(p) && TrueTable(p, chunks, variations)
    requires |chunks| == p.rowCount && ExpectedLow(chunks) == p.N + 1
    requires p.finalState == SerialState(p.K, p.N)
    requires p.signedTarget == SignedSum(p.K, p.weightScale, 1, 0, p.N + 1)
    requires p.absoluteTarget == AbsoluteSum(p.K, p.weightScale, 1, 0, p.N + 1)
    requires p.variationTarget == VariationSum(p.K, 1, 0, p.N + 1)
    ensures Acceptable(p, chunks) && RowsCorrect(p, chunks, variations) && Total(variations) == p.variationTarget
  {
    RecurrenceIsAccepted(p, chunks, variations);
    TrueTableCorrect(p, chunks, variations);
    AcceptableParts(p, chunks);
    VariationsAddUp(p, chunks, variations);
  }

  /** WHAT IS PRODUCED IS ACCEPTED. For targets equal to the producer's totals, the producer's rows form
      an acceptable artifact, every row's replay passes with its variation, and the variations add up. */
  lemma ProducedIsAccepted(p: Profile, rows: seq<ChunkRow>)
    requires Feasible(p) && p.rowCount == |rows| == BlockCount(p.N, p.blockSize)
    requires OnGrid(p.K, p.N, p.weightScale, p.blockSize, rows)
    requires p.finalState == SerialState(p.K, p.N)
    requires p.signedTarget == SignedSum(p.K, p.weightScale, 1, 0, p.N + 1)
    requires p.absoluteTarget == AbsoluteSum(p.K, p.weightScale, 1, 0, p.N + 1)
    requires p.variationTarget == VariationSum(p.K, 1, 0, p.N + 1)
    ensures Printable(rows)
    ensures Acceptable(p, ChunksOf(rows)) && RowsCorrect(p, ChunksOf(rows), VariationsOf(rows))
    ensures Total(VariationsOf(rows)) == p.variationTarget
  {
    GridPrintable(p, rows);
    var chunks, variations := ChunksOf(rows), VariationsOf(rows);
    GridIsTrueTable(p, rows);
    LastBoundary(p.N, p.blockSize);
    TrueTableAccepted(p, chunks, variations);
  }

  // ---- The whole way --------------------------------------------------------------------------

  /** The row as the producer prints it, after its key. */
  function PrintedRow(row: ChunkRow): string
    requires PrintableRow(row)
  {
    Decimal(row.low) + "," + Decimal(row.high) + "," + SignedDecimal(row.before) + ","
    + SignedDecimal(row.aggregates.after) + "," + SignedDecimal(row.aggregates.signedUpper) + ","
    + Decimal(row.aggregates.absoluteUpper) + "," + Decimal(row.aggregates.variation)
  }

  lemma JoinedSeven(a: string, b: string, c: string, d: string, e: string, f: string, g: string)
    ensures Joined([a, b, c, d, e, f, g])
      == a + "," + b + "," + c + "," + d + "," + e + "," + f + "," + g
  {
    JoinedMore(f, [g]);
    JoinedMore(e, [f, g]);
    JoinedMore(d, [e, f, g]);
    JoinedMore(c, [d, e, f, g]);
    JoinedMore(b, [c, d, e, f, g]);
    JoinedMore(a, [b, c, d, e, f, g]);
  }

  lemma JoinedMore(first: string, rest: seq<string>)
    requires rest != []
    ensures Joined([first] + rest) == first + "," + Joined(rest)
  {
    assert ([first] + rest)[1..] == rest;
  }

  /** The producer prints exactly the lines the workload reads. */
  lemma PrintedRowIsLine(row: ChunkRow)
    requires PrintableRow(row)
    ensures PrintedRow(row) == LineOf(ChunkOf(row), row.aggregates.variation)
  {
    JoinedSeven(Decimal(row.low), Decimal(row.high), SignedDecimal(row.before), SignedDecimal(row.aggregates.after),
                SignedDecimal(row.aggregates.signedUpper), Decimal(row.aggregates.absoluteUpper),
                Decimal(row.aggregates.variation));
  }

  lemma {:induction false} ChunksAt(rows: seq<ChunkRow>, i: nat)
    requires Printable(rows) && i < |rows|
    ensures ChunksOf(rows)[i] == ChunkOf(rows[i]) && VariationsOf(rows)[i] == rows[i].aggregates.variation
    decreases |rows|
  {
    if i < |rows| - 1 {
      ChunksAt(rows[..|rows| - 1], i);
    }
  }

  function PrintedRows(rows: seq<ChunkRow>): (lines: seq<string>)
    requires Printable(rows)
    ensures |lines| == |rows|
  {
    seq(|rows|, i requires 0 <= i < |rows| && Printable(rows) => PrintedRow(rows[i]))
  }

  lemma PrintedRowsList(p: Profile, rows: seq<ChunkRow>)
    requires Printable(rows) && Acceptable(p, ChunksOf(rows)) && RowsCorrect(p, ChunksOf(rows), VariationsOf(rows))
    requires Total(VariationsOf(rows)) == p.variationTarget
    ensures Lists(p, PrintedRows(rows), ChunksOf(rows), VariationsOf(rows))
  {
    var chunks, variations := ChunksOf(rows), VariationsOf(rows);
    forall i: nat | i < |rows|
      ensures IsLine(PrintedRows(rows)[i], chunks[i], variations[i])
    {
      ChunksAt(rows, i);
      PrintedRowIsLine(rows[i]);
      ConnectedInRange(p, chunks, i);
    }
  }

  /** HONEST PRODUCTION IS PUBLISHED. For targets equal to the producer's totals, the lines the producer prints
      pass the workload's check, its pool can succeed, the artifact it writes describes those rows, the
      terminal's pool can succeed on them, and the retained replays pass. */
  lemma ProducedIsPublished(p: Profile, rows: seq<ChunkRow>, count: nat)
    returns (run: seq<Pool>, schedule: seq<nat>, terminalRun: seq<Pool>, terminalSchedule: seq<nat>,
             outputs: seq<Captured>)
    requires Feasible(p) && p.rowCount == |rows| == BlockCount(p.N, p.blockSize) && count >= 1
    requires OnGrid(p.K, p.N, p.weightScale, p.blockSize, rows)
    requires p.finalState == SerialState(p.K, p.N)
    requires p.signedTarget == SignedSum(p.K, p.weightScale, 1, 0, p.N + 1)
    requires p.absoluteTarget == AbsoluteSum(p.K, p.weightScale, 1, 0, p.N + 1)
    requires p.variationTarget == VariationSum(p.K, 1, 0, p.N + 1)
    ensures Printable(rows) && Lists(p, PrintedRows(rows), ChunksOf(rows), VariationsOf(rows))
    ensures Interleaving(|rows|, MatchingRows(p, ChunksOf(rows), VariationsOf(rows)), count, run, schedule)
    ensures AllExited(run[|schedule|]) && !run[|schedule|].failed
    ensures Describes(p, ArtifactBytes(p, ChunksOf(rows)), ChunksOf(rows))
    ensures Interleaving(|rows|, PassingRows(p, ChunksOf(rows)), count, terminalRun, terminalSchedule)
    ensures AllExited(terminalRun[|terminalSchedule|]) && !terminalRun[|terminalSchedule|].failed
    ensures Retained(p, ChunksOf(rows), outputs) && Passes(p, ChunksOf(rows), outputs, VariationsOf(rows))
  {
    ProducedIsAccepted(p, rows);
    var chunks, variations := ChunksOf(rows), VariationsOf(rows);
    PrintedRowsList(p, rows);
    run, schedule := WorkloadPublicationPossible(p, PrintedRows(rows), chunks, variations, count);
    terminalRun, terminalSchedule, outputs := PublicationPossible(p, chunks, variations, count);
  }
}
