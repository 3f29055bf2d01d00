/** What it takes for the terminal and for the workload to publish a result
    (reference/tg_cdem_abel_artifact_terminal.cpp, lines 646-712;
    reference/tg_cdem_abel_measured_workload.cpp, lines 653-713). */
module Publication {
  import opened Outcomes
  import opened MachineWords
  import opened AbelRecurrence
  import opened ArtifactCodec
  import opened ArtifactFrame
  import opened ReplayText
  import opened Terminal
  import opened Transcript
  import opened WorkerPool

  /** The row's replay, run as a worker runs it, passes with some variation. */
  ghost predicate RowPasses(p: Profile, table: seq<Chunk>, index: nat) {
    index < |table| && exists v: nat :: RowCorrect(p, table[index], v)
  }

  ghost function PassingRows(p: Profile, table: seq<Chunk>): nat -> bool {
    (index: nat) => RowPasses(p, table, index)
  }

  /** The retained output of a row is what its replay printed, if that succeeded. */
  ghost predicate Retained(p: Profile, table: seq<Chunk>, outputs: seq<Captured>) {
    && |outputs| == |table|
    && forall i: nat | i < |table| && ReplayOfRow(p, table[i]).Some? ::
         ReplayOfRow(p, table[i]) == Some(outputs[i].stdout)
  }

  lemma ReplayedRowCorrect(p: Profile, c: Chunk, output: Captured, variation: nat, v: nat)
    requires RowCorrect(p, c, v) && (ReplayOfRow(p, c).Some? ==> ReplayOfRow(p, c) == Some(output.stdout))
    requires Prints(p, c, output, variation)
    ensures RowCorrect(p, c, variation)
  {
    TextDecides(p, c, variation);
  }

  lemma RetainedRowCorrect(
    p: Profile, table: seq<Chunk>, outputs: seq<Captured>, variations: seq<nat>, i: nat)
    requires Retained(p, table, outputs) && Passes(p, table, outputs, variations) && RowPasses(p, table, i)
    ensures RowCorrect(p, table[i], variations[i])
  {
    var v: nat :| RowCorrect(p, table[i], v);
    PassesAt(p, table, outputs, variations, i);
    ReplayedRowCorrect(p, table[i], outputs[i], variations[i], v);
  }

  /** PUBLICATION IMPLIES THE RECURRENCE. The terminal publishes only for bytes that describe a table,
      after its workers joined with the flag down and the retained replays passed. Then, whatever the
      interleaving, every row is a true piece of the recurrence, and the serial recurrence over [1, N]
      ends in the target state with the target totals. */
  lemma PublishedMeansRecurrence(
    p: Profile, bytes: seq<byte>, table: seq<Chunk>, count: nat, run: seq<Pool>, schedule: seq<nat>,
    outputs: seq<Captured>, variations: seq<nat>)
    requires Describes(p, bytes, table) && count >= 1
    requires Interleaving(|table|, PassingRows(p, table), count, run, schedule)
    requires AllExited(run[|schedule|]) && !run[|schedule|].failed
    requires Retained(p, table, outputs) && Passes(p, table, outputs, variations)
    ensures forall i | 0 <= i < |table| ::
      && RowCorrect(p, table[i], variations[i])
      && table[i].before == SerialState(p.K, table[i].low - 1) && table[i].after == SerialState(p.K, table[i].high)
    ensures SerialState(p.K, p.N) == p.finalState
    ensures SignedSum(p.K, p.weightScale, 1, 0, p.N + 1) == p.signedTarget
    ensures AbsoluteSum(p.K, p.weightScale, 1, 0, p.N + 1) == p.absoluteTarget
    ensures VariationSum(p.K, 1, 0, p.N + 1) == p.variationTarget
  {
    EveryRowOnce(|table|, PassingRows(p, table), count, run, schedule, run[|schedule|]);
    forall i: nat | i < |table|
      ensures RowCorrect(p, table[i], variations[i])
    {
      assert PassingRows(p, table)(i);
      RetainedRowCorrect(p, table, outputs, variations, i);
    }
    AcceptanceIsRecurrence(p, table, variations);
  }

  // ---- The workload ---------------------------------------------------------------------

  /** The workload's check of one row: its replay succeeded and printed the row with its own variation. */
  ghost predicate RowMatches(p: Profile, rows: seq<Chunk>, variations: seq<nat>, index: nat) {
    index < |rows| && index < |variations|
    && ReplayOfRow(p, rows[index]) == Some(ExpectedReplay(p, rows[index], variations[index]))
  }

  ghost function MatchingRows(p: Profile, rows: seq<Chunk>, variations: seq<nat>): nat -> bool {
    (index: nat) => RowMatches(p, rows, variations, index)
  }

  /** WORKLOAD PUBLICATION. The workload publishes only after the producer's chunk rows passed and its own
      workers joined with the flag down. Then its rows are true pieces of the recurrence, which has the
      target state and totals, and the terminal parses the artifact it writes back to the same rows. */
  lemma WorkloadPublishedMeansRecurrence(
    p: Profile, lines: seq<string>, rows: seq<Chunk>, variations: seq<nat>, count: nat, run: seq<Pool>,
    schedule: seq<nat>)
    requires Lists(p, lines, rows, variations) && count >= 1
    requires Interleaving(|rows|, MatchingRows(p, rows, variations), count, run, schedule)
    requires AllExited(run[|schedule|]) && !run[|schedule|].failed
    ensures run[|schedule|].next >= |rows|
    ensures RowsCorrect(p, rows, variations)
    ensures SerialState(p.K, p.N) == p.finalState
    ensures SignedSum(p.K, p.weightScale, 1, 0, p.N + 1) == p.signedTarget
    ensures AbsoluteSum(p.K, p.weightScale, 1, 0, p.N + 1) == p.absoluteTarget
    ensures VariationSum(p.K, 1, 0, p.N + 1) == p.variationTarget
    ensures Describes(p, ArtifactBytes(p, rows), rows)
  {
    EveryRowOnce(|rows|, MatchingRows(p, rows, variations), count, run, schedule, run[|schedule|]);
    forall i: nat | i < |rows|
      ensures RowCorrect(p, rows[i], variations[i])
    {
      assert MatchingRows(p, rows, variations)(i);
      ListsAt(p, lines, rows, variations, i);
      VariationListed(lines[i], rows[i], variations[i]);
      TextDecides(p, rows[i], variations[i]);
    }
    ListedAcceptable(p, lines, rows, variations);
    AcceptanceIsRecurrence(p, rows, variations);
  }

  lemma VariationListed(line: string, c: Chunk, variation: nat)
    requires IsLine(line, c, variation)
    ensures variation <= MAX_64
  {
  }

  lemma ListedAcceptable(p: Profile, lines: seq<string>, rows: seq<Chunk>, variations: seq<nat>)
    requires Lists(p, lines, rows, variations)
    ensures Acceptable(p, rows) && |rows| == |variations| && Total(variations) == p.variationTarget
    ensures Describes(p, ArtifactBytes(p, rows), rows)
  {
  }

  // ---- Publication is possible ------------------------------------------------------------

  /** What the replay of every row prints. */
  function HonestOutputs(p: Profile, table: seq<Chunk>, variations: seq<nat>): (outputs: seq<Captured>)
    requires |variations| == |table|
    ensures |outputs| == |table|
  {
    seq(|table|, i requires 0 <= i < |table| => Captured(ExpectedReplay(p, table[i], variations[i]), ""))
  }

  lemma HonestOutputsPass(p: Profile, table: seq<Chunk>, variations: seq<nat>)
    requires RowsCorrect(p, table, variations) && Total(variations) == p.variationTarget
    ensures |variations| == |table|
    ensures Retained(p, table, HonestOutputs(p, table, variations))
    ensures Passes(p, table, HonestOutputs(p, table, variations), variations)
  {
    var outputs := HonestOutputs(p, table, variations);
    forall i: nat | i < |table|
      ensures ReplayOfRow(p, table[i]) == Some(outputs[i].stdout) && Prints(p, table[i], outputs[i], variations[i])
    {
      TextDecides(p, table[i], variations[i]);
    }
  }

  lemma TrueRowsPass(p: Profile, table: seq<Chunk>, variations: seq<nat>)
    requires RowsCorrect(p, table, variations)
    ensures forall index: nat | index < |table| :: PassingRows(p, table)(index)
  {
    forall index: nat | index < |table|
      ensures PassingRows(p, table)(index)
    {
      assert RowCorrect(p, table[index], variations[index]);
    }
  }

  /** THE TERMINAL CAN PUBLISH. For an acceptable table of true rows whose variations add up, everything that
      publication needs is met by some interleaving of any number of workers. */
  lemma PublicationPossible(p: Profile, table: seq<Chunk>, variations: seq<nat>, count: nat)
    returns (run: seq<Pool>, schedule: seq<nat>, outputs: seq<Captured>)
    requires Acceptable(p, table) && RowsCorrect(p, table, variations) && Total(variations) == p.variationTarget
    requires count >= 1
    ensures Describes(p, ArtifactBytes(p, table), table)
    ensures Interleaving(|table|, PassingRows(p, table), count, run, schedule)
    ensures AllExited(run[|schedule|]) && !run[|schedule|].failed
    ensures Retained(p, table, outputs) && Passes(p, table, outputs, variations)
  {
    HonestOutputsPass(p, table, variations);
    outputs := HonestOutputs(p, table, variations);
    TrueRowsPass(p, table, variations);
    run, schedule := SuccessPossible(|table|, PassingRows(p, table), count);
  }

  /** THE WORKLOAD CAN PUBLISH. Likewise for chunk rows that pass its check and are true. */
  lemma WorkloadPublicationPossible(
    p: Profile, lines: seq<string>, rows: seq<Chunk>, variations: seq<nat>, count: nat)
    returns (run: seq<Pool>, schedule: seq<nat>)
    requires Lists(p, lines, rows, variations) && RowsCorrect(p, rows, variations) && count >= 1
    ensures Interleaving(|rows|, MatchingRows(p, rows, variations), count, run, schedule)
    ensures AllExited(run[|schedule|]) && !run[|schedule|].failed
  {
    forall index: nat | index < |rows|
      ensures MatchingRows(p, rows, variations)(index)
    {
      TextDecides(p, rows[index], variations[index]);
    }
    run, schedule := SuccessPossible(|rows|, MatchingRows(p, rows, variations), count);
  }
}
