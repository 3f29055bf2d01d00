/** From an accepted artifact and its validated replays to the recurrence
    (reference/tg_cdem_abel_chunk_replay.cpp, lines 156-182 and 264-276;
    reference/tg_cdem_abel_artifact_terminal.cpp, lines 554-576 and 665-682). */
module Terminal {
  import opened Outcomes
  import opened Numbers
  import opened MachineWords
  import opened Weights
  import opened Decimals
  import opened AbelRecurrence
  import AbelBounds
  import Replayer
  import opened ArtifactFrame
  import opened ReplayText

  // ---- The replayer as a program ---------------------------------------------------

  lemma AggregatesNonnegative(K: nat, S: nat, low: int, high: int, before: int)
    ensures ChunkAggregates(K, S, low, high, before).absoluteUpper >= 0
    ensures ChunkAggregates(K, S, low, high, before).variation >= 0
  {
    AbelBounds.SumNonnegative(AbsoluteTerms(K, S, low, before), low, high + 1);
    AbelBounds.SumNonnegative(VariationTerms(K, low, before), low, high + 1);
  }

  /** The numbers a replay prints. */
  function Printed(K: nat, S: nat, low: nat, high: nat, before: int): ReplayNumbers {
    AggregatesNonnegative(K, S, low, high, before);
    var sums := ChunkAggregates(K, S, low, high, before);
    ReplayNumbers(
      K, low, high, before, sums.after - before, sums.after, sums.signedUpper, sums.absoluteUpper, sums.variation, S)
  }

  /** The replays that succeed. */
  predicate Replayable(K: nat, low: nat, high: nat) {
    1 <= K <= INT32_MAX && 1 <= low <= high && high - low + 1 <= SIZE_MAX / 4
  }

  /** What the program prints when it exits with status zero. */
  function ReplayerText(arguments: seq<string>, S: nat): Option<string> {
    if |arguments| != 4 then None
    else
      var K, low := Parsed(arguments[0], MAX_64), Parsed(arguments[1], MAX_64);
      var high, before := Parsed(arguments[2], MAX_64), ParsedSigned(arguments[3], INT64_LIMIT);
      if K.None? || low.None? || high.None? || before.None? then None
      else if !Replayable(K.value, low.value, high.value) then None
      else Some(ReplayOutputText(Printed(K.value, S, low.value, high.value, before.value)))
  }

  lemma ReplayerTextOf(arguments: seq<string>, S: nat, K: nat, low: nat, high: nat, before: int)
    requires |arguments| == 4
    requires Parsed(arguments[0], MAX_64) == Some(K) && Parsed(arguments[1], MAX_64) == Some(low)
    requires Parsed(arguments[2], MAX_64) == Some(high) && ParsedSigned(arguments[3], INT64_LIMIT) == Some(before)
    ensures ReplayerText(arguments, S) ==
      if Replayable(K, low, high) then Some(ReplayOutputText(Printed(K, S, low, high, before))) else None
  {
  }

  /** Numbers printed as arguments arrive unchanged. */
  lemma ArgumentsArrive(arguments: seq<string>, S: nat, K: nat, low: nat, high: nat, before: int)
    requires K <= MAX_64 && low <= MAX_64 && high <= MAX_64 && Signed64(before)
    requires arguments == [Decimal(K), Decimal(low), Decimal(high), SignedDecimal(before)]
    ensures ReplayerText(arguments, S) ==
      if Replayable(K, low, high) then Some(ReplayOutputText(Printed(K, S, low, high, before))) else None
  {
    ParsedExactly(arguments[0], MAX_64, K);
    ParsedExactly(arguments[1], MAX_64, low);
    ParsedExactly(arguments[2], MAX_64, high);
    ParsedSignedExactly(arguments[3], INT64_LIMIT, before);
    ReplayerTextOf(arguments, S, K, low, high, before);
  }

  /** Every number of the replay of [low, high] stands on the one line that begins with its key. */
  ghost predicate StatesReplay(text: string, K: nat, S: nat, low: nat, high: nat, before: int) {
    && Stated(text, "K=", Decimal(K)) && Stated(text, "LOW=", Decimal(low)) && Stated(text, "HIGH=", Decimal(high))
    && Stated(text, "BEFORE=", SignedDecimal(before))
    && Stated(text, "DELTA_SUM=", SignedDecimal(FloorState(K, low, before, high) - before))
    && Stated(text, "AFTER=", SignedDecimal(FloorState(K, low, before, high)))
    && Stated(text, "U_INC_UPPER_NUM=", SignedDecimal(SignedSum(K, S, low, before, high + 1)))
    && Stated(text, "V_INC_UPPER_NUM=", SignedDecimal(AbsoluteSum(K, S, low, before, high + 1)))
    && Stated(text, "TOTAL_VARIATION=", SignedDecimal(VariationSum(K, low, before, high + 1)))
    && Stated(text, "WEIGHT_SCALE=", Decimal(S))
  }

  lemma PrintedNumbers(K: nat, S: nat, low: nat, high: nat, before: int, x: ReplayNumbers)
    requires x == Printed(K, S, low, high, before)
    ensures x.K == K && x.low == low && x.high == high && x.before == before && x.weightScale == S
    ensures x.after == FloorState(K, low, before, high) && x.deltaSum == x.after - before
    ensures x.signedUpper == SignedSum(K, S, low, before, high + 1)
    ensures x.absoluteUpper == AbsoluteSum(K, S, low, before, high + 1)
    ensures x.variation == VariationSum(K, low, before, high + 1)
  {
  }

  lemma PrintedStates(K: nat, S: nat, low: nat, high: nat, before: int, x: ReplayNumbers)
    requires x == Printed(K, S, low, high, before)
    ensures StatesReplay(ReplayOutputText(x), K, S, low, high, before)
  {
    PrintedNumbers(K, S, low, high, before, x);
    ReplayStates(x);
  }

  /** The text answers the arguments: they are numbers of a replay, and it states that replay. */
  ghost predicate Answers(arguments: seq<string>, S: nat, text: string) {
    && |arguments| == 4
    && var K, low := Parsed(arguments[0], MAX_64), Parsed(arguments[1], MAX_64);
    && var high, before := Parsed(arguments[2], MAX_64), ParsedSigned(arguments[3], INT64_LIMIT);
    && K.Some? && low.Some? && high.Some? && before.Some? && Replayable(K.value, low.value, high.value)
    && StatesReplay(text, K.value, S, low.value, high.value, before.value)
  }

  /** The replayer as a program: arguments are parsed, replayed and printed. */
  method RunReplayer(arguments: seq<string>, S: nat) returns (stdout: Option<string>)
    requires S <= SCALE_LIMIT
    ensures stdout == ReplayerText(arguments, S)
    ensures stdout.Some? ==> Answers(arguments, S, stdout.value)
  {
    if |arguments| != 4 {
      return None;
    }
    var K := ParseUint64(arguments[0]);
    var low := ParseUint64(arguments[1]);
    var high := ParseUint64(arguments[2]);
    var before := ParseSignedArgument(arguments[3]);
    if K.None? || low.None? || high.None? || before.None? {
      return None;
    }
    ReplayerTextOf(arguments, S, K.value, low.value, high.value, before.value);
    ParsedSignedExactly(arguments[3], INT64_LIMIT, before.value);
    stdout := ReplayAndPrint(K.value, low.value, high.value, before.value, S);
    ghost var x := Printed(K.value, S, low.value, high.value, before.value);
    PrintedStates(K.value, S, low.value, high.value, before.value, x);
  }

  method ReplayAndPrint(K: nat, low: nat, high: nat, before: int, S: nat) returns (stdout: Option<string>)
    requires S <= SCALE_LIMIT && low <= MAX_64 && high <= MAX_64 && Signed64(before)
    ensures stdout ==
      if Replayable(K, low, high) then Some(ReplayOutputText(Printed(K, S, low, high, before))) else None
  {
    var replay := Replayer.Replay(K, low, high, before, S);
    if replay.Failure? {
      return None;
    }
    AggregatesNonnegative(K, S, low, high, before);
    var output := replay.value;
    var sums := output.aggregates;
    stdout := Some(ReplayOutputText(ReplayNumbers(
      output.K, output.low, output.high, output.before, output.deltaSum, sums.after, sums.signedUpper,
      sums.absoluteUpper, sums.variation, output.weightScale)));
  }

  // ---- One row ------------------------------------------------------------------------

  /** The row's numbers, with this variation, are what the recurrence gives from its incoming state. */
  predicate RowCorrect(p: Profile, c: Chunk, variation: nat) {
    && Replayable(p.K, c.low, c.high) && variation <= MAX_64
    && Aggregates(c.after, c.signedUpper, c.absoluteUpper, variation)
       == ChunkAggregates(p.K, p.weightScale, c.low, c.high, c.before)
  }

  /** The text the row's replay printed, if it succeeded. */
  function ReplayOfRow(p: Profile, c: Chunk): Option<string> {
    if Replayable(p.K, c.low, c.high) then
      Some(ReplayOutputText(Printed(p.K, p.weightScale, c.low, c.high, c.before)))
    else None
  }

  /** Equal texts force equal numbers, so the text comparison decides whether the row is right. */
  lemma TextDecides(p: Profile, c: Chunk, variation: nat)
    ensures variation <= MAX_64 && ReplayOfRow(p, c) == Some(ExpectedReplay(p, c, variation)) <==>
      RowCorrect(p, c, variation)
  {
    if Replayable(p.K, c.low, c.high) {
      var printed := Printed(p.K, p.weightScale, c.low, c.high, c.before);
      if ReplayOutputText(printed) == ExpectedReplay(p, c, variation) {
        TextDeterminesNumbers(printed, NumbersOf(p, c, variation));
      }
    }
  }

  /** What one worker does with a row: print the arguments, run the replayer, check its text. */
  method ReplayRow(p: Profile, c: Chunk) returns (stdout: string, variation: Option<nat>)
    requires WireRange(c) && p.weightScale <= SCALE_LIMIT && p.K <= MAX_64
    ensures variation.Some? ==> ReplayOfRow(p, c) == Some(stdout)
    ensures forall v: nat :: variation == Some(v) <==> RowCorrect(p, c, v)
  {
    stdout := "";
    var K := ToString(p.K);
    var low := ToString(c.low);
    var high := ToString(c.high);
    var before := ToSignedString(c.before);
    var output := RunReplayer([K, low, high, before], p.weightScale);
    ArgumentsArrive([K, low, high, before], p.weightScale, p.K, c.low, c.high, c.before);
    forall v: nat
      ensures v <= MAX_64 && ReplayOfRow(p, c) == Some(ExpectedReplay(p, c, v)) <==> RowCorrect(p, c, v)
    {
      TextDecides(p, c, v);
    }
    if output.None? {
      return stdout, None;
    }
    stdout := output.value;
    variation := ValidateReplay(p, c, stdout, "");
  }

  // ---- Reading the observations back ----------------------------------------------------

  function Total(values: seq<nat>): nat {
    if values == [] then 0 else Total(values[..|values| - 1]) + values[|values| - 1]
  }

  lemma TotalAppend(values: seq<nat>, value: nat)
    ensures Total(values + [value]) == Total(values) + value
  {
    assert (values + [value])[..|values|] == values;
  }

  lemma {:induction false} TotalPrefix(values: seq<nat>, i: nat)
    requires i <= |values|
    ensures Total(values[..i]) <= Total(values)
    decreases |values|
  {
    if i == |values| {
      assert values[..i] == values;
    } else {
      TotalPrefix(values[..|values| - 1], i);
      assert values[..|values| - 1][..i] == values[..i];
    }
  }

  /** What a child process left in its two files. */
  datatype Captured = Captured(stdout: string, stderr: string)

  predicate Prints(p: Profile, c: Chunk, output: Captured, variation: nat) {
    output.stderr == "" && variation <= MAX_64 && output.stdout == ExpectedReplay(p, c, variation)
  }

  /** Each row's retained output is the one it must print with its variation. */
  ghost predicate Observed(p: Profile, rows: seq<Chunk>, outputs: seq<Captured>, variations: seq<nat>) {
    && |variations| == |rows| <= |outputs|
    && forall i | 0 <= i < |rows| :: Prints(p, rows[i], outputs[i], variations[i])
  }

  /** The variations with which the retained replays pass. */
  ghost predicate Passes(p: Profile, rows: seq<Chunk>, outputs: seq<Captured>, variations: seq<nat>) {
    Observed(p, rows, outputs, variations) && Total(variations) == p.variationTarget
  }

  /** Any passing variations begin with these. */
  ghost predicate Pinned(p: Profile, rows: seq<Chunk>, outputs: seq<Captured>, seen: seq<nat>) {
    |seen| <= |rows| && forall full | Passes(p, rows, outputs, full) :: seen == full[..|seen|]
  }

  lemma PrefixTotal(seen: seq<nat>, full: seq<nat>)
    requires |seen| < |full| && seen == full[..|seen|]
    ensures seen + [full[|seen|]] == full[..|seen| + 1]
    ensures Total(seen) + full[|seen|] <= Total(full)
  {
    assert seen + [full[|seen|]] == full[..|seen| + 1];
    TotalAppend(seen, full[|seen|]);
    TotalPrefix(full, |seen| + 1);
  }

  lemma PassesAt(p: Profile, rows: seq<Chunk>, outputs: seq<Captured>, full: seq<nat>, i: nat)
    requires Passes(p, rows, outputs, full) && i < |rows|
    ensures |full| == |rows| <= |outputs| && Total(full) == p.variationTarget
    ensures Prints(p, rows[i], outputs[i], full[i])
  {
  }

  /** What the next row's check means for the variations with which the rest can pass. */
  lemma PinStep(p: Profile, rows: seq<Chunk>, outputs: seq<Captured>, seen: seq<nat>, variation: Option<nat>,
                c: Chunk, output: Captured, full: seq<nat>)
    requires Passes(p, rows, outputs, full) && |seen| < |rows| <= |outputs| && seen == full[..|seen|]
    requires c == rows[|seen|] && output == outputs[|seen|]
    requires forall v: nat :: variation == Some(v) <==> Prints(p, c, output, v)
    ensures variation.Some? && Total(seen) + variation.value <= p.variationTarget
    ensures seen + [variation.value] == full[..|seen| + 1]
  {
    PassesAt(p, rows, outputs, full, |seen|);
    PrefixTotal(seen, full);
  }

  lemma ObservedAppend(p: Profile, rows: seq<Chunk>, outputs: seq<Captured>, seen: seq<nat>, v: nat)
    requires |seen| < |rows| <= |outputs| && Observed(p, rows[..|seen|], outputs, seen)
    requires Prints(p, rows[|seen|], outputs[|seen|], v)
    ensures Observed(p, rows[..|seen| + 1], outputs, seen + [v])
  {
  }

  /** What is known after some rows. */
  ghost predicate SeenSoFar(p: Profile, rows: seq<Chunk>, outputs: seq<Captured>, seen: seq<nat>) {
    && |seen| <= |rows| <= |outputs| && Observed(p, rows[..|seen|], outputs, seen)
    && Pinned(p, rows, outputs, seen) && Total(seen) <= MAX_64
  }

  lemma NothingSeen(p: Profile, rows: seq<Chunk>, outputs: seq<Captured>)
    requires |rows| <= |outputs|
    ensures SeenSoFar(p, rows, outputs, []) && Total([]) == 0
  {
  }

  lemma SeenStep(p: Profile, rows: seq<Chunk>, outputs: seq<Captured>, seen: seq<nat>, variation: Option<nat>)
    requires SeenSoFar(p, rows, outputs, seen) && |seen| < |rows|
    requires forall v: nat :: variation == Some(v) <==> Prints(p, rows[|seen|], outputs[|seen|], v)
    ensures variation.Some? && Total(seen) + variation.value <= MAX_64 ==>
      SeenSoFar(p, rows, outputs, seen + [variation.value])
    ensures variation.None? || Total(seen) + variation.value > p.variationTarget ==>
      forall full :: !Passes(p, rows, outputs, full)
  {
    forall full | Passes(p, rows, outputs, full)
      ensures variation.Some? && Total(seen) + variation.value <= p.variationTarget
      ensures seen + [variation.value] == full[..|seen| + 1]
    {
      PinStep(p, rows, outputs, seen, variation, rows[|seen|], outputs[|seen|], full);
    }
    if variation.Some? {
      ObservedAppend(p, rows, outputs, seen, variation.value);
      TotalAppend(seen, variation.value);
    }
  }

  lemma SeenAll(p: Profile, rows: seq<Chunk>, outputs: seq<Captured>, seen: seq<nat>)
    requires SeenSoFar(p, rows, outputs, seen) && |seen| == |rows|
    ensures Observed(p, rows, outputs, seen)
    ensures forall full | Passes(p, rows, outputs, full) :: full == seen
  {
    assert rows[..|rows|] == rows;
    forall full | Passes(p, rows, outputs, full)
      ensures full == seen
    {
      assert full[..|seen|] == full;
    }
  }

  /** The retained replays pass exactly when every output is its row's and the variations add up. */
  method ReadReplayObservations(p: Profile, rows: seq<Chunk>, outputs: seq<Captured>) returns (r: Option<seq<nat>>)
    requires |outputs| == |rows| && p.variationTarget <= MAX_64
    ensures forall full :: r == Some(full) <==> Passes(p, rows, outputs, full)
  {
    var seen: seq<nat> := [];
    var total := 0;
    NothingSeen(p, rows, outputs);
    for index := 0 to |rows|
      invariant |seen| == index && total == Total(seen) && SeenSoFar(p, rows, outputs, seen)
    {
      var variation := CheckOutput(p, rows[index], outputs[index]);
      SeenStep(p, rows, outputs, seen, variation);
      if variation.None? || variation.value > MAX_64 - total {
        return None;
      }
      TotalAppend(seen, variation.value);
      seen := seen + [variation.value];
      total := total + variation.value;
    }
    SeenAll(p, rows, outputs, seen);
    r := if total == p.variationTarget then Some(seen) else None;
  }

  method CheckOutput(p: Profile, c: Chunk, output: Captured) returns (variation: Option<nat>)
    ensures forall v: nat :: variation == Some(v) <==> Prints(p, c, output, v)
  {
    variation := ValidateReplay(p, c, output.stdout, output.stderr);
  }

  // ---- Acceptance implies the recurrence ---------------------------------------------------

  function RowOf(c: Chunk, variation: nat): ChunkRow {
    ChunkRow(c.low, c.high, c.before, Aggregates(c.after, c.signedUpper, c.absoluteUpper, variation))
  }

  /** The rows with their variations, as a chunk table. */
  function TableOf(rows: seq<Chunk>, variations: seq<nat>): (table: seq<ChunkRow>)
    requires |rows| == |variations|
    ensures |table| == |rows|
    ensures forall i | 0 <= i < |rows| :: table[i] == RowOf(rows[i], variations[i])
  {
    if rows == [] then []
    else TableOf(rows[..|rows| - 1], variations[..|rows| - 1]) + [RowOf(rows[|rows| - 1], variations[|rows| - 1])]
  }

  predicate RowsCorrect(p: Profile, rows: seq<Chunk>, variations: seq<nat>) {
    |rows| == |variations| && forall i | 0 <= i < |rows| :: RowCorrect(p, rows[i], variations[i])
  }

  lemma RowReplays(p: Profile, c: Chunk, variation: nat)
    requires RowCorrect(p, c, variation)
    ensures RowOf(c, variation).aggregates == ChunkAggregates(p.K, p.weightScale, c.low, c.high, c.before)
  {
  }

  lemma TableReplays(p: Profile, rows: seq<Chunk>, variations: seq<nat>)
    requires RowsCorrect(p, rows, variations)
    ensures RowsReplay(p.K, p.weightScale, TableOf(rows, variations))
  {
    var table := TableOf(rows, variations);
    forall i | 0 <= i < |table|
      ensures table[i].aggregates
        == ChunkAggregates(p.K, p.weightScale, table[i].low, table[i].high, table[i].before)
    {
      RowReplays(p, rows[i], variations[i]);
    }
  }

  lemma TableTotalsStep(table: seq<ChunkRow>, row: ChunkRow)
    ensures TotalSigned(table + [row]) == TotalSigned(table) + row.aggregates.signedUpper
    ensures TotalAbsolute(table + [row]) == TotalAbsolute(table) + row.aggregates.absoluteUpper
    ensures TotalVariation(table + [row]) == TotalVariation(table) + row.aggregates.variation
  {
    assert (table + [row])[..|table|] == table;
  }

  /** A connected table of correct rows is threaded, and its totals are the artifact's. */
  lemma {:induction false} TableThreads(p: Profile, rows: seq<Chunk>, variations: seq<nat>)
    requires Connected(p, rows) && RowsCorrect(p, rows, variations)
    ensures Threaded(TableOf(rows, variations), ExpectedLow(rows))
    ensures EndState(TableOf(rows, variations)) == ExpectedBefore(rows)
    ensures TotalSigned(TableOf(rows, variations)) == SignedTotal(rows)
    ensures TotalAbsolute(TableOf(rows, variations)) == AbsoluteTotal(rows)
    ensures TotalVariation(TableOf(rows, variations)) == Total(variations)
  {
    if rows == [] {
    } else {
      var last := |rows| - 1;
      var table := TableOf(rows[..last], variations[..last]);
      var row := RowOf(rows[last], variations[last]);
      TableThreads(p, rows[..last], variations[..last]);
      assert RowCorrect(p, rows[last], variations[last]);
      ThreadedAppend(table, row);
      TableTotalsStep(table, row);
    }
  }

  /** ACCEPTANCE IMPLIES THE RECURRENCE. Once the artifact is accepted and every row's replay printed
      the row with some variation, each row enters and leaves with the true state, and the serial
      recurrence over [1, N] has exactly the target state and totals. */
  lemma AcceptanceIsRecurrence(p: Profile, rows: seq<Chunk>, variations: seq<nat>)
    requires Acceptable(p, rows) && RowsCorrect(p, rows, variations) && Total(variations) == p.variationTarget
    ensures forall i | 0 <= i < |rows| ::
      rows[i].before == SerialState(p.K, rows[i].low - 1) && rows[i].after == SerialState(p.K, rows[i].high)
    ensures SerialState(p.K, p.N) == p.finalState
    ensures SignedSum(p.K, p.weightScale, 1, 0, p.N + 1) == p.signedTarget
    ensures AbsoluteSum(p.K, p.weightScale, 1, 0, p.N + 1) == p.absoluteTarget
    ensures VariationSum(p.K, 1, 0, p.N + 1) == p.variationTarget
  {
    var table := TableOf(rows, variations);
    TableThreads(p, rows, variations);
    TableReplays(p, rows, variations);
    PartitionIsSerial(p.K, p.weightScale, table, p.N + 1);
    forall i | 0 <= i < |rows|
      ensures rows[i].before == SerialState(p.K, rows[i].low - 1) && rows[i].after == SerialState(p.K, rows[i].high)
    {
      PartitionStates(p.K, p.weightScale, table, p.N + 1, i, table[i]);
    }
  }

  // ---- The recurrence is accepted ------------------------------------------------------------

  /** The rows are the grid's blocks, with the true states, sums and variations. */
  ghost predicate TrueTable(p: Profile, rows: seq<Chunk>, variations: seq<nat>) {
    && |rows| == |variations|
    && (rows != [] ==>
          var last := |rows| - 1;
          && TrueTable(p, rows[..last], variations[..last])
          && WireRange(rows[last]) && RowCorrect(p, rows[last], variations[last])
          && rows[last].low == ExpectedLow(rows[..last])
          && rows[last].high + 1 == Lesser(p.N + 1, rows[last].low + p.blockSize)
          && rows[last].before == SerialState(p.K, rows[last].low - 1))
  }

  /** A range in which the aggregates fit their words. */
  predicate Computable(p: Profile) {
    Sensible(p) && 1 <= p.K <= INT32_MAX && p.weightScale <= SCALE_LIMIT
  }

  lemma TotalsFit(p: Profile, end: nat)
    requires Computable(p) && 1 <= end <= p.N + 1
    ensures Signed128(SignedSum(p.K, p.weightScale, 1, 0, end))
    ensures AbsoluteSum(p.K, p.weightScale, 1, 0, end) < TWO_128
  {
    AbelBounds.SignedFits(p.K, p.weightScale, 1, 0, end);
    AbelBounds.AbsoluteFits(p.K, p.weightScale, 1, 0, end);
  }

  /** One true row after the serial totals up to it. */
  lemma TrueStep(p: Profile, rows: seq<Chunk>, c: Chunk, variation: nat)
    requires Computable(p) && RowCorrect(p, c, variation)
    requires c.low == ExpectedLow(rows) && c.high + 1 == Lesser(p.N + 1, c.low + p.blockSize)
    requires c.before == SerialState(p.K, c.low - 1) == ExpectedBefore(rows)
    requires SignedTotal(rows) == SignedSum(p.K, p.weightScale, 1, 0, c.low)
    requires AbsoluteTotal(rows) == AbsoluteSum(p.K, p.weightScale, 1, 0, c.low)
    ensures Continues(p, rows, c) && c.after == SerialState(p.K, c.high)
    ensures SignedTotal(rows) + c.signedUpper == SignedSum(p.K, p.weightScale, 1, 0, c.high + 1)
    ensures AbsoluteTotal(rows) + c.absoluteUpper == AbsoluteSum(p.K, p.weightScale, 1, 0, c.high + 1)
  {
    TrueRowExtends(p, c, variation);
    TotalsFit(p, c.high + 1);
  }

  lemma TrueRowExtends(p: Profile, c: Chunk, variation: nat)
    requires RowCorrect(p, c, variation) && c.before == SerialState(p.K, c.low - 1)
    ensures 1 <= c.low <= c.high && c.after == SerialState(p.K, c.high)
    ensures SignedSum(p.K, p.weightScale, 1, 0, c.low) + c.signedUpper
      == SignedSum(p.K, p.weightScale, 1, 0, c.high + 1)
    ensures AbsoluteSum(p.K, p.weightScale, 1, 0, c.low) + c.absoluteUpper
      == AbsoluteSum(p.K, p.weightScale, 1, 0, c.high + 1)
  {
    CorrectParts(p, c, variation);
    ScanContinuesSerial(p.K, c.low, c.before, c.high);
    SignedExtends(p.K, p.weightScale, c.low, c.high + 1, c.before);
    AbsoluteExtends(p.K, p.weightScale, c.low, c.high + 1, c.before);
  }

  lemma CorrectParts(p: Profile, c: Chunk, variation: nat)
    requires RowCorrect(p, c, variation)
    ensures 1 <= c.low <= c.high && c.after == FloorState(p.K, c.low, c.before, c.high)
    ensures c.signedUpper == SignedSum(p.K, p.weightScale, c.low, c.before, c.high + 1)
    ensures c.absoluteUpper == AbsoluteSum(p.K, p.weightScale, c.low, c.before, c.high + 1)
  {
  }

  lemma TrueTableLast(p: Profile, rows: seq<Chunk>, variations: seq<nat>, last: nat)
    requires TrueTable(p, rows, variations) && |rows| == last + 1
    ensures |variations| == |rows| && TrueTable(p, rows[..last], variations[..last])
    ensures var front, c := rows[..last], rows[last];
      && rows == front + [c] && WireRange(c) && RowCorrect(p, c, variations[last]) && c.low == ExpectedLow(front)
      && c.high + 1 == Lesser(p.N + 1, c.low + p.blockSize) && c.before == SerialState(p.K, c.low - 1)
  {
    assert rows == rows[..last] + [rows[last]];
  }

  lemma TrueTableExtends(p: Profile, front: seq<Chunk>, c: Chunk, variation: nat, rows: seq<Chunk>)
    requires Computable(p) && WireRange(c) && RowCorrect(p, c, variation) && rows == front + [c]
    requires c.low == ExpectedLow(front) && c.high + 1 == Lesser(p.N + 1, c.low + p.blockSize)
    requires c.before == SerialState(p.K, c.low - 1) == ExpectedBefore(front) && Connected(p, front)
    requires SignedTotal(front) == SignedSum(p.K, p.weightScale, 1, 0, c.low)
    requires AbsoluteTotal(front) == AbsoluteSum(p.K, p.weightScale, 1, 0, c.low)
    ensures Connected(p, rows) && ExpectedBefore(rows) == SerialState(p.K, ExpectedLow(rows) - 1)
    ensures SignedTotal(rows) == SignedSum(p.K, p.weightScale, 1, 0, ExpectedLow(rows))
    ensures AbsoluteTotal(rows) == AbsoluteSum(p.K, p.weightScale, 1, 0, ExpectedLow(rows))
  {
    TrueStep(p, front, c, variation);
    TableStep(p, front, c);
  }

  lemma {:induction false} TrueTableConnects(p: Profile, rows: seq<Chunk>, variations: seq<nat>)
    requires Computable(p) && TrueTable(p, rows, variations)
    ensures Connected(p, rows) && ExpectedBefore(rows) == SerialState(p.K, ExpectedLow(rows) - 1)
    ensures SignedTotal(rows) == SignedSum(p.K, p.weightScale, 1, 0, ExpectedLow(rows))
    ensures AbsoluteTotal(rows) == AbsoluteSum(p.K, p.weightScale, 1, 0, ExpectedLow(rows))
  {
    if rows == [] {
    } else {
      var last := |rows| - 1;
      var front, c := rows[..last], rows[last];
      TrueTableLast(p, rows, variations, last);
      TrueTableConnects(p, front, variations[..last]);
      TrueTableExtends(p, front, c, variations[last], rows);
    }
  }

  /** THE RECURRENCE IS ACCEPTED. With the true targets, the table of true rows is an acceptable artifact. */
  lemma RecurrenceIsAccepted(p: Profile, rows: seq<Chunk>, variations: seq<nat>)
    requires Computable(p) && TrueTable(p, rows, variations)
    requires |rows| == p.rowCount && ExpectedLow(rows) == p.N + 1
    requires p.finalState == SerialState(p.K, p.N)
    requires p.signedTarget == SignedSum(p.K, p.weightScale, 1, 0, p.N + 1)
    requires p.absoluteTarget == AbsoluteSum(p.K, p.weightScale, 1, 0, p.N + 1)
    ensures Acceptable(p, rows)
  {
    TrueTableConnects(p, rows, variations);
  }
}
