/** Whole artifacts: what the workload writes and the terminal accepts
    (reference/tg_cdem_abel_measured_workload.cpp, lines 412-433;
    reference/tg_cdem_abel_artifact_terminal.cpp, lines 103-117 and 342-410). */
module ArtifactFrame {
  import opened Outcomes
  import opened Numbers
  import opened MachineWords
  import opened AbelRecurrence
  import opened ArtifactCodec

  /** One row of an artifact. */
  datatype Chunk = Chunk(low: nat, high: nat, before: int, after: int, signedUpper: int, absoluteUpper: nat)

  /** The constants both programs are compiled with. */
  datatype Profile = Profile(
    header: seq<byte>, K: nat, N: nat, blockSize: nat, weightScale: nat, rowCount: nat, finalState: int,
    signedTarget: nat, absoluteTarget: nat, variationTarget: nat)

  predicate Sensible(p: Profile) {
    && p.blockSize >= 1 && p.N + p.blockSize < TWO_64 && p.rowCount < TWO_32
    && p.signedTarget < TWO_128 && p.absoluteTarget < TWO_128
  }

  predicate Unsigned64(value: nat) {
    value < TWO_64
  }

  /** Every field fits its machine word. */
  predicate WireRange(c: Chunk) {
    && Unsigned64(c.low) && Unsigned64(c.high) && Signed64(c.before) && Signed64(c.after)
    && Signed128(c.signedUpper) && c.absoluteUpper < TWO_128
  }

  // ---- The frame -----------------------------------------------------------------

  // The six fields of a row and the bytes before each.

  function FieldsFrom3(c: Chunk): (bytes: seq<byte>)
    ensures |bytes| == 98
  {
    Integer256(c.after) + (Integer256(c.signedUpper) + Natural256(c.absoluteUpper))
  }

  function RowBytes(c: Chunk): (bytes: seq<byte>)
    ensures |bytes| == ROW_BYTES
  {
    Natural256(c.low) + (Natural256(c.high) + (Integer256(c.before) + FieldsFrom3(c)))
  }

  function RowsBytes(rows: seq<Chunk>): (bytes: seq<byte>)
    ensures |bytes| == ROW_BYTES * |rows|
  {
    if rows == [] then [] else RowsBytes(rows[..|rows| - 1]) + RowBytes(rows[|rows| - 1])
  }

  const FIXED_BYTES: nat := 68

  /** Header, targets and row count. */
  function Preamble(p: Profile): (bytes: seq<byte>)
    ensures |bytes| == |p.header| + FIXED_BYTES
  {
    p.header + (Natural256(p.signedTarget) + (Natural256(p.absoluteTarget) + LittleEndian(p.rowCount, 4)))
  }

  function ArtifactBytes(p: Profile, rows: seq<Chunk>): seq<byte> {
    Preamble(p) + RowsBytes(rows)
  }

  // ---- What an artifact must satisfy -----------------------------------------------

  function ExpectedLow(rows: seq<Chunk>): nat {
    if rows == [] then 1 else rows[|rows| - 1].high + 1
  }

  function ExpectedBefore(rows: seq<Chunk>): int {
    if rows == [] then 0 else rows[|rows| - 1].after
  }

  function SignedTotal(rows: seq<Chunk>): int {
    if rows == [] then 0 else SignedTotal(rows[..|rows| - 1]) + rows[|rows| - 1].signedUpper
  }

  function AbsoluteTotal(rows: seq<Chunk>): nat {
    if rows == [] then 0 else AbsoluteTotal(rows[..|rows| - 1]) + rows[|rows| - 1].absoluteUpper
  }

  /** The running values of a check that has gone through these rows. */
  predicate Tracks(
    rows: seq<Chunk>, expectedLow: nat, expectedBefore: int, signedTotal: int, absoluteTotal: nat) {
    && expectedLow == ExpectedLow(rows) && expectedBefore == ExpectedBefore(rows)
    && signedTotal == SignedTotal(rows) && absoluteTotal == AbsoluteTotal(rows)
  }

  /** The row continues the grid, the states and the totals of the rows before it. */
  predicate Continues(p: Profile, rows: seq<Chunk>, c: Chunk) {
    && c.low == ExpectedLow(rows)
    && c.high + 1 == Lesser(p.N + 1, c.low + p.blockSize)
    && c.before == ExpectedBefore(rows)
    && Signed128(SignedTotal(rows) + c.signedUpper)
    && AbsoluteTotal(rows) + c.absoluteUpper < TWO_128
  }

  predicate Connected(p: Profile, rows: seq<Chunk>) {
    rows != [] ==>
      && Connected(p, rows[..|rows| - 1])
      && WireRange(rows[|rows| - 1])
      && Continues(p, rows[..|rows| - 1], rows[|rows| - 1])
  }

  /** The tables that pass as artifacts. */
  predicate Acceptable(p: Profile, rows: seq<Chunk>) {
    && |rows| == p.rowCount && Connected(p, rows)
    && ExpectedLow(rows) == p.N + 1 && ExpectedBefore(rows) == p.finalState
    && SignedTotal(rows) == p.signedTarget && AbsoluteTotal(rows) == p.absoluteTarget
  }

  // ---- Rows past the end ------------------------------------------------------------------

  /** An empty row at the end of the grid. */
  function EmptyRow(p: Profile, rows: seq<Chunk>, after: int): Chunk {
    Chunk(p.N + 1, p.N, ExpectedBefore(rows), after, 0, 0)
  }

  /** The row checks do not refuse an empty row once the endpoint is reached, whatever state it claims to
      leave: a profile with one row more, and any final state, accepts the padded table. */
  lemma EmptyRowAccepted(p: Profile, rows: seq<Chunk>, after: int)
    requires Sensible(p) && Acceptable(p, rows) && Signed64(after) && p.rowCount + 1 < TWO_32
    ensures var padded := p.(rowCount := p.rowCount + 1, finalState := after);
      Sensible(padded) && Acceptable(padded, rows + [EmptyRow(p, rows, after)])
  {
    var padded := p.(rowCount := p.rowCount + 1, finalState := after);
    SameConstants(p, padded, rows);
    TableStep(padded, rows, EmptyRow(p, rows, after));
  }

  lemma {:induction false} SameConstants(p: Profile, q: Profile, rows: seq<Chunk>)
    requires Connected(p, rows) && p.N == q.N && p.blockSize == q.blockSize
    ensures Connected(q, rows)
  {
    if rows == [] {
    } else {
      SameConstants(p, q, rows[..|rows| - 1]);
    }
  }

  lemma {:induction false} GridReached(p: Profile, rows: seq<Chunk>)
    requires p.blockSize >= 1 && Connected(p, rows)
    ensures ExpectedLow(rows) == Lesser(p.N + 1, |rows| * p.blockSize + 1)
  {
    if rows == [] {
    } else {
      var last := |rows| - 1;
      GridReached(p, rows[..last]);
      assert |rows| * p.blockSize == last * p.blockSize + p.blockSize;
    }
  }

  /** EXACTLY THE BLOCK COUNT. An acceptable table has an empty row unless the profile's row count is the
      number of blocks. */
  lemma RowsNonempty(p: Profile, rows: seq<Chunk>)
    requires Sensible(p) && Acceptable(p, rows)
    ensures (forall i | 0 <= i < |rows| :: rows[i].low <= rows[i].high) <==> p.rowCount == BlockCount(p.N, p.blockSize)
  {
    var count := BlockCount(p.N, p.blockSize);
    GridReached(p, rows);
    BlockInRange(|rows|, p.N, p.blockSize);
    assert |rows| >= count;
    if |rows| == count {
      forall i | 0 <= i < |rows|
        ensures rows[i].low <= rows[i].high
      {
        RowStarts(p, rows, i);
        BlockInRange(i, p.N, p.blockSize);
      }
    } else {
      RowStarts(p, rows, count);
      BlockInRange(count, p.N, p.blockSize);
      assert rows[count].low > rows[count].high;
    }
  }

  lemma RowStarts(p: Profile, rows: seq<Chunk>, i: nat)
    requires p.blockSize >= 1 && Connected(p, rows) && i < |rows|
    ensures rows[i].low == Lesser(p.N + 1, i * p.blockSize + 1)
    ensures rows[i].high + 1 == Lesser(p.N + 1, rows[i].low + p.blockSize)
  {
    ConnectedPrefix(p, rows, i);
    GridReached(p, rows[..i]);
  }

  // ---- Fields stand where the writer put them -----------------------------------------

  lemma AtConcat(bytes: seq<byte>, offset: nat, first: seq<byte>, rest: seq<byte>)
    ensures At(bytes, offset, first + rest) <==> At(bytes, offset, first) && At(bytes, offset + |first|, rest)
  {
    var whole := first + rest;
    if offset + |whole| <= |bytes| {
      var window := bytes[offset..offset + |whole|];
      assert window[..|first|] == bytes[offset..offset + |first|];
      assert window[|first|..] == bytes[offset + |first|..offset + |first| + |rest|];
      assert whole[..|first|] == first && whole[|first|..] == rest;
      assert window == window[..|first|] + window[|first|..];
    }
  }

  /** A row stands at an offset exactly when its six fields do. */
  lemma RowAt(bytes: seq<byte>, offset: nat, c: Chunk)
    ensures At(bytes, offset, RowBytes(c)) <==>
      && At(bytes, offset, Natural256(c.low))
      && At(bytes, offset + 32, Natural256(c.high))
      && At(bytes, offset + 64, Integer256(c.before))
      && At(bytes, offset + 97, Integer256(c.after))
      && At(bytes, offset + 130, Integer256(c.signedUpper))
      && At(bytes, offset + 163, Natural256(c.absoluteUpper))
  {
    AtConcat(bytes, offset, Natural256(c.low), Natural256(c.high) + (Integer256(c.before) + FieldsFrom3(c)));
    AtConcat(bytes, offset + 32, Natural256(c.high), Integer256(c.before) + FieldsFrom3(c));
    AtConcat(bytes, offset + 64, Integer256(c.before), FieldsFrom3(c));
    AtConcat(bytes, offset + 97, Integer256(c.after), Integer256(c.signedUpper) + Natural256(c.absoluteUpper));
    AtConcat(bytes, offset + 130, Integer256(c.signedUpper), Natural256(c.absoluteUpper));
  }

  lemma SameAt(bytes: seq<byte>, offset: nat, a: seq<byte>, b: seq<byte>)
    requires At(bytes, offset, a) && At(bytes, offset, b) && |a| == |b|
    ensures a == b
  {
  }

  /** At most one row stands at an offset. */
  lemma RowUnique(bytes: seq<byte>, offset: nat, a: Chunk, b: Chunk)
    requires WireRange(a) && WireRange(b)
    requires At(bytes, offset, RowBytes(a)) && At(bytes, offset, RowBytes(b))
    ensures a == b
  {
    RowAt(bytes, offset, a);
    RowAt(bytes, offset, b);
    SameAt(bytes, offset, Natural256(a.low), Natural256(b.low));
    SameAt(bytes, offset + 32, Natural256(a.high), Natural256(b.high));
    SameAt(bytes, offset + 64, Integer256(a.before), Integer256(b.before));
    SameAt(bytes, offset + 97, Integer256(a.after), Integer256(b.after));
    SameAt(bytes, offset + 130, Integer256(a.signedUpper), Integer256(b.signedUpper));
    SameAt(bytes, offset + 163, Natural256(a.absoluteUpper), Natural256(b.absoluteUpper));
    NaturalInjective(a.low, b.low);
    NaturalInjective(a.high, b.high);
    IntegerInjective(a.before, b.before);
    IntegerInjective(a.after, b.after);
    IntegerInjective(a.signedUpper, b.signedUpper);
    NaturalInjective(a.absoluteUpper, b.absoluteUpper);
  }

  lemma {:induction false} RowsAt(bytes: seq<byte>, start: nat, rows: seq<Chunk>, i: nat)
    requires At(bytes, start, RowsBytes(rows)) && i < |rows|
    ensures At(bytes, start + ROW_BYTES * i, RowBytes(rows[i]))
    decreases |rows|
  {
    var last := |rows| - 1;
    AtConcat(bytes, start, RowsBytes(rows[..last]), RowBytes(rows[last]));
    if last <= i {
    } else {
      RowsAt(bytes, start, rows[..last], i);
    }
  }

  // ---- The writer ---------------------------------------------------------------------

  lemma Regroup(a: seq<byte>, b: seq<byte>, c: seq<byte>)
    ensures (a + b) + c == a + (b + c)
  {
  }

  lemma PreambleInOrder(p: Profile)
    ensures Preamble(p)
      == ((p.header + Natural256(p.signedTarget)) + Natural256(p.absoluteTarget)) + LittleEndian(p.rowCount, 4)
  {
    Regroup(p.header + Natural256(p.signedTarget), Natural256(p.absoluteTarget), LittleEndian(p.rowCount, 4));
    Regroup(p.header, Natural256(p.signedTarget), Natural256(p.absoluteTarget) + LittleEndian(p.rowCount, 4));
  }

  lemma NoRowBytes(rows: seq<Chunk>)
    requires rows == []
    ensures RowsBytes(rows) == []
  {
  }

  lemma RowsBytesAppend(rows: seq<Chunk>, c: Chunk)
    ensures RowsBytes(rows + [c]) == RowsBytes(rows) + RowBytes(c)
  {
    assert (rows + [c])[..|rows|] == rows;
  }

  lemma WrittenStep(preamble: seq<byte>, rows: seq<Chunk>, i: nat)
    requires i < |rows|
    ensures preamble + RowsBytes(rows[..i + 1]) == (preamble + RowsBytes(rows[..i])) + RowBytes(rows[i])
  {
    assert rows[..i + 1] == rows[..i] + [rows[i]];
    RowsBytesAppend(rows[..i], rows[i]);
    Regroup(preamble, RowsBytes(rows[..i]), RowBytes(rows[i]));
  }

  lemma RowInOrder(prefix: seq<byte>, c: Chunk)
    ensures prefix + RowBytes(c)
      == (((((prefix + Natural256(c.low)) + Natural256(c.high)) + Integer256(c.before)) + Integer256(c.after))
          + Integer256(c.signedUpper)) + Natural256(c.absoluteUpper)
  {
    var upTo1 := prefix + Natural256(c.low);
    var upTo2 := upTo1 + Natural256(c.high);
    var upTo3 := upTo2 + Integer256(c.before);
    Regroup(prefix, Natural256(c.low), Natural256(c.high) + (Integer256(c.before) + FieldsFrom3(c)));
    Regroup(upTo1, Natural256(c.high), Integer256(c.before) + FieldsFrom3(c));
    Regroup(upTo2, Integer256(c.before), FieldsFrom3(c));
    Regroup(upTo3, Integer256(c.after), Integer256(c.signedUpper) + Natural256(c.absoluteUpper));
    Regroup(upTo3 + Integer256(c.after), Integer256(c.signedUpper), Natural256(c.absoluteUpper));
  }

  /** The workload writes exactly the frame of its rows. */
  method WriteArtifact(p: Profile, rows: seq<Chunk>) returns (bytes: seq<byte>)
    requires Sensible(p) && |rows| == p.rowCount && forall i | 0 <= i < |rows| :: WireRange(rows[i])
    ensures bytes == ArtifactBytes(p, rows)
  {
    var result := new Output(p.header);
    result.AppendNatural(p.signedTarget, NATURAL_BYTES);
    result.AppendNatural(p.absoluteTarget, NATURAL_BYTES);
    result.AppendNatural(|rows|, 4);
    PreambleInOrder(p);
    NoRowBytes(rows[..0]);
    for i := 0 to |rows|
      invariant fresh(result) && result.bytes == Preamble(p) + RowsBytes(rows[..i])
    {
      AppendRow(result, rows[i]);
      WrittenStep(Preamble(p), rows, i);
    }
    assert rows[..|rows|] == rows;
    bytes := result.bytes;
  }

  method AppendRow(output: Output, c: Chunk)
    requires WireRange(c)
    modifies output
    ensures output.bytes == old(output.bytes) + RowBytes(c)
  {
    RowInOrder(output.bytes, c);
    output.AppendNatural(c.low, NATURAL_BYTES);
    output.AppendNatural(c.high, NATURAL_BYTES);
    output.AppendInteger256(c.before);
    output.AppendInteger256(c.after);
    output.AppendInteger256(c.signedUpper);
    output.AppendNatural(c.absoluteUpper, NATURAL_BYTES);
  }

  // ---- The reader ---------------------------------------------------------------------

  function CheckedAddSigned(total: int, addend: int): (r: Option<int>)
    requires Signed128(total) && Signed128(addend)
    ensures r == if Signed128(total + addend) then Some(total + addend) else None
  {
    var maximum: int := INT128_LIMIT - 1;
    var minimum := -maximum - 1;
    if (addend > 0 && total > maximum - addend) || (addend < 0 && total < minimum - addend) then None
    else Some(total + addend)
  }

  function CheckedAddUnsigned(total: nat, addend: nat): (r: Option<nat>)
    requires total < TWO_128 && addend < TWO_128
    ensures r == if total + addend < TWO_128 then Some(total + addend) else None
  {
    if total > MAX_128 - addend then None else Some(total + addend)
  }

  method ReadRow(bytes: seq<byte>, offset: nat) returns (r: Option<Chunk>)
    ensures r.Some? ==> WireRange(r.value) && At(bytes, offset, RowBytes(r.value))
    ensures r.None? ==> forall c | WireRange(c) :: !At(bytes, offset, RowBytes(c))
  {
    forall c: Chunk
      ensures At(bytes, offset, RowBytes(c)) ==>
        && At(bytes, offset, Natural256(c.low))
        && At(bytes, offset + 32, Natural256(c.high))
        && At(bytes, offset + 64, Integer256(c.before))
        && At(bytes, offset + 97, Integer256(c.after))
        && At(bytes, offset + 130, Integer256(c.signedUpper))
        && At(bytes, offset + 163, Natural256(c.absoluteUpper))
    {
      RowAt(bytes, offset, c);
    }
    var low := ReadNatural64(bytes, offset);
    if low.None? { return None; }
    var high := ReadNatural64(bytes, offset + 32);
    if high.None? { return None; }
    var before := ReadInteger64(bytes, offset + 64);
    if before.None? { return None; }
    var after := ReadInteger64(bytes, offset + 97);
    if after.None? { return None; }
    var signedUpper := ReadInteger128(bytes, offset + 130);
    if signedUpper.None? { return None; }
    var absoluteUpper := ReadNatural128(bytes, offset + 163);
    if absoluteUpper.None? { return None; }
    var c := Chunk(low.value, high.value, before.value, after.value, signedUpper.value, absoluteUpper.value);
    RowAt(bytes, offset, c);
    r := Some(c);
  }

  /** The bytes are those of an acceptable table. */
  ghost predicate Describes(p: Profile, bytes: seq<byte>, rows: seq<Chunk>) {
    Acceptable(p, rows) && bytes == ArtifactBytes(p, rows)
  }

  /** Any table the bytes describe begins with these rows. */
  ghost predicate Forced(p: Profile, bytes: seq<byte>, rows: seq<Chunk>) {
    forall full | Describes(p, bytes, full) :: |rows| <= |full| && full[..|rows|] == rows
  }

  ghost predicate Hopeless(p: Profile, bytes: seq<byte>) {
    forall full :: !Describes(p, bytes, full)
  }

  lemma {:induction false} ConnectedPrefix(p: Profile, rows: seq<Chunk>, i: nat)
    requires Connected(p, rows) && i < |rows|
    ensures Connected(p, rows[..i]) && WireRange(rows[i]) && Continues(p, rows[..i], rows[i])
    decreases |rows|
  {
    var last := |rows| - 1;
    if last <= i {
    } else {
      ConnectedPrefix(p, rows[..last], i);
      assert rows[..last][..i] == rows[..i];
    }
  }

  /** The described table's next row stands at the next offset and continues the rows so far. */
  lemma NextRow(p: Profile, bytes: seq<byte>, rows: seq<Chunk>, full: seq<Chunk>)
    requires Describes(p, bytes, full) && |rows| < |full| && full[..|rows|] == rows
    ensures WireRange(full[|rows|]) && Continues(p, rows, full[|rows|])
    ensures At(bytes, |p.header| + FIXED_BYTES + ROW_BYTES * |rows|, RowBytes(full[|rows|]))
  {
    ConnectedPrefix(p, full, |rows|);
    var start := |Preamble(p)|;
    assert bytes[start..start + |RowsBytes(full)|] == RowsBytes(full);
    RowsAt(bytes, start, full, |rows|);
  }

  lemma ForcedRow(p: Profile, bytes: seq<byte>, rows: seq<Chunk>, c: Chunk, full: seq<Chunk>)
    requires Describes(p, bytes, full) && |rows| < |full| && full[..|rows|] == rows && WireRange(c)
    requires At(bytes, |p.header| + FIXED_BYTES + ROW_BYTES * |rows|, RowBytes(c))
    ensures full[|rows|] == c && full[..|rows| + 1] == rows + [c] && Continues(p, rows, c)
  {
    NextRow(p, bytes, rows, full);
    RowUnique(bytes, |p.header| + FIXED_BYTES + ROW_BYTES * |rows|, full[|rows|], c);
  }

  lemma ForcedStep(p: Profile, bytes: seq<byte>, rows: seq<Chunk>, c: Chunk)
    requires Forced(p, bytes, rows) && |rows| < p.rowCount && WireRange(c)
    requires At(bytes, |p.header| + FIXED_BYTES + ROW_BYTES * |rows|, RowBytes(c))
    ensures Forced(p, bytes, rows + [c])
    ensures !Continues(p, rows, c) ==> Hopeless(p, bytes)
  {
    forall full | Describes(p, bytes, full)
      ensures |rows| < |full| && full[..|rows| + 1] == rows + [c] && Continues(p, rows, c)
    {
      ForcedRow(p, bytes, rows, c, full);
    }
  }

  lemma NoRowHopeless(p: Profile, bytes: seq<byte>, rows: seq<Chunk>)
    requires Forced(p, bytes, rows) && |rows| < p.rowCount
    requires forall c | WireRange(c) :: !At(bytes, |p.header| + FIXED_BYTES + ROW_BYTES * |rows|, RowBytes(c))
    ensures Hopeless(p, bytes)
  {
    forall full | Describes(p, bytes, full)
      ensures false
    {
      NextRow(p, bytes, rows, full);
    }
  }

  /** The preamble the reader requires is the writer's. */
  lemma PreambleAt(p: Profile, bytes: seq<byte>)
    requires |bytes| >= |p.header| + FIXED_BYTES
    ensures var h := |p.header|;
      bytes[..h + FIXED_BYTES] == Preamble(p) <==>
        && bytes[..h] == p.header
        && At(bytes, h, Natural256(p.signedTarget))
        && At(bytes, h + 32, Natural256(p.absoluteTarget))
        && At(bytes, h + 64, LittleEndian(p.rowCount, 4))
  {
    var h := |p.header|;
    var signed, absolute := Natural256(p.signedTarget), Natural256(p.absoluteTarget);
    var count := LittleEndian(p.rowCount, 4);
    AtConcat(bytes, 0, p.header, signed + (absolute + count));
    AtConcat(bytes, h, signed, absolute + count);
    AtConcat(bytes, h + 32, absolute, count);
    assert bytes[0..h] == bytes[..h];
    assert bytes[0..h + FIXED_BYTES] == bytes[..h + FIXED_BYTES];
  }

  lemma DescribedPreamble(p: Profile, bytes: seq<byte>, full: seq<Chunk>)
    requires Describes(p, bytes, full)
    ensures |bytes| == |p.header| + FIXED_BYTES + ROW_BYTES * p.rowCount
    ensures bytes[..|p.header| + FIXED_BYTES] == Preamble(p)
  {
  }

  lemma CountsAgree(bytes: seq<byte>, offset: nat, a: nat, b: nat)
    requires a < TWO_32 && b < TWO_32 && At(bytes, offset, LittleEndian(a, 4))
    ensures At(bytes, offset, LittleEndian(b, 4)) <==> a == b
  {
    Pow256Values();
    ReadsBack(a, 4);
    ReadsBack(b, 4);
  }

  /** The fixed part is in order exactly when the bytes begin with the writer's preamble. */
  method CheckPreamble(p: Profile, bytes: seq<byte>) returns (ok: bool)
    requires Sensible(p)
    ensures ok <==>
      && |bytes| == |p.header| + FIXED_BYTES + ROW_BYTES * p.rowCount
      && bytes[..|p.header| + FIXED_BYTES] == Preamble(p)
  {
    if |bytes| != |p.header| + FIXED_BYTES + ROW_BYTES * p.rowCount {
      return false;
    }
    PreambleAt(p, bytes);
    if bytes[..|p.header|] != p.header {
      return false;
    }
    var offset := |p.header|;
    if !At(bytes, offset, Natural256(p.signedTarget)) {
      return false;
    }
    offset := offset + NATURAL_BYTES;
    if !At(bytes, offset, Natural256(p.absoluteTarget)) {
      return false;
    }
    offset := offset + NATURAL_BYTES;
    var count := ReadU32(bytes, offset);
    if count.None? {
      return false;
    }
    CountsAgree(bytes, offset, count.value, p.rowCount);
    ok := count.value == p.rowCount;
  }

  lemma TableStep(p: Profile, rows: seq<Chunk>, c: Chunk)
    ensures ExpectedLow(rows + [c]) == c.high + 1 && ExpectedBefore(rows + [c]) == c.after
    ensures SignedTotal(rows + [c]) == SignedTotal(rows) + c.signedUpper
    ensures AbsoluteTotal(rows + [c]) == AbsoluteTotal(rows) + c.absoluteUpper
    ensures Connected(p, rows) && WireRange(c) && Continues(p, rows, c) ==> Connected(p, rows + [c])
  {
    assert (rows + [c])[..|rows|] == rows;
  }

  lemma TracksStep(rows: seq<Chunk>, c: Chunk, low: nat, before: int, signed: int, absolute: nat)
    requires Tracks(rows, low, before, signed, absolute)
    ensures Tracks(rows + [c], c.high + 1, c.after, signed + c.signedUpper, absolute + c.absoluteUpper)
  {
    assert (rows + [c])[..|rows|] == rows;
  }

  /** ARTIFACT CODEC. The reader accepts exactly the frames of acceptable tables, and returns the table. */
  method ParseArtifact(p: Profile, bytes: seq<byte>) returns (r: Option<seq<Chunk>>)
    requires Sensible(p)
    ensures forall rows :: r == Some(rows) <==> Describes(p, bytes, rows)
  {
    forall full | Describes(p, bytes, full)
      ensures |bytes| == |p.header| + FIXED_BYTES + ROW_BYTES * p.rowCount
      ensures bytes[..|p.header| + FIXED_BYTES] == Preamble(p)
    {
      DescribedPreamble(p, bytes, full);
    }
    var ok := CheckPreamble(p, bytes);
    if !ok {
      return None;
    }
    r := ParseRows(p, bytes);
    forall rows | r.Some? && Describes(p, bytes, rows)
      ensures r.value == rows
    {
      ArtifactUnique(p, bytes, r.value, rows);
    }
  }

  /** What is known once some rows have been read. */
  ghost predicate ReadSoFar(p: Profile, bytes: seq<byte>, rows: seq<Chunk>) {
    && Connected(p, rows) && At(bytes, |p.header| + FIXED_BYTES, RowsBytes(rows)) && Forced(p, bytes, rows)
    && Signed128(SignedTotal(rows)) && AbsoluteTotal(rows) < TWO_128 && ExpectedLow(rows) <= p.N + 1
  }

  lemma NothingRead(p: Profile, bytes: seq<byte>)
    requires |bytes| >= |p.header| + FIXED_BYTES
    ensures ReadSoFar(p, bytes, [])
  {
  }

  lemma RowsStandAt(bytes: seq<byte>, start: nat, rows: seq<Chunk>, c: Chunk, before: seq<byte>, row: seq<byte>)
    requires before == RowsBytes(rows) && row == RowBytes(c)
    requires At(bytes, start, before) && At(bytes, start + |before|, row)
    ensures At(bytes, start, RowsBytes(rows + [c]))
  {
    RowsBytesAppend(rows, c);
    AtBoth(bytes, start, before, row, RowsBytes(rows + [c]));
  }

  lemma ReadStep(p: Profile, bytes: seq<byte>, rows: seq<Chunk>, c: Chunk)
    requires ReadSoFar(p, bytes, rows) && |rows| < p.rowCount && WireRange(c) && Continues(p, rows, c)
    requires At(bytes, |p.header| + FIXED_BYTES + ROW_BYTES * |rows|, RowBytes(c))
    ensures ReadSoFar(p, bytes, rows + [c])
  {
    ForcedStep(p, bytes, rows, c);
    RowsStandAt(bytes, |p.header| + FIXED_BYTES, rows, c, RowsBytes(rows), RowBytes(c));
    TableStep(p, rows, c);
  }

  lemma AtBoth(bytes: seq<byte>, offset: nat, first: seq<byte>, rest: seq<byte>, whole: seq<byte>)
    requires whole == first + rest && At(bytes, offset, first) && At(bytes, offset + |first|, rest)
    ensures At(bytes, offset, whole)
  {
    AtConcat(bytes, offset, first, rest);
  }

  lemma ReadEnd(p: Profile, bytes: seq<byte>, rows: seq<Chunk>)
    requires ReadSoFar(p, bytes, rows) && |rows| == p.rowCount
    requires |bytes| == |p.header| + FIXED_BYTES + ROW_BYTES * p.rowCount
    requires bytes[..|p.header| + FIXED_BYTES] == Preamble(p)
    ensures Acceptable(p, rows) ==> Describes(p, bytes, rows)
    ensures !Acceptable(p, rows) ==> Hopeless(p, bytes)
  {
    var start := |p.header| + FIXED_BYTES;
    assert bytes == bytes[..start] + bytes[start..start + |RowsBytes(rows)|];
    forall full | Describes(p, bytes, full)
      ensures full == rows
    {
      assert full[..|rows|] == full;
    }
  }

  /** Read one row and check it. */
  method ParseRow(p: Profile, bytes: seq<byte>, offset: nat, ghost rows: seq<Chunk>,
                  expectedLow: nat, expectedBefore: int, signedTotal: int, absoluteTotal: nat)
    returns (r: Option<Chunk>)
    requires Sensible(p) && ReadSoFar(p, bytes, rows) && |rows| < p.rowCount
    requires offset == |p.header| + FIXED_BYTES + ROW_BYTES * |rows|
    requires Tracks(rows, expectedLow, expectedBefore, signedTotal, absoluteTotal)
    ensures r.Some? ==> ReadSoFar(p, bytes, rows + [r.value])
    ensures r.None? ==> Hopeless(p, bytes)
  {
    r := ReadRow(bytes, offset);
    if r.None? {
      NoRowHopeless(p, bytes, rows);
      return None;
    }
    var chunk := r.value;
    ForcedStep(p, bytes, rows, chunk);
    var continues := CheckRow(p, rows, chunk, expectedLow, expectedBefore, signedTotal, absoluteTotal);
    if !continues {
      return None;
    }
    ReadStep(p, bytes, rows, chunk);
  }

  method ParseRows(p: Profile, bytes: seq<byte>) returns (r: Option<seq<Chunk>>)
    requires Sensible(p)
    requires |bytes| == |p.header| + FIXED_BYTES + ROW_BYTES * p.rowCount
    requires bytes[..|p.header| + FIXED_BYTES] == Preamble(p)
    ensures r.Some? ==> Describes(p, bytes, r.value)
    ensures r.None? ==> Hopeless(p, bytes)
  {
    var offset := |p.header| + FIXED_BYTES;
    var rows: seq<Chunk> := [];
    var expectedLow: nat, expectedBefore, signedTotal, absoluteTotal: nat := 1, 0, 0, 0;
    NothingRead(p, bytes);
    for index := 0 to p.rowCount
      invariant |rows| == index && offset == |p.header| + FIXED_BYTES + ROW_BYTES * index
      invariant Tracks(rows, expectedLow, expectedBefore, signedTotal, absoluteTotal)
      invariant ReadSoFar(p, bytes, rows)
    {
      var chunk := ParseRow(p, bytes, offset, rows, expectedLow, expectedBefore, signedTotal, absoluteTotal);
      if chunk.None? {
        return None;
      }
      var c := chunk.value;
      TracksStep(rows, c, expectedLow, expectedBefore, signedTotal, absoluteTotal);
      rows := rows + [c];
      offset := offset + ROW_BYTES;
      expectedLow, expectedBefore := c.high + 1, c.after;
      signedTotal, absoluteTotal := signedTotal + c.signedUpper, absoluteTotal + c.absoluteUpper;
    }
    ReadEnd(p, bytes, rows);
    if offset != |bytes| || expectedLow != p.N + 1 || expectedBefore != p.finalState
       || signedTotal != p.signedTarget || absoluteTotal != p.absoluteTarget {
      return None;
    }
    r := Some(rows);
  }

  /** The checks on one row. */
  method CheckRow(p: Profile, ghost rows: seq<Chunk>, chunk: Chunk, expectedLow: nat, expectedBefore: int,
                  signedTotal: int, absoluteTotal: nat) returns (ok: bool)
    requires Sensible(p) && WireRange(chunk) && 1 <= expectedLow <= p.N + 1
    requires Tracks(rows, expectedLow, expectedBefore, signedTotal, absoluteTotal)
    requires Signed128(signedTotal) && absoluteTotal < TWO_128
    ensures ok == Continues(p, rows, chunk)
  {
    assert expectedLow + p.blockSize - 1 < TWO_64;
    var expectedHigh := Lesser(p.N, expectedLow + p.blockSize - 1);
    if chunk.low != expectedLow || chunk.high != expectedHigh || chunk.before != expectedBefore {
      return false;
    }
    ok := CheckedAddSigned(signedTotal, chunk.signedUpper).Some?
      && CheckedAddUnsigned(absoluteTotal, chunk.absoluteUpper).Some?;
  }

  /** No frame belongs to two tables. */
  lemma ArtifactUnique(p: Profile, bytes: seq<byte>, a: seq<Chunk>, b: seq<Chunk>)
    requires Describes(p, bytes, a) && Describes(p, bytes, b)
    ensures a == b
  {
    UniquePrefix(p, bytes, a, b, |a|);
    assert a[..|a|] == a && b[..|a|] == b;
  }

  lemma SameNext(p: Profile, bytes: seq<byte>, a: seq<Chunk>, b: seq<Chunk>, i: nat)
    requires Describes(p, bytes, a) && Describes(p, bytes, b) && i < p.rowCount && a[..i] == b[..i]
    ensures a[i] == b[i] && a[..i + 1] == b[..i + 1]
  {
    NextRow(p, bytes, a[..i], a);
    NextRow(p, bytes, a[..i], b);
    RowUnique(bytes, |p.header| + FIXED_BYTES + ROW_BYTES * i, a[i], b[i]);
    assert a[..i + 1] == a[..i] + [a[i]] && b[..i + 1] == b[..i] + [b[i]];
  }

  lemma {:induction false} UniquePrefix(p: Profile, bytes: seq<byte>, a: seq<Chunk>, b: seq<Chunk>, n: nat)
    requires Describes(p, bytes, a) && Describes(p, bytes, b) && n <= p.rowCount
    ensures a[..n] == b[..n]
  {
    if n == 0 {
    } else {
      UniquePrefix(p, bytes, a, b, n - 1);
      SameNext(p, bytes, a, b, n - 1);
    }
  }
}
