/** The workload's check of the producer's chunk rows
    (reference/tg_cdem_abel_measured_workload.cpp, lines 279-291 and 357-410). */
module Transcript {
  import opened Outcomes
  import opened MachineWords
  import opened Decimals
  import opened ArtifactFrame
  import opened ReplayText
  import opened Terminal

  // ---- Comma-separated rows ---------------------------------------------------------

  function Joined(pieces: seq<string>): string {
    if pieces == [] then ""
    else if |pieces| == 1 then pieces[0]
    else pieces[0] + "," + Joined(pieces[1..])
  }

  predicate CommaFree(pieces: seq<string>) {
    forall i | 0 <= i < |pieces| :: Lacks(',', pieces[i])
  }

  lemma {:induction false} JoinedWithRest(pieces: seq<string>, piece: string, rest: string)
    ensures Joined(pieces + [piece + "," + rest]) == Joined(pieces + [piece, rest])
  {
    if pieces == [] {
      assert [piece, rest][1..] == [rest];
      assert pieces + [piece + "," + rest] == [piece + "," + rest];
      assert pieces + [piece, rest] == [piece, rest];
    } else {
      JoinedWithRest(pieces[1..], piece, rest);
      assert (pieces + [piece + "," + rest])[1..] == pieces[1..] + [piece + "," + rest];
      assert (pieces + [piece, rest])[1..] == pieces[1..] + [piece, rest];
    }
  }

  lemma {:induction false} JoinedHasComma(pieces: seq<string>, text: string)
    requires |pieces| > 1 && Joined(pieces) == text
    ensures !Lacks(',', text)
  {
    assert text[|pieces[0]|] == ',';
  }

  /** A text splits in one way. */
  lemma {:induction false} JoinedInjective(a: seq<string>, b: seq<string>)
    requires a != [] && b != [] && CommaFree(a) && CommaFree(b) && Joined(a) == Joined(b)
    ensures a == b
  {
    if |a| == 1 && |b| > 1 {
      JoinedHasComma(b, a[0]);
    } else if |a| > 1 && |b| == 1 {
      JoinedHasComma(a, b[0]);
    } else if |a| > 1 && |b| > 1 {
      SplitUnique(',', a[0], b[0], Joined(a[1..]), Joined(b[1..]));
      JoinedInjective(a[1..], b[1..]);
      assert a == [a[0]] + a[1..] && b == [b[0]] + b[1..];
    } else {
      assert a == [a[0]] && b == [b[0]];
    }
  }

  lemma NoCommaBefore(value: string, start: nat, end: nat)
    requires start <= end <= |value| && forall q | start <= q < end :: !Occurs(value, ",", q)
    ensures Lacks(',', value[start..end])
  {
    forall i | 0 <= i < end - start
      ensures value[start..end][i] != ','
    {
      assert value[start + i..start + i + 1] == [value[start + i]];
      assert !Occurs(value, ",", start + i);
    }
  }

  lemma CommaFreeAppend(pieces: seq<string>, piece: string)
    requires CommaFree(pieces) && Lacks(',', piece)
    ensures CommaFree(pieces + [piece])
  {
  }

  lemma SplitStep(value: string, pieces: seq<string>, start: nat, found: nat)
    requires start <= found && Occurs(value, ",", found)
    requires Joined(pieces + [value[start..]]) == value
    ensures Joined((pieces + [value[start..found]]) + [value[found + 1..]]) == value
  {
    var piece, rest := value[start..found], value[found + 1..];
    assert value[start..] == piece + "," + rest;
    JoinedWithRest(pieces, piece, rest);
    assert pieces + [piece, rest] == (pieces + [piece]) + [rest];
  }

  /** Splitting at the commas undoes joining. */
  method Split(value: string) returns (pieces: seq<string>)
    ensures pieces != [] && CommaFree(pieces) && Joined(pieces) == value
  {
    pieces := [];
    var start := 0;
    while true
      invariant start <= |value| && CommaFree(pieces) && Joined(pieces + [value[start..]]) == value
      decreases |value| - start
    {
      var found := Find(value, ",", start);
      if found.None? {
        NoCommaBefore(value, start, |value|);
        assert value[start..|value|] == value[start..];
        CommaFreeAppend(pieces, value[start..]);
        pieces := pieces + [value[start..]];
        return;
      }
      NoCommaBefore(value, start, found.value);
      SplitStep(value, pieces, start, found.value);
      CommaFreeAppend(pieces, value[start..found.value]);
      pieces := pieces + [value[start..found.value]];
      start := found.value + 1;
    }
  }

  // ---- One chunk row ---------------------------------------------------------------------

  function PiecesOf(c: Chunk, variation: nat): seq<string> {
    [Decimal(c.low), Decimal(c.high), SignedDecimal(c.before), SignedDecimal(c.after), SignedDecimal(c.signedUpper),
     Decimal(c.absoluteUpper), Decimal(variation)]
  }

  /** The row the producer prints. */
  function LineOf(c: Chunk, variation: nat): string {
    Joined(PiecesOf(c, variation))
  }

  lemma DecimalCommaFree(value: nat)
    ensures Lacks(',', Decimal(value))
  {
    ValueOfDecimal(value);
  }

  lemma SignedDecimalCommaFree(value: int)
    ensures Lacks(',', SignedDecimal(value))
  {
    DecimalCommaFree(if value < 0 then -value else value);
  }

  lemma PiecesCommaFree(c: Chunk, variation: nat)
    ensures CommaFree(PiecesOf(c, variation))
  {
    DecimalCommaFree(c.low);
    DecimalCommaFree(c.high);
    SignedDecimalCommaFree(c.before);
    SignedDecimalCommaFree(c.after);
    SignedDecimalCommaFree(c.signedUpper);
    DecimalCommaFree(c.absoluteUpper);
    DecimalCommaFree(variation);
    SevenCommaFree(Decimal(c.low), Decimal(c.high), SignedDecimal(c.before), SignedDecimal(c.after),
                   SignedDecimal(c.signedUpper), Decimal(c.absoluteUpper), Decimal(variation));
  }

  lemma SevenCommaFree(a: string, b: string, c: string, d: string, e: string, f: string, g: string)
    requires Lacks(',', a) && Lacks(',', b) && Lacks(',', c) && Lacks(',', d) && Lacks(',', e) && Lacks(',', f)
    requires Lacks(',', g)
    ensures CommaFree([a, b, c, d, e, f, g])
  {
  }

  lemma SevenEqual(pieces: seq<string>, a: string, b: string, c: string, d: string, e: string, f: string, g: string)
    requires |pieces| == 7
    ensures pieces == [a, b, c, d, e, f, g] <==>
      && pieces[0] == a && pieces[1] == b && pieces[2] == c && pieces[3] == d && pieces[4] == e && pieces[5] == f
      && pieces[6] == g
  {
    var expected := [a, b, c, d, e, f, g];
    assert pieces == expected <==> forall i | 0 <= i < 7 :: pieces[i] == expected[i];
  }

  predicate ParsesTo(pieces: seq<string>, c: Chunk, variation: nat) {
    && |pieces| == 7
    && Parsed(pieces[0], MAX_64) == Some(c.low) && Parsed(pieces[1], MAX_64) == Some(c.high)
    && ParsedSigned(pieces[2], INT64_LIMIT) == Some(c.before) && ParsedSigned(pieces[3], INT64_LIMIT) == Some(c.after)
    && ParsedSigned(pieces[4], INT128_LIMIT) == Some(c.signedUpper)
    && Parsed(pieces[5], MAX_128) == Some(c.absoluteUpper) && Parsed(pieces[6], MAX_64) == Some(variation)
  }

  predicate LineRange(c: Chunk, variation: nat) {
    WireRange(c) && variation <= MAX_64
  }

  lemma ParsesExactly(pieces: seq<string>, c: Chunk, variation: nat)
    requires |pieces| == 7
    ensures ParsesTo(pieces, c, variation) <==> pieces == PiecesOf(c, variation) && LineRange(c, variation)
  {
    ParsedExactly(pieces[0], MAX_64, c.low);
    ParsedExactly(pieces[1], MAX_64, c.high);
    ParsedSignedExactly(pieces[2], INT64_LIMIT, c.before);
    ParsedSignedExactly(pieces[3], INT64_LIMIT, c.after);
    ParsedSignedExactly(pieces[4], INT128_LIMIT, c.signedUpper);
    ParsedExactly(pieces[5], MAX_128, c.absoluteUpper);
    ParsedExactly(pieces[6], MAX_64, variation);
    SevenEqual(pieces, Decimal(c.low), Decimal(c.high), SignedDecimal(c.before), SignedDecimal(c.after),
               SignedDecimal(c.signedUpper), Decimal(c.absoluteUpper), Decimal(variation));
  }

  lemma LineParses(line: string, pieces: seq<string>, c: Chunk, variation: nat)
    requires pieces != [] && CommaFree(pieces) && Joined(pieces) == line
    ensures line == LineOf(c, variation) && LineRange(c, variation) <==> ParsesTo(pieces, c, variation)
  {
    PiecesCommaFree(c, variation);
    if line == LineOf(c, variation) {
      JoinedInjective(pieces, PiecesOf(c, variation));
    }
    if |pieces| == 7 { ParsesExactly(pieces, c, variation); }
  }

  datatype ParsedLine = ParsedLine(chunk: Chunk, variation: nat)

  /** A row is accepted exactly when it is the canonical text of numbers in range. */
  method ParseLine(line: string) returns (r: Option<ParsedLine>)
    ensures forall c, v: nat :: r == Some(ParsedLine(c, v)) <==> line == LineOf(c, v) && LineRange(c, v)
  {
    var pieces := Split(line);
    forall c, v: nat
      ensures line == LineOf(c, v) && LineRange(c, v) <==> ParsesTo(pieces, c, v)
    {
      LineParses(line, pieces, c, v);
    }
    if |pieces| != 7 {
      return None;
    }
    var low := ParseUnsigned(pieces[0], MAX_64);
    var high := ParseUnsigned(pieces[1], MAX_64);
    var before := ParseInt64(pieces[2]);
    var after := ParseInt64(pieces[3]);
    var signedUpper := ParseSigned128(pieces[4]);
    var absoluteUpper := ParseUnsigned(pieces[5], MAX_128);
    var variation := ParseUnsigned(pieces[6], MAX_64);
    if low.None? || high.None? || before.None? || after.None? || signedUpper.None? || absoluteUpper.None?
       || variation.None? {
      return None;
    }
    r := Some(ParsedLine(
      Chunk(low.value, high.value, before.value, after.value, signedUpper.value, absoluteUpper.value),
      variation.value));
  }

  // ---- The chunk table ----------------------------------------------------------------------

  datatype Checked = Checked(rows: seq<Chunk>, variations: seq<nat>)

  predicate IsLine(line: string, c: Chunk, variation: nat) {
    line == LineOf(c, variation) && LineRange(c, variation)
  }

  ghost predicate ListedBy(lines: seq<string>, rows: seq<Chunk>, variations: seq<nat>) {
    && |rows| == |variations| <= |lines|
    && forall i | 0 <= i < |rows| :: IsLine(lines[i], rows[i], variations[i])
  }

  /** The lines list an acceptable table whose variations add up to the target. */
  ghost predicate Lists(p: Profile, lines: seq<string>, rows: seq<Chunk>, variations: seq<nat>) {
    && |rows| == |lines| && ListedBy(lines, rows, variations)
    && Acceptable(p, rows) && Total(variations) == p.variationTarget
  }

  lemma ListsAt(p: Profile, lines: seq<string>, rows: seq<Chunk>, variations: seq<nat>, n: nat)
    requires Lists(p, lines, rows, variations) && n < |lines|
    ensures |rows| == |variations| == |lines| && IsLine(lines[n], rows[n], variations[n])
    ensures Connected(p, rows) && Total(variations) == p.variationTarget
  {
  }

  lemma NextRowContinues(p: Profile, rows: seq<Chunk>, n: nat)
    requires Connected(p, rows) && n < |rows|
    ensures Continues(p, rows[..n], rows[n]) && rows[..n + 1] == rows[..n] + [rows[n]]
  {
    ConnectedPrefix(p, rows, n);
  }

  lemma ListsNext(p: Profile, lines: seq<string>, rows: seq<Chunk>, variations: seq<nat>, n: nat)
    requires Lists(p, lines, rows, variations) && n < |lines|
    ensures IsLine(lines[n], rows[n], variations[n]) && Continues(p, rows[..n], rows[n])
    ensures Total(variations[..n]) + variations[n] <= p.variationTarget
    ensures rows[..n + 1] == rows[..n] + [rows[n]] && variations[..n + 1] == variations[..n] + [variations[n]]
  {
    ListsAt(p, lines, rows, variations, n);
    NextRowContinues(p, rows, n);
    PrefixTotal(variations[..n], variations);
  }

  /** Any table the lines list begins with these rows. */
  ghost predicate Determined(p: Profile, lines: seq<string>, rows: seq<Chunk>, variations: seq<nat>) {
    forall R, V | Lists(p, lines, R, V) ::
      |rows| == |variations| <= |lines| == |R| == |V| && R[..|rows|] == rows && V[..|rows|] == variations
  }

  ghost predicate ListsNothing(p: Profile, lines: seq<string>) {
    forall R, V :: !Lists(p, lines, R, V)
  }

  lemma DeterminedStep(
    p: Profile, lines: seq<string>, rows: seq<Chunk>, variations: seq<nat>, parsed: Option<ParsedLine>)
    requires Determined(p, lines, rows, variations) && |rows| == |variations| < |lines|
    requires forall c, v: nat :: parsed == Some(ParsedLine(c, v)) <==> IsLine(lines[|rows|], c, v)
    ensures parsed.None? ==> ListsNothing(p, lines)
    ensures parsed.Some? ==>
      var c, v := parsed.value.chunk, parsed.value.variation;
      && Determined(p, lines, rows + [c], variations + [v])
      && (!Continues(p, rows, c) || Total(variations) + v > p.variationTarget ==> ListsNothing(p, lines))
  {
    forall R, V | Lists(p, lines, R, V)
      ensures parsed == Some(ParsedLine(R[|rows|], V[|rows|]))
      ensures R[..|rows| + 1] == rows + [R[|rows|]] && V[..|rows| + 1] == variations + [V[|rows|]]
      ensures Continues(p, rows, R[|rows|]) && Total(variations) + V[|rows|] <= p.variationTarget
    {
      ListsNext(p, lines, R, V, |rows|);
    }
  }

  /** What is known after some lines. */
  ghost predicate CheckedSoFar(p: Profile, lines: seq<string>, rows: seq<Chunk>, variations: seq<nat>) {
    && ListedBy(lines, rows, variations) && Determined(p, lines, rows, variations) && Connected(p, rows)
    && Signed128(SignedTotal(rows)) && AbsoluteTotal(rows) < TWO_128 && ExpectedLow(rows) <= p.N + 1
    && Total(variations) <= MAX_64
  }

  lemma ListedStep(lines: seq<string>, rows: seq<Chunk>, variations: seq<nat>, c: Chunk, v: nat)
    requires ListedBy(lines, rows, variations) && |rows| < |lines| && IsLine(lines[|rows|], c, v)
    ensures ListedBy(lines, rows + [c], variations + [v])
  {
  }

  lemma CheckedStep(p: Profile, lines: seq<string>, rows: seq<Chunk>, variations: seq<nat>, c: Chunk, v: nat)
    requires CheckedSoFar(p, lines, rows, variations) && |rows| < |lines|
    requires IsLine(lines[|rows|], c, v) && Continues(p, rows, c) && Total(variations) + v <= MAX_64
    requires Determined(p, lines, rows + [c], variations + [v])
    ensures CheckedSoFar(p, lines, rows + [c], variations + [v])
  {
    ListedStep(lines, rows, variations, c, v);
    TableStep(p, rows, c);
    TotalAppend(variations, v);
  }

  lemma CheckedEnd(p: Profile, lines: seq<string>, rows: seq<Chunk>, variations: seq<nat>)
    requires CheckedSoFar(p, lines, rows, variations) && |rows| == |lines| == p.rowCount
    ensures forall R, V | Lists(p, lines, R, V) :: R == rows && V == variations
    ensures Lists(p, lines, rows, variations) <==>
      && ExpectedLow(rows) == p.N + 1 && ExpectedBefore(rows) == p.finalState && SignedTotal(rows) == p.signedTarget
      && AbsoluteTotal(rows) == p.absoluteTarget && Total(variations) == p.variationTarget
  {
    forall R, V | Lists(p, lines, R, V)
      ensures R == rows && V == variations
    {
      assert R[..|rows|] == R && V[..|rows|] == V;
    }
  }

  /** The values a check carries from line to line. */
  datatype Running = Running(
    expectedLow: nat, expectedBefore: int, signedTotal: int, absoluteTotal: nat, totalVariation: nat)

  function After(x: Running, line: ParsedLine): Running {
    var c := line.chunk;
    Running(c.high + 1, c.after, x.signedTotal + c.signedUpper, x.absoluteTotal + c.absoluteUpper,
            x.totalVariation + line.variation)
  }

  function Append(checked: Checked, line: ParsedLine): Checked {
    Checked(checked.rows + [line.chunk], checked.variations + [line.variation])
  }

  /** What is known after some lines, and the running values. */
  ghost predicate LinesState(p: Profile, lines: seq<string>, checked: Checked, x: Running) {
    && CheckedSoFar(p, lines, checked.rows, checked.variations)
    && Tracks(checked.rows, x.expectedLow, x.expectedBefore, x.signedTotal, x.absoluteTotal)
    && x.totalVariation == Total(checked.variations)
  }

  lemma NothingChecked(p: Profile, lines: seq<string>)
    ensures LinesState(p, lines, Checked([], []), Running(1, 0, 0, 0, 0))
  {
  }

  /** One line's checks. */
  method CheckLine(p: Profile, lines: seq<string>, ghost checked: Checked, line: string, x: Running)
    returns (r: Option<ParsedLine>)
    requires Sensible(p) && LinesState(p, lines, checked, x) && p.variationTarget <= MAX_64
    requires |checked.rows| < |lines| && line == lines[|checked.rows|]
    ensures r.Some? ==> CheckedSoFar(p, lines, Append(checked, r.value).rows, Append(checked, r.value).variations)
    ensures r.None? ==> ListsNothing(p, lines)
  {
    ghost var rows, variations := checked.rows, checked.variations;
    r := ParseLine(line);
    assert forall c, v: nat :: r == Some(ParsedLine(c, v)) <==> IsLine(line, c, v);
    DeterminedStep(p, lines, rows, variations, r);
    if r.None? {
      return;
    }
    var c, v := r.value.chunk, r.value.variation;
    assert IsLine(line, c, v);
    var continues := CheckRow(p, rows, c, x.expectedLow, x.expectedBefore, x.signedTotal, x.absoluteTotal);
    if !continues || MAX_64 - x.totalVariation < v {
      return None;
    }
    CheckedStep(p, lines, rows, variations, c, v);
  }

  /** THE WORKLOAD'S CHECK. The chunk rows pass exactly when they are the canonical text of an acceptable
      table whose variations add up, and the table returned is that table. */
  method ValidateChunks(p: Profile, lines: seq<string>) returns (r: Option<Checked>)
    requires Sensible(p) && |lines| == p.rowCount && p.variationTarget <= MAX_64
    ensures forall rows, variations :: r == Some(Checked(rows, variations)) <==> Lists(p, lines, rows, variations)
  {
    var checked, x := CheckLines(p, lines);
    if checked.None? {
      return None;
    }
    CheckedEnd(p, lines, checked.value.rows, checked.value.variations);
    if x.expectedLow != p.N + 1 || x.expectedBefore != p.finalState || x.signedTotal != p.signedTarget
       || x.absoluteTotal != p.absoluteTarget || x.totalVariation != p.variationTarget {
      return None;
    }
    r := checked;
  }

  lemma LinesStep(p: Profile, lines: seq<string>, checked: Checked, line: ParsedLine, x: Running)
    requires LinesState(p, lines, checked, x)
    requires CheckedSoFar(p, lines, Append(checked, line).rows, Append(checked, line).variations)
    ensures LinesState(p, lines, Append(checked, line), After(x, line))
  {
    TracksStep(checked.rows, line.chunk, x.expectedLow, x.expectedBefore, x.signedTotal, x.absoluteTotal);
    TotalAppend(checked.variations, line.variation);
  }

  /** The pass over the lines, with its running values. */
  method CheckLines(p: Profile, lines: seq<string>) returns (r: Option<Checked>, x: Running)
    requires Sensible(p) && |lines| == p.rowCount && p.variationTarget <= MAX_64
    ensures r.None? ==> ListsNothing(p, lines)
    ensures r.Some? ==> |r.value.rows| == |lines| && LinesState(p, lines, r.value, x)
  {
    var checked := Checked([], []);
    x := Running(1, 0, 0, 0, 0);
    NothingChecked(p, lines);
    for index := 0 to |lines|
      invariant |checked.rows| == index && LinesState(p, lines, checked, x)
    {
      var parsed := CheckLine(p, lines, checked, lines[index], x);
      if parsed.None? {
        return None, x;
      }
      LinesStep(p, lines, checked, parsed.value, x);
      checked := Append(checked, parsed.value);
      x := After(x, parsed.value);
    }
    r := Some(checked);
  }

  lemma {:induction false} ConnectedInRange(p: Profile, rows: seq<Chunk>, i: nat)
    requires Connected(p, rows) && i < |rows|
    ensures WireRange(rows[i])
  {
    ConnectedPrefix(p, rows, i);
  }

  /** WHAT THE WORKLOAD WRITES THE TERMINAL ACCEPTS. From chunk rows that pass, the workload writes an
      artifact which the terminal parses back to the same table. */
  method WriteAndParse(p: Profile, lines: seq<string>) returns (written: Option<Checked>, parsed: Option<seq<Chunk>>)
    requires Sensible(p) && |lines| == p.rowCount && p.variationTarget <= MAX_64
    ensures written.Some? ==> parsed == Some(written.value.rows)
    ensures forall rows, variations :: written == Some(Checked(rows, variations)) <==> Lists(p, lines, rows, variations)
  {
    written := ValidateChunks(p, lines);
    parsed := None;
    if written.Some? {
      var rows := written.value.rows;
      assert Lists(p, lines, rows, written.value.variations);
      forall i | 0 <= i < |rows|
        ensures WireRange(rows[i])
      {
        ConnectedInRange(p, rows, i);
      }
      var bytes := WriteArtifact(p, rows);
      parsed := ParseArtifact(p, bytes);
      assert Describes(p, bytes, rows);
    }
  }
}
