/** The replayer's standard output, and the terminal's check of it
    (reference/tg_cdem_abel_chunk_replay.cpp, lines 161-168 and 264-276;
    reference/tg_cdem_abel_artifact_terminal.cpp, lines 412-447). */
module ReplayText {
  import opened Outcomes
  import opened MachineWords
  import opened Decimals
  import opened ArtifactFrame

  // ---- Lines ---------------------------------------------------------------------

  predicate Lacks(c: char, text: string) {
    forall i | 0 <= i < |text| :: text[i] != c
  }

  predicate OneLine(line: string) {
    Lacks('\n', line)
  }

  /** The first separator splits a text in one way. */
  lemma SplitUnique(c: char, a: string, b: string, x: string, y: string)
    requires Lacks(c, a) && Lacks(c, b) && a + [c] + x == b + [c] + y
    ensures a == b && x == y
  {
    var text := a + [c] + x;
    assert text[|a|] == c && text[|b|] == c;
    assert a == text[..|a|] && b == text[..|b|];
    assert x == text[|a| + 1..] && y == text[|b| + 1..];
  }

  lemma DecimalOneLine(value: nat)
    ensures OneLine(Decimal(value))
  {
    ValueOfDecimal(value);
  }

  lemma SignedDecimalOneLine(value: int)
    ensures OneLine(SignedDecimal(value))
  {
    DecimalOneLine(if value >= 0 then value else -value);
  }

  /** A line: a constant, or a key with a number. */
  datatype Field = Fixed(key: string) | Natural(key: string, n: nat) | Integer(key: string, i: int)

  function Line(f: Field): string {
    match f
    case Fixed(key) => key
    case Natural(key, n) => key + Decimal(n)
    case Integer(key, i) => key + SignedDecimal(i)
  }

  /** The value on a line. */
  function Shown(f: Field): string {
    match f
    case Fixed(_) => ""
    case Natural(_, n) => Decimal(n)
    case Integer(_, i) => SignedDecimal(i)
  }

  lemma LineShown(f: Field)
    ensures Line(f) == f.key + Shown(f)
  {
  }

  predicate SameShape(f: Field, g: Field) {
    f.key == g.key && f.Fixed? == g.Fixed? && f.Natural? == g.Natural?
  }

  lemma FieldOneLine(f: Field)
    requires OneLine(f.key)
    ensures OneLine(Line(f))
  {
    match f
    case Fixed(key) =>
    case Natural(key, n) => DecimalOneLine(n);
    case Integer(key, i) => SignedDecimalOneLine(i);
  }

  lemma LineInjective(f: Field, g: Field)
    requires SameShape(f, g) && Line(f) == Line(g)
    ensures f == g
  {
    match f
    case Fixed(key) =>
    case Natural(key, n) =>
      assert Line(f)[|key|..] == Decimal(n) && Line(g)[|key|..] == Decimal(g.n);
      DecimalInjective(n, g.n);
    case Integer(key, i) =>
      assert Line(f)[|key|..] == SignedDecimal(i) && Line(g)[|key|..] == SignedDecimal(g.i);
      SignedDecimalInjective(i, g.i);
  }

  function Text(fields: seq<Field>): string {
    if fields == [] then "" else Line(fields[0]) + "\n" + Text(fields[1..])
  }

  predicate Clean(fields: seq<Field>) {
    forall i | 0 <= i < |fields| :: OneLine(fields[i].key)
  }

  predicate SameShapes(a: seq<Field>, b: seq<Field>) {
    |a| == |b| && forall i | 0 <= i < |a| :: SameShape(a[i], b[i])
  }

  /** Equal texts of one shape carry equal numbers. */
  lemma {:induction false} TextInjective(a: seq<Field>, b: seq<Field>)
    requires Clean(a) && SameShapes(a, b) && Text(a) == Text(b)
    ensures a == b
  {
    if a == [] {
    } else {
      assert SameShape(a[0], b[0]);
      FieldOneLine(a[0]);
      FieldOneLine(b[0]);
      SplitUnique('\n', Line(a[0]), Line(b[0]), Text(a[1..]), Text(b[1..]));
      LineInjective(a[0], b[0]);
      TextInjective(a[1..], b[1..]);
      assert a == [a[0]] + a[1..] && b == [b[0]] + b[1..];
    }
  }

  lemma TextStep(f: Field, rest: seq<Field>)
    ensures Text([f] + rest) == Line(f) + "\n" + Text(rest)
  {
    assert ([f] + rest)[1..] == rest;
  }

  lemma HeadOfAppend(a: seq<Field>, b: seq<Field>)
    requires a != []
    ensures a + b == [a[0]] + (a[1..] + b)
  {
  }

  lemma Prepend(head: string, front: string, back: string, both: string)
    requires both == front + back
    ensures head + both == (head + front) + back
  {
  }

  lemma {:induction false} TextAppend(a: seq<Field>, b: seq<Field>)
    ensures Text(a + b) == Text(a) + Text(b)
  {
    if a == [] {
      assert a + b == b;
    } else {
      var f, rest := a[0], a[1..];
      TextAppend(rest, b);
      assert Text(a) == Line(f) + "\n" + Text(rest);
      HeadOfAppend(a, b);
      TextStep(f, rest + b);
      Prepend(Line(f) + "\n", Text(rest), Text(b), Text(rest + b));
    }
  }

  // ---- The replay text -------------------------------------------------------------

  /** The numbers on the replay's lines, in order. */
  datatype ReplayNumbers = ReplayNumbers(
    K: nat, low: nat, high: nat, before: int, deltaSum: int, after: int, signedUpper: int, absoluteUpper: nat,
    variation: nat, weightScale: nat)

  function Head(x: ReplayNumbers): seq<Field> {
    [Fixed("SCHEMA=CDEM_ABEL_CHUNK_REPLAY_V1"),
     Natural("K=", x.K),
     Natural("LOW=", x.low),
     Natural("HIGH=", x.high),
     Integer("BEFORE=", x.before),
     Integer("DELTA_SUM=", x.deltaSum),
     Integer("AFTER=", x.after),
     Integer("U_INC_UPPER_NUM=", x.signedUpper),
     Natural("V_INC_UPPER_NUM=", x.absoluteUpper)]
  }

  function Tail(x: ReplayNumbers): seq<Field> {
    [Natural("WEIGHT_SCALE=", x.weightScale)]
  }

  function Variation(x: ReplayNumbers): Field {
    Natural("TOTAL_VARIATION=", x.variation)
  }

  function Fields(x: ReplayNumbers): seq<Field> {
    Head(x) + ([Variation(x)] + Tail(x))
  }

  lemma ShortKeysOneLine()
    ensures OneLine("K=") && OneLine("LOW=") && OneLine("HIGH=") && OneLine("BEFORE=") && OneLine("AFTER=")
  {
  }

  lemma LongKeysOneLine()
    ensures OneLine("DELTA_SUM=") && OneLine("U_INC_UPPER_NUM=") && OneLine("V_INC_UPPER_NUM=")
    ensures OneLine("TOTAL_VARIATION=") && OneLine("WEIGHT_SCALE=")
  {
  }

  lemma SchemaOneLine()
    ensures OneLine("SCHEMA=CDEM_ABEL_CHUNK_REPLAY_V1")
  {
  }

  lemma AppendClean(fields: seq<Field>, f: Field)
    requires Clean(fields) && OneLine(f.key)
    ensures Clean(fields + [f])
  {
  }

  lemma HeadClean(x: ReplayNumbers)
    ensures Clean(Head(x))
  {
    ShortKeysOneLine();
    LongKeysOneLine();
    SchemaOneLine();
    assert forall i | 0 <= i < 9 :: OneLine(Head(x)[i].key);
  }

  lemma FieldsClean(x: ReplayNumbers)
    ensures Clean(Head(x)) && OneLine(Variation(x).key) && Clean(Tail(x)) && Clean(Fields(x))
  {
    HeadClean(x);
    LongKeysOneLine();
    AppendClean(Head(x), Variation(x));
    AppendClean(Head(x) + [Variation(x)], Tail(x)[0]);
    assert Fields(x) == (Head(x) + [Variation(x)]) + [Tail(x)[0]];
  }

  lemma FieldsShape(x: ReplayNumbers, y: ReplayNumbers)
    ensures SameShapes(Fields(x), Fields(y))
  {
  }

  /** What the replayer prints. */
  function ReplayOutputText(x: ReplayNumbers): string {
    Text(Fields(x))
  }

  lemma TextDeterminesNumbers(x: ReplayNumbers, y: ReplayNumbers)
    requires ReplayOutputText(x) == ReplayOutputText(y)
    ensures x == y
  {
    FieldsClean(x);
    FieldsShape(x, y);
    TextInjective(Fields(x), Fields(y));
    SameFields(x, y);
  }

  lemma SameFields(x: ReplayNumbers, y: ReplayNumbers)
    requires Fields(x) == Fields(y)
    ensures x == y
  {
    assert Head(x) == Fields(x)[..9] && Head(y) == Fields(y)[..9];
    assert Fields(x)[9] == Variation(x) && Fields(y)[9] == Variation(y);
    assert Fields(x)[10] == Tail(x)[0] && Fields(y)[10] == Tail(y)[0];
  }

  // ---- Searching ---------------------------------------------------------------------

  predicate Occurs(text: string, pattern: string, q: nat) {
    q + |pattern| <= |text| && text[q..q + |pattern|] == pattern
  }

  /** The first occurrence from start on. */
  method Find(text: string, pattern: string, start: nat) returns (found: Option<nat>)
    ensures found.Some? ==> start <= found.value && Occurs(text, pattern, found.value)
    ensures found.Some? ==> forall q | start <= q < found.value :: !Occurs(text, pattern, q)
    ensures found.None? ==> forall q | start <= q :: !Occurs(text, pattern, q)
  {
    var q := start;
    while q + |pattern| <= |text|
      invariant start <= q && forall j | start <= j < q :: !Occurs(text, pattern, j)
    {
      if text[q..q + |pattern|] == pattern {
        return Some(q);
      }
      q := q + 1;
    }
    found := None;
  }

  /** No line after the first begins with c. */
  predicate NoBreakBefore(c: char, text: string) {
    forall q | 0 <= q && q + 1 < |text| && text[q] == '\n' :: text[q + 1] != c
  }

  predicate StartsOtherwise(c: char, f: Field) {
    f.key != [] && f.key[0] != c
  }

  lemma BreaksStep(c: char, line: string, rest: string)
    requires OneLine(line) && NoBreakBefore(c, rest) && (rest != [] ==> rest[0] != c)
    ensures NoBreakBefore(c, line + "\n" + rest)
  {
    var text := line + "\n" + rest;
    forall q | 0 <= q && q + 1 < |text| && text[q] == '\n'
      ensures text[q + 1] != c
    {
      assert q >= |line|;
      assert text[q + 1] == rest[q - |line|];
      if q > |line| {
        assert text[q] == rest[q - |line| - 1];
      }
    }
  }

  lemma LineStart(f: Field, rest: string)
    requires f.key != []
    ensures (Line(f) + "\n" + rest)[0] == f.key[0]
  {
  }

  lemma {:induction false} TextBreaks(c: char, fields: seq<Field>)
    requires Clean(fields) && forall i | 1 <= i < |fields| :: StartsOtherwise(c, fields[i])
    ensures NoBreakBefore(c, Text(fields))
  {
    if fields == [] {
    } else {
      TextBreaks(c, fields[1..]);
      FieldOneLine(fields[0]);
      if |fields| > 1 {
        assert StartsOtherwise(c, fields[1]);
        LineStart(fields[1], Text(fields[2..]));
        assert fields[1..][1..] == fields[2..];
      }
      BreaksStep(c, Line(fields[0]), Text(fields[1..]));
    }
  }

  lemma {:induction false} TextEnds(fields: seq<Field>)
    requires fields != []
    ensures Text(fields) != [] && Text(fields)[|Text(fields)| - 1] == '\n'
  {
    if |fields| <= 1 {
    } else {
      TextEnds(fields[1..]);
    }
  }

  // ---- Where the variation stands -------------------------------------------------------

  const KEY: string := "TOTAL_VARIATION="
  const MARKER: string := "\nTOTAL_VARIATION="

  /** The marker occurs at this place only, and the variation's digits and a line end follow it. */
  ghost predicate Located(text: string, q: nat, variation: nat) {
    && (forall j :: Occurs(text, MARKER, j) <==> j == q)
    && DigitsAt(text, q + |MARKER|, variation)
  }

  /** One break before a T in the whole text, between its two parts. */
  lemma OneMarker(front: string, back: string, q: nat)
    requires front != [] && front[|front| - 1] == '\n'
    requires NoBreakBefore('T', front) && NoBreakBefore('T', back)
    requires Occurs(front + back, MARKER, q)
    ensures q == |front| - 1
  {
    var text := front + back;
    assert text[q..q + |MARKER|][0] == '\n' && text[q..q + |MARKER|][1] == 'T';
    assert text[q] == '\n' && text[q + 1] == 'T';
    assert forall i | 0 <= i < |front| :: text[i] == front[i];
    assert forall i | 0 <= i < |back| :: back[i] == text[i + |front|];
  }

  lemma MarkerOccurs(front: string, key: string, rest: string)
    requires front != [] && front[|front| - 1] == '\n' && MARKER == "\n" + key
    ensures Occurs(front + (key + rest), MARKER, |front| - 1)
  {
    var text := front + (key + rest);
    var q := |front| - 1;
    forall i | 0 <= i < |MARKER|
      ensures text[q..q + |MARKER|][i] == MARKER[i]
    {
      assert text[q..q + |MARKER|][i] == text[q + i];
      if i > 0 {
        assert text[q + i] == key[i - 1];
      }
    }
  }

  lemma LocateIn(
    text: string, front: string, back: string, key: string, digits: string, rest: string, variation: nat)
    requires text == front + back && back == key + digits + "\n" + rest
    requires front != [] && front[|front| - 1] == '\n' && MARKER == "\n" + key && digits == Decimal(variation)
    requires NoBreakBefore('T', front) && NoBreakBefore('T', back)
    ensures Located(text, |front| - 1, variation)
  {
    assert back == key + (digits + "\n" + rest);
    MarkerOccurs(front, key, digits + "\n" + rest);
    forall q: nat | Occurs(text, MARKER, q)
      ensures q == |front| - 1
    {
      OneMarker(front, back, q);
    }
    var start := |front| + |key|;
    assert text[start..start + |digits|] == digits;
    assert text[start + |digits|] == '\n';
  }

  lemma TailBreaks(x: ReplayNumbers)
    ensures var back := Variation(x).key + Decimal(x.variation) + "\n" + Text(Tail(x));
      Text([Variation(x)] + Tail(x)) == back && NoBreakBefore('T', back)
  {
    LongKeysOneLine();
    TextBreaks('T', [Variation(x)] + Tail(x));
    TextStep(Variation(x), Tail(x));
  }

  lemma HeadBreaks(x: ReplayNumbers)
    ensures NoBreakBefore('T', Text(Head(x)))
    ensures Text(Head(x)) != [] && Text(Head(x))[|Text(Head(x))| - 1] == '\n'
  {
    HeadClean(x);
    TextBreaks('T', Head(x));
    TextEnds(Head(x));
  }

  lemma OutputText(x: ReplayNumbers)
    ensures ReplayOutputText(x)
      == Text(Head(x)) + (Variation(x).key + Decimal(x.variation) + "\n" + Text(Tail(x)))
  {
    TailBreaks(x);
    TextAppend(Head(x), [Variation(x)] + Tail(x));
  }

  lemma Layout(x: ReplayNumbers) returns (front: string, back: string, rest: string)
    ensures front != [] && front[|front| - 1] == '\n' && NoBreakBefore('T', front)
    ensures back == KEY + Decimal(x.variation) + "\n" + rest && NoBreakBefore('T', back)
    ensures ReplayOutputText(x) == front + back
  {
    HeadBreaks(x);
    TailBreaks(x);
    OutputText(x);
    front, rest := Text(Head(x)), Text(Tail(x));
    back := Variation(x).key + Decimal(x.variation) + "\n" + rest;
  }

  lemma VariationLocated(x: ReplayNumbers) returns (q: nat)
    ensures Located(ReplayOutputText(x), q, x.variation)
  {
    var front, back, rest := Layout(x);
    LocateIn(ReplayOutputText(x), front, back, KEY, Decimal(x.variation), rest, x.variation);
    q := |front| - 1;
  }

  // ---- What the lines state ---------------------------------------------------------------

  predicate BeginsLine(text: string, key: string, q: nat) {
    Occurs(text, key, q) && (q == 0 || text[q - 1] == '\n')
  }

  /** One line of the text begins with the key, at this place, and the value is the rest of that line. */
  ghost predicate StatedAt(text: string, key: string, value: string, q: nat) {
    && (forall j: nat :: BeginsLine(text, key, j) <==> j == q)
    && Occurs(text, key + value + "\n", q) && OneLine(value)
  }

  ghost predicate Stated(text: string, key: string, value: string) {
    exists q: nat :: StatedAt(text, key, value, q)
  }

  lemma OnlyHere(front: string, back: string, key: string, q: nat)
    requires key != "" && BeginsLine(front + back, key, q)
    requires front != "" ==> front[|front| - 1] == '\n' && front[0] != key[0]
    requires NoBreakBefore(key[0], front) && NoBreakBefore(key[0], back)
    ensures q == |front|
  {
    var text := front + back;
    assert text[q..q + |key|][0] == key[0];
    assert text[q] == key[0];
    assert forall i | 0 <= i < |front| :: text[i] == front[i];
    assert forall i | 0 <= i < |back| :: back[i] == text[i + |front|];
  }

  lemma OccursBetween(front: string, middle: string, back: string)
    ensures Occurs(front + (middle + back), middle, |front|)
  {
    var text := front + (middle + back);
    assert text[|front|..|front| + |middle|] == middle;
  }

  lemma StatedBetween(text: string, front: string, key: string, value: string, rest: string)
    requires key != "" && OneLine(value) && text == front + (key + value + "\n" + rest)
    requires front != "" ==> front[|front| - 1] == '\n' && front[0] != key[0]
    requires NoBreakBefore(key[0], front) && NoBreakBefore(key[0], key + value + "\n" + rest)
    ensures StatedAt(text, key, value, |front|)
  {
    assert key + value + "\n" + rest == key + (value + "\n" + rest);
    OccursBetween(front, key, value + "\n" + rest);
    OccursBetween(front, key + value + "\n", rest);
    forall j: nat | BeginsLine(text, key, j)
      ensures j == |front|
    {
      OnlyHere(front, key + value + "\n" + rest, key, j);
    }
  }

  lemma ShownOneLine(f: Field)
    ensures OneLine(Shown(f))
  {
    match f
    case Fixed(_) =>
    case Natural(_, n) => DecimalOneLine(n);
    case Integer(_, i) => SignedDecimalOneLine(i);
  }

  lemma TextStart(fields: seq<Field>)
    requires fields != [] && fields[0].key != ""
    ensures Text(fields) != "" && Text(fields)[0] == fields[0].key[0]
  {
    LineStart(fields[0], Text(fields[1..]));
  }

  /** A field whose key begins like no other key is stated. */
  lemma FieldStated(before: seq<Field>, f: Field, after: seq<Field>)
    requires Clean(before) && OneLine(f.key) && Clean(after) && f.key != ""
    requires forall i | 0 <= i < |before| :: StartsOtherwise(f.key[0], before[i])
    requires forall i | 0 <= i < |after| :: StartsOtherwise(f.key[0], after[i])
    ensures Stated(Text(before + ([f] + after)), f.key, Shown(f))
  {
    var front, rest := Text(before), Text(after);
    TextAppend(before, [f] + after);
    TextStep(f, after);
    LineShown(f);
    ShownOneLine(f);
    TextBreaks(f.key[0], before);
    TextBreaks(f.key[0], [f] + after);
    if before != [] {
      TextEnds(before);
      TextStart(before);
    }
    StatedBetween(Text(before + ([f] + after)), front, f.key, Shown(f), rest);
  }

  /** The first letters of the keys, in order. */
  const LETTERS: string := "SKLHBDAUVTW"

  lemma LettersDiffer(i: nat, j: nat)
    requires i < j < 11
    ensures LETTERS[i] != LETTERS[j]
  {
  }

  lemma KeyLetter(x: ReplayNumbers, i: nat)
    requires i < 11
    ensures |Fields(x)| == 11 && Fields(x)[i].key != "" && Fields(x)[i].key[0] == LETTERS[i]
  {
  }

  lemma OtherLetters(x: ReplayNumbers, i: nat, j: nat)
    requires i < 11 && j < 11 && i != j
    ensures |Fields(x)| == 11 && Fields(x)[i].key != "" && StartsOtherwise(Fields(x)[i].key[0], Fields(x)[j])
  {
    KeyLetter(x, i);
    KeyLetter(x, j);
    if i < j { LettersDiffer(i, j); } else { LettersDiffer(j, i); }
  }

  /** Every line of a replay states its value, and no other line begins with its key. */
  lemma LineStated(x: ReplayNumbers, i: nat)
    requires i < 11
    ensures |Fields(x)| == 11 && Stated(ReplayOutputText(x), Fields(x)[i].key, Shown(Fields(x)[i]))
  {
    var fields := Fields(x);
    KeyLetter(x, i);
    FieldsClean(x);
    var before, after := fields[..i], fields[i + 1..];
    forall j | 0 <= j < 11 && j != i
      ensures StartsOtherwise(fields[i].key[0], fields[j])
    {
      OtherLetters(x, i, j);
    }
    FieldStated(before, fields[i], after);
    assert fields == before + ([fields[i]] + after);
  }

  ghost predicate StatesNumbers(text: string, x: ReplayNumbers) {
    && Stated(text, "K=", Decimal(x.K)) && Stated(text, "LOW=", Decimal(x.low))
    && Stated(text, "HIGH=", Decimal(x.high)) && Stated(text, "BEFORE=", SignedDecimal(x.before))
    && Stated(text, "DELTA_SUM=", SignedDecimal(x.deltaSum)) && Stated(text, "AFTER=", SignedDecimal(x.after))
    && Stated(text, "U_INC_UPPER_NUM=", SignedDecimal(x.signedUpper))
    && Stated(text, "V_INC_UPPER_NUM=", Decimal(x.absoluteUpper))
    && Stated(text, "TOTAL_VARIATION=", Decimal(x.variation))
    && Stated(text, "WEIGHT_SCALE=", Decimal(x.weightScale))
  }

  /** WHAT A REPLAY SAYS. Under each key exactly one line stands, with that number. */
  lemma ReplayStates(x: ReplayNumbers)
    ensures StatesNumbers(ReplayOutputText(x), x)
  {
    LineStated(x, 1);
    LineStated(x, 2);
    LineStated(x, 3);
    LineStated(x, 4);
    LineStated(x, 5);
    LineStated(x, 6);
    LineStated(x, 7);
    LineStated(x, 8);
    LineStated(x, 9);
    LineStated(x, 10);
    NamedFields(x);
  }

  lemma NamedFields(x: ReplayNumbers)
    ensures Fields(x)[1] == Natural("K=", x.K) && Fields(x)[2] == Natural("LOW=", x.low)
    ensures Fields(x)[3] == Natural("HIGH=", x.high) && Fields(x)[4] == Integer("BEFORE=", x.before)
    ensures Fields(x)[5] == Integer("DELTA_SUM=", x.deltaSum) && Fields(x)[6] == Integer("AFTER=", x.after)
    ensures Fields(x)[7] == Integer("U_INC_UPPER_NUM=", x.signedUpper)
    ensures Fields(x)[8] == Natural("V_INC_UPPER_NUM=", x.absoluteUpper)
    ensures Fields(x)[9] == Natural("TOTAL_VARIATION=", x.variation)
    ensures Fields(x)[10] == Natural("WEIGHT_SCALE=", x.weightScale)
  {
  }

  // ---- The check ------------------------------------------------------------------------

  function NumbersOf(p: Profile, c: Chunk, variation: nat): ReplayNumbers {
    ReplayNumbers(
      p.K, c.low, c.high, c.before, c.after - c.before, c.after, c.signedUpper, c.absoluteUpper, variation,
      p.weightScale)
  }

  /** What the replayer prints for these numbers. */
  function ExpectedReplay(p: Profile, c: Chunk, variation: nat): string {
    ReplayOutputText(NumbersOf(p, c, variation))
  }

  // The terminal writes the text it expects as one concatenation, each key with the line end before it.

  function Entry(key: string, value: string, rest: string): string {
    key + value + rest
  }

  function FromBefore(c: Chunk, rest: string): string {
    Entry("\nBEFORE=", SignedDecimal(c.before), Entry("\nDELTA_SUM=", SignedDecimal(c.after - c.before),
      Entry("\nAFTER=", SignedDecimal(c.after), rest)))
  }

  function FromSigned(p: Profile, c: Chunk, variation: nat): string {
    Entry("\nU_INC_UPPER_NUM=", SignedDecimal(c.signedUpper), Entry("\nV_INC_UPPER_NUM=", Decimal(c.absoluteUpper),
      Entry("\nTOTAL_VARIATION=", Decimal(variation), Entry("\nWEIGHT_SCALE=", Decimal(p.weightScale), "\n"))))
  }

  /** The text as the terminal writes it. */
  function Concatenated(p: Profile, c: Chunk, variation: nat): string {
    "SCHEMA=CDEM_ABEL_CHUNK_REPLAY_V1"
    + Entry("\nK=", Decimal(p.K), Entry("\nLOW=", Decimal(c.low), Entry("\nHIGH=", Decimal(c.high),
        FromBefore(c, FromSigned(p, c, variation)))))
  }

  /** Lines with the line end before each. */
  function Leading(fields: seq<Field>): string {
    if fields == [] then "\n" else Entry("\n" + fields[0].key, Shown(fields[0]), Leading(fields[1..]))
  }

  lemma {:induction false} LeadingIsText(fields: seq<Field>)
    ensures Leading(fields) == "\n" + Text(fields)
  {
    if fields == [] {
    } else {
      LeadingIsText(fields[1..]);
      MovedLineEnd(fields[0], Leading(fields[1..]), Text(fields[1..]));
    }
  }

  lemma MovedLineEnd(f: Field, leading: string, text: string)
    requires leading == "\n" + text
    ensures Entry("\n" + f.key, Shown(f), leading) == "\n" + (Line(f) + "\n" + text)
  {
    LineShown(f);
    var key, shown := f.key, Shown(f);
    assert (("\n" + key) + shown) + ("\n" + text) == "\n" + ((key + shown) + "\n" + text);
  }

  lemma LeadingStep(f: Field, rest: seq<Field>, key: string, value: string, text: string)
    requires key == "\n" + f.key && value == Shown(f) && text == Leading(rest)
    ensures Leading([f] + rest) == Entry(key, value, text)
  {
    assert ([f] + rest)[1..] == rest;
  }

  lemma LeadingThree(f: Field, g: Field, h: Field, rest: seq<Field>, first: string, second: string, third: string)
    requires first == "\n" + f.key && second == "\n" + g.key && third == "\n" + h.key
    ensures Leading([f] + ([g] + ([h] + rest)))
      == Entry(first, Shown(f), Entry(second, Shown(g), Entry(third, Shown(h), Leading(rest))))
  {
    LeadingStep(h, rest, third, Shown(h), Leading(rest));
    LeadingStep(g, [h] + rest, second, Shown(g), Leading([h] + rest));
    LeadingStep(f, [g] + ([h] + rest), first, Shown(f), Leading([g] + ([h] + rest)));
  }

  lemma LastKeys()
    ensures "\nU_INC_UPPER_NUM=" == "\n" + "U_INC_UPPER_NUM=" && "\nV_INC_UPPER_NUM=" == "\n" + "V_INC_UPPER_NUM="
    ensures "\nTOTAL_VARIATION=" == "\n" + "TOTAL_VARIATION=" && "\nWEIGHT_SCALE=" == "\n" + "WEIGHT_SCALE="
  {
  }

  lemma MiddleKeys()
    ensures "\nBEFORE=" == "\n" + "BEFORE=" && "\nDELTA_SUM=" == "\n" + "DELTA_SUM=" && "\nAFTER=" == "\n" + "AFTER="
  {
  }

  lemma FirstKeys()
    ensures "\nK=" == "\n" + "K=" && "\nLOW=" == "\n" + "LOW=" && "\nHIGH=" == "\n" + "HIGH="
  {
  }

  lemma LastFields(p: Profile, c: Chunk, variation: nat, x: ReplayNumbers)
    requires x == NumbersOf(p, c, variation)
    ensures FromSigned(p, c, variation) == Leading(
      [Integer("U_INC_UPPER_NUM=", x.signedUpper)] + ([Natural("V_INC_UPPER_NUM=", x.absoluteUpper)]
        + ([Variation(x)] + (Tail(x) + []))))
  {
    var weight := Tail(x)[0];
    LastKeys();
    LeadingStep(weight, [], "\nWEIGHT_SCALE=", Decimal(p.weightScale), "\n");
    LeadingThree(
      Integer("U_INC_UPPER_NUM=", x.signedUpper), Natural("V_INC_UPPER_NUM=", x.absoluteUpper), Variation(x),
      [weight] + [], "\nU_INC_UPPER_NUM=", "\nV_INC_UPPER_NUM=", "\nTOTAL_VARIATION=");
  }

  lemma MiddleShown(c: Chunk, f: Field, g: Field, h: Field, text: string)
    requires Shown(f) == SignedDecimal(c.before) && Shown(g) == SignedDecimal(c.after - c.before)
    requires Shown(h) == SignedDecimal(c.after)
    ensures FromBefore(c, text) == Entry("\nBEFORE=", Shown(f), Entry("\nDELTA_SUM=", Shown(g),
      Entry("\nAFTER=", Shown(h), text)))
  {
  }

  lemma MiddleFields(c: Chunk, before: Field, delta: Field, after: Field, rest: seq<Field>)
    requires before == Integer("BEFORE=", c.before) && delta == Integer("DELTA_SUM=", c.after - c.before)
    requires after == Integer("AFTER=", c.after)
    ensures FromBefore(c, Leading(rest)) == Leading([before] + ([delta] + ([after] + rest)))
  {
    MiddleKeys();
    LeadingThree(before, delta, after, rest, "\nBEFORE=", "\nDELTA_SUM=", "\nAFTER=");
    MiddleShown(c, before, delta, after, Leading(rest));
  }

  lemma SchemaFirst(schema: Field, line: string, rest: seq<Field>)
    requires schema == Fixed(line)
    ensures line + Leading(rest) == Text([schema] + rest)
  {
    LeadingIsText(rest);
    TextStep(schema, rest);
  }

  lemma FirstFields(x: ReplayNumbers, rest: seq<Field>, schema: string)
    ensures schema
      + Entry("\nK=", Decimal(x.K), Entry("\nLOW=", Decimal(x.low), Entry("\nHIGH=", Decimal(x.high), Leading(rest))))
      == Text([Fixed(schema)]
              + ([Natural("K=", x.K)] + ([Natural("LOW=", x.low)] + ([Natural("HIGH=", x.high)] + rest))))
  {
    FirstKeys();
    LeadingThree(
      Natural("K=", x.K), Natural("LOW=", x.low), Natural("HIGH=", x.high), rest, "\nK=", "\nLOW=", "\nHIGH=");
    SchemaFirst(Fixed(schema), schema,
                [Natural("K=", x.K)] + ([Natural("LOW=", x.low)] + ([Natural("HIGH=", x.high)] + rest)));
  }

  lemma FieldsInOrder(x: ReplayNumbers, last: seq<Field>, middle: seq<Field>)
    requires last == [Integer("U_INC_UPPER_NUM=", x.signedUpper)] + ([Natural("V_INC_UPPER_NUM=", x.absoluteUpper)]
      + ([Variation(x)] + (Tail(x) + [])))
    requires middle ==
      [Integer("BEFORE=", x.before)] + ([Integer("DELTA_SUM=", x.deltaSum)] + ([Integer("AFTER=", x.after)] + last))
    ensures Fields(x) == [Fixed("SCHEMA=CDEM_ABEL_CHUNK_REPLAY_V1")]
      + ([Natural("K=", x.K)] + ([Natural("LOW=", x.low)] + ([Natural("HIGH=", x.high)] + middle)))
  {
  }

  /** THE TWO PROGRAMS AGREE ON THE TEXT. The terminal's concatenation is the replayer's sequence of lines. */
  lemma ExpectedIsPrinted(p: Profile, c: Chunk, variation: nat)
    ensures Concatenated(p, c, variation) == ExpectedReplay(p, c, variation)
  {
    var x := NumbersOf(p, c, variation);
    var last := [Integer("U_INC_UPPER_NUM=", x.signedUpper)] + ([Natural("V_INC_UPPER_NUM=", x.absoluteUpper)]
      + ([Variation(x)] + (Tail(x) + [])));
    var middle :=
      [Integer("BEFORE=", x.before)] + ([Integer("DELTA_SUM=", x.deltaSum)] + ([Integer("AFTER=", x.after)] + last));
    LastFields(p, c, variation, x);
    MiddleFields(
      c, Integer("BEFORE=", x.before), Integer("DELTA_SUM=", x.deltaSum), Integer("AFTER=", x.after), last);
    FirstFields(x, middle, "SCHEMA=CDEM_ABEL_CHUNK_REPLAY_V1");
    FieldsInOrder(x, last, middle);
  }

  /** Where a text claims its variation to be: the digits after the one marker. */
  method ReadVariation(text: string) returns (variation: Option<nat>)
    ensures variation.Some? ==> variation.value <= MAX_64
    ensures forall q: nat, v: nat | Located(text, q, v) && v <= MAX_64 :: variation == Some(v)
  {
    assert forall q: nat, v: nat | Located(text, q, v) :: Occurs(text, MARKER, q);
    var markerOffset := Find(text, MARKER, 0);
    if markerOffset.None? {
      return None;
    }
    var second := Find(text, MARKER, markerOffset.value + 1);
    if second.Some? {
      return None;
    }
    variation := ReadDigits(text, markerOffset.value + |MARKER|);
    forall q: nat, v: nat | Located(text, q, v) && v <= MAX_64
      ensures variation == Some(v)
    {
      assert q == markerOffset.value;
      assert DigitsAt(text, q + |MARKER|, v);
    }
  }

  /** The digits of v and a line end stand at the place. */
  predicate DigitsAt(text: string, start: nat, v: nat) {
    var end := start + |Decimal(v)|;
    end < |text| && text[start..end] == Decimal(v) && text[end] == '\n'
  }

  method ReadDigits(text: string, start: nat) returns (variation: Option<nat>)
    requires start <= |text|
    ensures variation.Some? ==> variation.value <= MAX_64
    ensures forall v: nat | DigitsAt(text, start, v) && v <= MAX_64 :: variation == Some(v)
  {
    var valueEnd := Find(text, "\n", start);
    forall v: nat | DigitsAt(text, start, v)
      ensures valueEnd == Some(start + |Decimal(v)|)
    {
      LineEndAfter(text, start, Decimal(v), valueEnd, v);
    }
    if valueEnd.None? {
      return None;
    }
    var digits := text[start..valueEnd.value];
    variation := ParseUnsigned(digits, MAX_64);
    forall v: nat | DigitsAt(text, start, v) && v <= MAX_64
      ensures variation == Some(v)
    {
      ParsedExactly(digits, MAX_64, v);
    }
  }

  lemma LineEndAfter(text: string, start: nat, digits: string, found: Option<nat>, v: nat)
    requires digits == Decimal(v) && start + |digits| < |text|
    requires text[start..start + |digits|] == digits && text[start + |digits|] == '\n'
    requires found.Some? ==> start <= found.value && Occurs(text, "\n", found.value)
    requires found.Some? ==> forall q | start <= q < found.value :: !Occurs(text, "\n", q)
    requires found.None? ==> forall q | start <= q :: !Occurs(text, "\n", q)
    ensures found == Some(start + |digits|)
  {
    var end := start + |digits|;
    assert Occurs(text, "\n", end);
    DecimalOneLine(v);
    forall q | start <= q < end
      ensures !Occurs(text, "\n", q)
    {
      assert text[start..end][q - start] == text[q];
      assert text[q..q + 1][0] == text[q];
    }
  }

  /** REPLAY CHECK. A replay passes with a variation exactly when it printed this row's numbers with it. */
  method ValidateReplay(p: Profile, c: Chunk, stdout: string, stderr: string) returns (variation: Option<nat>)
    ensures forall v: nat :: variation == Some(v) <==> stderr == "" && v <= MAX_64 && stdout == ExpectedReplay(p, c, v)
  {
    if stderr != "" {
      return None;
    }
    forall v: nat | stdout == ExpectedReplay(p, c, v)
      ensures exists q :: Located(stdout, q, v)
    {
      var x := NumbersOf(p, c, v);
      var q := VariationLocated(x);
    }
    variation := ReadVariation(stdout);
    if variation.None? {
      return None;
    }
    ExpectedIsPrinted(p, c, variation.value);
    if stdout != Concatenated(p, c, variation.value) {
      return None;
    }
  }
}
