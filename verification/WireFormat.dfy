/** Typed requests and certificates, their validators and their cost
    (reference/format.py, lines 28-45 and 191-482). */
module WireFormat {
  import opened Outcomes
  import opened Numbers
  import opened MachineWords
  import opened Binary64
  import opened Intervals
  import opened IntervalLaws

  const SCHEMA_VERSION := 1
  const BATCH_KIND := "sparkinterval_reference_batch"
  const RESULT_KIND := "sparkinterval_reference_result"
  const CERTIFICATE_KIND := "sparkinterval_reference_certificate"
  const ALGORITHM_ID := "sparkinterval.binary64_interval_expr.v1"
  const MAX_EXPRESSION_DEPTH := 256
  const MAX_EXPRESSION_NODES := 100_000
  const MAX_VARIABLE_COUNT := 65_536
  const MAX_BATCH_ROWS := 1_000_000
  const MAX_POW_EXPONENT := 64
  const MAX_ARITHMETIC_COST_PER_ROW := 4_096
  const MAX_TOTAL_ARITHMETIC_WORK := 10_000_000

  // ---- Hexadecimal words --------------------------------------------------

  function HexDigit(d: nat): char
    requires d < 16
  {
    if d < 10 then '0' + d as char else 'a' + (d - 10) as char
  }

  function HexDigitValue(c: char): (d: nat)
    requires IsHexDigit(c)
    ensures d < 16
  {
    if c <= '9' then (c - '0') as nat else 10 + (c - 'a') as nat
  }

  function Hex(value: nat, width: nat): string {
    if width == 0 then "" else Hex(value / 16, width - 1) + [HexDigit(value % 16)]
  }

  function HexValue(text: string): nat
    requires forall c | c in text :: IsHexDigit(c)
  {
    if |text| == 0 then 0
    else 16 * HexValue(text[..|text| - 1]) + HexDigitValue(text[|text| - 1])
  }

  function Power16(n: nat): nat {
    if n == 0 then 1 else 16 * Power16(n - 1)
  }

  lemma {:induction false} HexRoundTrip(value: nat, width: nat)
    requires value < Power16(width)
    ensures IsHex(Hex(value, width), width) && HexValue(Hex(value, width)) == value
  {
    if width == 0 {
    } else {
      HexRoundTrip(value / 16, width - 1);
      var text := Hex(value, width);
      assert text[..width - 1] == Hex(value / 16, width - 1);
    }
  }

  lemma LastHexDigit(front: nat, digit: nat)
    requires digit < 16
    ensures (16 * front + digit) / 16 == front && (16 * front + digit) % 16 == digit
  {
  }

  lemma {:induction false} HexValueRoundTrip(text: string)
    requires IsHex(text, |text|)
    ensures HexValue(text) < Power16(|text|) && Hex(HexValue(text), |text|) == text
  {
    if |text| == 0 {
    } else {
      var last := |text| - 1;
      HexValueRoundTrip(text[..last]);
      assert text == text[..last] + [text[last]];
      var digit := HexDigitValue(text[last]);
      assert HexDigit(digit) == text[last];
      LastHexDigit(HexValue(text[..last]), digit);
    }
  }

  /** Hexadecimal digits stand for the numbers from 0 to 15 in their own order. */
  lemma HexDigitOrder(c: char, d: char)
    requires IsHexDigit(c) && IsHexDigit(d)
    ensures c < d <==> HexDigitValue(c) < HexDigitValue(d)
    ensures HexDigitValue('0') == 0 && HexDigitValue('f') == 15
  {
  }

  /** HEXADECIMAL WORDS. The first digit weighs the greatest power of sixteen, and the rest follow. */
  lemma {:induction false} LeadingHexDigit(c: char, rest: string)
    requires IsHexDigit(c) && IsHex(rest, |rest|)
    ensures HexValue([c] + rest) == HexDigitValue(c) * Power16(|rest|) + HexValue(rest)
  {
    var text := [c] + rest;
    if rest == [] {
      assert text[..|text| - 1] == [];
    } else {
      var front, last := rest[..|rest| - 1], rest[|rest| - 1];
      LeadingHexDigit(c, front);
      assert text[..|text| - 1] == [c] + front;
      ShiftOnce(HexDigitValue(c), Power16(|front|), HexValue(front), HexDigitValue(last));
    }
  }

  lemma ShiftOnce(digit: nat, weight: nat, front: nat, last: nat)
    ensures 16 * (digit * weight + front) + last == digit * (16 * weight) + (16 * front + last)
  {
  }

  lemma WordsAreSixteenDigits()
    ensures Power16(16) == TWO_64
  {
    assert Power16(4) == 65536;
    assert Power16(8) == 65536 * 65536;
    assert Power16(12) == 65536 * 65536 * 65536;
  }

  function ParseBinary64Hex(text: string): Result<Word, Fault> {
    if !IsHex(text, 16) then Failure(MalformedInterval)
    else
      var bits := HexValue(text);
      HexValueRoundTrip(text);
      WordsAreSixteenDigits();
      if IsNaN(bits) then Failure(NaNEndpoint) else Success(bits)
  }

  function Binary64Hex(bits: Word): Result<string, Fault> {
    if IsNaN(bits) then Failure(NaNEndpoint) else Success(Hex(bits, 16))
  }

  /** Exactly the non-NaN words are written, and each has exactly one spelling. */
  lemma HexCodec(bits: Word, text: string)
    ensures Binary64Hex(bits) == Success(text) <==> ParseBinary64Hex(text) == Success(bits)
  {
    WordsAreSixteenDigits();
    HexRoundTrip(bits, 16);
    if IsHex(text, 16) { HexValueRoundTrip(text); }
  }

  // ---- Intervals on the wire ----------------------------------------------

  datatype EncodedInterval = EncodedInterval(lo: string, hi: string)

  predicate NumericLe(left: Word, right: Word) {
    if IsZero(left) && IsZero(right) then true
    else if Negative(left) != Negative(right) then Negative(left)
    else if Negative(left) then left >= right
    else left <= right
  }

  /** The comparison of encodings is the comparison of the exact values. */
  lemma NumericLeAgrees(left: Word, right: Word)
    requires !IsNaN(left) && !IsNaN(right)
    ensures NumericLe(left, right) <==> EndpointCompare(left, right).value <= 0
  {
    NumericOrder(left, right);
  }

  predicate ValidInterval(value: EncodedInterval, requireFinite: bool) {
    var lo := ParseBinary64Hex(value.lo);
    var hi := ParseBinary64Hex(value.hi);
    && lo.Success? && hi.Success?
    && (requireFinite ==> IsFinite(lo.value) && IsFinite(hi.value))
    && NumericLe(lo.value, hi.value)
  }

  function DecodeInterval(value: EncodedInterval): Result<Interval, Fault> {
    if !IsHex(value.lo, 16) || !IsHex(value.hi, 16) then Failure(MalformedInterval)
    else
      HexValueRoundTrip(value.lo);
      HexValueRoundTrip(value.hi);
      WordsAreSixteenDigits();
      MakeInterval(HexValue(value.lo), HexValue(value.hi))
  }

  function EncodeInterval(value: Interval): Result<EncodedInterval, Fault> {
    var lo :- Binary64Hex(value.lo);
    var hi :- Binary64Hex(value.hi);
    var encoded := EncodedInterval(lo, hi);
    if ValidInterval(encoded, false) then Success(encoded) else Failure(MalformedInterval)
  }

  /** A wire interval is valid exactly when it decodes. */
  lemma ValidIsDecodable(value: EncodedInterval)
    ensures ValidInterval(value, false) <==> DecodeInterval(value).Success?
    ensures ValidInterval(value, true) <==>
      DecodeInterval(value).Success? && DecodeInterval(value).value.HasFiniteEndpoints()
  {
    if IsHex(value.lo, 16) && IsHex(value.hi, 16) {
      HexValueRoundTrip(value.lo);
      HexValueRoundTrip(value.hi);
      WordsAreSixteenDigits();
      var lo, hi := HexValue(value.lo), HexValue(value.hi);
      if !IsNaN(lo) && !IsNaN(hi) { NumericLeAgrees(lo, hi); }
    }
  }

  /** Encoding never fails on an interval, and decoding undoes it. */
  lemma EncodeDecode(value: Interval)
    ensures EncodeInterval(value).Success?
    ensures DecodeInterval(EncodeInterval(value).value) == Success(value)
  {
    HexCodec(value.lo, Hex(value.lo, 16));
    HexCodec(value.hi, Hex(value.hi, 16));
    NumericLeAgrees(value.lo, value.hi);
    ValidIsDecodable(EncodedInterval(Hex(value.lo, 16), Hex(value.hi, 16)));
  }

  // ---- Expressions --------------------------------------------------------

  datatype Expression =
    | Const(value: EncodedInterval)
    | Var(index: int)
    | Negation(arg: Expression)
    | AbsoluteValue(arg: Expression)
    | PowNat(arg: Expression, exponent: int)
    | Binary(op: Operation, left: Expression, right: Expression)

  function Larger(a: nat, b: nat): nat {
    if a < b then b else a
  }

  function Depth(e: Expression): nat {
    match e
    case Const(_) => 0
    case Var(_) => 0
    case Negation(arg) => 1 + Depth(arg)
    case AbsoluteValue(arg) => 1 + Depth(arg)
    case PowNat(arg, _) => 1 + Depth(arg)
    case Binary(_, left, right) => 1 + Larger(Depth(left), Depth(right))
  }

  function NodeCount(e: Expression): (n: nat)
    ensures n >= 1
  {
    match e
    case Const(_) => 1
    case Var(_) => 1
    case Negation(arg) => 1 + NodeCount(arg)
    case AbsoluteValue(arg) => 1 + NodeCount(arg)
    case PowNat(arg, _) => 1 + NodeCount(arg)
    case Binary(_, left, right) => 1 + NodeCount(left) + NodeCount(right)
  }

  /** Every node's own fields are acceptable. */
  predicate NodesOk(e: Expression, variableCount: int) {
    match e
    case Const(value) => ValidInterval(value, true)
    case Var(index) => 0 <= index < variableCount
    case Negation(arg) => NodesOk(arg, variableCount)
    case AbsoluteValue(arg) => NodesOk(arg, variableCount)
    case PowNat(arg, exponent) => 0 <= exponent <= MAX_POW_EXPONENT && NodesOk(arg, variableCount)
    case Binary(_, left, right) => NodesOk(left, variableCount) && NodesOk(right, variableCount)
  }

  predicate ExpressionOk(e: Expression, variableCount: int) {
    NodesOk(e, variableCount) && Depth(e) <= MAX_EXPRESSION_DEPTH && NodeCount(e) <= MAX_EXPRESSION_NODES
  }

  /** The recursive validator, with the node counter its calls share. */
  class ExpressionValidator {
    var counter: nat

    constructor ()
      ensures counter == 0
    {
      counter := 0;
    }

    method Validate(e: Expression, variableCount: int, depth: nat) returns (ok: bool)
      modifies this
      ensures ok <==>
        && NodesOk(e, variableCount)
        && depth + Depth(e) <= MAX_EXPRESSION_DEPTH
        && old(counter) + NodeCount(e) <= MAX_EXPRESSION_NODES
      ensures ok ==> counter == old(counter) + NodeCount(e)
      decreases e
    {
      if depth > MAX_EXPRESSION_DEPTH {
        return false;
      }
      counter := counter + 1;
      if counter > MAX_EXPRESSION_NODES {
        return false;
      }
      match e
      case Const(value) =>
        ok := ValidInterval(value, true);
      case Var(index) =>
        ok := index >= 0 && index < variableCount;
      case Negation(arg) =>
        ok := Validate(arg, variableCount, depth + 1);
      case AbsoluteValue(arg) =>
        ok := Validate(arg, variableCount, depth + 1);
      case PowNat(arg, exponent) =>
        if exponent < 0 || exponent > MAX_POW_EXPONENT {
          return false;
        }
        ok := Validate(arg, variableCount, depth + 1);
      case Binary(_, left, right) =>
        ok := Validate(left, variableCount, depth + 1);
        if ok {
          ok := Validate(right, variableCount, depth + 1);
        }
    }
  }

  // ---- Cost ---------------------------------------------------------------

  function ArithmeticCost(e: Expression): nat {
    var cap := MAX_ARITHMETIC_COST_PER_ROW + 1;
    match e
    case Const(_) => 1
    case Var(_) => 1
    case Negation(arg) => Lesser(cap, ArithmeticCost(arg) + 1)
    case AbsoluteValue(arg) => Lesser(cap, ArithmeticCost(arg) + 1)
    case PowNat(arg, exponent) => Lesser(cap, ArithmeticCost(arg) * Repeats(exponent) + 1)
    case Binary(_, left, right) => Lesser(cap, ArithmeticCost(left) + ArithmeticCost(right) + 1)
  }

  function Repeats(exponent: int): (n: nat)
    ensures n >= 1 && n >= exponent
  {
    if exponent < 1 then 1 else exponent
  }

  /** The cost without saturation. */
  function ExactCost(e: Expression): (n: nat)
    ensures n >= 1
  {
    match e
    case Const(_) => 1
    case Var(_) => 1
    case Negation(arg) => ExactCost(arg) + 1
    case AbsoluteValue(arg) => ExactCost(arg) + 1
    case PowNat(arg, exponent) =>
      TimesAtLeast(ExactCost(arg), Repeats(exponent));
      ExactCost(arg) * Repeats(exponent) + 1
    case Binary(_, left, right) => ExactCost(left) + ExactCost(right) + 1
  }

  lemma TimesAtLeast(a: nat, b: nat)
    requires a >= 1 && b >= 1
    ensures a * b >= a && a * b >= b
  {
    assert (a - 1) * (b - 1) >= 0;
  }

  lemma GrowingProduct(cap: nat, cost: nat, repeats: nat)
    requires repeats >= 1 && cap <= cost
    ensures cap <= cap * repeats <= cost * repeats
  {
    assert (cost - cap) * repeats >= 0 && cap * (repeats - 1) >= 0;
  }

  lemma SaturatedProduct(cap: nat, cost: nat, repeats: nat)
    requires repeats >= 1
    ensures Lesser(cap, Lesser(cap, cost) * repeats + 1) == Lesser(cap, cost * repeats + 1)
  {
    if cost > cap {
      GrowingProduct(cap, cost, repeats);
    }
  }

  /** Saturating at every node is saturating once at the end. */
  lemma {:induction false} CostSaturates(e: Expression)
    ensures ArithmeticCost(e) == Lesser(MAX_ARITHMETIC_COST_PER_ROW + 1, ExactCost(e))
  {
    match e
    case Const(_) =>
    case Var(_) =>
    case Negation(arg) => CostSaturates(arg);
    case AbsoluteValue(arg) => CostSaturates(arg);
    case PowNat(arg, exponent) =>
      CostSaturates(arg);
      SaturatedProduct(MAX_ARITHMETIC_COST_PER_ROW + 1, ExactCost(arg), Repeats(exponent));
    case Binary(_, left, right) =>
      CostSaturates(left);
      CostSaturates(right);
  }

  /** Every node and every interval operation of one evaluation is paid for. */
  function OperationCount(e: Expression): nat {
    match e
    case Const(_) => 0
    case Var(_) => 0
    case Negation(arg) => OperationCount(arg) + 1
    case AbsoluteValue(arg) => OperationCount(arg) + 1
    case PowNat(arg, exponent) => OperationCount(arg) + (if exponent < 0 then 0 else exponent)
    case Binary(_, left, right) => OperationCount(left) + OperationCount(right) + 1
  }

  lemma {:induction false} CostBoundsWork(e: Expression)
    ensures NodeCount(e) <= ExactCost(e)
    ensures OperationCount(e) < ExactCost(e)
  {
    match e
    case Const(_) =>
    case Var(_) =>
    case Negation(arg) => CostBoundsWork(arg);
    case AbsoluteValue(arg) => CostBoundsWork(arg);
    case PowNat(arg, exponent) =>
      CostBoundsWork(arg);
      PowCost(OperationCount(arg), ExactCost(arg), Repeats(exponent));
      TimesAtLeast(ExactCost(arg), Repeats(exponent));
    case Binary(_, left, right) =>
      CostBoundsWork(left);
      CostBoundsWork(right);
  }

  /** No power multiplies its base more than once. */
  predicate FirstPowers(e: Expression) {
    match e
    case Const(_) => true
    case Var(_) => true
    case Negation(arg) => FirstPowers(arg)
    case AbsoluteValue(arg) => FirstPowers(arg)
    case PowNat(arg, exponent) => exponent <= 1 && FirstPowers(arg)
    case Binary(_, left, right) => FirstPowers(left) && FirstPowers(right)
  }

  /** Then the cost is the number of nodes. */
  lemma {:induction false} CostIsNodeCount(e: Expression)
    requires FirstPowers(e)
    ensures ExactCost(e) == NodeCount(e)
  {
    match e
    case Const(_) =>
    case Var(_) =>
    case Negation(arg) => CostIsNodeCount(arg);
    case AbsoluteValue(arg) => CostIsNodeCount(arg);
    case PowNat(arg, _) => CostIsNodeCount(arg);
    case Binary(_, left, right) =>
      CostIsNodeCount(left);
      CostIsNodeCount(right);
  }

  lemma PowCost(operations: nat, cost: nat, repeats: nat)
    requires operations < cost && repeats >= 1
    ensures operations + repeats <= cost * repeats
  {
    var spare := cost - 1;
    if spare >= 1 { TimesAtLeast(spare, repeats); }
    assert cost * repeats == spare * repeats + repeats;
  }

  // ---- Batches, results, certificates --------------------------------------

  datatype Batch = Batch(
    schemaVersion: int,
    kind: string,
    algorithm: string,
    variableCount: int,
    expression: Expression,
    rows: seq<seq<EncodedInterval>>)

  datatype BatchResult = BatchResult(
    schemaVersion: int,
    kind: string,
    algorithm: string,
    batchSha256: string,
    rows: seq<EncodedInterval>)

  datatype Certificate = Certificate(
    schemaVersion: int,
    kind: string,
    batch: Batch,
    batchSha256: string,
    result: BatchResult,
    resultSha256: string)

  /** SHA-256 of the canonical bytes, left uninterpreted. */
  datatype Hashes = Hashes(ofBatch: Batch -> string, ofResult: BatchResult -> string)

  predicate RowOk(row: seq<EncodedInterval>, variableCount: int) {
    |row| == variableCount && forall interval | interval in row :: ValidInterval(interval, true)
  }

  predicate BatchOk(batch: Batch) {
    && batch.schemaVersion == SCHEMA_VERSION
    && batch.kind == BATCH_KIND
    && batch.algorithm == ALGORITHM_ID
    && 0 <= batch.variableCount <= MAX_VARIABLE_COUNT
    && ExpressionOk(batch.expression, batch.variableCount)
    && 0 < |batch.rows| <= MAX_BATCH_ROWS
    && ArithmeticCost(batch.expression) <= MAX_ARITHMETIC_COST_PER_ROW
    && |batch.rows| * ArithmeticCost(batch.expression) <= MAX_TOTAL_ARITHMETIC_WORK
    && forall row | row in batch.rows :: RowOk(row, batch.variableCount)
  }

  method ValidateBatch(batch: Batch) returns (ok: bool)
    ensures ok <==> BatchOk(batch)
  {
    if batch.schemaVersion != SCHEMA_VERSION || batch.kind != BATCH_KIND || batch.algorithm != ALGORITHM_ID {
      return false;
    }
    if batch.variableCount < 0 || batch.variableCount > MAX_VARIABLE_COUNT {
      return false;
    }
    var validator := new ExpressionValidator();
    var expressionOk := validator.Validate(batch.expression, batch.variableCount, 0);
    if !expressionOk {
      return false;
    }
    if |batch.rows| == 0 || |batch.rows| > MAX_BATCH_ROWS {
      return false;
    }
    var cost := ArithmeticCost(batch.expression);
    if cost > MAX_ARITHMETIC_COST_PER_ROW || |batch.rows| * cost > MAX_TOTAL_ARITHMETIC_WORK {
      return false;
    }
    for i := 0 to |batch.rows|
      invariant forall k | 0 <= k < i :: RowOk(batch.rows[k], batch.variableCount)
    {
      var row := batch.rows[i];
      assert row in batch.rows;
      if |row| != batch.variableCount {
        return false;
      }
      for j := 0 to |row|
        invariant forall k | 0 <= k < j :: ValidInterval(row[k], true)
      {
        if !ValidInterval(row[j], true) {
          return false;
        }
      }
    }
    return true;
  }

  predicate ResultOk(result: BatchResult, batch: Batch, hashes: Hashes) {
    && result.schemaVersion == SCHEMA_VERSION
    && result.kind == RESULT_KIND
    && result.algorithm == ALGORITHM_ID
    && IsHex(result.batchSha256, 64)
    && |result.rows| <= MAX_BATCH_ROWS
    && (forall interval | interval in result.rows :: ValidInterval(interval, false))
    && BatchOk(batch)
    && result.batchSha256 == hashes.ofBatch(batch)
    && |result.rows| == |batch.rows|
  }

  method ValidateResult(result: BatchResult, batch: Batch, hashes: Hashes) returns (ok: bool)
    ensures ok <==> ResultOk(result, batch, hashes)
  {
    if result.schemaVersion != SCHEMA_VERSION || result.kind != RESULT_KIND
       || result.algorithm != ALGORITHM_ID || !IsHex(result.batchSha256, 64)
       || |result.rows| > MAX_BATCH_ROWS
    {
      return false;
    }
    for i := 0 to |result.rows|
      invariant forall k | 0 <= k < i :: ValidInterval(result.rows[k], false)
    {
      if !ValidInterval(result.rows[i], false) {
        assert result.rows[i] in result.rows;
        return false;
      }
    }
    var batchOk := ValidateBatch(batch);
    return batchOk && result.batchSha256 == hashes.ofBatch(batch) && |result.rows| == |batch.rows|;
  }

  predicate CertificateOk(certificate: Certificate, hashes: Hashes) {
    && certificate.schemaVersion == SCHEMA_VERSION
    && certificate.kind == CERTIFICATE_KIND
    && ResultOk(certificate.result, certificate.batch, hashes)
    && IsHex(certificate.batchSha256, 64)
    && IsHex(certificate.resultSha256, 64)
    && certificate.batchSha256 == hashes.ofBatch(certificate.batch)
    && certificate.resultSha256 == hashes.ofResult(certificate.result)
  }
}
