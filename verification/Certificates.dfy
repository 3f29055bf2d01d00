/** Batch evaluation, the certificate check, and what acceptance means
    (reference/evaluator.py, lines 126-183). */
module Certificates {
  import opened Outcomes
  import opened MachineWords
  import opened Binary64
  import opened Intervals
  import opened IntervalLaws
  import opened WireFormat
  import opened Evaluator

  datatype BatchFault = InvalidBatch | InvalidProgram(fault: Fault) | RowFault(row: nat, fault: Fault) | InvalidResult

  // ---- Evaluation of a batch ----------------------------------------------

  function DecodeRow(encoded: seq<EncodedInterval>): Result<Row, Fault> {
    if |encoded| == 0 then Success([])
    else
      var last := |encoded| - 1;
      var before :- DecodeRow(encoded[..last]);
      var value :- DecodeInterval(encoded[last]);
      Success(before + [value])
  }

  function EvaluateRow(program: seq<Instruction>, encoded: seq<EncodedInterval>): Result<EncodedInterval, Fault> {
    var row :- DecodeRow(encoded);
    var value :- Finish(Run(program, [], row));
    EncodeInterval(value)
  }

  function EvaluateRows(program: seq<Instruction>, rows: seq<seq<EncodedInterval>>)
    : Result<seq<EncodedInterval>, BatchFault>
  {
    if |rows| == 0 then Success([])
    else
      var last := |rows| - 1;
      var before :- EvaluateRows(program, rows[..last]);
      var value := EvaluateRow(program, rows[last]);
      if value.Failure? then Failure(RowFault(last, value.error)) else Success(before + [value.value])
  }

  function EvaluateBatch(batch: Batch, hashes: Hashes): Result<BatchResult, BatchFault> {
    if !BatchOk(batch) then Failure(InvalidBatch)
    else
      var program := Compile(batch.expression);
      if program.Failure? then Failure(InvalidProgram(program.error))
      else
        var rows :- EvaluateRows(program.value, batch.rows);
        var result := BatchResult(SCHEMA_VERSION, RESULT_KIND, ALGORITHM_ID, hashes.ofBatch(batch), rows);
        if ResultOk(result, batch, hashes) then Success(result) else Failure(InvalidResult)
  }

  method DecodeRowLoop(encoded: seq<EncodedInterval>) returns (r: Result<Row, Fault>)
    ensures r == DecodeRow(encoded)
  {
    r := Success([]);
    for i := 0 to |encoded|
      invariant r == DecodeRow(encoded[..i])
    {
      assert encoded[..i + 1][..i] == encoded[..i];
      if r.Success? {
        var value := DecodeInterval(encoded[i]);
        r := if value.Failure? then Failure(value.error) else Success(r.value + [value.value]);
      }
    }
    assert encoded[..|encoded|] == encoded;
  }

  /** One row: decode, run, encode. */
  method EvaluateRowLoop(program: seq<Instruction>, encoded: seq<EncodedInterval>)
    returns (r: Result<EncodedInterval, Fault>, ghost work: nat)
    ensures r == EvaluateRow(program, encoded) && work <= ProgramWork(program)
  {
    work := 0;
    var row := DecodeRowLoop(encoded);
    if row.Failure? {
      return Failure(row.error), work;
    }
    var value, runWork := RunProgram(program, row.value);
    work := runWork;
    if value.Failure? {
      return Failure(value.error), work;
    }
    r := EncodeInterval(value.value);
  }

  lemma RowsLoopStep(
    program: seq<Instruction>, rows: seq<seq<EncodedInterval>>, i: nat, done: seq<EncodedInterval>)
    requires i < |rows| && EvaluateRows(program, rows[..i]) == Success(done)
    ensures var value := EvaluateRow(program, rows[i]);
      && (value.Failure? ==> EvaluateRows(program, rows) == Failure(RowFault(i, value.error)))
      && (value.Success? ==> EvaluateRows(program, rows[..i + 1]) == Success(done + [value.value]))
  {
    assert rows[..i + 1] == rows[..i] + [rows[i]];
    EvaluateRowsStep(program, rows[..i], rows[i], rows[..i + 1]);
    PrefixFault(program, rows, i + 1);
  }

  method EvaluateRowsLoop(program: seq<Instruction>, rows: seq<seq<EncodedInterval>>)
    returns (r: Result<seq<EncodedInterval>, BatchFault>, ghost work: nat)
    ensures r == EvaluateRows(program, rows) && work <= |rows| * ProgramWork(program)
  {
    work := 0;
    ghost var perRow := ProgramWork(program);
    var outputRows: seq<EncodedInterval> := [];
    for i := 0 to |rows|
      invariant EvaluateRows(program, rows[..i]) == Success(outputRows)
      invariant work <= i * perRow
    {
      RowsLoopStep(program, rows, i, outputRows);
      WorkStep(i, |rows|, perRow);
      var encoded, rowWork := EvaluateRowLoop(program, rows[i]);
      work := work + rowWork;
      if encoded.Failure? {
        return Failure(RowFault(i, encoded.error)), work;
      }
      outputRows := outputRows + [encoded.value];
    }
    assert rows[..|rows|] == rows;
    r := Success(outputRows);
  }

  /** The whole batch, with a count of the interval operations performed. */
  method EvaluateBatchLoop(batch: Batch, hashes: Hashes)
    returns (r: Result<BatchResult, BatchFault>, ghost work: nat)
    ensures r == EvaluateBatch(batch, hashes)
    ensures work <= MAX_TOTAL_ARITHMETIC_WORK
  {
    work := 0;
    var valid := ValidateBatch(batch);
    if !valid {
      return Failure(InvalidBatch), work;
    }
    var builder := new ProgramBuilder();
    var compiled := builder.Visit(batch.expression);
    if compiled.Failure? {
      return Failure(InvalidProgram(compiled.error)), work;
    }
    var program := builder.program;
    assert program == Compile(batch.expression).value;
    AcceptedWork(batch);
    var rows, rowsWork := EvaluateRowsLoop(program, batch.rows);
    work := rowsWork;
    if rows.Failure? {
      return Failure(rows.error), work;
    }
    var result := BatchResult(SCHEMA_VERSION, RESULT_KIND, ALGORITHM_ID, hashes.ofBatch(batch), rows.value);
    var resultOk := ValidateResult(result, batch, hashes);
    r := if resultOk then Success(result) else Failure(InvalidResult);
  }

  lemma {:induction false} PrefixFault(program: seq<Instruction>, rows: seq<seq<EncodedInterval>>, n: nat)
    requires n <= |rows|
    ensures EvaluateRows(program, rows[..n]).Failure? ==>
      EvaluateRows(program, rows) == EvaluateRows(program, rows[..n])
    decreases |rows| - n
  {
    if n == |rows| {
      assert rows[..n] == rows;
    } else {
      assert rows[..n + 1][..n] == rows[..n];
      PrefixFault(program, rows, n + 1);
    }
  }

  lemma WorkStep(i: nat, n: nat, perRow: nat)
    requires i < n
    ensures i * perRow + perRow == (i + 1) * perRow <= n * perRow
  {
    SmallerFactor(perRow, i + 1, n);
  }

  /** An accepted batch performs at most MAX_TOTAL_ARITHMETIC_WORK interval operations. */
  lemma AcceptedWork(batch: Batch)
    requires BatchOk(batch) && Compile(batch.expression).Success?
    ensures |batch.rows| * ProgramWork(Compile(batch.expression).value) <= MAX_TOTAL_ARITHMETIC_WORK
    ensures NodeCount(batch.expression) <= MAX_ARITHMETIC_COST_PER_ROW
  {
    var e := batch.expression;
    CostSaturates(e);
    CostBoundsWork(e);
    CompiledWork(e);
    SmallerFactor(|batch.rows|, ProgramWork(Compile(e).value), ArithmeticCost(e));
  }

  lemma SmallerFactor(n: nat, a: nat, b: nat)
    requires a <= b
    ensures n * a <= n * b
  {
  }

  // ---- Totality -----------------------------------------------------------

  /** Some division of the tree meets a divisor that holds zero. */
  predicate MeetsZeroDivisor(e: Expression, row: Row) {
    match e
    case Const(_) => false
    case Var(_) => false
    case Negation(arg) => MeetsZeroDivisor(arg, row)
    case AbsoluteValue(arg) => MeetsZeroDivisor(arg, row)
    case PowNat(arg, _) => MeetsZeroDivisor(arg, row)
    case Binary(op, left, right) =>
      || MeetsZeroDivisor(left, row)
      || MeetsZeroDivisor(right, row)
      || (op == Div && EvalTree(right, row).Success? && EvalTree(right, row).value.Contains(0.0))
  }

  /** On validated input the evaluation of a tree fails exactly at a divisor that holds zero;
      every other fault is unreachable. */
  lemma {:induction false} EvaluationTotal(e: Expression, row: Row)
    requires NodesOk(e, |row|)
    ensures Compile(e).Success?
    ensures MeetsZeroDivisor(e, row) ==> EvalTree(e, row) == Failure(DivisorContainsZero)
    ensures !MeetsZeroDivisor(e, row) ==> EvalTree(e, row).Success?
  {
    match e
    case Const(encoded) => ValidIsDecodable(encoded);
    case Var(_) =>
    case Negation(arg) =>
      EvaluationTotal(arg, row);
      if EvalTree(arg, row).Success? { NegLaw(EvalTree(arg, row).value, 0.0); }
    case AbsoluteValue(arg) =>
      EvaluationTotal(arg, row);
      if EvalTree(arg, row).Success? { AbsOrdinals(EvalTree(arg, row).value); }
    case PowNat(arg, exponent) =>
      EvaluationTotal(arg, row);
      if EvalTree(arg, row).Success? { PowTotal(EvalTree(arg, row).value, exponent); }
    case Binary(op, left, right) =>
      EvaluationTotal(left, row);
      EvaluationTotal(right, row);
      if EvalTree(left, row).Success? && EvalTree(right, row).Success? {
        OperationTotal(op, EvalTree(left, row).value, EvalTree(right, row).value);
      }
  }

  lemma {:induction false} RowsDecode(encoded: seq<EncodedInterval>)
    requires forall interval | interval in encoded :: ValidInterval(interval, true)
    ensures DecodeRow(encoded).Success? && |DecodeRow(encoded).value| == |encoded|
    ensures forall j | 0 <= j < |encoded| ::
      DecodeInterval(encoded[j]) == Success(DecodeRow(encoded).value[j])
  {
    if |encoded| == 0 {
    } else {
      var last := |encoded| - 1;
      RowsDecode(encoded[..last]);
      ValidIsDecodable(encoded[last]);
      assert encoded == encoded[..last] + [encoded[last]];
    }
  }

  /** One row of an accepted batch: its fault, or the encoding of its tree's value. */
  lemma RowOutcome(batch: Batch, i: nat)
    requires BatchOk(batch) && i < |batch.rows|
    ensures Compile(batch.expression).Success? && DecodeRow(batch.rows[i]).Success?
    ensures var row := DecodeRow(batch.rows[i]).value;
      var r := EvaluateRow(Compile(batch.expression).value, batch.rows[i]);
      if MeetsZeroDivisor(batch.expression, row) then r == Failure(DivisorContainsZero)
      else
        && EvalTree(batch.expression, row).Success?
        && r.Success? && DecodeInterval(r.value) == EvalTree(batch.expression, row)
  {
    var e := batch.expression;
    assert RowOk(batch.rows[i], batch.variableCount) by { assert batch.rows[i] in batch.rows; }
    RowsDecode(batch.rows[i]);
    var row := DecodeRow(batch.rows[i]).value;
    EvaluationTotal(e, row);
    ProgramEvaluatesTree(e, row);
    if EvalTree(e, row).Success? {
      EncodeDecode(EvalTree(e, row).value);
    }
  }

  lemma EvaluateRowsStep(
    program: seq<Instruction>, before: seq<seq<EncodedInterval>>, row: seq<EncodedInterval>,
    rows: seq<seq<EncodedInterval>>)
    requires rows == before + [row]
    ensures var r, value := EvaluateRows(program, before), EvaluateRow(program, row);
      EvaluateRows(program, rows) ==
        if r.Failure? then r
        else if value.Failure? then Failure(RowFault(|before|, value.error))
        else Success(r.value + [value.value])
  {
    assert rows[..|before|] == before;
  }

  lemma {:induction false} EvaluateRowsAt(program: seq<Instruction>, rows: seq<seq<EncodedInterval>>)
    ensures EvaluateRows(program, rows).Success? <==>
      forall i | 0 <= i < |rows| :: EvaluateRow(program, rows[i]).Success?
    ensures EvaluateRows(program, rows).Success? ==>
      && |EvaluateRows(program, rows).value| == |rows|
      && forall i | 0 <= i < |rows| ::
           EvaluateRow(program, rows[i]) == Success(EvaluateRows(program, rows).value[i])
    ensures EvaluateRows(program, rows).Failure? ==>
      && EvaluateRows(program, rows).error.RowFault?
      && var i := EvaluateRows(program, rows).error.row;
         i < |rows| && EvaluateRow(program, rows[i]) == Failure(EvaluateRows(program, rows).error.fault)
  {
    if |rows| == 0 {
    } else {
      var last := |rows| - 1;
      EvaluateRowsAt(program, rows[..last]);
      EvaluateRowsStep(program, rows[..last], rows[last], rows);
      RowsAtStep(program, rows[..last], rows[last], rows, EvaluateRows(program, rows[..last]));
    }
  }

  lemma RowsAtStep(
    program: seq<Instruction>, front: seq<seq<EncodedInterval>>, row: seq<EncodedInterval>,
    rows: seq<seq<EncodedInterval>>, before: Result<seq<EncodedInterval>, BatchFault>)
    requires rows == front + [row]
    requires before.Success? <==> forall i | 0 <= i < |front| :: EvaluateRow(program, front[i]).Success?
    requires before.Success? ==>
      && |before.value| == |front|
      && forall i | 0 <= i < |front| :: EvaluateRow(program, front[i]) == Success(before.value[i])
    ensures before.Success? && EvaluateRow(program, row).Success? <==>
      forall i | 0 <= i < |rows| :: EvaluateRow(program, rows[i]).Success?
    ensures before.Success? && EvaluateRow(program, row).Success? ==>
      var values := before.value + [EvaluateRow(program, row).value];
      forall i | 0 <= i < |rows| :: EvaluateRow(program, rows[i]) == Success(values[i])
  {
    assert forall i | 0 <= i < |front| :: rows[i] == front[i];
    assert rows[|front|] == row;
  }

  lemma RowEnds(batch: Batch, i: nat)
    requires BatchOk(batch) && i < |batch.rows|
    ensures Compile(batch.expression).Success? && DecodeRow(batch.rows[i]).Success?
    ensures var r := EvaluateRow(Compile(batch.expression).value, batch.rows[i]);
      && (r.Success? ==> ValidInterval(r.value, false))
      && (r.Failure? ==> r.error == DivisorContainsZero)
      && (r.Success? <==> !MeetsZeroDivisor(batch.expression, DecodeRow(batch.rows[i]).value))
  {
    RowOutcome(batch, i);
    var r := EvaluateRow(Compile(batch.expression).value, batch.rows[i]);
    if r.Success? { ValidIsDecodable(r.value); }
  }

  /** An accepted batch is evaluated, unless some row meets a divisor that holds zero; there is no
      other failure. The digest only has to be spelled as a SHA-256 digest is. */
  lemma BatchTotal(batch: Batch, hashes: Hashes)
    requires BatchOk(batch) && IsHex(hashes.ofBatch(batch), 64)
    ensures forall i | 0 <= i < |batch.rows| :: DecodeRow(batch.rows[i]).Success?
    ensures EvaluateBatch(batch, hashes).Success? <==>
      forall i | 0 <= i < |batch.rows| :: !MeetsZeroDivisor(batch.expression, DecodeRow(batch.rows[i]).value)
    ensures EvaluateBatch(batch, hashes).Failure? ==>
      exists i: nat :: EvaluateBatch(batch, hashes) == Failure(RowFault(i, DivisorContainsZero))
  {
    RowOutcome(batch, 0);
    forall i | 0 <= i < |batch.rows|
      ensures DecodeRow(batch.rows[i]).Success?
      ensures var r := EvaluateRow(Compile(batch.expression).value, batch.rows[i]);
        && (r.Success? ==> ValidInterval(r.value, false))
        && (r.Failure? ==> r.error == DivisorContainsZero)
        && (r.Success? <==> !MeetsZeroDivisor(batch.expression, DecodeRow(batch.rows[i]).value))
    {
      RowEnds(batch, i);
    }
    EvaluateRowsAt(Compile(batch.expression).value, batch.rows);
  }

  // ---- The certificate check ----------------------------------------------

  predicate ResultAccepted(batch: Batch, result: BatchResult, hashes: Hashes) {
    && BatchOk(batch)
    && ResultOk(result, batch, hashes)
    && EvaluateBatch(batch, hashes) == Success(result)
  }

  predicate CertificateAccepted(certificate: Certificate, hashes: Hashes) {
    && BatchOk(certificate.batch)
    && CertificateOk(certificate, hashes)
    && ResultAccepted(certificate.batch, certificate.result, hashes)
  }

  function IssueCertificate(batch: Batch, hashes: Hashes): Result<Certificate, BatchFault> {
    var result :- EvaluateBatch(batch, hashes);
    Success(Certificate(
      SCHEMA_VERSION, CERTIFICATE_KIND, batch, hashes.ofBatch(batch), result, hashes.ofResult(result)))
  }

  method CheckResult(batch: Batch, result: BatchResult, hashes: Hashes) returns (accepted: bool)
    ensures accepted <==> ResultAccepted(batch, result, hashes)
  {
    var batchOk := ValidateBatch(batch);
    var resultOk := ValidateResult(result, batch, hashes);
    if !batchOk || !resultOk {
      return false;
    }
    var expected, _ := EvaluateBatchLoop(batch, hashes);
    accepted := expected == Success(result);
  }

  method CheckCertificate(certificate: Certificate, hashes: Hashes) returns (accepted: bool)
    ensures accepted <==> CertificateAccepted(certificate, hashes)
  {
    var batchOk := ValidateBatch(certificate.batch);
    if !batchOk || !CertificateOk(certificate, hashes) {
      return false;
    }
    accepted := CheckResult(certificate.batch, certificate.result, hashes);
  }

  /** Issued certificates are accepted, and for a batch only the issued result is. */
  lemma OnlyIssuedAccepted(certificate: Certificate, hashes: Hashes)
    requires IsHex(hashes.ofBatch(certificate.batch), 64)
    requires IsHex(hashes.ofResult(certificate.result), 64)
    ensures CertificateAccepted(certificate, hashes) <==>
      IssueCertificate(certificate.batch, hashes) == Success(certificate)
  {
  }

  // ---- What acceptance means ----------------------------------------------

  /** An expression with a real number chosen at every constant. */
  datatype Formula =
    | Number(x: real)
    | Variable(index: int)
    | Opposite(arg: Formula)
    | Absolute(arg: Formula)
    | ToPower(arg: Formula, exponent: int)
    | Apply(op: Operation, left: Formula, right: Formula)

  /** Exact evaluation at a point; None when some denominator is zero. */
  function Value(f: Formula, xs: seq<real>): Option<real> {
    match f
    case Number(x) => Some(x)
    case Variable(index) => if 0 <= index < |xs| then Some(xs[index]) else None
    case Opposite(arg) =>
      var a := Value(arg, xs);
      if a.None? then None else Some(-a.value)
    case Absolute(arg) =>
      var a := Value(arg, xs);
      if a.None? then None else Some(Abs(a.value))
    case ToPower(arg, exponent) =>
      var a := Value(arg, xs);
      if a.None? || exponent < 0 then None else Some(RealPower(a.value, exponent))
    case Apply(op, left, right) =>
      var a := Value(left, xs);
      var b := Value(right, xs);
      if a.None? || b.None? || !Defined(op, b.value) then None else Some(Exact(op, a.value, b.value))
  }

  /** f is e with every constant interval replaced by one of its points. */
  predicate Chooses(f: Formula, e: Expression) {
    match e
    case Const(encoded) =>
      f.Number? && DecodeInterval(encoded).Success? && DecodeInterval(encoded).value.Contains(f.x)
    case Var(index) => f == Variable(index)
    case Negation(arg) => f.Opposite? && Chooses(f.arg, arg)
    case AbsoluteValue(arg) => f.Absolute? && Chooses(f.arg, arg)
    case PowNat(arg, exponent) => f.ToPower? && f.exponent == exponent && Chooses(f.arg, arg)
    case Binary(op, left, right) => f.Apply? && f.op == op && Chooses(f.left, left) && Chooses(f.right, right)
  }

  predicate PointIn(xs: seq<real>, row: Row) {
    |xs| == |row| && forall j | 0 <= j < |row| :: row[j].Contains(xs[j])
  }

  lemma PowerEncloses(a: Interval, x: real, exponent: nat)
    requires a.Contains(x)
    ensures IntervalPow(a, exponent).Success? && IntervalPow(a, exponent).value.Contains(RealPower(x, exponent))
  {
    PowIsProduct(x, exponent);
    PowEncloses(a, exponent, seq(exponent, _ => x));
  }

  /** The value of a tree encloses the exact value at every point and every choice of constants. */
  lemma {:induction false} TreeEncloses(e: Expression, f: Formula, row: Row, xs: seq<real>)
    requires NodesOk(e, |row|) && PointIn(xs, row) && Chooses(f, e)
    requires EvalTree(e, row).Success?
    ensures Value(f, xs).Some? && EvalTree(e, row).value.Contains(Value(f, xs).value)
  {
    match e
    case Const(_) =>
    case Var(_) =>
    case Negation(arg) =>
      TreeEncloses(arg, f.arg, row, xs);
      NegLaw(EvalTree(arg, row).value, Value(f.arg, xs).value);
    case AbsoluteValue(arg) =>
      TreeEncloses(arg, f.arg, row, xs);
      AbsEncloses(EvalTree(arg, row).value, Value(f.arg, xs).value);
    case PowNat(arg, exponent) =>
      TreeEncloses(arg, f.arg, row, xs);
      PowerEncloses(EvalTree(arg, row).value, Value(f.arg, xs).value, exponent);
    case Binary(op, left, right) =>
      TreeEncloses(left, f.left, row, xs);
      TreeEncloses(right, f.right, row, xs);
      var a, b := EvalTree(left, row).value, EvalTree(right, row).value;
      OperationTotal(op, a, b);
      OperationEncloses(op, a, b, Value(f.left, xs).value, Value(f.right, xs).value);
  }

  /** CERTIFICATE SOUNDNESS. If the checker accepts, then in every row, at every point of the row's
      intervals and for every choice of reals inside the constants' intervals, the exact expression
      is defined and lies in that row's certified interval. */
  lemma CertificateSound(certificate: Certificate, hashes: Hashes, i: nat, f: Formula, xs: seq<real>)
    requires CertificateAccepted(certificate, hashes)
    requires i < |certificate.batch.rows| && DecodeRow(certificate.batch.rows[i]).Success?
    requires PointIn(xs, DecodeRow(certificate.batch.rows[i]).value)
    requires Chooses(f, certificate.batch.expression)
    ensures |certificate.result.rows| == |certificate.batch.rows|
    ensures DecodeInterval(certificate.result.rows[i]).Success?
    ensures Value(f, xs).Some?
    ensures DecodeInterval(certificate.result.rows[i]).value.Contains(Value(f, xs).value)
  {
    var batch := certificate.batch;
    var e := batch.expression;
    var row := DecodeRow(batch.rows[i]).value;
    var program := Compile(e).value;
    assert RowOk(batch.rows[i], batch.variableCount) by { assert batch.rows[i] in batch.rows; }
    RowsDecode(batch.rows[i]);
    EvaluateRowsAt(program, batch.rows);
    assert EvaluateRow(program, batch.rows[i]) == Success(certificate.result.rows[i]);
    RowOutcome(batch, i);
    TreeEncloses(e, f, row, xs);
  }

  // ---- Inclusion isotonicity ----------------------------------------------

  predicate RowWithin(inner: Row, outer: Row) {
    |inner| == |outer| && forall j | 0 <= j < |inner| :: inner[j].Within(outer[j])
  }

  /** Where evaluation succeeded on the wider row it succeeds on the narrower one, inside the wider result. */
  lemma {:induction false} ProgramIsotone(e: Expression, inner: Row, outer: Row)
    requires RowWithin(inner, outer) && EvalTree(e, outer).Success?
    ensures EvalTree(e, inner).Success?
    ensures EvalTree(e, inner).value.Within(EvalTree(e, outer).value)
  {
    match e
    case Const(_) => WithinReflexive(EvalTree(e, outer).value);
    case Var(_) =>
    case Negation(arg) =>
      ProgramIsotone(arg, inner, outer);
      NegIsotone(EvalTree(arg, inner).value, EvalTree(arg, outer).value);
    case AbsoluteValue(arg) =>
      ProgramIsotone(arg, inner, outer);
      AbsIsotone(EvalTree(arg, inner).value, EvalTree(arg, outer).value);
    case PowNat(arg, exponent) =>
      ProgramIsotone(arg, inner, outer);
      PowIsotone(EvalTree(arg, inner).value, EvalTree(arg, outer).value, exponent);
    case Binary(op, left, right) =>
      ProgramIsotone(left, inner, outer);
      ProgramIsotone(right, inner, outer);
      OperationIsotone(op, EvalTree(left, inner).value, EvalTree(left, outer).value,
                       EvalTree(right, inner).value, EvalTree(right, outer).value);
  }

  /** The encoded row lies, entry by entry, inside the other. */
  ghost predicate EncodedWithin(inner: seq<EncodedInterval>, outer: seq<EncodedInterval>) {
    DecodeRow(inner).Success? && DecodeRow(outer).Success? && RowWithin(DecodeRow(inner).value, DecodeRow(outer).value)
  }

  ghost predicate ResultWithin(inner: EncodedInterval, outer: EncodedInterval) {
    && DecodeInterval(inner).Success? && DecodeInterval(outer).Success?
    && DecodeInterval(inner).value.Within(DecodeInterval(outer).value)
  }

  /** The same for a compiled run on encoded rows. */
  lemma RowIsotone(e: Expression, inner: seq<EncodedInterval>, outer: seq<EncodedInterval>)
    requires Compile(e).Success? && EncodedWithin(inner, outer)
    requires EvaluateRow(Compile(e).value, outer).Success?
    ensures EvaluateRow(Compile(e).value, inner).Success?
    ensures ResultWithin(EvaluateRow(Compile(e).value, inner).value, EvaluateRow(Compile(e).value, outer).value)
  {
    var innerRow, outerRow := DecodeRow(inner).value, DecodeRow(outer).value;
    ProgramEvaluatesTree(e, innerRow);
    ProgramEvaluatesTree(e, outerRow);
    ProgramIsotone(e, innerRow, outerRow);
    EncodeDecode(EvalTree(e, innerRow).value);
    EncodeDecode(EvalTree(e, outerRow).value);
  }

  /** ISOTONICITY OF BATCHES. If a batch evaluates, so does any accepted batch of the same expression whose
      rows lie inside its rows, and every result row lies inside the corresponding one. */
  lemma BatchIsotone(inner: Batch, outer: Batch, hashes: Hashes)
    requires BatchOk(inner) && inner.expression == outer.expression && |inner.rows| == |outer.rows|
    requires IsHex(hashes.ofBatch(inner), 64)
    requires forall i | 0 <= i < |inner.rows| :: EncodedWithin(inner.rows[i], outer.rows[i])
    requires EvaluateBatch(outer, hashes).Success?
    ensures EvaluateBatch(inner, hashes).Success?
    ensures var r, wide := EvaluateBatch(inner, hashes).value.rows, EvaluateBatch(outer, hashes).value.rows;
      |r| == |wide| == |inner.rows| && forall i | 0 <= i < |r| :: ResultWithin(r[i], wide[i])
  {
    RowOutcome(outer, 0);
    var program := Compile(inner.expression).value;
    BatchRows(outer, hashes, program);
    BatchTotal(inner, hashes);
    forall i | 0 <= i < |inner.rows|
      ensures EvaluateRow(program, inner.rows[i]).Success?
      ensures ResultWithin(EvaluateRow(program, inner.rows[i]).value, EvaluateRow(program, outer.rows[i]).value)
      ensures !MeetsZeroDivisor(inner.expression, DecodeRow(inner.rows[i]).value)
    {
      RowIsotone(inner.expression, inner.rows[i], outer.rows[i]);
      RowOutcome(inner, i);
    }
    BatchRows(inner, hashes, program);
  }

  /** A batch's result rows are its rows' results. */
  lemma BatchRows(batch: Batch, hashes: Hashes, program: seq<Instruction>)
    requires EvaluateBatch(batch, hashes).Success? && Compile(batch.expression) == Success(program)
    ensures |EvaluateBatch(batch, hashes).value.rows| == |batch.rows|
    ensures forall i | 0 <= i < |batch.rows| ::
      EvaluateRow(program, batch.rows[i]) == Success(EvaluateBatch(batch, hashes).value.rows[i])
  {
    EvaluateRowsAt(program, batch.rows);
  }
}
