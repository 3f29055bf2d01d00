/** Evaluation of expressions at points: where every intermediate number is a word, the answer is exact
    (reference/exact_binary64.py, lines 536-685; reference/evaluator.py, lines 24-123). */
module PointRows {
  import opened Outcomes
  import opened Binary64
  import opened Rounding
  import opened Intervals
  import opened IntervalLaws
  import opened Tightness
  import opened WireFormat
  import opened Evaluator
  import opened Certificates

  /** The interval holds x and no other number. */
  predicate IsPoint(a: Interval, x: real) {
    a.HasFiniteEndpoints() && FiniteValue(a.lo) == x && FiniteValue(a.hi) == x
  }

  lemma PointMeans(a: Interval, x: real)
    ensures IsPoint(a, x) <==> a.Contains(x) && forall y | a.Contains(y) :: y == x
  {
    if a.Contains(x) && !IsPoint(a, x) {
      var above := NumberAbove(a, x + 1.0);
      var below := NumberBelow(a, x - 1.0);
      assert a.Contains(above) && a.Contains(below) && (above != x || below != x);
    }
  }

  lemma WithinPoint(a: Interval, c: Interval, x: real)
    requires IsPoint(c, x) && a.Within(c) && a.Contains(x)
    ensures IsPoint(a, x)
  {
  }

  lemma PointOf(x: real) returns (c: Interval)
    requires Representable(x)
    ensures IsPoint(c, x)
  {
    var w: Word :| IsFinite(w) && FiniteValue(w) == x;
    c := Endpoints(w, w);
  }

  /** An operation at a point whose exact result is a word gives exactly that result. */
  lemma OperationPoint(op: Operation, a: Interval, b: Interval, x: real, y: real)
    requires IsPoint(a, x) && IsPoint(b, y) && Defined(op, y) && Representable(Exact(op, x, y))
    ensures IntervalOperation(op, a, b).Success? && IsPoint(IntervalOperation(op, a, b).value, Exact(op, x, y))
  {
    var c := PointOf(Exact(op, x, y));
    PointMeans(a, x);
    PointMeans(b, y);
    assert Encloses(op, a, b, c);
    NumberHeld(a, x);
    NumberHeld(b, y);
    TightWhenExact(op, a, b);
    OperationEncloses(op, a, b, x, y);
    WithinPoint(IntervalOperation(op, a, b).value, c, Exact(op, x, y));
  }

  lemma NegPoint(a: Interval, x: real)
    requires IsPoint(a, x)
    ensures IntervalNeg(a).Success? && IsPoint(IntervalNeg(a).value, -x)
  {
    NegLaw(a, x);
    PointMeans(a, x);
    forall y | IntervalNeg(a).value.Contains(y)
      ensures y == -x
    {
      NegLaw(a, -y);
    }
    PointMeans(IntervalNeg(a).value, -x);
  }

  lemma AbsPoint(a: Interval, x: real)
    requires IsPoint(a, x)
    ensures IntervalAbs(a).Success? && IsPoint(IntervalAbs(a).value, Abs(x))
  {
    var c: Interval := Endpoints(Magnitude(a.lo), Magnitude(a.lo));
    MagnitudeIsAbs(a.lo);
    PointMeans(a, x);
    AbsEncloses(a, x);
    AbsTight(a, c, x);
    WithinPoint(IntervalAbs(a).value, c, Abs(x));
  }

  /** Every power up to the exponent is a word. */
  ghost predicate PowersRepresentable(x: real, exponent: nat) {
    forall k: nat | k <= exponent :: Representable(RealPower(x, k))
  }

  /** POWERS AT A POINT. Where every power on the way is a word, the interval power is exactly the power. */
  lemma {:induction false} PowPoint(a: Interval, x: real, exponent: nat)
    requires IsPoint(a, x) && PowersRepresentable(x, exponent)
    ensures IntervalPow(a, exponent).Success? && IsPoint(IntervalPow(a, exponent).value, RealPower(x, exponent))
  {
    if exponent == 0 {
      PowTotal(a, 0);
      forall y
        ensures IntervalPow(a, 0).value.Contains(y) <==> y == 1.0
      {
        PowZeroIsOne(a, y, IntervalPow(a, 0).value);
      }
      PointMeans(IntervalPow(a, 0).value, 1.0);
    } else {
      var last := exponent - 1;
      PowPoint(a, x, last);
      PowPointStep(a, x, last, IntervalPow(a, last).value);
    }
  }

  lemma PowPointStep(a: Interval, x: real, last: nat, previous: Interval)
    requires IsPoint(a, x) && Representable(RealPower(x, last + 1))
    requires IntervalPow(a, last) == Success(previous) && IsPoint(previous, RealPower(x, last))
    ensures IntervalPow(a, last + 1).Success?
    ensures IsPoint(IntervalPow(a, last + 1).value, RealPower(x, last + 1))
  {
    assert RealPower(x, last + 1) == Exact(Mul, RealPower(x, last), x);
    OperationPoint(Mul, previous, a, RealPower(x, last), x);
    PowStep(a, last, previous);
  }

  // ---- Trees ----------------------------------------------------------------------

  /** Every number met while evaluating f at xs is a word. */
  ghost predicate WordsOnly(f: Formula, xs: seq<real>) {
    Value(f, xs).Some? &&
    match f
    case Number(x) => Representable(x)
    case Variable(_) => true
    case Opposite(arg) => WordsOnly(arg, xs)
    case Absolute(arg) => WordsOnly(arg, xs)
    case ToPower(arg, exponent) => WordsOnly(arg, xs) && PowersRepresentable(Value(arg, xs).value, exponent)
    case Apply(op, left, right) =>
      && WordsOnly(left, xs) && WordsOnly(right, xs)
      && Representable(Exact(op, Value(left, xs).value, Value(right, xs).value))
  }

  /** f is e, all of whose constants are points. */
  predicate PointConstants(f: Formula, e: Expression) {
    match e
    case Const(encoded) =>
      f.Number? && DecodeInterval(encoded).Success? && IsPoint(DecodeInterval(encoded).value, f.x)
    case Var(index) => f == Variable(index)
    case Negation(arg) => f.Opposite? && PointConstants(f.arg, arg)
    case AbsoluteValue(arg) => f.Absolute? && PointConstants(f.arg, arg)
    case PowNat(arg, exponent) => f.ToPower? && f.exponent == exponent && PointConstants(f.arg, arg)
    case Binary(op, left, right) =>
      f.Apply? && f.op == op && PointConstants(f.left, left) && PointConstants(f.right, right)
  }

  predicate PointRow(xs: seq<real>, row: Row) {
    |xs| == |row| && forall j | 0 <= j < |row| :: IsPoint(row[j], xs[j])
  }

  /** TREES AT A POINT. On a row of points, where every number on the way is a word, a tree evaluates to exactly
      the value of its formula. */
  lemma {:induction false} TreePoint(e: Expression, f: Formula, row: Row, xs: seq<real>)
    requires PointRow(xs, row) && PointConstants(f, e) && WordsOnly(f, xs)
    ensures EvalTree(e, row).Success? && IsPoint(EvalTree(e, row).value, Value(f, xs).value)
  {
    match e
    case Const(_) =>
    case Var(_) =>
    case Negation(arg) =>
      TreePoint(arg, f.arg, row, xs);
      NegPoint(EvalTree(arg, row).value, Value(f.arg, xs).value);
    case AbsoluteValue(arg) =>
      TreePoint(arg, f.arg, row, xs);
      AbsPoint(EvalTree(arg, row).value, Value(f.arg, xs).value);
    case PowNat(arg, exponent) =>
      TreePoint(arg, f.arg, row, xs);
      PowPoint(EvalTree(arg, row).value, Value(f.arg, xs).value, exponent);
    case Binary(op, left, right) =>
      TreePoint(left, f.left, row, xs);
      TreePoint(right, f.right, row, xs);
      OperationPoint(op, EvalTree(left, row).value, EvalTree(right, row).value,
                     Value(f.left, xs).value, Value(f.right, xs).value);
  }

  /** And so does the compiled program, on the row's wire form. */
  lemma RowPoint(e: Expression, f: Formula, encoded: seq<EncodedInterval>, xs: seq<real>)
    requires Compile(e).Success? && DecodeRow(encoded).Success? && PointRow(xs, DecodeRow(encoded).value)
    requires PointConstants(f, e) && WordsOnly(f, xs)
    ensures var r := EvaluateRow(Compile(e).value, encoded);
      && r.Success? && DecodeInterval(r.value).Success?
      && IsPoint(DecodeInterval(r.value).value, Value(f, xs).value)
  {
    var row := DecodeRow(encoded).value;
    TreePoint(e, f, row, xs);
    ProgramEvaluatesTree(e, row);
    EncodeDecode(EvalTree(e, row).value);
  }
}
