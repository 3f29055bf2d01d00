/** When the result of an interval operation is the tightest binary64 enclosure, infinite endpoints included
    (reference/exact_binary64.py, lines 530-664). */
module Tightness {
  import opened Outcomes
  import opened Numbers
  import opened Binary64
  import opened Rounding
  import opened Intervals
  import opened IntervalLaws

  /** The result lies in every binary64 interval that encloses the exact image. */
  ghost predicate Tight(op: Operation, a: Interval, b: Interval)
    requires !ZeroDivision(op, b)
  {
    IntervalOperation(op, a, b).Success?
    && forall c: Interval | Encloses(op, a, b, c) :: IntervalOperation(op, a, b).value.Within(c)
  }

  // ---- Intervals with a number --------------------------------------------

  /** All intervals but the two infinite points hold a number. */
  predicate HoldsNumber(a: Interval) {
    a.lo != POSITIVE_INFINITY && a.hi != NEGATIVE_INFINITY
  }

  lemma NumericInfinity(w: Word)
    requires !IsNaN(w)
    ensures Numeric(w) == PlusInfinity <==> w == POSITIVE_INFINITY
    ensures Numeric(w) == MinusInfinity <==> w == NEGATIVE_INFINITY
    ensures Numeric(w).Finite? <==> IsFinite(w)
  {
  }

  lemma NumberHeld(a: Interval, x: real)
    requires a.Contains(x)
    ensures HoldsNumber(a)
  {
    NumericInfinity(a.lo);
    NumericInfinity(a.hi);
  }

  /** A number of a at or above the bound, where a has one. */
  lemma NumberAbove(a: Interval, bound: real) returns (x: real)
    requires HoldsNumber(a)
    ensures a.Contains(x)
    ensures IsFinite(a.hi) ==> x == FiniteValue(a.hi)
    ensures !IsFinite(a.hi) ==> x >= bound
  {
    NumericInfinity(a.lo);
    NumericInfinity(a.hi);
    x := if IsFinite(a.hi) then FiniteValue(a.hi)
         else if IsFinite(a.lo) && FiniteValue(a.lo) > bound then FiniteValue(a.lo) else bound;
  }

  // ---- Mirror images --------------------------------------------------------

  function Mirrored(a: Interval): (r: Interval) {
    NegateMirrors(a.lo);
    NegateMirrors(a.hi);
    Endpoints(Negate(a.hi), Negate(a.lo))
  }

  lemma MirroredHolds(a: Interval, x: real)
    ensures a.Contains(x) <==> Mirrored(a).Contains(-x)
    ensures HoldsNumber(a) <==> HoldsNumber(Mirrored(a))
    ensures Mirrored(Mirrored(a)) == a
  {
    NegateMirrors(a.lo);
    NegateMirrors(a.hi);
  }

  // ---- Reaching past the finite words ---------------------------------------

  predicate Beyond(v: real) {
    v > FiniteValue(MAX_FINITE)
  }

  /** Some exact result lies above every finite word. */
  ghost predicate ReachesUp(op: Operation, a: Interval, b: Interval) {
    exists v, x, y :: Attained(op, a, b, v, x, y) && Beyond(v)
  }

  /** Some exact result lies below every finite word. */
  ghost predicate ReachesDown(op: Operation, a: Interval, b: Interval) {
    exists v, x, y :: Attained(op, a, b, v, x, y) && Beyond(-v)
  }

  lemma FiniteNotBeyond(w: Word)
    requires IsFinite(w)
    ensures !Beyond(FiniteValue(w)) && !Beyond(-FiniteValue(w)) && FiniteValue(MAX_FINITE) > 0.0
  {
    ValueOrder(Magnitude(w), MAX_FINITE);
    ValueOrder(MAX_FINITE, 0);
  }

  lemma UpperEndIsInfinite(c: Interval, v: real)
    requires c.Contains(v) && Beyond(v)
    ensures Numeric(c.hi) == PlusInfinity
  {
    if IsFinite(c.hi) { FiniteNotBeyond(c.hi); }
  }

  lemma LowerEndIsInfinite(c: Interval, v: real)
    requires c.Contains(v) && Beyond(-v)
    ensures Numeric(c.lo) == MinusInfinity
  {
    if IsFinite(c.lo) { FiniteNotBeyond(c.lo); }
  }

  const AT_MOST_MAX: Endpoints := Endpoints(NEGATIVE_INFINITY, MAX_FINITE)
  const AT_LEAST_MIN: Endpoints := Endpoints(MIN_FINITE, POSITIVE_INFINITY)

  lemma HalfLines(v: real)
    ensures AT_MOST_MAX.Valid() && (AT_MOST_MAX.Contains(v) <==> !Beyond(v)) && !WHOLE.Within(AT_MOST_MAX)
    ensures AT_LEAST_MIN.Valid() && (AT_LEAST_MIN.Contains(v) <==> !Beyond(-v)) && !WHOLE.Within(AT_LEAST_MIN)
  {
    assert Magnitude(MIN_FINITE) == MAX_FINITE;
    SignedValue(MIN_FINITE);
  }

  /** The whole line is the tightest enclosure exactly when the image passes all finite words on both sides. */
  lemma WholeTight(op: Operation, a: Interval, b: Interval)
    requires !ZeroDivision(op, b) && IntervalOperation(op, a, b) == Success(WHOLE)
    ensures Tight(op, a, b) <==> ReachesUp(op, a, b) && ReachesDown(op, a, b)
  {
    HalfLines(0.0);
    if ReachesUp(op, a, b) && ReachesDown(op, a, b) {
      var v, x, y :| Attained(op, a, b, v, x, y) && Beyond(v);
      var v', x', y' :| Attained(op, a, b, v', x', y') && Beyond(-v');
      forall c: Interval | Encloses(op, a, b, c)
        ensures WHOLE.Within(c)
      {
        UpperEndIsInfinite(c, v);
        LowerEndIsInfinite(c, v');
      }
    } else {
      NotReaching(op, a, b);
    }
  }

  lemma NotReaching(op: Operation, a: Interval, b: Interval)
    requires !ZeroDivision(op, b) && AT_MOST_MAX.Valid() && AT_LEAST_MIN.Valid()
    ensures !ReachesUp(op, a, b) ==> Encloses(op, a, b, AT_MOST_MAX)
    ensures !ReachesDown(op, a, b) ==> Encloses(op, a, b, AT_LEAST_MIN)
  {
    forall x, y | a.Contains(x) && b.Contains(y)
      ensures Defined(op, y)
      ensures !ReachesUp(op, a, b) ==> AT_MOST_MAX.Contains(Exact(op, x, y))
      ensures !ReachesDown(op, a, b) ==> AT_LEAST_MIN.Contains(Exact(op, x, y))
    {
      var v := Exact(op, x, y);
      assert Attained(op, a, b, v, x, y);
      HalfLines(v);
    }
  }

  // ---- The condition, read off the endpoints --------------------------------

  predicate AboveZero(w: Word)
    requires !IsNaN(w)
  {
    !Numeric(w).LessEq(Finite(0.0))
  }

  /** Of two upper ends: one is infinite, or their sum passes the greatest finite word. */
  predicate SumBeyond(x: Word, y: Word) {
    IsFinite(x) && IsFinite(y) ==> Beyond(Plus(FiniteValue(x), FiniteValue(y)))
  }

  predicate ProductBeyond(x: Word, y: Word)
    requires !IsNaN(x) && !IsNaN(y)
  {
    && AboveZero(x) && AboveZero(y)
    && (IsFinite(x) && IsFinite(y) ==> Beyond(Multiply(FiniteValue(x), FiniteValue(y))))
  }

  /** Of an upper end and the end of a positive divisor next to zero. */
  predicate QuotientBeyond(x: Word, y: Word)
    requires !IsNaN(x)
  {
    && IsFinite(y) && FiniteValue(y) > 0.0 && AboveZero(x)
    && (IsFinite(x) ==> Beyond(Divide(FiniteValue(x), FiniteValue(y))))
  }

  /** The endpoints let the arithmetic operation pass the greatest finite word. */
  predicate High(op: Operation, a: Interval, b: Interval) {
    match op
    case Add => SumBeyond(a.hi, b.hi)
    case Sub => SumBeyond(a.hi, Mirrored(b).hi)
    case Mul => ProductBeyond(a.hi, b.hi) || ProductBeyond(Mirrored(a).hi, Mirrored(b).hi)
    case Div => QuotientBeyond(a.hi, b.lo) || QuotientBeyond(Mirrored(a).hi, Mirrored(b).lo)
    case Min => false
    case Max => false
  }

  /** Likewise downwards: the mirrored operands pass upwards. */
  predicate Low(op: Operation, a: Interval, b: Interval) {
    match op
    case Add => High(op, Mirrored(a), Mirrored(b))
    case Sub => High(op, Mirrored(a), Mirrored(b))
    case Mul => High(op, Mirrored(a), b)
    case Div => High(op, Mirrored(a), b)
    case Min => false
    case Max => false
  }

  // ---- The condition is exact ------------------------------------------------

  lemma BeyondSum(a: Interval, b: Interval, x: real, y: real)
    requires a.Contains(x) && b.Contains(y) && Beyond(Plus(x, y))
    ensures SumBeyond(a.hi, b.hi)
  {
  }

  lemma SumReaches(a: Interval, b: Interval)
    requires HoldsNumber(a) && HoldsNumber(b)
    ensures SumBeyond(a.hi, b.hi) <==> ReachesUp(Add, a, b)
  {
    if SumBeyond(a.hi, b.hi) {
      var max := FiniteValue(MAX_FINITE);
      var y0 := NumberAbove(b, 0.0);
      var x := NumberAbove(a, max + 1.0 - y0);
      var y := NumberAbove(b, max + 1.0 - x);
      assert Attained(Add, a, b, Plus(x, y), x, y);
    }
    if ReachesUp(Add, a, b) {
      var v, x, y :| Attained(Add, a, b, v, x, y) && Beyond(v);
      BeyondSum(a, b, x, y);
    }
  }

  /** The difference of a and b is the sum of a and the mirrored b. */
  lemma DifferenceReaches(a: Interval, b: Interval)
    ensures ReachesUp(Sub, a, b) <==> ReachesUp(Add, a, Mirrored(b))
  {
    if ReachesUp(Sub, a, b) {
      var v, x, y :| Attained(Sub, a, b, v, x, y) && Beyond(v);
      MirroredHolds(b, y);
      assert Attained(Add, a, Mirrored(b), v, x, -y);
    }
    if ReachesUp(Add, a, Mirrored(b)) {
      var v, x, y :| Attained(Add, a, Mirrored(b), v, x, y) && Beyond(v);
      MirroredHolds(b, -y);
      assert Attained(Sub, a, b, v, x, -y);
    }
  }

  lemma PositiveNumberAbove(a: Interval, bound: real) returns (x: real)
    requires HoldsNumber(a) && AboveZero(a.hi)
    ensures a.Contains(x) && x > 0.0
    ensures IsFinite(a.hi) ==> x == FiniteValue(a.hi)
    ensures !IsFinite(a.hi) ==> x >= bound
  {
    x := NumberAbove(a, if bound > 1.0 then bound else 1.0);
  }

  lemma LargeFactor(x: real, y: real, bound: real)
    requires y > 0.0 && x >= Divide(bound, y)
    ensures Multiply(x, y) >= bound
  {
    MultiplyMonotone(Divide(bound, y), x, y);
  }

  lemma PositiveProductReaches(a: Interval, b: Interval)
    requires HoldsNumber(a) && HoldsNumber(b) && ProductBeyond(a.hi, b.hi)
    ensures ReachesUp(Mul, a, b)
  {
    var past := FiniteValue(MAX_FINITE) + 1.0;
    var y0 := PositiveNumberAbove(b, 1.0);
    var x := PositiveNumberAbove(a, Divide(past, y0));
    var y := PositiveNumberAbove(b, Divide(past, x));
    if !IsFinite(b.hi) {
      LargeFactor(y, x, past);
      MultiplySymmetric(x, y);
    } else if !IsFinite(a.hi) {
      LargeFactor(x, y, past);
    }
    assert Attained(Mul, a, b, Multiply(x, y), x, y);
  }

  lemma SignsCancel(op: CornerOperation, x: real, y: real)
    requires op == Over ==> y != 0.0
    ensures CornerOf(op, -x, -y) == CornerOf(op, x, y)
  {
    match op
    case Times =>
    case Over => QuotientSignsCancel(x, y, Divide(x, y));
  }

  lemma QuotientSignsCancel(x: real, y: real, q: real)
    requires y != 0.0 && q == Divide(x, y)
    ensures Divide(-x, -y) == q
  {
    assert q * y == x;
    assert q * -y == -x;
  }

  lemma BothMirroredAttained(op: CornerOperation, a: Interval, b: Interval, v: real, x: real, y: real)
    requires Attained(AsOperation(op), Mirrored(a), Mirrored(b), v, x, y)
    ensures Attained(AsOperation(op), a, b, v, -x, -y)
  {
    MirroredHolds(a, -x);
    MirroredHolds(b, -y);
    SignsCancel(op, x, y);
  }

  /** The operands of a product or of a quotient may both be mirrored. */
  lemma BothMirrored(op: CornerOperation, a: Interval, b: Interval)
    ensures ReachesUp(AsOperation(op), Mirrored(a), Mirrored(b)) ==> ReachesUp(AsOperation(op), a, b)
  {
    if ReachesUp(AsOperation(op), Mirrored(a), Mirrored(b)) {
      var v, x, y :| Attained(AsOperation(op), Mirrored(a), Mirrored(b), v, x, y) && Beyond(v);
      BothMirroredAttained(op, a, b, v, x, y);
    }
  }

  lemma UpperEndPositive(a: Interval, x: real)
    requires a.Contains(x) && x > 0.0
    ensures AboveZero(a.hi) && (IsFinite(a.hi) ==> x <= FiniteValue(a.hi))
  {
  }

  lemma ProductBelowEnds(x: real, y: real, x': real, y': real)
    requires 0.0 < x <= x' && 0.0 < y <= y'
    ensures Multiply(x, y) <= Multiply(x', y')
  {
    MultiplyMonotone(x, x', y);
    MultiplyMonotone(y, y', x');
    MultiplySymmetric(x', y);
    MultiplySymmetric(x', y');
  }

  lemma PositiveFactors(a: Interval, b: Interval, x: real, y: real)
    requires a.Contains(x) && b.Contains(y) && x > 0.0 && y > 0.0 && Beyond(Multiply(x, y))
    ensures ProductBeyond(a.hi, b.hi)
  {
    UpperEndPositive(a, x);
    UpperEndPositive(b, y);
    if IsFinite(a.hi) && IsFinite(b.hi) {
      ProductBelowEnds(x, y, FiniteValue(a.hi), FiniteValue(b.hi));
    }
  }

  lemma BeyondProduct(a: Interval, b: Interval, x: real, y: real)
    requires a.Contains(x) && b.Contains(y) && Beyond(Multiply(x, y))
    ensures High(Mul, a, b)
  {
    FiniteNotBeyond(MAX_FINITE);
    SignOfProduct(x, y);
    if x > 0.0 {
      PositiveFactors(a, b, x, y);
    } else {
      MirroredHolds(a, x);
      MirroredHolds(b, y);
      SignsCancel(Times, x, y);
      PositiveFactors(Mirrored(a), Mirrored(b), -x, -y);
    }
  }

  lemma ProductReaches(a: Interval, b: Interval)
    requires HoldsNumber(a) && HoldsNumber(b)
    ensures High(Mul, a, b) <==> ReachesUp(Mul, a, b)
  {
    MirroredHolds(a, 0.0);
    MirroredHolds(b, 0.0);
    if ProductBeyond(a.hi, b.hi) { PositiveProductReaches(a, b); }
    if ProductBeyond(Mirrored(a).hi, Mirrored(b).hi) {
      PositiveProductReaches(Mirrored(a), Mirrored(b));
      BothMirrored(Times, a, b);
    }
    if ReachesUp(Mul, a, b) {
      var v, x, y :| Attained(Mul, a, b, v, x, y) && Beyond(v);
      BeyondProduct(a, b, x, y);
    }
  }

  lemma LargeDividend(x: real, y: real, bound: real)
    requires y > 0.0 && x >= Multiply(bound, y)
    ensures Divide(x, y) >= bound
  {
    var q := Divide(x, y);
    assert q * y == x;
    if q < bound { assert (bound - q) * y > 0.0; }
  }

  lemma PositiveQuotientReaches(a: Interval, b: Interval)
    requires HoldsNumber(a) && HoldsNumber(b) && QuotientBeyond(a.hi, b.lo)
    ensures ReachesUp(Div, a, b)
  {
    var past, y := FiniteValue(MAX_FINITE) + 1.0, FiniteValue(b.lo);
    var x := PositiveNumberAbove(a, Multiply(past, y));
    NumericInfinity(b.hi);
    if !IsFinite(a.hi) { LargeDividend(x, y, past); }
    assert Attained(Div, a, b, Divide(x, y), x, y);
  }

  lemma QuotientBelowEnds(x: real, y: real, x': real, y': real)
    requires 0.0 < x <= x' && 0.0 < y' <= y
    ensures Divide(x, y) <= Divide(x', y')
  {
    ReciprocalAntitone(y', y);
    DivideIsMultiply(x, y);
    DivideIsMultiply(x', y');
    ProductBelowEnds(x, Reciprocal(y), x', Reciprocal(y'));
  }

  lemma PositiveDivisor(b: Interval, y: real)
    requires b.Contains(y) && y > 0.0 && !b.Contains(0.0)
    ensures IsFinite(b.lo) && 0.0 < FiniteValue(b.lo) <= y
  {
  }

  lemma PositiveRatio(a: Interval, b: Interval, x: real, y: real)
    requires a.Contains(x) && b.Contains(y) && !b.Contains(0.0) && x > 0.0 && y > 0.0 && Beyond(Divide(x, y))
    ensures QuotientBeyond(a.hi, b.lo)
  {
    UpperEndPositive(a, x);
    PositiveDivisor(b, y);
    if IsFinite(a.hi) {
      QuotientBelowEnds(x, y, FiniteValue(a.hi), FiniteValue(b.lo));
    }
  }

  lemma BeyondRatio(a: Interval, b: Interval, x: real, y: real)
    requires a.Contains(x) && b.Contains(y) && !b.Contains(0.0) && y != 0.0 && Beyond(Divide(x, y))
    ensures High(Div, a, b)
  {
    FiniteNotBeyond(MAX_FINITE);
    SignOfProduct(x, y);
    if x > 0.0 {
      PositiveRatio(a, b, x, y);
    } else {
      MirroredHolds(a, x);
      MirroredHolds(b, y);
      MirroredHolds(b, 0.0);
      SignsCancel(Over, x, y);
      PositiveRatio(Mirrored(a), Mirrored(b), -x, -y);
    }
  }

  lemma QuotientReaches(a: Interval, b: Interval)
    requires HoldsNumber(a) && HoldsNumber(b) && !b.Contains(0.0)
    ensures High(Div, a, b) <==> ReachesUp(Div, a, b)
  {
    MirroredHolds(a, 0.0);
    MirroredHolds(b, 0.0);
    if QuotientBeyond(a.hi, b.lo) { PositiveQuotientReaches(a, b); }
    if QuotientBeyond(Mirrored(a).hi, Mirrored(b).lo) {
      PositiveQuotientReaches(Mirrored(a), Mirrored(b));
      BothMirrored(Over, a, b);
    }
    if ReachesUp(Div, a, b) {
      var v, x, y :| Attained(Div, a, b, v, x, y) && Beyond(v);
      BeyondRatio(a, b, x, y);
    }
  }

  lemma HighExact(op: Operation, a: Interval, b: Interval)
    requires op !in {Min, Max} && !ZeroDivision(op, b) && HoldsNumber(a) && HoldsNumber(b)
    ensures High(op, a, b) <==> ReachesUp(op, a, b)
  {
    match op
    case Add => SumReaches(a, b);
    case Sub =>
      MirroredHolds(b, 0.0);
      DifferenceReaches(a, b);
      SumReaches(a, Mirrored(b));
    case Mul => ProductReaches(a, b);
    case Div => QuotientReaches(a, b);
  }

  /** The right operand once the results are mirrored. */
  function MirroredRight(op: Operation, b: Interval): Interval {
    if op in {Add, Sub} then Mirrored(b) else b
  }

  function MirroredNumber(op: Operation, y: real): real {
    if op in {Add, Sub} then -y else y
  }

  lemma MirroredExact(op: Operation, x: real, y: real)
    requires op !in {Min, Max} && Defined(op, y)
    ensures Exact(op, -x, MirroredNumber(op, y)) == -Exact(op, x, y)
  {
    match op
    case Add =>
    case Sub =>
    case Mul => assert -x * y == -(x * y);
    case Div => MirroredQuotient(x, y, Divide(x, y));
  }

  lemma MirroredQuotient(x: real, y: real, q: real)
    requires y != 0.0 && q == Divide(x, y)
    ensures Divide(-x, y) == -q
  {
    assert q * y == x;
    assert -q * y == -x;
  }

  lemma MirroredAttained(op: Operation, a: Interval, b: Interval, v: real, x: real, y: real)
    requires op !in {Min, Max} && Attained(op, a, b, v, x, y)
    ensures Attained(op, Mirrored(a), MirroredRight(op, b), -v, -x, MirroredNumber(op, y))
  {
    MirroredHolds(a, x);
    MirroredHolds(b, y);
    MirroredExact(op, x, y);
  }

  lemma DownIsMirroredUp(op: Operation, a: Interval, b: Interval)
    requires op !in {Min, Max}
    ensures ReachesDown(op, a, b) <==> ReachesUp(op, Mirrored(a), MirroredRight(op, b))
  {
    if ReachesDown(op, a, b) {
      var v, x, y :| Attained(op, a, b, v, x, y) && Beyond(-v);
      MirroredAttained(op, a, b, v, x, y);
    }
    if ReachesUp(op, Mirrored(a), MirroredRight(op, b)) {
      var v, x, y :| Attained(op, Mirrored(a), MirroredRight(op, b), v, x, y) && Beyond(v);
      MirroredHolds(a, 0.0);
      MirroredHolds(b, 0.0);
      MirroredAttained(op, Mirrored(a), MirroredRight(op, b), v, x, y);
      assert Attained(op, a, b, -v, -x, MirroredNumber(op, y)) && Beyond(-(-v));
    }
  }

  lemma LowExact(op: Operation, a: Interval, b: Interval)
    requires op !in {Min, Max} && !ZeroDivision(op, b) && HoldsNumber(a) && HoldsNumber(b)
    ensures Low(op, a, b) <==> ReachesDown(op, a, b)
  {
    MirroredHolds(a, 0.0);
    MirroredHolds(b, 0.0);
    DownIsMirroredUp(op, a, b);
    HighExact(op, Mirrored(a), MirroredRight(op, b));
  }

  // ---- Minimum and maximum ----------------------------------------------------

  lemma MinMaxLower(op: Operation, a: Interval, b: Interval, c: Interval)
    requires op in {Min, Max} && HoldsNumber(a) && HoldsNumber(b) && Encloses(op, a, b, c)
    ensures IntervalOperation(op, a, b).Success?
    ensures Numeric(c.lo).LessEq(Numeric(IntervalOperation(op, a, b).value.lo))
  {
    MinTotal(a, b);
    MaxTotal(a, b);
    SelectorsNumeric(a.lo, b.lo, c.lo);
    var bound := if IsFinite(c.lo) then FiniteValue(c.lo) - 1.0 else 0.0;
    var x := NumberBelow(a, bound);
    var y := NumberBelow(b, bound);
    assert c.Contains(Exact(op, x, y));
  }

  lemma MinMaxUpper(op: Operation, a: Interval, b: Interval, c: Interval)
    requires op in {Min, Max} && HoldsNumber(a) && HoldsNumber(b) && Encloses(op, a, b, c)
    ensures IntervalOperation(op, a, b).Success?
    ensures Numeric(IntervalOperation(op, a, b).value.hi).LessEq(Numeric(c.hi))
  {
    MinTotal(a, b);
    MaxTotal(a, b);
    SelectorsNumeric(a.hi, b.hi, c.hi);
    var bound := if IsFinite(c.hi) then FiniteValue(c.hi) + 1.0 else 0.0;
    var x := NumberAbove(a, bound);
    var y := NumberAbove(b, bound);
    assert c.Contains(Exact(op, x, y));
  }

  lemma NumberBelow(a: Interval, bound: real) returns (x: real)
    requires HoldsNumber(a)
    ensures a.Contains(x)
    ensures IsFinite(a.lo) ==> x == FiniteValue(a.lo)
    ensures !IsFinite(a.lo) ==> x <= bound
  {
    NumericInfinity(a.lo);
    NumericInfinity(a.hi);
    x := if IsFinite(a.lo) then FiniteValue(a.lo)
         else if IsFinite(a.hi) && FiniteValue(a.hi) < bound then FiniteValue(a.hi) else bound;
  }

  // ---- The theorem ------------------------------------------------------------

  /** An operand without numbers makes every interval an enclosure, and no interval lies in all. */
  lemma EmptyImage(op: Operation, a: Interval, b: Interval)
    requires !ZeroDivision(op, b) && !(HoldsNumber(a) && HoldsNumber(b))
    ensures !Tight(op, a, b)
  {
    forall x, y
      ensures !(a.Contains(x) && b.Contains(y))
    {
      if a.Contains(x) { NumberHeld(a, x); }
      if b.Contains(y) { NumberHeld(b, y); }
    }
    NoCommonPart(op, a, b);
  }

  const ZERO_POINT: Endpoints := Endpoints(POSITIVE_ZERO, POSITIVE_ZERO)
  const TOP_POINT: Endpoints := Endpoints(POSITIVE_INFINITY, POSITIVE_INFINITY)

  lemma PointsApart(r: Interval)
    ensures ZERO_POINT.Valid() && TOP_POINT.Valid() && !(r.Within(ZERO_POINT) && r.Within(TOP_POINT))
  {
    NumericOfZero(POSITIVE_ZERO);
  }

  lemma NoCommonPart(op: Operation, a: Interval, b: Interval)
    requires !ZeroDivision(op, b) && forall c: Interval :: Encloses(op, a, b, c)
    ensures !Tight(op, a, b)
  {
    OperationTotal(op, a, b);
    PointsApart(IntervalOperation(op, a, b).value);
    assert Encloses(op, a, b, ZERO_POINT) && Encloses(op, a, b, TOP_POINT);
  }

  /** Operands with numbers: minimum and maximum are always tight, arithmetic on finite endpoints too. */
  lemma TightWhenExact(op: Operation, a: Interval, b: Interval)
    requires !ZeroDivision(op, b) && HoldsNumber(a) && HoldsNumber(b)
    requires op in {Min, Max} || (a.HasFiniteEndpoints() && b.HasFiniteEndpoints())
    ensures Tight(op, a, b)
  {
    OperationTotal(op, a, b);
    forall c: Interval | Encloses(op, a, b, c)
      ensures IntervalOperation(op, a, b).value.Within(c)
    {
      if op in {Min, Max} {
        MinMaxLower(op, a, b, c);
        MinMaxUpper(op, a, b, c);
      } else {
        FiniteHull(op, a, b, c);
      }
    }
  }

  /** TIGHTNESS, EXACTLY. The result is the tightest binary64 enclosure if and only if both operands hold a
      number and either the operation does not collapse, or its exact image passes the finite words both ways. */
  lemma OperationTight(op: Operation, a: Interval, b: Interval)
    requires !ZeroDivision(op, b)
    ensures Tight(op, a, b) <==>
      && HoldsNumber(a) && HoldsNumber(b)
      && (op in {Min, Max} || (a.HasFiniteEndpoints() && b.HasFiniteEndpoints()) || (High(op, a, b) && Low(op, a, b)))
  {
    if !(HoldsNumber(a) && HoldsNumber(b)) {
      EmptyImage(op, a, b);
    } else if op in {Min, Max} || (a.HasFiniteEndpoints() && b.HasFiniteEndpoints()) {
      TightWhenExact(op, a, b);
    } else {
      InfiniteIsWhole(op, a, b);
      WholeTight(op, a, b);
      HighExact(op, a, b);
      LowExact(op, a, b);
    }
  }

  /** An input on which it is not tight: adding the nonnegative half-line to itself gives the whole line,
      although the half-line encloses every sum. */
  lemma HalfLineNotTight(a: Interval)
    requires a == Endpoints(POSITIVE_ZERO, POSITIVE_INFINITY)
    ensures Encloses(Add, a, a, a) && !Tight(Add, a, a)
  {
    NumericOfZero(POSITIVE_ZERO);
    NumericOrder(POSITIVE_ZERO, NEGATIVE_INFINITY);
  }

  /** And one with infinite endpoints on which it is: adding the whole line to itself. */
  lemma WholeLineTight()
    ensures Tight(Add, WHOLE, WHOLE)
  {
    OperationTight(Add, WHOLE, WHOLE);
  }

  // ---- Powers -------------------------------------------------------------------

  /** The empty product is the number 1 and nothing else. */
  lemma PowZeroIsOne(a: Interval, x: real, c: Interval)
    ensures IntervalPow(a, 0).Success?
    ensures IntervalPow(a, 0).value.Contains(x) <==> x == 1.0
    ensures c.Contains(1.0) ==> IntervalPow(a, 0).value.Within(c)
  {
    OneIsOne();
    PowTotal(a, 0);
  }

  lemma PowHoldsNumber(a: Interval, exponent: nat)
    requires HoldsNumber(a)
    ensures IntervalPow(a, exponent).Success? && HoldsNumber(IntervalPow(a, exponent).value)
  {
    var x := NumberAbove(a, 0.0);
    var xs := seq(exponent, _ => x);
    PowEncloses(a, exponent, xs);
    NumberHeld(IntervalPow(a, exponent).value, ProductOf(xs));
  }

  /** Each further power is the tightest interval that holds all products of a point of the power before and
      a point of the base, exactly where a product of intervals is tight. */
  lemma PowStepTight(a: Interval, exponent: nat)
    requires HoldsNumber(a)
    ensures IntervalPow(a, exponent).Success? && IntervalPow(a, exponent + 1).Success?
    ensures var p, next := IntervalPow(a, exponent).value, IntervalPow(a, exponent + 1).value;
      && Encloses(Mul, p, a, next)
      && ((forall c: Interval | Encloses(Mul, p, a, c) :: next.Within(c)) <==>
            (p.HasFiniteEndpoints() && a.HasFiniteEndpoints()) || (High(Mul, p, a) && Low(Mul, p, a)))
  {
    PowHoldsNumber(a, exponent);
    var p := IntervalPow(a, exponent).value;
    PowStep(a, exponent, p);
    OperationTotal(Mul, p, a);
    OperationTight(Mul, p, a);
    MulEncloses(p, a);
  }

  lemma MulEncloses(a: Interval, b: Interval)
    ensures IntervalOperation(Mul, a, b).Success? && Encloses(Mul, a, b, IntervalOperation(Mul, a, b).value)
  {
    OperationTotal(Mul, a, b);
    forall x, y | a.Contains(x) && b.Contains(y)
      ensures IntervalOperation(Mul, a, b).value.Contains(Exact(Mul, x, y))
    {
      OperationEncloses(Mul, a, b, x, y);
    }
  }
}
