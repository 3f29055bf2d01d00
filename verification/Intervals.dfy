/** Correctly rounded primitives and outward-rounded interval operations
    (reference/exact_binary64.py, lines 342-685). */
module Intervals {
  import opened Outcomes
  import opened Numbers
  import opened Binary64
  import opened Rounding

  // ---- Primitives ---------------------------------------------------------

  datatype Mode = Down | Up | NearestEven

  function Round(mode: Mode, v: real): Word {
    match mode
    case Down => RoundDown(v)
    case Up => RoundUp(v)
    case NearestEven => RoundNearestEven(v)
  }

  function SignedZero(negative: bool): Word {
    if negative then NEGATIVE_ZERO else POSITIVE_ZERO
  }

  function ZeroForAddition(a: Word, effectiveNegative: bool, effectiveZero: bool, mode: Mode): Word {
    if IsZero(a) && effectiveZero && Negative(a) == effectiveNegative then SignedZero(Negative(a))
    else SignedZero(mode == Down)
  }

  /** An exact zero takes its sign from the operation; anything else is rounded. */
  function RoundNonzero(mode: Mode, exact: real, zero: Word): Word {
    if exact == 0.0 then zero else Round(mode, exact)
  }

  function AddExact(a: Word, b: Word, mode: Mode): Result<Word, Fault> {
    var x :- DecodeFinite(a);
    var y :- DecodeFinite(b);
    Success(RoundNonzero(mode, Plus(x, y), ZeroForAddition(a, Negative(b), IsZero(b), mode)))
  }

  function SubExact(a: Word, b: Word, mode: Mode): Result<Word, Fault> {
    var x :- DecodeFinite(a);
    var y :- DecodeFinite(b);
    Success(RoundNonzero(mode, Minus(x, y), ZeroForAddition(a, !Negative(b), IsZero(b), mode)))
  }

  function MulExact(a: Word, b: Word, mode: Mode): Result<Word, Fault> {
    var x :- DecodeFinite(a);
    var y :- DecodeFinite(b);
    Success(RoundNonzero(mode, Multiply(x, y), SignedZero(Negative(a) != Negative(b))))
  }

  function DivExact(a: Word, b: Word, mode: Mode): Result<Word, Fault> {
    var x :- DecodeFinite(a);
    var y :- DecodeFinite(b);
    if y == 0.0 then Failure(DivisionByZeroWord)
    else Success(RoundNonzero(mode, Divide(x, y), SignedZero(Negative(a) != Negative(b))))
  }

  /** w is the rounding of v, up to the sign of a zero. */
  ghost predicate Rounded(mode: Mode, v: real, w: Word) {
    !IsNaN(w) && (if v == 0.0 then IsZero(w) else w == Round(mode, v))
  }

  /** A word rounded down from v is the best lower bound of v among the words. */
  lemma RoundedDown(v: real, w: Word, other: Word)
    requires Rounded(Down, v, w) && !IsNaN(other)
    ensures Numeric(w).LessEq(Finite(v))
    ensures Numeric(other).LessEq(Finite(v)) <==> Numeric(other).LessEq(Numeric(w))
  {
    RoundDownIsGreatest(v, other);
    NumericOfZero(w);
    NumericOfZero(RoundDown(v));
  }

  lemma RoundedUp(v: real, w: Word, other: Word)
    requires Rounded(Up, v, w) && !IsNaN(other)
    ensures Finite(v).LessEq(Numeric(w))
    ensures Finite(v).LessEq(Numeric(other)) <==> Numeric(w).LessEq(Numeric(other))
  {
    RoundUpIsLeast(v, other);
    NumericOfZero(w);
    NumericOfZero(RoundUp(v));
  }

  lemma NumericOfZero(w: Word)
    requires !IsNaN(w)
    ensures IsZero(w) <==> Numeric(w) == Finite(0.0)
  {
    if IsFinite(w) { ValueOrder(Magnitude(w), 0); }
  }

  lemma RoundIsNumber(mode: Mode, v: real)
    ensures !IsNaN(Round(mode, v))
  {
    RoundDownIsGreatest(v, 0);
    RoundUpIsLeast(v, 0);
    RoundNearestEvenIsNearest(v, 0);
  }

  lemma RoundNonzeroRounds(mode: Mode, v: real, zero: Word)
    requires IsZero(zero)
    ensures Rounded(mode, v, RoundNonzero(mode, v, zero))
  {
    RoundIsNumber(mode, v);
  }

  lemma AddRounds(a: Word, b: Word, mode: Mode)
    requires IsFinite(a) && IsFinite(b)
    ensures AddExact(a, b, mode).Success?
    ensures Rounded(mode, Plus(FiniteValue(a), FiniteValue(b)), AddExact(a, b, mode).value)
  {
    RoundNonzeroRounds(mode, Plus(FiniteValue(a), FiniteValue(b)), ZeroForAddition(a, Negative(b), IsZero(b), mode));
  }

  lemma SubRounds(a: Word, b: Word, mode: Mode)
    requires IsFinite(a) && IsFinite(b)
    ensures SubExact(a, b, mode).Success?
    ensures Rounded(mode, Minus(FiniteValue(a), FiniteValue(b)), SubExact(a, b, mode).value)
  {
    RoundNonzeroRounds(mode, Minus(FiniteValue(a), FiniteValue(b)), ZeroForAddition(a, !Negative(b), IsZero(b), mode));
  }

  lemma MulRounds(a: Word, b: Word, mode: Mode)
    requires IsFinite(a) && IsFinite(b)
    ensures MulExact(a, b, mode).Success?
    ensures Rounded(mode, Multiply(FiniteValue(a), FiniteValue(b)), MulExact(a, b, mode).value)
  {
    RoundNonzeroRounds(mode, Multiply(FiniteValue(a), FiniteValue(b)), SignedZero(Negative(a) != Negative(b)));
  }

  lemma DivRounds(a: Word, b: Word, mode: Mode)
    requires IsFinite(a) && IsFinite(b)
    ensures DivExact(a, b, mode).Success? <==> FiniteValue(b) != 0.0
    ensures FiniteValue(b) != 0.0 ==>
      Rounded(mode, Divide(FiniteValue(a), FiniteValue(b)), DivExact(a, b, mode).value)
  {
    if FiniteValue(b) != 0.0 {
      RoundNonzeroRounds(mode, Divide(FiniteValue(a), FiniteValue(b)), SignedZero(Negative(a) != Negative(b)));
    }
  }

  // ---- Signs ----------------------------------------------------------------

  /** A rounded number has the sign of the number, even when it rounds to a zero. */
  lemma RoundSign(mode: Mode, v: real)
    requires v != 0.0
    ensures Negative(Round(mode, v)) <==> v < 0.0
  {
    var size := if v > 0.0 then v else -v;
    RoundPositiveIsFiniteOrInfinite(size);
  }

  lemma ValueSign(a: Word)
    requires IsFinite(a)
    ensures FiniteValue(a) < 0.0 ==> Negative(a)
    ensures FiniteValue(a) > 0.0 ==> !Negative(a)
    ensures FiniteValue(a) == 0.0 <==> IsZero(a)
  {
    SignedValue(a);
    NumericOfZero(a);
  }

  /** Only the two zeros share a value. */
  lemma SameValueSameWord(a: Word, b: Word)
    requires !IsNaN(a) && !IsNaN(b) && Numeric(a) == Numeric(b) && !IsZero(a)
    ensures a == b
  {
    NumericOrder(a, b);
    NumericOrder(b, a);
    ClassesFromFields(a);
    ClassesFromFields(b);
  }

  lemma NearestOfRepresentable(bits: Word, v: real)
    requires IsFinite(bits) && v == FiniteValue(bits)
    ensures IsFinite(RoundNearestEven(v)) && FiniteValue(RoundNearestEven(v)) == v
  {
    RoundNearestEvenIsNearest(v, bits);
    ThresholdPositive();
    SignedValue(bits);
    ValueOrder(Magnitude(bits), MAX_FINITE);
  }

  /** DECODE AND ROUND. Exactly the finite words decode; rounding a decoded value in any mode gives the
      word back, or one of the zeros for a zero. */
  lemma DecodeRoundTrip(bits: Word, mode: Mode)
    ensures DecodeFinite(bits).Success? <==> IsFinite(bits)
    ensures IsFinite(bits) && !IsZero(bits) ==> Round(mode, DecodeFinite(bits).value) == bits
    ensures IsFinite(bits) && IsZero(bits) ==>
      DecodeFinite(bits).value == 0.0 && IsZero(Round(mode, DecodeFinite(bits).value))
  {
    if IsFinite(bits) {
      var v := FiniteValue(bits);
      ValueSign(bits);
      assert Representable(v);
      DirectedRoundingsAdjacent(v);
      NearestOfRepresentable(bits, v);
      var r := Round(mode, v);
      if IsZero(bits) { ValueSign(r); } else { SameValueSameWord(bits, r); }
    }
  }

  /** Section 6.3 of IEEE 754-2019: a product's sign is the exclusive or of the operands' signs, in every
      mode and through underflow; a quotient's likewise. */
  lemma ProductSign(a: Word, b: Word, mode: Mode)
    requires IsFinite(a) && IsFinite(b)
    ensures Negative(MulExact(a, b, mode).value) <==> Negative(a) != Negative(b)
    ensures FiniteValue(b) != 0.0 ==> (Negative(DivExact(a, b, mode).value) <==> Negative(a) != Negative(b))
  {
    ValueSign(a);
    ValueSign(b);
    var x, y := FiniteValue(a), FiniteValue(b);
    SignOfProduct(x, y);
    if Multiply(x, y) != 0.0 { RoundSign(mode, Multiply(x, y)); }
    if y != 0.0 && Divide(x, y) != 0.0 { RoundSign(mode, Divide(x, y)); }
  }

  lemma SignOfProduct(x: real, y: real)
    ensures Multiply(x, y) > 0.0 <==> (x > 0.0 && y > 0.0) || (x < 0.0 && y < 0.0)
    ensures Multiply(x, y) < 0.0 <==> (x > 0.0 && y < 0.0) || (x < 0.0 && y > 0.0)
    ensures y != 0.0 ==> (Divide(x, y) > 0.0 <==> (x > 0.0 && y > 0.0) || (x < 0.0 && y < 0.0))
    ensures y != 0.0 ==> (Divide(x, y) < 0.0 <==> (x > 0.0 && y < 0.0) || (x < 0.0 && y > 0.0))
  {
    if y != 0.0 {
      var q := Divide(x, y);
      assert q * y == x;
    }
  }

  /** And a sum of like signs keeps the sign, an exact zero of unlike signs is negative only rounding down,
      and any other sum has the sign of the exact sum. */
  lemma SumSign(a: Word, b: Word, mode: Mode)
    requires IsFinite(a) && IsFinite(b)
    ensures var r, exact := Negative(AddExact(a, b, mode).value), Plus(FiniteValue(a), FiniteValue(b));
      && (Negative(a) == Negative(b) ==> r == Negative(a))
      && (Negative(a) != Negative(b) && exact == 0.0 ==> r == (mode == Down))
      && (exact != 0.0 ==> r == (exact < 0.0))
  {
    ValueSign(a);
    ValueSign(b);
    var exact := Plus(FiniteValue(a), FiniteValue(b));
    if exact != 0.0 { RoundSign(mode, exact); }
  }

  /** Subtraction is addition of the negated word, zero signs included. */
  lemma DifferenceIsSum(a: Word, b: Word, mode: Mode)
    requires IsFinite(a) && IsFinite(b)
    ensures SubExact(a, b, mode) == AddExact(a, Negate(b), mode)
  {
    SignedValue(b);
    ValueSign(b);
    NegateMirrors(b);
    ValueSign(Negate(b));
    assert Minus(FiniteValue(a), FiniteValue(b)) == Plus(FiniteValue(a), FiniteValue(Negate(b)));
  }

  // ---- Intervals ----------------------------------------------------------

  datatype Endpoints = Endpoints(lo: Word, hi: Word) {
    predicate Valid() {
      !IsNaN(lo) && !IsNaN(hi) && Numeric(lo).LessEq(Numeric(hi))
    }

    predicate HasFiniteEndpoints() {
      IsFinite(lo) && IsFinite(hi)
    }

    predicate Contains(x: real)
      requires Valid()
    {
      Numeric(lo).LessEq(Finite(x)) && Finite(x).LessEq(Numeric(hi))
    }

    /** Numeric containment of intervals. */
    predicate Within(outer: Endpoints)
      requires Valid() && outer.Valid()
    {
      Numeric(outer.lo).LessEq(Numeric(lo)) && Numeric(hi).LessEq(Numeric(outer.hi))
    }
  }

  type Interval = i: Endpoints | i.Valid() witness Endpoints(0, 0)

  const WHOLE: Interval := Endpoints(NEGATIVE_INFINITY, POSITIVE_INFINITY)

  /** The checks made when an interval is constructed. */
  function MakeInterval(lo: Word, hi: Word): (r: Result<Interval, Fault>)
    ensures r.Success? <==> Endpoints(lo, hi).Valid()
    ensures r.Success? ==> r.value == Endpoints(lo, hi)
  {
    if IsNaN(lo) || IsNaN(hi) then Failure(NaNEndpoint)
    else if EndpointCompare(lo, hi).value > 0 then Failure(ReversedEndpoints)
    else Success(Endpoints(lo, hi))
  }

  predicate ContainsZero(b: Interval)
    ensures ContainsZero(b) <==> b.Contains(0.0)
  {
    NumericOfZero(POSITIVE_ZERO);
    EndpointCompare(b.lo, POSITIVE_ZERO).value <= 0 && EndpointCompare(POSITIVE_ZERO, b.hi).value <= 0
  }

  function IntervalAdd(a: Interval, b: Interval): Result<Interval, Fault> {
    if !a.HasFiniteEndpoints() || !b.HasFiniteEndpoints() then Success(WHOLE)
    else
      var lo :- AddExact(a.lo, b.lo, Down);
      var hi :- AddExact(a.hi, b.hi, Up);
      MakeInterval(lo, hi)
  }

  function IntervalSub(a: Interval, b: Interval): Result<Interval, Fault> {
    if !a.HasFiniteEndpoints() || !b.HasFiniteEndpoints() then Success(WHOLE)
    else
      var lo :- SubExact(a.lo, b.hi, Down);
      var hi :- SubExact(a.hi, b.lo, Up);
      MakeInterval(lo, hi)
  }

  datatype Selector = Minimum | Maximum

  function Select(selector: Selector, left: Word, right: Word): Result<Word, Fault> {
    match selector
    case Minimum => MinimumEndpoint(left, right)
    case Maximum => MaximumEndpoint(left, right)
  }

  /** Left fold of a selector over the candidates. */
  function SelectFold(values: seq<Word>, selector: Selector): Result<Word, Fault>
    requires |values| > 0
  {
    var last := |values| - 1;
    if last == 0 then Success(values[0])
    else
      var result :- SelectFold(values[..last], selector);
      Select(selector, result, values[last])
  }

  method SelectFour(values: seq<Word>, selector: Selector) returns (r: Result<Word, Fault>)
    requires |values| == 4
    ensures r == SelectFold(values, selector)
  {
    r := Success(values[0]);
    for i := 1 to |values|
      invariant r == SelectFold(values[..i], selector)
    {
      assert values[..i + 1][..i] == values[..i];
      if r.Success? {
        r := Select(selector, r.value, values[i]);
      }
    }
    assert values[..|values|] == values;
  }

  datatype CornerOperation = Times | Over

  function CornerWord(op: CornerOperation, a: Word, b: Word, mode: Mode): Result<Word, Fault> {
    match op
    case Times => MulExact(a, b, mode)
    case Over => DivExact(a, b, mode)
  }

  function CornerWords(op: CornerOperation, a: Interval, b: Interval, mode: Mode): (r: Result<seq<Word>, Fault>)
    ensures r.Success? ==> |r.value| == 4
  {
    var c0 :- CornerWord(op, a.lo, b.lo, mode);
    var c1 :- CornerWord(op, a.lo, b.hi, mode);
    var c2 :- CornerWord(op, a.hi, b.lo, mode);
    var c3 :- CornerWord(op, a.hi, b.hi, mode);
    Success([c0, c1, c2, c3])
  }

  function FromCorners(op: CornerOperation, a: Interval, b: Interval): Result<Interval, Fault> {
    var lower :- CornerWords(op, a, b, Down);
    var upper :- CornerWords(op, a, b, Up);
    var lo :- SelectFold(lower, Minimum);
    var hi :- SelectFold(upper, Maximum);
    MakeInterval(lo, hi)
  }

  function IntervalMul(a: Interval, b: Interval): Result<Interval, Fault> {
    if !a.HasFiniteEndpoints() || !b.HasFiniteEndpoints() then Success(WHOLE)
    else FromCorners(Times, a, b)
  }

  function IntervalDiv(a: Interval, b: Interval): Result<Interval, Fault> {
    if ContainsZero(b) then Failure(DivisorContainsZero)
    else if !a.HasFiniteEndpoints() || !b.HasFiniteEndpoints() then Success(WHOLE)
    else FromCorners(Over, a, b)
  }

  function IntervalNeg(a: Interval): Result<Interval, Fault> {
    var lo :- NegateNonNaN(a.hi);
    var hi :- NegateNonNaN(a.lo);
    MakeInterval(lo, hi)
  }

  function AbsWord(bits: Word): Result<Word, Fault> {
    if IsNaN(bits) then Failure(NaNEndpoint) else Success(Magnitude(bits))
  }

  function IntervalAbs(a: Interval): Result<Interval, Fault> {
    var lo :- AbsWord(a.lo);
    var hi :- AbsWord(a.hi);
    var lowSign :- EndpointCompare(a.lo, POSITIVE_ZERO);
    var highSign :- EndpointCompare(a.hi, POSITIVE_ZERO);
    if lowSign >= 0 then MakeInterval(lo, hi)
    else if highSign <= 0 then MakeInterval(hi, lo)
    else
      var top :- MaximumEndpoint(lo, hi);
      MakeInterval(POSITIVE_ZERO, top)
  }

  function IntervalMin(a: Interval, b: Interval): Result<Interval, Fault> {
    var lo :- MinimumEndpoint(a.lo, b.lo);
    var hi :- MinimumEndpoint(a.hi, b.hi);
    MakeInterval(lo, hi)
  }

  function IntervalMax(a: Interval, b: Interval): Result<Interval, Fault> {
    var lo :- MaximumEndpoint(a.lo, b.lo);
    var hi :- MaximumEndpoint(a.hi, b.hi);
    MakeInterval(lo, hi)
  }

  function IntervalPow(a: Interval, exponent: nat): Result<Interval, Fault> {
    if exponent == 0 then MakeInterval(ONE, ONE)
    else
      var result :- IntervalPow(a, exponent - 1);
      IntervalMul(result, a)
  }

  method IntervalPowNat(a: Interval, exponent: nat) returns (r: Result<Interval, Fault>)
    ensures r == IntervalPow(a, exponent)
  {
    r := MakeInterval(ONE, ONE);
    for i := 0 to exponent
      invariant r == IntervalPow(a, i)
    {
      if r.Success? {
        r := IntervalMul(r.value, a);
      }
    }
  }
}
