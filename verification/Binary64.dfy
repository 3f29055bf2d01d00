/** Raw binary64 words, their exact values and their order
    (reference/exact_binary64.py, lines 36-181 and 443-496). */
module Binary64 {
  import opened Outcomes
  import opened MachineWords

  const SIGN_MASK: nat := 0x8000_0000_0000_0000
  const FRACTION_LIMIT: nat := 0x10_0000_0000_0000
  const EXPONENT_MASK: nat := 0x7FF

  type Word = w: nat | w < TWO_64

  const POSITIVE_ZERO: Word := 0
  const NEGATIVE_ZERO: Word := 0x8000_0000_0000_0000
  const MIN_POSITIVE_SUBNORMAL: Word := 1
  const MAX_FINITE: Word := 0x7FEF_FFFF_FFFF_FFFF
  const MIN_FINITE: Word := 0xFFEF_FFFF_FFFF_FFFF
  const POSITIVE_INFINITY: Word := 0x7FF0_0000_0000_0000
  const NEGATIVE_INFINITY: Word := 0xFFF0_0000_0000_0000
  const ONE: Word := 0x3FF0_0000_0000_0000

  /** Every exception the reference evaluator can raise on typed input. */
  datatype Fault =
    | NonFiniteOperand
    | DivisionByZeroWord
    | DivisorContainsZero
    | NaNEndpoint
    | ReversedEndpoints
    | StackUnderflow
    | WrongFinalStack
    | IndexOutOfRange
    | MalformedInterval

  // ---- Fields and classes -------------------------------------------------

  datatype Binary64Class =
    | PositiveZero | NegativeZero
    | PositiveSubnormal | NegativeSubnormal
    | PositiveNormal | NegativeNormal
    | PositiveInfinity | NegativeInfinity
    | NaN

  predicate Negative(bits: Word) {
    bits >= SIGN_MASK
  }

  /** The word without its sign bit. */
  function Magnitude(bits: Word): Word {
    if Negative(bits) then bits - SIGN_MASK else bits
  }

  function Exponent(bits: Word): nat {
    (bits / FRACTION_LIMIT) % (EXPONENT_MASK + 1)
  }

  function Fraction(bits: Word): nat {
    bits % FRACTION_LIMIT
  }

  function Classify(bits: Word): Binary64Class {
    if Exponent(bits) == 0 then
      if Fraction(bits) == 0 then
        if Negative(bits) then NegativeZero else PositiveZero
      else
        if Negative(bits) then NegativeSubnormal else PositiveSubnormal
    else if Exponent(bits) == EXPONENT_MASK then
      if Fraction(bits) != 0 then NaN
      else if Negative(bits) then NegativeInfinity
      else PositiveInfinity
    else
      if Negative(bits) then NegativeNormal else PositiveNormal
  }

  predicate IsFinite(bits: Word) {
    Magnitude(bits) <= MAX_FINITE
  }

  predicate IsNaN(bits: Word) {
    Magnitude(bits) > POSITIVE_INFINITY
  }

  predicate IsInfinite(bits: Word) {
    Magnitude(bits) == POSITIVE_INFINITY
  }

  predicate IsZero(bits: Word) {
    Magnitude(bits) == 0
  }

  /** The tests above are comparisons of encodings; they agree with the fields of the word. */
  lemma ClassesFromFields(bits: Word)
    ensures IsFinite(bits) <==> Exponent(bits) != EXPONENT_MASK
    ensures IsNaN(bits) <==> Classify(bits) == NaN
    ensures IsInfinite(bits) <==> Classify(bits) in {PositiveInfinity, NegativeInfinity}
    ensures IsZero(bits) <==> Classify(bits) in {PositiveZero, NegativeZero}
    ensures Negative(bits) <==> (bits / SIGN_MASK) % 2 == 1
    ensures Magnitude(bits) == bits % SIGN_MASK
    ensures Exponent(bits) == Exponent(Magnitude(bits)) && Fraction(bits) == Fraction(Magnitude(bits))
  {
  }

  // ---- Exact values -------------------------------------------------------

  type Positive = x: real | x > 0.0 witness 1.0

  function Product(factors: seq<Positive>): Positive {
    if |factors| == 0 then 1.0
    else Product(factors[..|factors| - 1]) * factors[|factors| - 1]
  }

  function PowerOfTwo(n: nat): Positive {
    Product(seq(n, _ => 2.0))
  }

  function TwoTo(e: int): Positive {
    if e >= 0 then PowerOfTwo(e) else 1.0 / PowerOfTwo(-e)
  }

  /** The exact value of a nonnegative finite word. */
  function PositiveFiniteValue(bits: Word): real {
    if Exponent(bits) == 0 then
      Fraction(bits) as real * TwoTo(-1074)
    else
      var significand := FRACTION_LIMIT + Fraction(bits);
      significand as real * TwoTo(Exponent(bits) - 1023 - 52)
  }

  function FiniteValue(bits: Word): real
    requires IsFinite(bits)
  {
    var magnitude := PositiveFiniteValue(Magnitude(bits));
    if Negative(bits) then -magnitude else magnitude
  }

  function DecodeFinite(bits: Word): (r: Result<real, Fault>)
    ensures r.Success? <==> IsFinite(bits)
  {
    if !IsFinite(bits) then Failure(NonFiniteOperand)
    else Success(FiniteValue(bits))
  }

  lemma PowerOfTwoStep(n: nat)
    ensures PowerOfTwo(n + 1) == 2.0 * PowerOfTwo(n)
  {
    assert seq(n + 1, _ => 2.0)[..n] == seq(n, _ => 2.0);
  }

  lemma TwoToStep(e: int)
    ensures TwoTo(e + 1) == 2.0 * TwoTo(e)
  {
    if e >= 0 {
      PowerOfTwoStep(e);
    } else {
      PowerOfTwoStep(-e - 1);
      assert PowerOfTwo(0) == 1.0;
    }
  }

  /** The gap between the words bits and bits + 1. */
  function UnitInLastPlace(bits: Word): Positive {
    TwoTo((if Exponent(bits) == 0 then 1 else Exponent(bits)) - 1075)
  }

  function Significand(bits: Word): nat {
    (if Exponent(bits) == 0 then 0 else FRACTION_LIMIT) + Fraction(bits)
  }

  function Units(count: int, unit: real): real {
    count as real * unit
  }

  lemma ValueFromUnit(bits: Word)
    ensures PositiveFiniteValue(bits) == Units(Significand(bits), UnitInLastPlace(bits))
  {
  }

  lemma SuccessorFields(bits: Word)
    requires bits < MAX_FINITE
    ensures Fraction(bits) < FRACTION_LIMIT - 1 ==>
      Exponent(bits + 1) == Exponent(bits) && Fraction(bits + 1) == Fraction(bits) + 1
    ensures Fraction(bits) == FRACTION_LIMIT - 1 ==>
      Exponent(bits + 1) == Exponent(bits) + 1 && Fraction(bits + 1) == 0
  {
  }

  lemma SuccessorSignificand(bits: Word)
    requires bits < MAX_FINITE
    ensures
      || (Significand(bits + 1) == Significand(bits) + 1 && UnitInLastPlace(bits + 1) == UnitInLastPlace(bits))
      || (2 * Significand(bits + 1) == Significand(bits) + 1
          && UnitInLastPlace(bits + 1) == 2.0 * UnitInLastPlace(bits))
  {
    SuccessorFields(bits);
    if Exponent(bits + 1) > Exponent(bits) > 0 {
      TwoToStep(Exponent(bits) - 1075);
    }
  }

  lemma OneMoreUnit(value: real, count: int, unit: real, value': real, count': int, unit': real)
    requires value == Units(count, unit) && value' == Units(count', unit')
    requires || (count' == count + 1 && unit' == unit)
             || (2 * count' == count + 1 && unit' == 2.0 * unit)
    ensures value' == value + unit
  {
    if unit' == 2.0 * unit && 2 * count' == count + 1 {
      assert count' as real * unit' == (2 * count') as real * unit;
    }
  }

  /** Consecutive encodings differ by exactly one unit in the last place. */
  lemma ValueStep(bits: Word)
    requires bits < MAX_FINITE
    ensures PositiveFiniteValue(bits + 1) == PositiveFiniteValue(bits) + UnitInLastPlace(bits)
  {
    ValueFromUnit(bits);
    ValueFromUnit(bits + 1);
    SuccessorSignificand(bits);
    OneMoreUnit(PositiveFiniteValue(bits), Significand(bits), UnitInLastPlace(bits),
                PositiveFiniteValue(bits + 1), Significand(bits + 1), UnitInLastPlace(bits + 1));
  }

  /** Encoding order is value order on nonnegative finite words. */
  lemma {:induction false} ValueMonotone(a: Word, b: Word)
    requires a < b <= MAX_FINITE
    ensures PositiveFiniteValue(a) < PositiveFiniteValue(b)
    decreases b
  {
    ValueStep(b - 1);
    if a < b - 1 {
      ValueMonotone(a, b - 1);
    }
  }

  lemma ValueOrder(a: Word, b: Word)
    requires a <= MAX_FINITE && b <= MAX_FINITE
    ensures PositiveFiniteValue(a) <= PositiveFiniteValue(b) <==> a <= b
    ensures PositiveFiniteValue(a) >= 0.0
    ensures PositiveFiniteValue(a) == 0.0 <==> a == 0
  {
    if a < b { ValueMonotone(a, b); }
    if b < a { ValueMonotone(b, a); }
    if 0 < a { ValueMonotone(0, a); }
    assert PositiveFiniteValue(0) == 0.0;
  }

  /** The least positive normal word. */
  const MIN_NORMAL: Word := 0x10_0000_0000_0000

  predicate NegativeClass(c: Binary64Class) {
    c.NegativeZero? || c.NegativeSubnormal? || c.NegativeNormal? || c.NegativeInfinity?
  }

  /** Apart from NaN the class tells the sign, and between zero and infinity whether the value has the least
      exponent. */
  lemma ClassMeaning(bits: Word)
    requires !IsNaN(bits)
    ensures NegativeClass(Classify(bits)) <==> Negative(bits)
    ensures IsFinite(bits) && !IsZero(bits) ==>
      (Classify(bits) in {PositiveSubnormal, NegativeSubnormal} <==>
        PositiveFiniteValue(Magnitude(bits)) < PositiveFiniteValue(MIN_NORMAL))
    ensures IsFinite(bits) && !IsZero(bits) ==>
      (Classify(bits) in {PositiveNormal, NegativeNormal} <==>
        PositiveFiniteValue(MIN_NORMAL) <= PositiveFiniteValue(Magnitude(bits)))
  {
    ClassesFromFields(bits);
    LeastExponent(Magnitude(bits));
    if IsFinite(bits) { ValueOrder(MIN_NORMAL, Magnitude(bits)); }
  }

  lemma LeastExponent(magnitude: Word)
    requires magnitude < SIGN_MASK
    ensures Exponent(magnitude) == 0 <==> magnitude < MIN_NORMAL
  {
  }

  // ---- The extended line --------------------------------------------------

  /** A point of the extended real line; the lexicographic pair of _endpoint_rank. */
  datatype Extended = MinusInfinity | Finite(value: real) | PlusInfinity {
    predicate LessEq(other: Extended) {
      MinusInfinity? || other.PlusInfinity? || (Finite? && other.Finite? && value <= other.value)
    }
  }

  /** The number a non-NaN word stands for; the two zeros stand for the same one. */
  function Numeric(bits: Word): Extended
    requires !IsNaN(bits)
  {
    if IsFinite(bits) then Finite(FiniteValue(bits))
    else if Negative(bits) then MinusInfinity
    else PlusInfinity
  }

  function EndpointRank(bits: Word): Result<Extended, Fault> {
    if IsNaN(bits) then Failure(NaNEndpoint) else Success(Numeric(bits))
  }

  function EndpointCompare(left: Word, right: Word): (r: Result<int, Fault>)
    ensures r.Success? <==> !IsNaN(left) && !IsNaN(right)
    ensures r.Success? ==>
      && (r.value <= 0 <==> Numeric(left).LessEq(Numeric(right)))
      && (r.value >= 0 <==> Numeric(right).LessEq(Numeric(left)))
  {
    var leftRank :- EndpointRank(left);
    var rightRank :- EndpointRank(right);
    if !rightRank.LessEq(leftRank) then Success(-1)
    else if !leftRank.LessEq(rightRank) then Success(1)
    else Success(0)
  }

  /** The signed magnitude of a word. */
  function Ordinal(bits: Word): int {
    if Negative(bits) then -(Magnitude(bits) as int) else Magnitude(bits)
  }

  /** Numeric order on words is the order of their signed magnitudes. */
  lemma NumericOrder(a: Word, b: Word)
    requires !IsNaN(a) && !IsNaN(b)
    ensures Numeric(a).LessEq(Numeric(b)) <==> Ordinal(a) <= Ordinal(b)
  {
    if IsFinite(a) && IsFinite(b) {
      ValueOrder(Magnitude(a), Magnitude(b));
      ValueOrder(Magnitude(b), Magnitude(a));
    }
  }

  function MinimumEndpoint(left: Word, right: Word): (r: Result<Word, Fault>) {
    var comparison :- EndpointCompare(left, right);
    if comparison < 0 then Success(left)
    else if comparison > 0 then Success(right)
    else if IsZero(left) && IsZero(right) then
      Success(if Negative(left) || Negative(right) then NEGATIVE_ZERO else POSITIVE_ZERO)
    else Success(left)
  }

  function MaximumEndpoint(left: Word, right: Word): (r: Result<Word, Fault>) {
    var comparison :- EndpointCompare(left, right);
    if comparison > 0 then Success(left)
    else if comparison < 0 then Success(right)
    else if IsZero(left) && IsZero(right) then
      Success(if !(Negative(left) && Negative(right)) then POSITIVE_ZERO else NEGATIVE_ZERO)
    else Success(left)
  }

  /** The endpoint selectors are the minimum and the maximum of the total order that refines the
      numeric one by placing -0 just below +0. */
  predicate TotalLessEq(a: Word, b: Word)
  {
    if Negative(a) != Negative(b) then Negative(a)
    else if Negative(a) then a >= b
    else a <= b
  }

  lemma SelectorsMeet(left: Word, right: Word)
    requires !IsNaN(left) && !IsNaN(right)
    ensures MinimumEndpoint(left, right) == Success(if TotalLessEq(left, right) then left else right)
    ensures MaximumEndpoint(left, right) == Success(if TotalLessEq(left, right) then right else left)
    ensures TotalLessEq(left, right) ==> Numeric(left).LessEq(Numeric(right))
  {
    NumericOrder(left, right);
    NumericOrder(right, left);
  }
}
