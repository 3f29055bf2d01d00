/** Directed and nearest rounding of an exact value, by search over the ordered encodings
    (reference/exact_binary64.py, lines 184-339). */
module Rounding {
  import opened Outcomes
  import opened Binary64

  /** r is the greatest finite nonnegative word whose value is at most v. */
  ghost predicate IsFloor(v: real, r: Word) {
    && r <= MAX_FINITE
    && forall w: Word | w <= MAX_FINITE :: PositiveFiniteValue(w) <= v <==> w <= r
  }

  /** r is the least nonnegative word whose value is at least v; MAX_FINITE + 1 is the infinity. */
  ghost predicate IsCeiling(v: real, r: Word) {
    && r <= POSITIVE_INFINITY
    && forall w: Word | w <= MAX_FINITE :: PositiveFiniteValue(w) >= v <==> w >= r
  }

  lemma FloorFromNeighbours(v: real, r: Word)
    requires r <= MAX_FINITE && PositiveFiniteValue(r) <= v
    requires r == MAX_FINITE || v < PositiveFiniteValue(r + 1)
    ensures IsFloor(v, r)
  {
    forall w: Word | w <= MAX_FINITE
      ensures PositiveFiniteValue(w) <= v <==> w <= r
    {
      ValueOrder(w, r);
      if r != MAX_FINITE { ValueOrder(r + 1, w); }
    }
  }

  lemma CeilingFromNeighbours(v: real, r: Word)
    requires r <= POSITIVE_INFINITY
    requires r == POSITIVE_INFINITY || PositiveFiniteValue(r) >= v
    requires r == 0 || PositiveFiniteValue(r - 1) < v
    ensures IsCeiling(v, r)
  {
    forall w: Word | w <= MAX_FINITE
      ensures PositiveFiniteValue(w) >= v <==> w >= r
    {
      if r != POSITIVE_INFINITY { ValueOrder(r, w); }
      if r != 0 { ValueOrder(w, r - 1); }
    }
  }

  // ---- The two searches ---------------------------------------------------

  function FloorBetween(v: real, low: Word, high: Word): (r: Word)
    requires low <= high <= MAX_FINITE
    requires PositiveFiniteValue(low) <= v
    requires high == MAX_FINITE || v < PositiveFiniteValue(high + 1)
    ensures IsFloor(v, r)
    decreases high - low, v
  {
    if low == high then
      FloorFromNeighbours(v, low);
      low
    else
      var middle := (low + high + 1) / 2;
      if PositiveFiniteValue(middle) <= v then FloorBetween(v, middle, high)
      else FloorBetween(v, low, middle - 1)
  }

  function FloorWord(v: real): (r: Word)
    requires v >= 0.0
    ensures IsFloor(v, r)
  {
    FloorBetween(v, 0, MAX_FINITE)
  }

  lemma CeilingFromFloor(v: real, floor: Word)
    requires v >= 0.0 && IsFloor(v, floor)
    ensures IsCeiling(v, if PositiveFiniteValue(floor) == v then floor else floor + 1)
  {
    forall w: Word | w <= MAX_FINITE
      ensures PositiveFiniteValue(w) >= v <==>
        w >= if PositiveFiniteValue(floor) == v then floor else floor + 1
    {
      ValueOrder(w, floor);
      ValueOrder(floor, w);
    }
  }

  function CeilingWord(v: real): (r: Word)
    requires v >= 0.0
    ensures IsCeiling(v, r)
  {
    var floor := FloorWord(v);
    CeilingFromFloor(v, floor);
    if PositiveFiniteValue(floor) == v then floor else floor + 1
  }

  lemma FloorUnique(v: real, r: Word, s: Word)
    requires IsFloor(v, r) && IsFloor(v, s)
    ensures r == s
  {
    assert PositiveFiniteValue(r) <= v && PositiveFiniteValue(s) <= v;
  }

  lemma CeilingUnique(v: real, r: Word, s: Word)
    requires IsCeiling(v, r) && IsCeiling(v, s)
    ensures r == s
  {
    var least := if r < s then r else s;
    assert least < POSITIVE_INFINITY ==> PositiveFiniteValue(least) >= v;
  }

  method PositiveFloor(v: real) returns (answer: Word)
    requires v >= 0.0
    ensures answer == FloorWord(v)
  {
    if v >= PositiveFiniteValue(MAX_FINITE) {
      FloorFromNeighbours(v, MAX_FINITE);
      FloorUnique(v, MAX_FINITE, FloorWord(v));
      return MAX_FINITE;
    }
    ghost var floor := FloorWord(v);
    var low: int := POSITIVE_ZERO;
    var high: int := MAX_FINITE;
    answer := POSITIVE_ZERO;
    while low <= high
      invariant 0 <= low <= high + 1 <= MAX_FINITE + 1
      invariant low <= floor <= high || (answer == floor && low == floor + 1)
      decreases high - low + 1
    {
      var middle := (low + high) / 2;
      if PositiveFiniteValue(middle) <= v {
        answer := middle;
        low := middle + 1;
      } else {
        high := middle - 1;
      }
    }
  }

  method PositiveCeil(v: real) returns (answer: Word)
    requires v >= 0.0
    ensures answer == CeilingWord(v)
  {
    if v > PositiveFiniteValue(MAX_FINITE) {
      CeilingFromNeighbours(v, POSITIVE_INFINITY);
      CeilingUnique(v, POSITIVE_INFINITY, CeilingWord(v));
      return POSITIVE_INFINITY;
    }
    ghost var ceiling := CeilingWord(v);
    var low: int := POSITIVE_ZERO;
    var high: int := MAX_FINITE;
    answer := MAX_FINITE;
    while low <= high
      invariant 0 <= low <= high + 1 <= MAX_FINITE + 1
      invariant low <= ceiling <= high || (answer == ceiling && high == ceiling - 1)
      decreases high - low + 1
    {
      var middle := (low + high) / 2;
      if PositiveFiniteValue(middle) >= v {
        answer := middle;
        high := middle - 1;
      } else {
        low := middle + 1;
      }
    }
  }

  lemma CeilingAboveFloor(v: real)
    requires v >= 0.0
    ensures CeilingWord(v) == FloorWord(v) + 1
      || (CeilingWord(v) == FloorWord(v) && PositiveFiniteValue(FloorWord(v)) == v)
  {
  }

  // ---- Rounding functions -------------------------------------------------

  function Negate(bits: Word): (r: Word)
    ensures Magnitude(r) == Magnitude(bits)
    ensures Negative(r) != Negative(bits)
  {
    if Negative(bits) then bits - SIGN_MASK else bits + SIGN_MASK
  }

  function NegateNonNaN(bits: Word): Result<Word, Fault> {
    if IsNaN(bits) then Failure(NaNEndpoint) else Success(Negate(bits))
  }

  function RoundDown(v: real): (r: Word)
    ensures !IsNaN(r)
  {
    if v == 0.0 then NEGATIVE_ZERO
    else if v > 0.0 then FloorWord(v)
    else Negate(CeilingWord(-v))
  }

  function RoundUp(v: real): (r: Word)
    ensures !IsNaN(r)
  {
    if v == 0.0 then POSITIVE_ZERO
    else if v > 0.0 then CeilingWord(v)
    else Negate(FloorWord(-v))
  }

  function NearestOverflowThreshold(): real {
    PositiveFiniteValue(MAX_FINITE) + TwoTo(970)
  }

  function RoundPositiveNearestEven(v: real): Word
    requires v > 0.0
  {
    if v >= NearestOverflowThreshold() then POSITIVE_INFINITY
    else if v > PositiveFiniteValue(MAX_FINITE) then MAX_FINITE
    else NearerNeighbour(v, FloorWord(v), CeilingWord(v))
  }

  function NearerNeighbour(v: real, lower: Word, upper: Word): Word {
    var lowerValue := PositiveFiniteValue(lower);
    if lowerValue == v then lower
    else
      var lowerDistance := v - lowerValue;
      var upperDistance := PositiveFiniteValue(upper) - v;
      if lowerDistance < upperDistance then lower
      else if upperDistance < lowerDistance then upper
      else if lower % 2 == 0 then lower else upper
  }

  function RoundNearestEven(v: real): Word {
    if v == 0.0 then POSITIVE_ZERO
    else if v > 0.0 then RoundPositiveNearestEven(v)
    else Negate(RoundPositiveNearestEven(-v))
  }

  // ---- Directed rounding is the best bound there is ------------------------

  lemma BelowNonnegative(v: real, w: Word)
    requires v >= 0.0 && !IsNaN(w)
    ensures Numeric(w).LessEq(Finite(v)) <==> Ordinal(w) <= FloorWord(v)
  {
    if IsFinite(w) {
      ValueOrder(Magnitude(w), 0);
    }
  }

  lemma BelowNegative(v: real, w: Word)
    requires v < 0.0 && !IsNaN(w)
    ensures Numeric(w).LessEq(Finite(v)) <==> Ordinal(w) <= -(CeilingWord(-v) as int)
  {
    assert PositiveFiniteValue(0) < -v;
    if IsFinite(w) {
      ValueOrder(Magnitude(w), 0);
    }
  }

  lemma RoundDownOrdinal(v: real)
    ensures Ordinal(RoundDown(v)) == if v >= 0.0 then FloorWord(v) else -(CeilingWord(-v) as int)
  {
    if v == 0.0 {
      ValueOrder(FloorWord(v), 0);
      assert PositiveFiniteValue(FloorWord(v)) <= v;
    }
  }

  /** A word lies at or below v exactly when it lies at or below RoundDown(v). */
  lemma RoundDownIsGreatest(v: real, w: Word)
    requires !IsNaN(w)
    ensures Numeric(RoundDown(v)).LessEq(Finite(v))
    ensures Numeric(w).LessEq(Finite(v)) <==> Numeric(w).LessEq(Numeric(RoundDown(v)))
  {
    var r := RoundDown(v);
    RoundDownOrdinal(v);
    NumericOrder(w, r);
    if v >= 0.0 {
      BelowNonnegative(v, w);
      BelowNonnegative(v, r);
    } else {
      BelowNegative(v, w);
      BelowNegative(v, r);
    }
  }

  // Negation mirrors the line, so rounding up is rounding down seen from the other side.

  function Mirror(x: Extended): Extended {
    match x
    case MinusInfinity => PlusInfinity
    case Finite(v) => Finite(-v)
    case PlusInfinity => MinusInfinity
  }

  lemma NegateMirrors(w: Word)
    requires !IsNaN(w)
    ensures !IsNaN(Negate(w)) && Numeric(Negate(w)) == Mirror(Numeric(w))
    ensures Negate(Negate(w)) == w
  {
  }

  lemma RoundUpMirrorsRoundDown(v: real)
    ensures RoundUp(v) == Negate(RoundDown(-v))
  {
  }

  /** A word lies at or above v exactly when it lies at or above RoundUp(v). */
  lemma RoundUpIsLeast(v: real, w: Word)
    requires !IsNaN(w)
    ensures Finite(v).LessEq(Numeric(RoundUp(v)))
    ensures Finite(v).LessEq(Numeric(w)) <==> Numeric(RoundUp(v)).LessEq(Numeric(w))
  {
    var down := RoundDown(-v);
    RoundUpMirrorsRoundDown(v);
    NegateMirrors(w);
    RoundDownIsGreatest(-v, Negate(w));
    NegateMirrors(down);
  }

  // ---- Nearest, ties to even ----------------------------------------------

  function Distance(x: real, y: real): real {
    if x <= y then y - x else x - y
  }

  /** The word r of value y is as close to v as x is; on a tie between different values r is even. */
  predicate Nearest(v: real, r: Word, y: real, x: real) {
    && Distance(v, y) <= Distance(v, x)
    && (Distance(v, y) == Distance(v, x) && y != x ==> r % 2 == 0)
  }

  lemma NearerNeighbourIsNearest(v: real, lower: Word, upper: Word, x: real)
    requires PositiveFiniteValue(lower) <= v <= PositiveFiniteValue(upper)
    requires PositiveFiniteValue(lower) != v ==> upper == lower + 1
    requires x <= PositiveFiniteValue(lower) || PositiveFiniteValue(upper) <= x
    ensures var r := NearerNeighbour(v, lower, upper);
      Nearest(v, r, PositiveFiniteValue(r), x)
  {
    NearerEnd(v, lower, upper, PositiveFiniteValue(lower), PositiveFiniteValue(upper),
              NearerNeighbour(v, lower, upper), x);
  }

  lemma NearerEnd(v: real, lower: Word, upper: Word, lowerValue: real, upperValue: real, r: Word, x: real)
    requires lowerValue <= v <= upperValue && (lowerValue != v ==> upper == lower + 1)
    requires x <= lowerValue || upperValue <= x
    requires r == if lowerValue == v || v - lowerValue < upperValue - v then lower
                  else if upperValue - v < v - lowerValue then upper
                  else if lower % 2 == 0 then lower else upper
    ensures Nearest(v, r, if r == lower then lowerValue else upperValue, x)
  {
    CloserEnd(v, lowerValue, upperValue, x);
  }

  /** No value outside an interval is closer to a point of it than the closer end. */
  lemma CloserEnd(v: real, lower: real, upper: real, x: real)
    requires lower <= v <= upper && (x <= lower || upper <= x)
    ensures v - lower <= upper - v ==> Distance(v, lower) <= Distance(v, x)
    ensures v - lower < upper - v ==> Distance(v, lower) == Distance(v, x) ==> x == lower
    ensures upper - v <= v - lower ==> Distance(v, upper) <= Distance(v, x)
    ensures upper - v < v - lower ==> Distance(v, upper) == Distance(v, x) ==> x == upper
    ensures v == lower ==> Distance(v, lower) == Distance(v, x) ==> x == lower
  {
  }

  lemma NearestPositive(v: real, w: Word)
    requires v > 0.0 && RoundPositiveNearestEven(v) != POSITIVE_INFINITY && w <= MAX_FINITE
    ensures var r := RoundPositiveNearestEven(v);
      r <= MAX_FINITE && Nearest(v, r, PositiveFiniteValue(r), PositiveFiniteValue(w))
  {
    var lower, upper := FloorWord(v), CeilingWord(v);
    if v > PositiveFiniteValue(MAX_FINITE) {
      ValueOrder(w, MAX_FINITE);
    } else {
      CeilingAboveFloor(v);
      assert PositiveFiniteValue(lower) <= v;
      assert upper <= MAX_FINITE && PositiveFiniteValue(upper) >= v;
      if w <= lower { ValueOrder(w, lower); } else { ValueOrder(upper, w); }
      NearerNeighbourIsNearest(v, lower, upper, PositiveFiniteValue(w));
    }
  }

  lemma NearestPastZero(v: real, r: Word, y: real, x: real)
    requires v > 0.0 && x <= 0.0 && Nearest(v, r, y, 0.0)
    ensures Nearest(v, r, y, x)
  {
  }

  lemma NearestMirrors(v: real, r: Word, y: real, x: real)
    requires Nearest(v, r, y, x)
    ensures Nearest(-v, Negate(r), -y, -x)
  {
  }

  lemma SignedValue(w: Word)
    requires IsFinite(w)
    ensures FiniteValue(w) == if Negative(w) then -PositiveFiniteValue(Magnitude(w)) else PositiveFiniteValue(w)
    ensures Negative(w) ==> FiniteValue(w) <= 0.0
    ensures FiniteValue(Negate(w)) == -FiniteValue(w)
  {
    ValueOrder(Magnitude(w), 0);
  }

  lemma NearestPositiveAgainstAll(v: real, w: Word)
    requires v > 0.0 && RoundPositiveNearestEven(v) != POSITIVE_INFINITY && IsFinite(w)
    ensures var r := RoundPositiveNearestEven(v);
      r <= MAX_FINITE && Nearest(v, r, PositiveFiniteValue(r), FiniteValue(w))
  {
    SignedValue(w);
    if Negative(w) {
      var r := RoundPositiveNearestEven(v);
      NearestPositive(v, 0);
      SignedValue(0);
      ValueOrder(0, 0);
      NearestPastZero(v, r, PositiveFiniteValue(r), FiniteValue(w));
    } else {
      NearestPositive(v, w);
    }
  }

  lemma OverflowExactlyFromThreshold(v: real)
    requires v > 0.0
    ensures RoundPositiveNearestEven(v) == POSITIVE_INFINITY <==> v >= NearestOverflowThreshold()
  {
    if v <= PositiveFiniteValue(MAX_FINITE) {
      CeilingAboveFloor(v);
      assert CeilingWord(v) <= MAX_FINITE;
    }
  }

  /** Round to nearest: infinity exactly from the overflow threshold on, otherwise the closest
      finite word, the even one of two equally close. */
  lemma RoundNearestEvenIsNearest(v: real, w: Word)
    requires IsFinite(w)
    ensures !IsNaN(RoundNearestEven(v))
    ensures RoundNearestEven(v) == POSITIVE_INFINITY <==> v >= NearestOverflowThreshold()
    ensures RoundNearestEven(v) == NEGATIVE_INFINITY <==> -v >= NearestOverflowThreshold()
    ensures IsFinite(RoundNearestEven(v)) ==>
      Nearest(v, RoundNearestEven(v), FiniteValue(RoundNearestEven(v)), FiniteValue(w))
  {
    ThresholdPositive();
    if v == 0.0 {
      ValueOrder(0, 0);
    } else {
      var size := if v > 0.0 then v else -v;
      var r := RoundPositiveNearestEven(size);
      RoundPositiveIsFiniteOrInfinite(size);
      OverflowExactlyFromThreshold(size);
      if r != POSITIVE_INFINITY {
        SignedValue(r);
        RoundNearestEvenSigned(v, r, w);
      }
    }
  }

  lemma RoundNearestEvenSigned(v: real, r: Word, w: Word)
    requires v != 0.0 && r == RoundPositiveNearestEven(if v > 0.0 then v else -v) && r < POSITIVE_INFINITY
    requires IsFinite(w)
    ensures v > 0.0 ==> Nearest(v, r, PositiveFiniteValue(r), FiniteValue(w))
    ensures v < 0.0 ==> Nearest(v, Negate(r), -PositiveFiniteValue(r), FiniteValue(w))
  {
    if v > 0.0 {
      NearestPositiveAgainstAll(v, w);
    } else {
      NearestNegative(-v, r, w);
    }
  }

  lemma OppositeValue(w: Word)
    requires IsFinite(w)
    ensures IsFinite(Negate(w)) && FiniteValue(Negate(w)) == -FiniteValue(w)
  {
    SignedValue(w);
  }

  lemma NearestNegative(size: real, r: Word, w: Word)
    requires size > 0.0 && r == RoundPositiveNearestEven(size) && r < POSITIVE_INFINITY && IsFinite(w)
    ensures Nearest(-size, Negate(r), -PositiveFiniteValue(r), FiniteValue(w))
  {
    OppositeValue(w);
    NearestPositiveAgainstAll(size, Negate(w));
    NearestMirrors(size, r, PositiveFiniteValue(r), -FiniteValue(w));
  }

  /** The threshold lies half a unit in the last place above the greatest finite word. */
  lemma ThresholdIsMidway()
    ensures NearestOverflowThreshold() == PositiveFiniteValue(MAX_FINITE) + UnitInLastPlace(MAX_FINITE) / 2.0
  {
    TwoToStep(970);
    assert Exponent(MAX_FINITE) == 2046;
  }

  lemma ThresholdPositive()
    ensures NearestOverflowThreshold() > 0.0
  {
    ValueOrder(MAX_FINITE, 0);
  }

  lemma RoundPositiveIsFiniteOrInfinite(v: real)
    requires v > 0.0
    ensures RoundPositiveNearestEven(v) <= POSITIVE_INFINITY
  {
    CeilingAboveFloor(v);
  }

  // ---- Neighbours ---------------------------------------------------------

  function NextUp(bits: Word): Result<Word, Fault> {
    if IsNaN(bits) then Failure(NonFiniteOperand)
    else if bits == POSITIVE_INFINITY then Success(POSITIVE_INFINITY)
    else if bits == NEGATIVE_INFINITY then Success(MIN_FINITE)
    else if IsZero(bits) then Success(MIN_POSITIVE_SUBNORMAL)
    else Success(if Negative(bits) then bits - 1 else bits + 1)
  }

  function NextDown(bits: Word): Result<Word, Fault> {
    if IsNaN(bits) then Failure(NonFiniteOperand)
    else if bits == NEGATIVE_INFINITY then Success(NEGATIVE_INFINITY)
    else if bits == POSITIVE_INFINITY then Success(MAX_FINITE)
    else if IsZero(bits) then Success(SIGN_MASK + MIN_POSITIVE_SUBNORMAL)
    else Success(if Negative(bits) then bits + 1 else bits - 1)
  }

  /** NextUp is the least word above bits, and NextDown undoes it up to the sign of zero. */
  lemma NextUpIsLeastAbove(bits: Word, w: Word)
    requires !IsNaN(bits) && !IsNaN(w) && bits != POSITIVE_INFINITY
    ensures NextUp(bits).Success? && !IsNaN(NextUp(bits).value)
    ensures !Numeric(w).LessEq(Numeric(bits)) <==> Numeric(NextUp(bits).value).LessEq(Numeric(w))
    ensures NextDown(NextUp(bits).value).Success?
    ensures Ordinal(NextDown(NextUp(bits).value).value) == Ordinal(bits)
  {
    NumericOrder(w, bits);
    NumericOrder(NextUp(bits).value, w);
  }

  lemma NextDownIsGreatestBelow(bits: Word, w: Word)
    requires !IsNaN(bits) && !IsNaN(w) && bits != NEGATIVE_INFINITY
    ensures NextDown(bits).Success? && !IsNaN(NextDown(bits).value)
    ensures !Numeric(bits).LessEq(Numeric(w)) <==> Numeric(w).LessEq(Numeric(NextDown(bits).value))
  {
    NumericOrder(bits, w);
    NumericOrder(w, NextDown(bits).value);
  }

  ghost predicate Representable(v: real) {
    exists w: Word :: IsFinite(w) && FiniteValue(w) == v
  }

  /** Around a value that is no word, the two directed roundings are neighbouring encodings;
      a value that is a word is returned by both, up to the sign of zero. */
  lemma DirectedRoundingsAdjacent(v: real)
    ensures !Representable(v) ==> NextUp(RoundDown(v)) == Success(RoundUp(v))
    ensures Representable(v) ==>
      && IsFinite(RoundDown(v)) && FiniteValue(RoundDown(v)) == v
      && IsFinite(RoundUp(v)) && FiniteValue(RoundUp(v)) == v
  {
    if Representable(v) {
      var w: Word :| IsFinite(w) && FiniteValue(w) == v;
      RoundDownIsGreatest(v, w);
      RoundUpIsLeast(v, w);
    } else {
      NotRepresentable(v);
    }
  }

  lemma NotRepresentable(v: real)
    requires !Representable(v)
    ensures NextUp(RoundDown(v)) == Success(RoundUp(v))
  {
    var size := if v > 0.0 then v else -v;
    var floor := FloorWord(size);
    ValueOrder(0, 0);
    assert FiniteValue(0) == 0.0;
    SignedValue(floor);
    SignedValue(Negate(floor));
    assert FiniteValue(if v > 0.0 then floor else Negate(floor)) != v;
    CeilingAboveFloor(size);
  }
}
