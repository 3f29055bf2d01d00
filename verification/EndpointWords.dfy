/** Results as words: the signs of zeros, which the numeric laws leave open
    (reference/exact_binary64.py, lines 243-304 and 479-664). */
module EndpointWords {
  import opened Outcomes
  import opened Numbers
  import opened Binary64
  import opened Rounding
  import opened Intervals
  import opened IntervalLaws
  import opened Tightness

  /** Rounding keeps the sign; zero itself is rounded towards the side it is rounded to. */
  lemma RoundedSigns(v: real)
    ensures Negative(RoundDown(v)) <==> v <= 0.0
    ensures Negative(RoundUp(v)) <==> v < 0.0
    ensures Negative(RoundNearestEven(v)) <==> v < 0.0
    ensures v == 0.0 ==>
      RoundDown(v) == NEGATIVE_ZERO && RoundUp(v) == POSITIVE_ZERO && RoundNearestEven(v) == POSITIVE_ZERO
  {
    if v != 0.0 {
      RoundSign(Down, v);
      RoundSign(Up, v);
      RoundSign(NearestEven, v);
    }
  }

  /** A step from a word that is no zero keeps its sign, onto zero included, and the step back returns the word. */
  lemma NeighbourWords(w: Word)
    requires !IsNaN(w) && !IsZero(w)
    ensures NextUp(w).Success? && Negative(NextUp(w).value) == Negative(w)
    ensures NextDown(w).Success? && Negative(NextDown(w).value) == Negative(w)
    ensures w != POSITIVE_INFINITY ==> NextDown(NextUp(w).value) == Success(w)
    ensures w != NEGATIVE_INFINITY ==> NextUp(NextDown(w).value) == Success(w)
  {
  }

  /** Negating an interval flips the sign of each end, so doing it twice restores the words. */
  lemma NegWords(a: Interval)
    ensures IntervalNeg(a).Success?
    ensures var r := IntervalNeg(a).value;
      Negative(r.lo) != Negative(a.hi) && Negative(r.hi) != Negative(a.lo) && IntervalNeg(r) == Success(a)
  {
    NegLaw(a, 0.0);
    NegateMirrors(a.lo);
    NegateMirrors(a.hi);
  }

  /** Absolute values have no negative ends, negative zero included, and do not depend on the sign. */
  lemma AbsWords(a: Interval)
    ensures IntervalAbs(a).Success?
    ensures !Negative(IntervalAbs(a).value.lo) && !Negative(IntervalAbs(a).value.hi)
    ensures IntervalNeg(a).Success? && IntervalAbs(IntervalNeg(a).value) == IntervalAbs(a)
  {
    var n := Mirrored(a);
    NegWords(a);
    AbsOrdinals(a);
    AbsOrdinals(n);
    AbsEnds(a);
    AbsEnds(n);
    NonnegativeWords(IntervalAbs(a).value.lo, IntervalAbs(n).value.lo);
    NonnegativeWords(IntervalAbs(a).value.hi, IntervalAbs(n).value.hi);
  }

  lemma AbsEnds(a: Interval)
    ensures IntervalAbs(a).Success?
    ensures !Negative(IntervalAbs(a).value.lo) && !Negative(IntervalAbs(a).value.hi)
  {
    AbsOrdinals(a);
    SelectorsMeet(Magnitude(a.lo), Magnitude(a.hi));
  }

  lemma NonnegativeWords(v: Word, w: Word)
    requires !Negative(v) && !Negative(w) && Ordinal(v) == Ordinal(w)
    ensures v == w
  {
  }

  /** r is the first (last) of two words in the order that puts negative zero first. */
  predicate IsFirst(r: Word, v: Word, w: Word) {
    (r == v || r == w) && TotalLessEq(r, v) && TotalLessEq(r, w)
  }

  predicate IsLast(r: Word, v: Word, w: Word) {
    (r == v || r == w) && TotalLessEq(v, r) && TotalLessEq(w, r)
  }

  /** Minimum and maximum select end by end, telling the zeros apart. */
  lemma MinMaxWords(a: Interval, b: Interval)
    ensures IntervalMin(a, b).Success? && IntervalMax(a, b).Success?
    ensures IsFirst(IntervalMin(a, b).value.lo, a.lo, b.lo) && IsFirst(IntervalMin(a, b).value.hi, a.hi, b.hi)
    ensures IsLast(IntervalMax(a, b).value.lo, a.lo, b.lo) && IsLast(IntervalMax(a, b).value.hi, a.hi, b.hi)
  {
    MinTotal(a, b);
    MaxTotal(a, b);
    SelectorsMeet(a.lo, b.lo);
    SelectorsMeet(a.hi, b.hi);
  }

  lemma NegateReverses(v: Word, w: Word)
    ensures TotalLessEq(v, w) <==> TotalLessEq(Negate(w), Negate(v))
  {
  }

  lemma FirstUnique(r: Word, s: Word, v: Word, w: Word)
    requires IsFirst(r, v, w) && IsFirst(s, v, w)
    ensures r == s
  {
  }

  lemma MirroredMin(a: Interval, b: Interval, low: Interval, high: Interval)
    requires IntervalMin(a, b) == Success(low) && IntervalMax(Mirrored(a), Mirrored(b)) == Success(high)
    ensures low == Mirrored(high)
  {
    MinMaxWords(a, b);
    MinMaxWords(Mirrored(a), Mirrored(b));
    MirroredEnd(low.lo, high.hi, a.lo, b.lo);
    MirroredEnd(low.hi, high.lo, a.hi, b.hi);
  }

  lemma MirroredEnd(first: Word, last: Word, v: Word, w: Word)
    requires IsFirst(first, v, w) && IsLast(last, Negate(v), Negate(w))
    requires !IsNaN(v) && !IsNaN(w)
    ensures first == Negate(last)
  {
    NegateMirrors(v);
    NegateMirrors(w);
    NegateReverses(v, w);
    NegateReverses(w, v);
    FirstUnique(first, Negate(last), v, w);
  }

  /** The minimum is the negated maximum of the negations, as words. */
  lemma MinIsNegatedMax(a: Interval, b: Interval)
    ensures IntervalMin(a, b).Success? && IntervalMax(Mirrored(a), Mirrored(b)).Success?
    ensures IntervalMin(a, b) == IntervalNeg(IntervalMax(Mirrored(a), Mirrored(b)).value)
  {
    MinMaxWords(a, b);
    MinMaxWords(Mirrored(a), Mirrored(b));
    var high := IntervalMax(Mirrored(a), Mirrored(b)).value;
    NegWords(high);
    MirroredMin(a, b, IntervalMin(a, b).value, high);
  }

  /** The ends of a sum of finite intervals: like signs are kept, and a sum of unlike signs that is zero is
      negative below and positive above. */
  lemma AddWords(a: Interval, b: Interval)
    requires a.HasFiniteEndpoints() && b.HasFiniteEndpoints()
    ensures IntervalAdd(a, b).Success?
    ensures var r := IntervalAdd(a, b).value;
      && (Negative(r.lo) <==> if Negative(a.lo) == Negative(b.lo) then Negative(a.lo)
                              else Plus(FiniteValue(a.lo), FiniteValue(b.lo)) <= 0.0)
      && (Negative(r.hi) <==> if Negative(a.hi) == Negative(b.hi) then Negative(a.hi)
                              else Plus(FiniteValue(a.hi), FiniteValue(b.hi)) < 0.0)
  {
    AddHull(a, b, WHOLE);
    SumSign(a.lo, b.lo, Down);
    SumSign(a.hi, b.hi, Up);
  }

  /** Subtraction is addition of the negation, as words. */
  lemma SubWords(a: Interval, b: Interval)
    ensures IntervalNeg(b).Success? && IntervalSub(a, b) == IntervalAdd(a, IntervalNeg(b).value)
  {
    NegWords(b);
    NegateMirrors(b.lo);
    NegateMirrors(b.hi);
    if a.HasFiniteEndpoints() && b.HasFiniteEndpoints() {
      DifferenceIsSum(a.lo, b.hi, Down);
      DifferenceIsSum(a.hi, b.lo, Up);
    }
  }

  predicate IsEnd(w: Word, a: Interval) {
    w == a.lo || w == a.hi
  }

  lemma SelectedCorners(op: CornerOperation, a: Interval, b: Interval)
    returns (r: Interval, lower: seq<Word>, upper: seq<Word>)
    requires a.HasFiniteEndpoints() && b.HasFiniteEndpoints()
    requires op == Over ==> !b.Contains(0.0)
    ensures IntervalOperation(AsOperation(op), a, b) == Success(r)
    ensures CornerWords(op, a, b, Down) == Success(lower) && CornerWords(op, a, b, Up) == Success(upper)
    ensures r.lo in lower && forall w | w in lower :: TotalLessEq(r.lo, w)
    ensures r.hi in upper && forall w | w in upper :: TotalLessEq(w, r.hi)
  {
    FiniteInterval(b);
    CornersHull(op, a, b, WHOLE);
    CornersOutward(op, a, b);
    lower, upper := CornerWords(op, a, b, Down).value, CornerWords(op, a, b, Up).value;
    r := FromCorners(op, a, b).value;
    FromCornersEnds(op, a, b, r, lower, upper);
    SelectNumbers(op, a, b, Down, lower, Minimum);
    SelectNumbers(op, a, b, Up, upper, Maximum);
    ByCorners(op, a, b);
  }

  lemma ByCorners(op: CornerOperation, a: Interval, b: Interval)
    requires a.HasFiniteEndpoints() && b.HasFiniteEndpoints()
    requires op == Over ==> !b.Contains(0.0)
    ensures IntervalOperation(AsOperation(op), a, b) == FromCorners(op, a, b)
  {
  }

  lemma FromCornersEnds(
    op: CornerOperation, a: Interval, b: Interval, r: Interval, lower: seq<Word>, upper: seq<Word>)
    requires CornerWords(op, a, b, Down) == Success(lower) && CornerWords(op, a, b, Up) == Success(upper)
    requires FromCorners(op, a, b) == Success(r)
    ensures SelectFold(lower, Minimum) == Success(r.lo) && SelectFold(upper, Maximum) == Success(r.hi)
  {
  }

  lemma SelectNumbers(
    op: CornerOperation, a: Interval, b: Interval, mode: Mode, words: seq<Word>, selector: Selector)
    requires a.HasFiniteEndpoints() && b.HasFiniteEndpoints() && CornerWords(op, a, b, mode) == Success(words)
    requires op == Over ==> FiniteValue(b.lo) != 0.0 && FiniteValue(b.hi) != 0.0
    ensures SelectFold(words, selector).Success? && SelectFold(words, selector).value in words
    ensures forall w | w in words ::
      if selector == Minimum then TotalLessEq(SelectFold(words, selector).value, w)
      else TotalLessEq(w, SelectFold(words, selector).value)
  {
    CornersRound(op, a, b, mode);
    SelectFoldIsExtreme(words, selector);
  }

  /** The ends of a product or quotient of finite intervals are results at ends of the operands, the first and
      the last of all such results when negative zero comes first. */
  lemma CornerEnds(op: CornerOperation, a: Interval, b: Interval, v: Word, w: Word)
    requires a.HasFiniteEndpoints() && b.HasFiniteEndpoints() && IsEnd(v, a) && IsEnd(w, b)
    requires op == Over ==> !b.Contains(0.0)
    ensures IntervalOperation(AsOperation(op), a, b).Success?
    ensures var r := IntervalOperation(AsOperation(op), a, b).value;
      && CornerWord(op, v, w, Down).Success? && TotalLessEq(r.lo, CornerWord(op, v, w, Down).value)
      && CornerWord(op, v, w, Up).Success? && TotalLessEq(CornerWord(op, v, w, Up).value, r.hi)
    ensures var r := IntervalOperation(AsOperation(op), a, b).value;
      && (exists x, y :: IsEnd(x, a) && IsEnd(y, b) && CornerWord(op, x, y, Down) == Success(r.lo))
      && (exists x, y :: IsEnd(x, a) && IsEnd(y, b) && CornerWord(op, x, y, Up) == Success(r.hi))
  {
    var r, lower, upper := SelectedCorners(op, a, b);
    CornerOfEnds(op, a, b, Down, lower, v, w);
    CornerOfEnds(op, a, b, Up, upper, v, w);
    CornerFromEnds(op, a, b, Down, lower, r.lo);
    CornerFromEnds(op, a, b, Up, upper, r.hi);
  }

  lemma CornerOfEnds(
    op: CornerOperation, a: Interval, b: Interval, mode: Mode, words: seq<Word>, v: Word, w: Word)
    requires CornerWords(op, a, b, mode) == Success(words) && IsEnd(v, a) && IsEnd(w, b)
    ensures CornerWord(op, v, w, mode).Success? && CornerWord(op, v, w, mode).value in words
  {
    assert words[0] in words && words[1] in words && words[2] in words && words[3] in words;
  }

  lemma CornerFromEnds(op: CornerOperation, a: Interval, b: Interval, mode: Mode, words: seq<Word>, r: Word)
    requires CornerWords(op, a, b, mode) == Success(words) && r in words
    ensures exists x, y :: IsEnd(x, a) && IsEnd(y, b) && CornerWord(op, x, y, mode) == Success(r)
  {
    assert words[0] == r ==> IsEnd(a.lo, a) && IsEnd(b.lo, b) && CornerWord(op, a.lo, b.lo, mode) == Success(r);
    assert words[1] == r ==> IsEnd(a.lo, a) && IsEnd(b.hi, b) && CornerWord(op, a.lo, b.hi, mode) == Success(r);
    assert words[2] == r ==> IsEnd(a.hi, a) && IsEnd(b.lo, b) && CornerWord(op, a.hi, b.lo, mode) == Success(r);
    assert words[3] == r ==> IsEnd(a.hi, a) && IsEnd(b.hi, b) && CornerWord(op, a.hi, b.hi, mode) == Success(r);
  }
}
