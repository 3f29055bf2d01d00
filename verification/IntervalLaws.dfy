/** What the interval operations mean: total, enclosing and inclusion-isotone
    (reference/exact_binary64.py, lines 536-685). */
module IntervalLaws {
  import opened Outcomes
  import opened Numbers
  import opened Binary64
  import opened Rounding
  import opened Intervals

  datatype Operation = Add | Sub | Mul | Div | Min | Max

  predicate Defined(op: Operation, y: real) {
    op == Div ==> y != 0.0
  }

  /** The exact operation on numbers. */
  function Exact(op: Operation, x: real, y: real): real
    requires Defined(op, y)
  {
    match op
    case Add => Plus(x, y)
    case Sub => Minus(x, y)
    case Mul => Multiply(x, y)
    case Div => Divide(x, y)
    case Min => if x <= y then x else y
    case Max => if x <= y then y else x
  }

  function IntervalOperation(op: Operation, a: Interval, b: Interval): Result<Interval, Fault> {
    match op
    case Add => IntervalAdd(a, b)
    case Sub => IntervalSub(a, b)
    case Mul => IntervalMul(a, b)
    case Div => IntervalDiv(a, b)
    case Min => IntervalMin(a, b)
    case Max => IntervalMax(a, b)
  }

  /** c holds every exact result of operands drawn independently from a and b. */
  ghost predicate Encloses(op: Operation, a: Interval, b: Interval, c: Interval)
    requires op == Div ==> !b.Contains(0.0)
  {
    forall x, y | a.Contains(x) && b.Contains(y) :: c.Contains(Exact(op, x, y))
  }

  lemma FiniteInterval(a: Interval)
    requires a.HasFiniteEndpoints()
    ensures FiniteValue(a.lo) <= FiniteValue(a.hi)
    ensures a.Contains(FiniteValue(a.lo)) && a.Contains(FiniteValue(a.hi))
    ensures forall x :: a.Contains(x) <==> FiniteValue(a.lo) <= x <= FiniteValue(a.hi)
  {
  }

  lemma WithinReflexive(a: Interval)
    ensures a.Within(a)
  {
  }

  lemma WithinContains(a: Interval, b: Interval, x: real)
    requires a.Within(b) && a.Contains(x)
    ensures b.Contains(x)
  {
  }

  // ---- Outward rounding of a range ----------------------------------------

  /** The endpoints are, as numbers, p rounded down and q rounded up. */
  ghost predicate Outward(p: real, q: real, lo: Word, hi: Word) {
    && !IsNaN(lo) && Numeric(lo) == Numeric(RoundDown(p))
    && !IsNaN(hi) && Numeric(hi) == Numeric(RoundUp(q))
  }

  lemma OutwardFromRounded(p: real, q: real, lo: Word, hi: Word)
    requires Rounded(Down, p, lo) && Rounded(Up, q, hi)
    ensures Outward(p, q, lo, hi)
  {
    if p == 0.0 { NumericOfZero(lo); NumericOfZero(RoundDown(p)); }
    if q == 0.0 { NumericOfZero(hi); NumericOfZero(RoundUp(q)); }
  }

  /** Rounding the two ends of [p, q] outward gives the least interval holding p and q. */
  lemma OutwardHull(p: real, q: real, lo: Word, hi: Word)
    requires p <= q && Outward(p, q, lo, hi)
    ensures Endpoints(lo, hi).Valid()
    ensures forall x | p <= x <= q :: Endpoints(lo, hi).Contains(x)
    ensures forall c: Interval | c.Contains(p) && c.Contains(q) :: Endpoints(lo, hi).Within(c)
  {
    RoundDownIsGreatest(p, lo);
    RoundUpIsLeast(q, hi);
    forall c: Interval | c.Contains(p) && c.Contains(q)
      ensures Endpoints(lo, hi).Within(c)
    {
      RoundDownIsGreatest(p, c.lo);
      RoundUpIsLeast(q, c.hi);
    }
  }

  /** x and y attain the value v of op on a and b. */
  ghost predicate Attained(op: Operation, a: Interval, b: Interval, v: real, x: real, y: real) {
    a.Contains(x) && b.Contains(y) && Defined(op, y) && v == Exact(op, x, y)
  }

  /** The exact image of op lies between p and q, and both are attained. */
  ghost predicate ImageRange(op: Operation, a: Interval, b: Interval, p: real, q: real)
    requires op == Div ==> !b.Contains(0.0)
  {
    && (exists x, y :: Attained(op, a, b, p, x, y))
    && (exists x, y :: Attained(op, a, b, q, x, y))
    && forall x, y | a.Contains(x) && b.Contains(y) :: p <= Exact(op, x, y) <= q
  }

  /** An operation whose endpoints round its exact image outward encloses, and is tight. */
  lemma HullOfImage(op: Operation, a: Interval, b: Interval, p: real, q: real, lo: Word, hi: Word, c: Interval)
    requires op == Div ==> !b.Contains(0.0)
    requires ImageRange(op, a, b, p, q) && Outward(p, q, lo, hi)
    ensures Endpoints(lo, hi).Valid()
    ensures Encloses(op, a, b, Endpoints(lo, hi))
    ensures Encloses(op, a, b, c) ==> Endpoints(lo, hi).Within(c)
  {
    var x, y :| Attained(op, a, b, p, x, y);
    var x', y' :| Attained(op, a, b, q, x', y');
    assert p <= Exact(op, x', y') <= q;
    OutwardHull(p, q, lo, hi);
    assert Encloses(op, a, b, c) ==> c.Contains(Exact(op, x, y)) && c.Contains(Exact(op, x', y'));
  }

  lemma AddImage(a: Interval, b: Interval)
    requires a.HasFiniteEndpoints() && b.HasFiniteEndpoints()
    ensures ImageRange(
      Add, a, b, Plus(FiniteValue(a.lo), FiniteValue(b.lo)), Plus(FiniteValue(a.hi), FiniteValue(b.hi)))
  {
    FiniteInterval(a);
    FiniteInterval(b);
    assert Attained(Add, a, b, Plus(FiniteValue(a.lo), FiniteValue(b.lo)), FiniteValue(a.lo), FiniteValue(b.lo));
    assert Attained(Add, a, b, Plus(FiniteValue(a.hi), FiniteValue(b.hi)), FiniteValue(a.hi), FiniteValue(b.hi));
  }

  lemma SubImage(a: Interval, b: Interval)
    requires a.HasFiniteEndpoints() && b.HasFiniteEndpoints()
    ensures ImageRange(
      Sub, a, b, Minus(FiniteValue(a.lo), FiniteValue(b.hi)), Minus(FiniteValue(a.hi), FiniteValue(b.lo)))
  {
    FiniteInterval(a);
    FiniteInterval(b);
    assert Attained(Sub, a, b, Minus(FiniteValue(a.lo), FiniteValue(b.hi)), FiniteValue(a.lo), FiniteValue(b.hi));
    assert Attained(Sub, a, b, Minus(FiniteValue(a.hi), FiniteValue(b.lo)), FiniteValue(a.hi), FiniteValue(b.lo));
  }

  lemma AddHull(a: Interval, b: Interval, c: Interval)
    requires a.HasFiniteEndpoints() && b.HasFiniteEndpoints()
    ensures IntervalAdd(a, b).Success?
    ensures Encloses(Add, a, b, IntervalAdd(a, b).value)
    ensures Encloses(Add, a, b, c) ==> IntervalAdd(a, b).value.Within(c)
  {
    var lo, hi := AddExact(a.lo, b.lo, Down).value, AddExact(a.hi, b.hi, Up).value;
    AddOutward(a, b);
    AddImage(a, b);
    HullOfImage(
      Add, a, b, Plus(FiniteValue(a.lo), FiniteValue(b.lo)), Plus(FiniteValue(a.hi), FiniteValue(b.hi)), lo, hi, c);
  }

  lemma AddOutward(a: Interval, b: Interval)
    requires a.HasFiniteEndpoints() && b.HasFiniteEndpoints()
    ensures AddExact(a.lo, b.lo, Down).Success? && AddExact(a.hi, b.hi, Up).Success?
    ensures Outward(Plus(FiniteValue(a.lo), FiniteValue(b.lo)), Plus(FiniteValue(a.hi), FiniteValue(b.hi)),
                    AddExact(a.lo, b.lo, Down).value, AddExact(a.hi, b.hi, Up).value)
  {
    AddRounds(a.lo, b.lo, Down);
    AddRounds(a.hi, b.hi, Up);
    OutwardFromRounded(Plus(FiniteValue(a.lo), FiniteValue(b.lo)), Plus(FiniteValue(a.hi), FiniteValue(b.hi)),
                       AddExact(a.lo, b.lo, Down).value, AddExact(a.hi, b.hi, Up).value);
  }

  lemma SubHull(a: Interval, b: Interval, c: Interval)
    requires a.HasFiniteEndpoints() && b.HasFiniteEndpoints()
    ensures IntervalSub(a, b).Success?
    ensures Encloses(Sub, a, b, IntervalSub(a, b).value)
    ensures Encloses(Sub, a, b, c) ==> IntervalSub(a, b).value.Within(c)
  {
    var lo, hi := SubExact(a.lo, b.hi, Down).value, SubExact(a.hi, b.lo, Up).value;
    SubOutward(a, b);
    SubImage(a, b);
    HullOfImage(
      Sub, a, b, Minus(FiniteValue(a.lo), FiniteValue(b.hi)), Minus(FiniteValue(a.hi), FiniteValue(b.lo)), lo, hi, c);
  }

  lemma SubOutward(a: Interval, b: Interval)
    requires a.HasFiniteEndpoints() && b.HasFiniteEndpoints()
    ensures SubExact(a.lo, b.hi, Down).Success? && SubExact(a.hi, b.lo, Up).Success?
    ensures Outward(Minus(FiniteValue(a.lo), FiniteValue(b.hi)), Minus(FiniteValue(a.hi), FiniteValue(b.lo)),
                    SubExact(a.lo, b.hi, Down).value, SubExact(a.hi, b.lo, Up).value)
  {
    SubRounds(a.lo, b.hi, Down);
    SubRounds(a.hi, b.lo, Up);
    OutwardFromRounded(Minus(FiniteValue(a.lo), FiniteValue(b.hi)), Minus(FiniteValue(a.hi), FiniteValue(b.lo)),
                       SubExact(a.lo, b.hi, Down).value, SubExact(a.hi, b.lo, Up).value);
  }

  // ---- Selecting among corners --------------------------------------------

  /** r is the least (greatest) of the words in the total order. */
  predicate IsExtreme(values: seq<Word>, selector: Selector, r: Word) {
    r in values && forall w | w in values :: if selector == Minimum then TotalLessEq(r, w) else TotalLessEq(w, r)
  }

  /** The fold returns the least (greatest) candidate of the total order on words. */
  lemma {:induction false} SelectFoldIsExtreme(values: seq<Word>, selector: Selector)
    requires |values| > 0 && forall w | w in values :: !IsNaN(w)
    ensures SelectFold(values, selector).Success?
    ensures IsExtreme(values, selector, SelectFold(values, selector).value)
  {
    var last := |values| - 1;
    if last == 0 {
    } else {
      var front := values[..last];
      SelectFoldIsExtreme(front, selector);
      SelectStep(front, values[last], selector, SelectFold(front, selector).value);
      assert values == front + [values[last]];
    }
  }

  lemma SelectStep(front: seq<Word>, last: Word, selector: Selector, r: Word)
    requires IsExtreme(front, selector, r) && !IsNaN(r) && !IsNaN(last)
    ensures Select(selector, r, last).Success?
    ensures IsExtreme(front + [last], selector, Select(selector, r, last).value)
  {
    SelectorsMeet(r, last);
  }

  /** Folding the four rounded corners equals rounding the extreme exact corner. */
  lemma SelectedLowerCorner(corners: seq<real>, words: seq<Word>, p: real)
    requires |words| == |corners| > 0
    requires forall i | 0 <= i < |corners| :: Rounded(Down, corners[i], words[i])
    requires p in corners && forall v | v in corners :: p <= v
    ensures SelectFold(words, Minimum).Success?
    ensures !IsNaN(SelectFold(words, Minimum).value)
    ensures Numeric(SelectFold(words, Minimum).value) == Numeric(RoundDown(p))
  {
    SelectFoldIsExtreme(words, Minimum);
    var lo := SelectFold(words, Minimum).value;
    var i :| 0 <= i < |words| && words[i] == lo;
    var j :| 0 <= j < |corners| && corners[j] == p;
    assert words[j] in words;
    SelectorsMeet(lo, words[j]);
    RoundDownIsGreatest(p, 0);
    RoundedDown(p, words[j], RoundDown(p));
    RoundDownIsGreatest(p, words[j]);
    assert corners[i] in corners;
    RoundedDown(corners[i], lo, RoundDown(p));
  }

  lemma SelectedUpperCorner(corners: seq<real>, words: seq<Word>, q: real)
    requires |words| == |corners| > 0
    requires forall i | 0 <= i < |corners| :: Rounded(Up, corners[i], words[i])
    requires q in corners && forall v | v in corners :: v <= q
    ensures SelectFold(words, Maximum).Success?
    ensures !IsNaN(SelectFold(words, Maximum).value)
    ensures Numeric(SelectFold(words, Maximum).value) == Numeric(RoundUp(q))
  {
    SelectFoldIsExtreme(words, Maximum);
    var hi := SelectFold(words, Maximum).value;
    var i :| 0 <= i < |words| && words[i] == hi;
    var j :| 0 <= j < |corners| && corners[j] == q;
    assert words[j] in words;
    SelectorsMeet(words[j], hi);
    RoundUpIsLeast(q, 0);
    RoundedUp(q, words[j], RoundUp(q));
    RoundUpIsLeast(q, words[j]);
    assert corners[i] in corners;
    RoundedUp(corners[i], hi, RoundUp(q));
  }

  // ---- Products and quotients ---------------------------------------------

  function CornerOf(op: CornerOperation, x: real, y: real): real
    requires op == Over ==> y != 0.0
  {
    match op
    case Times => Multiply(x, y)
    case Over => Divide(x, y)
  }

  function ExactCorners(op: CornerOperation, a: Interval, b: Interval): seq<real>
    requires a.HasFiniteEndpoints() && b.HasFiniteEndpoints()
    requires op == Over ==> FiniteValue(b.lo) != 0.0 && FiniteValue(b.hi) != 0.0
  {
    var al, ah := FiniteValue(a.lo), FiniteValue(a.hi);
    var bl, bh := FiniteValue(b.lo), FiniteValue(b.hi);
    [CornerOf(op, al, bl), CornerOf(op, al, bh), CornerOf(op, ah, bl), CornerOf(op, ah, bh)]
  }

  lemma CornersRound(op: CornerOperation, a: Interval, b: Interval, mode: Mode)
    requires a.HasFiniteEndpoints() && b.HasFiniteEndpoints()
    requires op == Over ==> FiniteValue(b.lo) != 0.0 && FiniteValue(b.hi) != 0.0
    ensures CornerWords(op, a, b, mode).Success?
    ensures forall i | 0 <= i < 4 ::
      Rounded(mode, ExactCorners(op, a, b)[i], CornerWords(op, a, b, mode).value[i])
  {
    CornerRounds(op, a.lo, b.lo, mode);
    CornerRounds(op, a.lo, b.hi, mode);
    CornerRounds(op, a.hi, b.lo, mode);
    CornerRounds(op, a.hi, b.hi, mode);
    FourRound(mode, ExactCorners(op, a, b), CornerWords(op, a, b, mode).value);
  }

  lemma FourRound(mode: Mode, exact: seq<real>, words: seq<Word>)
    requires |exact| == |words| == 4 && Rounded(mode, exact[0], words[0]) && Rounded(mode, exact[1], words[1])
    requires Rounded(mode, exact[2], words[2]) && Rounded(mode, exact[3], words[3])
    ensures forall i | 0 <= i < 4 :: Rounded(mode, exact[i], words[i])
  {
  }

  lemma CornerRounds(op: CornerOperation, a: Word, b: Word, mode: Mode)
    requires IsFinite(a) && IsFinite(b)
    requires op == Over ==> FiniteValue(b) != 0.0
    ensures CornerWord(op, a, b, mode).Success?
    ensures Rounded(mode, CornerOf(op, FiniteValue(a), FiniteValue(b)), CornerWord(op, a, b, mode).value)
  {
    match op
    case Times => MulRounds(a, b, mode);
    case Over => DivRounds(a, b, mode);
  }

  function Least(values: seq<real>): (r: real)
    requires |values| > 0
    ensures r in values && forall v | v in values :: r <= v
  {
    if |values| == 1 then values[0]
    else
      var rest := Least(values[1..]);
      assert values == [values[0]] + values[1..];
      if values[0] <= rest then values[0] else rest
  }

  function Greatest(values: seq<real>): (r: real)
    requires |values| > 0
    ensures r in values && forall v | v in values :: v <= r
  {
    if |values| == 1 then values[0]
    else
      var rest := Greatest(values[1..]);
      assert values == [values[0]] + values[1..];
      if values[0] <= rest then rest else values[0]
  }

  /** A product over a box is bounded by the products at its corners. */
  lemma ProductBetweenCorners(al: real, ah: real, bl: real, bh: real, x: real, y: real)
    requires al <= x <= ah && bl <= y <= bh
    ensures
      || Multiply(al, bl) <= Multiply(x, y) || Multiply(al, bh) <= Multiply(x, y)
      || Multiply(ah, bl) <= Multiply(x, y) || Multiply(ah, bh) <= Multiply(x, y)
    ensures
      || Multiply(x, y) <= Multiply(al, bl) || Multiply(x, y) <= Multiply(al, bh)
      || Multiply(x, y) <= Multiply(ah, bl) || Multiply(x, y) <= Multiply(ah, bh)
  {
    MultiplyMonotone(al, x, y);
    MultiplyMonotone(x, ah, y);
    MultiplySymmetric(x, y);
    MultiplySymmetric(al, y);
    MultiplySymmetric(ah, y);
    MultiplyMonotone(bl, y, al);
    MultiplyMonotone(y, bh, al);
    MultiplyMonotone(bl, y, ah);
    MultiplyMonotone(y, bh, ah);
    MultiplySymmetric(al, bl);
    MultiplySymmetric(al, bh);
    MultiplySymmetric(ah, bl);
    MultiplySymmetric(ah, bh);
  }

  function Reciprocal(y: real): real
    requires y != 0.0
  {
    1.0 / y
  }

  lemma DivideIsMultiply(x: real, y: real)
    requires y != 0.0
    ensures Divide(x, y) == Multiply(x, Reciprocal(y))
  {
  }

  lemma ReciprocalAntitone(x: real, y: real)
    requires x <= y && (x > 0.0 || y < 0.0)
    ensures Reciprocal(y) <= Reciprocal(x)
  {
    assert Reciprocal(x) - Reciprocal(y) == (y - x) / (x * y);
  }

  lemma QuotientBetweenCorners(al: real, ah: real, bl: real, bh: real, x: real, y: real)
    requires al <= x <= ah && bl <= y <= bh && (bl > 0.0 || bh < 0.0)
    ensures
      || Divide(al, bl) <= Divide(x, y) || Divide(al, bh) <= Divide(x, y)
      || Divide(ah, bl) <= Divide(x, y) || Divide(ah, bh) <= Divide(x, y)
    ensures
      || Divide(x, y) <= Divide(al, bl) || Divide(x, y) <= Divide(al, bh)
      || Divide(x, y) <= Divide(ah, bl) || Divide(x, y) <= Divide(ah, bh)
  {
    ReciprocalAntitone(bl, y);
    ReciprocalAntitone(y, bh);
    ProductBetweenCorners(al, ah, Reciprocal(bh), Reciprocal(bl), x, Reciprocal(y));
    DivideIsMultiply(x, y);
    DivideIsMultiply(al, bl);
    DivideIsMultiply(al, bh);
    DivideIsMultiply(ah, bl);
    DivideIsMultiply(ah, bh);
  }

  lemma CornerImage(op: CornerOperation, a: Interval, b: Interval, p: real, q: real)
    requires a.HasFiniteEndpoints() && b.HasFiniteEndpoints()
    requires op == Over ==> !b.Contains(0.0)
    requires op == Over ==> FiniteValue(b.lo) != 0.0 && FiniteValue(b.hi) != 0.0
    requires p == Least(ExactCorners(op, a, b)) && q == Greatest(ExactCorners(op, a, b))
    ensures ImageRange(AsOperation(op), a, b, p, q)
  {
    FiniteInterval(a);
    FiniteInterval(b);
    var al, ah, bl, bh := FiniteValue(a.lo), FiniteValue(a.hi), FiniteValue(b.lo), FiniteValue(b.hi);
    var corners := ExactCorners(op, a, b);
    assert corners[0] in corners && corners[1] in corners && corners[2] in corners && corners[3] in corners;
    forall x, y | a.Contains(x) && b.Contains(y)
      ensures p <= Exact(AsOperation(op), x, y) <= q
    {
      match op
      case Times => ProductBetweenCorners(al, ah, bl, bh, x, y);
      case Over => QuotientBetweenCorners(al, ah, bl, bh, x, y);
    }
    CornerAttained(op, a, b, p);
    CornerAttained(op, a, b, q);
  }

  function AsOperation(op: CornerOperation): Operation {
    match op
    case Times => Mul
    case Over => Div
  }

  lemma CornerAttained(op: CornerOperation, a: Interval, b: Interval, v: real)
    requires a.HasFiniteEndpoints() && b.HasFiniteEndpoints()
    requires op == Over ==> FiniteValue(b.lo) != 0.0 && FiniteValue(b.hi) != 0.0
    requires v in ExactCorners(op, a, b)
    ensures exists x, y :: Attained(AsOperation(op), a, b, v, x, y)
  {
    FiniteInterval(a);
    FiniteInterval(b);
    var al, ah, bl, bh := FiniteValue(a.lo), FiniteValue(a.hi), FiniteValue(b.lo), FiniteValue(b.hi);
    assert v == CornerOf(op, al, bl) ==> Attained(AsOperation(op), a, b, v, al, bl);
    assert v == CornerOf(op, al, bh) ==> Attained(AsOperation(op), a, b, v, al, bh);
    assert v == CornerOf(op, ah, bl) ==> Attained(AsOperation(op), a, b, v, ah, bl);
    assert v == CornerOf(op, ah, bh) ==> Attained(AsOperation(op), a, b, v, ah, bh);
  }

  /** The four rounded corners, folded, are the extreme exact corners rounded outward. */
  lemma CornersOutward(op: CornerOperation, a: Interval, b: Interval)
    requires a.HasFiniteEndpoints() && b.HasFiniteEndpoints()
    requires op == Over ==> FiniteValue(b.lo) != 0.0 && FiniteValue(b.hi) != 0.0
    ensures CornerWords(op, a, b, Down).Success? && CornerWords(op, a, b, Up).Success?
    ensures var lo := SelectFold(CornerWords(op, a, b, Down).value, Minimum);
      var hi := SelectFold(CornerWords(op, a, b, Up).value, Maximum);
      && lo.Success? && hi.Success?
      && Outward(Least(ExactCorners(op, a, b)), Greatest(ExactCorners(op, a, b)), lo.value, hi.value)
  {
    var corners := ExactCorners(op, a, b);
    CornersRound(op, a, b, Down);
    CornersRound(op, a, b, Up);
    SelectedLowerCorner(corners, CornerWords(op, a, b, Down).value, Least(corners));
    SelectedUpperCorner(corners, CornerWords(op, a, b, Up).value, Greatest(corners));
  }

  lemma CornersHull(op: CornerOperation, a: Interval, b: Interval, c: Interval)
    requires a.HasFiniteEndpoints() && b.HasFiniteEndpoints()
    requires op == Over ==> !b.Contains(0.0)
    ensures FromCorners(op, a, b).Success?
    ensures Encloses(AsOperation(op), a, b, FromCorners(op, a, b).value)
    ensures Encloses(AsOperation(op), a, b, c) ==> FromCorners(op, a, b).value.Within(c)
  {
    FiniteInterval(b);
    CornersOutward(op, a, b);
    var corners := ExactCorners(op, a, b);
    var lo := SelectFold(CornerWords(op, a, b, Down).value, Minimum).value;
    var hi := SelectFold(CornerWords(op, a, b, Up).value, Maximum).value;
    CornerImage(op, a, b, Least(corners), Greatest(corners));
    HullOfImage(AsOperation(op), a, b, Least(corners), Greatest(corners), lo, hi, c);
  }

  // ---- Minimum and maximum ------------------------------------------------

  /** The selectors are the meet and the join of the numeric order. */
  lemma SelectorsNumeric(left: Word, right: Word, z: Word)
    requires !IsNaN(left) && !IsNaN(right) && !IsNaN(z)
    ensures var low := MinimumEndpoint(left, right);
      && low.Success? && (low.value == left || low.value == right)
      && (Numeric(z).LessEq(Numeric(low.value)) <==>
          Numeric(z).LessEq(Numeric(left)) && Numeric(z).LessEq(Numeric(right)))
      && (Numeric(low.value).LessEq(Numeric(z)) <==>
          Numeric(left).LessEq(Numeric(z)) || Numeric(right).LessEq(Numeric(z)))
    ensures var high := MaximumEndpoint(left, right);
      && high.Success? && (high.value == left || high.value == right)
      && (Numeric(high.value).LessEq(Numeric(z)) <==>
          Numeric(left).LessEq(Numeric(z)) && Numeric(right).LessEq(Numeric(z)))
      && (Numeric(z).LessEq(Numeric(high.value)) <==>
          Numeric(z).LessEq(Numeric(left)) || Numeric(z).LessEq(Numeric(right)))
  {
    SelectorsMeet(left, right);
    SelectorsMeet(right, left);
    NumericOrder(left, right);
    NumericOrder(left, z);
    NumericOrder(right, z);
    NumericOrder(z, left);
    NumericOrder(z, right);
  }

  lemma MinTotal(a: Interval, b: Interval)
    ensures IntervalMin(a, b).Success?
  {
    SelectorsNumeric(a.hi, b.hi, a.lo);
    SelectorsNumeric(a.hi, b.hi, b.lo);
    SelectorsNumeric(a.lo, b.lo, MinimumEndpoint(a.hi, b.hi).value);
  }

  lemma MaxTotal(a: Interval, b: Interval)
    ensures IntervalMax(a, b).Success?
  {
    SelectorsNumeric(a.lo, b.lo, a.hi);
    SelectorsNumeric(a.lo, b.lo, b.hi);
    SelectorsNumeric(a.hi, b.hi, MaximumEndpoint(a.lo, b.lo).value);
  }

  lemma MinMaxEnclose(op: Operation, a: Interval, b: Interval, x: real, y: real)
    requires op in {Min, Max} && a.Contains(x) && b.Contains(y)
    ensures IntervalOperation(op, a, b).Success?
    ensures IntervalOperation(op, a, b).value.Contains(Exact(op, x, y))
  {
    MinTotal(a, b);
    MaxTotal(a, b);
    SelectorsNumeric(a.lo, b.lo, a.lo);
    SelectorsNumeric(a.lo, b.lo, b.lo);
    SelectorsNumeric(a.hi, b.hi, a.hi);
    SelectorsNumeric(a.hi, b.hi, b.hi);
  }

  lemma MinMaxIsotone(op: Operation, a': Interval, a: Interval, b': Interval, b: Interval)
    requires op in {Min, Max} && a'.Within(a) && b'.Within(b)
    ensures IntervalOperation(op, a', b').Success? && IntervalOperation(op, a, b).Success?
    ensures IntervalOperation(op, a', b').value.Within(IntervalOperation(op, a, b).value)
  {
    MinTotal(a', b');
    MinTotal(a, b);
    MaxTotal(a', b');
    MaxTotal(a, b);
    var r := IntervalOperation(op, a, b).value;
    SelectorsNumeric(a'.lo, b'.lo, r.lo);
    SelectorsNumeric(a'.hi, b'.hi, r.hi);
    SelectorsNumeric(a.lo, b.lo, a.lo);
    SelectorsNumeric(a.lo, b.lo, b.lo);
    SelectorsNumeric(a.hi, b.hi, a.hi);
    SelectorsNumeric(a.hi, b.hi, b.hi);
  }

  // ---- All binary operations ----------------------------------------------

  predicate ZeroDivision(op: Operation, b: Interval) {
    op == Div && b.Contains(0.0)
  }

  /** The one way an operation on intervals fails is a divisor holding zero. */
  lemma OperationTotal(op: Operation, a: Interval, b: Interval)
    ensures ZeroDivision(op, b) ==> IntervalOperation(op, a, b) == Failure(DivisorContainsZero)
    ensures !ZeroDivision(op, b) ==> IntervalOperation(op, a, b).Success?
  {
    if op in {Min, Max} {
      MinTotal(a, b);
      MaxTotal(a, b);
    } else if a.HasFiniteEndpoints() && b.HasFiniteEndpoints() && !ZeroDivision(op, b) {
      FiniteHull(op, a, b, WHOLE);
    }
  }

  lemma FiniteHull(op: Operation, a: Interval, b: Interval, c: Interval)
    requires a.HasFiniteEndpoints() && b.HasFiniteEndpoints() && !ZeroDivision(op, b)
    requires op !in {Min, Max}
    ensures IntervalOperation(op, a, b).Success?
    ensures Encloses(op, a, b, IntervalOperation(op, a, b).value)
    ensures Encloses(op, a, b, c) ==> IntervalOperation(op, a, b).value.Within(c)
  {
    match op
    case Add => AddHull(a, b, c);
    case Sub => SubHull(a, b, c);
    case Mul => CornersHull(Times, a, b, c);
    case Div => CornersHull(Over, a, b, c);
  }

  /** The result holds the exact result of every pair of operands. */
  lemma OperationEncloses(op: Operation, a: Interval, b: Interval, x: real, y: real)
    requires !ZeroDivision(op, b) && a.Contains(x) && b.Contains(y)
    ensures Defined(op, y)
    ensures IntervalOperation(op, a, b).Success?
    ensures IntervalOperation(op, a, b).value.Contains(Exact(op, x, y))
  {
    if op in {Min, Max} {
      MinMaxEnclose(op, a, b, x, y);
    } else if a.HasFiniteEndpoints() && b.HasFiniteEndpoints() {
      FiniteHull(op, a, b, WHOLE);
    }
  }

  lemma WithinFinite(a': Interval, a: Interval)
    requires a'.Within(a) && a.HasFiniteEndpoints()
    ensures a'.HasFiniteEndpoints()
  {
  }

  lemma FiniteIsotone(op: Operation, a': Interval, a: Interval, b': Interval, b: Interval, r: Interval)
    requires a'.Within(a) && b'.Within(b) && a.HasFiniteEndpoints() && b.HasFiniteEndpoints()
    requires op !in {Min, Max} && !ZeroDivision(op, b) && !ZeroDivision(op, b')
    requires IntervalOperation(op, a, b) == Success(r)
    ensures IntervalOperation(op, a', b').Success?
    ensures IntervalOperation(op, a', b').value.Within(r)
  {
    WithinFinite(a', a);
    WithinFinite(b', b);
    FiniteHull(op, a, b, WHOLE);
    forall x, y | a'.Contains(x) && b'.Contains(y)
      ensures r.Contains(Exact(op, x, y))
    {
      WithinContains(a', a, x);
      WithinContains(b', b, y);
    }
    FiniteHull(op, a', b', r);
  }

  lemma InfiniteIsWhole(op: Operation, a: Interval, b: Interval)
    requires op !in {Min, Max} && !ZeroDivision(op, b)
    requires !a.HasFiniteEndpoints() || !b.HasFiniteEndpoints()
    ensures IntervalOperation(op, a, b) == Success(WHOLE)
  {
  }

  /** With an infinite endpoint the result tells nothing: it holds every number and every interval. */
  lemma InfiniteOperands(op: Operation, a: Interval, b: Interval, x: real, c: Interval)
    requires op !in {Min, Max} && !ZeroDivision(op, b)
    requires !a.HasFiniteEndpoints() || !b.HasFiniteEndpoints()
    ensures IntervalOperation(op, a, b).Success?
    ensures IntervalOperation(op, a, b).value.Contains(x) && c.Within(IntervalOperation(op, a, b).value)
  {
    InfiniteIsWhole(op, a, b);
  }

  /** Smaller operands give a smaller result, and fail only where the larger ones do. */
  lemma OperationIsotone(op: Operation, a': Interval, a: Interval, b': Interval, b: Interval)
    requires a'.Within(a) && b'.Within(b) && IntervalOperation(op, a, b).Success?
    ensures IntervalOperation(op, a', b').Success?
    ensures IntervalOperation(op, a', b').value.Within(IntervalOperation(op, a, b).value)
  {
    OperationTotal(op, a, b);
    OperationTotal(op, a', b');
    if op == Div && b'.Contains(0.0) { WithinContains(b', b, 0.0); }
    if op in {Min, Max} {
      MinMaxIsotone(op, a', a, b', b);
    } else if a.HasFiniteEndpoints() && b.HasFiniteEndpoints() {
      FiniteIsotone(op, a', a, b', b, IntervalOperation(op, a, b).value);
    } else {
      InfiniteIsWhole(op, a, b);
    }
  }

  // ---- Negation, absolute value and powers ---------------------------------

  lemma NegLaw(a: Interval, x: real)
    ensures IntervalNeg(a).Success?
    ensures a.Contains(x) <==> IntervalNeg(a).value.Contains(-x)
  {
    NegateMirrors(a.lo);
    NegateMirrors(a.hi);
  }

  lemma NegIsotone(a': Interval, a: Interval)
    requires a'.Within(a)
    ensures IntervalNeg(a').Success? && IntervalNeg(a).Success?
    ensures IntervalNeg(a').value.Within(IntervalNeg(a).value)
  {
    NegLaw(a', 0.0);
    NegLaw(a, 0.0);
    NegateMirrors(a'.lo);
    NegateMirrors(a'.hi);
    NegateMirrors(a.lo);
    NegateMirrors(a.hi);
  }

  function Abs(x: real): real {
    if x < 0.0 then -x else x
  }

  lemma MagnitudeIsAbs(w: Word)
    requires !IsNaN(w)
    ensures !IsNaN(Magnitude(w))
    ensures Ordinal(Magnitude(w)) == if Ordinal(w) < 0 then -Ordinal(w) else Ordinal(w)
    ensures IsFinite(w) ==> IsFinite(Magnitude(w)) && FiniteValue(Magnitude(w)) == Abs(FiniteValue(w))
    ensures !IsFinite(w) ==> Numeric(Magnitude(w)) == PlusInfinity
  {
    if IsFinite(w) { ValueOrder(Magnitude(w), 0); }
  }

  /** Validity and containment read off the signed magnitudes. */
  lemma ValidByOrdinal(lo: Word, hi: Word)
    requires !IsNaN(lo) && !IsNaN(hi)
    ensures Endpoints(lo, hi).Valid() <==> Ordinal(lo) <= Ordinal(hi)
  {
    NumericOrder(lo, hi);
  }

  lemma WithinByOrdinal(a: Interval, b: Interval)
    ensures a.Within(b) <==> Ordinal(b.lo) <= Ordinal(a.lo) && Ordinal(a.hi) <= Ordinal(b.hi)
  {
    NumericOrder(b.lo, a.lo);
    NumericOrder(a.hi, b.hi);
  }

  lemma AbsOrdinals(a: Interval)
    ensures IntervalAbs(a).Success?
    ensures Ordinal(IntervalAbs(a).value.lo) ==
      if Ordinal(a.lo) >= 0 then Ordinal(a.lo) else if Ordinal(a.hi) <= 0 then -Ordinal(a.hi) else 0
    ensures Ordinal(IntervalAbs(a).value.hi) ==
      if Ordinal(a.hi) >= -Ordinal(a.lo) then Ordinal(a.hi) else -Ordinal(a.lo)
  {
    ValidByOrdinal(a.lo, a.hi);
    MagnitudeIsAbs(a.lo);
    MagnitudeIsAbs(a.hi);
    NumericOrder(a.lo, POSITIVE_ZERO);
    NumericOrder(POSITIVE_ZERO, a.lo);
    NumericOrder(a.hi, POSITIVE_ZERO);
    var lo, hi := Magnitude(a.lo), Magnitude(a.hi);
    SelectorsMeet(lo, hi);
    ValidByOrdinal(lo, hi);
    ValidByOrdinal(hi, lo);
    ValidByOrdinal(POSITIVE_ZERO, MaximumEndpoint(lo, hi).value);
  }

  lemma AbsEncloses(a: Interval, x: real)
    requires a.Contains(x)
    ensures IntervalAbs(a).Success? && IntervalAbs(a).value.Contains(Abs(x))
  {
    AbsOrdinals(a);
    MagnitudeIsAbs(a.lo);
    MagnitudeIsAbs(a.hi);
    NumericOfZero(POSITIVE_ZERO);
    NumericOrder(a.lo, POSITIVE_ZERO);
    NumericOrder(POSITIVE_ZERO, a.lo);
    NumericOrder(a.hi, POSITIVE_ZERO);
    var lo, hi := Magnitude(a.lo), Magnitude(a.hi);
    SelectorsNumeric(lo, hi, lo);
    SelectorsNumeric(lo, hi, hi);
  }

  lemma AbsLowerAttained(a: Interval, x: real) returns (y: real)
    requires a.Contains(x)
    ensures a.Contains(y) && IntervalAbs(a).Success? && Finite(Abs(y)) == Numeric(IntervalAbs(a).value.lo)
  {
    AbsOrdinals(a);
    AbsEncloses(a, x);
    NumericOfZero(POSITIVE_ZERO);
    MagnitudeIsAbs(a.lo);
    MagnitudeIsAbs(a.hi);
    NumericOrder(a.lo, POSITIVE_ZERO);
    NumericOrder(POSITIVE_ZERO, a.lo);
    NumericOrder(a.hi, POSITIVE_ZERO);
    NumericOrder(POSITIVE_ZERO, a.hi);
    y := if Ordinal(a.lo) >= 0 then FiniteValue(a.lo) else if Ordinal(a.hi) <= 0 then FiniteValue(a.hi) else 0.0;
  }

  lemma AbsUpperAttained(a: Interval)
    requires a.HasFiniteEndpoints()
    ensures IntervalAbs(a).Success? && IsFinite(IntervalAbs(a).value.hi)
    ensures var h := FiniteValue(IntervalAbs(a).value.hi);
      h == Abs(FiniteValue(a.lo)) || h == Abs(FiniteValue(a.hi))
  {
    AbsOrdinals(a);
    MagnitudeIsAbs(a.lo);
    MagnitudeIsAbs(a.hi);
    SelectorsMeet(Magnitude(a.lo), Magnitude(a.hi));
  }

  /** Some point of an unbounded interval has an absolute value above any bound. */
  lemma AbsUnbounded(a: Interval, x: real, bound: real) returns (y: real)
    requires a.Contains(x) && !a.HasFiniteEndpoints()
    ensures a.Contains(y) && Abs(y) > bound
  {
    var far := Abs(x) + Abs(bound) + 1.0;
    y := if IsFinite(a.hi) then -far else far;
    if !IsFinite(a.hi) && Numeric(a.hi) != PlusInfinity {
      assert false;
    }
  }

  /** The absolute value is the exact range: every interval that holds all absolute values holds it, infinite
      endpoints included, for any interval that holds a number at all. */
  lemma AbsTight(a: Interval, c: Interval, x: real)
    requires a.Contains(x) && forall y | a.Contains(y) :: c.Contains(Abs(y))
    ensures IntervalAbs(a).Success? && IntervalAbs(a).value.Within(c)
  {
    var low := AbsLowerAttained(a, x);
    assert c.Contains(Abs(low));
    if a.HasFiniteEndpoints() {
      FiniteInterval(a);
      AbsUpperAttained(a);
      assert c.Contains(Abs(FiniteValue(a.lo))) && c.Contains(Abs(FiniteValue(a.hi)));
    } else if IsFinite(c.hi) {
      var far := AbsUnbounded(a, x, FiniteValue(c.hi));
      assert c.Contains(Abs(far));
    }
  }

  lemma AbsIsotone(a': Interval, a: Interval)
    requires a'.Within(a)
    ensures IntervalAbs(a').Success? && IntervalAbs(a).Success?
    ensures IntervalAbs(a').value.Within(IntervalAbs(a).value)
  {
    AbsOrdinals(a');
    AbsOrdinals(a);
    WithinByOrdinal(a', a);
    ValidByOrdinal(a'.lo, a'.hi);
    WithinByOrdinal(IntervalAbs(a').value, IntervalAbs(a).value);
  }

  function RealPower(x: real, exponent: nat): real {
    if exponent == 0 then 1.0 else Multiply(RealPower(x, exponent - 1), x)
  }

  lemma PowerOfTwoBy13(n: nat)
    ensures PowerOfTwo(n + 13) == 8192.0 * PowerOfTwo(n)
  {
    PowerOfTwoStep(n);
    PowerOfTwoStep(n + 1);
    PowerOfTwoStep(n + 2);
    PowerOfTwoStep(n + 3);
    PowerOfTwoStep(n + 4);
    PowerOfTwoStep(n + 5);
    PowerOfTwoStep(n + 6);
    PowerOfTwoStep(n + 7);
    PowerOfTwoStep(n + 8);
    PowerOfTwoStep(n + 9);
    PowerOfTwoStep(n + 10);
    PowerOfTwoStep(n + 11);
    PowerOfTwoStep(n + 12);
  }

  lemma OneIsOne()
    ensures IsFinite(ONE) && FiniteValue(ONE) == 1.0
  {
    PowerOfTwoBy13(0);
    PowerOfTwoBy13(13);
    PowerOfTwoBy13(26);
    PowerOfTwoBy13(39);
    assert PowerOfTwo(0) == 1.0;
    assert PowerOfTwo(52) == FRACTION_LIMIT as real;
    assert Exponent(ONE) == 1023 && Fraction(ONE) == 0;
    assert TwoTo(-52) == 1.0 / FRACTION_LIMIT as real;
  }

  /** Powers follow the recurrence: the result holds x^n, and every product of n values drawn
      independently from a. */
  lemma {:induction false} PowEncloses(a: Interval, exponent: nat, xs: seq<real>)
    requires |xs| == exponent && forall i | 0 <= i < exponent :: a.Contains(xs[i])
    ensures IntervalPow(a, exponent).Success?
    ensures IntervalPow(a, exponent).value.Contains(ProductOf(xs))
  {
    if exponent == 0 {
      OneIsOne();
    } else {
      var last := exponent - 1;
      PowEncloses(a, last, xs[..last]);
      PowEnclosesStep(a, last, IntervalPow(a, last).value, xs[..last], xs[last], xs);
    }
  }

  lemma PowEnclosesStep(a: Interval, last: nat, previous: Interval, front: seq<real>, x: real, xs: seq<real>)
    requires IntervalPow(a, last) == Success(previous) && previous.Contains(ProductOf(front)) && a.Contains(x)
    requires |xs| == last + 1 && front == xs[..last] && x == xs[last]
    ensures IntervalPow(a, last + 1).Success? && IntervalPow(a, last + 1).value.Contains(ProductOf(xs))
  {
    PowStep(a, last, previous);
    ProductStep(front, x, xs);
    OperationEncloses(Mul, previous, a, ProductOf(front), x);
  }

  lemma ProductStep(front: seq<real>, x: real, xs: seq<real>)
    requires |xs| > 0 && front == xs[..|xs| - 1] && x == xs[|xs| - 1]
    ensures ProductOf(xs) == Multiply(ProductOf(front), x)
  {
  }

  function ProductOf(xs: seq<real>): real {
    if |xs| == 0 then 1.0 else Multiply(ProductOf(xs[..|xs| - 1]), xs[|xs| - 1])
  }

  lemma {:induction false} PowIsProduct(x: real, exponent: nat)
    ensures RealPower(x, exponent) == ProductOf(seq(exponent, _ => x))
  {
    if exponent == 0 {
    } else {
      PowIsProduct(x, exponent - 1);
      assert seq(exponent, _ => x)[..exponent - 1] == seq(exponent - 1, _ => x);
    }
  }

  lemma PowStep(a: Interval, exponent: nat, previous: Interval)
    requires IntervalPow(a, exponent) == Success(previous)
    ensures IntervalPow(a, exponent + 1) == IntervalOperation(Mul, previous, a)
  {
  }

  lemma {:induction false} PowTotal(a: Interval, exponent: nat)
    ensures IntervalPow(a, exponent).Success?
  {
    if exponent == 0 {
      NumericOrder(ONE, ONE);
    } else {
      PowTotal(a, exponent - 1);
      OperationTotal(Mul, IntervalPow(a, exponent - 1).value, a);
    }
  }

  lemma {:induction false} PowIsotone(a': Interval, a: Interval, exponent: nat)
    requires a'.Within(a)
    ensures IntervalPow(a', exponent).Success? && IntervalPow(a, exponent).Success?
    ensures IntervalPow(a', exponent).value.Within(IntervalPow(a, exponent).value)
  {
    if exponent == 0 {
      PowTotal(a, 0);
      WithinReflexive(IntervalPow(a, 0).value);
    } else {
      PowIsotone(a', a, exponent - 1);
      PowIsotoneStep(a', a, exponent - 1);
    }
  }

  lemma PowIsotoneStep(a': Interval, a: Interval, exponent: nat)
    requires a'.Within(a)
    requires IntervalPow(a', exponent).Success? && IntervalPow(a, exponent).Success?
    requires IntervalPow(a', exponent).value.Within(IntervalPow(a, exponent).value)
    ensures IntervalPow(a', exponent + 1).Success? && IntervalPow(a, exponent + 1).Success?
    ensures IntervalPow(a', exponent + 1).value.Within(IntervalPow(a, exponent + 1).value)
  {
    var p', p := IntervalPow(a', exponent).value, IntervalPow(a, exponent).value;
    PowTotal(a, exponent + 1);
    PowStep(a', exponent, p');
    PowStep(a, exponent, p);
    OperationIsotone(Mul, p', p, a', a);
  }
}
