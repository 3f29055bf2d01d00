/** What the four summaries of the Moebius table are
    (reference/tg_cdem_abel.cpp, lines 96-145). */
module SummaryLaws {
  import opened Divisibility
  import opened Sums
  import opened Mobius
  import opened Sieves
  import opened Weights
  import opened AbelRecurrence
  import opened Producer

  // ---- The Mertens value --------------------------------------------------------

  function Slice(g: (int, int) -> int, i: int): int -> int {
    j => g(i, j)
  }

  function RowTotal(g: (int, int) -> int, lo: int, hi: int, i: int): int {
    Sum(Slice(g, i), lo, hi)
  }

  function RowTotals(g: (int, int) -> int, lo: int, hi: int): int -> int {
    i => RowTotal(g, lo, hi, i)
  }

  function Transposed(g: (int, int) -> int): (int, int) -> int {
    (j, i) => g(i, j)
  }

  lemma RowTotalStep(g: (int, int) -> int, lo: int, hi: int, i: int)
    requires lo < hi
    ensures RowTotal(g, lo, hi, i) == RowTotal(g, lo, hi - 1, i) + g(i, hi - 1)
  {
  }

  lemma EmptyRows(g: (int, int) -> int, lo: int, hi: int, end: int)
    requires end <= lo
    ensures Sum(RowTotals(g, lo, end), lo, hi) == 0
  {
    SumZero(RowTotals(g, lo, end), lo, hi);
  }

  /** A table may be added up by rows or by columns. */
  lemma {:induction false} SumsSwap(g: (int, int) -> int, lo: int, hi: int, end: int)
    requires lo <= end && lo <= hi
    ensures Sum(RowTotals(g, lo, hi), lo, end) == Sum(RowTotals(Transposed(g), lo, end), lo, hi)
    decreases end - lo
  {
    if end == lo {
      EmptyRows(Transposed(g), lo, hi, end);
    } else {
      var last := end - 1;
      SumsSwap(g, lo, hi, last);
      var row, before, after := Slice(g, last), RowTotals(Transposed(g), lo, last), RowTotals(Transposed(g), lo, end);
      forall j | lo <= j < hi
        ensures after(j) == before(j) + row(j)
      {
        RowTotalStep(Transposed(g), lo, end, j);
      }
      SumAdd(before, row, after, lo, hi);
    }
  }

  /** mu(d) where k d is at most K. */
  function Pair(K: nat, k: int, d: int): int {
    if k * d <= K then MuAt(d) else 0
  }

  function Pairs(K: nat): (int, int) -> int {
    (k, d) => Pair(K, k, d)
  }

  lemma Truncated(f: int -> int, h: int -> int, q: nat, end: nat)
    requires 1 <= end && q + 1 <= end && forall j | 1 <= j < end :: h(j) == if j <= q then f(j) else 0
    ensures Sum(h, 1, end) == Sum(f, 1, q + 1)
  {
    SumSplit(h, 1, q + 1, end);
    SumEqual(h, f, 1, q + 1);
    SumZero(h, q + 1, end);
  }

  lemma {:induction false} ConstantSum(h: int -> int, c: int, end: nat)
    requires end >= 1 && forall j | 1 <= j < end :: h(j) == c
    ensures Sum(h, 1, end) == c * (end - 1)
    decreases end
  {
    if end == 1 {
    } else {
      ConstantSum(h, c, end - 1);
      assert c * (end - 1) == c * (end - 2) + c;
    }
  }

  lemma PairByQuotient(K: nat, k: nat, d: nat)
    requires k >= 1 && d >= 1
    ensures Pair(K, k, d) == if d <= K / k then Mu(d) else 0
    ensures Pair(K, k, d) == if k <= K / d then Mu(d) else 0
  {
    CeilDivLeast(K, k, d);
    CeilDivLeast(K, d, k);
    assert k * d == d * k;
  }

  lemma QuotientSmall(K: nat, k: nat)
    requires k >= 1
    ensures K / k <= K
  {
    CeilDivLeast(K, k, K / k);
    Scale(K / k, 1, k);
  }

  lemma RowIsMertens(K: nat, k: nat, scale: nat)
    requires 1 <= k <= K
    ensures RowTotal(Pairs(K), 1, K + 1, k) == SummaryOf(K / k, scale).mertens
  {
    QuotientSmall(K, k);
    var h := Slice(Pairs(K), k);
    forall d | 1 <= d < K + 1
      ensures h(d) == if d <= K / k then MuValues()(d) else 0
    {
      assert h(d) == Pair(K, k, d);
      PairByQuotient(K, k, d);
    }
    Truncated(MuValues(), h, K / k, K + 1);
  }

  lemma ColumnIsMuFloor(K: nat, d: nat)
    requires 1 <= d <= K
    ensures RowTotal(Transposed(Pairs(K)), 1, K + 1, d) == MuFloor(K, d)
  {
    QuotientSmall(K, d);
    var h, f := Slice(Transposed(Pairs(K)), d), (i: int) => Mu(d);
    forall k | 1 <= k < K + 1
      ensures h(k) == if k <= K / d then f(k) else 0
    {
      assert h(k) == Pair(K, k, d);
      PairByQuotient(K, k, d);
    }
    Truncated(f, h, K / d, K + 1);
    ConstantSum(f, Mu(d), K / d + 1);
  }

  function MertensAt(K: nat, scale: nat, k: int): int {
    if k >= 1 then SummaryOf(K / k, scale).mertens else 0
  }

  function MertensValues(K: nat, scale: nat): int -> int {
    k => MertensAt(K, scale, k)
  }

  lemma SumOfMuFloors(K: nat)
    requires K >= 1
    ensures Sum(MuFloors(K), 1, K + 1) == 1
  {
    FloorSumIdentity(K, K);
    VanishingPrefix(K, 0, K);
  }

  /** MERTENS. The Mertens values at K / k for k = 1, ..., K add up to 1; this determines all of them. */
  lemma MertensInversion(K: nat, scale: nat)
    requires K >= 1
    ensures Sum(MertensValues(K, scale), 1, K + 1) == 1
  {
    var rows, columns := RowTotals(Pairs(K), 1, K + 1), RowTotals(Transposed(Pairs(K)), 1, K + 1);
    forall k | 1 <= k < K + 1
      ensures MertensValues(K, scale)(k) == rows(k) && columns(k) == MuFloors(K)(k)
    {
      RowIsMertens(K, k, scale);
      ColumnIsMuFloor(K, k);
    }
    SumEqual(MertensValues(K, scale), rows, 1, K + 1);
    SumsSwap(Pairs(K), 1, K + 1, K + 1);
    SumEqual(columns, MuFloors(K), 1, K + 1);
    SumOfMuFloors(K);
  }

  // ---- Squarefree numbers ---------------------------------------------------------

  ghost predicate SquareFree(n: nat) {
    forall q: nat | q >= 2 :: n % (q * q) != 0
  }

  lemma SquareOfFactor(q: nat, r: nat, n: nat)
    requires q >= 1 && r >= 1 && q % r == 0 && n % (q * q) == 0
    ensures n % (r * r) == 0
  {
    Quotient(q, r);
    var k := q / r;
    assert q * q == r * r * (k * k);
    Multiple(r * r, k * k);
    DividesTransitive(r * r, q * q, n);
  }

  lemma SquareKept(p: nat, c: nat, q: nat)
    requires c >= 1 && Prime(p) && c % p != 0 && q >= 2 && (p * c) % (q * q) == 0
    ensures !SquareFree(c)
  {
    var r := LeastFactor(q);
    LeastFactorPrime(q);
    SquareOfFactor(q, r, p * c);
    if r == p {
      SquareDivides(p * c, p, c);
    } else {
      OtherPrimes(p, c, r);
    }
  }

  lemma SquareFreeCofactor(p: nat, c: nat)
    requires c >= 1 && Prime(p) && c % p != 0
    ensures SquareFree(p * c) <==> SquareFree(c)
  {
    if !SquareFree(p * c) {
      var q: nat :| q >= 2 && (p * c) % (q * q) == 0;
      SquareKept(p, c, q);
    }
    if !SquareFree(c) {
      var q: nat :| q >= 2 && c % (q * q) == 0;
      Scale(q, 1, q);
      DividesProduct(q * q, c, p);
    }
  }

  lemma OneSquareFree()
    ensures SquareFree(1)
  {
    forall q: nat | q >= 2
      ensures 1 % (q * q) != 0
    {
      Scale(q, 2, q);
      SmallIsOwnRemainder(1, q * q);
    }
  }

  /** The Moebius function vanishes exactly on the numbers that a square above one divides. */
  lemma {:induction false} MuOfSquareFree(n: nat)
    requires n >= 1
    ensures Mu(n) != 0 <==> SquareFree(n)
    decreases n
  {
    if n == 1 {
      OneSquareFree();
    } else {
      var p := LeastFactor(n);
      LeastFactorPrime(n);
      Quotient(n, p);
      SmallerQuotient(n, p);
      var c := n / p;
      if c % p == 0 {
        SquareDivides(n, p, c);
        assert n % (p * p) == 0;
      } else {
        MuOfSquareFree(c);
        SquareFreeCofactor(p, c);
      }
    }
  }

  ghost function SquareFreeUpTo(K: nat): set<nat> {
    set d: nat | 1 <= d <= K && SquareFree(d)
  }

  lemma MassStep(K: nat, scale: nat)
    requires K >= 1
    ensures SummaryOf(K, scale).squarefreeMass
      == SummaryOf(K - 1, scale).squarefreeMass + if SquareFree(K) then 1 else 0
  {
    SummaryStep(K, scale);
    MuOfSquareFree(K);
    MuBounds(K);
  }

  lemma SquareFreeStep(K: nat, before: set<nat>)
    requires K >= 1 && before == SquareFreeUpTo(K - 1)
    ensures |SquareFreeUpTo(K)| == |before| + if SquareFree(K) then 1 else 0
  {
    assert SquareFreeUpTo(K) == before + if SquareFree(K) then {K} else {};
  }

  /** The squarefree mass counts the squarefree numbers up to K. */
  lemma {:induction false} SquareFreeMass(K: nat, scale: nat)
    ensures SummaryOf(K, scale).squarefreeMass == |SquareFreeUpTo(K)|
  {
    if K == 0 {
      assert SquareFreeUpTo(0) == {};
    } else {
      SquareFreeMass(K - 1, scale);
      MassStep(K, scale);
      SquareFreeStep(K, SquareFreeUpTo(K - 1));
    }
  }
}
