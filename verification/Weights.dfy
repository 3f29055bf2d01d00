/** Directed integer weights: reciprocals and reciprocal square roots, rounded up
    (reference/tg_cdem_abel.cpp, lines 76-94; reference/tg_cdem_abel_chunk_replay.cpp, lines 103-120). */
module Weights {
  import opened MachineWords
  import opened Divisibility

  const SCALE_LIMIT: nat := 0x1000_0000_0000_0000

  function CeilDiv(t: nat, n: nat): nat
    requires n > 0
  {
    t / n + (if t % n != 0 then 1 else 0)
  }

  /** The quotient rounded up is the least x with x n >= t. */
  lemma CeilDivLeast(t: nat, n: nat, x: nat)
    requires n > 0
    ensures x >= CeilDiv(t, n) <==> x * n >= t
    ensures x <= t / n <==> x * n <= t
  {
    var q := t / n;
    assert t == n * q + t % n;
    if x <= q {
      Scale(n, x, q);
    } else {
      Scale(n, q + 1, x);
    }
  }

  // ---- The reciprocal square root ------------------------------------------

  /** q scaled by 1/S is at least 1/sqrt(n). */
  predicate Enough(q: nat, n: nat, S: nat) {
    q * q * n >= S * S
  }

  lemma EnoughMonotone(a: nat, b: nat, n: nat, S: nat)
    requires a <= b
    ensures a * a * n <= b * b * n
    ensures Enough(a, n, S) ==> Enough(b, n, S)
  {
    Scale(a, a, b);
    Scale(b, a, b);
    Scale(n, a * a, b * b);
  }

  predicate IsLeastRoot(q: nat, n: nat, S: nat) {
    Enough(q, n, S) && (q > 0 ==> !Enough(q - 1, n, S))
  }

  lemma LeastRootUnique(q: nat, r: nat, n: nat, S: nat)
    requires IsLeastRoot(q, n, S) && IsLeastRoot(r, n, S)
    ensures q == r
  {
    if q < r { EnoughMonotone(q, r - 1, n, S); }
    if r < q { EnoughMonotone(r, q - 1, n, S); }
  }

  lemma ScaleIsEnough(n: nat, S: nat)
    requires n >= 1
    ensures Enough(S, n, S)
  {
    Scale(S * S, 1, n);
  }

  function RootBelow(q: nat, n: nat, S: nat): (r: nat)
    requires Enough(q, n, S)
    ensures r <= q && IsLeastRoot(r, n, S)
  {
    if q > 0 && Enough(q - 1, n, S) then RootBelow(q - 1, n, S) else q
  }

  /** The least q with q^2 n >= S^2. */
  function LeastRoot(n: nat, S: nat): (r: nat)
    requires n >= 1
    ensures r <= S && IsLeastRoot(r, n, S)
  {
    ScaleIsEnough(n, S);
    RootBelow(S, n, S)
  }

  lemma NextSquare(below: nat, n: nat)
    ensures (below + 1) * (below + 1) * n == below * below * n + 2 * (below * n) + n
  {
    assert (below + 1) * (below + 1) == below * below + 2 * below + 1;
  }

  /** The products at and below the least root fit 128 bits. */
  lemma LeastRootFits(n: nat, S: nat)
    requires 1 <= n < TWO_64 && S <= SCALE_LIMIT
    ensures LeastRoot(n, S) * LeastRoot(n, S) * n < TWO_128
  {
    var q := LeastRoot(n, S);
    if q > 0 {
      var below := q - 1;
      RootTimesNumber(below, n, S);
      NextSquare(below, n);
      SquareBound(S);
    }
  }

  lemma SquareBound(S: nat)
    requires S <= SCALE_LIMIT
    ensures S * S <= SCALE_LIMIT * SCALE_LIMIT
  {
    Scale(S, S, SCALE_LIMIT);
    Scale(SCALE_LIMIT, S, SCALE_LIMIT);
  }

  lemma RootTimesNumber(below: nat, n: nat, S: nat)
    requires n < TWO_64 && below * below * n < S * S
    ensures below * n <= TWO_32 * S
  {
    var product := below * n;
    var bound := TWO_32 * S;
    assert product * product == n * (below * below * n);
    Scale(n, below * below * n, S * S);
    Scale(S * S, n, TWO_64);
    assert bound * bound == TWO_64 * (S * S);
    RootOrder(product, bound);
  }

  lemma RootOrder(a: nat, b: nat)
    requires a * a <= b * b
    ensures a <= b
  {
    if b < a {
      Scale(b, b, a);
      Scale(a, b, a);
      Scale(b, b + 1, a);
    }
  }

  /** The producer's test, on 128-bit words. */
  predicate EnoughInWords(q: nat, n: nat, S: nat) {
    (q * q % TWO_128) * n % TWO_128 >= S * S % TWO_128
  }

  lemma WordsAreExact(q: nat, n: nat, S: nat)
    requires n >= 1 && q * q * n < TWO_128 && S <= SCALE_LIMIT
    ensures EnoughInWords(q, n, S) <==> Enough(q, n, S)
  {
    Scale(q * q, 1, n);
    SquareBound(S);
    SmallRemainder(q * q);
    SmallRemainder(q * q * n);
    SmallRemainder(S * S);
  }

  lemma SmallRemainder(x: nat)
    requires x < TWO_128
    ensures x % TWO_128 == x
  {
  }

  /** The producer's two correction loops, from any starting estimate whose own product fits. */
  method CorrectedRoot(n: nat, S: nat, start: nat) returns (q: nat)
    requires 1 <= n < TWO_64 && S <= SCALE_LIMIT
    requires start * start * n < TWO_128
    ensures q == LeastRoot(n, S)
  {
    ghost var root := LeastRoot(n, S);
    LeastRootFits(n, S);
    q := start;
    WordsAreExact(q, n, S);
    while !EnoughInWords(q, n, S)
      invariant q == start || q <= root
      invariant q * q * n < TWO_128
      invariant EnoughInWords(q, n, S) <==> Enough(q, n, S)
      decreases root - q
    {
      if q >= root { EnoughMonotone(root, q, n, S); }
      q := q + 1;
      EnoughMonotone(q, root, n, S);
      WordsAreExact(q, n, S);
    }
    if q > 0 { FitsBelow(q, n, S); }
    while q != 0 && EnoughInWords(q - 1, n, S)
      invariant Enough(q, n, S) && q * q * n < TWO_128
      invariant q > 0 ==> (EnoughInWords(q - 1, n, S) <==> Enough(q - 1, n, S))
      decreases q
    {
      q := q - 1;
      EnoughMonotone(q, q + 1, n, S);
      if q > 0 { FitsBelow(q, n, S); }
    }
    LeastRootUnique(q, root, n, S);
  }

  lemma FitsBelow(q: nat, n: nat, S: nat)
    requires n >= 1 && q > 0 && q * q * n < TWO_128 && S <= SCALE_LIMIT
    ensures EnoughInWords(q - 1, n, S) <==> Enough(q - 1, n, S)
  {
    EnoughMonotone(q - 1, q, n, S);
    WordsAreExact(q - 1, n, S);
  }

  /** The replayer's binary search on the required square. */
  method SearchedRoot(n: nat, S: nat) returns (low: nat)
    requires n >= 1
    ensures low == LeastRoot(n, S)
  {
    var requiredSquare := CeilDiv(S * S, n);
    low := 0;
    var high := S;
    ScaleIsEnough(n, S);
    while low < high
      invariant low <= high <= S
      invariant Enough(high, n, S)
      invariant low > 0 ==> !Enough(low - 1, n, S)
    {
      var middle := low + (high - low) / 2;
      var square := middle * middle;
      CeilDivLeast(S * S, n, square);
      if square >= requiredSquare {
        high := middle;
      } else {
        low := middle + 1;
      }
    }
    LeastRootUnique(low, LeastRoot(n, S), n, S);
  }
}
