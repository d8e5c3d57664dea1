/**
 * Arithmetic of the lexicographic pair order: the pairs (i, j), i < j < n,
 * listed with i ascending and, within a row i, j ascending. Row i holds
 * n-1-i pairs, so pair (i, j) sits at position RowStart(n, i) + (j-i-1).
 */
module Pairs {
  import opened Wrappers

  /** The number of unordered pairs of n nodes: node n-1 pairs with each of the n-1 before it. */
  function Triangular(n: nat): nat {
    if n == 0 then 0 else Triangular(n - 1) + (n - 1)
  }

  lemma {:induction false} TriangularDoubled(n: nat)
    ensures 2 * Triangular(n) == n * n - n
  {
    if n > 0 {
      TriangularDoubled(n - 1);
      MulPredLeft(n, n - 1);
      assert (n - 1) * (n - 1) == n * (n - 1) - (n - 1);
      assert n * (n - 1) == n * n - n;
    }
  }

  /** The count of pairs in closed form, n(n-1)/2. */
  lemma TriangularClosedForm(n: nat)
    ensures Triangular(n) == n * (n - 1) / 2
  {
    TriangularDoubled(n);
    if n > 0 {
      assert n * (n - 1) == n * n - n;
    }
  }

  /** The edge counts a packed vector may carry: n(n-1)/2 for some n >= 1. */
  ghost predicate IsTriangular(e: nat) {
    exists n: nat :: n >= 1 && Triangular(n) == e
  }

  /** Position of the first pair of row i: the size of rows 0 .. i-1. */
  function RowStart(n: nat, i: nat): nat
    requires i <= n
  {
    if i == 0 then 0 else RowStart(n, i - 1) + (n - i)
  }

  /** Position of the pair (i, j) in the lexicographic order: inside the block of row i, below n(n-1)/2. */
  function PairIndex(n: nat, i: nat, j: nat): (k: nat)
    requires i < j < n
    ensures RowStart(n, i) <= k < RowStart(n, i + 1)
    ensures k < Triangular(n)
  {
    RowStartMonotone(n, i + 1, n);
    RowStartAll(n);
    RowStart(n, i) + (j - i - 1)
  }

  lemma {:induction false} RowStartDoubled(n: nat, i: nat)
    requires i <= n
    ensures 2 * RowStart(n, i) == 2 * (i * n) - (i * i + i)
  {
    if i > 0 {
      RowStartDoubled(n, i - 1);
      MulPredLeft(i, n);
      MulPredLeft(i, i);
    }
  }

  lemma MulPredLeft(a: nat, b: nat)
    requires a > 0
    ensures (a - 1) * b == a * b - b
  {
  }

  /** The row offsets in closed form, i*n - i(i+1)/2, the expression the decoder's counter follows. */
  lemma RowStartClosedForm(n: nat, i: nat)
    requires i <= n
    ensures RowStart(n, i) == i * n - i * (i + 1) / 2
  {
    RowStartDoubled(n, i);
    assert i * (i + 1) == i * i + i;
  }

  /** The counter of the decoder's nested loop when it reaches pair (i, j). */
  lemma PairIndexClosedForm(n: nat, i: nat, j: nat)
    requires i < j < n
    ensures PairIndex(n, i, j) == i * n - i * (i + 1) / 2 + (j - i - 1)
  {
    RowStartClosedForm(n, i);
  }

  /** All n rows together hold exactly n(n-1)/2 pairs. */
  lemma RowStartAll(n: nat)
    ensures RowStart(n, n) == Triangular(n)
  {
    RowStartDoubled(n, n);
    TriangularDoubled(n);
  }

  lemma {:induction false} RowStartMonotone(n: nat, i: nat, k: nat)
    requires i <= k <= n
    ensures RowStart(n, i) <= RowStart(n, k)
    decreases k - i
  {
    if i < k {
      RowStartMonotone(n, i, k - 1);
    }
  }

  /** Lexicographic order of pairs is exactly the order of their positions. */
  lemma PairIndexOrder(n: nat, a: nat, b: nat, c: nat, d: nat)
    requires a < b < n && c < d < n
    ensures (a < c || (a == c && b < d)) <==> PairIndex(n, a, b) < PairIndex(n, c, d)
  {
    if a < c {
      RowStartMonotone(n, a + 1, c);
    } else if c < a {
      RowStartMonotone(n, c + 1, a);
    }
  }

  /** Distinct pairs never share a position. */
  lemma PairIndexInjective(n: nat, a: nat, b: nat, c: nat, d: nat)
    requires a < b < n && c < d < n
    requires PairIndex(n, a, b) == PairIndex(n, c, d)
    ensures a == c && b == d
  {
    PairIndexOrder(n, a, b, c, d);
    PairIndexOrder(n, c, d, a, b);
  }

  function PairAtFrom(n: nat, i: nat, k: nat): (p: (nat, nat))
    requires i < n
    requires RowStart(n, i) <= k < RowStart(n, n)
    ensures i <= p.0 < p.1 < n
    ensures PairIndex(n, p.0, p.1) == k
    decreases n - i
  {
    if k < RowStart(n, i + 1) then
      (i, i + 1 + (k - RowStart(n, i)))
    else
      PairAtFrom(n, i + 1, k)
  }

  /** The pair stored at position k: the inverse of PairIndex. */
  function PairAt(n: nat, k: nat): (p: (nat, nat))
    requires k < Triangular(n)
    ensures p.0 < p.1 < n
    ensures PairIndex(n, p.0, p.1) == k
  {
    RowStartAll(n);
    PairAtFrom(n, 0, k)
  }

  /** PairIndex and PairAt are mutually inverse between the pairs i < j < n and the positions below n(n-1)/2. */
  lemma PairIndexBijection(n: nat, i: nat, j: nat)
    requires i < j < n
    ensures PairAt(n, PairIndex(n, i, j)) == (i, j)
  {
    var p := PairAt(n, PairIndex(n, i, j));
    PairIndexInjective(n, p.0, p.1, i, j);
  }

  lemma PairIndexBijectionAll(n: nat)
    ensures forall i: nat, j: nat | i < j < n :: PairAt(n, PairIndex(n, i, j)) == (i, j)
  {
    forall i: nat, j: nat | i < j < n
      ensures PairAt(n, PairIndex(n, i, j)) == (i, j)
    {
      PairIndexBijection(n, i, j);
    }
  }

  /** Largest r with r*r <= m. */
  function FloorSqrt(m: nat): (r: nat)
    ensures r * r <= m < (r + 1) * (r + 1)
  {
    if m == 0 then 0
    else
      var s := FloorSqrt(m - 1);
      if (s + 1) * (s + 1) <= m then s + 1 else s
  }

  lemma SquareMonotone(a: nat, b: nat)
    requires a <= b
    ensures a * a <= b * b
  {
    assert a * a <= a * b <= b * b;
  }

  lemma FloorSqrtOfSquare(t: nat)
    ensures FloorSqrt(t * t) == t
  {
    var r := FloorSqrt(t * t);
    if r < t {
      SquareMonotone(r + 1, t);
    } else if r > t {
      SquareMonotone(t + 1, r);
    }
  }

  /** The first n' >= n with n'(n'-1)/2 = e, if any. */
  function RootSearch(e: nat, n: nat): (r: Option<nat>)
    requires 1 <= n <= e + 1
    ensures r.Some? ==> r.value >= n && Triangular(r.value) == e
    ensures r.None? ==> forall m: nat | m >= n :: Triangular(m) != e
    decreases e + 1 - n
  {
    if Triangular(n) == e then Some(n)
    else if Triangular(n) > e then
      TriangularPassed(e, n);
      None
    else RootSearch(e, n + 1)
  }

  lemma TriangularPassed(e: nat, n: nat)
    requires Triangular(n) > e
    ensures forall m: nat | m >= n :: Triangular(m) != e
  {
    forall m: nat | m >= n
      ensures Triangular(m) != e
    {
      TriangularMonotone(n, m);
    }
  }

  /**
   * The node count carried by an edge count e: the n >= 1 with
   * n(n-1)/2 = e, or nothing when e is not triangular.
   */
  function NodeCountFromEdges(e: nat): (r: Option<nat>)
    ensures r.Some? <==> IsTriangular(e)
    ensures r.Some? ==> r.value >= 1 && Triangular(r.value) == e
  {
    RootSearch(e, 1)
  }

  /**
   * The builder's own recovery: n = (1 + sqrt(1 + 8e)) / 2, accepted only
   * when that is whole, which is when 1 + 8e is a perfect square. The square
   * root here is exact. It finds exactly the node count of the integer search.
   */
  function SqrtNodeCount(e: nat): (r: Option<nat>)
    ensures r == NodeCountFromEdges(e)
  {
    var s := FloorSqrt(1 + 8 * e);
    if s * s == 1 + 8 * e then
      PerfectSquareRoot(e, s);
      Some((1 + s) / 2)
    else
      NodeCountComplete(e, s);
      None
  }

  lemma PerfectSquareRoot(e: nat, s: nat)
    requires s * s == 1 + 8 * e
    ensures NodeCountFromEdges(e) == Some((1 + s) / 2)
  {
    NodeCountSound(e, s);
    var r := NodeCountFromEdges(e);
    TriangularRootUnique(r.value, (1 + s) / 2);
  }

  lemma EvenSquare(s: nat)
    requires s % 2 == 0
    ensures (s * s) % 2 == 0
  {
    var h := s / 2;
    assert s * s == 2 * (s * h);
  }

  lemma NodeCountSound(e: nat, s: nat)
    requires s * s == 1 + 8 * e
    ensures (1 + s) / 2 >= 1 && Triangular((1 + s) / 2) == e
  {
    if s % 2 == 0 {
      EvenSquare(s);
    }
    var k := s / 2;
    var n := k + 1;
    SquareOfOddExpanded(s, k);
    TriangularDoubled(n);
    SquareOfSuccessor(k);
  }

  lemma SquareOfOddExpanded(s: nat, k: nat)
    requires s == 2 * k + 1
    ensures s * s == 4 * (k * k) + 4 * k + 1
  {
  }

  lemma SquareOfSuccessor(k: nat)
    ensures (k + 1) * (k + 1) == k * k + 2 * k + 1
  {
  }

  lemma OddSquare(n: nat)
    requires n >= 1
    ensures (2 * n - 1) * (2 * n - 1) == 1 + 8 * Triangular(n)
  {
    TriangularDoubled(n);
    SquareOfOdd(n);
  }

  lemma SquareOfOdd(n: nat)
    requires n >= 1
    ensures (2 * n - 1) * (2 * n - 1) == 4 * (n * n) - 4 * n + 1
  {
  }

  lemma NodeCountComplete(e: nat, s: nat)
    requires s == FloorSqrt(1 + 8 * e)
    requires s * s != 1 + 8 * e
    ensures !IsTriangular(e)
  {
    if IsTriangular(e) {
      var n: nat :| n >= 1 && Triangular(n) == e;
      OddSquare(n);
      FloorSqrtOfSquare(2 * n - 1);
    }
  }

  /** Triangular numbers grow strictly from n = 1 on. */
  lemma {:induction false} TriangularStrictlyIncreasing(m: nat, n: nat)
    requires 1 <= m < n
    ensures Triangular(m) < Triangular(n)
    decreases n - m
  {
    if m < n - 1 {
      TriangularStrictlyIncreasing(m, n - 1);
    }
  }

  lemma {:induction false} TriangularMonotone(m: nat, n: nat)
    requires m <= n
    ensures Triangular(m) <= Triangular(n)
    decreases n - m
  {
    if m < n {
      TriangularMonotone(m, n - 1);
    }
  }

  /** An edge count fixes the node count: n(n-1)/2 has one solution n >= 1. */
  lemma TriangularRootUnique(m: nat, n: nat)
    requires m >= 1 && n >= 1
    requires Triangular(m) == Triangular(n)
    ensures m == n
  {
    if m < n {
      TriangularStrictlyIncreasing(m, n);
    } else if n < m {
      TriangularStrictlyIncreasing(n, m);
    }
  }
}
