/**
 * `is_simple` of `permutation.cpp`: the dynamic-programming test of
 * Albert, Atkinson and Klazar for simple permutations. Two triangular tables
 * hold the minimum and the maximum of every window `perm[i..j]`, row `i`
 * after row `i - 1`; the second pass looks for a window other than a single
 * entry and the whole sequence whose values span exactly its length.
 */
module PermutationSimple {
  import opened Seqs
  import Permutation

  const UnsignedRange: nat := 0x1_0000_0000

  function Min(a: nat, b: nat): nat { if a <= b then a else b }
  function Max(a: nat, b: nat): nat { if a >= b then a else b }

  /** The least of the `c + 1` entries `perm[i], ..., perm[i + c]` (see `MinOfLeast`). */
  function MinOf(perm: seq<nat>, i: nat, c: nat): nat
    requires i + c < |perm|
  {
    if c == 0 then perm[i] else Min(MinOf(perm, i, c - 1), perm[i + c])
  }

  /** The greatest of the `c + 1` entries `perm[i], ..., perm[i + c]` (see `MaxOfGreatest`). */
  function MaxOf(perm: seq<nat>, i: nat, c: nat): nat
    requires i + c < |perm|
  {
    if c == 0 then perm[i] else Max(MaxOf(perm, i, c - 1), perm[i + c])
  }

  /** `MinOf` is the minimum of its window: no entry is smaller, and it occurs there. */
  lemma {:induction false} MinOfLeast(perm: seq<nat>, i: nat, c: nat)
    requires i + c < |perm|
    ensures forall k :: i <= k <= i + c ==> MinOf(perm, i, c) <= perm[k]
    ensures MinOf(perm, i, c) in perm[i..i + c + 1]
    decreases c
  {
    if c > 0 {
      MinOfLeast(perm, i, c - 1);
      assert perm[i..i + c + 1] == perm[i..i + c] + [perm[i + c]];
    }
  }

  /** `MaxOf` is the maximum of its window: no entry is greater, and it occurs there. */
  lemma {:induction false} MaxOfGreatest(perm: seq<nat>, i: nat, c: nat)
    requires i + c < |perm|
    ensures forall k :: i <= k <= i + c ==> perm[k] <= MaxOf(perm, i, c)
    ensures MaxOf(perm, i, c) in perm[i..i + c + 1]
    decreases c
  {
    if c > 0 {
      MaxOfGreatest(perm, i, c - 1);
      assert perm[i..i + c + 1] == perm[i..i + c] + [perm[i + c]];
    }
  }

  /**
   * The window `perm[i..j]` (both ends included) is an interval: its values
   * span no more than its length. For a permutation this says the window
   * holds a block of consecutive values (lemma `IntervalConsecutive`).
   */
  predicate IsIntervalAt(perm: seq<nat>, i: nat, j: nat)
    requires i < j < |perm|
  {
    MaxOf(perm, i, j - i) - MinOf(perm, i, j - i) == j - i
  }

  /** No window of two or more entries other than the whole sequence is an interval. */
  predicate Simple(perm: seq<nat>) {
    forall i, j :: 0 <= i < j < |perm| && !(i == 0 && j == |perm| - 1) ==> !IsIntervalAt(perm, i, j)
  }

  // ---------------------------------------------------------------------------
  // The triangular tables
  // ---------------------------------------------------------------------------

  /** Where row `i` starts: rows `0 .. i - 1` hold `n`, `n - 1`, ... cells. */
  function Offset(n: nat, i: nat): nat
    requires i <= n
  {
    if i == 0 then 0 else Offset(n, i - 1) + (n - (i - 1))
  }

  lemma {:induction false} OffsetMonotone(n: nat, a: nat, b: nat)
    requires a <= b <= n
    ensures Offset(n, a) <= Offset(n, b)
    decreases b
  {
    if a < b {
      OffsetMonotone(n, a, b - 1);
    }
  }

  /** The cell of window `perm[r..r + c]`. */
  function Cell(n: nat, r: nat, c: nat): (q: nat)
    requires r < n && c < n - r
    ensures Offset(n, r) <= q < Offset(n, r + 1) <= Offset(n, n)
  {
    OffsetMonotone(n, r + 1, n);
    Offset(n, r) + c
  }

  /** Every cell of the rows before `i` lies before row `i`. */
  lemma CellsBefore(n: nat, i: nat)
    requires i <= n
    ensures forall r: nat, c: nat :: r < i && c < n - r ==> Cell(n, r, c) < Offset(n, i)
  {
    forall r: nat, c: nat | r < i && c < n - r ensures Cell(n, r, c) < Offset(n, i) {
      OffsetMonotone(n, r + 1, i);
    }
  }

  /** The tables hold `n * (n + 1) / 2` cells. */
  lemma {:induction false} OffsetClosedForm(n: nat, i: nat)
    requires i <= n
    ensures 2 * Offset(n, i) == i * (2 * n - i + 1)
    decreases i
  {
    if i > 0 {
      OffsetClosedForm(n, i - 1);
      assert i * (2 * n - i + 1) == (i - 1) * (2 * n - (i - 1) + 1) + 2 * (n - (i - 1));
    }
  }

  /** The position where row `i` starts; past the last row it only counts on. */
  function Start(n: nat, i: nat): nat {
    if i <= n then Offset(n, i) else Offset(n, n) + (i - n)
  }

  /** Cell `(r, c)` of the tables holds the least and greatest entry of window `perm[r..r + c]`. */
  ghost predicate Filled(mMin: array<nat>, mMax: array<nat>, perm: seq<nat>, r: nat, c: nat)
    reads mMin, mMax
    requires r < |perm| && c < |perm| - r
    requires mMin.Length == mMax.Length == Offset(|perm|, |perm|)
  {
    mMin[Cell(|perm|, r, c)] == MinOf(perm, r, c) && mMax[Cell(|perm|, r, c)] == MaxOf(perm, r, c)
  }

  /**
   * One row of the first pass: starting at `p == Offset(n, i)`, the cells of
   * row `i` get the minima and maxima of the windows starting at `i`; no
   * cell before the row changes.
   */
  method FillRow(mMin: array<nat>, mMax: array<nat>, perm: seq<nat>, i: nat, p0: nat) returns (p: nat)
    requires mMin != mMax && i < |perm|
    requires mMin.Length == mMax.Length == Offset(|perm|, |perm|)
    requires p0 == Offset(|perm|, i)
    modifies mMin, mMax
    ensures p == Offset(|perm|, i + 1)
    ensures forall c: nat :: c < |perm| - i ==> Filled(mMin, mMax, perm, i, c)
    ensures forall q :: 0 <= q < mMin.Length && q < Offset(|perm|, i) ==> mMin[q] == old(mMin[q]) && mMax[q] == old(mMax[q])
  {
    var n := |perm|;
    OffsetMonotone(n, i + 1, n);
    p := p0;
    mMin[p], mMax[p] := perm[i], perm[i];
    var j := i + 1;
    while j < n
      invariant i < j <= n && p == p0 + (j - i - 1)
      invariant forall c: nat :: c < j - i ==> mMin[p0 + c] == MinOf(perm, i, c) && mMax[p0 + c] == MaxOf(perm, i, c)
      invariant forall q :: 0 <= q < p0 ==> mMin[q] == old(mMin[q]) && mMax[q] == old(mMax[q])
    {
      assert mMin[p] == MinOf(perm, i, j - i - 1) && mMax[p] == MaxOf(perm, i, j - i - 1);
      mMin[p + 1], mMax[p + 1] := Min(mMin[p], perm[j]), Max(mMax[p], perm[j]);
      assert mMin[p + 1] == MinOf(perm, i, j - i) && mMax[p + 1] == MaxOf(perm, i, j - i);
      p := p + 1;
      j := j + 1;
    }
    p := p + 1;
    RowFilled(mMin, mMax, perm, i, p0);
  }

  /** A row written from its first cell on is filled. */
  lemma RowFilled(mMin: array<nat>, mMax: array<nat>, perm: seq<nat>, i: nat, p0: nat)
    requires i < |perm| && mMin.Length == mMax.Length == Offset(|perm|, |perm|)
    requires p0 == Offset(|perm|, i) && p0 + (|perm| - i) <= mMin.Length
    requires forall c: nat :: c < |perm| - i ==> mMin[p0 + c] == MinOf(perm, i, c) && mMax[p0 + c] == MaxOf(perm, i, c)
    ensures forall c: nat :: c < |perm| - i ==> Filled(mMin, mMax, perm, i, c)
  {
    forall c: nat | c < |perm| - i ensures Filled(mMin, mMax, perm, i, c) {
      assert Cell(|perm|, i, c) == p0 + c;
    }
  }

  /**
   * The first pass of `is_simple`: two tables of `n * (n + 1) / 2` cells,
   * cell `(r, c)` holding the least and the greatest entry of window
   * `perm[r..r + c]`.
   */
  method FillTables(perm: seq<nat>) returns (mMin: array<nat>, mMax: array<nat>)
    ensures fresh(mMin) && fresh(mMax) && mMin.Length == mMax.Length == Offset(|perm|, |perm|)
    ensures forall r: nat, c: nat :: r < |perm| && c < |perm| - r ==> Filled(mMin, mMax, perm, r, c)
  {
    var n := |perm|;
    var sumn := Offset(n, n);
    mMin := new nat[sumn](_ => 0);
    mMax := new nat[sumn](_ => 0);
    var p := 0;
    var i := 0;
    while i < n
      invariant i <= n && p == Offset(n, i)
      invariant forall r: nat, c: nat :: r < i && c < n - r ==> Filled(mMin, mMax, perm, r, c)
    {
      CellsBefore(n, i);
      label before:
      p := FillRow(mMin, mMax, perm, i, p);
      forall r: nat, c: nat | r < i && c < n - r ensures Filled(mMin, mMax, perm, r, c) {
        assert old@before(Filled(mMin, mMax, perm, r, c));
        assert Cell(n, r, c) < Offset(n, i);
      }
      i := i + 1;
    }
  }

  /**
   * `is_simple`. After the first pass, the second visits the rows below
   * `n - 1u`, a bound computed in 32-bit unsigned arithmetic, so for the
   * empty sequence it runs `2^32 - 1` times without touching the tables.
   */
  method IsSimple(perm: seq<nat>) returns (b: bool)
    ensures b <==> Simple(perm)
  {
    var n := |perm|;
    var mMin, mMax := FillTables(perm);
    var i := 0;
    var p := 0;
    var bound := if n == 0 then UnsignedRange - 1 else n - 1;
    while i < bound
      invariant i <= bound && p == Start(n, i)
      invariant forall r: nat, j: nat :: r < i && r < j < n && !(r == 0 && j == n - 1) ==> !IsIntervalAt(perm, r, j)
    {
      p := p + 1;
      var j := i + 1;
      while j < n
        invariant i < j && (n > 0 ==> j <= n) && (n == 0 ==> j == i + 1) && p == Start(n, i) + (j - i)
        invariant forall k: nat :: i < k < j && k < n && !(i == 0 && k == n - 1) ==> !IsIntervalAt(perm, i, k)
      {
        assert p == Cell(n, i, j - i);
        assert Filled(mMin, mMax, perm, i, j - i);
        if mMax[p] - mMin[p] == j - i && !(i == 0 && j == n - 1) {
          assert IsIntervalAt(perm, i, j);
          return false;
        }
        p := p + 1;
        j := j + 1;
      }
      i := i + 1;
    }
    return true;
  }

  // ---------------------------------------------------------------------------
  // What an interval is
  // ---------------------------------------------------------------------------

  /** The numbers from `lo` to `hi`, both included. */
  function Span(lo: nat, hi: nat): (r: set<nat>)
    ensures forall v: nat :: v in r <==> lo <= v <= hi
    ensures |r| == if lo <= hi then hi - lo + 1 else 0
    decreases hi
  {
    if hi < lo then {} else if hi == lo then {lo} else Span(lo, hi - 1) + {hi}
  }

  /** A subset is the whole set exactly when it is as large. */
  lemma SubsetCard(a: set<nat>, b: set<nat>)
    requires a <= b
    ensures a == b <==> |a| == |b|
  {
    assert |b - a| == |b| - |a|;
  }

  lemma WindowDistinct(perm: seq<nat>, i: nat, j: nat)
    requires Distinct(perm) && i <= j <= |perm|
    ensures Distinct(perm[i..j])
  {
    var w := perm[i..j];
    forall x, y | 0 <= x < y < |w| ensures w[x] != w[y] {
      assert w[x] == perm[i + x] && w[y] == perm[i + y];
    }
  }

  /** A window of a permutation holds as many values as it has entries. */
  lemma WindowSize(perm: seq<nat>, i: nat, j: nat)
    requires Distinct(perm) && i < j < |perm|
    ensures |Permutation.Elements(perm[i..j + 1])| == j - i + 1
  {
    WindowDistinct(perm, i, j + 1);
    Permutation.ElementsDistinct(perm[i..j + 1]);
  }

  lemma WindowBounds(perm: seq<nat>, i: nat, j: nat)
    requires i < j < |perm|
    ensures Permutation.Elements(perm[i..j + 1]) <= Span(MinOf(perm, i, j - i), MaxOf(perm, i, j - i))
  {
    var w := perm[i..j + 1];
    var lo, hi := MinOf(perm, i, j - i), MaxOf(perm, i, j - i);
    MinOfLeast(perm, i, j - i);
    MaxOfGreatest(perm, i, j - i);
    forall k | 0 <= k < |w| ensures lo <= w[k] <= hi {
      assert w[k] == perm[i + k];
    }
  }

  /**
   * In a permutation, a window is an interval exactly when its values are
   * all the numbers from its least to its greatest entry.
   */
  lemma IntervalConsecutive(perm: seq<nat>, i: nat, j: nat)
    requires Permutation.IsPermutation(perm) && i < j < |perm|
    ensures IsIntervalAt(perm, i, j) <==>
      Permutation.Elements(perm[i..j + 1]) == Span(MinOf(perm, i, j - i), MaxOf(perm, i, j - i))
  {
    var lo, hi := MinOf(perm, i, j - i), MaxOf(perm, i, j - i);
    assert Distinct(perm);
    WindowSize(perm, i, j);
    WindowBounds(perm, i, j);
    MinOfLeast(perm, i, j - i);
    MaxOfGreatest(perm, i, j - i);
    SpanCovers(Permutation.Elements(perm[i..j + 1]), lo, hi, j - i);
  }

  /**
   * `m + 1` values between `lo` and `hi` are all of them exactly when
   * `hi - lo` is `m`.
   */
  lemma SpanCovers(e: set<nat>, lo: nat, hi: nat, m: nat)
    requires e <= Span(lo, hi) && |e| == m + 1 && lo <= hi
    ensures hi - lo == m <==> e == Span(lo, hi)
  {
    SubsetCard(e, Span(lo, hi));
  }

  // ---------------------------------------------------------------------------
  // The table size as written
  // ---------------------------------------------------------------------------

  /**
   * The table size as written: `(n * (n + 1)) / 2` evaluated in 32-bit
   * unsigned arithmetic, where the product wraps around.
   */
  function SumnAsWritten(n: nat): nat
    requires n < UnsignedRange
  {
    ((n * (n + 1)) % UnsignedRange) / 2
  }

  /** Below `2^16` entries nothing wraps and the written size is the true one. */
  lemma SumnExact(n: nat)
    requires n < 0x1_0000
    ensures SumnAsWritten(n) == Offset(n, n)
  {
    var product := n * (n + 1);
    ProductBelow(n);
    assert product % UnsignedRange == product;
    OffsetClosedForm(n, n);
    assert 2 * Offset(n, n) == product by {
      assert n * (2 * n - n + 1) == product;
    }
  }

  lemma ProductBelow(n: nat)
    requires n < 0x1_0000
    ensures n * (n + 1) < UnsignedRange
  {
    MulMonotone(n + 1, 0x1_0000, n);
    MulMonotone(n, 0xFFFF, 0x1_0000);
  }

  lemma MulMonotone(a: nat, b: nat, c: nat)
    requires a <= b
    ensures a * c <= b * c
  {
  }

  /**
   * With `2^16` entries the product wraps: the tables get 32768 cells, but
   * the first pass writes cell 65535 (the last cell of row 0).
   */
  lemma SumnOverflow()
    ensures SumnAsWritten(0x1_0000) == 32768
    ensures Cell(0x1_0000, 0, 0xFFFF) == 0xFFFF
  {
  }
}
