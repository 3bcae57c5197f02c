/** `FastSample`: a weight per padded cell, the sum of every padded row and
    the grand total, so that a weighted random cell is found by two linear
    scans and a move repairs only three row sums.  Weights are exact reals. */
module FastSampling {
  import opened Geometry
  import opened Positions
  import opened Wrappers

  // ---------------------------------------------------------------------------
  // Sums of weights

  /** The sum of a sequence of weights, accumulated left to right. */
  function Sum(s: seq<real>): real {
    if |s| == 0 then 0.0 else Sum(s[..|s| - 1]) + s[|s| - 1]
  }

  /** The sum of the weights at indices lo .. hi - 1, accumulated left to
      right: the running total of a loop over an index range. */
  function SumRange(s: seq<real>, lo: int, hi: int): real
    requires 0 <= lo && hi <= |s|
    decreases hi - lo
  {
    if hi <= lo then 0.0 else SumRange(s, lo, hi - 1) + s[hi - 1]
  }

  /** A running total over an index range is the sum of that slice. */
  lemma {:induction false} SumRangeSlice(s: seq<real>, lo: int, hi: int)
    requires 0 <= lo <= hi <= |s|
    ensures SumRange(s, lo, hi) == Sum(s[lo..hi])
    decreases hi - lo
  {
    if hi > lo {
      SumRangeSlice(s, lo, hi - 1);
      assert s[lo..hi][..hi - lo - 1] == s[lo..hi - 1];
    }
  }

  /** Summing a concatenation sums the parts. */
  lemma {:induction false} SumAppend(x: seq<real>, y: seq<real>)
    ensures Sum(x + y) == Sum(x) + Sum(y)
    decreases |y|
  {
    if |y| == 0 {
      assert x + y == x;
    } else {
      var y' := y[..|y| - 1];
      assert (x + y)[..|x + y| - 1] == x + y';
      SumAppend(x, y');
    }
  }

  /** A slice splits into two adjacent slices. */
  lemma SumSlices(s: seq<real>, i: int, j: int, k: int)
    requires 0 <= i <= j <= k <= |s|
    ensures Sum(s[i..k]) == Sum(s[i..j]) + Sum(s[j..k])
  {
    assert s[i..k] == s[i..j] + s[j..k];
    SumAppend(s[i..j], s[j..k]);
  }

  /** One more element extends a slice's sum by that element. */
  lemma SumExtend(s: seq<real>, i: int, j: int)
    requires 0 <= i <= j < |s|
    ensures Sum(s[i..j + 1]) == Sum(s[i..j]) + s[j]
  {
    assert s[i..j + 1][..j - i] == s[i..j];
  }

  /** Overwriting one element changes the sum by the difference. */
  lemma SumUpdate(s: seq<real>, i: int, v: real)
    requires 0 <= i < |s|
    ensures Sum(s[i := v]) == Sum(s) - s[i] + v
  {
    SumSlices(s, 0, i, |s|);
    SumSlices(s[i := v], 0, i, |s|);
    SumExtend(s, i, i);
    SumExtend(s[i := v], i, i);
    SumSlices(s, i, i + 1, |s|);
    SumSlices(s[i := v], i, i + 1, |s|);
    assert s[i := v][..i] == s[..i] && s[i := v][i + 1..] == s[i + 1..];
    assert s[i := v][0..|s|] == s[i := v] && s[0..|s|] == s;
  }

  /** Zeros at both ends of a slice add nothing to its sum. */
  lemma SumFramed(s: seq<real>, lo: int, hi: int)
    requires 0 <= lo && lo + 2 <= hi <= |s| && s[lo] == 0.0 && s[hi - 1] == 0.0
    ensures Sum(s[lo..hi]) == Sum(s[lo + 1..hi - 1])
  {
    SumSlices(s, lo, lo + 1, hi);
    SumExtend(s, lo, lo);
    assert s[lo..lo] == [];
    SumExtend(s, lo + 1, hi - 1);
  }

  /** Slices that agree element by element are equal. */
  lemma SliceCopy(s: seq<real>, i: int, t: seq<real>, j: int, len: int)
    requires 0 <= i && i + len <= |s| && 0 <= j && j + len <= |t| && 0 <= len
    requires forall k :: i <= k < i + len ==> s[k] == t[k - i + j]
    ensures s[i..i + len] == t[j..j + len]
  {
    var u, v := s[i..i + len], t[j..j + len];
    forall k | 0 <= k < len
      ensures u[k] == v[k]
    {
      assert s[i + k] == t[i + k - i + j];
    }
  }

  /** A sum of zeros is zero. */
  lemma {:induction false} SumZeros(s: seq<real>)
    requires forall k :: 0 <= k < |s| ==> s[k] == 0.0
    ensures Sum(s) == 0.0
    decreases |s|
  {
    if |s| > 0 {
      SumZeros(s[..|s| - 1]);
    }
  }

  /** With non-negative weights the prefix sums grow with the prefix. */
  lemma {:induction false} PrefixMonotone(s: seq<real>, i: int, j: int)
    requires 0 <= i <= j <= |s| && forall k :: 0 <= k < |s| ==> s[k] >= 0.0
    ensures Sum(s[..i]) <= Sum(s[..j])
    decreases j - i
  {
    if i < j {
      PrefixMonotone(s, i, j - 1);
      SumExtend(s, 0, j - 1);
      assert s[0..j] == s[..j] && s[0..j - 1] == s[..j - 1];
    }
  }

  // ---------------------------------------------------------------------------
  // The row-sum invariant

  /** The sum of the weights in padded row r. */
  function RowSum(n: nat, g: seq<real>, r: int): real
    requires |g| == Cells(n) && 0 <= r < Aligned(n)
  {
    RowSpan(n, r);
    Sum(g[Cell(n, r, 0)..Cell(n, r + 1, 0)])
  }

  /** Every row total is the sum of its row's weights. */
  ghost predicate RowSumsAgree(n: nat, g: seq<real>, rows: seq<real>) {
    |g| == Cells(n) && |rows| == Aligned(n)
    && forall r {:trigger RowSum(n, g, r)} :: 0 <= r < Aligned(n) ==> rows[r] == RowSum(n, g, r)
  }

  /** Guard cells carry no weight. */
  ghost predicate BordersZero(n: nat, g: seq<real>) {
    |g| == Cells(n) && forall p {:trigger IsBorder(n, p)} :: IsBorder(n, p) ==> g[p] == 0.0
  }

  /** No weight is negative. */
  ghost predicate NonNegative(g: seq<real>) {
    forall p :: 0 <= p < |g| ==> g[p] >= 0.0
  }

  /** The rows before row i hold exactly the weights before padded index
      i * A. */
  lemma {:induction false} RowsPrefix(n: nat, g: seq<real>, rows: seq<real>, i: int)
    requires RowSumsAgree(n, g, rows) && 0 <= i <= Aligned(n)
    ensures 0 <= Cell(n, i, 0) <= Cells(n)
    ensures Sum(rows[..i]) == Sum(g[..Cell(n, i, 0)])
    decreases i
  {
    if i == 0 {
      assert rows[..0] == [] && g[..Cell(n, 0, 0)] == [];
    } else {
      RowsPrefix(n, g, rows, i - 1);
      RowSpan(n, i - 1);
      assert rows[i - 1] == RowSum(n, g, i - 1);
      SumExtend(rows, 0, i - 1);
      SumSlices(g, 0, Cell(n, i - 1, 0), Cell(n, i, 0));
      assert rows[0..i] == rows[..i] && rows[0..i - 1] == rows[..i - 1];
      assert g[0..Cell(n, i, 0)] == g[..Cell(n, i, 0)];
      assert g[0..Cell(n, i - 1, 0)] == g[..Cell(n, i - 1, 0)];
    }
  }

  /** The grand total of the rows is the total weight. */
  lemma RowsTotal(n: nat, g: seq<real>, rows: seq<real>)
    requires RowSumsAgree(n, g, rows)
    ensures Sum(rows) == Sum(g)
  {
    RowsPrefix(n, g, rows, Aligned(n));
    assert rows[..Aligned(n)] == rows;
    assert g[..Cell(n, Aligned(n), 0)] == g;
  }

  // ---------------------------------------------------------------------------
  // The selection rule of `Random`

  /** Padded cell q owns the value r: r falls in q's interval of the
      cumulative weights taken in padded row-major order. */
  ghost predicate Owns(g: seq<real>, q: int, r: real) {
    0 <= q < |g| && Sum(g[..q]) <= r < Sum(g[..q + 1])
  }

  /** The owner of a value has positive weight: a zero-weight cell is never
      chosen. */
  lemma OwnerHasWeight(g: seq<real>, q: int, r: real)
    requires Owns(g, q, r)
    ensures g[q] > 0.0
  {
    SumExtend(g, 0, q);
    assert g[0..q + 1] == g[..q + 1] && g[0..q] == g[..q];
  }

  /** With non-negative weights a value has at most one owner. */
  lemma OwnerUnique(g: seq<real>, q: int, q': int, r: real)
    requires NonNegative(g) && Owns(g, q, r) && Owns(g, q', r)
    ensures q == q'
  {
    if q < q' {
      PrefixMonotone(g, q + 1, q');
    } else if q' < q {
      PrefixMonotone(g, q' + 1, q);
    }
  }

  /** Where `Random`'s two scans stop: the first after row i (having
      subtracted rows 1 .. i - 1), the second after cell j of that row. */
  ghost predicate ScanStopped(n: nat, g: seq<real>, rows: seq<real>, r: real, i: int, j: int)
    requires |g| == Cells(n) && |rows| == Aligned(n)
  {
    1 <= i <= n + 1 && 1 <= j <= n + 1
    && (RowSpan(n, i); RowScanStopped(n, g, rows, r, i, Cell(n, i, 0), j))
  }

  /** The same, for the row i that starts at padded index lo: x is what is
      left of r after the first scan, y what is left after the second. */
  ghost predicate RowScanStopped(n: nat, g: seq<real>, rows: seq<real>, r: real, i: int, lo: int, j: int)
    requires 1 <= i < |rows| && 1 <= j <= n + 1 && 0 <= lo && lo + n + 1 < |g|
  {
    var x := r - Sum(rows[1..i]);
    var y := x - Sum(g[lo + 1..lo + j]);
    (i <= n ==> x < rows[i])
    && 0.0 <= x && 0.0 <= y
    && (j <= n ==> y < g[lo + j])
  }

  /** The guard rows 0 and n + 1 total nothing. */
  lemma GuardRowsEmpty(n: nat, g: seq<real>, rows: seq<real>)
    requires RowSumsAgree(n, g, rows) && BordersZero(n, g)
    ensures rows[0] == 0.0 && rows[n + 1] == 0.0
  {
    var a := Aligned(n);
    RowSpan(n, 0);
    RowSpan(n, n + 1);
    var first, last := Cell(n, 0, 0), Cell(n, n + 1, 0);
    var top, bottom := g[first..first + a], g[last..last + a];
    forall k | 0 <= k < a
      ensures top[k] == 0.0 && bottom[k] == 0.0
    {
      GuardWeight(n, g, 0, k);
      GuardWeight(n, g, n + 1, k);
      assert Cell(n, 0, k) == first + k && Cell(n, n + 1, k) == last + k;
    }
    SumZeros(top);
    SumZeros(bottom);
    assert rows[0] == RowSum(n, g, 0) && rows[n + 1] == RowSum(n, g, n + 1);
  }

  /** A guard cell of a sampler whose guard cells carry no weight. */
  lemma GuardWeight(n: nat, g: seq<real>, r: int, c: int)
    requires BordersZero(n, g) && 0 <= r < Aligned(n) && 0 <= c < Aligned(n)
    requires r == 0 || r == n + 1 || c == 0 || c == n + 1
    ensures 0 <= Cell(n, r, c) < |g| && g[Cell(n, r, c)] == 0.0
  {
    RowInRange(n, r, c);
    CellInterior(n, r, c);
    assert IsBorder(n, Cell(n, r, c));
  }

  /** A first element 0 adds nothing to a prefix. */
  lemma SumDropZero(s: seq<real>, i: int)
    requires 1 <= i <= |s| && s[0] == 0.0
    ensures Sum(s[1..i]) == Sum(s[..i])
  {
    SumSlices(s, 0, 1, i);
    SumExtend(s, 0, 0);
    assert s[0..i] == s[..i] && s[0..0] == [];
  }

  /** A scan that skips the weight-0 cell lo and stops at q, with y left of
      the value r, has found q's interval. */
  lemma ScanOwner(g: seq<real>, lo: int, q: int, r: real, y: real)
    requires 0 <= lo < q < |g| && g[lo] == 0.0
    requires y == r - Sum(g[..lo]) - Sum(g[lo + 1..q]) && 0.0 <= y < g[q]
    ensures Owns(g, q, r)
  {
    SumSlices(g, 0, lo, q);
    SumSlices(g, lo, lo + 1, q);
    SumExtend(g, lo, lo);
    SumExtend(g, 0, q);
    assert g[lo..lo] == [] && g[0..lo] == g[..lo];
    assert g[0..q] == g[..q] && g[0..q + 1] == g[..q + 1];
  }

  /** The selection argument on one row: row i starts at lo, its two ends
      weigh nothing and rows 1 .. i - 1 hold the weights before lo. */
  lemma RowScanSelects(n: nat, g: seq<real>, rows: seq<real>, r: real, i: int, lo: int, j: int)
    requires |rows| == n + 2 && 1 <= i <= n + 1 && 1 <= j <= n + 1 && 0 <= lo && lo + n + 2 <= |g|
    requires rows[0] == 0.0 && rows[n + 1] == 0.0 && r < Sum(rows)
    requires Sum(rows[1..i]) == Sum(g[..lo])
    requires i <= n ==> g[lo] == 0.0 && g[lo + n + 1] == 0.0 && rows[i] == Sum(g[lo..lo + n + 2])
    requires RowScanStopped(n, g, rows, r, i, lo, j)
    ensures i <= n && j <= n && Owns(g, lo + j, r)
  {
    if i == n + 1 {
      // the first scan ran through every row: r is at least the total
      SumDropZero(rows, n + 1);
      SumExtend(rows, 0, n + 1);
      assert false;
    }
    if j == n + 1 {
      // the second scan ran through row i: r is at least its row's total
      SumFramed(g, lo, lo + n + 2);
      assert false;
    }
    ScanOwner(g, lo, lo + j, r, r - Sum(rows[1..i]) - Sum(g[lo + 1..lo + j]));
  }

  /** When the value lies below the total weight, the scans stop on a board
      cell, and that cell owns the value. */
  lemma ScanSelectsOwner(n: nat, g: seq<real>, rows: seq<real>, r: real, i: int, j: int)
    requires RowSumsAgree(n, g, rows) && BordersZero(n, g)
    requires ScanStopped(n, g, rows, r, i, j) && r < Sum(rows)
    ensures 1 <= i <= n && 1 <= j <= n && Owns(g, Cell(n, i, j), r)
  {
    RowSpan(n, i);
    var lo := Cell(n, i, 0);
    assert rows[0] == 0.0 && rows[n + 1] == 0.0 by {
      GuardRowsEmpty(n, g, rows);
    }
    // rows 1 .. i - 1 hold the weights before padded row i
    assert Sum(rows[1..i]) == Sum(g[..lo]) by {
      RowsPrefix(n, g, rows, i);
      SumDropZero(rows, i);
    }
    if i <= n {
      assert g[lo] == 0.0 && g[lo + n + 1] == 0.0 && rows[i] == Sum(g[lo..lo + n + 2]) by {
        GuardWeight(n, g, i, 0);
        GuardWeight(n, g, i, n + 1);
        CellShift(n, i, n + 1);
        assert rows[i] == RowSum(n, g, i);
      }
    }
    RowScanSelects(n, g, rows, r, i, lo, j);
    CellShift(n, i, j);
  }

  /** What `Random` returns once its scans have stopped: the logical index
      (i - 1) * n + j - 1 of the owner when the value is below the total, and
      n * n + n when non-negative weights make it fall through. */
  lemma ScanResult(n: nat, g: seq<real>, rows: seq<real>, r: real, i: int, j: int, k: int)
    requires RowSumsAgree(n, g, rows) && ScanStopped(n, g, rows, r, i, j)
    requires k == (i - 1) * n + j - 1
    ensures BordersZero(n, g) && r < Sum(rows) ==> 0 <= k < n * n && Owns(g, Transf(n, k), r)
    ensures BordersZero(n, g) && NonNegative(g) && Sum(rows) <= r ==> k == n * n + n
  {
    if BordersZero(n, g) && r < Sum(rows) {
      ScanSelectsOwner(n, g, rows, r, i, j);
      TransfOfLogical(n, i - 1, j - 1);
      assert k == LogicalIndex(n, i - 1, j - 1);
    }
    if BordersZero(n, g) && NonNegative(g) && Sum(rows) <= r {
      ScanFallsThrough(n, g, rows, r, i, j);
    }
  }

  /** A non-negative total is at least any prefix plus the next element. */
  lemma PrefixBelowTotal(s: seq<real>, i: int)
    requires NonNegative(s) && 1 <= i < |s|
    ensures Sum(s[1..i]) + s[i] <= Sum(s)
  {
    SumExtend(s, 1, i);
    SumSlices(s, 0, 1, |s|);
    SumSlices(s, 1, i + 1, |s|);
    SumNonNegative(s[i + 1..]);
    SumNonNegative(s[0..1]);
    assert s[0..|s|] == s;
  }

  /** When the weights are non-negative and the value is not below the
      total, the first scan runs past the last row and the second past the
      last column. */
  lemma ScanFallsThrough(n: nat, g: seq<real>, rows: seq<real>, r: real, i: int, j: int)
    requires RowSumsAgree(n, g, rows) && BordersZero(n, g) && NonNegative(g)
    requires ScanStopped(n, g, rows, r, i, j) && Sum(rows) <= r
    ensures i == n + 1 && j == n + 1
  {
    if i <= n {
      // r - (rows 1 .. i-1) < rows[i] would put r below the total
      RowsNonNegative(n, g, rows);
      PrefixBelowTotal(rows, i);
      assert false;
    }
    if j <= n {
      GuardWeight(n, g, n + 1, j);
      assert false;
    }
  }

  /** Row totals of non-negative weights are non-negative. */
  lemma RowsNonNegative(n: nat, g: seq<real>, rows: seq<real>)
    requires RowSumsAgree(n, g, rows) && NonNegative(g)
    ensures NonNegative(rows)
  {
    forall r | 0 <= r < |rows|
      ensures rows[r] >= 0.0
    {
      RowSpan(n, r);
      assert rows[r] == RowSum(n, g, r);
      SumNonNegative(g[Cell(n, r, 0)..Cell(n, r + 1, 0)]);
    }
  }

  /** A sum of non-negative weights is non-negative. */
  lemma SumNonNegative(s: seq<real>)
    requires NonNegative(s)
    ensures Sum(s) >= 0.0
  {
    PrefixMonotone(s, 0, |s|);
    assert s[..0] == [] && s[..|s|] == s;
  }

  // ---------------------------------------------------------------------------
  // Initial weights

  /** Logical row i of the initial weights occupies g[i * n .. i * n + n]. */
  lemma LogicalRowBounds(n: nat, i: int)
    requires 0 <= i < n
    ensures 0 <= LogicalIndex(n, i, 0) && LogicalIndex(n, i, n) <= n * n
    ensures LogicalIndex(n, i, n) == LogicalIndex(n, i + 1, 0)
  {
    MulNonNeg(i, n);
    MulMonotone(i + 1, n, n);
  }

  /** The total of logical row i of the initial weights. */
  function LogicalRowSum(n: nat, g: seq<real>, i: int): real
    requires |g| == n * n && 0 <= i < n
  {
    LogicalRowBounds(n, i);
    Sum(g[LogicalIndex(n, i, 0)..LogicalIndex(n, i, n)])
  }

  /** Logical row r - 1 of the initial weights sits on the board cells of
      padded row r, as `FillGammas` lays it out. */
  ghost predicate RowLaidOut(n: nat, init: seq<real>, g: seq<real>, r: int) {
    forall c :: 1 <= c <= n ==>
      0 <= Cell(n, r, c) < |g| && 0 <= LogicalIndex(n, r - 1, c) - 1 < |init|
      && g[Cell(n, r, c)] == init[LogicalIndex(n, r - 1, c) - 1]
  }

  /** Padded rows 1 .. m are laid out. */
  ghost predicate RowsLaidOut(n: nat, init: seq<real>, g: seq<real>, m: int) {
    forall r :: 1 <= r <= m ==> RowLaidOut(n, init, g, r)
  }

  /** Laying out logical row i keeps the rows laid out before it, which lie
      below padded index (i + 1) * A. */
  lemma {:induction false} LaidOutExtend(n: nat, init: seq<real>, g: seq<real>, g': seq<real>, i: int)
    requires 0 <= i < n && |g| == |g'| == Cells(n)
    requires RowsLaidOut(n, init, g, i) && RowLaidOut(n, init, g', i + 1)
    requires forall p :: 0 <= p < Cell(n, i + 1, 0) && p < |g| ==> g'[p] == g[p]
    ensures RowsLaidOut(n, init, g', i + 1)
  {
    forall r | 1 <= r <= i
      ensures RowLaidOut(n, init, g', r)
    {
      RowKept(n, init, g, g', r, i);
    }
  }

  /** A laid-out padded row r lies below padded index (i + 1) * A when
      r <= i, so weights that agree there keep it laid out. */
  lemma RowKept(n: nat, init: seq<real>, g: seq<real>, g': seq<real>, r: int, i: int)
    requires 1 <= r <= i && |g| == |g'| && RowLaidOut(n, init, g, r)
    requires forall p :: 0 <= p < Cell(n, i + 1, 0) && p < |g| ==> g'[p] == g[p]
    ensures RowLaidOut(n, init, g', r)
  {
    RowsAround(n, r, i + 1);
    forall c | 1 <= c <= n
      ensures 0 <= Cell(n, r, c) < |g'| && g'[Cell(n, r, c)] == g[Cell(n, r, c)]
    {
      CellShift(n, r, c);
    }
  }

  /** A row laid out cell by cell from its first padded index and its
      first logical index. */
  lemma RowFromBase(n: nat, init: seq<real>, g: seq<real>, r: int)
    requires 1 <= r <= n && |init| == n * n && |g| == Cells(n)
    requires 0 <= LogicalIndex(n, r - 1, 0) && LogicalIndex(n, r - 1, 0) + n <= |init|
    requires 0 <= Cell(n, r, 0) && Cell(n, r, 0) + Aligned(n) <= |g|
    requires forall q :: Cell(n, r, 0) < q <= Cell(n, r, 0) + n ==>
      g[q] == init[LogicalIndex(n, r - 1, 0) + (q - Cell(n, r, 0)) - 1]
    ensures RowLaidOut(n, init, g, r)
  {
    forall c | 1 <= c <= n
      ensures 0 <= Cell(n, r, c) < |g| && 0 <= LogicalIndex(n, r - 1, c) - 1 < |init|
      ensures g[Cell(n, r, c)] == init[LogicalIndex(n, r - 1, c) - 1]
    {
      CellShift(n, r, c);
    }
  }

  /** The n cells after the first padded index of board row r are board
      cells. */
  lemma BoardRowInterior(n: nat, r: int)
    requires 1 <= r <= n
    ensures forall p :: Cell(n, r, 0) < p <= Cell(n, r, 0) + n ==> Interior(n, p)
  {
    forall p | Cell(n, r, 0) < p <= Cell(n, r, 0) + n
      ensures Interior(n, p)
    {
      CellShift(n, r, p - Cell(n, r, 0));
      CellInterior(n, r, p - Cell(n, r, 0));
    }
  }

  /** One cell of a laid-out row. */
  lemma RowLaidOutAt(n: nat, init: seq<real>, g: seq<real>, r: int, c: int)
    requires RowLaidOut(n, init, g, r) && 1 <= c <= n
    ensures 0 <= Cell(n, r, c) < |g| && 0 <= LogicalIndex(n, r - 1, c) - 1 < |init|
    ensures g[Cell(n, r, c)] == init[LogicalIndex(n, r - 1, c) - 1]
  {
  }

  /** All n rows laid out puts logical cell k on padded cell transf[k]. */
  lemma LaidOutTransf(n: nat, init: seq<real>, g: seq<real>)
    requires n >= 1 && RowsLaidOut(n, init, g, n)
    ensures forall k :: 0 <= k < n * n ==> 0 <= Transf(n, k) < |g| && 0 <= k < |init| && g[Transf(n, k)] == init[k]
  {
    forall k | 0 <= k < n * n
      ensures 0 <= Transf(n, k) < |g| && 0 <= k < |init| && g[Transf(n, k)] == init[k]
    {
      var i, j := k / n, k % n;
      assert k == LogicalIndex(n, i, j);
      if i < 0 {
        MulMonotone(i, -1, n);
      } else if i >= n {
        MulMonotone(n, i, n);
      }
      TransfOfLogical(n, i, j);
      assert RowLaidOut(n, init, g, i + 1);
      RowLaidOutAt(n, init, g, i + 1, j + 1);
    }
  }

  /** Weights laid out as `FillGammas` lays them out, with nothing on guard
      cells, give padded row r the total of logical row r - 1. */
  lemma LaidOutRow(n: nat, init: seq<real>, g: seq<real>, r: int)
    requires n >= 1 && |init| == n * n && BordersZero(n, g) && 1 <= r <= n
    requires RowLaidOut(n, init, g, r)
    ensures RowSum(n, g, r) == LogicalRowSum(n, init, r - 1)
  {
    RowSpan(n, r);
    LogicalRowBounds(n, r - 1);
    var lo, hi := Cell(n, r, 0), Cell(n, r + 1, 0);
    var first := LogicalIndex(n, r - 1, 0);
    assert LogicalIndex(n, r - 1, n) == first + n;
    // the board cells of padded row r hold logical row r - 1
    assert g[lo + 1..lo + 1 + n] == init[first..first + n] by {
      forall q | lo + 1 <= q < lo + 1 + n
        ensures g[q] == init[q - (lo + 1) + first]
      {
        CellShift(n, r, q - lo);
        RowLaidOutAt(n, init, g, r, q - lo);
      }
      SliceCopy(g, lo + 1, init, first, n);
    }
    // and its two guard cells nothing
    GuardWeight(n, g, r, 0);
    GuardWeight(n, g, r, n + 1);
    CellShift(n, r, n + 1);
    SumFramed(g, lo, hi);
  }

  /** After `FillGammas` on a sampler whose guard cells and guard rows
      carried nothing, every row total is its row's weight and the totals
      of the board rows are all there is. */
  lemma {:induction false} FilledRowsAgree(n: nat, init: seq<real>, g: seq<real>, rows: seq<real>)
    requires n >= 1 && |init| == n * n && |g| == Cells(n) && |rows| == Aligned(n)
    requires BordersZero(n, g) && rows[0] == 0.0 && rows[n + 1] == 0.0
    requires RowsLaidOut(n, init, g, n)
    requires forall i :: 0 <= i < n ==> rows[i + 1] == LogicalRowSum(n, init, i)
    ensures RowSumsAgree(n, g, rows) && Sum(rows) == Sum(rows[1..n + 1])
  {
    forall r | 0 <= r < Aligned(n)
      ensures rows[r] == RowSum(n, g, r)
    {
      if r == 0 || r == n + 1 {
        GuardRowEmpty(n, g, r);
      } else {
        assert RowLaidOut(n, init, g, r);
        LaidOutRow(n, init, g, r);
      }
    }
    InnerTotal(rows);
  }

  /** The two guard rows carry nothing when no guard cell does. */
  lemma GuardRowEmpty(n: nat, g: seq<real>, r: int)
    requires BordersZero(n, g) && (r == 0 || r == n + 1)
    ensures RowSum(n, g, r) == 0.0
  {
    RowSpan(n, r);
    forall q | Cell(n, r, 0) <= q < Cell(n, r + 1, 0)
      ensures g[q] == 0.0
    {
      CellShift(n, r, q - Cell(n, r, 0));
      GuardWeight(n, g, r, q - Cell(n, r, 0));
    }
    SumZeros(g[Cell(n, r, 0)..Cell(n, r + 1, 0)]);
  }

  /** With nothing in the first and last entries, the total is the total of
      the entries between them. */
  lemma InnerTotal(s: seq<real>)
    requires |s| >= 2 && s[0] == 0.0 && s[|s| - 1] == 0.0
    ensures Sum(s) == Sum(s[1..|s| - 1])
  {
    SumFramed(s, 0, |s|);
    assert s[0..|s|] == s;
  }

  /** Storing the total of board row i + 1 extends the running grand total
      of rows 1 .. i by it. */
  lemma StoreRowTotal(rows: seq<real>, i: int, sum: real)
    requires 0 <= i && i + 2 <= |rows|
    ensures Sum(rows[i + 1 := sum][1..i + 2]) == Sum(rows[1..i + 1]) + sum
  {
    var rows' := rows[i + 1 := sum];
    SumExtend(rows', 1, i + 1);
    assert rows'[1..i + 1] == rows[1..i + 1];
  }

  /** Every weight and every row total zero: a consistent empty sampler. */
  lemma ZeroValid(n: nat, g: seq<real>, rows: seq<real>)
    requires |g| == Cells(n) && |rows| == Aligned(n)
    requires forall p :: 0 <= p < |g| ==> g[p] == 0.0
    requires forall r :: 0 <= r < |rows| ==> rows[r] == 0.0
    ensures RowSumsAgree(n, g, rows) && Sum(rows) == 0.0
  {
    forall r | 0 <= r < Aligned(n)
      ensures rows[r] == RowSum(n, g, r)
    {
      PaddedRow(n, r);
      SumZeros(g[Cell(n, r, 0)..Cell(n, r + 1, 0)]);
    }
    SumZeros(rows);
  }

  // ---------------------------------------------------------------------------
  // A move

  /** The weights after a move on p: p's weight is 0, the neighbour of p in
      direction d (the direction order of the pattern hash) gets w[d], and
      every other weight is kept. */
  function NewWeights(n: nat, g: seq<real>, p: int, w: seq<real>): (r: seq<real>)
    requires |w| == 6
    ensures |r| == |g|
  {
    seq(|g|, q requires 0 <= q < |g| =>
      if q == p then 0.0
      else if q == Neighbour(n, p, 0) then w[0]
      else if q == Neighbour(n, p, 1) then w[1]
      else if q == Neighbour(n, p, 2) then w[2]
      else if q == Neighbour(n, p, 3) then w[3]
      else if q == Neighbour(n, p, 4) then w[4]
      else if q == Neighbour(n, p, 5) then w[5]
      else g[q])
  }

  /** `Change`'s seven writes, in the source's order, produce the new
      weights. */
  lemma NewWeightsInOrder(n: nat, g: seq<real>, p: int, w: seq<real>)
    requires n >= 1 && |g| == Cells(n) && HasNeighbours(n, p) && |w| == 6
    ensures NewWeights(n, g, p, w) == SevenWrites(g, Aligned(n), p, w)
  {
    var a := Aligned(n);
    var u := SevenWrites(g, a, p, w);
    assert Neighbour(n, p, 0) == p - a + 1 && Neighbour(n, p, 1) == p + 1 && Neighbour(n, p, 2) == p + a;
    assert Neighbour(n, p, 3) == p + a - 1 && Neighbour(n, p, 4) == p - 1 && Neighbour(n, p, 5) == p - a;
    forall q | 0 <= q < |g|
      ensures NewWeights(n, g, p, w)[q] == u[q]
    {
    }
  }

  /** Sequences that differ only at position i differ in sum by the
      difference there. */
  lemma SumOneChange(x: seq<real>, y: seq<real>, i: int)
    requires |x| == |y| && 0 <= i < |x|
    requires forall k :: 0 <= k < |x| && k != i ==> x[k] == y[k]
    ensures Sum(y) == Sum(x) + (y[i] - x[i])
  {
    assert y == x[i := y[i]];
    SumUpdate(x, i, y[i]);
  }

  /** Sequences that differ only at positions i and j. */
  lemma SumTwoChanges(x: seq<real>, y: seq<real>, i: int, j: int)
    requires |x| == |y| && 0 <= i < |x| && 0 <= j < |x| && i != j
    requires forall m :: 0 <= m < |x| && m != i && m != j ==> x[m] == y[m]
    ensures Sum(y) == Sum(x) + (y[i] - x[i]) + (y[j] - x[j])
  {
    var x1 := x[i := y[i]];
    SumOneChange(x, x1, i);
    SumOneChange(x1, y, j);
  }

  /** Sequences that differ only at positions i, j and k. */
  lemma SumThreeChanges(x: seq<real>, y: seq<real>, i: int, j: int, k: int)
    requires |x| == |y| && 0 <= i < |x| && 0 <= j < |x| && 0 <= k < |x| && i != j && j != k && i != k
    requires forall m :: 0 <= m < |x| && m != i && m != j && m != k ==> x[m] == y[m]
    ensures Sum(y) == Sum(x) + (y[i] - x[i]) + (y[j] - x[j]) + (y[k] - x[k])
  {
    var x1 := x[i := y[i]];
    var x2 := x1[j := y[j]];
    SumOneChange(x, x1, i);
    SumOneChange(x1, x2, j);
    SumOneChange(x2, y, k);
  }

  /** `Change`'s seven writes around p, in the source's order, on a grid of
      row length a. */
  function SevenWrites(g: seq<real>, a: int, p: int, w: seq<real>): (u: seq<real>)
    requires |w| == 6 && 1 <= a && 0 <= p - a && p + a < |g|
    ensures |u| == |g|
  {
    g[p - a + 1 := w[0]][p - a := w[5]][p + a := w[2]][p + a - 1 := w[3]]
     [p + 1 := w[1]][p := 0.0][p - 1 := w[4]]
  }

  /** A row total is the sum of the row length of weights from the row's
      first padded index. */
  lemma RowSumFrom(n: nat, g: seq<real>, r: int)
    requires |g| == Cells(n) && 0 <= r < Aligned(n)
    ensures 0 <= Cell(n, r, 0) && Cell(n, r, 0) + Aligned(n) <= |g|
    ensures RowSum(n, g, r) == Sum(g[Cell(n, r, 0)..Cell(n, r, 0) + Aligned(n)])
  {
    RowSpan(n, r);
  }

  /** Board cell p of padded row `row`, which starts at s, lies strictly
      inside its row, and rows row - 1 .. row + 1 are inside the grid. */
  lemma MoveInRow(n: nat, p: int, row: int)
    requires 1 <= row <= n && Cell(n, row, 1) <= p <= Cell(n, row, n)
    ensures var a, s := Aligned(n), Cell(n, row, 0);
      a <= s && s + 2 * a <= Cells(n) && s + 1 <= p <= s + a - 2
  {
    RowSpan(n, row);
    RowSpan(n, row + 1);
    CellShift(n, row, 1);
    CellShift(n, row, n);
  }

  /** Two grids that differ at most at cells i and j of the run of a cells
      from lo: the run's sum differs by what changed there. */
  lemma RunTwoChanges(g: seq<real>, u: seq<real>, lo: int, a: int, i: int, j: int)
    requires |u| == |g| && 0 <= lo && 0 <= a && lo + a <= |g| && i != j
    requires lo <= i < lo + a && lo <= j < lo + a
    requires forall q :: lo <= q < lo + a && q != i && q != j ==> u[q] == g[q]
    ensures Sum(u[lo..lo + a]) == Sum(g[lo..lo + a]) + (u[i] - g[i]) + (u[j] - g[j])
  {
    var x, y := g[lo..lo + a], u[lo..lo + a];
    forall m | 0 <= m < a && m != i - lo && m != j - lo
      ensures x[m] == y[m]
    {
      assert x[m] == g[lo + m] && y[m] == u[lo + m];
    }
    assert x[i - lo] == g[i] && y[i - lo] == u[i] && x[j - lo] == g[j] && y[j - lo] == u[j];
    SumTwoChanges(x, y, i - lo, j - lo);
  }

  /** Two grids that differ at most at cells i, j and k of a run. */
  lemma RunThreeChanges(g: seq<real>, u: seq<real>, lo: int, a: int, i: int, j: int, k: int)
    requires |u| == |g| && 0 <= lo && 0 <= a && lo + a <= |g| && i != j && j != k && i != k
    requires lo <= i < lo + a && lo <= j < lo + a && lo <= k < lo + a
    requires forall q :: lo <= q < lo + a && q != i && q != j && q != k ==> u[q] == g[q]
    ensures Sum(u[lo..lo + a]) == Sum(g[lo..lo + a]) + (u[i] - g[i]) + (u[j] - g[j]) + (u[k] - g[k])
  {
    var x, y := g[lo..lo + a], u[lo..lo + a];
    forall m | 0 <= m < a && m != i - lo && m != j - lo && m != k - lo
      ensures x[m] == y[m]
    {
      assert x[m] == g[lo + m] && y[m] == u[lo + m];
    }
    assert x[i - lo] == g[i] && y[i - lo] == u[i] && x[j - lo] == g[j] && y[j - lo] == u[j];
    assert x[k - lo] == g[k] && y[k - lo] == u[k];
    SumThreeChanges(x, y, i - lo, j - lo, k - lo);
  }

  /** Two grids that agree on a run have the same sum there. */
  lemma RunUnchanged(g: seq<real>, u: seq<real>, lo: int, a: int)
    requires |u| == |g| && 0 <= lo && 0 <= a && lo + a <= |g|
    requires forall q :: lo <= q < lo + a ==> u[q] == g[q]
    ensures Sum(u[lo..lo + a]) == Sum(g[lo..lo + a])
  {
    var x, y := g[lo..lo + a], u[lo..lo + a];
    forall m | 0 <= m < a
      ensures x[m] == y[m]
    {
      assert x[m] == g[lo + m] && y[m] == u[lo + m];
    }
    assert x == y;
  }

  /** u is g after a move on p written out by offsets: 0 on p, w[0] .. w[5]
      on p - A + 1, p + 1, p + A, p + A - 1, p - 1, p - A, and g elsewhere. */
  ghost predicate Moved(n: nat, g: seq<real>, u: seq<real>, p: int, w: seq<real>) {
    var a := Aligned(n);
    |u| == |g| && |w| == 6 &&
    forall q :: 0 <= q < |u| ==>
      u[q] == (if q == p then 0.0
               else if q == p - a + 1 then w[0]
               else if q == p + 1 then w[1]
               else if q == p + a then w[2]
               else if q == p + a - 1 then w[3]
               else if q == p - 1 then w[4]
               else if q == p - a then w[5]
               else g[q])
  }

  /** The new weights of a move are g moved on p. */
  lemma NewWeightsMoved(n: nat, g: seq<real>, p: int, w: seq<real>)
    requires n >= 1 && |w| == 6
    ensures Moved(n, g, NewWeights(n, g, p, w), p, w)
  {
    var a := Aligned(n);
    assert Neighbour(n, p, 0) == p - a + 1 && Neighbour(n, p, 1) == p + 1 && Neighbour(n, p, 2) == p + a;
    assert Neighbour(n, p, 3) == p + a - 1 && Neighbour(n, p, 4) == p - 1 && Neighbour(n, p, 5) == p - a;
  }

  /** On a board cell p, a move whose weights start with guard cells at
      zero keeps them at zero exactly when it gives weight 0 to every
      neighbour of p that is a guard cell.  For p on an edge of the board
      some neighbours are guard cells, and a positive weight there breaks
      the premise of `Random`'s selection rule. */
  lemma NewWeightsBordersZero(n: nat, g: seq<real>, p: int, w: seq<real>)
    requires n >= 1 && |g| == Cells(n) && Interior(n, p) && |w| == 6
    ensures BordersZero(n, g) ==>
      (BordersZero(n, NewWeights(n, g, p, w)) <==>
       forall d :: 0 <= d < 6 && IsBorder(n, Neighbour(n, p, d)) ==> w[d] == 0.0)
  {
    var u := NewWeights(n, g, p, w);
    NewWeightsMoved(n, g, p, w);
    if BordersZero(n, g) {
      if BordersZero(n, u) {
        forall d | 0 <= d < 6 && IsBorder(n, Neighbour(n, p, d))
          ensures w[d] == 0.0
        {
          assert u[Neighbour(n, p, d)] == w[d];
        }
      }
      if forall d :: 0 <= d < 6 && IsBorder(n, Neighbour(n, p, d)) ==> w[d] == 0.0 {
        forall q | IsBorder(n, q)
          ensures u[q] == 0.0
        {
          var a := Aligned(n);
          if q == p - a + 1 { assert IsBorder(n, Neighbour(n, p, 0)); }
          else if q == p + 1 { assert IsBorder(n, Neighbour(n, p, 1)); }
          else if q == p + a { assert IsBorder(n, Neighbour(n, p, 2)); }
          else if q == p + a - 1 { assert IsBorder(n, Neighbour(n, p, 3)); }
          else if q == p - 1 { assert IsBorder(n, Neighbour(n, p, 4)); }
          else if q == p - a { assert IsBorder(n, Neighbour(n, p, 5)); }
        }
      }
    }
  }

  /** A move on a board cell keeps every weight non-negative exactly when
      the six weights it writes are non-negative. */
  lemma NewWeightsNonNegative(n: nat, g: seq<real>, p: int, w: seq<real>)
    requires n >= 1 && |g| == Cells(n) && Interior(n, p) && |w| == 6
    ensures NonNegative(g) ==>
      (NonNegative(NewWeights(n, g, p, w)) <==> forall d :: 0 <= d < 6 ==> w[d] >= 0.0)
  {
    var u := NewWeights(n, g, p, w);
    NewWeightsMoved(n, g, p, w);
    if NonNegative(g) && NonNegative(u) {
      forall d | 0 <= d < 6
        ensures w[d] >= 0.0
      {
        InteriorNeighboursInRange(n, p, d);
        assert u[Neighbour(n, p, d)] == w[d];
      }
    }
  }

  /** The total of the row above a move's row changes by what `Change`
      writes on p - A + 1 and p - A. */
  lemma MoveRowAbove(n: nat, g: seq<real>, u: seq<real>, p: int, row: int, w: seq<real>, r: int)
    requires |g| == Cells(n) && Moved(n, g, u, p, w) && HasNeighbours(n, p)
    requires 1 <= row <= n && Cell(n, row, 1) <= p <= Cell(n, row, n) && r == row - 1
    ensures var a := Aligned(n);
      RowSum(n, u, r) == RowSum(n, g, r) + ((w[0] + w[5]) - (g[p - a + 1] + g[p - a]))
  {
    var a, lo := Aligned(n), Cell(n, r, 0);
    assert 0 <= lo && lo + 3 * a <= |g| && lo + a + 1 <= p <= lo + 2 * a - 2 by {
      MoveInRow(n, p, row);
      RowsAround(n, r, row);
    }
    assert RowSum(n, u, r) == Sum(u[lo..lo + a]) by {
      RowSumFrom(n, u, r);
    }
    assert RowSum(n, g, r) == Sum(g[lo..lo + a]) by {
      RowSumFrom(n, g, r);
    }
    RunTwoChanges(g, u, lo, a, p - a + 1, p - a);
  }

  /** The total of the row below a move's row changes by what `Change`
      writes on p + A and p + A - 1. */
  lemma MoveRowBelow(n: nat, g: seq<real>, u: seq<real>, p: int, row: int, w: seq<real>, r: int)
    requires |g| == Cells(n) && Moved(n, g, u, p, w) && HasNeighbours(n, p)
    requires 1 <= row <= n && Cell(n, row, 1) <= p <= Cell(n, row, n) && r == row + 1
    ensures var a := Aligned(n);
      RowSum(n, u, r) == RowSum(n, g, r) + ((w[2] + w[3]) - (g[p + a] + g[p + a - 1]))
  {
    var a, lo := Aligned(n), Cell(n, r, 0);
    assert 2 * a <= lo && lo + a <= |g| && lo - a + 1 <= p <= lo - 2 by {
      MoveInRow(n, p, row);
      RowsAround(n, r, row);
    }
    assert RowSum(n, u, r) == Sum(u[lo..lo + a]) by {
      RowSumFrom(n, u, r);
    }
    assert RowSum(n, g, r) == Sum(g[lo..lo + a]) by {
      RowSumFrom(n, g, r);
    }
    RunTwoChanges(g, u, lo, a, p + a, p + a - 1);
  }

  /** The total of a move's own row changes by what `Change` writes on
      p + 1, p and p - 1. */
  lemma MoveOwnRow(n: nat, g: seq<real>, u: seq<real>, p: int, row: int, w: seq<real>)
    requires |g| == Cells(n) && Moved(n, g, u, p, w) && HasNeighbours(n, p)
    requires 1 <= row <= n && Cell(n, row, 1) <= p <= Cell(n, row, n)
    ensures RowSum(n, u, row) == RowSum(n, g, row) + ((w[1] + 0.0 + w[4]) - (g[p + 1] + g[p] + g[p - 1]))
  {
    var a, lo := Aligned(n), Cell(n, row, 0);
    assert a <= lo && lo + 2 * a <= |g| && lo + 1 <= p <= lo + a - 2 by {
      MoveInRow(n, p, row);
    }
    assert RowSum(n, u, row) == Sum(u[lo..lo + a]) by {
      RowSumFrom(n, u, row);
    }
    assert RowSum(n, g, row) == Sum(g[lo..lo + a]) by {
      RowSumFrom(n, g, row);
    }
    RunThreeChanges(g, u, lo, a, p + 1, p, p - 1);
  }

  /** Every other row total is untouched by a move. */
  lemma MoveOtherRow(n: nat, g: seq<real>, u: seq<real>, p: int, row: int, w: seq<real>, r: int)
    requires |g| == Cells(n) && Moved(n, g, u, p, w) && HasNeighbours(n, p) && 0 <= r < Aligned(n)
    requires 1 <= row <= n && Cell(n, row, 1) <= p <= Cell(n, row, n)
    requires r < row - 1 || row + 1 < r
    ensures RowSum(n, u, r) == RowSum(n, g, r)
  {
    var a, lo := Aligned(n), Cell(n, r, 0);
    assert 0 <= lo && lo + a <= |g| && (lo + a <= p - a || p + a < lo) by {
      MoveInRow(n, p, row);
      RowsAround(n, r, row);
      RowSpan(n, r);
    }
    assert RowSum(n, u, r) == Sum(u[lo..lo + a]) by {
      RowSumFrom(n, u, r);
    }
    assert RowSum(n, g, r) == Sum(g[lo..lo + a]) by {
      RowSumFrom(n, g, r);
    }
    RunUnchanged(g, u, lo, a);
  }

  /** A move on board cell p of padded row `row` changes the totals of rows
      row - 1, row and row + 1 by exactly what `Change` subtracts and adds,
      and no other row total. */
  lemma NewWeightsRowSums(n: nat, g: seq<real>, p: int, row: int, w: seq<real>, r: int)
    requires n >= 1 && |g| == Cells(n) && |w| == 6 && 0 <= r < Aligned(n)
    requires 1 <= row <= n && Cell(n, row, 1) <= p <= Cell(n, row, n)
    ensures HasNeighbours(n, p)
    ensures var a := Aligned(n);
      RowSum(n, NewWeights(n, g, p, w), r) == RowSum(n, g, r) +
        (if r == row - 1 then (w[0] + w[5]) - (g[p - a + 1] + g[p - a])
         else if r == row + 1 then (w[2] + w[3]) - (g[p + a] + g[p + a - 1])
         else if r == row then (w[1] + 0.0 + w[4]) - (g[p + 1] + g[p] + g[p - 1])
         else 0.0)
  {
    var u := NewWeights(n, g, p, w);
    MoveInRow(n, p, row);
    NewWeightsMoved(n, g, p, w);
    if r == row - 1 {
      MoveRowAbove(n, g, u, p, row, w, r);
    } else if r == row + 1 {
      MoveRowBelow(n, g, u, p, row, w, r);
    } else if r == row {
      MoveOwnRow(n, g, u, p, row, w);
    } else {
      MoveOtherRow(n, g, u, p, row, w, r);
    }
  }

  /** `Change`'s repair of the row totals: rows R - 1, R + 1 and R each
      lose the old weights of the cells written in them and gain the new
      ones, the others are left alone.  On a board cell p of row R this is
      exact: every row total moves by exactly the change of that row's
      weight. */
  lemma RowsRepair(n: nat, a: int, g: seq<real>, rows: seq<real>, rows': seq<real>, p: int, row: int, w: seq<real>)
    requires n >= 1 && a == Aligned(n) && |g| == Cells(n) && |rows| == a && |rows'| == a && |w| == 6
    requires 1 <= row <= n && Cell(n, row, 1) <= p <= Cell(n, row, n)
    requires HasNeighbours(n, p)
    requires rows'[row - 1] == rows[row - 1] - (g[p - a + 1] + g[p - a]) + (w[0] + w[5])
    requires rows'[row + 1] == rows[row + 1] - (g[p + a] + g[p + a - 1]) + (w[2] + w[3])
    requires rows'[row] == rows[row] - (g[p + 1] + g[p] + g[p - 1]) + (w[1] + 0.0 + w[4])
    requires forall r :: 0 <= r < a && (r < row - 1 || row + 1 < r) ==> rows'[r] == rows[r]
    ensures forall r :: 0 <= r < Aligned(n) ==>
      rows'[r] - rows[r] == RowSum(n, NewWeights(n, g, p, w), r) - RowSum(n, g, r)
  {
    forall r | 0 <= r < Aligned(n)
      ensures rows'[r] - rows[r] == RowSum(n, NewWeights(n, g, p, w), r) - RowSum(n, g, r)
    {
      NewWeightsRowSums(n, g, p, row, w, r);
    }
  }

  /** Three successive writes to distinct rows: the written rows hold the
      written values, every other row is unchanged. */
  lemma RowBlocks(rows0: seq<real>, rows1: seq<real>, rows2: seq<real>, rows3: seq<real>,
                  row: int, x: real, y: real, z: real)
    requires 1 <= row < |rows0| - 1
    requires rows1 == rows0[row - 1 := x] && rows2 == rows1[row + 1 := y] && rows3 == rows2[row := z]
    ensures |rows3| == |rows0| && rows3[row - 1] == x && rows3[row + 1] == y && rows3[row] == z
    ensures forall r :: 0 <= r < |rows0| && (r < row - 1 || row + 1 < r) ==> rows3[r] == rows0[r]
  {
  }

  /** The weight writes of `Change`'s three blocks: the later blocks read
      weights the earlier ones left alone, and together they are the seven
      writes. */
  lemma WeightBlocks(g0: seq<real>, g1: seq<real>, g2: seq<real>, g3: seq<real>, a: int, p: int, w: seq<real>)
    requires |w| == 6 && 3 <= a && 0 <= p - a && p + a < |g0|
    requires g1 == g0[p - a + 1 := w[0]][p - a := w[5]]
    requires g2 == g1[p + a := w[2]][p + a - 1 := w[3]]
    requires g3 == g2[p + 1 := w[1]][p := 0.0][p - 1 := w[4]]
    ensures g1[p + a] == g0[p + a] && g1[p + a - 1] == g0[p + a - 1]
    ensures g2[p + 1] == g0[p + 1] && g2[p] == g0[p] && g2[p - 1] == g0[p - 1]
    ensures g3 == SevenWrites(g0, a, p, w)
  {
  }

  /** `Change` on padded cell p of padded row `row`, as its three blocks
      leave the weights g0 .. g3 and the row totals rows0 .. rows3: the
      weights end as the move's new weights, rows other than row - 1 .. row
      + 1 keep their totals, the grand total moves by the change of the
      three repaired totals, and on a board cell every repaired total moves
      by exactly the change of its row's weight. */
  lemma ChangeRepair(n: nat, g0: seq<real>, g1: seq<real>, g2: seq<real>, g3: seq<real>,
                     rows0: seq<real>, rows1: seq<real>, rows2: seq<real>, rows3: seq<real>,
                     a: int, p: int, row: int, w: seq<real>)
    requires n >= 1 && a == Aligned(n) && |g0| == Cells(n) && |rows0| == Aligned(n) && |w| == 6
    requires HasNeighbours(n, p) && row == p / Aligned(n) && 1 <= row < Aligned(n) - 1
    requires g1 == g0[p - a + 1 := w[0]][p - a := w[5]]
    requires rows1 == rows0[row - 1 := rows0[row - 1] - (g0[p - a + 1] + g0[p - a]) + (w[0] + w[5])]
    requires g2 == g1[p + a := w[2]][p + a - 1 := w[3]]
    requires rows2 == rows1[row + 1 := rows1[row + 1] - (g1[p + a] + g1[p + a - 1]) + (w[2] + w[3])]
    requires g3 == g2[p + 1 := w[1]][p := 0.0][p - 1 := w[4]]
    requires rows3 == rows2[row := rows2[row] - (g2[p + 1] + g2[p] + g2[p - 1]) + (w[1] + 0.0 + w[4])]
    ensures g3 == NewWeights(n, g0, p, w)
    ensures forall r :: 0 <= r < Aligned(n) && (r < row - 1 || row + 1 < r) ==> rows3[r] == rows0[r]
    ensures Sum(rows3) - Sum(rows0) ==
      (rows3[row - 1] + rows3[row + 1] + rows3[row]) - (rows0[row - 1] + rows0[row + 1] + rows0[row])
    ensures Interior(n, p) ==> forall r :: 0 <= r < Aligned(n) ==>
      rows3[r] - rows0[r] == RowSum(n, g3, r) - RowSum(n, g0, r)
  {
    WeightBlocks(g0, g1, g2, g3, a, p, w);
    RowBlocks(rows0, rows1, rows2, rows3, row,
              rows0[row - 1] - (g0[p - a + 1] + g0[p - a]) + (w[0] + w[5]),
              rows1[row + 1] - (g1[p + a] + g1[p + a - 1]) + (w[2] + w[3]),
              rows2[row] - (g2[p + 1] + g2[p] + g2[p - 1]) + (w[1] + 0.0 + w[4]));
    NewWeightsInOrder(n, g0, p, w);
    SumThreeChanges(rows0, rows3, row - 1, row + 1, row);
    if Interior(n, p) {
      assert 1 <= row <= n && Cell(n, row, 1) <= p <= Cell(n, row, n) by {
        RowColInRange(n, p);
        RowColOf(n, p);
        CellShift(n, row, 1);
        CellShift(n, row, n);
        CellShift(n, row, p % a);
      }
      RowsRepair(n, a, g0, rows0, rows3, p, row, w);
    }
  }

  // ---------------------------------------------------------------------------
  // The sampler

  class FastSample {
    const n: nat
    const t: Tables
    /** `_gammas`: the weight of every padded cell. */
    const gammas: array<real>
    /** `_rows`: the weight total of every padded row. */
    const rows: array<real>
    /** `all_sum`: the total of the row totals. */
    var allSum: real

    /** The arrays have their sizes and the coordinate tables are shared. */
    ghost predicate Shape()
      reads this, t
    {
      t.Shape() && n == t.n && gammas.Length == Cells(n) && rows.Length == Aligned(n) && gammas != rows
    }

    /** The constructor: all weights, row totals and the grand total zero,
        then `FillGammas` when initial weights are given. */
    constructor (t: Tables, initial: Option<seq<real>>)
      requires t.Shape()
      requires initial.Some? ==> |initial.value| == t.n * t.n
      ensures this.t == t && n == t.n && fresh(gammas) && fresh(rows)
      ensures Valid() && BordersZero(n, gammas[..])
      ensures initial.None? ==>
        allSum == 0.0
        && (forall p :: 0 <= p < Cells(n) ==> gammas[p] == 0.0)
        && (forall r :: 0 <= r < Aligned(n) ==> rows[r] == 0.0)
      ensures initial.Some? ==> forall k :: 0 <= k < n * n ==> gammas[Transf(n, k)] == initial.value[k]
    {
      this.t := t;
      n := t.n;
      gammas := new real[Cells(t.n)](_ => 0.0);
      rows := new real[Aligned(t.n)](_ => 0.0);
      allSum := 0.0;
      new;
      assert gammas[..] == seq(Cells(n), _ => 0.0);
      ZeroValid(n, gammas[..], rows[..]);
      if initial.Some? {
        FillGammas(initial.value);
      }
    }

    /** `FillGammas`: logical cell i * n + j's weight to padded cell
        (i + 1) * A + 1 + j, each row's total into `_rows[i + 1]`, and the
        totals added to `all_sum`, which is not reset first: the sampler is
        consistent afterwards exactly when `all_sum` was 0. */
    method FillGammas(g: seq<real>)
      requires Shape() && |g| == n * n
      modifies gammas, rows, this`allSum
      ensures forall k :: 0 <= k < n * n ==> gammas[Transf(n, k)] == g[k]
      ensures forall p :: 0 <= p < Cells(n) && !Interior(n, p) ==> gammas[p] == old(gammas[p])
      ensures forall i :: 0 <= i < n ==> rows[i + 1] == LogicalRowSum(n, g, i)
      ensures rows[0] == old(rows[0]) && rows[n + 1] == old(rows[n + 1])
      ensures allSum == old(allSum) + Sum(rows[1..n + 1])
      ensures old(BordersZero(n, gammas[..]) && rows[0] == 0.0 && rows[n + 1] == 0.0) ==>
        (Valid() <==> old(allSum) == 0.0)
    {
      ghost var wasClear := BordersZero(n, gammas[..]) && rows[0] == 0.0 && rows[n + 1] == 0.0;
      var i := 0;
      while i < n
        invariant 0 <= i <= n
        invariant RowsLaidOut(n, g, gammas[..], i)
        invariant forall p :: 0 <= p < Cells(n) && !Interior(n, p) ==> gammas[p] == old(gammas[p])
        invariant forall i' :: 0 <= i' < i ==> rows[i' + 1] == LogicalRowSum(n, g, i')
        invariant forall r :: 0 <= r < Aligned(n) && (r == 0 || i < r) ==> rows[r] == old(rows[r])
        invariant allSum == old(allSum) + Sum(rows[1..i + 1])
      {
        ghost var before := gammas[..];
        var sum := FillRow(g, i);
        LaidOutExtend(n, g, before, gammas[..], i);
        StoreRowTotal(rows[..], i, sum);
        rows[i + 1] := sum;
        allSum := allSum + sum;
        i := i + 1;
      }
      LaidOutTransf(n, g, gammas[..]);
      if wasClear {
        FilledRowsAgree(n, g, gammas[..], rows[..]);
      }
    }

    /** The inner loop of `FillGammas` for logical row i: its weights to
        padded cells (i + 1) * A + 1 .. (i + 1) * A + n, returning their
        total. */
    method FillRow(g: seq<real>, i: int) returns (sum: real)
      requires Shape() && |g| == n * n && 0 <= i < n
      modifies gammas
      ensures sum == LogicalRowSum(n, g, i)
      ensures RowLaidOut(n, g, gammas[..], i + 1)
      ensures forall p :: 0 <= p < Cells(n) && !Interior(n, p) ==> gammas[p] == old(gammas[p])
      ensures forall p :: 0 <= p < Cell(n, i + 1, 0) && p < Cells(n) ==> gammas[p] == old(gammas[p])
    {
      LogicalRowBounds(n, i);
      RowSpan(n, i + 1);
      ghost var lo, first := Cell(n, i + 1, 0), LogicalIndex(n, i, 0);
      sum := 0.0;
      var j := 0;
      while j < n
        invariant 0 <= j <= n
        invariant sum == SumRange(g, first, first + j)
        invariant forall q :: lo < q <= lo + j ==> gammas[q] == g[first + (q - lo) - 1]
        invariant forall p :: 0 <= p < Cells(n) && !(lo < p <= lo + j) ==> gammas[p] == old(gammas[p])
      {
        // the source's (i + 1) * A + 1 + j and i * N + j
        assert Cell(n, i + 1, j + 1) == lo + j + 1 && LogicalIndex(n, i, j) == first + j;
        gammas[Cell(n, i + 1, j + 1)] := g[LogicalIndex(n, i, j)];
        sum := sum + g[LogicalIndex(n, i, j)];
        j := j + 1;
      }
      SumRangeSlice(g, first, first + n);
      RowFromBase(n, g, gammas[..], i + 1);
      BoardRowInterior(n, i + 1);
    }

    /** `Change(normal_position, new_gammas, bool)`: weight 0 on p, w[d] on
        the neighbour in direction d, and only the totals of rows R - 1, R
        and R + 1 (R = normal_rows[p]) and the grand total repaired, by
        subtracting the old weights and adding the new.  On a board cell the
        repair is exact, so the invariant is kept. */
    method ChangeCell(p: int, w: seq<real>)
      requires Shape() && t.Filled() && HasNeighbours(n, p) && |w| == 6
      modifies gammas, rows, this`allSum
      ensures gammas[..] == NewWeights(n, old(gammas[..]), p, w)
      ensures forall r :: 0 <= r < Aligned(n) && (r < p / Aligned(n) - 1 || p / Aligned(n) + 1 < r) ==>
        rows[r] == old(rows[r])
      ensures allSum - old(allSum) == Sum(rows[..]) - Sum(old(rows[..]))
      ensures Interior(n, p) ==> forall r :: 0 <= r < Aligned(n) ==>
        rows[r] - old(rows[r]) == RowSum(n, gammas[..], r) - RowSum(n, old(gammas[..]), r)
      ensures old(Valid()) && Interior(n, p) ==> Valid()
      ensures Interior(n, p) && old(BordersZero(n, gammas[..])) ==>
        (BordersZero(n, gammas[..]) <==> forall d :: 0 <= d < 6 && IsBorder(n, Neighbour(n, p, d)) ==> w[d] == 0.0)
      ensures Interior(n, p) && old(NonNegative(gammas[..])) ==>
        (NonNegative(gammas[..]) <==> forall d :: 0 <= d < 6 ==> w[d] >= 0.0)
    {
      ghost var g0 := gammas[..];
      var a := Aligned(n);
      var row := t.normalRows[p];
      assert row == p / a && 1 <= row < a - 1 by {
        RowColInRange(n, p);
        RowColOf(n, p);
        RowInRange(n, p / a, p % a);
      }
      allSum := allSum - (rows[row - 1] + rows[row + 1] + rows[row]);
      ChangeRows(p, row, w);
      allSum := allSum + (rows[row - 1] + rows[row + 1] + rows[row]);
      if Interior(n, p) {
        NewWeightsBordersZero(n, g0, p, w);
        NewWeightsNonNegative(n, g0, p, w);
      }
    }

    /** The three blocks of `Change` on padded cell p of padded row `row`,
        without the grand total: see `ChangeRepair`. */
    method ChangeRows(p: int, row: int, w: seq<real>)
      requires Shape() && HasNeighbours(n, p) && |w| == 6 && row == p / Aligned(n) && 1 <= row < Aligned(n) - 1
      modifies gammas, rows
      ensures gammas[..] == NewWeights(n, old(gammas[..]), p, w)
      ensures forall r :: 0 <= r < Aligned(n) && (r < row - 1 || row + 1 < r) ==> rows[r] == old(rows[r])
      ensures Sum(rows[..]) - Sum(old(rows[..])) ==
        (rows[row - 1] + rows[row + 1] + rows[row]) - (old(rows[row - 1]) + old(rows[row + 1]) + old(rows[row]))
      ensures Interior(n, p) ==> forall r :: 0 <= r < Aligned(n) ==>
        rows[r] - old(rows[r]) == RowSum(n, gammas[..], r) - RowSum(n, old(gammas[..]), r)
    {
      ghost var g0, rows0 := gammas[..], rows[..];
      ChangeRowAbove(p, row, w);
      ghost var g1, rows1 := gammas[..], rows[..];
      ChangeRowBelow(p, row, w);
      ghost var g2, rows2 := gammas[..], rows[..];
      ChangeOwnRow(p, row, w);
      ChangeRepair(n, g0, g1, g2, gammas[..], rows0, rows1, rows2, rows[..], Aligned(n), p, row, w);
    }

    /** Row R - 1 of `Change`: subtract the old weights of p - A + 1 and
        p - A from its total, write w[0] and w[5] there and add them. */
    method ChangeRowAbove(p: int, row: int, w: seq<real>)
      requires Shape() && |w| == 6 && 1 <= row < Aligned(n) - 1
      requires Aligned(n) <= p < Cells(n) - Aligned(n)
      modifies gammas, rows
      ensures var a := Aligned(n);
        gammas[..] == old(gammas[..])[p - a + 1 := w[0]][p - a := w[5]]
      ensures var a := Aligned(n);
        rows[..] == old(rows[..])[row - 1 := old(rows[..])[row - 1] - (old(gammas[..])[p - a + 1] + old(gammas[..])[p - a]) + (w[0] + w[5])]
    {
      var a := Aligned(n);
      rows[row - 1] := rows[row - 1] - (gammas[p - a + 1] + gammas[p - a]);
      gammas[p - a + 1] := w[0];
      gammas[p - a] := w[5];
      rows[row - 1] := rows[row - 1] + (w[0] + w[5]);
    }

    /** Row R + 1 of `Change`: the same for p + A and p + A - 1 with w[2]
        and w[3]. */
    method ChangeRowBelow(p: int, row: int, w: seq<real>)
      requires Shape() && |w| == 6 && 1 <= row < Aligned(n) - 1
      requires Aligned(n) <= p < Cells(n) - Aligned(n)
      modifies gammas, rows
      ensures var a := Aligned(n);
        gammas[..] == old(gammas[..])[p + a := w[2]][p + a - 1 := w[3]]
      ensures var a := Aligned(n);
        rows[..] == old(rows[..])[row + 1 := old(rows[..])[row + 1] - (old(gammas[..])[p + a] + old(gammas[..])[p + a - 1]) + (w[2] + w[3])]
    {
      var a := Aligned(n);
      rows[row + 1] := rows[row + 1] - (gammas[p + a] + gammas[p + a - 1]);
      gammas[p + a] := w[2];
      gammas[p + a - 1] := w[3];
      rows[row + 1] := rows[row + 1] + (w[2] + w[3]);
    }

    /** Row R of `Change`: the same for p + 1, p and p - 1 with w[1], 0 and
        w[4]. */
    method ChangeOwnRow(p: int, row: int, w: seq<real>)
      requires Shape() && |w| == 6 && 1 <= row < Aligned(n) - 1
      requires Aligned(n) <= p < Cells(n) - Aligned(n)
      modifies gammas, rows
      ensures gammas[..] == old(gammas[..])[p + 1 := w[1]][p := 0.0][p - 1 := w[4]]
      ensures rows[..] == old(rows[..])[row := old(rows[..])[row] - (old(gammas[..])[p + 1] + old(gammas[..])[p] + old(gammas[..])[p - 1]) + (w[1] + 0.0 + w[4])]
    {
      rows[row] := rows[row] - (gammas[p + 1] + gammas[p] + gammas[p - 1]);
      gammas[p + 1] := w[1];
      gammas[p] := 0.0;
      gammas[p - 1] := w[4];
      rows[row] := rows[row] + (w[1] + 0.0 + w[4]);
    }

    /** `Change(position, new_gammas)`: the move on logical cell k. */
    method ChangeAt(k: int, w: seq<real>)
      requires Shape() && t.Filled() && 0 <= k < n * n && |w| == 6
      modifies gammas, rows, this`allSum
      ensures gammas[..] == NewWeights(n, old(gammas[..]), Transf(n, k), w)
      ensures allSum - old(allSum) == Sum(rows[..]) - Sum(old(rows[..]))
      ensures old(Valid()) ==> Valid()
    {
      ChangeCell(t.transf[k], w);
    }

    /** `Change(row, column, new_gammas)`: the move on board row `row`,
        column `column` (both from 0), through the logical index
        row * n + column. */
    method ChangeRowColumn(row: int, column: int, w: seq<real>)
      requires Shape() && t.Filled() && 0 <= row < n && 0 <= column < n && |w| == 6
      modifies gammas, rows, this`allSum
      ensures Interior(n, Cell(n, row + 1, column + 1))
      ensures gammas[..] == NewWeights(n, old(gammas[..]), Cell(n, row + 1, column + 1), w)
      ensures old(Valid()) ==> Valid()
    {
      TransfOfLogical(n, row, column);
      ChangeAt(LogicalIndex(n, row, column), w);
    }

    /** `Change(position, new_gammas)` for a move written as text. */
    method ChangeText(position: string, w: seq<real>)
      requires Shape() && t.Filled() && ParsableText(position) && ParsePosition(n, position) < n * n
      requires |w| == 6
      modifies gammas, rows, this`allSum
      ensures gammas[..] == NewWeights(n, old(gammas[..]), Transf(n, ParsePosition(n, position)), w)
      ensures old(Valid()) ==> Valid()
    {
      ChangeAt(ParsePosition(n, position), w);
    }

    /** Every row total is its row's weight, and the grand total is the
        total of the rows. */
    ghost predicate Valid()
      reads this, t, gammas, rows
    {
      Shape() && RowSumsAgree(n, gammas[..], rows[..]) && allSum == Sum(rows[..])
    }

    /** `Random` with the scaled random number r (0 <= r < all_sum in the
        source) as a parameter: scan the row totals of rows 1 .. n, then the
        weights of the row found.  The scans read only the row totals and the
        weights, never `all_sum`, so the selection holds whenever the row
        totals agree with the weights, even after a second `FillGammas` has
        grown `all_sum`.  A value below the total of the rows selects the
        logical index of the board cell owning it; a value at or above it
        falls through both scans. */
    method Random(r: real) returns (k: int)
      requires Shape() && RowSumsAgree(n, gammas[..], rows[..]) && 0.0 <= r
      ensures BordersZero(n, gammas[..]) && r < Sum(rows[..]) ==>
        0 <= k < n * n && Owns(gammas[..], Transf(n, k), r)
      ensures BordersZero(n, gammas[..]) && NonNegative(gammas[..]) && Sum(rows[..]) <= r ==>
        k == n * n + n
    {
      ghost var g, rs := gammas[..], rows[..];
      var x := r;
      var i := 1;
      // the source's `if (r < _rows[i]) break;` as part of the loop guard
      while i <= n && !(x < rows[i])
        invariant 1 <= i <= n + 1
        invariant x == r - SumRange(rs, 1, i) && 0.0 <= x
      {
        x := x - rows[i];
        i := i + 1;
      }
      SumRangeSlice(rs, 1, i);
      RowSpan(n, i);
      // the source's k = i * A
      var base := Cell(n, i, 0);
      ghost var x1 := x;
      var j := 1;
      while j <= n && !(x < gammas[base + j])
        invariant 1 <= j <= n + 1
        invariant x == x1 - SumRange(g, base + 1, base + j) && 0.0 <= x
      {
        x := x - gammas[base + j];
        j := j + 1;
      }
      SumRangeSlice(g, base + 1, base + j);
      k := (i - 1) * n + j - 1;
      assert RowScanStopped(n, g, rs, r, i, base, j);
      ScanResult(n, g, rs, r, i, j, k);
    }
  }
}
