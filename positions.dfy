/** Board coordinates: text such as "c10" to a logical (row-major, 0-based)
    cell index, and the two lookup tables between logical and padded indices. */
module Positions {
  import opened Geometry

  const TwoTo32: nat := 0x1_0000_0000

  /** Conversion to a 32-bit unsigned integer (C++ `uint`): wrap modulo 2^32. */
  function U32(x: int): (r: nat)
    ensures r < TwoTo32
    ensures 0 <= x < TwoTo32 ==> r == x
  {
    x % TwoTo32
  }

  /** Logical index of 0-based (row, column) on the n x n board. */
  function LogicalIndex(n: nat, row: int, col: int): int { row * n + col }

  /** Padded index of logical cell k: the contents FillArrays gives `transf`. */
  function Transf(n: nat, k: int): (p: int)
    requires n >= 1
    ensures 0 <= k < n * n ==> Interior(n, p)
  {
    LogicalCellInterior(n, k);
    Cell(n, k / n + 1, k % n + 1)
  }

  /** Logical cell k lies in board row k / n + 1 and column k % n + 1. */
  lemma LogicalCellInterior(n: nat, k: int)
    requires n >= 1
    ensures 0 <= k < n * n ==> Interior(n, Cell(n, k / n + 1, k % n + 1))
  {
    if 0 <= k < n * n {
      var i, j := k / n, k % n;
      assert k == i * n + j;
      if i >= n {
        RowMajorOrder(n, n - 1, n - 1, i, j);
        RowMajorBound(n, n, n - 1, n - 1);
      }
      CellInterior(n, i + 1, j + 1);
    }
  }

  // ---------------------------------------------------------------------------
  // ParsePosition

  /** The characters ParsePosition reads: the letter and one or two digits. */
  function ReadLength(s: string): nat { if |s| == 2 then 2 else 3 }

  /** The parser reads each character as a (non-negative, ASCII) C++ char. */
  predicate ParsableText(s: string) {
    |s| >= 2 && forall k | 0 <= k < ReadLength(s) :: s[k] < 128 as char
  }

  /** Column letter of the text, 0-based from 'a'. */
  function ColumnOf(s: string): int
    requires |s| >= 1
  {
    s[0] as int - 'a' as int
  }

  /** Row number of the text, 1-based, read as one or two decimal digits. */
  function RowOf(s: string): int
    requires ParsableText(s)
  {
    if |s| == 2 then s[1] as int - '0' as int
    else (s[1] as int - '0' as int) * 10 + s[2] as int - '0' as int
  }

  /** `ParsePosition`: letter and digits to a logical index, computed in
      unsigned 32-bit arithmetic and without any validation. */
  function ParsePosition(n: nat, s: string): (r: nat)
    requires ParsableText(s)
    ensures r < TwoTo32
    ensures r == U32((RowOf(s) - 1) * n + ColumnOf(s))
  {
    var column := U32(s[0] as int - 'a' as int);
    var row := U32(if |s| == 2 then s[1] as int - '0' as int
                   else (s[1] as int - '0' as int) * 10 + s[2] as int - '0' as int);
    ModArith(row, RowOf(s), column, ColumnOf(s), n);
    U32((row - 1) * n + column)
  }

  /** Reduction modulo 2^32 commutes with the index arithmetic. */
  lemma ModArith(row: int, rowRaw: int, column: int, columnRaw: int, n: nat)
    requires row == U32(rowRaw) && column == U32(columnRaw)
    ensures U32((row - 1) * n + column) == U32((rowRaw - 1) * n + columnRaw)
  {
    var kr, kc := rowRaw / TwoTo32, columnRaw / TwoTo32;
    assert rowRaw == row + kr * TwoTo32;
    assert columnRaw == column + kc * TwoTo32;
    var x := (row - 1) * n + column;
    var m := kr * n + kc;
    assert (rowRaw - 1) * n == (row - 1) * n + (kr * TwoTo32) * n;
    assert (kr * TwoTo32) * n == (kr * n) * TwoTo32;
    assert (rowRaw - 1) * n + columnRaw == x + m * TwoTo32;
    U32Shift(x, m);
  }

  /** Adding a multiple of 2^32 does not change the reduction. */
  lemma U32Shift(x: int, m: int)
    ensures U32(x + m * TwoTo32) == U32(x)
  {
    var q := x / TwoTo32;
    assert x + m * TwoTo32 == (q + m) * TwoTo32 + x % TwoTo32;
    DivModOfCell(TwoTo32, q + m, x % TwoTo32);
  }

  predicate IsDigit(c: char) { '0' <= c <= '9' }

  /** Text naming a board cell: a letter of the board's columns, then a row
      1 .. n written with one or two decimal digits. */
  predicate WellFormedText(n: nat, s: string) {
    (|s| == 2 || |s| == 3) && 'a' <= s[0] && (s[0] as int) < 'a' as int + n && s[0] < 128 as char
    && (forall k | 1 <= k < |s| :: IsDigit(s[k]))
    && 1 <= RowOf(s) <= n
  }

  /** On well-formed text the parse is the logical index of (row - 1, column),
      the row read as d or as 10 * d1 + d2, and it names a board cell. */
  lemma ParsePositionWellFormed(n: nat, s: string)
    requires WellFormedText(n, s) && n < 0x1_0000
    ensures ParsableText(s)
    ensures |s| == 2 ==> RowOf(s) == s[1] as int - '0' as int
    ensures |s| == 3 ==> RowOf(s) == 10 * (s[1] as int - '0' as int) + (s[2] as int - '0' as int)
    ensures ParsePosition(n, s) == LogicalIndex(n, RowOf(s) - 1, ColumnOf(s))
    ensures ParsePosition(n, s) < n * n
  {
    assert ParsableText(s);
    var row, col := RowOf(s) - 1, ColumnOf(s);
    assert 0 <= row < n && 0 <= col < n;
    RowMajorBound(n, n, row, col);
    assert n * n < TwoTo32 by {
      MulNonNeg(n, 0x1_0000 - n);
      MulNonNeg(0x1_0000, 0x1_0000 - n);
    }
  }

  /** Distinct cells of the board get distinct logical indices. */
  lemma LogicalIndexInjective(n: nat, row: int, col: int, row': int, col': int)
    requires 0 <= col < n && 0 <= col' < n
    requires LogicalIndex(n, row, col) == LogicalIndex(n, row', col')
    ensures row == row' && col == col'
  {
    DivModOfCell(n, row, col);
    DivModOfCell(n, row', col');
  }

  /** The decimal text of a row number 1 .. 99. */
  function RowText(r: nat): (s: string)
    requires 1 <= r <= 99
    ensures 1 <= |s| <= 2 && forall k | 0 <= k < |s| :: IsDigit(s[k])
  {
    if r < 10 then [('0' as int + r) as char]
    else [('0' as int + r / 10) as char, ('0' as int + r % 10) as char]
  }

  /** The text naming 0-based (row, col): its letter, then its 1-based row. */
  function PositionText(row: nat, col: nat): string
    requires row < 99 && col < 26
  {
    [('a' as int + col) as char] + RowText(row + 1)
  }

  /** Text coordinates round-trip: parsing the text of (row, col) gives the
      logical index of (row, col). */
  lemma PositionTextRoundTrip(n: nat, row: nat, col: nat)
    requires row < n < 0x1_0000 && col < n && row < 99 && col < 26
    ensures WellFormedText(n, PositionText(row, col))
    ensures ParsePosition(n, PositionText(row, col)) == LogicalIndex(n, row, col)
  {
    var s := PositionText(row, col);
    assert RowOf(s) == row + 1;
    ParsePositionWellFormed(n, s);
  }

  /** No validation: row "0" wraps around to 2^32 - n. */
  lemma RowZeroWraps(n: nat)
    requires 1 <= n < TwoTo32
    ensures ParsableText("a0") && ParsePosition(n, "a0") == TwoTo32 - n
  {
    assert RowOf("a0") == 0 && ColumnOf("a0") == 0;
  }

  /** No validation: a column letter one past the board names the first cell
      of the next row (for every board whose column letters stay within
      'a' .. 'z'). */
  lemma ColumnPastBoardAliases(n: nat)
    requires 1 <= n <= 25
    ensures ParsableText([('a' as int + n) as char, '1'])
    ensures ParsePosition(n, [('a' as int + n) as char, '1']) == ParsePosition(n, "a2") == n
  {
    var s := [('a' as int + n) as char, '1'];
    assert RowOf(s) == 1 && ColumnOf(s) == n;
    assert RowOf("a2") == 2 && ColumnOf("a2") == 0;
  }

  // ---------------------------------------------------------------------------
  // The two lookup tables

  /** The padded row and column of logical cell k are its logical row and
      column plus one. */
  lemma TransfProperties(n: nat, k: int)
    requires n >= 1 && 0 <= k < n * n
    ensures Transf(n, k) / Aligned(n) == k / n + 1
    ensures Transf(n, k) % Aligned(n) == k % n + 1
  {
    var i, j := k / n, k % n;
    assert k == i * n + j;
    if i >= n {
      RowMajorOrder(n, n - 1, n - 1, i, j);
      RowMajorBound(n, n, n - 1, n - 1);
    }
    CellInterior(n, i + 1, j + 1);
  }

  /** Board row `row`, column `col` (from 0) has a logical index on the
      board, and `transf` maps it to padded row row + 1, column col + 1. */
  lemma TransfOfLogical(n: nat, row: int, col: int)
    requires 0 <= row < n && 0 <= col < n
    ensures 0 <= LogicalIndex(n, row, col) < n * n
    ensures Transf(n, LogicalIndex(n, row, col)) == Cell(n, row + 1, col + 1)
  {
    RowMajorBound(n, n, row, col);
    DivModOfCell(n, row, col);
  }

  /** `transf` is strictly increasing, hence injective. */
  lemma TransfIncreasing(n: nat, k: int, k': int)
    requires n >= 1 && 0 <= k < k' < n * n
    ensures Transf(n, k) < Transf(n, k')
  {
    var a := Aligned(n);
    var i, j, i', j' := k / n, k % n, k' / n, k' % n;
    assert k == i * n + j && k' == i' * n + j';
    if i' < i {
      RowMajorOrder(n, i', j', i, j);
    } else if i < i' {
      RowMajorOrder(a, i + 1, j + 1, i' + 1, j' + 1);
    }
  }

  /** The coordinate tables: `transf` (logical index to padded index) and
      `normalRows` (padded index to padded row). */
  class Tables {
    const n: nat
    const transf: array<int>
    const normalRows: array<int>

    /** The two tables have their sizes and are separate arrays. */
    ghost predicate Shape()
      reads this
    {
      n >= 1 && transf.Length == n * n && normalRows.Length == Cells(n) && transf != normalRows
    }

    /** The contents FillArrays establishes. */
    ghost predicate Filled()
      reads this, transf, normalRows
    {
      Shape()
      && (forall k :: 0 <= k < n * n ==> transf[k] == Transf(n, k))
      && (forall p :: 0 <= p < Cells(n) ==> normalRows[p] == p / Aligned(n))
    }

    /** Zero-initialised tables, as static storage starts. */
    constructor (n: nat)
      requires n >= 1
      ensures this.n == n && Shape() && fresh(transf) && fresh(normalRows)
      ensures forall k :: 0 <= k < transf.Length ==> transf[k] == 0
      ensures forall p :: 0 <= p < normalRows.Length ==> normalRows[p] == 0
    {
      this.n := n;
      transf := new int[n * n](_ => 0);
      normalRows := new int[Cells(n)](_ => 0);
    }

    /** `FillArrays`: fills both tables with nested index loops. Its result
        depends on n alone, so a second call changes nothing. */
    method FillArrays()
      requires Shape()
      modifies transf, normalRows
      ensures Filled()
      ensures old(Filled()) ==> transf[..] == old(transf[..]) && normalRows[..] == old(normalRows[..])
    {
      ghost var wasFilled := Filled();
      ghost var oldTransf, oldRows := transf[..], normalRows[..];
      FillTransf();
      FillNormalRows();
      if wasFilled {
        assert forall k | 0 <= k < n * n :: transf[..][k] == oldTransf[k];
        assert forall p | 0 <= p < Cells(n) :: normalRows[..][p] == oldRows[p];
      }
    }

    /** First loop nest of FillArrays: transf[i * n + j] = (i + 1) * A + j + 1. */
    method FillTransf()
      requires Shape()
      modifies transf
      ensures forall k :: 0 <= k < n * n ==> transf[k] == Transf(n, k)
    {
      var a := Aligned(n);
      var i := 0;
      while i < n
        invariant 0 <= i <= n
        invariant i * n <= n * n
        invariant forall k :: 0 <= k < i * n ==> transf[k] == Transf(n, k)
      {
        var j := 0;
        MulMonotone(i + 1, n, n);
        while j < n
          invariant 0 <= j <= n
          invariant i * n + j <= n * n
          invariant forall k :: 0 <= k < i * n + j ==> transf[k] == Transf(n, k)
        {
          DivModOfCell(n, i, j);
          transf[i * n + j] := (i + 1) * a + j + 1;
          j := j + 1;
        }
        assert i * n + n == (i + 1) * n;
        i := i + 1;
      }
    }

    /** Second loop nest of FillArrays: normal_rows[i * A + j] = i. */
    method FillNormalRows()
      requires Shape()
      modifies normalRows
      ensures forall p :: 0 <= p < Cells(n) ==> normalRows[p] == p / Aligned(n)
    {
      var a := Aligned(n);
      var i := 0;
      while i < a
        invariant 0 <= i <= a
        invariant i * a <= a * a
        invariant forall p :: 0 <= p < i * a ==> normalRows[p] == p / a
      {
        var j := 0;
        MulMonotone(i + 1, a, a);
        while j < a
          invariant 0 <= j <= a
          invariant i * a + j <= a * a
          invariant forall p :: 0 <= p < i * a + j ==> normalRows[p] == p / a
        {
          DivModOfCell(a, i, j);
          normalRows[i * a + j] := i;
          j := j + 1;
        }
        assert i * a + a == (i + 1) * a;
        i := i + 1;
      }
    }

    /** `normal_rows[transf[k]]`: the padded row of logical cell k is its
        logical row plus one. */
    lemma RowOfLogicalCell(k: int)
      requires Filled() && 0 <= k < n * n
      ensures 0 <= transf[k] < normalRows.Length
      ensures normalRows[transf[k]] == k / n + 1
    {
      TransfProperties(n, k);
    }
  }
}
