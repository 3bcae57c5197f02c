/** The padded board: an N x N Hex board stored row-major in an (N+2) x (N+2)
    array whose outer ring of guard cells lets every board cell reach its six
    neighbours without bounds checks. */
module Geometry {

  /** Side of the padded grid (kBoardSizeAligned). */
  function Aligned(n: nat): nat { n + 2 }

  /** Number of padded cells. */
  function Cells(n: nat): nat { Aligned(n) * Aligned(n) }

  /** Padded index of the cell in padded row `row`, padded column `col`. */
  function Cell(n: nat, row: int, col: int): int { row * Aligned(n) + col }

  /** A board (non-guard) cell: padded rows and columns 1 .. n. */
  predicate Interior(n: nat, p: int) {
    var a := Aligned(n);
    a <= p < Cells(n) - a && p % a != 0 && p % a != a - 1
  }

  /** A guard cell: padded row 0 or n+1, or padded column 0 or n+1. */
  predicate IsBorder(n: nat, p: int) {
    0 <= p < Cells(n) && !Interior(n, p)
  }

  /** Padded indices whose six neighbours are all inside the array. */
  predicate HasNeighbours(n: nat, c: int) {
    Aligned(n) <= c < Cells(n) - Aligned(n)
  }

  /** The six hex neighbours of padded cell p, in the one direction order
      that both the pattern hash and the sampler use. */
  function Neighbour(n: nat, p: int, d: nat): int
    requires d < 6
  {
    var a := Aligned(n);
    match d
    case 0 => p - a + 1
    case 1 => p + 1
    case 2 => p + a
    case 3 => p + a - 1
    case 4 => p - 1
    case _ => p - a
  }

  /** The direction that leads back: Neighbour(Neighbour(p, d), Opposite(d)) == p. */
  function Opposite(d: nat): (e: nat)
    requires d < 6
    ensures e < 6
  {
    (d + 3) % 6
  }

  /** The base-4 positional multiplier of direction d: 4^d. */
  function DirectionWeight(d: nat): nat
    requires d < 6
  {
    match d
    case 0 => 1
    case 1 => 4
    case 2 => 16
    case 3 => 64
    case 4 => 256
    case _ => 1024
  }

  /** Stepping to a neighbour and back in the opposite direction returns to p;
      the two directions' offsets cancel. */
  lemma NeighbourOpposite(n: nat, p: int, d: nat)
    requires d < 6
    ensures Neighbour(n, Neighbour(n, p, d), Opposite(d)) == p
    ensures Neighbour(n, p, d) != p
  {
  }

  /** q is the neighbour of p in direction d exactly when p is the neighbour
      of q in the opposite direction. */
  lemma NeighbourSymmetric(n: nat, p: int, q: int, d: nat)
    requires d < 6
    ensures Neighbour(n, q, d) == p <==> q == Neighbour(n, p, Opposite(d))
  {
  }

  /** The six neighbours of a cell are pairwise distinct. */
  lemma NeighboursDistinct(n: nat, p: int, d: nat, e: nat)
    requires n >= 1 && d < 6 && e < 6 && d != e
    ensures Neighbour(n, p, d) != Neighbour(n, p, e)
  {
  }

  /** Every neighbour of a board cell lies inside the padded array. */
  lemma InteriorNeighboursInRange(n: nat, p: int, d: nat)
    requires Interior(n, p) && d < 6
    ensures 0 <= Neighbour(n, p, d) < Cells(n)
  {
  }

  // ---------------------------------------------------------------------------
  // Row-major index arithmetic

  /** A product of non-negative numbers is non-negative. */
  lemma MulNonNeg(x: int, y: int)
    requires 0 <= x && 0 <= y
    ensures 0 <= x * y
  {
  }

  /** Multiplication by a non-negative number is monotone. */
  lemma MulMonotone(x: int, y: int, m: int)
    requires x <= y && 0 <= m
    ensures x * m <= y * m
  {
    MulNonNeg(y - x, m);
    assert (y - x) * m == y * m - x * m;
  }

  /** Row-major indices of an h x w table lie in 0 .. h*w - 1. */
  lemma RowMajorBound(w: int, h: int, r: int, c: int)
    requires 0 <= r < h && 0 <= c < w
    ensures 0 <= r * w + c < h * w
  {
    MulNonNeg(h - 1 - r, w);
    MulNonNeg(r, w);
    assert (h - 1 - r) * w == h * w - w - r * w;
  }

  /** Row-major order: an earlier row comes first whatever the columns. */
  lemma RowMajorOrder(w: int, r: int, c: int, r': int, c': int)
    requires r < r' && 0 <= c < w && 0 <= c' < w
    ensures r * w + c < r' * w + c'
  {
    MulNonNeg(r' - r - 1, w);
    assert (r' - r - 1) * w == r' * w - r * w - w;
  }

  /** Euclidean division recovers the row and the column of a row-major index. */
  lemma {:induction false} DivModOfCell(a: int, r: int, c: int)
    requires a > 0 && 0 <= c < a
    ensures (r * a + c) / a == r
    ensures (r * a + c) % a == c
  {
    var q, m := (r * a + c) / a, (r * a + c) % a;
    assert r * a + c == q * a + m;
    assert (r - q) * a == m - c;
    if r - q >= 1 {
    } else if r - q <= -1 {
    }
  }

  /** Row and column of padded cell p, and p rebuilt from them. */
  lemma RowColOf(n: nat, p: int)
    ensures p == Cell(n, p / Aligned(n), p % Aligned(n))
    ensures 0 <= p % Aligned(n) < Aligned(n)
  {
  }

  /** The padded array holds Aligned(n) full rows. */
  lemma {:induction false} RowInRange(n: nat, r: int, c: int)
    requires 0 <= r < Aligned(n) && 0 <= c < Aligned(n)
    ensures 0 <= Cell(n, r, c) < Cells(n)
    ensures Cell(n, r, c) < Cells(n) - Aligned(n) <==> r < Aligned(n) - 1
    ensures Aligned(n) <= Cell(n, r, c) <==> 1 <= r
  {
    var a := Aligned(n);
    var t := Cells(n);
    MulNonNeg(r, a);
    // r * a is 0 on row 0, at least a on the other rows
    if 1 <= r {
      MulMonotone(1, r, a);
    }
    // r * a is at most (a - 2) * a = t - 2a before the last row, and equals
    // (a - 1) * a = t - a on it
    MulDistributesLeft(a, 1, a);
    MulDistributesLeft(a, 2, a);
    if r < a - 1 {
      MulMonotone(r, a - 2, a);
    } else {
      assert r == a - 1;
    }
  }

  /** (a - k) * m == a * m - k * m. */
  lemma MulDistributesLeft(a: int, k: int, m: int)
    ensures (a - k) * m == a * m - k * m
  {
  }

  /** A cell given by padded row and column is a board cell exactly when both
      lie in 1 .. n. */
  lemma CellInterior(n: nat, r: int, c: int)
    requires 0 <= r < Aligned(n) && 0 <= c < Aligned(n)
    ensures Interior(n, Cell(n, r, c)) <==> 1 <= r <= n && 1 <= c <= n
    ensures Cell(n, r, c) / Aligned(n) == r && Cell(n, r, c) % Aligned(n) == c
  {
    DivModOfCell(Aligned(n), r, c);
    RowInRange(n, r, c);
  }

  /** Padded row and column of any padded index. */
  lemma RowColInRange(n: nat, p: int)
    requires 0 <= p < Cells(n)
    ensures 0 <= p / Aligned(n) < Aligned(n) && 0 <= p % Aligned(n) < Aligned(n)
    ensures Interior(n, p) <==> 1 <= p / Aligned(n) <= n && 1 <= p % Aligned(n) <= n
  {
    var a := Aligned(n);
    var r, c := p / a, p % a;
    RowColOf(n, p);
    if r < 0 {
    } else if r >= a {
    }
    CellInterior(n, r, c);
  }

  /** Padded row i occupies the indices i * A .. (i + 1) * A - 1; every p
      there has row i and column p - i * A. */
  lemma PaddedRow(n: nat, i: int)
    requires 0 <= i < Aligned(n)
    ensures Cell(n, i, 0) == i * Aligned(n) && Cell(n, i, Aligned(n) - 1) == (i + 1) * Aligned(n) - 1
    ensures 0 <= Cell(n, i, 0) && Cell(n, i, 0) + Aligned(n) == Cell(n, i + 1, 0) <= Cells(n)
    ensures i == 0 <==> Cell(n, i, 0) < Aligned(n)
    ensures i == Aligned(n) - 1 <==> Cells(n) - Aligned(n) <= Cell(n, i, 0)
    ensures forall p :: Cell(n, i, 0) <= p < Cell(n, i + 1, 0) ==>
      p / Aligned(n) == i && p % Aligned(n) == p - Cell(n, i, 0)
  {
    var a := Aligned(n);
    RowInRange(n, i, 0);
    RowInRange(n, i, a - 1);
    forall p | Cell(n, i, 0) <= p < Cell(n, i + 1, 0)
      ensures p / a == i && p % a == p - Cell(n, i, 0)
    {
      DivModOfCell(a, i, p - Cell(n, i, 0));
    }
  }

  /** The linear facts about where padded row i starts and ends. */
  lemma RowSpan(n: nat, i: int)
    requires 0 <= i < Aligned(n)
    ensures 0 <= Cell(n, i, 0) && Cell(n, i, 0) + Aligned(n) == Cell(n, i + 1, 0) <= Cells(n)
    ensures i == 0 <==> Cell(n, i, 0) < Aligned(n)
    ensures i == Aligned(n) - 1 <==> Cells(n) - Aligned(n) <= Cell(n, i, 0)
  {
    RowInRange(n, i, 0);
    RowInRange(n, i, Aligned(n) - 1);
  }

  /** Cells of one padded row are consecutive. */
  lemma CellShift(n: nat, r: int, c: int)
    ensures Cell(n, r, c) == Cell(n, r, 0) + c
  {
  }

  /** Where padded row r starts relative to the start of padded row `row`:
      one row length before or after for the adjacent rows, further away
      for every other row. */
  lemma RowsAround(n: nat, r: int, row: int)
    ensures r == row <==> Cell(n, r, 0) == Cell(n, row, 0)
    ensures r == row - 1 <==> Cell(n, r, 0) == Cell(n, row, 0) - Aligned(n)
    ensures r == row + 1 <==> Cell(n, r, 0) == Cell(n, row, 0) + Aligned(n)
    ensures r < row - 1 ==> Cell(n, r, 0) + Aligned(n) <= Cell(n, row, 0) - Aligned(n)
    ensures row + 1 < r ==> Cell(n, row, 0) + 2 * Aligned(n) <= Cell(n, r, 0)
  {
    var a, d := Aligned(n), r - row;
    MulDistributesLeft(r, row, a);
    assert Cell(n, r, 0) - Cell(n, row, 0) == d * a;
    if d <= -2 {
      MulMonotone(d, -2, a);
    } else if d >= 2 {
      MulMonotone(2, d, a);
    } else {
      assert d == -1 || d == 0 || d == 1;
    }
  }
}
