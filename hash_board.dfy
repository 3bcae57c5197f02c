/** `HashBoard`: one pattern entry per padded cell, kept equal to the
    neighbourhood pattern of every board cell by O(1) additive updates. */
module HashBoards {
  import opened Geometry
  import opened Positions
  import opened Patterns

  /** The entries after the first border loop: GUARD on padded rows 0 and
      A-1, 0 elsewhere. */
  ghost function GuardedRows(n: nat): (r: seq<int>)
    ensures |r| == Cells(n)
  {
    seq(Cells(n), p => if p < Aligned(n) || Cells(n) - Aligned(n) <= p then Guard else Empty)
  }

  /** The played flags after the first border loop. */
  ghost function RowFlags(n: nat): (r: seq<bool>)
    ensures |r| == Cells(n)
  {
    seq(Cells(n), p => p < Aligned(n) || Cells(n) - Aligned(n) <= p)
  }

  /** A guard cell lies in column 0 or column A-1 of its row. */
  predicate EdgeColumn(n: nat, p: int) {
    p % Aligned(n) == 0 || p % Aligned(n) == Aligned(n) - 1
  }

  /** Board cells the constructor's `InitHash` loop has reached before round i:
      row 1 and columns 1 and n up to i - 1, row n from column n + 2 - i. */
  predicate EdgeReached(n: nat, p: int, i: int) {
    var r, c := p / Aligned(n), p % Aligned(n);
    (r == 1 && c < i) || (c == 1 && r < i) || (c == n && r < i) || (r == n && c > n + 1 - i)
  }

  /** Round i of the `InitHash` loop reaches exactly four more cells (fewer
      where they coincide at the corners): (1, i), (i, 1), (i, n) and
      (n, n + 1 - i). */
  lemma EdgeReachedStepAt(n: nat, i: int, p: int)
    requires 1 <= i <= n && 0 <= p < Cells(n)
    ensures EdgeReached(n, p, i + 1) <==> EdgeReached(n, p, i) || RoundCell(n, i, p)
  {
    var a := Aligned(n);
    RowColOf(n, p);
    CellInterior(n, 1, i);
    CellInterior(n, i, 1);
    CellInterior(n, i, n);
    CellInterior(n, n, n + 1 - i);
  }

  /** The four cells of round i are board cells, given by the source's
      index expressions. */
  lemma EdgeCells(n: nat, i: int)
    requires 1 <= i <= n
    ensures Cell(n, 1, i) == Aligned(n) + i && Interior(n, Cell(n, 1, i))
    ensures Cell(n, i, 1) == i * Aligned(n) + 1 && Interior(n, Cell(n, i, 1))
    ensures Cell(n, i, n) == (i + 1) * Aligned(n) - 2 && Interior(n, Cell(n, i, n))
    ensures Cell(n, n, n + 1 - i) == Cells(n) - Aligned(n) - 1 - i
    ensures Interior(n, Cell(n, n, n + 1 - i))
  {
    var a := Aligned(n);
    assert (i + 1) * a == i * a + a && n * a == a * a - 2 * a;
    CellInterior(n, 1, i);
    CellInterior(n, i, 1);
    CellInterior(n, i, n);
    CellInterior(n, n, n + 1 - i);
  }

  /** Entries after the rounds before round i of the `InitHash` loop:
      GUARD on guard cells, the empty-board pattern on the cells reached,
      0 on the other board cells. */
  ghost predicate EdgesDone(n: nat, h: seq<int>, i: int) {
    |h| == Cells(n)
    && forall p :: 0 <= p < Cells(n) ==>
      h[p] == (if !Interior(n, p) then Guard
               else if EdgeReached(n, p, i) then Pattern(n, InitialStones(n), p) else Empty)
  }

  /** Before the first round no board cell has been reached. */
  lemma EdgesStart(n: nat)
    ensures EdgesDone(n, InitialStones(n), 1)
  {
    forall p | 0 <= p < Cells(n) && Interior(n, p)
      ensures !EdgeReached(n, p, 1)
    {
    }
  }

  /** The entries after round i of the `InitHash` loop, from the entries h
      before it: the patterns (over colours s) of (1, i), (i, 1), (i, n) and
      (n, n + 1 - i) written in that order. */
  ghost function RoundUpdate(n: nat, i: int, s: seq<int>, h: seq<int>): (r: seq<int>)
    requires 1 <= i <= n && |s| == Cells(n) && |h| == Cells(n)
    ensures |r| == Cells(n)
  {
    EdgeCells(n, i);
    var q1, q2, q3, q4 := Cell(n, 1, i), Cell(n, i, 1), Cell(n, i, n), Cell(n, n, n + 1 - i);
    h[q1 := Pattern(n, s, q1)][q2 := Pattern(n, s, q2)][q3 := Pattern(n, s, q3)][q4 := Pattern(n, s, q4)]
  }

  /** The cells written in round i of the `InitHash` loop. */
  predicate RoundCell(n: nat, i: int, p: int) {
    p == Cell(n, 1, i) || p == Cell(n, i, 1) || p == Cell(n, i, n) || p == Cell(n, n, n + 1 - i)
  }

  /** Round i changes the entries of its four cells, to their patterns, and
      no other entry. */
  lemma RoundUpdateAt(n: nat, i: int, s: seq<int>, h: seq<int>, p: int)
    requires 1 <= i <= n && |s| == Cells(n) && |h| == Cells(n) && 0 <= p < Cells(n)
    ensures RoundCell(n, i, p) ==> Interior(n, p)
    ensures RoundUpdate(n, i, s, h)[p] == (if RoundCell(n, i, p) then Pattern(n, s, p) else h[p])
  {
    EdgeCells(n, i);
  }

  /** One round of the loop writes the patterns of the round's four cells. */
  lemma EdgesStep(n: nat, i: int, s: seq<int>, before: seq<int>, after: seq<int>)
    requires s == InitialStones(n) && 1 <= i <= n
    requires EdgesDone(n, before, i) && after == RoundUpdate(n, i, s, before)
    ensures EdgesDone(n, after, i + 1)
  {
    forall p | 0 <= p < Cells(n)
      ensures after[p] == (if !Interior(n, p) then Guard
                           else if EdgeReached(n, p, i + 1) then Pattern(n, InitialStones(n), p) else Empty)
    {
      RoundUpdateAt(n, i, s, before, p);
      EdgeReachedStepAt(n, i, p);
    }
  }

  /** After the last round every board cell holds its pattern: the cells
      never reached do not touch the border and have pattern 0. */
  lemma EdgesComplete(n: nat, h: seq<int>)
    requires EdgesDone(n, h, n + 1)
    ensures h == InitialHash(n)
  {
    forall p | 0 <= p < Cells(n)
      ensures h[p] == InitialHash(n)[p]
    {
      if Interior(n, p) && !EdgeReached(n, p, n + 1) {
        InnerCellPattern(n, p);
      }
    }
  }

  /** The neighbours of a board cell that does not touch the border are
      board cells. */
  lemma InnerNeighbourInterior(n: nat, r: int, c: int, d: nat)
    requires 2 <= r < n && 2 <= c < n && d < 6
    ensures Interior(n, Neighbour(n, Cell(n, r, c), d))
  {
    var a := Aligned(n);
    assert (r - 1) * a == r * a - a && (r + 1) * a == r * a + a;
    match d
    case 0 => CellInterior(n, r - 1, c + 1);
    case 1 => CellInterior(n, r, c + 1);
    case 2 => CellInterior(n, r + 1, c);
    case 3 => CellInterior(n, r + 1, c - 1);
    case 4 => CellInterior(n, r, c - 1);
    case _ => CellInterior(n, r - 1, c);
  }

  /** A board cell that does not touch the border has pattern 0 on an empty
      board: all six of its neighbours are empty board cells. */
  lemma InnerCellPattern(n: nat, p: int)
    requires Interior(n, p) && !EdgeReached(n, p, n + 1)
    ensures Pattern(n, InitialStones(n), p) == 0
  {
    RowColInRange(n, p);
    RowColOf(n, p);
    forall d | 0 <= d < 6
      ensures InitialStones(n)[Neighbour(n, p, d)] == Empty
    {
      InnerNeighbourInterior(n, p / Aligned(n), p % Aligned(n), d);
    }
  }

  /** Entries and played flags agree with the colours s: every board cell's
      entry is its pattern, and a cell is marked played exactly when it
      holds a stone or is a guard cell. */
  ghost predicate Consistent(n: nat, s: seq<int>, h: seq<int>, played: seq<bool>) {
    ValidStones(n, s) && |h| == Cells(n) && |played| == Cells(n)
    && FlagsAgree(n, s, played) && PatternsAgree(n, s, h)
  }

  /** Any colour on a valid board is 0 .. 3. */
  lemma StoneRange(n: nat, s: seq<int>, q: int)
    requires ValidStones(n, s) && 0 <= q < Cells(n)
    ensures 0 <= s[q] <= 3
  {
    if Interior(n, q) {
    } else {
    }
  }

  /** Under consistency a board cell's entry is its pattern: below 4^6,
      with base-4 digit d the colour of the neighbour in direction d. */
  lemma ConsistentEntry(n: nat, s: seq<int>, h: seq<int>, played: seq<bool>, c: int)
    requires Consistent(n, s, h, played) && Interior(n, c)
    ensures h[c] == Pattern(n, s, c) && 0 <= h[c] < 4096
    ensures forall d :: 0 <= d < 6 ==> Digit(h[c], d) == NeighbourColour(n, s, c, d)
  {
    InteriorNeighboursInRange(n, c, 0);
    InteriorNeighboursInRange(n, c, 1);
    InteriorNeighboursInRange(n, c, 2);
    InteriorNeighboursInRange(n, c, 3);
    InteriorNeighboursInRange(n, c, 4);
    InteriorNeighboursInRange(n, c, 5);
    StoneRange(n, s, Neighbour(n, c, 0));
    StoneRange(n, s, Neighbour(n, c, 1));
    StoneRange(n, s, Neighbour(n, c, 2));
    StoneRange(n, s, Neighbour(n, c, 3));
    StoneRange(n, s, Neighbour(n, c, 4));
    StoneRange(n, s, Neighbour(n, c, 5));
    PatternDigits(n, s, c);
  }

  /** The cells marked played are exactly the cells that are not empty. */
  ghost predicate FlagsAgree(n: nat, s: seq<int>, played: seq<bool>)
    requires |s| == Cells(n) && |played| == Cells(n)
  {
    forall p :: 0 <= p < Cells(n) ==> played[p] == (s[p] != Empty)
  }

  /** Every board cell's entry is its pattern. */
  ghost predicate PatternsAgree(n: nat, s: seq<int>, h: seq<int>)
    requires |s| == Cells(n) && |h| == Cells(n)
  {
    forall c {:trigger h[c]} :: Interior(n, c) ==> h[c] == Pattern(n, s, c)
  }

  /** The played flags of a fresh board: exactly the guard cells. */
  ghost function BorderFlags(n: nat): (r: seq<bool>)
    ensures |r| == Cells(n)
  {
    seq(Cells(n), p => !Interior(n, p))
  }

  /** Clearing the flag of a board cell leaves the border flags as they are. */
  lemma BoardFlagCleared(n: nat, q: int)
    requires Interior(n, q)
    ensures BorderFlags(n)[q := false] == BorderFlags(n)
  {
  }

  /** The entries of a fresh board: GUARD on guard cells, the empty-board
      pattern on board cells. */
  ghost function InitialHash(n: nat): (r: seq<int>)
    ensures |r| == Cells(n)
  {
    seq(Cells(n), p => if Interior(n, p) then Pattern(n, InitialStones(n), p) else Guard)
  }

  /** The tables the constructor builds are consistent with the empty
      board. */
  lemma InitialConsistent(n: nat)
    ensures Consistent(n, InitialStones(n), InitialHash(n), BorderFlags(n))
  {
    var s, h, played := InitialStones(n), InitialHash(n), BorderFlags(n);
    assert FlagsAgree(n, s, played) by {
      forall p | 0 <= p < Cells(n)
        ensures played[p] == (s[p] != Empty)
      {
      }
    }
    assert PatternsAgree(n, s, h) by {
      forall c | Interior(n, c)
        ensures h[c] == Pattern(n, s, c)
      {
      }
    }
  }

  /** A stone on an unplayed board cell keeps entries and flags consistent
      with the colours, now including the new stone. */
  lemma {:induction false} PlaceKeepsConsistent(n: nat, s: seq<int>, h: seq<int>, played: seq<bool>,
                                                p: int, v: int)
    requires n >= 1 && Consistent(n, s, h, played) && Interior(n, p) && !played[p] && (v == 1 || v == 2)
    ensures Consistent(n, s[p := v], AddStone(n, h, p, v), played[p := true])
  {
    var s', h', played' := s[p := v], AddStone(n, h, p, v), played[p := true];
    assert ValidStones(n, s') by {
      forall q | 0 <= q < Cells(n) && !Interior(n, q)
        ensures s'[q] == Guard
      {
      }
    }
    assert FlagsAgree(n, s', played') by {
      assert FlagsAgree(n, s, played);
    }
    assert PatternsAgree(n, s', h') by {
      assert s[p] == Empty;
      AddStoneMatchesPattern(n, s, h, p, v);
    }
  }

  /** The row/column `Change` computes the logical index row * A + column:
      for n >= 3, row 1, column 0 lands on padded (2, 3) instead of (2, 1),
      and the last board cell's index lies past the n * n table. */
  lemma RowColumnIndexMismatch(n: nat)
    requires n >= 3
    ensures Transf(n, 1 * Aligned(n) + 0) == Cell(n, 2, 3)
    ensures Cell(n, 2, 3) != Cell(n, 1 + 1, 0 + 1)
    ensures (n - 1) * Aligned(n) + (n - 1) >= n * n
  {
    DivModOfCell(n, 1, 2);
    assert (n - 1) * Aligned(n) == n * n + n - 2;
  }

  class HashBoard {
    const n: nat
    /** The coordinate tables, filled by the constructor. */
    const t: Tables
    /** `_hash_board`: one pattern entry per padded cell. */
    const hash: array<int>
    /** `_played`: guard cells and cells that received a stone. */
    const played: array<bool>
    /** Colour of every padded cell: Guard, Empty or a player's code. */
    ghost var stones: seq<int>

    /** Sizes and separation of the arrays (what memory safety needs). */
    ghost predicate Shape()
      reads this, t
    {
      t.Shape() && n == t.n && hash.Length == Cells(n) && played.Length == Cells(n)
      && hash != t.transf && hash != t.normalRows
    }

    /** The object invariant: the tables are filled and the entries and
        flags are consistent with the colours in `stones`. */
    ghost predicate Valid()
      reads this, hash, played, t, t.transf, t.normalRows
    {
      Shape() && t.Filled() && Consistent(n, stones, hash[..], played[..])
    }

    /** `HashBoard()`: guard cells get GUARD and are marked played, every
        board cell gets the pattern of an empty board (the guard digits of
        its border neighbours) and is unplayed. */
    constructor (t: Tables)
      requires t.Shape()
      modifies t.transf, t.normalRows
      ensures this.t == t && n == t.n && fresh(hash) && fresh(played)
      ensures stones == InitialStones(n) && hash[..] == InitialHash(n) && played[..] == BorderFlags(n)
      ensures Valid()
    {
      this.t := t;
      n := t.n;
      var a := Aligned(t.n);
      var total := a * a;
      played := new bool[total](_ => false);
      hash := new int[total](_ => 0);
      stones := InitialStones(t.n);
      new;
      var initHash := new int[total](_ => 0);
      t.FillArrays();
      GuardRows(initHash);
      GuardColumns(initHash);
      InitEdges(initHash);
      forall k | 0 <= k < total {
        hash[k] := initHash[k];
      }
      assert hash[..] == InitialHash(n);
      InitialConsistent(n);
    }

    /** The constructor's first border loop: GUARD into both tables and the
        played flag set on padded rows 0 and A-1. */
    method GuardRows(initHash: array<int>)
      requires Shape() && initHash.Length == Cells(n)
      requires initHash != hash && initHash != t.transf && initHash != t.normalRows
      requires forall p :: 0 <= p < Cells(n) ==> hash[p] == 0 && initHash[p] == 0 && !played[p]
      modifies hash, played, initHash
      ensures hash[..] == GuardedRows(n) && initHash[..] == GuardedRows(n) && played[..] == RowFlags(n)
    {
      var a := Aligned(n);
      var total := Cells(n);
      assert 3 * a <= total by { MulMonotone(3, a, a); }
      var i := 0;
      while i < a
        invariant 0 <= i <= a
        invariant forall p :: 0 <= p < total ==>
          var border := p < i || total - i <= p;
          hash[p] == (if border then Guard else 0) && initHash[p] == hash[p] && played[p] == border
      {
        hash[i], hash[total - 1 - i] := Guard, Guard;
        initHash[i], initHash[total - 1 - i] := Guard, Guard;
        played[i], played[total - 1 - i] := true, true;
        i := i + 1;
      }
      assert hash[..] == GuardedRows(n);
      assert initHash[..] == GuardedRows(n);
      assert played[..] == RowFlags(n);
    }

    /** The constructor's second border loop: the same on padded columns 0
        and A-1; afterwards exactly the guard cells hold GUARD and are
        marked played. */
    method GuardColumns(initHash: array<int>)
      requires Shape() && initHash.Length == Cells(n)
      requires initHash != hash && initHash != t.transf && initHash != t.normalRows
      requires hash[..] == GuardedRows(n) && initHash[..] == GuardedRows(n) && played[..] == RowFlags(n)
      modifies hash, played, initHash
      ensures hash[..] == InitialStones(n) && initHash[..] == InitialStones(n)
      ensures played[..] == BorderFlags(n)
    {
      GuardColumnsLoop(initHash);
      assert hash[..] == InitialStones(n);
      assert initHash[..] == InitialStones(n);
      assert played[..] == BorderFlags(n);
    }

    /** The loop of `GuardColumns`, cell by cell. */
    method GuardColumnsLoop(initHash: array<int>)
      requires Shape() && initHash.Length == Cells(n)
      requires initHash != hash && initHash != t.transf && initHash != t.normalRows
      requires forall p :: 0 <= p < Cells(n) ==>
        var border := p < Aligned(n) || Cells(n) - Aligned(n) <= p;
        hash[p] == (if border then Guard else 0) && initHash[p] == hash[p] && played[p] == border
      modifies hash, played, initHash
      ensures forall p :: 0 <= p < Cells(n) ==>
        hash[p] == (if Interior(n, p) then Empty else Guard) && initHash[p] == hash[p]
        && played[p] == !Interior(n, p)
    {
      var a := Aligned(n);
      var total := Cells(n);
      var i := 1;
      while i <= n
        invariant 1 <= i <= n + 1
        invariant forall p :: 0 <= p < total ==>
          var border := p < a || total - a <= p || (EdgeColumn(n, p) && p < Cell(n, i, 0));
          hash[p] == (if border then Guard else 0) && initHash[p] == hash[p] && played[p] == border
      {
        // the source's i * A and (i + 1) * A - 1
        PaddedRow(n, i);
        var left, right := Cell(n, i, 0), Cell(n, i, a - 1);
        hash[left], hash[right] := Guard, Guard;
        initHash[left], initHash[right] := Guard, Guard;
        played[left], played[right] := true, true;
        i := i + 1;
      }
      PaddedRow(n, n + 1);
    }

    /** `InitHash`: the pattern of `position` computed from `_hash_board`
        into `init`, and the cell marked unplayed. */
    method InitHash(init: array<int>, position: int)
      requires Shape() && init.Length == Cells(n) && init != hash && HasNeighbours(n, position)
      modifies init, played
      ensures init[..] == old(init[..])[position := Pattern(n, hash[..], position)]
      ensures played[..] == old(played[..])[position := false]
    {
      var a := Aligned(n);
      init[position] :=
        hash[position - a + 1] * 1 +
        hash[position + 1] * 4 +
        hash[position + a] * 16 +
        hash[position + a - 1] * 64 +
        hash[position - 1] * 256 +
        hash[position - a] * 1024;
      played[position] := false;
    }

    /** One round of the constructor's `InitHash` loop: the cells (1, i),
        (i, 1), (i, n) and (n, n + 1 - i). */
    method InitRound(initHash: array<int>, i: int)
      requires Shape() && initHash.Length == Cells(n) && initHash != hash && 1 <= i <= n
      requires played[..] == BorderFlags(n)
      requires hash[..] == InitialStones(n) && EdgesDone(n, initHash[..], i)
      modifies initHash, played
      ensures EdgesDone(n, initHash[..], i + 1)
      ensures played[..] == BorderFlags(n)
    {
      // the source's a + i, i * a + 1, (i + 1) * a - 2 and total - a - 1 - i
      EdgeCells(n, i);
      var q1, q2, q3, q4 := Cell(n, 1, i), Cell(n, i, 1), Cell(n, i, n), Cell(n, n, n + 1 - i);
      ghost var s, h := hash[..], initHash[..];
      InitHash(initHash, q1);
      BoardFlagCleared(n, q1);
      assert initHash[..] == h[q1 := Pattern(n, s, q1)];
      InitHash(initHash, q2);
      BoardFlagCleared(n, q2);
      assert initHash[..] == h[q1 := Pattern(n, s, q1)][q2 := Pattern(n, s, q2)];
      InitHash(initHash, q3);
      BoardFlagCleared(n, q3);
      assert initHash[..] == h[q1 := Pattern(n, s, q1)][q2 := Pattern(n, s, q2)][q3 := Pattern(n, s, q3)];
      InitHash(initHash, q4);
      BoardFlagCleared(n, q4);
      assert initHash[..] == RoundUpdate(n, i, s, h);
      EdgesStep(n, i, s, h, initHash[..]);
    }

    /** The constructor's `InitHash` loop over the four edges of the board:
        afterwards every board cell holds its empty-board pattern. */
    method InitEdges(initHash: array<int>)
      requires Shape() && initHash.Length == Cells(n)
      requires initHash != hash && initHash != t.transf && initHash != t.normalRows
      requires hash[..] == InitialStones(n) && initHash[..] == InitialStones(n)
      requires played[..] == BorderFlags(n)
      modifies initHash, played
      ensures initHash[..] == InitialHash(n) && played[..] == BorderFlags(n)
    {
      EdgesStart(n);
      EdgeRounds(initHash);
      EdgesComplete(n, initHash[..]);
    }

    /** The rounds i = 1 .. n of the `InitHash` loop. */
    method EdgeRounds(initHash: array<int>)
      requires Shape() && initHash.Length == Cells(n)
      requires initHash != hash && initHash != t.transf && initHash != t.normalRows
      requires hash[..] == InitialStones(n) && EdgesDone(n, initHash[..], 1)
      requires played[..] == BorderFlags(n)
      modifies initHash, played
      ensures EdgesDone(n, initHash[..], n + 1) && played[..] == BorderFlags(n)
    {
      var i := 1;
      while i <= n
        invariant 1 <= i <= n + 1
        invariant EdgesDone(n, initHash[..], i) && played[..] == BorderFlags(n)
      {
        InitRound(initHash, i);
        i := i + 1;
      }
    }

    // -------------------------------------------------------------------------
    // Placing stones

    /** `Change(color, normal_position, bool)`: adds the colour code times
        64, 256, 1024, 1, 4, 16 to the six neighbours of padded cell p and
        marks p played.  On a valid board, a stone on an empty board cell
        keeps every entry equal to its pattern. */
    method ChangeCell(color: HashColor, p: int)
      requires Shape() && HasNeighbours(n, p)
      modifies hash, played, this`stones
      ensures hash[..] == AddStone(n, old(hash[..]), p, Code(color))
      ensures played[..] == old(played[..])[p := true]
      ensures old(Valid()) && Interior(n, p) && !old(played[p]) ==>
        Valid() && stones == old(stones)[p := Code(color)]
      ensures !(old(Valid()) && Interior(n, p) && !old(played[p])) ==> stones == old(stones)
    {
      ghost var wasValid, wasFree, h0 := Valid(), !played[p], hash[..];
      var a := Aligned(n);
      var v := Code(color);
      hash[p - a + 1] := hash[p - a + 1] + v * 64;
      hash[p + 1] := hash[p + 1] + v * 256;
      hash[p + a] := hash[p + a] + v * 1024;
      hash[p + a - 1] := hash[p + a - 1] + v * 1;
      hash[p - 1] := hash[p - 1] + v * 4;
      hash[p - a] := hash[p - a] + v * 16;
      played[p] := true;
      assert hash[..] == AddStone(n, h0, p, v);
      if wasValid && Interior(n, p) && wasFree {
        PlaceKeepsConsistent(n, stones, h0, old(played[..]), p, v);
        stones := stones[p := v];
      }
    }

    /** `Change(color, position)`: the stone on logical cell k (0 .. n*n-1),
        placed at its padded cell. */
    method ChangeAt(color: HashColor, k: int)
      requires Shape() && t.Filled() && 0 <= k < n * n
      modifies hash, played, this`stones
      ensures hash[..] == AddStone(n, old(hash[..]), Transf(n, k), Code(color))
      ensures played[..] == old(played[..])[Transf(n, k) := true]
      ensures old(Valid()) && !old(played[Transf(n, k)]) ==>
        Valid() && stones == old(stones)[Transf(n, k) := Code(color)]
    {
      TransfProperties(n, k);
      ChangeCell(color, t.transf[k]);
    }

    /** `Change(color, row, column)` as written: the logical index is
        computed as row * A + column instead of row * n + column, so the
        stone lands on a different cell (see `RowColumnIndexMismatch`). */
    method ChangeRowColumnAsWritten(color: HashColor, row: int, column: int)
      requires Shape() && t.Filled() && 0 <= row && 0 <= column
      requires row * Aligned(n) + column < n * n
      modifies hash, played, this`stones
      ensures hash[..] == AddStone(n, old(hash[..]), Transf(n, row * Aligned(n) + column), Code(color))
      ensures played[..] == old(played[..])[Transf(n, row * Aligned(n) + column) := true]
    {
      MulNonNeg(row, Aligned(n));
      ChangeAt(color, row * Aligned(n) + column);
    }

    /** `Change(color, row, column)` with the logical index row * n + column
        that `Hash(color, row, column)` uses: the stone lands on board row
        row + 1, column column + 1 of the padded grid. */
    method ChangeRowColumn(color: HashColor, row: int, column: int)
      requires Shape() && t.Filled() && 0 <= row < n && 0 <= column < n
      modifies hash, played, this`stones
      ensures Interior(n, Cell(n, row + 1, column + 1))
      ensures hash[..] == AddStone(n, old(hash[..]), Cell(n, row + 1, column + 1), Code(color))
      ensures played[..] == old(played[..])[Cell(n, row + 1, column + 1) := true]
      ensures old(Valid()) && !old(played[Cell(n, row + 1, column + 1)]) ==>
        Valid() && stones == old(stones)[Cell(n, row + 1, column + 1) := Code(color)]
    {
      TransfOfLogical(n, row, column);
      ChangeAt(color, LogicalIndex(n, row, column));
    }

    /** `Change(color, position)` for a move written as text ("c5"). */
    method ChangeText(color: HashColor, position: string)
      requires Shape() && t.Filled() && ParsableText(position) && ParsePosition(n, position) < n * n
      modifies hash, played, this`stones
      ensures hash[..] == AddStone(n, old(hash[..]), Transf(n, ParsePosition(n, position)), Code(color))
      ensures played[..] == old(played[..])[Transf(n, ParsePosition(n, position)) := true]
      ensures old(Valid()) && !old(played[Transf(n, ParsePosition(n, position))]) ==>
        Valid() && stones == old(stones)[Transf(n, ParsePosition(n, position)) := Code(color)]
    {
      ChangeAt(color, ParsePosition(n, position));
    }

    /** `Change(color, position)` with the colour given by name; any word
        other than "black" or "white" fails the source's assertion. */
    method ChangeByName(color: string, position: string)
      requires Shape() && t.Filled() && ParsableText(position) && ParsePosition(n, position) < n * n
      requires ParseColor(color).Some?
      modifies hash, played, this`stones
      ensures hash[..] == AddStone(n, old(hash[..]), Transf(n, ParsePosition(n, position)),
                                   if color == "black" then 1 else 2)
      ensures played[..] == old(played[..])[Transf(n, ParsePosition(n, position)) := true]
      ensures old(Valid()) && !old(played[Transf(n, ParsePosition(n, position))]) ==>
        Valid() && stones == old(stones)[Transf(n, ParsePosition(n, position)) := if color == "black" then 1 else 2]
    {
      ChangeText(ParseColor(color).value, position);
    }

    // -------------------------------------------------------------------------
    // Reading patterns

    /** Under the invariant a board cell's entry is its pattern: below 4^6,
        with base-4 digit d the colour of the neighbour in direction d. */
    lemma EntryIsPattern(c: int)
      requires Shape() && 0 <= c < Cells(n)
      ensures Valid() && Interior(n, c) ==> hash[c] == Pattern(n, stones, c) && 0 <= hash[c] < 4096
      ensures Valid() && Interior(n, c) ==>
        forall d :: 0 <= d < 6 ==> Digit(hash[c], d) == NeighbourColour(n, stones, c, d)
    {
      if Valid() && Interior(n, c) {
        ConsistentEntry(n, stones, hash[..], played[..], c);
      }
    }

    /** `Hash(color, normal_position, bool)`: the entry of padded cell p
        shifted left by two with the colour to move in the low bits. */
    function HashCell(color: HashColor, p: int): (r: int)
      reads this, hash, played, t, t.transf, t.normalRows
      requires Shape() && 0 <= p < Cells(n)
      ensures 0 <= r < TwoTo32 && r % 4 == Code(color)
      ensures Valid() && Interior(n, p) ==> r / 4 == Pattern(n, stones, p) && r < 16384
    {
      EntryIsPattern(p);
      ShiftOr(hash[p], Code(color))
    }

    /** `Hash(color, position)`: the key of logical cell k. */
    function HashAt(color: HashColor, k: int): (r: int)
      reads this, hash, played, t, t.transf, t.normalRows
      requires Shape() && t.Filled() && 0 <= k < n * n
      ensures 0 <= r < TwoTo32 && r % 4 == Code(color)
      ensures Valid() ==> r / 4 == Pattern(n, stones, Transf(n, k))
    {
      TransfProperties(n, k);
      HashCell(color, t.transf[k])
    }

    /** `Hash(color, row, column)`: the key of board row `row`, column
        `column` (both from 0), through the logical index row * n + column. */
    function HashRowColumn(color: HashColor, row: int, column: int): (r: int)
      reads this, hash, played, t, t.transf, t.normalRows
      requires Shape() && t.Filled() && 0 <= row < n && 0 <= column < n
      ensures 0 <= r < TwoTo32 && r % 4 == Code(color)
      ensures Interior(n, Cell(n, row + 1, column + 1))
      ensures Valid() ==> r / 4 == Pattern(n, stones, Cell(n, row + 1, column + 1))
    {
      TransfOfLogical(n, row, column);
      HashAt(color, LogicalIndex(n, row, column))
    }

    /** `Hash(color, position)` for a move written as text. */
    function HashText(color: HashColor, position: string): (r: int)
      reads this, hash, played, t, t.transf, t.normalRows
      requires Shape() && t.Filled() && ParsableText(position) && ParsePosition(n, position) < n * n
      ensures 0 <= r < TwoTo32 && r % 4 == Code(color)
      ensures Valid() ==> r / 4 == Pattern(n, stones, Transf(n, ParsePosition(n, position)))
    {
      HashAt(color, ParsePosition(n, position))
    }

    /** `Hash(color, position)` with the colour given by name. */
    function HashByName(color: string, position: string): (r: int)
      reads this, hash, played, t, t.transf, t.normalRows
      requires Shape() && t.Filled() && ParsableText(position) && ParsePosition(n, position) < n * n
      requires ParseColor(color).Some?
      ensures 0 <= r < TwoTo32 && r % 4 == (if color == "black" then 1 else 2)
      ensures Valid() ==> r / 4 == Pattern(n, stones, Transf(n, ParsePosition(n, position)))
    {
      HashText(ParseColor(color).value, position)
    }

    /** The textual and the row/column lookups agree on every cell a move
        text can name. */
    lemma HashTextMatchesRowColumn(color: HashColor, row: nat, column: nat)
      requires Shape() && t.Filled() && row < n < 0x1_0000 && column < n && row < 99 && column < 26
      ensures ParsableText(PositionText(row, column))
      ensures ParsePosition(n, PositionText(row, column)) < n * n
      ensures HashText(color, PositionText(row, column)) == HashRowColumn(color, row, column)
    {
      PositionTextRoundTrip(n, row, column);
      ParsePositionWellFormed(n, PositionText(row, column));
      RowMajorBound(n, n, row, column);
    }

    // -------------------------------------------------------------------------
    // Accessors

    /** `GetAllHashes`: the entries of all padded cells. */
    function GetAllHashes(): (r: seq<int>)
      reads this, hash, played, t, t.transf, t.normalRows
      requires Shape()
      ensures |r| == Cells(n)
      ensures Valid() ==> forall c :: Interior(n, c) ==> r[c] == Pattern(n, stones, c)
    {
      hash[..]
    }

    /** `GetPositionsPlayed`: the played flags of all padded cells. */
    function GetPositionsPlayed(): (r: seq<bool>)
      reads this, hash, played, t, t.transf, t.normalRows
      requires Shape()
      ensures |r| == Cells(n)
      ensures Valid() ==> forall p :: 0 <= p < Cells(n) ==> (r[p] <==> stones[p] != Empty)
    {
      played[..]
    }

    /** `GetBoardSize`: the number of padded cells, the length of both
        tables. */
    function GetBoardSize(): (r: nat)
      reads this, hash, played, t
      requires Shape()
      ensures r == hash.Length && r == played.Length
    {
      Aligned(n) * Aligned(n)
    }
  }
}
