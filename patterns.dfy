/** Local neighbourhood patterns: the six neighbours' colours as base-4 digits,
    the additive update one stone makes to them, and the lookup key that
    appends the colour about to move. */
module Patterns {
  import opened Geometry
  import opened Positions
  import opened Wrappers

  /** Colour code of a guard cell (GUARD). */
  const Guard: int := 3
  /** Colour code of an empty cell. */
  const Empty: int := 0

  /** `HashColor`: the two players, with codes HBlack = 1 and HWhite = 2. */
  datatype HashColor = HBlack | HWhite

  function Code(c: HashColor): (r: int)
    ensures r == 1 || r == 2
    ensures c == HBlack <==> r == 1
  {
    match c
    case HBlack => 1
    case HWhite => 2
  }

  /** `ParseColor` (debug build): the exact words "white" and "black"; any
      other word fails the source's assertion, here None. */
  function ParseColor(word: string): (r: Option<HashColor>)
    ensures r == Some(HWhite) <==> word == "white"
    ensures r == Some(HBlack) <==> word == "black"
    ensures r == None <==> word != "white" && word != "black"
  {
    if word == "white" then Some(HWhite)
    else if word == "black" then Some(HBlack)
    else None
  }

  /** Colours of the padded cells: Guard on the border, Empty or a player's
      code on the board. */
  ghost predicate ValidStones(n: nat, s: seq<int>) {
    |s| == Cells(n)
    && (forall p {:trigger s[p]} :: 0 <= p < Cells(n) && !Interior(n, p) ==> s[p] == Guard)
    && (forall p {:trigger s[p]} :: Interior(n, p) ==> 0 <= s[p] <= 2)
  }

  /** Colours of a fresh board: Guard around an empty board. */
  ghost function InitialStones(n: nat): (s: seq<int>)
    ensures ValidStones(n, s)
  {
    seq(Cells(n), p => if Interior(n, p) then Empty else Guard)
  }

  /** Colour of the neighbour of c in direction d. */
  function NeighbourColour(n: nat, s: seq<int>, c: int, d: nat): int
    requires |s| == Cells(n) && HasNeighbours(n, c) && d < 6
  {
    s[Neighbour(n, c, d)]
  }

  /** The pattern of cell c: sum over directions d of 4^d times the colour of
      the neighbour in direction d (`InitHash`). */
  function Pattern(n: nat, s: seq<int>, c: int): int
    requires |s| == Cells(n) && HasNeighbours(n, c)
  {
    NeighbourColour(n, s, c, 0) * DirectionWeight(0) +
    NeighbourColour(n, s, c, 1) * DirectionWeight(1) +
    NeighbourColour(n, s, c, 2) * DirectionWeight(2) +
    NeighbourColour(n, s, c, 3) * DirectionWeight(3) +
    NeighbourColour(n, s, c, 4) * DirectionWeight(4) +
    NeighbourColour(n, s, c, 5) * DirectionWeight(5)
  }

  /** Base-4 digit d of h. */
  function Digit(h: int, d: nat): int
    requires d < 6
  {
    (h / DirectionWeight(d)) % 4
  }

  /** With colours 0 .. 3 a pattern is below 4^6 = 4096, and its base-4 digit
      d is the colour of the neighbour in direction d. */
  lemma PatternDigits(n: nat, s: seq<int>, c: int)
    requires |s| == Cells(n) && HasNeighbours(n, c)
    requires forall d :: 0 <= d < 6 ==> 0 <= NeighbourColour(n, s, c, d) <= 3
    ensures 0 <= Pattern(n, s, c) < 4096
    ensures forall d :: 0 <= d < 6 ==> Digit(Pattern(n, s, c), d) == NeighbourColour(n, s, c, d)
  {
    var x0, x1, x2 := NeighbourColour(n, s, c, 0), NeighbourColour(n, s, c, 1), NeighbourColour(n, s, c, 2);
    var x3, x4, x5 := NeighbourColour(n, s, c, 3), NeighbourColour(n, s, c, 4), NeighbourColour(n, s, c, 5);
    BaseFourDigits(x0, x1, x2, x3, x4, x5);
  }

  /** Six base-4 digits, lowest first, and the number they spell. */
  lemma {:induction false} BaseFourDigits(x0: int, x1: int, x2: int, x3: int, x4: int, x5: int)
    requires 0 <= x0 <= 3 && 0 <= x1 <= 3 && 0 <= x2 <= 3 && 0 <= x3 <= 3 && 0 <= x4 <= 3 && 0 <= x5 <= 3
    ensures var h := x0 * 1 + x1 * 4 + x2 * 16 + x3 * 64 + x4 * 256 + x5 * 1024;
      0 <= h < 4096
      && Digit(h, 0) == x0 && Digit(h, 1) == x1 && Digit(h, 2) == x2
      && Digit(h, 3) == x3 && Digit(h, 4) == x4 && Digit(h, 5) == x5
  {
    var h := x0 * 1 + x1 * 4 + x2 * 16 + x3 * 64 + x4 * 256 + x5 * 1024;
    // below digit d lie the digits 0 .. d - 1, above it the digits d + 1 .. 5
    DigitSplit(h, 0, 0, x0, x1 + 4 * x2 + 16 * x3 + 64 * x4 + 256 * x5);
    DigitSplit(h, 1, x0, x1, x2 + 4 * x3 + 16 * x4 + 64 * x5);
    DigitSplit(h, 2, x0 + 4 * x1, x2, x3 + 4 * x4 + 16 * x5);
    DigitSplit(h, 3, x0 + 4 * x1 + 16 * x2, x3, x4 + 4 * x5);
    DigitSplit(h, 4, x0 + 4 * x1 + 16 * x2 + 64 * x3, x4, x5);
    DigitSplit(h, 5, x0 + 4 * x1 + 16 * x2 + 64 * x3 + 256 * x4, x5, 0);
  }

  /** A number made of a lower part below 4^d, digit x at position d and a
      higher part has base-4 digit d equal to x. */
  lemma DigitSplit(h: int, d: nat, low: int, x: int, high: int)
    requires d < 6 && 0 <= low < DirectionWeight(d) && 0 <= x <= 3
    requires h == low + DirectionWeight(d) * (x + 4 * high)
    ensures Digit(h, d) == x
  {
    DivModOfCell(DirectionWeight(d), x + 4 * high, low);
    DivModOfCell(4, high, x);
  }

  /** The additive contribution a stone of colour code v on p makes to the
      entry of cell q (`Change`: 64, 256, 1024, 1, 4, 16 times v on
      p-A+1, p+1, p+A, p+A-1, p-1, p-A). */
  function Contribution(n: nat, p: int, q: int, v: int): int {
    var a := Aligned(n);
    if q == p - a + 1 then v * 64
    else if q == p + 1 then v * 256
    else if q == p + a then v * 1024
    else if q == p + a - 1 then v * 1
    else if q == p - 1 then v * 4
    else if q == p - a then v * 16
    else 0
  }

  /** q is one of p's six neighbours. */
  predicate Adjacent(n: nat, p: int, q: int) {
    exists d :: 0 <= d < 6 && q == Neighbour(n, p, d)
  }

  /** The multipliers of `Change` are those of `InitHash` seen from the other
      side: the neighbour in direction d gets v times 4^Opposite(d), and
      cells that are not neighbours get nothing. */
  lemma ContributionOpposite(n: nat, p: int, v: int)
    requires n >= 1
    ensures forall d :: 0 <= d < 6 ==>
      Contribution(n, p, Neighbour(n, p, d), v) == v * DirectionWeight(Opposite(d))
    ensures forall q :: !Adjacent(n, p, q) ==> Contribution(n, p, q, v) == 0
  {
    forall q | Contribution(n, p, q, v) != 0
      ensures Adjacent(n, p, q)
    {
      var a := Aligned(n);
      var d := if q == p - a + 1 then 0 else if q == p + 1 then 1 else if q == p + a then 2
               else if q == p + a - 1 then 3 else if q == p - 1 then 4 else 5;
      assert q == Neighbour(n, p, d);
    }
  }

  /** Placing colour v on an empty p changes the pattern of every cell c by
      exactly Contribution(n, p, c, v): the incremental update agrees with
      recomputing the pattern from scratch. */
  lemma {:induction false} PatternUpdate(n: nat, s: seq<int>, p: int, v: int, c: int)
    requires n >= 1 && |s| == Cells(n) && 0 <= p < Cells(n) && HasNeighbours(n, c)
    ensures Pattern(n, s[p := s[p] + v], c) == Pattern(n, s, c) + Contribution(n, p, c, v)
  {
    var a := Aligned(n);
    var s' := s[p := s[p] + v];
    forall d | 0 <= d < 6
      ensures s'[Neighbour(n, c, d)] == s[Neighbour(n, c, d)] + (if Neighbour(n, c, d) == p then v else 0)
    {
    }
    if c == p - a + 1 {
      assert Neighbour(n, c, 3) == p;
    } else if c == p + 1 {
      assert Neighbour(n, c, 4) == p;
    } else if c == p + a {
      assert Neighbour(n, c, 5) == p;
    } else if c == p + a - 1 {
      assert Neighbour(n, c, 0) == p;
    } else if c == p - 1 {
      assert Neighbour(n, c, 1) == p;
    } else if c == p - a {
      assert Neighbour(n, c, 2) == p;
    } else {
      forall d | 0 <= d < 6 ensures Neighbour(n, c, d) != p {
        NeighbourSymmetric(n, p, c, d);
      }
    }
  }

  /** The hash table after `Change` adds v around p: six `+=` in the
      source's order. */
  function AddStone(n: nat, h: seq<int>, p: int, v: int): (r: seq<int>)
    requires n >= 1 && |h| == Cells(n) && HasNeighbours(n, p)
    ensures |r| == |h|
    ensures forall q :: 0 <= q < |h| ==> r[q] == h[q] + Contribution(n, p, q, v)
  {
    var a := Aligned(n);
    var h1 := h[p - a + 1 := h[p - a + 1] + v * 64];
    var h2 := h1[p + 1 := h1[p + 1] + v * 256];
    var h3 := h2[p + a := h2[p + a] + v * 1024];
    var h4 := h3[p + a - 1 := h3[p + a - 1] + v * 1];
    var h5 := h4[p - 1 := h4[p - 1] + v * 4];
    h5[p - a := h5[p - a] + v * 16]
  }

  /** The incremental update is exact: if every board cell's entry is its
      pattern and v is placed on an empty board cell p, every board cell's
      new entry is its pattern on the new board. */
  lemma {:induction false} AddStoneMatchesPattern(n: nat, s: seq<int>, h: seq<int>, p: int, v: int)
    requires n >= 1 && |s| == Cells(n) && |h| == Cells(n) && Interior(n, p) && s[p] == Empty
    requires forall c :: Interior(n, c) ==> h[c] == Pattern(n, s, c)
    ensures forall c :: Interior(n, c) ==> AddStone(n, h, p, v)[c] == Pattern(n, s[p := v], c)
  {
    forall c | Interior(n, c)
      ensures AddStone(n, h, p, v)[c] == Pattern(n, s[p := v], c)
    {
      PatternUpdate(n, s, p, v, c);
      assert s[p := s[p] + v] == s[p := v];
    }
  }

  /** Stones may be added in any order: the updates of two placements
      commute. */
  lemma AddStoneCommutes(n: nat, h: seq<int>, p: int, v: int, q: int, w: int)
    requires n >= 1 && |h| == Cells(n) && HasNeighbours(n, p) && HasNeighbours(n, q)
    ensures AddStone(n, AddStone(n, h, p, v), q, w) == AddStone(n, AddStone(n, h, q, w), p, v)
  {
    var l := AddStone(n, AddStone(n, h, p, v), q, w);
    var r := AddStone(n, AddStone(n, h, q, w), p, v);
    forall x | 0 <= x < |h|
      ensures l[x] == r[x]
    {
    }
  }

  /** Playing the same cell twice is not detected: a second black stone on p
      makes p's neighbours see the white code. */
  lemma ReplayReadsAsWhite(n: nat, s: seq<int>, p: int, c: int)
    requires n >= 1 && |s| == Cells(n) && 0 <= p < Cells(n) && HasNeighbours(n, c)
    requires s[p] == Code(HBlack)
    ensures Pattern(n, s, c) + Contribution(n, p, c, Code(HBlack)) == Pattern(n, s[p := Code(HWhite)], c)
  {
    PatternUpdate(n, s, p, Code(HBlack), c);
  }

  /** `Hash`: `(hash << 2) | color` on a 32-bit unsigned hash. */
  function ShiftOr(h: int, code: int): (r: int)
    requires 0 <= code < 4
    ensures 0 <= r < TwoTo32
    ensures r % 4 == code
    ensures 0 <= h < TwoTo32 / 4 ==> r / 4 == h
  {
    (h * 4) % TwoTo32 + code
  }
}
