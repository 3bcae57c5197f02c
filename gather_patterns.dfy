/** The pattern-gathering program: it decodes pattern keys back into a
    picture of the neighbourhood and counts, per key, how often the pattern
    was on offer to the player to move and how often it was played. */
module GatherPatterns {
  import opened Geometry
  import opened Positions
  import opened Patterns
  import opened HashBoards

  // ---------------------------------------------------------------------------
  // Decoding a key

  /** The characters `printHash` draws for the codes 0 .. 3: empty, black,
      white, guard. */
  const Symbols: string := ".#oX"

  /** 2^k. */
  function Pow2(k: nat): (r: nat)
    ensures r >= 1
  {
    if k == 0 then 1 else 2 * Pow2(k - 1)
  }

  /** The six shifts `printHash` uses are twice the direction: a shift by 2d
      bits divides by 4^d. */
  lemma ShiftIsDirectionWeight(d: nat)
    requires d < 6
    ensures Pow2(2 * d) == DirectionWeight(d)
  {
    assert Pow2(2) == 4 && Pow2(4) == 16 && Pow2(6) == 64;
    assert Pow2(8) == 256 && Pow2(10) == 1024;
  }

  /** `GETNUM(x, pos)`: the two bits of x above bit pos + 1, as a symbol. */
  function GetNum(key: int, pos: nat): (r: char)
    requires 0 <= key
    ensures r in Symbols
  {
    Symbols[(key / Pow2(pos)) % 16 / 4]
  }

  /** The centre of the picture: the colour in the two low bits. */
  function Centre(key: int): (r: char)
    requires 0 <= key
    ensures r == Symbols[key % 4]
  {
    Symbols[key % 4]
  }

  /** A key built by `Hash` is 4h + colour.  For a shift of 2d bits, GETNUM
      reads base-4 digit d of h. */
  lemma GetNumReadsDigit(h: int, code: int, d: nat)
    requires 0 <= h && 0 <= code < 4 && d < 6
    ensures GetNum(4 * h + code, 2 * d) == Symbols[Digit(h, d)]
  {
    ShiftIsDirectionWeight(d);
    KeyDigit(h, code, DirectionWeight(d));
  }

  /** Dividing 4h + code by w and taking bits 2 .. 3 of the quotient gives
      h / w mod 4: below the weight w the key holds 4 (h mod w) + code,
      which spills at most 3 into the quotient. */
  lemma KeyDigit(h: int, code: int, w: int)
    requires 0 <= h && 0 <= code < 4 && 0 < w
    ensures ((4 * h + code) / w) % 16 / 4 == (h / w) % 4
  {
    QuotientOfKey(h, code, w);
    BitsTwoThree(h / w, (4 * (h % w) + code) / w);
  }

  /** (4h + code) / w is 4 (h / w) plus a spill below 4. */
  lemma QuotientOfKey(h: int, code: int, w: int)
    requires 0 <= h && 0 <= code < 4 && 0 < w
    ensures var low := (4 * (h % w) + code) / w;
      0 <= low < 4 && (4 * h + code) / w == 4 * (h / w) + low
  {
    var q, s := h / w, h % w;
    var t := 4 * s + code;
    var low, rem := t / w, t % w;
    SpillBelowFour(t, w);
    EuclidSplit(h, w);
    EuclidSplit(t, w);
    ScaleSum(q, low, w);
    DivModOfCell(w, 4 * q + low, rem);
  }

  /** Euclidean division of x by w. */
  lemma EuclidSplit(x: int, w: int)
    requires 0 < w
    ensures x == (x / w) * w + x % w && 0 <= x % w < w
  {
  }

  /** (4q + low) w = 4 (q w) + low w. */
  lemma ScaleSum(q: int, low: int, w: int)
    ensures (4 * q + low) * w == 4 * (q * w) + low * w
  {
  }

  /** A number below 4w divided by w is below 4. */
  lemma SpillBelowFour(t: int, w: int)
    requires 0 <= t < 4 * w && 0 < w
    ensures 0 <= t / w < 4
  {
    var low := t / w;
    if low >= 4 {
      MulMonotone(4, low, w);
    }
    if low < 0 {
      MulMonotone(low, -1, w);
    }
  }

  /** Bits 2 .. 3 of 4q + low, for low below 4, are q mod 4. */
  lemma BitsTwoThree(q: int, low: int)
    requires 0 <= q && 0 <= low < 4
    ensures (4 * q + low) % 16 / 4 == q % 4
  {
    DivModOfCell(16, q / 4, 4 * (q % 4) + low);
    DivModOfCell(4, q % 4, low);
  }

  /** The six shifts of `printHash` read the six base-4 digits of the
      pattern part key / 4. */
  lemma KeyPicture(key: int)
    requires 0 <= key
    ensures GetNum(key, 0) == Symbols[Digit(key / 4, 0)] && GetNum(key, 2) == Symbols[Digit(key / 4, 1)]
    ensures GetNum(key, 4) == Symbols[Digit(key / 4, 2)] && GetNum(key, 6) == Symbols[Digit(key / 4, 3)]
    ensures GetNum(key, 8) == Symbols[Digit(key / 4, 4)] && GetNum(key, 10) == Symbols[Digit(key / 4, 5)]
  {
    var h, code := key / 4, key % 4;
    assert key == 4 * h + code;
    GetNumReadsDigit(h, code, 0);
    GetNumReadsDigit(h, code, 1);
    GetNumReadsDigit(h, code, 2);
    GetNumReadsDigit(h, code, 3);
    GetNumReadsDigit(h, code, 4);
    GetNumReadsDigit(h, code, 5);
  }

  /** `printHash`: the key drawn as three lines of a hexagon, the
      neighbours around the colour to move. */
  function PrintHash(key: int): (lines: seq<string>)
    requires 0 <= key
    ensures |lines| == 3 && |lines[0]| == 4 && |lines[1]| == 5 && |lines[2]| == 4
    ensures lines[0][1] == Symbols[Digit(key / 4, 5)] && lines[0][3] == Symbols[Digit(key / 4, 0)]
    ensures lines[1][0] == Symbols[Digit(key / 4, 4)] && lines[1][4] == Symbols[Digit(key / 4, 1)]
    ensures lines[2][1] == Symbols[Digit(key / 4, 3)] && lines[2][3] == Symbols[Digit(key / 4, 2)]
    ensures lines[1][2] == Symbols[key % 4]
  {
    KeyPicture(key);
    [[' ', GetNum(key, 10), ' ', GetNum(key, 0)],
     [GetNum(key, 8), ' ', Centre(key), ' ', GetNum(key, 2)],
     [' ', GetNum(key, 6), ' ', GetNum(key, 4)]]
  }

  /** Decoding inverts `Hash` on a consistent board: the picture of a board
      cell's key shows each neighbour's colour where that neighbour lies
      (p - A upper left, p - A + 1 upper right, p - 1 and p + 1 beside it,
      p + A - 1 lower left, p + A lower right) and the colour to move in the
      middle. */
  lemma PictureShowsNeighbours(board: HashBoard, color: HashColor, c: int)
    requires board.Valid() && Interior(board.n, c)
    ensures var a, s, lines := Aligned(board.n), board.stones, PrintHash(board.HashCell(color, c));
      lines[0][1] == Symbols[s[c - a]] && lines[0][3] == Symbols[s[c - a + 1]]
      && lines[1][0] == Symbols[s[c - 1]] && lines[1][4] == Symbols[s[c + 1]]
      && lines[2][1] == Symbols[s[c + a - 1]] && lines[2][3] == Symbols[s[c + a]]
      && lines[1][2] == Symbols[Code(color)]
  {
    board.EntryIsPattern(c);
  }

  // ---------------------------------------------------------------------------
  // Keys and counter slots

  /** The largest pattern key counted: `(1 << 2 * 7) * 4`, the size the
      program instantiates the statistics with. */
  const MaxPattern: nat := 65536

  /** `(pattern & ~3) | (3 - (pattern & 3))`: the same neighbourhood with
      the other player to move (colour code c becomes 3 - c). */
  function Mirror(p: int): int {
    p / 4 * 4 + (3 - p % 4)
  }

  /** Mirroring keeps the neighbourhood, swaps the colour codes 1 and 2, and
      undoes itself. */
  lemma MirrorInvolution(p: int)
    ensures (0 <= p <==> 0 <= Mirror(p)) && Mirror(p) / 4 == p / 4 && Mirror(p) % 4 == 3 - p % 4
    ensures Mirror(Mirror(p)) == p
  {
    DivModOfCell(4, p / 4, 3 - p % 4);
  }

  /** Among the keys the used loop accepts, exactly one has a mirror outside
      the counter table: MaxPattern itself, of colour 0, whose mirror is
      MaxPattern + 3.  Colour-3 keys mirror downwards, colours 1 and 2 stay
      within their group of four. */
  lemma MirrorOutsideTable(p: int)
    requires 0 <= p <= MaxPattern
    ensures Mirror(p) > MaxPattern <==> p == MaxPattern
    ensures p == MaxPattern ==> Mirror(p) == MaxPattern + 3
  {
  }

  /** Counter slot k of a board entry e: `e * 4 + k` in 32-bit unsigned
      arithmetic, where e is first taken as a 32-bit value (see
      `SlotIsWrappedProduct`). */
  function Slot(e: int, k: int): int {
    4 * (e % 0x4000_0000) + k
  }

  /** The slot is the source's wrapped product: the product of a 32-bit
      value by 4 is a multiple of 4 below 2^32, so adding k below 4 does not
      wrap a second time; an entry below 2^30 does not wrap at all. */
  lemma SlotIsWrappedProduct(e: int, k: int)
    requires 0 <= k < 4
    ensures Slot(e, k) == ((e % TwoTo32) * 4 + k) % TwoTo32
    ensures 0 <= e < 0x4000_0000 ==> Slot(e, k) == 4 * e + k
  {
    var v := e % TwoTo32;
    var a, b, c := e / TwoTo32, v / 0x4000_0000, v % 0x4000_0000;
    EuclidSplit(e, TwoTo32);
    EuclidSplit(v, 0x4000_0000);
    // e = 2^30 (4a + b) + c, so e and v agree below 2^30
    assert e == (4 * a + b) * 0x4000_0000 + c;
    DivModOfCell(0x4000_0000, 4 * a + b, c);
    // v * 4 + k = 2^32 b + (4c + k) with 4c + k below 2^32
    assert v * 4 + k == b * TwoTo32 + (4 * c + k);
    DivModOfCell(TwoTo32, b, 4 * c + k);
    if 0 <= e < 0x4000_0000 {
      DivModOfCell(0x4000_0000, 0, e);
    }
  }

  /** How many entries of s equal x. */
  function Count(s: seq<int>, x: int): (r: nat)
    ensures r <= |s|
    ensures r == 0 <==> x !in s
  {
    if |s| == 0 then 0 else Count(s[..|s| - 1], x) + (if s[|s| - 1] == x then 1 else 0)
  }

  /** How many unplayed positions have their slot k at x. */
  function CountSlots(e: seq<int>, played: seq<bool>, k: int, x: int): (r: nat)
    requires |e| == |played|
    ensures r <= |e|
    ensures r == 0 <==> forall j :: 0 <= j < |e| && !played[j] ==> Slot(e[j], k) != x
  {
    if |e| == 0 then 0
    else CountSlots(e[..|e| - 1], played[..|e| - 1], k, x)
         + (if !played[|e| - 1] && Slot(e[|e| - 1], k) == x then 1 else 0)
  }

  /** Where the loop over the used patterns stops: the first key above
      MaxPattern, or the end. */
  function UsedStop(used: seq<int>): (k: nat)
    ensures k <= |used|
    ensures forall j :: 0 <= j < k ==> used[j] <= MaxPattern
    ensures k < |used| ==> used[k] > MaxPattern
  {
    if |used| == 0 || used[0] > MaxPattern then 0 else 1 + UsedStop(used[1..])
  }

  /** Where the loop over the board stops: the first unplayed position whose
      slot 3 is above MaxPattern, or the end. */
  function ExistingStop(e: seq<int>, played: seq<bool>): (k: nat)
    requires |e| <= |played|
    ensures k <= |e|
    ensures forall j :: 0 <= j < k ==> played[j] || Slot(e[j], 3) <= MaxPattern
    ensures k < |e| ==> !played[k] && Slot(e[k], 3) > MaxPattern
  {
    if |e| == 0 || (!played[0] && Slot(e[0], 3) > MaxPattern) then 0
    else 1 + ExistingStop(e[1..], played[1..])
  }

  /** The stop of the used loop is the first key above MaxPattern: any j
      with only small keys before it and a large key (or the end) at it is
      the stop. */
  lemma {:induction false} UsedStopAt(used: seq<int>, j: nat)
    requires j <= |used| && (j == |used| || used[j] > MaxPattern)
    requires forall k :: 0 <= k < j ==> used[k] <= MaxPattern
    ensures UsedStop(used) == j
  {
    if j > 0 {
      UsedStopAt(used[1..], j - 1);
    }
  }

  /** The stop of the board loop is the first unplayed position with a large
      slot 3. */
  lemma {:induction false} ExistingStopAt(e: seq<int>, played: seq<bool>, j: nat)
    requires |e| <= |played| && j <= |e|
    requires j == |e| || (!played[j] && Slot(e[j], 3) > MaxPattern)
    requires forall k :: 0 <= k < j ==> played[k] || Slot(e[k], 3) <= MaxPattern
    ensures ExistingStop(e, played) == j
  {
    if j > 0 {
      ExistingStopAt(e[1..], played[1..], j - 1);
    }
  }

  /** Where the used loop has not stopped yet, every key so far is small. */
  lemma {:induction false} UsedStopAtLeast(used: seq<int>, j: nat)
    requires j <= |used| && forall k :: 0 <= k < j ==> used[k] <= MaxPattern
    ensures j <= UsedStop(used)
  {
    if j > 0 {
      UsedStopAtLeast(used[1..], j - 1);
    }
  }

  // ---------------------------------------------------------------------------
  // The counters as values

  /** `_uses` after the keys of s were counted, one after the other. */
  function CountUses(u: seq<nat>, s: seq<int>): (r: seq<nat>)
    ensures |r| == |u|
  {
    if |s| == 0 then u
    else
      var v := CountUses(u, s[..|s| - 1]);
      Bump(v, s[|s| - 1])
  }

  /** One counter up by one (a key outside the table, which the reports
      never produce, changes nothing). */
  function Bump(v: seq<nat>, i: int): (r: seq<nat>)
    ensures |r| == |v|
    ensures forall j :: 0 <= j < |v| ==> r[j] == v[j] + (if j == i then 1 else 0)
  {
    if 0 <= i < |v| then v[i := v[i] + 1] else v
  }

  /** `_occurences` after the keys of s and their mirrors were counted. */
  function OfferUses(o: seq<nat>, s: seq<int>): (r: seq<nat>)
    ensures |r| == |o|
  {
    if |s| == 0 then o
    else
      var v := OfferUses(o, s[..|s| - 1]);
      Bump(Bump(v, s[|s| - 1]), Mirror(s[|s| - 1]))
  }

  /** `_occurences` after every unplayed position of e offered its pattern
      to both players. */
  function OfferPositions(o: seq<nat>, e: seq<int>, played: seq<bool>): (r: seq<nat>)
    requires |e| == |played|
    ensures |r| == |o|
  {
    if |e| == 0 then o
    else
      var v := OfferPositions(o, e[..|e| - 1], played[..|e| - 1]);
      if played[|e| - 1] then v
      else Bump(Bump(v, Slot(e[|e| - 1], 1)), Slot(e[|e| - 1], 2))
  }

  /** Counting the used keys adds to every counter the number of times its
      key was used. */
  lemma {:induction false} CountUsesCounts(u: seq<nat>, s: seq<int>)
    ensures forall i :: 0 <= i < |u| ==> CountUses(u, s)[i] == u[i] + Count(s, i)
  {
    if |s| > 0 {
      CountUsesCounts(u, s[..|s| - 1]);
    }
  }

  /** Counting the offers of the used keys adds to every counter the number
      of times its key, or its mirror, was used. */
  lemma {:induction false} OfferUsesCounts(o: seq<nat>, s: seq<int>)
    ensures forall i :: 0 <= i < |o| ==> OfferUses(o, s)[i] == o[i] + Count(s, i) + Count(s, Mirror(i))
  {
    if |s| > 0 {
      OfferUsesCounts(o, s[..|s| - 1]);
      var p := s[|s| - 1];
      MirrorInvolution(p);
      forall i | 0 <= i < |o|
        ensures Mirror(p) == i <==> p == Mirror(i)
      {
        MirrorInvolution(i);
      }
    }
  }

  /** Counting the offers of the board adds to every counter the number of
      unplayed positions whose slot 1 or slot 2 is its key. */
  lemma {:induction false} OfferPositionsCounts(o: seq<nat>, e: seq<int>, played: seq<bool>)
    requires |e| == |played|
    ensures forall i :: 0 <= i < |o| ==>
      OfferPositions(o, e, played)[i] == o[i] + CountSlots(e, played, 1, i) + CountSlots(e, played, 2, i)
  {
    if |e| > 0 {
      OfferPositionsCounts(o, e[..|e| - 1], played[..|e| - 1]);
    }
  }

  /** A report never lowers a counter, and since every use is also counted
      as an offer, keys that were used no more often than offered stay so. */
  lemma ReportKeepsUsesBelowOffers(u: seq<nat>, o: seq<nat>, s: seq<int>, e: seq<int>, played: seq<bool>)
    requires |u| == |o| && |e| == |played|
    requires forall i :: 0 <= i < |o| ==> u[i] <= o[i]
    ensures forall i :: 0 <= i < |o| ==>
      u[i] <= CountUses(u, s)[i] <= OfferPositions(OfferUses(o, s), e, played)[i]
      && o[i] <= OfferPositions(OfferUses(o, s), e, played)[i]
  {
    CountUsesCounts(u, s);
    OfferUsesCounts(o, s);
    OfferPositionsCounts(OfferUses(o, s), e, played);
  }

  // ---------------------------------------------------------------------------
  // The statistics

  /** `SimpleStatsComputer<MaxPattern>`: for every key, how often its
      pattern was on offer (`_occurences`) and how often it was played
      (`_uses`). */
  class SimpleStatsComputer {
    const occurences: array<nat>
    const uses: array<nat>

    /** One counter per key 0 .. MaxPattern in each table, and a key is
        never played more often than it was on offer. */
    ghost predicate Valid()
      reads this, occurences, uses
    {
      occurences.Length == MaxPattern + 1 && uses.Length == MaxPattern + 1 && occurences != uses
      && forall i :: 0 <= i <= MaxPattern ==> uses[i] <= occurences[i]
    }

    /** `SimpleStatsComputer()`: every counter starts at zero. */
    constructor ()
      ensures Valid() && fresh(occurences) && fresh(uses)
      ensures forall i :: 0 <= i <= MaxPattern ==> occurences[i] == 0 && uses[i] == 0
    {
      occurences := new nat[MaxPattern + 1];
      uses := new nat[MaxPattern + 1];
      new;
      var i := 0;
      while i <= MaxPattern
        invariant 0 <= i <= MaxPattern + 1
        invariant forall j :: 0 <= j < i ==> occurences[j] == 0 && uses[j] == 0
      {
        occurences[i] := 0;
        uses[i] := 0;
        i := i + 1;
      }
    }

    /** `reportPatternUse`: each used key counts as used and on offer, and
        so does its mirror as on offer; then every unplayed position offers
        its pattern to both players.  A key above MaxPattern, or an
        unplayed position whose slot 3 is above it, stops the program
        (`exit(1)`, here `ok == false`); what was counted before stays
        counted.  Counters never decrease and a key is never used more often
        than it was on offer. */
    method ReportPatternUse(used: seq<int>, existing: seq<int>, played: seq<bool>) returns (ok: bool)
      requires Valid()
      requires forall j :: 0 <= j < |used| ==> 0 <= used[j] < TwoTo32
      requires forall j :: 0 <= j < UsedStop(used) ==> Mirror(used[j]) <= MaxPattern
      requires |existing| <= |played|
      modifies occurences, uses
      ensures Valid()
      ensures ok <==> UsedStop(used) == |used| && ExistingStop(existing, played) == |existing|
      ensures forall i :: 0 <= i <= MaxPattern ==>
        uses[i] == old(uses[i]) + Count(used[..UsedStop(used)], i)
      ensures var k := UsedStop(used);
        var m := if k == |used| then ExistingStop(existing, played) else 0;
        forall i :: 0 <= i <= MaxPattern ==>
          occurences[i] == old(occurences[i]) + Count(used[..k], i) + Count(used[..k], Mirror(i))
                           + CountSlots(existing[..m], played[..m], 1, i)
                           + CountSlots(existing[..m], played[..m], 2, i)
    {
      ghost var u0, o0 := uses[..], occurences[..];
      ok := ReportUsed(used);
      ghost var k := UsedStop(used);
      CountUsesCounts(u0, used[..k]);
      OfferUsesCounts(o0, used[..k]);
      if !ok {
        return;
      }
      assert used[..k] == used;
      ghost var o1 := occurences[..];
      ok := ReportExisting(existing, played);
      ghost var m := ExistingStop(existing, played);
      OfferPositionsCounts(o1, existing[..m], played[..m]);
    }

    /** The report `CPlay` makes: one used key, the key of a move (colour
        code 1 or 2 in its low bits), and the whole board. */
    method ReportMove(key: int, existing: seq<int>, played: seq<bool>) returns (ok: bool)
      requires Valid() && 0 <= key < TwoTo32 && (key % 4 == 1 || key % 4 == 2)
      requires |existing| <= |played|
      modifies occurences, uses
      ensures Valid()
      ensures ok <==> key <= MaxPattern && ExistingStop(existing, played) == |existing|
      ensures forall i :: 0 <= i <= MaxPattern ==> uses[i] == old(uses[i]) + (if i == key then 1 else 0)
      ensures var m := if key <= MaxPattern then ExistingStop(existing, played) else 0;
        forall i :: 0 <= i <= MaxPattern ==>
          occurences[i] == old(occurences[i]) + (if i == key then 1 else 0)
                           + (if i == Mirror(key) && key <= MaxPattern then 1 else 0)
                           + CountSlots(existing[..m], played[..m], 1, i)
                           + CountSlots(existing[..m], played[..m], 2, i)
    {
      var k := if key <= MaxPattern then 1 else 0;
      UsedStopAt([key], k);
      MirrorInvolution(key);
      ok := ReportPatternUse([key], existing, played);
      forall i | 0 <= i <= MaxPattern
        ensures Count([key][..k], i) == (if i == key && key <= MaxPattern then 1 else 0)
        ensures Count([key][..k], Mirror(i)) == (if i == Mirror(key) && key <= MaxPattern then 1 else 0)
      {
        MirrorInvolution(i);
        if k == 1 {
          assert [key][..k] == [key] && [key][..0] == [];
        }
      }
    }

    /** The loop over the used keys. */
    method ReportUsed(used: seq<int>) returns (ok: bool)
      requires Valid()
      requires forall j :: 0 <= j < |used| ==> 0 <= used[j] < TwoTo32
      requires forall j :: 0 <= j < UsedStop(used) ==> Mirror(used[j]) <= MaxPattern
      modifies occurences, uses
      ensures Valid()
      ensures ok <==> UsedStop(used) == |used|
      ensures uses[..] == CountUses(old(uses[..]), used[..UsedStop(used)])
      ensures occurences[..] == OfferUses(old(occurences[..]), used[..UsedStop(used)])
    {
      var j := 0;
      while j < |used|
        invariant 0 <= j <= |used|
        invariant forall k :: 0 <= k < j ==> used[k] <= MaxPattern
        invariant Valid()
        invariant uses[..] == CountUses(old(uses[..]), used[..j])
        invariant occurences[..] == OfferUses(old(occurences[..]), used[..j])
      {
        if used[j] > MaxPattern {
          UsedStopAt(used, j);
          return false;
        }
        UsedStopAtLeast(used, j + 1);
        var pattern := used[j];
        MirrorInvolution(pattern);
        CountUse(pattern);
        assert used[..j + 1][..j] == used[..j];
        j := j + 1;
      }
      UsedStopAt(used, j);
      assert used[..j] == used;
      ok := true;
    }

    /** One used key: its use, its offer and its mirror's offer counted. */
    method CountUse(pattern: int)
      requires Valid() && 0 <= pattern <= MaxPattern && 0 <= Mirror(pattern) <= MaxPattern
      modifies occurences, uses
      ensures Valid()
      ensures uses[..] == Bump(old(uses[..]), pattern)
      ensures occurences[..] == Bump(Bump(old(occurences[..]), pattern), Mirror(pattern))
    {
      uses[pattern] := uses[pattern] + 1;
      occurences[pattern] := occurences[pattern] + 1;
      occurences[Mirror(pattern)] := occurences[Mirror(pattern)] + 1;
    }

    /** The loop over the board's positions, after every used key was
        counted. */
    method ReportExisting(existing: seq<int>, played: seq<bool>) returns (ok: bool)
      requires Valid() && |existing| <= |played|
      modifies occurences
      ensures Valid()
      ensures ok <==> ExistingStop(existing, played) == |existing|
      ensures var m := ExistingStop(existing, played);
        occurences[..] == OfferPositions(old(occurences[..]), existing[..m], played[..m])
    {
      var m := 0;
      while m < |existing|
        invariant 0 <= m <= |existing|
        invariant forall k :: 0 <= k < m ==> played[k] || Slot(existing[k], 3) <= MaxPattern
        invariant Valid()
        invariant occurences[..] == OfferPositions(old(occurences[..]), existing[..m], played[..m])
      {
        if !played[m] {
          if Slot(existing[m], 3) > MaxPattern {
            ExistingStopAt(existing, played, m);
            return false;
          }
          CountOffer(existing[m]);
        }
        assert existing[..m + 1][..m] == existing[..m];
        assert played[..m + 1][..m] == played[..m];
        m := m + 1;
      }
      ExistingStopAt(existing, played, m);
      ok := true;
    }

    /** One unplayed position: its pattern counted as on offer to both
        players, at slots 1 and 2. */
    method CountOffer(e: int)
      requires Valid() && Slot(e, 3) <= MaxPattern
      modifies occurences
      ensures Valid()
      ensures occurences[..] == Bump(Bump(old(occurences[..]), Slot(e, 1)), Slot(e, 2))
    {
      occurences[Slot(e, 1)] := occurences[Slot(e, 1)] + 1;
      occurences[Slot(e, 2)] := occurences[Slot(e, 2)] + 1;
    }
  }

  // ---------------------------------------------------------------------------
  // Playing a move

  /** On a consistent board the board loop never aborts: every unplayed
      position is a board cell, whose entry is a pattern below 4^6, so its
      slots 1 .. 3 fit below MaxPattern. */
  lemma ConsistentBoardFits(board: HashBoard)
    requires board.Valid()
    ensures forall c :: Interior(board.n, c) ==> 0 <= board.hash[c] < 4096
    ensures ExistingStop(board.hash[..], board.played[..]) == board.hash.Length
  {
    forall c | Interior(board.n, c)
      ensures 0 <= board.hash[c] < 4096
    {
      board.EntryIsPattern(c);
    }
    var h, pl := board.hash[..], board.played[..];
    forall j | 0 <= j < |h| && !pl[j]
      ensures Slot(h[j], 3) <= MaxPattern
    {
      assert board.stones[j] == Empty;
      assert Interior(board.n, j);
      SlotIsWrappedProduct(h[j], 3);
    }
    ExistingStopAt(h, pl, |h|);
  }

  /** `GtpController`: the board of the game in progress and the statistics
      gathered over all games. */
  class GtpController {
    var board: HashBoard
    const stats: SimpleStatsComputer

    /** The controller starts with a new empty board (`new HashBoard`) and
        a default-constructed statistics object whose counters are all
        zero. */
    constructor (t: Tables)
      requires t.Shape()
      modifies t.transf, t.normalRows
      ensures fresh(board) && fresh(stats) && board.t == t && board.n == t.n
      ensures board.Valid() && board.stones == InitialStones(board.n)
      ensures board.hash[..] == InitialHash(board.n) && board.played[..] == BorderFlags(board.n)
      ensures stats.Valid() && forall i :: 0 <= i <= MaxPattern ==> stats.occurences[i] == 0 && stats.uses[i] == 0
    {
      board := new HashBoard(t);
      stats := new SimpleStatsComputer();
    }

    /** `CPlay`: the stone goes on the board first, then the key of the
        move is read from the updated board and reported together with all
        entries and played flags.  The cell just played is therefore
        already marked played: it counts through its key, never as an
        unplayed position.  On a consistent board, with the cell still
        free, nothing aborts. */
    method Play(player: string, locCoords: string) returns (ok: bool)
      requires board.Shape() && board.t.Filled() && stats.Valid()
      requires ParsableText(locCoords) && ParsePosition(board.n, locCoords) < board.n * board.n
      requires ParseColor(player).Some?
      modifies board.hash, board.played, board`stones, stats.occurences, stats.uses
      ensures var p := Transf(board.n, ParsePosition(board.n, locCoords));
        board.hash[..] == AddStone(board.n, old(board.hash[..]), p, if player == "black" then 1 else 2)
        && board.played[..] == old(board.played[..])[p := true] && board.played[p]
      ensures stats.Valid()
      ensures var key := board.HashByName(player, locCoords);
        forall i :: 0 <= i <= MaxPattern ==> stats.uses[i] == old(stats.uses[i]) + (if i == key then 1 else 0)
      ensures var key := board.HashByName(player, locCoords);
        var m := if key <= MaxPattern then ExistingStop(board.hash[..], board.played[..]) else 0;
        forall i :: 0 <= i <= MaxPattern ==>
          stats.occurences[i] == old(stats.occurences[i]) + (if i == key then 1 else 0)
                                 + (if i == Mirror(key) && key <= MaxPattern then 1 else 0)
                                 + CountSlots(board.hash[..m], board.played[..m], 1, i)
                                 + CountSlots(board.hash[..m], board.played[..m], 2, i)
      ensures ok <==> board.HashByName(player, locCoords) <= MaxPattern
                      && ExistingStop(board.hash[..], board.played[..]) == board.hash.Length
      ensures old(board.Valid()) && !old(board.played[Transf(board.n, ParsePosition(board.n, locCoords))]) ==> ok
    {
      var playHash, allBoardHashes, positionsPlayed := PlaceMove(player, locCoords);
      ok := stats.ReportMove(playHash, allBoardHashes, positionsPlayed);
    }

    /** The board half of `CPlay`: `Change`, then `GetAllHashes`,
        `GetBoardSize` and `Hash` on the updated board. */
    method PlaceMove(player: string, locCoords: string) returns (playHash: int, allBoardHashes: seq<int>, positionsPlayed: seq<bool>)
      requires board.Shape() && board.t.Filled()
      requires ParsableText(locCoords) && ParsePosition(board.n, locCoords) < board.n * board.n
      requires ParseColor(player).Some?
      modifies board.hash, board.played, board`stones
      ensures var p := Transf(board.n, ParsePosition(board.n, locCoords));
        board.hash[..] == AddStone(board.n, old(board.hash[..]), p, if player == "black" then 1 else 2)
        && board.played[..] == old(board.played[..])[p := true] && board.played[p]
      ensures playHash == board.HashByName(player, locCoords)
      ensures 0 <= playHash < TwoTo32 && (playHash % 4 == 1 || playHash % 4 == 2)
      ensures allBoardHashes == board.hash[..] && positionsPlayed == board.played[..]
      ensures old(board.Valid()) && !old(board.played[Transf(board.n, ParsePosition(board.n, locCoords))]) ==>
        board.Valid() && playHash <= MaxPattern && ExistingStop(allBoardHashes, positionsPlayed) == |allBoardHashes|
    {
      ghost var p := Transf(board.n, ParsePosition(board.n, locCoords));
      ghost var wasValid, wasFree := board.Valid(), !board.played[p];
      board.ChangeByName(player, locCoords);
      var hashes := board.GetAllHashes();
      var size := board.GetBoardSize();
      playHash := board.HashByName(player, locCoords);
      if wasValid && wasFree {
        ConsistentBoardFits(board);
        board.EntryIsPattern(p);
        assert playHash < 4 * 4096;
      }
      assert hashes[..size] == hashes;
      allBoardHashes := hashes[..size];
      positionsPlayed := board.GetPositionsPlayed();
    }
  }
}
