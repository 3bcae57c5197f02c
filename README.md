# MiMHex move-selection core, modelled in Dafny

MiMHex is a Hex engine, and this project models four pieces of its move-selection logic. All of them work on a padded
board: the n x n Hex board sits inside an (n+2) x (n+2) array stored
row-major. The array's outer ring of guard cells lets every board cell reach
its six neighbours (p-A+1, p+1, p+A, p+A-1, p-1, p-A, with A = n+2) without
bounds checks. `kBoardSize` is a parameter n >= 1, and `kBoardSizeAligned` is
A = n + 2.

- **Positions** (`positions.dfy`) covers the coordinate layer:
  - `ParsePosition` turns text such as "c10" into a logical index. It uses unsigned
    32-bit arithmetic and does no validation.
  - The `Tables` class holds the `transf` and `normal_rows` tables, which
    `FillArrays` fills with nested loops.
- **Patterns** (`patterns.dfy`) defines what a hash entry means. The pattern of a cell is
  the sum over directions d of 4^d times the colour of its neighbour d, where
  empty is 0, black 1, white 2 and guard 3. The module also defines the additive update one
  stone makes to the entries, and the key `(hash << 2) | colour`.
- **HashBoards** (`hash_board.dfy`): the `HashBoard` class. Its constructor builds the empty
  board's entries with the source's border loops and `InitHash` rounds. `Change`
  adds a stone with six `+=` and a played flag. `Hash` reads a key, and the accessors expose
  the arrays. The object invariant `Valid` says that every board cell's entry is its
  pattern over a ghost colour map and that the played flags mark exactly the
  non-empty cells. `Change` keeps it on a free board cell.
- **FastSampling** (`fast_sample.dfy`): the `FastSample` class, with a weight per padded
  cell, a total per padded row and a grand total. `FillGammas` lays out the
  weights. `Change` zeroes the played cell, overwrites its six neighbours and
  repairs three row totals. `Random` selects the cell whose interval of the
  row-major cumulative weights contains a given value, using two linear scans.
  Weights are exact reals.
- **GatherPatterns** (`gather_patterns.dfy`) covers the pattern-statistics program:
  - `printHash`/`GETNUM` decode a key back into a picture of the neighbourhood.
  - The `SimpleStatsComputer` class holds the `_uses` and `_occurences` counters,
    updated in place by `reportPatternUse` with its two aborting loops.
  - `GtpController.Play` models `CPlay`'s order: `Change`, then `Hash`, then the report.

Proved about the model:
- The constructor establishes the hash invariant.
- Every `Change` on a free board cell preserves it. The incremental update equals recomputing the
  pattern, and its multipliers are `InitHash`'s seen from the opposite
  direction.
- The decoder inverts the encoder: the picture of a cell's key shows each neighbour's colour
  where that neighbour lies.
- The sampler's row totals and grand total stay exact under `Change`.
- When guard cells weigh nothing, a value below the total of the rows makes `Random` select its owner. That owner has positive weight and, with non-negative weights, is unique.
  A move on a board cell keeps guard cells at zero exactly when it writes 0 on every neighbour that is a guard cell.
- The counters follow exact counting formulas, never decrease, and a key is never used more often than it was
  on offer.
- On a consistent board with a free cell, `CPlay` never aborts.

## Model

| member | source | states |
|---|---|---|
| Positions.U32 | lib/positions.h:9-13 | the result of 32-bit unsigned arithmetic lies below 2^32 and equals the mathematical value when that is in range |
| Positions.Transf | lib/positions.h:21-23 | the padded index of a logical cell is a board (non-guard) cell |
| Positions.LogicalCellInterior | lib/positions.h:21-23 | logical cell k lies on board row k / n + 1, column k % n + 1 of the padded grid |
| Positions.ParsePosition | lib/positions.h:8-14 | the index is (row - 1) * n + column reduced modulo 2^32, with the row read as one or two digits and the column from 'a' |
| Positions.ModArith | lib/positions.h:9-13 | reducing the character differences modulo 2^32 first gives the same wrapped index |
| Positions.U32Shift | lib/positions.h:13 | adding a multiple of 2^32 does not change the 32-bit value |
| Positions.ParsePositionWellFormed | lib/positions.h:9-13 | on text naming a board cell, a 2-character text reads its row as d and a 3-character text as 10 * d1 + d2; the result is the logical index (row - 1) * n + column and lies below n * n |
| Positions.LogicalIndexInjective | lib/positions.h:13 | distinct (row, column) pairs with column < n give distinct logical indices |
| Positions.RowText | lib/positions.h:10-11 | a row number 1 .. 99 is written as one or two decimal digits |
| Positions.PositionTextRoundTrip | lib/positions.h:8-14 | parsing the text of a cell (its letter, then its 1-based row) gives back that cell's logical index |
| Positions.RowZeroWraps | lib/positions.h:10-13 | no validation: row "0" wraps to the index 2^32 - n |
| Positions.ColumnPastBoardAliases | lib/positions.h:9-13 | no validation: on every board of 1 .. 25 columns, a column letter one past the board names the first cell of the next row |
| Positions.TransfProperties | lib/positions.h:21-23 | `transf[k]` lies on padded row k / n + 1 and padded column k % n + 1 |
| Positions.TransfOfLogical | lib/positions.h:21-23 | `transf[i * n + j] == (i + 1) * A + j + 1` for every board row i and column j |
| Positions.TransfIncreasing | lib/positions.h:21-23 | `transf` is strictly increasing, hence injective |
| Positions.Tables.constructor | lib/positions.h:16-17 | both tables start zeroed, as static storage does |
| Positions.Tables.FillArrays | lib/positions.h:20-28 | afterwards both tables hold their defined contents, and a second call changes nothing (idempotence) |
| Positions.Tables.FillTransf | lib/positions.h:21-23 | after the first loop nest `transf[k]` is the padded index of logical cell k for every k < n * n |
| Positions.Tables.FillNormalRows | lib/positions.h:25-27 | after the second loop nest `normal_rows[p] == p / A` for every padded p |
| Positions.Tables.RowOfLogicalCell | lib/positions.h:16-27 | `normal_rows[transf[k]] == k / n + 1` |
| Patterns.Code | implementation/hash_board.h:10 | the colour codes are 1 and 2, with 1 exactly for black (and so 2 for white) |
| Patterns.ParseColor | implementation/hash_board.cpp:60-66 | "white" gives white, "black" gives black, every other word fails (the source asserts) |
| Patterns.InitialStones | implementation/hash_board.cpp:26-38 | the colours of a fresh board are valid: guard around an empty board |
| Patterns.PatternDigits | implementation/hash_board.cpp:71-77 | with colours 0 .. 3 a pattern lies below 4096 and its base-4 digit d is the colour of the neighbour in direction d |
| Patterns.BaseFourDigits | implementation/hash_board.cpp:71-77 | six base-4 digits spell a number below 4096 whose digits read back as those six |
| Patterns.DigitSplit | implementation/hash_board.cpp:71-77 | a number whose part at position d is x has base-4 digit d equal to x |
| Patterns.ContributionOpposite | implementation/hash_board.cpp:106-111 | `Change`'s multipliers are `InitHash`'s seen from the other side: the neighbour in direction d gets v * 4^Opposite(d), and non-neighbours get nothing |
| Patterns.PatternUpdate | implementation/hash_board.cpp:106-111 | adding colour v to cell p changes the pattern of every cell c by exactly `Change`'s contribution to c |
| Patterns.AddStone | implementation/hash_board.cpp:106-111 | the six `+=` of `Change` add v * 64, 256, 1024, 1, 4, 16 to p-A+1, p+1, p+A, p+A-1, p-1, p-A and leave every other entry, including p's own, unchanged |
| Patterns.AddStoneMatchesPattern | implementation/hash_board.cpp:102-114 | if every board cell's entry is its pattern and v goes on an empty board cell, every entry afterwards is the pattern of the new board |
| Patterns.AddStoneCommutes | implementation/hash_board.cpp:106-111 | the updates of two placements commute |
| Patterns.ReplayReadsAsWhite | implementation/hash_board.cpp:104-112 | `Change` does not check the played flag: a second black stone on a cell makes its neighbours read it as white |
| Patterns.ShiftOr | implementation/hash_board.cpp:130-137 | `(h << 2) \| colour` is a 32-bit key whose low two bits are the colour and whose upper part is h when h < 2^30 |
| HashBoards.EdgeReachedStepAt | implementation/hash_board.cpp:40-45 | round i of the `InitHash` loop reaches exactly the cells (1, i), (i, 1), (i, n) and (n, n + 1 - i) |
| HashBoards.EdgeCells | implementation/hash_board.cpp:41-44 | the four index expressions of round i name those four board cells |
| HashBoards.EdgesStart | implementation/hash_board.cpp:23-38 | before the first round no board cell has been reached and the guard cells hold GUARD |
| HashBoards.RoundUpdateAt | implementation/hash_board.cpp:40-45 | a round writes the patterns of its four cells and nothing else |
| HashBoards.EdgesStep | implementation/hash_board.cpp:40-45 | each round extends the set of board cells holding their empty-board pattern |
| HashBoards.EdgesComplete | implementation/hash_board.cpp:40-48 | after the last round every entry is the fresh board's: cells never reached do not touch the border and have pattern 0 |
| HashBoards.InnerCellPattern | implementation/hash_board.cpp:40-45 | a board cell that does not touch the border has pattern 0 on an empty board |
| HashBoards.ConsistentEntry | implementation/hash_board.cpp:71-77 | under the invariant a board cell's entry is its pattern, below 4096, with base-4 digit d the colour of neighbour d |
| HashBoards.BoardFlagCleared | implementation/hash_board.cpp:78 | `InitHash` clearing a board cell's flag leaves the guard-only flags as they are |
| HashBoards.InitialConsistent | implementation/hash_board.cpp:15-49 | the fresh board's entries (GUARD on guard cells, empty-board patterns elsewhere) and flags (exactly the guard cells) are consistent with the empty board |
| HashBoards.PlaceKeepsConsistent | implementation/hash_board.cpp:102-114 | a stone on an unplayed board cell keeps entries and flags consistent with the colours including the new stone |
| HashBoards.RowColumnIndexMismatch | implementation/hash_board.cpp:116-119 | the row/column `Change` computes row * A + column: row 1, column 0 lands on padded (2, 3), and the last board cell's index lies past the table |
| HashBoards.HashBoard.constructor | implementation/hash_board.cpp:15-49 | guard cells hold GUARD and are played, every board cell holds its empty-board pattern and is unplayed, and the invariant holds |
| HashBoards.HashBoard.GuardRows | implementation/hash_board.cpp:26-30 | the first border loop puts GUARD into padded rows 0 and A-1 of both tables and marks them played |
| HashBoards.HashBoard.GuardColumns | implementation/hash_board.cpp:32-38 | after the second border loop exactly the guard cells hold GUARD and are played |
| HashBoards.HashBoard.GuardColumnsLoop | implementation/hash_board.cpp:32-38 | the column loop marks padded columns 0 and A-1 of every row |
| HashBoards.HashBoard.InitHash | implementation/hash_board.cpp:70-79 | `InitHash` writes the pattern of `position` computed from the entries, and only that entry, and clears its played flag |
| HashBoards.HashBoard.InitRound | implementation/hash_board.cpp:41-44 | one round of the loop keeps the reached cells at their patterns and extends them by the round's four cells |
| HashBoards.HashBoard.InitEdges | implementation/hash_board.cpp:40-45 | after the loop every board cell of the initial table holds its empty-board pattern |
| HashBoards.HashBoard.EdgeRounds | implementation/hash_board.cpp:40-45 | the rounds 1 .. n reach every edge cell |
| HashBoards.HashBoard.ChangeCell | implementation/hash_board.cpp:102-114 | the entries become the six-`+=` update, only p's flag is set, and on a valid board with p a free board cell the invariant holds for the board with the new stone; otherwise the colours are unchanged |
| HashBoards.HashBoard.ChangeAt | implementation/hash_board.cpp:97-100 | the same for logical cell k, placed at `transf[k]` |
| HashBoards.HashBoard.ChangeRowColumnAsWritten | implementation/hash_board.cpp:116-119 | as written: the stone goes to `transf[row * A + column]` |
| HashBoards.HashBoard.ChangeRowColumn | implementation/hash_board.cpp:116-119 | corrected: the stone goes to padded row row + 1, column column + 1, and the invariant is kept |
| HashBoards.HashBoard.ChangeText | implementation/hash_board.cpp:121-123 | the same for a move given as text, through `ParsePosition` and `transf` |
| HashBoards.HashBoard.ChangeByName | implementation/hash_board.cpp:125-127 | the same with the colour given as "black" or "white" |
| HashBoards.HashBoard.EntryIsPattern | implementation/hash_board.cpp:71-77 | under the invariant a board cell's entry is its pattern, below 4096, with digit d the colour of neighbour d |
| HashBoards.HashBoard.HashCell | implementation/hash_board.cpp:135-138 | the key is a 32-bit value; key mod 4 is the colour, and on a valid board key / 4 is the cell's pattern and a board cell's key is below 2^14 |
| HashBoards.HashBoard.HashAt | implementation/hash_board.cpp:130-133 | the same for logical cell k through `transf` |
| HashBoards.HashBoard.HashRowColumn | implementation/hash_board.cpp:140-143 | the same for board row `row`, column `column` through row * n + column |
| HashBoards.HashBoard.HashText | implementation/hash_board.cpp:145-147 | the same for a move given as text |
| HashBoards.HashBoard.HashByName | implementation/hash_board.cpp:149-151 | the same with the colour given by name |
| HashBoards.HashBoard.HashTextMatchesRowColumn | implementation/hash_board.cpp:140-147 | the text and the row/column lookups of `Hash` agree on every cell a text can name |
| HashBoards.HashBoard.GetAllHashes | implementation/hash_board.cpp:153-156 | all A * A entries, each board cell's being its pattern on a valid board |
| HashBoards.HashBoard.GetPositionsPlayed | implementation/hash_board.cpp:158-161 | all A * A flags, set exactly on the non-empty cells of a valid board |
| HashBoards.HashBoard.GetBoardSize | implementation/hash_board.cpp:163-166 | the length of both tables |
| FastSampling.SumRangeSlice | implementation/fast_sample.cpp:29-33 | the running `sum` of a loop over an index range is the sum of that slice |
| FastSampling.RowsPrefix | implementation/fast_sample.cpp:108-112 | when every row total is its row's weight, the totals of rows before i hold exactly the weights before padded index i * A |
| FastSampling.RowsTotal | implementation/fast_sample.cpp:88-90 | the total of the row totals is the total weight |
| FastSampling.OwnerHasWeight | implementation/fast_sample.cpp:104-123 | the cell owning a value has positive weight, so a zero-weight (played) cell is never chosen |
| FastSampling.OwnerUnique | implementation/fast_sample.cpp:104-123 | with non-negative weights a value has at most one owner |
| FastSampling.GuardRowsEmpty | implementation/fast_sample.cpp:108-112 | guard rows 0 and n + 1 total nothing when guard cells weigh nothing |
| FastSampling.ScanOwner | implementation/fast_sample.cpp:116-120 | a second scan that stops at q with the remainder below q's weight has found q's interval |
| FastSampling.RowScanSelects | implementation/fast_sample.cpp:108-120 | the two scans on one row stop on a board cell that owns the value |
| FastSampling.ScanSelectsOwner | implementation/fast_sample.cpp:108-120 | on consistent totals, with r below the total, the scans stop at board row i and column j (both 1 .. n) on the owner of r |
| FastSampling.ScanResult | implementation/fast_sample.cpp:108-122 | the returned (i - 1) * n + j - 1 is the owner's logical index below n * n when r is below the total, and n * n + n (out of range, unclamped) when non-negative weights let r fall through |
| FastSampling.ScanFallsThrough | implementation/fast_sample.cpp:108-120 | a value at or above the total makes both scans run past the last row and column |
| FastSampling.RowsNonNegative | implementation/fast_sample.cpp:29-33 | totals of non-negative weights are non-negative |
| FastSampling.LaidOutTransf | implementation/fast_sample.cpp:29-32 | after the layout every logical cell's weight sits on its `transf` cell |
| FastSampling.LaidOutRow | implementation/fast_sample.cpp:29-33 | the layout gives padded row r the total of logical row r - 1 |
| FastSampling.FilledRowsAgree | implementation/fast_sample.cpp:29-35 | after `FillGammas` on clear guard cells and guard rows every row total is its row's weight and the board rows hold the whole total |
| FastSampling.ZeroValid | implementation/fast_sample.cpp:16-19 | the zeroed sampler is consistent, with total 0 |
| FastSampling.NewWeightsInOrder | implementation/fast_sample.cpp:66-86 | `Change`'s seven writes in the source's order give the new weights: 0 on p, w[d] on the neighbour in direction d (the pattern hash's direction order) |
| FastSampling.NewWeightsMoved | implementation/fast_sample.cpp:66-86 | the new weights change only p and its six neighbours |
| FastSampling.NewWeightsBordersZero | implementation/fast_sample.cpp:66-86 | on a board cell, a move keeps guard cells at weight 0 exactly when every neighbour that is a guard cell gets weight 0 |
| FastSampling.NewWeightsNonNegative | implementation/fast_sample.cpp:66-86 | on a board cell, a move keeps all weights non-negative exactly when its six new weights are non-negative |
| FastSampling.MoveRowAbove | implementation/fast_sample.cpp:66-71 | the row above the move changes its weight by w[0] + w[5] minus the old weights of p-A+1 and p-A |
| FastSampling.MoveRowBelow | implementation/fast_sample.cpp:73-78 | the row below changes by w[2] + w[3] minus the old weights of p+A and p+A-1 |
| FastSampling.MoveOwnRow | implementation/fast_sample.cpp:80-86 | the move's own row changes by w[1] + 0 + w[4] minus the old weights of p+1, p, p-1 |
| FastSampling.MoveOtherRow | implementation/fast_sample.cpp:62-90 | every other row's weight is unchanged |
| FastSampling.NewWeightsRowSums | implementation/fast_sample.cpp:62-90 | a move on a board cell changes the weights of rows R-1, R, R+1 by exactly what `Change` subtracts and adds, and no other row's |
| FastSampling.RowsRepair | implementation/fast_sample.cpp:66-86 | the three repaired totals each move by exactly the change of their row's weight |
| FastSampling.ChangeRepair | implementation/fast_sample.cpp:62-90 | `Change`'s three blocks produce the new weights, keep the other totals, move the grand total by the change of the three repaired totals, and on a board cell repair every total exactly |
| FastSampling.FastSample.constructor | implementation/fast_sample.cpp:12-23 | all weights, row totals and the grand total start at zero, then initial weights, when given, are laid out on their `transf` cells; the sampler is consistent |
| FastSampling.FastSample.FillGammas | implementation/fast_sample.cpp:25-38 | logical weights go to their `transf` cells, guard cells are untouched, row i + 1 gets logical row i's total, `all_sum` grows by the board rows' total, and the sampler is consistent afterwards exactly when `all_sum` was 0 |
| FastSampling.FastSample.FillRow | implementation/fast_sample.cpp:30-33 | the inner loop lays out one logical row and returns its total |
| FastSampling.FastSample.ChangeCell | implementation/fast_sample.cpp:59-93 | the weights become the move's new weights, only rows R-1 .. R+1 change, the grand total moves with the row totals, and on a board cell the invariant is kept; there guard cells stay at weight 0 exactly when the guard neighbours get weight 0, and weights stay non-negative exactly when the six new weights are |
| FastSampling.FastSample.ChangeRows | implementation/fast_sample.cpp:66-86 | the three blocks without the grand total |
| FastSampling.FastSample.ChangeRowAbove | implementation/fast_sample.cpp:66-71 | the first block: subtract, write w[0] and w[5], add |
| FastSampling.FastSample.ChangeRowBelow | implementation/fast_sample.cpp:73-78 | the second block: subtract, write w[2] and w[3], add |
| FastSampling.FastSample.ChangeOwnRow | implementation/fast_sample.cpp:80-86 | the third block: subtract, write w[1], 0, w[4], add |
| FastSampling.FastSample.ChangeAt | implementation/fast_sample.cpp:54-57 | the move on logical cell k through `transf`, keeping the invariant |
| FastSampling.FastSample.ChangeRowColumn | implementation/fast_sample.cpp:95-98 | the move on board row `row`, column `column` through row * n + column lands on padded (row + 1, column + 1) |
| FastSampling.FastSample.ChangeText | implementation/fast_sample.cpp:100-102 | the move given as text |
| FastSampling.FastSample.Random | implementation/fast_sample.cpp:104-123 | whenever the row totals agree with the weights (whatever `all_sum` holds, since the scans never read it) and guard cells weigh nothing, a value below the total of the rows yields the logical index below n * n of the cell owning it; with non-negative weights a value at or above that total yields n * n + n |
| GatherPatterns.ShiftIsDirectionWeight | main/gather_patterns.cpp:20-24 | a shift by 2d bits divides by 4^d, the weight of direction d |
| GatherPatterns.GetNum | main/gather_patterns.cpp:20 | `GETNUM` draws one of the four symbols |
| GatherPatterns.Centre | main/gather_patterns.cpp:23 | the centre shows the colour in the key's two low bits |
| GatherPatterns.GetNumReadsDigit | main/gather_patterns.cpp:20 | on a key 4h + colour, `GETNUM(key, 2d)` shows base-4 digit d of h |
| GatherPatterns.KeyDigit | main/gather_patterns.cpp:20 | bits 2 .. 3 of (4h + colour) / 4^d are digit d of h: the colour never spills into the digit |
| GatherPatterns.KeyPicture | main/gather_patterns.cpp:22-24 | the six shifts 0 .. 10 read the six digits of key / 4 |
| GatherPatterns.PrintHash | main/gather_patterns.cpp:18-25 | three lines of 4, 5 and 4 characters; neighbour digits 5 and 0 on top, 4 and 1 beside the colour to move, 3 and 2 below |
| GatherPatterns.PictureShowsNeighbours | main/gather_patterns.cpp:18-25 | decoding inverts `Hash` on a valid board: each neighbour's colour appears where it lies and the colour to move in the middle |
| GatherPatterns.MirrorInvolution | main/gather_patterns.cpp:61 | the mirror key has the same neighbourhood and the other colour (c to 3 - c), and mirroring twice gives back the key |
| GatherPatterns.MirrorOutsideTable | main/gather_patterns.cpp:54-61 | of the keys the abort check lets through, only MaxPattern itself has its mirror (MaxPattern + 3) outside the counter table |
| GatherPatterns.SlotIsWrappedProduct | main/gather_patterns.cpp:67-72 | the slot `e * 4 + k` is the 32-bit product, and is 4e + k for entries below 2^30 |
| GatherPatterns.Count | main/gather_patterns.cpp:53-63 | the number of occurrences is at most the length and is 0 exactly when the key is absent |
| GatherPatterns.CountSlots | main/gather_patterns.cpp:64-76 | the number of unplayed positions with a given slot is 0 exactly when none has it |
| GatherPatterns.UsedStop | main/gather_patterns.cpp:53-57 | the loop over the used keys stops at the first key above MaxPattern, or at the end |
| GatherPatterns.ExistingStop | main/gather_patterns.cpp:65-70 | the board loop stops at the first unplayed position whose slot 3 is above MaxPattern, or at the end |
| GatherPatterns.UsedStopAt | main/gather_patterns.cpp:53-57 | any index with only small keys before it and a large key (or the end) at it is the stop |
| GatherPatterns.ExistingStopAt | main/gather_patterns.cpp:65-70 | the same for the board loop |
| GatherPatterns.UsedStopAtLeast | main/gather_patterns.cpp:53-57 | the stop lies beyond every prefix of small keys |
| GatherPatterns.Bump | main/gather_patterns.cpp:59-72 | one counter goes up by one and every other stays |
| GatherPatterns.CountUsesCounts | main/gather_patterns.cpp:58-59 | counting the used keys adds to every `_uses[i]` the number of times i was used |
| GatherPatterns.OfferUsesCounts | main/gather_patterns.cpp:60-61 | counting their offers adds to every `_occurences[i]` the uses of i and of its mirror |
| GatherPatterns.OfferPositionsCounts | main/gather_patterns.cpp:71-72 | counting the board adds to every `_occurences[i]` the number of unplayed positions whose slot 1 or 2 is i |
| GatherPatterns.ReportKeepsUsesBelowOffers | main/gather_patterns.cpp:59-72 | a report never lowers a counter, and a key used no more often than offered stays so |
| GatherPatterns.SimpleStatsComputer.constructor | main/gather_patterns.cpp:42-48 | every counter 0 .. MaxPattern starts at zero |
| GatherPatterns.SimpleStatsComputer.ReportPatternUse | main/gather_patterns.cpp:50-77 | `ok` (no `exit(1)`) exactly when no used key exceeds MaxPattern and no unplayed position's slot 3 does; every counter rises by the exact number of uses, mirrored uses and unplayed offers counted before the stop, with no rollback; uses never exceed offers |
| GatherPatterns.SimpleStatsComputer.ReportMove | main/gather_patterns.cpp:136 | the report of one move key: its use, its offer and its mirror's offer, then the board's offers |
| GatherPatterns.SimpleStatsComputer.ReportUsed | main/gather_patterns.cpp:52-63 | the first loop counts exactly the keys before its stop |
| GatherPatterns.SimpleStatsComputer.CountUse | main/gather_patterns.cpp:58-61 | one used key: `_uses[p]`, `_occurences[p]` and `_occurences[mirror]` each up by one |
| GatherPatterns.SimpleStatsComputer.ReportExisting | main/gather_patterns.cpp:64-76 | the second loop counts exactly the unplayed positions before its stop |
| GatherPatterns.SimpleStatsComputer.CountOffer | main/gather_patterns.cpp:71-72 | one unplayed position: slots 1 and 2 each up by one |
| GatherPatterns.ConsistentBoardFits | main/gather_patterns.cpp:67-70 | on a valid board every board entry is below 4096, so the board loop never aborts |
| GatherPatterns.GtpController.constructor | main/gather_patterns.cpp:102-110 | the controller starts with a new valid empty board (initial entries, guard-only flags) and a new statistics object whose counters are all zero |
| GatherPatterns.GtpController.Play | main/gather_patterns.cpp:122-137 | the stone is placed first, so the played cell is already marked played and counts only through its key; the counters follow the report's formulas; on a valid board with the cell free nothing aborts |
| GatherPatterns.GtpController.PlaceMove | main/gather_patterns.cpp:129-134 | `Change`, then `GetAllHashes`, `GetBoardSize` and `Hash` read from the updated board; on a valid board with the cell free the board stays valid and the key and all slots fit |

## Left out

- `board.h`, `board.cpp` and the GTP library are not part of this model. `kBoardSize` is a parameter n >= 1 with `kBoardSizeAligned` = n + 2, and the board size is not bounded.
- `Rand::next_rand` and the float scaling of `FastSample::Random` (implementation/fast_sample.cpp:105) are replaced by the scaled value r, which is a parameter. Only the deterministic selection rule is modelled, not the distribution.
- Weights are exact reals. Float rounding, and the drift of `all_sum` over repeated subtract/add cycles, are not modelled.
- `ToAsciiArt` in both classes is left out (string-stream rendering only).
- The GTP layer is left out: `Gtp::Repl` registration, `main`, `CNewGame`'s new/delete, the reading of `CPlay`'s arguments from the stream, and the formatted output of `print`. The program's instantiation `(1 << 2 * 7) * 4` appears only as the constant MaxPattern.
- The release-build branch of `ParseColor` (implementation/hash_board.cpp:53-58) is left out. It compares a character with a string literal; only the debug branch is modelled.
- `memset`/`memcpy` and the variable-length `_init_hash` become array initialisation and a copy. The copy is modelled as building the entries in the initial table and then installing them.
- HashBoards.HashBoard.ChangeCell: the entries are unbounded integers, so 32-bit wrap-around of an entry is not modelled. It cannot occur on a valid board, where entries stay below 4096.
- GatherPatterns.SimpleStatsComputer.ReportPatternUse: counters are unbounded naturals, so the wrap-around of a 32-bit counter after 2^32 reports is not modelled.
- GatherPatterns.SimpleStatsComputer.ReportPatternUse: `exit(1)` is modelled as returning `ok == false` with the counts made so far. The keys counted before the stop keep their counts, as in the source.
- FastSampling.FastSample.Random: the source's `break` inside each loop is folded into the loop guard.
- FastSampling.FastSample.Random: its selection rule holds only while guard cells weigh nothing. `Change` on a cell at the edge of the board writes the caller's weights into the guard cells next to it (implementation/fast_sample.cpp:66-86), and nothing in the sampler zeroes them. The callers that supply the weights are not part of this model. After a move that puts positive weight on a guard cell, the scans can skip that weight or run past a row's last column, and the result (i * n) is then not the owner; for i = n it is n * n, outside the board. `NewWeightsBordersZero` states exactly which moves keep the premise.
- GatherPatterns.GtpController.Play: it does not restate that the board stays valid. `PlaceMove` states it, under the same condition.
- The colour of every cell (`stones`) is ghost state. The source keeps only the entries and the played flags; the colours are what the invariant relates them to.
- HashBoards.HashBoard.ChangeCell: it requires A <= p < A * A - A, so that all six neighbours are inside the array. The source asserts only p + A < A * A, and a smaller p would write before the array.
- FastSampling.FastSample.ChangeCell: it requires the same range, and filled coordinate tables, for the same reason. The source does not check either.
- Positions.ParsePosition: it requires at least two characters, each an ASCII character. The source reads past a shorter string.
- GatherPatterns.SimpleStatsComputer.ReportPatternUse: it requires the mirror of every counted key to lie within the counter table. The only key this excludes is MaxPattern itself (colour 0), whose mirror MaxPattern + 3 lies past the table, where the source writes out of bounds (see `MirrorOutsideTable`).

## Findings

| source | as written | input that shows it | evidently intended | confidence | as-written member | corrected member |
|---|---|---|---|---|---|---|
| implementation/hash_board.cpp:118 | `Change(color, row, column)` indexes `transf[row * kBoardSizeAligned + column]` | n >= 3, row 1, column 0: the stone lands on padded (2, 3) instead of (2, 1); row n - 1, column n - 1 reads past the n * n table | `transf[row * kBoardSize + column]`, as `Hash(color, row, column)` at line 142 and `FastSample::Change` at implementation/fast_sample.cpp:97 use | high (not executed) | HashBoards.HashBoard.ChangeRowColumnAsWritten | HashBoards.HashBoard.ChangeRowColumn |

