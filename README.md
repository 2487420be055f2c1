# Tetris rules engine — a verified model

This project models the rules engine of a Tetris game, the
`rust_tetris_core` crate. It covers:

- the board grid with row 0 at the bottom, its cell queries and the
  detection and removal of complete rows;
- the seven tetrominoes, decoded from per-rotation bitmask tables, with
  collision, moves and wall kicks from the Super Rotation System tables of
  the Tetris Guideline;
- the 7-bag randomizer with its look-ahead buffer;
- the hold slot;
- the score keeper: combo, T-spin corners, line-count classification,
  back-to-back and all clear;
- the string-to-board loader used by the crate's tests.

There is one Dafny module per source file:

| module | file |
|---|---|
| `Wrappers` | `Option` |
| `Enums` | `enums.rs` |
| `Constants` | `constants.rs` |
| `BoardGrid` | `board.rs` |
| `Pieces` | `pieces.rs` |
| `Bag` | `piece_bag.rs` |
| `Holder` | `holder.rs` |
| `Score` | `score.rs` |
| `TestUtils` | `test_utils.rs` |

The source changes the board, pieces, bag, hold slot and score keeper in
place, so each of them is a Dafny `class` with methods that carry `modifies`
clauses.

- **Board.** Its cells are a `seq<seq<Cell>>` field that the methods
  reassign. Each method is proved against a value-level reference definition:
  - `RunsBelow` is the maximal runs of complete rows;
  - `RemoveRowsSpec` and `ApplyRemovals` describe row removal;
  - `Compact` is "delete every complete row and pad with empty rows on top".
- **Piece.** The piece's local grid is a `Board` object, rebuilt on every
  rotation.
- **Bag.** The random generator is a parameter: `rng(k)` is the k-th shuffle
  of the seven types. A ghost record of the pieces handed out carries the
  7-bag invariant.
- **Score keeper.** Its state is summarised as a `Tally` value. The effect of
  one lock is the reference function `LockOutcome`.

`int` and `nat` stand for `isize`, `usize` and `u32`. Coordinates and counts
stay far from those types' bounds; the two counters that could overflow are
named under "## Left out".

## Model

| member | source | states |
|---|---|---|
| Enums.PieceTypeFromChar | rust_tetris_core/src/enums.rs:1-12 | a letter parsed as a piece type is that type's own letter |
| Enums.PieceTypeFromCharRoundTrip | rust_tetris_core/src/enums.rs:1-12 | parsing a character gives type t exactly when the character is t's letter; every type's letter parses back to it |
| Enums.FromU8 | rust_tetris_core/src/enums.rs:28-38 | 0..3 map to the rotation with that index; any other value is excluded, as it panics |
| Enums.FromU8RoundTrip | rust_tetris_core/src/enums.rs:28-38 | converting a rotation's index back gives the same rotation |
| Enums.PrevUndoesNext | rust_tetris_core/src/enums.rs:41-47 | prev(next(r)) == r |
| Enums.NextUndoesPrev | rust_tetris_core/src/enums.rs:41-47 | next(prev(r)) == r |
| Enums.FourNextsIdentity | rust_tetris_core/src/enums.rs:41-43 | four clockwise turns give the identity |
| Enums.FourPrevsIdentity | rust_tetris_core/src/enums.rs:45-47 | four counter-clockwise turns give the identity |
| Enums.NoShorterCycle | rust_tetris_core/src/enums.rs:41-43 | one, two or three clockwise turns never give the starting rotation back |
| Constants.KickTablesWellShaped | rust_tetris_core/src/constants.rs:10-30 | both kick tables have 8 rows of 5 kicks, each row starting with (0, 0) |
| Constants.KickTablesReverseNegated | rust_tetris_core/src/constants.rs:10-30 | in both tables row 2m+1 (the reverse transition) is row 2m negated componentwise |
| Constants.KickTablesRepeatedRows | rust_tetris_core/src/constants.rs:10-30 | I rows 4..7 equal rows 1, 0, 3, 2; default rows 2, 3, 6, 7 equal rows 1, 0, 5, 4 |
| Constants.OMatrixRotationInvariant | rust_tetris_core/src/constants.rs:39-40 | the O shape is the same bytes in every rotation |
| BoardGrid.EmptyRows | rust_tetris_core/src/board.rs:39-44 | k rows of cols empty cells |
| BoardGrid.Board.constructor | rust_tetris_core/src/board.rs:34-47 | a new board has the given dimensions and only empty cells |
| BoardGrid.Board.Get | rust_tetris_core/src/board.rs:49-51 | the cell read is filled exactly when `is_set` holds there |
| BoardGrid.Board.IsInBounds | rust_tetris_core/src/board.rs:53-55 | holds iff 0 <= i < rows and 0 <= j < cols |
| BoardGrid.Board.IsSet | rust_tetris_core/src/board.rs:57-63 | false off the board; otherwise holds iff the cell is filled |
| BoardGrid.Board.SetVal | rust_tetris_core/src/board.rs:73-75 | exactly cell (i, j) becomes the value; every other cell and the dimensions are unchanged |
| BoardGrid.Board.Set | rust_tetris_core/src/board.rs:65-67 | exactly cell (i, j) becomes Filled(p) and is then set |
| BoardGrid.Board.Clear | rust_tetris_core/src/board.rs:69-71 | exactly cell (i, j) becomes Empty and is then not set |
| BoardGrid.Board.IsComplete | rust_tetris_core/src/board.rs:77-79 | holds iff every cell of the row is set |
| BoardGrid.Board.IsEmpty | rust_tetris_core/src/board.rs:81-85 | holds iff no cell of the board is set |
| BoardGrid.RunStart | rust_tetris_core/src/board.rs:93-101 | the bottom of the run of complete rows through row i: every row from it up to i is complete and the row below it is not |
| BoardGrid.RunsBelow | rust_tetris_core/src/board.rs:87-119 | every reported pair (hi, lo - 1) satisfies -1 <= lo - 1 < hi < t |
| BoardGrid.Board.CompletedRows | rust_tetris_core/src/board.rs:87-119 | the top-down scan returns exactly the reference runs `RunsBelow(data, rows)` |
| BoardGrid.RunsBelowMaximal | rust_tetris_core/src/board.rs:87-119 | the runs are maximal: their rows are complete, the rows just below and just above are not, they are strictly descending and disjoint, and they cover every complete row |
| BoardGrid.RunsBelowComplete | rust_tetris_core/src/board.rs:96-101 | every row inside a reported run is complete |
| BoardGrid.RunsBelowBounded | rust_tetris_core/src/board.rs:102-109 | the row below and the row above each run are incomplete |
| BoardGrid.RunsBelowDescending | rust_tetris_core/src/board.rs:93 | runs come highest first and do not touch |
| BoardGrid.RunsBelowCovers | rust_tetris_core/src/board.rs:87-119 | every complete row lies in some reported run |
| BoardGrid.RunsBelowCountComplete | rust_tetris_core/src/score.rs:59-63 | the sum of r.0 - r.1 over the runs is the number of complete rows |
| BoardGrid.RunsBelowAtRunTop | rust_tetris_core/src/board.rs:102-115 | closing a run hi..=lo reports (hi, lo - 1) followed by the runs below lo |
| BoardGrid.SkipIncompleteRow | rust_tetris_core/src/board.rs:93-110 | an incomplete row adds no run |
| BoardGrid.CompleteCountOfRun | rust_tetris_core/src/score.rs:59-63 | a run of k complete rows adds k to the complete-row count |
| BoardGrid.RemoveRowsSpec | rust_tetris_core/src/board.rs:139-155 | removing rows keeps the number of rows |
| BoardGrid.RemoveRowsSpecAt | rust_tetris_core/src/board.rs:139-155 | rows <= to are untouched, row k above takes old row k + (from - to), and the top from - to rows are empty |
| BoardGrid.RemoveRowsSpecIsGrid | rust_tetris_core/src/board.rs:139-155 | removal keeps every row at cols cells |
| BoardGrid.Board.RemoveRows | rust_tetris_core/src/board.rs:139-155 | the board becomes `RemoveRowsSpec(old data)`, a no-op when from == to |
| BoardGrid.Board.ClearRowsBetween | rust_tetris_core/src/board.rs:148-150 | rows to+1..=from become empty and no other row changes |
| BoardGrid.Board.MoveRowsDown | rust_tetris_core/src/board.rs:152-154 | the swaps move every row above from down by from - to in order, leave rows <= to alone and leave empty rows on top |
| BoardGrid.Board.RemoveRow | rust_tetris_core/src/board.rs:135-137 | removes exactly that one row |
| BoardGrid.Board.RemoveRanges | rust_tetris_core/src/board.rs:121-125 | the board becomes the ranges removed one after another, first range first |
| BoardGrid.ApplyRemovals | rust_tetris_core/src/board.rs:121-125 | removing ranges keeps the number of rows |
| BoardGrid.ClearingCompletedRowsCompacts | rust_tetris_core/src/board.rs:121-125 | removing the ranges `completed_rows` reports deletes exactly the complete rows, keeps the others in order, and adds as many empty rows on top |
| BoardGrid.RemovingRunsCompacts | rust_tetris_core/src/board.rs:121-125 | the same, for the runs below any row t, by induction over the runs |
| BoardGrid.PartlyCompactedRemoveRun | rust_tetris_core/src/board.rs:139-155 | removing one run of complete rows from a partly compacted grid compacts it one run further |
| BoardGrid.CompactHasNoCompleteRow | rust_tetris_core/src/board.rs:121-125 | for cols > 0, no row of the result is complete, so a second clear finds nothing |
| BoardGrid.KeepIncompleteAppend | rust_tetris_core/src/board.rs:121-125 | keeping the incomplete rows distributes over concatenation, which preserves their order |
| BoardGrid.KeepIncompleteRows | rust_tetris_core/src/board.rs:121-125 | every kept row is an incomplete row of the input |
| BoardGrid.KeepIncompleteCount | rust_tetris_core/src/board.rs:121-125 | the kept rows and the complete rows add up to all rows |
| BoardGrid.NoCompleteRowNoRuns | rust_tetris_core/src/board.rs:87-119 | with no complete row, no range is reported |
| BoardGrid.Board.GetFirstSetCol | rust_tetris_core/src/board.rs:157-162 | None iff the board is empty; otherwise the smallest column holding a set cell |
| BoardGrid.Board.GetLastSetCol | rust_tetris_core/src/board.rs:164-170 | None iff the board is empty; otherwise the largest column holding a set cell |
| BoardGrid.Board.FirstSetColFrom | rust_tetris_core/src/board.rs:157-162 | the first column from j holding a set cell, None iff there is none |
| BoardGrid.Board.LastSetColBelow | rust_tetris_core/src/board.rs:164-170 | the last column below j holding a set cell, None iff there is none |
| Pieces.ShapeTablesFitPieceSize | rust_tetris_core/src/constants.rs:33-50 | every shape entry has as many bytes as the piece has rows, each byte below 2^cols, and exactly 4 set bits in all |
| Pieces.ITableFits | rust_tetris_core/src/constants.rs:34-37 | the I entries have 4 bytes of 4 bits |
| Pieces.OTableFits | rust_tetris_core/src/constants.rs:39-40 | the O entries have 3 bytes of 4 bits |
| Pieces.ZTableFits | rust_tetris_core/src/constants.rs:41-42 | the Z entries have 3 bytes of 3 bits |
| Pieces.STableFits | rust_tetris_core/src/constants.rs:43-44 | the S entries have 3 bytes of 3 bits |
| Pieces.JTableFits | rust_tetris_core/src/constants.rs:45-46 | the J entries have 3 bytes of 3 bits |
| Pieces.LTableFits | rust_tetris_core/src/constants.rs:47-48 | the L entries have 3 bytes of 3 bits |
| Pieces.TTableFits | rust_tetris_core/src/constants.rs:49-50 | the T entries have 3 bytes of 3 bits |
| Pieces.PieceGrid | rust_tetris_core/src/pieces.rs:136-152 | a piece grid has the piece's size: I 4 x 4, O 3 rows x 4 cols, the others 3 x 3 |
| Pieces.DecodeBytesAt | rust_tetris_core/src/pieces.rs:117-134 | local row k is decoded from byte len - 1 - k |
| Pieces.CountDecodedRow | rust_tetris_core/src/pieces.rs:122-132 | a decoded row has as many filled cells as its byte has bits among the top cols bits |
| Pieces.CountDecodedBytes | rust_tetris_core/src/pieces.rs:117-134 | a decoded grid has as many filled cells as the bytes have set bits |
| Pieces.PieceHasFourCells | rust_tetris_core/src/pieces.rs:117-152 | every decoded piece has exactly 4 filled cells |
| Pieces.PieceGridFourRotations | rust_tetris_core/src/pieces.rs:34-45 | four rotations give the same grid back |
| Pieces.FillRow | rust_tetris_core/src/pieces.rs:122-132 | row k becomes the decoded byte (the mask starts at bit cols - 1 and shifts right); no other row changes |
| Pieces.FillPieceMatrix | rust_tetris_core/src/pieces.rs:117-134 | each row k that has a byte becomes the decoded byte len - 1 - k; the other rows are unchanged |
| Pieces.FillRows | rust_tetris_core/src/pieces.rs:120-133 | the row loop over any byte sequence: row k takes byte len - 1 - k as far as rows and bytes go, the rest stay as they were |
| Pieces.GetPieceMatrix | rust_tetris_core/src/pieces.rs:136-144 | a fresh board of the piece's size holding the decoded grid |
| Pieces.Piece.WithRotation | rust_tetris_core/src/pieces.rs:14-24 | the piece has the given type and rotation and the decoded grid |
| Pieces.Piece.New | rust_tetris_core/src/pieces.rs:26-28 | the piece has the given type, rotation R0 and the decoded grid |
| Pieces.Piece.SetupBoard | rust_tetris_core/src/pieces.rs:30-32 | the local board becomes the grid of the current type and rotation |
| Pieces.Piece.SetRotation | rust_tetris_core/src/pieces.rs:42-45 | the rotation is replaced and the grid rebuilt |
| Pieces.Piece.RotatePiece | rust_tetris_core/src/pieces.rs:34-36 | the rotation becomes next(old rotation) and the grid is rebuilt |
| Pieces.Piece.RotatePiecePrev | rust_tetris_core/src/pieces.rs:38-40 | the rotation becomes prev(old rotation) and the grid is rebuilt |
| Pieces.AllCells | rust_tetris_core/src/pieces.rs:55-60 | lists exactly the positions of an h x w grid |
| Pieces.Piece.SetCells | rust_tetris_core/src/pieces.rs:62-65 | lists exactly the set cells of the local grid |
| Pieces.Piece.Collides | rust_tetris_core/src/pieces.rs:67-76 | holds iff some set local cell, shifted by (row, col), lands off the board or on a set cell |
| Pieces.BlockedIffNotFree | rust_tetris_core/src/pieces.rs:70-74 | a target cell blocks iff it is not an in-bounds empty cell |
| Pieces.Piece.GetKicks | rust_tetris_core/src/pieces.rs:78-97 | for an adjacent transition: `[(0, 0)]` for O, the I table row for I, the default row otherwise, selected by the transition index |
| Pieces.KickIndex | rust_tetris_core/src/pieces.rs:80-90 | a clockwise turn from r gets index 2 r, a counter-clockwise turn to r gets 2 r + 1; other pairs are excluded |
| Pieces.KicksForShape | rust_tetris_core/src/pieces.rs:92-96 | every kick list has 1 (O) or 5 entries and starts with (0, 0) |
| Pieces.KicksOfReverseTransition | rust_tetris_core/src/pieces.rs:78-97 | the kicks of the reverse transition are the forward kicks negated |
| Pieces.KickIndexOfReverse | rust_tetris_core/src/pieces.rs:80-90 | a transition and its reverse share a row pair and use different rows of it |
| Pieces.PieceWithPosition.constructor | rust_tetris_core/src/pieces.rs:161-163 | stores the position and the piece |
| Pieces.PieceWithPosition.FinalizeOn | rust_tetris_core/src/pieces.rs:185-193 | exactly the cells under a set local cell, shifted by (r, c), become Playable(type); every other cell is unchanged |
| Pieces.PieceWithPosition.StampCells | rust_tetris_core/src/pieces.rs:186-192 | the write loop stamps exactly the listed cells |
| Pieces.PieceWithPosition.CollidesLeft | rust_tetris_core/src/pieces.rs:195-197 | holds iff the piece does not fit one column to the left |
| Pieces.PieceWithPosition.CollidesRight | rust_tetris_core/src/pieces.rs:199-201 | holds iff the piece does not fit one column to the right |
| Pieces.PieceWithPosition.CollidesDown | rust_tetris_core/src/pieces.rs:203-205 | holds iff the piece does not fit one row down |
| Pieces.PieceWithPosition.CollidesKick | rust_tetris_core/src/pieces.rs:207-209 | holds iff the piece does not fit at (r + k.1, c + k.0) |
| Pieces.PieceWithPosition.TryMoveLeft | rust_tetris_core/src/pieces.rs:211-218 | moves one column left iff the piece fits there, reports whether it moved, and never changes the row |
| Pieces.PieceWithPosition.TryMoveRight | rust_tetris_core/src/pieces.rs:220-227 | moves one column right iff the piece fits there, reports whether it moved, and never changes the row |
| Pieces.PieceWithPosition.KickBy | rust_tetris_core/src/pieces.rs:229-232 | r := r - k.1 and c := c + k.0 |
| Pieces.PieceWithPosition.RotateAndKick | rust_tetris_core/src/pieces.rs:234-239 | the first kick in table order that does not collide; None iff every kick collides |
| Pieces.PieceWithPosition.FirstFreeKick | rust_tetris_core/src/pieces.rs:234-239 | the search from index `from` finds the first non-colliding kick, or None iff none is left |
| Pieces.PieceWithPosition.FirstFreeAfterCollision | rust_tetris_core/src/pieces.rs:238 | skipping a colliding kick does not change which kick is first free |
| Pieces.PieceWithPosition.MoveDown | rust_tetris_core/src/pieces.rs:241-243 | one row down, column unchanged |
| Pieces.PieceWithPosition.MoveLeft | rust_tetris_core/src/pieces.rs:245-247 | one column left, row unchanged |
| Pieces.PieceWithPosition.MoveRight | rust_tetris_core/src/pieces.rs:249-251 | one column right, row unchanged |
| Bag.ShufflesHaveSeven | rust_tetris_core/src/piece_bag.rs:54-66 | every shuffle of the seven types has seven entries |
| Bag.ShuffleDistinct | rust_tetris_core/src/piece_bag.rs:54-66 | a shuffle holds no type twice |
| Bag.StreamBlocks | rust_tetris_core/src/piece_bag.rs:68-75 | block k of the output stream is shuffle k read back to front |
| Bag.SevenBag | rust_tetris_core/src/piece_bag.rs:115-129 | every block of seven in the stream holds each type exactly once |
| Bag.ReverseMultiset | rust_tetris_core/src/piece_bag.rs:73 | reading a shuffle back to front keeps its contents |
| Bag.PieceBag.constructor | rust_tetris_core/src/piece_bag.rs:19-33 | the buffer holds bufferSize pieces at R0, the permutation and the buffer together account for every drawn shuffle, and when bufferSize > 0 fewer than 7 types are left in the permutation, e.g. 2 for a buffer of 5 |
| Bag.PieceBag.Start | rust_tetris_core/src/piece_bag.rs:26-30 | one shuffle is drawn, then count pieces move into the buffer |
| Bag.PieceBag.FillBuffer | rust_tetris_core/src/piece_bag.rs:28-30 | the constructor's loop leaves count pieces at R0 in the buffer |
| Bag.PieceBag.NextPiece | rust_tetris_core/src/piece_bag.rs:37-41 | returns the oldest buffered piece; the buffer keeps its length, the rest shifts by one and a fresh R0 piece enters at the front, of the permutation's last type (or the last type of the next shuffle when the permutation was empty), which leaves the permutation |
| Bag.PieceBag.AddTop | rust_tetris_core/src/piece_bag.rs:45-47 | the piece, which the bag takes over and so is not already buffered, goes where the next `next_piece` takes it from; nothing else changes |
| Bag.PieceBag.IterNextPieces | rust_tetris_core/src/piece_bag.rs:50-52 | at most bufferSize pieces, next to come out first, without changing the bag |
| Bag.PieceBag.FillPermutation | rust_tetris_core/src/piece_bag.rs:54-66 | only an empty permutation is refilled, with the next shuffle |
| Bag.PieceBag.NewBlockInBuffer | rust_tetris_core/src/piece_bag.rs:68-75 | pops the last type of the permutation, refilling it first only when it is empty, and pushes a fresh R0 piece of that type to the front |
| Bag.PieceBag.PushFront | rust_tetris_core/src/piece_bag.rs:73-74 | moving the popped type into the buffer keeps the stream invariant |
| Bag.OutputInBlocksOfSeven | rust_tetris_core/src/piece_bag.rs:115-129 | without `add_top`, every block of seven handed out holds each type exactly once |
| Bag.PermutationDistinct | rust_tetris_core/src/piece_bag.rs:54-75 | the internal permutation never holds a type twice |
| Bag.PreviewIsUpcoming | rust_tetris_core/src/piece_bag.rs:50-52 | without `add_top`, preview i is the type the stream hands out i pieces from now |
| Holder.HoldPiece.constructor | rust_tetris_core/src/holder.rs:9-15 | the held piece is turned back to R0 with its grid rebuilt, and the slot starts as already used |
| Holder.HoldPiece.SetHold | rust_tetris_core/src/holder.rs:17-19 | the flag becomes true |
| Holder.HoldPiece.ResetHold | rust_tetris_core/src/holder.rs:21-23 | the flag becomes false |
| Holder.CanSwap | rust_tetris_core/src/holder.rs:30-34 | an empty slot can always swap; a filled one iff its flag is false |
| Holder.HoldCycle | rust_tetris_core/src/holder.rs:41-85 | a new hold cannot swap, can after a reset and cannot after a set; a rotated piece comes back at R0 |
| Score.ComboState.Next | rust_tetris_core/src/score.rs:166-175 | a lock clearing nothing gives Empty, and only such a lock does; any other lock lengthens the streak by one |
| Score.ComboState.Value | rust_tetris_core/src/score.rs:177-183 | present only for Continuing(n), and then one less than the streak length |
| Score.ComboDepthIsStreak | rust_tetris_core/src/score.rs:166-175 | from Empty, the state after a history of locks stands for the number of trailing clearing locks |
| Score.ComboValueIsStreak | rust_tetris_core/src/score.rs:177-183 | the combo value after a history is the streak length minus one, absent below two |
| Score.ComboExample | rust_tetris_core/src/score.rs:193-215 | the states for the locks 1, 2, 1, 2, 0, 1, 1, 2, 0, 0, 1, 0 |
| Score.IsB2bWorth | rust_tetris_core/src/score.rs:152-155 | false exactly for Single, Double and Triple |
| Score.LockScoreSpec | rust_tetris_core/src/score.rs:70-114 | a T piece scores a T-spin iff its last move was a rotation, 3 or more corners are occupied and 1 to 3 rows clear; any other piece scores iff 2 to 4 rows clear; the score names the number of rows, and is a T-spin exactly for T |
| Score.LockScoreWorth | rust_tetris_core/src/score.rs:70-114 | a scored lock is worth a back-to-back iff the piece is T or four rows cleared |
| Score.WallCornersOccupied | rust_tetris_core/src/score.rs:80-89 | with the centre on the border of the 20 x 10 field, two corners count as occupied |
| Score.CornerCountUnfold | rust_tetris_core/src/score.rs:80-89 | the corner count is the sum over the four diagonal neighbours |
| Score.CountOccupiedCorners | rust_tetris_core/src/score.rs:76-89 | the nested corner loop counts exactly the corners outside 0..R x 0..C or set on the board |
| Score.ScoreOfLock | rust_tetris_core/src/score.rs:70-114 | the branch on piece type, last move and corner count yields exactly the reference lock score for the board's corner count |
| Score.LockClearsCompletedRows | rust_tetris_core/src/score.rs:58-138 | a lock removes exactly the complete rows counted, refills the top with empty rows and leaves no complete row |
| Score.LockAllClear | rust_tetris_core/src/score.rs:132-137 | the last score is AllClear iff the board is empty after the removal |
| Score.LockBackToBack | rust_tetris_core/src/score.rs:116-137 | the back-to-back counter resets to 0 or grows by one; on a lock that leaves the board non-empty it grows exactly when rows clear, an earlier lock scored and the new score is worth a back-to-back |
| Score.LockCombo | rust_tetris_core/src/score.rs:65-66 | the combo ends iff no row is complete, otherwise it grows by one; the last move is kept |
| Score.ScoreUpdater.constructor | rust_tetris_core/src/score.rs:141-150 | the state starts as (Empty, no score, Fall, 0) |
| Score.ScoreUpdater.SetLastMove | rust_tetris_core/src/score.rs:42-44 | only the last move changes |
| Score.ScoreUpdater.FinalizedPiece | rust_tetris_core/src/score.rs:58-138 | the board loses its complete rows as in `Compact`, and the state becomes the reference tally for that row count, the corner count and the board's emptiness |
| Score.CompletedRowCount | rust_tetris_core/src/score.rs:59-63 | the ranges are the reference runs and their length sum is the number of complete rows |
| Score.RemoveCompletedRows | rust_tetris_core/src/score.rs:132-134 | removing the ranges compacts the board; the result reports whether it is empty |
| TestUtils.CellCharRoundTrip | rust_tetris_core/src/test_utils.rs:23-29 | board characters and cells correspond one to one: ' ' Empty, '*' NotPlayable, a letter Playable of its type |
| TestUtils.LoadBoard | rust_tetris_core/src/test_utils.rs:7-31 | the board becomes `Loaded(old data, s)`: character k goes to row k / cols, column k % cols |
| TestUtils.LoadedReadsBack | rust_tetris_core/src/test_utils.rs:19-30 | every character reads back from its cell, cells past the string are unchanged and the dimensions stay |
| TestUtils.RowMajor | rust_tetris_core/src/test_utils.rs:19-22 | position k is row k / cols, column k % cols, and no other cell |
| TestUtils.RemoveRowsExample | rust_tetris_core/src/board.rs:259-277 | on the 5 x 3 board "*** * *********", clearing the complete rows leaves only (0, 1) filled |

## Left out

- The random generator (`StdRng`, its seeding and `shuffle`) is foreign code. The bag takes it as a function `rng` from the draw number to a permutation of the seven types. The default bag (`Default`, a buffer of 5) is the constructor with 5.
- `Display` and `Debug` formatting, and the `debug!` and `trace!` logging calls in `score.rs`, are cosmetic.
- Three piece tests expect the first shape byte to be row 0, against the code's reversed order: `pieces.rs:309-322`, `324-358` and `361-369`. The model follows the code and does not encode these tests.
- `macros.rs` (the type dispatch, written out as a plain match in `GetRotations`) and `lib.rs` (module declarations) are not part of this model.
- The row, column and piece accessors of `PieceWithPosition`, `Piece::width`/`height` and `Board::rows`/`rows_mut` are plain field reads. The score keeper's getters `get_last_score`, `get_b2b` and `get_combo` are too. The model uses the fields directly.
- `ScoreUpdater::back_to_back` and `ComboState::Continuing` are `u32` in the source. The model does not capture their overflow, which would take over four billion locks.
- Score.ScoreUpdater.FinalizedPiece: a non-T lock clearing one row leaves the last score empty, as the source does. No plain Single is ever given.
- Score.LockBackToBack: as in the source, the chain grows after any earlier score, not only a worthy one.
- Pieces.PieceWithPosition.KickBy subtracts the vertical kick from the row, while `collides_kick` adds it. Both are modelled as written.
- Pieces.PieceWithPosition.FinalizeOn requires every set cell of the piece to land on the board; off-board writes make the source panic.
- BoardGrid.Board.RemoveRows requires `to < from` inside the board, or `from == to`. Other pairs make the source panic, except that every pair with `to > from >= rows - 1` leaves both loops empty and does nothing there.
- BoardGrid.Board.Get and the cell writers require an in-bounds cell; the source panics on an index out of range.
- TestUtils.LoadBoard requires the string to fit the board and to hold only board characters; the source panics otherwise. A string is a sequence of characters, so the byte length the source checks equals the character count for the ASCII characters it accepts.
- Pieces.FillPieceMatrix takes the mask width from the board's columns, up to 8 bits (the `u8` shift); every piece board has at most 4.
- Bag.PieceBag.Valid: does not carry the buffered pieces' own `Valid()`; the pieces the bag creates are valid when made (NewBlockInBuffer), but a piece handed to AddTop is taken as given, so its board and rotation are not checked.
- Bag.PieceBag.NextPiece requires a non-empty buffer: the source unwraps `pop_back()` and panics on an empty one, which a bag built with a buffer of 0 and never given `add_top` has. The doc comment of `next_piece` (`piece_bag.rs:36`) says an empty buffer is filled from the permutation, but the code pops before it refills; the model follows the code.
- Bag.PieceBag.AddTop requires the piece not to be in the buffer already: the source moves the piece into the bag, so it cannot alias a buffered one.
