/** Scoring after a piece locks: the combo counter over consecutive clearing
    locks, the classification of a lock (T-spins, multi-line clears, all
    clear), the back-to-back chain, and the removal of the cleared rows. */
module Score {
  import opened Wrappers
  import opened Enums
  import opened Constants
  import BoardGrid
  import Pieces

  datatype ScoreType =
    | TSpinSingle | TSpinDouble | TSpinTriple | TSpinMini
    | Tetris | AllClear | Single | Double | Triple

  /** The last kind of move made with the falling piece. */
  datatype Moves = Fall | Rotate | Side | Down | Up

  predicate IsTSpin(s: ScoreType)
  {
    s == TSpinSingle || s == TSpinDouble || s == TSpinTriple || s == TSpinMini
  }

  /** The number of rows a score is awarded for (none for a mini T-spin and
      for an all clear, which do not name a row count). */
  function RowsOf(s: ScoreType): nat
  {
    match s
    case TSpinSingle => 1
    case TSpinDouble => 2
    case TSpinTriple => 3
    case TSpinMini => 0
    case Tetris => 4
    case AllClear => 0
    case Single => 1
    case Double => 2
    case Triple => 3
  }

  // ---------------------------------------------------------------------
  // Combo
  // ---------------------------------------------------------------------

  /** The combo counter: no streak, one clearing lock, or a streak that has
      continued n times. */
  datatype ComboState = Empty | Started | Continuing(n: nat)
  {
    /** The length of the streak of clearing locks the state stands for. */
    function Depth(): nat
    {
      match this
      case Empty => 0
      case Started => 1
      case Continuing(n) => n + 1
    }

    /** `ComboState::next`: a lock that clears nothing ends the streak, any
        other lock lengthens it by one. */
    function Next(completedRows: nat): (s: ComboState)
      ensures completedRows == 0 <==> s == Empty
      ensures completedRows > 0 ==> s.Depth() == Depth() + 1
      ensures s.Continuing? ==> s.n >= 1
    {
      if completedRows == 0 then Empty
      else match this
        case Empty => Started
        case Started => Continuing(1)
        case Continuing(n) => Continuing(n + 1)
    }

    /** `ComboState::value`: the combo count, present once a streak has
        continued at least once. */
    function Value(): (v: Option<nat>)
      ensures Depth() >= 2 ==> v.Some?
      ensures v.Some? ==> Continuing? && v.value + 1 == Depth()
    {
      if Continuing? then Some(n) else None
    }
  }

  /** The state after locks clearing `counts[0]`, `counts[1]`, ... rows. */
  function Run(s: ComboState, counts: seq<nat>): ComboState
    decreases |counts|
  {
    if counts == [] then s
    else Run(s, counts[..|counts| - 1]).Next(counts[|counts| - 1])
  }

  /** The number of clearing locks at the end of `counts`. */
  function Streak(counts: seq<nat>): nat
    decreases |counts|
  {
    if counts == [] || counts[|counts| - 1] == 0 then 0
    else Streak(counts[..|counts| - 1]) + 1
  }

  /** Starting from no streak, the combo state tracks the number of
      consecutive clearing locks. */
  lemma {:induction false} ComboDepthIsStreak(counts: seq<nat>)
    ensures Run(Empty, counts).Depth() == Streak(counts)
    ensures Run(Empty, counts).Continuing? ==> Run(Empty, counts).n >= 1
    decreases |counts|
  {
    if counts != [] {
      ComboDepthIsStreak(counts[..|counts| - 1]);
    }
  }

  /** The combo value after a history of locks is one less than the length
      of the current streak, and absent for streaks shorter than two. */
  lemma ComboValueIsStreak(counts: seq<nat>)
    ensures Run(Empty, counts).Value()
            == (if Streak(counts) >= 2 then Some(Streak(counts) - 1) else None)
  {
    ComboDepthIsStreak(counts);
  }

  /** The combo states of the crate's own example history of locks
      clearing 1, 2, 1, 2, 0, 1, 1, 2, 0, 0, 1, 0 rows. */
  lemma ComboExample()
    ensures Empty.Next(1) == Started
    ensures Started.Next(2) == Continuing(1)
    ensures Continuing(1).Next(1) == Continuing(2)
    ensures Continuing(2).Next(2) == Continuing(3)
    ensures Continuing(3).Next(0) == Empty
    ensures Empty.Next(1) == Started
    ensures Started.Next(1) == Continuing(1)
    ensures Continuing(1).Next(2) == Continuing(2)
    ensures Continuing(2).Next(0) == Empty
    ensures Empty.Next(0) == Empty
    ensures Empty.Next(1) == Started
    ensures Started.Next(0) == Empty
  {
  }

  // ---------------------------------------------------------------------
  // Classification of a lock
  // ---------------------------------------------------------------------

  /** `is_b2b_worth`: every score except the plain single, double and
      triple keeps a back-to-back chain going. */
  function IsB2bWorth(s: ScoreType): (b: bool)
    ensures b <==> IsTSpin(s) || s == Tetris || s == AllClear
  {
    !(s == Single || s == Double || s == Triple)
  }

  /** The score of a lock before the all-clear check: a T piece scores a
      T-spin when its last move was a rotation, at least three corners
      around its centre are occupied and one to three rows clear; any other
      piece scores a double, triple or tetris for two to four rows. */
  function LockScore(t: PieceType, count: nat, lastMove: Moves, occupied: nat): Option<ScoreType>
  {
    if t == T then
      if count > 0 && lastMove == Rotate && occupied >= 3 then
        (if count == 1 then Some(TSpinSingle)
         else if count == 2 then Some(TSpinDouble)
         else if count == 3 then Some(TSpinTriple)
         else None)
      else None
    else if 2 <= count <= 4 then
      (if count == 2 then Some(Double) else if count == 3 then Some(Triple) else Some(Tetris))
    else None
  }

  /** When a lock scores at all, and that its score names the number of
      rows cleared and is a T-spin exactly for a T piece. */
  lemma LockScoreSpec(t: PieceType, count: nat, lastMove: Moves, occupied: nat)
    ensures var s := LockScore(t, count, lastMove, occupied);
            && (s.Some? <==> if t == T then lastMove == Rotate && occupied >= 3 && 1 <= count <= 3
                             else 2 <= count <= 4)
            && (s.Some? ==> RowsOf(s.value) == count && (IsTSpin(s.value) <==> t == T))
  {
  }

  /** A scored lock keeps the back-to-back chain exactly when it is a T-spin
      or a tetris. */
  lemma LockScoreWorth(t: PieceType, count: nat, lastMove: Moves, occupied: nat)
    requires LockScore(t, count, lastMove, occupied).Some?
    ensures IsB2bWorth(LockScore(t, count, lastMove, occupied).value) <==> t == T || count == 4
  {
    LockScoreSpec(t, count, lastMove, occupied);
  }

  /** `is_b2b` in `finalized_piece`: rows cleared, some score before, and a
      new score worth a back-to-back. */
  predicate IsB2b(count: nat, last: Option<ScoreType>, score: Option<ScoreType>)
  {
    count > 0 && last.Some? && score.Some? && IsB2bWorth(score.value)
  }

  // ---------------------------------------------------------------------
  // T-spin corners
  // ---------------------------------------------------------------------

  /** A filled cell of the grid; positions off the grid are not set. */
  predicate GridSet(g: BoardGrid.Grid, i: int, j: int)
  {
    0 <= i < |g| && 0 <= j < |g[i]| && BoardGrid.IsFilled(g[i][j])
  }

  /** A corner counts as occupied when it lies outside the R x C field or
      holds a filled cell. */
  predicate CornerOccupied(g: BoardGrid.Grid, i: int, j: int)
  {
    !(0 <= i < R) || !(0 <= j < C) || GridSet(g, i, j)
  }

  /** The four diagonal neighbours of a centre, in the order the corner
      loop visits them. */
  function Corners(centerR: int, centerC: int): seq<(int, int)>
  {
    [(centerR - 1, centerC - 1), (centerR - 1, centerC + 1),
     (centerR + 1, centerC - 1), (centerR + 1, centerC + 1)]
  }

  function CountOccupied(g: BoardGrid.Grid, cs: seq<(int, int)>): (n: nat)
    ensures n <= |cs|
    decreases |cs|
  {
    if cs == [] then 0
    else CountOccupied(g, cs[..|cs| - 1])
         + (if CornerOccupied(g, cs[|cs| - 1].0, cs[|cs| - 1].1) then 1 else 0)
  }

  /** The number of occupied corners around a centre. */
  function CornerCount(g: BoardGrid.Grid, centerR: int, centerC: int): (n: nat)
    ensures n <= 4
  {
    CountOccupied(g, Corners(centerR, centerC))
  }

  /** Against the floor or a side wall two corners are always occupied, so a
      single filled diagonal neighbour there is enough for a T-spin. */
  lemma WallCornersOccupied(g: BoardGrid.Grid, centerR: int, centerC: int)
    requires centerR == 0 || centerC == 0 || centerR == R - 1 || centerC == C - 1
    ensures CornerCount(g, centerR, centerC) >= 2
  {
    CornerCountUnfold(g, centerR, centerC);
  }

  /** The corner count as the sum of its four terms. */
  lemma CornerCountUnfold(g: BoardGrid.Grid, centerR: int, centerC: int)
    ensures CornerCount(g, centerR, centerC)
            == (if CornerOccupied(g, centerR - 1, centerC - 1) then 1 else 0)
             + (if CornerOccupied(g, centerR - 1, centerC + 1) then 1 else 0)
             + (if CornerOccupied(g, centerR + 1, centerC - 1) then 1 else 0)
             + (if CornerOccupied(g, centerR + 1, centerC + 1) then 1 else 0)
  {
    var cs := Corners(centerR, centerC);
    assert cs[..0] == [];
    CountOccupiedStep(g, cs, 0);
    CountOccupiedStep(g, cs, 1);
    CountOccupiedStep(g, cs, 2);
    CountOccupiedStep(g, cs, 3);
    assert cs[..4] == cs;
  }

  lemma CountOccupiedStep(g: BoardGrid.Grid, cs: seq<(int, int)>, k: nat)
    requires k < |cs|
    ensures CountOccupied(g, cs[..k + 1])
            == CountOccupied(g, cs[..k]) + (if CornerOccupied(g, cs[k].0, cs[k].1) then 1 else 0)
  {
    assert cs[..k + 1][..k] == cs[..k];
  }

  /** The corner loop of `finalized_piece`: counts the occupied corners of
      the centre on the board as it is before the rows are removed. */
  method CountOccupiedCorners(board: BoardGrid.Board, centerR: int, centerC: int) returns (occupied: nat)
    requires board.Valid()
    ensures occupied == CornerCount(board.data, centerR, centerC)
  {
    ghost var cs := Corners(centerR, centerC);
    var offsets := [-1, 1];
    occupied := 0;
    var a := 0;
    while a < 2
      invariant 0 <= a <= 2
      invariant occupied == CountOccupied(board.data, cs[..2 * a])
    {
      var b := 0;
      while b < 2
        invariant 0 <= b <= 2
        invariant occupied == CountOccupied(board.data, cs[..2 * a + b])
      {
        var ei := centerR + offsets[a];
        var ej := centerC + offsets[b];
        assert cs[2 * a + b] == (ei, ej);
        CountOccupiedStep(board.data, cs, 2 * a + b);
        if !(0 <= ei < R) || !(0 <= ej < C) || board.IsSet(ei, ej) {
          occupied := occupied + 1;
        }
        b := b + 1;
      }
      a := a + 1;
    }
    assert cs[..4] == cs;
  }

  // ---------------------------------------------------------------------
  // The whole lock
  // ---------------------------------------------------------------------

  /** The score keeper's state as a value. */
  datatype Tally = Tally(combo: ComboState, lastScore: Option<ScoreType>, lastMove: Moves, backToBack: nat)

  /** The new tally after a lock that completed `count` rows, with
      `occupied` corners around the centre of the piece (looked at only for
      a T piece), leaving the board empty or not. */
  function LockTally(tally: Tally, t: PieceType, count: nat, occupied: nat, empty: bool): Tally
  {
    var score := LockScore(t, count, tally.lastMove, occupied);
    if empty then Tally(tally.combo.Next(count), Some(AllClear), tally.lastMove, 0)
    else Tally(tally.combo.Next(count), score, tally.lastMove,
               if IsB2b(count, tally.lastScore, score) then tally.backToBack + 1 else 0)
  }

  /** Reference definition of `finalized_piece`: the new tally and the new
      grid after a piece of type `t` placed at (`r`, `c`) locks on `g`. */
  function LockOutcome(tally: Tally, t: PieceType, r: int, c: int, g: BoardGrid.Grid, cols: nat): (Tally, BoardGrid.Grid)
  {
    var after := BoardGrid.Compact(g, cols);
    (LockTally(tally, t, BoardGrid.CompleteCount(g, |g|), CornerCount(g, r + 1, c + 1), BoardGrid.GridEmpty(after)),
     after)
  }

  /** A lock removes exactly the complete rows: the count it scores is the
      number of rows that disappear, empty rows take their place on top, and
      no complete row is left. */
  lemma LockClearsCompletedRows(tally: Tally, t: PieceType, r: int, c: int, g: BoardGrid.Grid, rows: nat, cols: nat)
    requires BoardGrid.IsGrid(g, rows, cols) && cols > 0
    ensures var count := BoardGrid.CompleteCount(g, rows);
            var after := LockOutcome(tally, t, r, c, g, cols).1;
            && BoardGrid.IsGrid(after, rows, cols)
            && |BoardGrid.KeepIncomplete(g)| == rows - count
            && (forall i :: rows - count <= i < rows ==> after[i] == BoardGrid.EmptyRow(cols))
            && (forall i :: 0 <= i < rows ==> !BoardGrid.RowComplete(after[i]))
  {
    BoardGrid.KeepIncompleteCount(g, rows);
    assert g[..rows] == g;
    BoardGrid.CompactHasNoCompleteRow(g, rows, cols);
  }

  /** The all-clear score is given exactly when the lock empties the board. */
  lemma LockAllClear(tally: Tally, t: PieceType, r: int, c: int, g: BoardGrid.Grid, cols: nat)
    ensures var (after, grid) := LockOutcome(tally, t, r, c, g, cols);
            after.lastScore == Some(AllClear) <==> BoardGrid.GridEmpty(grid)
  {
    LockScoreSpec(t, BoardGrid.CompleteCount(g, |g|), tally.lastMove, CornerCount(g, r + 1, c + 1));
  }

  /** The back-to-back counter either resets or grows by one, and on a lock
      that does not empty the board it grows exactly for a clearing lock
      scored worth a back-to-back after a lock that scored. */
  lemma LockBackToBack(tally: Tally, t: PieceType, r: int, c: int, g: BoardGrid.Grid, cols: nat)
    ensures var after := LockOutcome(tally, t, r, c, g, cols).0;
            || after.backToBack == 0
            || (&& after.backToBack == tally.backToBack + 1
                && BoardGrid.CompleteCount(g, |g|) > 0
                && tally.lastScore.Some?
                && after.lastScore.Some? && IsB2bWorth(after.lastScore.value)
                && after.lastScore.value != AllClear)
    ensures var (after, grid) := LockOutcome(tally, t, r, c, g, cols);
            var score := LockScore(t, BoardGrid.CompleteCount(g, |g|), tally.lastMove, CornerCount(g, r + 1, c + 1));
            !BoardGrid.GridEmpty(grid) && BoardGrid.CompleteCount(g, |g|) > 0 && tally.lastScore.Some?
              && score.Some? && IsB2bWorth(score.value)
            ==> after.backToBack == tally.backToBack + 1
  {
    LockScoreSpec(t, BoardGrid.CompleteCount(g, |g|), tally.lastMove, CornerCount(g, r + 1, c + 1));
  }

  /** The combo moves on by the number of complete rows and the last move
      is kept. */
  lemma LockCombo(tally: Tally, t: PieceType, r: int, c: int, g: BoardGrid.Grid, cols: nat)
    ensures var after := LockOutcome(tally, t, r, c, g, cols).0;
            && (after.combo == Empty <==> BoardGrid.CompleteCount(g, |g|) == 0)
            && (BoardGrid.CompleteCount(g, |g|) > 0 ==> after.combo.Depth() == tally.combo.Depth() + 1)
            && after.lastMove == tally.lastMove
  {
  }

  // ---------------------------------------------------------------------
  // The score keeper
  // ---------------------------------------------------------------------

  class ScoreUpdater {
    var currentCombo: ComboState
    var lastScore: Option<ScoreType>
    var lastMove: Moves
    var backToBack: nat

    function Snapshot(): Tally
      reads this
    {
      Tally(currentCombo, lastScore, lastMove, backToBack)
    }

    /** `ScoreUpdater::default`. */
    constructor()
      ensures Snapshot() == Tally(Empty, None, Fall, 0)
    {
      currentCombo := Empty;
      lastMove := Fall;
      lastScore := None;
      backToBack := 0;
    }

    /** `set_last_move`. */
    method SetLastMove(m: Moves)
      modifies this
      ensures Snapshot() == old(Snapshot()).(lastMove := m)
    {
      lastMove := m;
    }

    /** `finalized_piece`: scores the lock of `pwp` on `board` and removes
        the complete rows from the board. */
    method FinalizedPiece(pwp: Pieces.PieceWithPosition, board: BoardGrid.Board)
      requires board.Valid()
      modifies this, board
      ensures board.Valid()
      ensures board.data == BoardGrid.Compact(old(board.data), board.cols)
      ensures Snapshot()
              == LockTally(old(Snapshot()), pwp.piece.pieceType, BoardGrid.CompleteCount(old(board.data), board.rows),
                           CornerCount(old(board.data), old(pwp.r) + 1, old(pwp.c) + 1), BoardGrid.GridEmpty(board.data))
    {
      ghost var before := Snapshot();
      ghost var t := pwp.piece.pieceType;
      ghost var occupied := CornerCount(board.data, pwp.r + 1, pwp.c + 1);
      var ranges, completedRows := CompletedRowCount(board);
      ghost var count := completedRows;

      currentCombo := currentCombo.Next(completedRows);
      var last := lastScore;
      lastScore := ScoreOfLock(pwp.piece.pieceType, completedRows, lastMove, board, pwp.r + 1, pwp.c + 1);

      var isB2b := completedRows > 0 && last.Some? && lastScore.Some? && IsB2bWorth(lastScore.value);
      if isB2b {
        backToBack := backToBack + 1;
      } else {
        backToBack := 0;
      }

      var isEmpty := RemoveCompletedRows(board, ranges);
      if isEmpty {
        backToBack := 0;
        lastScore := Some(AllClear);
      }
      assert Snapshot() == LockTally(before, t, count, occupied, isEmpty);
    }
  }

  /** The scoring branch of `finalized_piece`: a T piece whose last move was
      a rotation looks at the corners around its centre; any other piece
      scores by the number of rows alone. */
  method ScoreOfLock(t: PieceType, completedRows: nat, lastMove: Moves, board: BoardGrid.Board, centerR: int, centerC: int)
    returns (score: Option<ScoreType>)
    requires board.Valid()
    ensures score == LockScore(t, completedRows, lastMove, CornerCount(board.data, centerR, centerC))
  {
    score := None;
    if t == T {
      if completedRows > 0 && lastMove == Rotate {
        var occupiedCorners := CountOccupiedCorners(board, centerR, centerC);
        if occupiedCorners >= 3 {
          score :=
            if completedRows == 1 then Some(TSpinSingle)
            else if completedRows == 2 then Some(TSpinDouble)
            else if completedRows == 3 then Some(TSpinTriple)
            else None;
        }
      }
    } else if 2 <= completedRows <= 4 {
      score :=
        if completedRows == 2 then Some(Double)
        else if completedRows == 3 then Some(Triple)
        else Some(Tetris);
    }
  }

  /** The first lines of `finalized_piece`: the complete-row ranges and the
      number of rows they hold. */
  method CompletedRowCount(board: BoardGrid.Board) returns (ranges: seq<(int, int)>, count: nat)
    requires board.Valid()
    ensures ranges == BoardGrid.RunsBelow(board.data, board.rows)
    ensures count == BoardGrid.CompleteCount(board.data, board.rows)
  {
    ranges := board.CompletedRows();
    BoardGrid.RunsBelowCountComplete(board.data, board.rows);
    count := BoardGrid.SumLengths(ranges);
  }

  /** The last lines of `finalized_piece`: removing the complete-row ranges
      compacts the board, which is then checked for emptiness. */
  method RemoveCompletedRows(board: BoardGrid.Board, ranges: seq<(int, int)>) returns (isEmpty: bool)
    requires board.Valid() && ranges == BoardGrid.RunsBelow(board.data, board.rows)
    modifies board
    ensures board.Valid()
    ensures board.data == BoardGrid.Compact(old(board.data), board.cols)
    ensures isEmpty == BoardGrid.GridEmpty(board.data)
  {
    ghost var g := board.data;
    board.RemoveRanges(ranges);
    BoardGrid.ClearingCompletedRowsCompacts(g, board.cols);
    isEmpty := board.IsEmpty();
  }
}
