/** The board loader used by the crate's tests: a string read row by row,
    bottom row first, one character per cell. */
module TestUtils {
  import opened Wrappers
  import opened Enums
  import opened BoardGrid

  /** The characters a board string may hold: a space for an empty cell, a
      star for a filled cell of no piece, a piece letter for a piece cell. */
  predicate IsBoardChar(ch: char)
  {
    ch == ' ' || ch == '*' || PieceTypeFromChar(ch).Some?
  }

  predicate IsBoardString(s: string)
  {
    forall k :: 0 <= k < |s| ==> IsBoardChar(s[k])
  }

  /** The cell a character stands for. */
  function CellOf(ch: char): Cell
    requires IsBoardChar(ch)
  {
    if ch == ' ' then Empty
    else if ch == '*' then Filled(NotPlayable)
    else Filled(Playable(PieceTypeFromChar(ch).value))
  }

  /** The character that stands for a cell. */
  function CharOf(cell: Cell): char
  {
    match cell
    case Empty => ' '
    case Filled(NotPlayable) => '*'
    case Filled(Playable(t)) => t.Letter()
  }

  /** Characters and cells are in one-to-one correspondence. */
  lemma CellCharRoundTrip(ch: char, cell: Cell)
    ensures IsBoardChar(CharOf(cell)) && CellOf(CharOf(cell)) == cell
    ensures IsBoardChar(ch) ==> CharOf(CellOf(ch)) == ch
  {
    match cell
    case Filled(Playable(t)) =>
      PieceTypeFromCharRoundTrip(t.Letter(), t);
    case _ =>
  }

  /** Reference definition of `load_board`: character k of `s` lands in row
      k / cols, column k % cols; cells past the end of `s` keep their
      content. */
  function Loaded(g: Grid, s: string, cols: nat): Grid
    requires IsBoardString(s)
  {
    seq(|g|, i requires 0 <= i < |g| =>
      seq(|g[i]|, j requires 0 <= j < |g[i]| =>
        if i * cols + j < |s| then CellOf(s[i * cols + j]) else g[i][j]))
  }

  lemma MulAtLeast(a: int, b: nat)
    requires a >= 1
    ensures a * b >= b
    decreases a
  {
    if a > 1 {
      MulAtLeast(a - 1, b);
      assert a * b == (a - 1) * b + b;
    }
  }

  /** Position k of a row-major layout with `cols` columns is row k / cols,
      column k % cols, and no other position. */
  lemma RowMajor(i: nat, j: nat, cols: nat, k: nat)
    requires j < cols
    ensures i * cols + j == k <==> i == k / cols && j == k % cols
  {
    var q, r := k / cols, k % cols;
    assert k == q * cols + r;
    if i * cols + j == k {
      var d := i - q;
      assert d * cols == r - j;
      if d >= 1 {
        MulAtLeast(d, cols);
        assert false;
      } else if d <= -1 {
        MulAtLeast(-d, cols);
        assert false;
      }
    }
  }

  /** A position before rows * cols lies in one of the rows. */
  lemma RowInBounds(k: nat, rows: nat, cols: nat)
    requires k < rows * cols
    ensures cols > 0 && k / cols < rows && k % cols < cols
  {
    if cols == 0 {
      assert false;
    }
    if k / cols >= rows {
      MulAtLeast(k / cols - rows + 1, cols);
      assert false;
    }
  }

  /** Loading one more character changes exactly the cell it names. */
  lemma LoadedStep(g: Grid, s: string, rows: nat, cols: nat, k: nat)
    requires IsGrid(g, rows, cols) && IsBoardString(s) && k < |s| && k < rows * cols
    ensures (RowInBounds(k, rows, cols);
             var row := k / cols;
             var col := k % cols;
             Loaded(g, s[..k + 1], cols)
             == Loaded(g, s[..k], cols)[row := Loaded(g, s[..k], cols)[row][col := CellOf(s[k])]])
  {
    RowInBounds(k, rows, cols);
    var row := k / cols;
    var col := k % cols;
    var a := Loaded(g, s[..k + 1], cols);
    var b := Loaded(g, s[..k], cols)[row := Loaded(g, s[..k], cols)[row][col := CellOf(s[k])]];
    forall i | 0 <= i < rows
      ensures a[i] == b[i]
    {
      forall j | 0 <= j < cols
        ensures a[i][j] == b[i][j]
      {
        RowMajor(i, j, cols, k);
      }
    }
  }

  lemma LoadedNothing(g: Grid, cols: nat)
    ensures Loaded(g, [], cols) == g
  {
    forall i | 0 <= i < |g|
      ensures Loaded(g, [], cols)[i] == g[i]
    {
    }
  }

  /** `load_board`: fills the cells of `board` from `s`. A string longer
      than the board or holding any other character makes the source
      panic; here the caller must rule both out. */
  method LoadBoard(board: Board, s: string)
    requires board.Valid()
    requires |s| <= board.rows * board.cols
    requires IsBoardString(s)
    modifies board
    ensures board.Valid()
    ensures board.data == Loaded(old(board.data), s, board.cols)
  {
    ghost var g := board.data;
    var c := board.cols;
    assert s[..0] == [];
    LoadedNothing(g, c);
    for k := 0 to |s|
      invariant board.Valid()
      invariant board.data == Loaded(g, s[..k], c)
    {
      RowInBounds(k, board.rows, c);
      LoadedStep(g, s, board.rows, c, k);
      var row := k / c;
      var col := k % c;
      var ch := s[k];
      if ch == ' ' {
        board.Clear(row, col);
      } else if ch == '*' {
        board.Set(row, col, NotPlayable);
      } else {
        var pt := PieceTypeFromChar(ch);
        board.Set(row, col, Playable(pt.value));
      }
    }
    assert s[..|s|] == s;
  }

  /** What the loader makes of a string: the characters it names read back
      from the board, and the cells past the string unchanged. */
  lemma LoadedReadsBack(g: Grid, s: string, rows: nat, cols: nat)
    requires IsGrid(g, rows, cols) && IsBoardString(s) && |s| <= rows * cols
    ensures IsGrid(Loaded(g, s, cols), rows, cols)
    ensures forall k :: 0 <= k < |s| ==>
              (RowInBounds(k, rows, cols);
               CharOf(Loaded(g, s, cols)[k / cols][k % cols]) == s[k])
    ensures forall i, j :: 0 <= i < rows && 0 <= j < cols && i * cols + j >= |s| ==>
              Loaded(g, s, cols)[i][j] == g[i][j]
  {
    forall k | 0 <= k < |s|
      ensures (RowInBounds(k, rows, cols);
               CharOf(Loaded(g, s, cols)[k / cols][k % cols]) == s[k])
    {
      LoadedCharAt(g, s, rows, cols, k);
    }
  }

  lemma LoadedCharAt(g: Grid, s: string, rows: nat, cols: nat, k: nat)
    requires IsGrid(g, rows, cols) && IsBoardString(s) && k < |s| <= rows * cols
    ensures (RowInBounds(k, rows, cols);
             CharOf(Loaded(g, s, cols)[k / cols][k % cols]) == s[k])
  {
    RowInBounds(k, rows, cols);
    RowMajor(k / cols, k % cols, cols, k);
    CellCharRoundTrip(s[k], Empty);
  }

  /** The crate's row-removal example: on a 5 x 3 board loaded with
      "*** * *********" every row but the second is complete, so clearing
      them leaves the one filled cell of that row at (0, 1) and nothing
      else. */
  lemma RemoveRowsExample()
    ensures var g := Loaded(EmptyRows(5, 3), "*** * *********", 3);
            var after := ApplyRemovals(g, RunsBelow(g, 5), 3);
            |after| == 5 &&
            forall i, j :: 0 <= i < 5 && 0 <= j < 3 ==> |after[i]| == 3 && (IsFilled(after[i][j]) <==> i == 0 && j == 1)
  {
    var g := Loaded(EmptyRows(5, 3), "*** * *********", 3);
    var full := [Filled(NotPlayable), Filled(NotPlayable), Filled(NotPlayable)];
    var middle := [Empty, Filled(NotPlayable), Empty];
    LoadedExample(full, middle);
    ClearingCompletedRowsCompacts(g, 3);
    CompactExample(full, middle);
    OnlyOneCellLeft(ApplyRemovals(g, RunsBelow(g, 5), 3), middle);
  }

  lemma OnlyOneCellLeft(after: Grid, middle: seq<Cell>)
    requires middle == [Empty, Filled(NotPlayable), Empty]
    requires after == [middle] + EmptyRows(4, 3)
    ensures |after| == 5
    ensures forall i, j :: 0 <= i < 5 && 0 <= j < 3 ==> |after[i]| == 3 && (IsFilled(after[i][j]) <==> i == 0 && j == 1)
  {
  }

  lemma LoadedExample(full: seq<Cell>, middle: seq<Cell>)
    requires full == [Filled(NotPlayable), Filled(NotPlayable), Filled(NotPlayable)]
    requires middle == [Empty, Filled(NotPlayable), Empty]
    ensures Loaded(EmptyRows(5, 3), "*** * *********", 3) == [full, middle, full, full, full]
  {
    var s := "*** * *********";
    var g := Loaded(EmptyRows(5, 3), s, 3);
    assert |g| == 5 && forall i :: 0 <= i < 5 ==> |g[i]| == 3;
    forall i, j | 0 <= i < 5 && 0 <= j < 3
      ensures g[i][j] == CellOf(s[i * 3 + j])
    {
    }
    assert g[0] == full;
    assert g[1] == middle;
    assert g[2] == full;
    assert g[3] == full;
    assert g[4] == full;
  }

  lemma CompactExample(full: seq<Cell>, middle: seq<Cell>)
    requires full == [Filled(NotPlayable), Filled(NotPlayable), Filled(NotPlayable)]
    requires middle == [Empty, Filled(NotPlayable), Empty]
    ensures Compact([full, middle, full, full, full], 3) == [middle] + EmptyRows(4, 3)
  {
    var g := [full, middle, full, full, full];
    assert RowComplete(full);
    assert !IsFilled(middle[0]);
    assert g[1..] == [middle] + [full, full, full];
    KeepIncompleteAllComplete([full, full, full]);
    KeepIncompleteAppend([middle], [full, full, full]);
    assert KeepIncomplete([middle]) == [middle] by {
      assert [middle][1..] == [];
    }
    assert KeepIncomplete(g) == [middle];
  }
}
