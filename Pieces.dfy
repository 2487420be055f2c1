/** Piece geometry and placement: the local grid of a piece decoded from the
    shape tables, rotation, collision against a board, the Super Rotation
    System wall kicks, and a piece at a position on the board. */
module Pieces {
  import opened Wrappers
  import opened Enums
  import opened Constants
  import opened BoardGrid

  // ---------------------------------------------------------------------
  // Decoding the shape tables

  /** `get_piece_size`: (rows, cols) of a piece's box. The O box has three
      rows and four columns. */
  function GetPieceSize(t: PieceType): (int, int)
  {
    match t
    case I => (4, 4)
    case O => (3, 4)
    case _ => (3, 3)
  }

  function PieceRows(t: PieceType): nat { if t == I then 4 else 3 }

  function PieceCols(t: PieceType): nat { if t == I || t == O then 4 else 3 }

  /** The one-bit mask of bit n. */
  function Mask(n: nat): bv8
    requires n < 8
  {
    (1 as bv8) << n
  }

  /** Shifting the mask of bit n + 1 right by one gives the mask of bit n. */
  lemma MaskShift(n: nat)
    requires n < 7
    ensures Mask(n + 1) >> 1 == Mask(n)
  {
    if n == 0 {
    } else if n == 1 {
    } else if n == 2 {
    } else if n == 3 {
    } else if n == 4 {
    } else if n == 5 {
    } else {
    }
  }

  predicate BitSet(b: bv8, n: nat)
    requires n < 8
  {
    b & Mask(n) != 0
  }

  /** One byte decoded into a row of cols cells: cell j is filled with the
      piece iff bit cols-1-j of the byte is set. */
  function DecodeRow(t: PieceType, b: bv8, cols: nat): (row: seq<Cell>)
    requires cols <= 8
    ensures |row| == cols
  {
    seq(cols, j requires 0 <= j < cols => if BitSet(b, cols - 1 - j) then Filled(Playable(t)) else Empty)
  }

  /** The local grid of a piece: row k takes the k-th byte from the end of
      its shape entry, so the last byte is the bottom row. */
  function PieceGrid(t: PieceType, r: Rotation): (g: Grid)
    ensures IsGrid(g, PieceRows(t), PieceCols(t))
  {
    DecodeBytes(t, GetRotations(t, r), PieceRows(t), PieceCols(t))
  }

  /** Bytes decoded into rows rows of cols cells, row k from the k-th byte
      counted from the end; rows without a byte stay empty. */
  function DecodeBytes(t: PieceType, bytes: seq<bv8>, rows: nat, cols: nat): (g: Grid)
    requires cols <= 8
    ensures IsGrid(g, rows, cols)
  {
    seq(rows, k requires 0 <= k < rows =>
      if k < |bytes| then DecodeRow(t, bytes[|bytes| - 1 - k], cols) else EmptyRow(cols))
  }

  /** Number of set bits among bits 0..n-1. */
  function PopCount(b: bv8, n: nat): nat
    requires n <= 8
  {
    if n == 0 then 0 else PopCount(b, n - 1) + (if BitSet(b, n - 1) then 1 else 0)
  }

  function PopCountAll(bytes: seq<bv8>, n: nat): nat
    requires n <= 8
  {
    if bytes == [] then 0 else PopCount(bytes[0], n) + PopCountAll(bytes[1..], n)
  }

  /** Number of filled cells of a row and of a grid. */
  function CountRow(row: seq<Cell>): nat
  {
    if row == [] then 0 else (if IsFilled(row[0]) then 1 else 0) + CountRow(row[1..])
  }

  function CountGrid(g: Grid): nat
  {
    if g == [] then 0 else CountRow(g[0]) + CountGrid(g[1..])
  }

  /** A shape table fits a box of rows x cols: four entries (one per
      rotation), each with one byte per row, each byte below 2^cols, and
      four set bits per entry. */
  ghost predicate TableFits(table: seq<seq<bv8>>, rows: nat, cols: nat)
    requires cols < 8
  {
    && |table| == 4
    && EntryFits(table[0], rows, cols) && EntryFits(table[1], rows, cols)
    && EntryFits(table[2], rows, cols) && EntryFits(table[3], rows, cols)
  }

  ghost predicate EntryFits(entry: seq<bv8>, rows: nat, cols: nat)
    requires cols < 8
  {
    && |entry| == rows
    && (forall k :: 0 <= k < rows ==> entry[k] < Mask(cols))
    && PopCountAll(entry, cols) == 4
  }

  // Each entry of each table is checked in a lemma of its own, so that no
  // check carries the evaluated bytes of the others.

  lemma ITableFits() ensures TableFits(IMatrix, 4, 4) {
    IEntry0Fits(); IEntry1Fits(); IEntry2Fits(); IEntry3Fits();
  }

  lemma IEntry0Fits() ensures EntryFits(IMatrix[0], 4, 4) { }
  lemma IEntry1Fits() ensures EntryFits(IMatrix[1], 4, 4) { }
  lemma IEntry2Fits() ensures EntryFits(IMatrix[2], 4, 4) { }
  lemma IEntry3Fits() ensures EntryFits(IMatrix[3], 4, 4) { }

  lemma OTableFits() ensures TableFits(OMatrix, 3, 4) {
    OEntry0Fits(); OEntry1Fits(); OEntry2Fits(); OEntry3Fits();
  }

  lemma OEntry0Fits() ensures EntryFits(OMatrix[0], 3, 4) { }
  lemma OEntry1Fits() ensures EntryFits(OMatrix[1], 3, 4) { }
  lemma OEntry2Fits() ensures EntryFits(OMatrix[2], 3, 4) { }
  lemma OEntry3Fits() ensures EntryFits(OMatrix[3], 3, 4) { }

  lemma ZTableFits() ensures TableFits(ZMatrix, 3, 3) {
    ZEntry0Fits(); ZEntry1Fits(); ZEntry2Fits(); ZEntry3Fits();
  }

  lemma ZEntry0Fits() ensures EntryFits(ZMatrix[0], 3, 3) { }
  lemma ZEntry1Fits() ensures EntryFits(ZMatrix[1], 3, 3) { }
  lemma ZEntry2Fits() ensures EntryFits(ZMatrix[2], 3, 3) { }
  lemma ZEntry3Fits() ensures EntryFits(ZMatrix[3], 3, 3) { }

  lemma STableFits() ensures TableFits(SMatrix, 3, 3) {
    SEntry0Fits(); SEntry1Fits(); SEntry2Fits(); SEntry3Fits();
  }

  lemma SEntry0Fits() ensures EntryFits(SMatrix[0], 3, 3) { }
  lemma SEntry1Fits() ensures EntryFits(SMatrix[1], 3, 3) { }
  lemma SEntry2Fits() ensures EntryFits(SMatrix[2], 3, 3) { }
  lemma SEntry3Fits() ensures EntryFits(SMatrix[3], 3, 3) { }

  lemma JTableFits() ensures TableFits(JMatrix, 3, 3) {
    JEntry0Fits(); JEntry1Fits(); JEntry2Fits(); JEntry3Fits();
  }

  lemma JEntry0Fits() ensures EntryFits(JMatrix[0], 3, 3) { }
  lemma JEntry1Fits() ensures EntryFits(JMatrix[1], 3, 3) { }
  lemma JEntry2Fits() ensures EntryFits(JMatrix[2], 3, 3) { }
  lemma JEntry3Fits() ensures EntryFits(JMatrix[3], 3, 3) { }

  lemma LTableFits() ensures TableFits(LMatrix, 3, 3) {
    LEntry0Fits(); LEntry1Fits(); LEntry2Fits(); LEntry3Fits();
  }

  lemma LEntry0Fits() ensures EntryFits(LMatrix[0], 3, 3) { }
  lemma LEntry1Fits() ensures EntryFits(LMatrix[1], 3, 3) { }
  lemma LEntry2Fits() ensures EntryFits(LMatrix[2], 3, 3) { }
  lemma LEntry3Fits() ensures EntryFits(LMatrix[3], 3, 3) { }

  lemma TTableFits() ensures TableFits(TMatrix, 3, 3) {
    TEntry0Fits(); TEntry1Fits(); TEntry2Fits(); TEntry3Fits();
  }

  lemma TEntry0Fits() ensures EntryFits(TMatrix[0], 3, 3) { }
  lemma TEntry1Fits() ensures EntryFits(TMatrix[1], 3, 3) { }
  lemma TEntry2Fits() ensures EntryFits(TMatrix[2], 3, 3) { }
  lemma TEntry3Fits() ensures EntryFits(TMatrix[3], 3, 3) { }

  /** The table of a piece type. */
  function ShapeTable(t: PieceType): seq<seq<bv8>>
  {
    match t
    case I => IMatrix
    case O => OMatrix
    case Z => ZMatrix
    case S => SMatrix
    case J => JMatrix
    case L => LMatrix
    case T => TMatrix
  }

  /** Every shape entry has one byte per row of the piece's box, each byte
      fits the box's columns, and the entry has four set bits in total. */
  lemma ShapeTablesFitPieceSize(t: PieceType, r: Rotation)
    ensures (PieceRows(t), PieceCols(t)) == GetPieceSize(t)
    ensures |GetRotations(t, r)| == PieceRows(t)
    ensures forall k :: 0 <= k < |GetRotations(t, r)| ==> GetRotations(t, r)[k] < Mask(PieceCols(t))
    ensures PopCountAll(GetRotations(t, r), PieceCols(t)) == 4
  {
    ShapeEntryFits(t, r);
  }

  lemma TableEntryFits(table: seq<seq<bv8>>, rows: nat, cols: nat, i: nat)
    requires cols < 8 && TableFits(table, rows, cols) && i < 4
    ensures EntryFits(table[i], rows, cols)
  {
    assert i == 0 || i == 1 || i == 2 || i == 3;
  }

  lemma ShapeEntryFits(t: PieceType, r: Rotation)
    ensures EntryFits(GetRotations(t, r), PieceRows(t), PieceCols(t))
  {
    ShapeTableFits(t);
    TableEntryFits(ShapeTable(t), PieceRows(t), PieceCols(t), r.Index());
    assert GetRotations(t, r) == ShapeTable(t)[r.Index()];
  }

  lemma ShapeTableFits(t: PieceType)
    ensures TableFits(ShapeTable(t), PieceRows(t), PieceCols(t))
  {
    match t
    case I => ITableFits();
    case O => OTableFits();
    case Z => ZTableFits();
    case S => STableFits();
    case J => JTableFits();
    case L => LTableFits();
    case T => TTableFits();
  }

  /** A decoded row holds as many filled cells as the byte has set bits. */
  lemma {:induction false} CountDecodedRow(t: PieceType, b: bv8, cols: nat)
    requires cols <= 8
    ensures CountRow(DecodeRow(t, b, cols)) == PopCount(b, cols)
    decreases cols
  {
    if cols > 0 {
      var row := DecodeRow(t, b, cols);
      assert row[1..] == DecodeRow(t, b, cols - 1);
      CountDecodedRow(t, b, cols - 1);
    }
  }

  lemma {:induction false} PopCountAllAppend(a: seq<bv8>, b: seq<bv8>, n: nat)
    requires n <= 8
    ensures PopCountAll(a + b, n) == PopCountAll(a, n) + PopCountAll(b, n)
    decreases |a|
  {
    if a == [] {
      assert a + b == b;
    } else {
      assert (a + b)[1..] == a[1..] + b;
      PopCountAllAppend(a[1..], b, n);
    }
  }

  /** The decoded grid holds as many filled cells as the bytes have set
      bits. */
  lemma {:induction false} CountDecodedBytes(t: PieceType, bytes: seq<bv8>, cols: nat)
    requires cols <= 8
    ensures CountGrid(DecodeBytes(t, bytes, |bytes|, cols)) == PopCountAll(bytes, cols)
    decreases |bytes|
  {
    if bytes != [] {
      var g := DecodeBytes(t, bytes, |bytes|, cols);
      var last := |bytes| - 1;
      var front := bytes[..last];
      assert g[1..] == DecodeBytes(t, front, |front|, cols);
      CountDecodedBytes(t, front, cols);
      CountDecodedRow(t, bytes[last], cols);
      assert bytes == front + [bytes[last]];
      PopCountAllAppend(front, [bytes[last]], cols);
    }
  }

  /** Every piece, in every rotation, covers exactly four cells. */
  lemma PieceHasFourCells(t: PieceType, r: Rotation)
    ensures CountGrid(PieceGrid(t, r)) == 4
  {
    ShapeTablesFitPieceSize(t, r);
    CountDecodedBytes(t, GetRotations(t, r), PieceCols(t));
  }

  /** Four quarter turns give back the same local grid. */
  lemma PieceGridFourRotations(t: PieceType, r: Rotation)
    ensures PieceGrid(t, r.Next().Next().Next().Next()) == PieceGrid(t, r)
  {
    FourNextsIdentity(r);
  }

  /** `fill_piece_matrix`: decodes the shape entry into the rows of a board,
      bottom row from the last byte, as far as both the rows and the bytes
      go. */
  method FillPieceMatrix(t: PieceType, matrix: Board, rotation: Rotation)
    requires matrix.Valid() && 1 <= matrix.cols <= 8
    modifies matrix
    ensures matrix.Valid()
    ensures var bytes := GetRotations(t, rotation);
      forall k :: 0 <= k < matrix.rows ==>
        matrix.data[k] == if k < |bytes| then DecodeBytes(t, bytes, matrix.rows, matrix.cols)[k] else old(matrix.data[k])
  {
    var bytes := GetRotations(t, rotation);
    FillRows(t, matrix, bytes);
  }

  /** The row loop of `fill_piece_matrix` over the bytes of one shape entry:
      row k of the board takes the byte |bytes| - 1 - k. */
  method FillRows(t: PieceType, matrix: Board, bytes: seq<bv8>)
    requires matrix.Valid() && 1 <= matrix.cols <= 8
    modifies matrix
    ensures matrix.Valid()
    ensures forall k :: 0 <= k < matrix.rows ==>
      matrix.data[k] == if k < |bytes| then DecodeBytes(t, bytes, matrix.rows, matrix.cols)[k] else old(matrix.data[k])
  {
    var n := if |bytes| < matrix.rows then |bytes| else matrix.rows;
    for k := 0 to n
      invariant matrix.Valid()
      invariant forall m :: 0 <= m < k ==> matrix.data[m] == DecodeRow(t, bytes[|bytes| - 1 - m], matrix.cols)
      invariant forall m :: k <= m < matrix.rows ==> matrix.data[m] == old(matrix.data[m])
    {
      FillRow(t, matrix, k, bytes[|bytes| - 1 - k]);
    }
    forall k | 0 <= k < matrix.rows && k < |bytes|
      ensures matrix.data[k] == DecodeBytes(t, bytes, matrix.rows, matrix.cols)[k]
    {
      DecodeBytesAt(t, bytes, matrix.rows, matrix.cols, k);
    }
  }

  lemma DecodeBytesAt(t: PieceType, bytes: seq<bv8>, rows: nat, cols: nat, k: nat)
    requires cols <= 8 && k < rows && k < |bytes|
    ensures DecodeBytes(t, bytes, rows, cols)[k] == DecodeRow(t, bytes[|bytes| - 1 - k], cols)
  {
  }

  /** The inner loop of `fill_piece_matrix`: the column mask starts at bit
      cols-1 and moves right by one bit per cell of row k. */
  method FillRow(t: PieceType, matrix: Board, k: nat, row: bv8)
    requires matrix.Valid() && 1 <= matrix.cols <= 8 && k < matrix.rows
    modifies matrix
    ensures matrix.Valid()
    ensures matrix.data == old(matrix.data)[k := DecodeRow(t, row, matrix.cols)]
  {
    ghost var g := matrix.data;
    var cols := matrix.cols;
    ghost var target := DecodeRow(t, row, cols);
    var acc: bv8 := Mask(cols - 1);
    for j := 0 to cols
      invariant matrix.Valid() && matrix.cols == cols
      invariant j < cols ==> acc == Mask(cols - 1 - j)
      invariant RowWrittenUpTo(matrix.data, g, k, j, target)
    {
      var cell := if row & acc == 0 then Empty else Filled(Playable(t));
      DecodedCellByMask(t, row, cols, j, acc);
      RowWrittenStep(matrix.data, g, k, j, target, cell);
      matrix.SetVal(k, j, cell);
      if j + 1 < cols {
        MaskShift(cols - 2 - j);
      }
      acc := acc >> 1;
    }
    RowWrittenDone(matrix.data, g, k, target);
  }

  /** Row k of d agrees with `target` on columns 0..j and every other row of
      d is as in g. */
  ghost predicate RowWrittenUpTo(d: Grid, g: Grid, k: nat, j: nat, target: seq<Cell>)
  {
    |d| == |g| && k < |d| && |d[k]| == |g[k]| == |target| && j <= |target| &&
    (forall m :: 0 <= m < |d| && m != k ==> d[m] == g[m]) &&
    (forall jj :: 0 <= jj < j ==> d[k][jj] == target[jj])
  }

  lemma RowWrittenStep(d: Grid, g: Grid, k: nat, j: nat, target: seq<Cell>, cell: Cell)
    requires RowWrittenUpTo(d, g, k, j, target) && j < |target| && cell == target[j]
    ensures RowWrittenUpTo(d[k := d[k][j := cell]], g, k, j + 1, target)
  {
  }

  lemma RowWrittenDone(d: Grid, g: Grid, k: nat, target: seq<Cell>)
    requires RowWrittenUpTo(d, g, k, |target|, target)
    ensures d == g[k := target]
  {
    assert d[k] == target;
    assert forall m :: 0 <= m < |d| ==> d[m] == g[k := target][m];
  }

  /** Testing the byte against the mask of bit cols-1-j decides cell j of the
      decoded row. */
  lemma DecodedCellByMask(t: PieceType, row: bv8, cols: nat, j: nat, acc: bv8)
    requires cols <= 8 && j < cols && acc == Mask(cols - 1 - j)
    ensures (if row & acc == 0 then Empty else Filled(Playable(t))) == DecodeRow(t, row, cols)[j]
  {
    DecodeRowAt(t, row, cols, j);
    BitSetByMask(row, cols - 1 - j, acc);
  }

  lemma DecodeRowAt(t: PieceType, row: bv8, cols: nat, j: nat)
    requires cols <= 8 && j < cols
    ensures DecodeRow(t, row, cols)[j] == if BitSet(row, cols - 1 - j) then Filled(Playable(t)) else Empty
  {
  }

  lemma BitSetByMask(b: bv8, n: nat, acc: bv8)
    requires n < 8 && acc == Mask(n)
    ensures BitSet(b, n) <==> b & acc != 0
  {
  }

  /** `get_piece_matrix`: a fresh board of the piece's size holding the
      decoded shape. */
  method GetPieceMatrix(t: PieceType, rotation: Rotation) returns (matrix: Board)
    ensures fresh(matrix) && matrix.Valid()
    ensures matrix.rows == PieceRows(t) && matrix.cols == PieceCols(t)
    ensures matrix.data == PieceGrid(t, rotation)
  {
    var (r, c) := GetPieceSize(t);
    ShapeTablesFitPieceSize(t, rotation);
    matrix := new Board(r, c);
    FillPieceMatrix(t, matrix, rotation);
    assert matrix.data == DecodeBytes(t, GetRotations(t, rotation), r, c);
  }

  // ---------------------------------------------------------------------
  // Cells of a local grid

  /** The cells (i, j) with i in 0..h and j in 0..w, row by row. The
      contract states which cells are listed, not their order: collision and
      stamping do not depend on it. */
  function AllCells(h: nat, w: nat): (cells: seq<(int, int)>)
    ensures forall p :: p in cells <==> 0 <= p.0 < h && 0 <= p.1 < w
  {
    if h == 0 then [] else AllCells(h - 1, w) + RowCells(h - 1, w)
  }

  /** The cells (i, j) with j in 0..w. */
  function RowCells(i: int, w: nat): (cells: seq<(int, int)>)
    ensures forall p :: p in cells <==> p.0 == i && 0 <= p.1 < w
  {
    if w == 0 then [] else RowCells(i, w - 1) + [(i, w - 1)]
  }

  /** Reading a grid after a single-cell write. */
  lemma UpdatedCell(g: Grid, x: int, y: int, v: Cell, a: int, b: int)
    requires 0 <= x < |g| && 0 <= y < |g[x]| && 0 <= a < |g| && 0 <= b < |g[a]|
    ensures g[x := g[x][y := v]][a][b] == if a == x && b == y then v else g[a][b]
  {
  }

  lemma PrefixExtend(s: seq<(int, int)>, k: nat)
    requires k < |s|
    ensures s[..k + 1] == s[..k] + [s[k]]
  {
  }

  lemma PrefixWhole(s: seq<(int, int)>)
    ensures s[..|s|] == s
  {
  }

  /** cur is g with v written at (a + r, b + c) for every (a, b) in done. */
  ghost predicate Stamped(cur: Grid, g: Grid, done: seq<(int, int)>, r: int, c: int, v: Cell)
  {
    && |cur| == |g| && (forall a :: 0 <= a < |g| ==> |cur[a]| == |g[a]|)
    && forall a, b :: 0 <= a < |g| && 0 <= b < |g[a]| ==>
      cur[a][b] == if (a - r, b - c) in done then v else g[a][b]
  }

  lemma StampedAt(cur: Grid, g: Grid, done: seq<(int, int)>, r: int, c: int, v: Cell, a: int, b: int)
    requires Stamped(cur, g, done, r, c, v) && 0 <= a < |g| && 0 <= b < |g[a]|
    ensures cur[a][b] == if (a - r, b - c) in done then v else g[a][b]
  {
  }

  /** Stamping the filled cells of a piece's local board. */
  lemma StampedPiece(cur: Grid, g: Grid, cells: seq<(int, int)>, r: int, c: int, v: Cell, local: Board)
    requires local.Valid() && Stamped(cur, g, cells, r, c, v)
    requires forall p :: p in cells <==> local.IsSet(p.0, p.1)
    ensures forall i, j :: 0 <= i < |g| && 0 <= j < |g[i]| ==>
      cur[i][j] == if local.IsSet(i - r, j - c) then v else g[i][j]
  {
    forall i, j | 0 <= i < |g| && 0 <= j < |g[i]|
      ensures cur[i][j] == if local.IsSet(i - r, j - c) then v else g[i][j]
    {
      StampedAt(cur, g, cells, r, c, v, i, j);
      assert ((i - r, j - c) in cells) == local.IsSet(i - r, j - c);
    }
  }

  /** Writing v at one more offset cell extends the stamp by that cell. */
  lemma StampStep(prev: Grid, g: Grid, done: seq<(int, int)>, p: (int, int), r: int, c: int, v: Cell)
    requires Stamped(prev, g, done, r, c, v)
    requires 0 <= p.0 + r < |prev| && 0 <= p.1 + c < |prev[p.0 + r]|
    ensures Stamped(prev[p.0 + r := prev[p.0 + r][p.1 + c := v]], g, done + [p], r, c, v)
  {
    var next := prev[p.0 + r := prev[p.0 + r][p.1 + c := v]];
    forall a, b | 0 <= a < |g| && 0 <= b < |g[a]|
      ensures next[a][b] == if (a - r, b - c) in done + [p] then v else g[a][b]
    {
      UpdatedCell(prev, p.0 + r, p.1 + c, v, a, b);
    }
  }

  /** A cell is blocked for a piece when it is off the board or filled. */
  predicate Blocked(matrix: Board, i: int, j: int)
    reads matrix
    requires matrix.Valid()
  {
    j < 0 || j >= matrix.cols || i < 0 || i >= matrix.rows || matrix.IsSet(i, j)
  }

  lemma BlockedIffNotFree(matrix: Board, i: int, j: int)
    requires matrix.Valid()
    ensures Blocked(matrix, i, j) <==> !(matrix.IsInBounds(i, j) && !IsFilled(matrix.data[i][j]))
  {
  }

  // ---------------------------------------------------------------------
  // Wall kicks

  /** Index of a rotation transition in the kick tables; only the eight
      transitions between adjacent rotations have one. */
  function KickIndex(from: Rotation, to: Rotation): (idx: nat)
    requires to == from.Next() || to == from.Prev()
    ensures idx < 8
    ensures to == from.Next() ==> idx == 2 * from.Index()
    ensures to == from.Prev() ==> idx == 2 * to.Index() + 1
  {
    match from
    case R0 => if to == R90 then 0 else 7
    case R90 => if to == R0 then 1 else 2
    case R180 => if to == R90 then 3 else 4
    case R270 => if to == R180 then 5 else 6
  }

  /** The kicks tried for a piece type on a transition: one zero kick for O,
      the I table for I, the common table for the rest. */
  function KicksFor(t: PieceType, from: Rotation, to: Rotation): seq<Kick>
    requires to == from.Next() || to == from.Prev()
  {
    var idx := KickIndex(from, to);
    KickTablesWellShaped();
    match t
    case I => IKicks[idx]
    case O => [(0, 0)]
    case _ => DefaultKicks[idx]
  }

  /** Every transition tries the zero kick first; O tries nothing else and
      every other piece tries five kicks. */
  lemma KicksForShape(t: PieceType, from: Rotation, to: Rotation)
    requires to == from.Next() || to == from.Prev()
    ensures |KicksFor(t, from, to)| == (if t == O then 1 else 5)
    ensures KicksFor(t, from, to)[0] == (0, 0)
  {
    KickTablesWellShaped();
  }

  /** A transition and its reverse share a pair of table rows 2m, 2m+1. */
  lemma KickIndexOfReverse(from: Rotation, to: Rotation)
    requires to == from.Next() || to == from.Prev()
    ensures from == to.Next() || from == to.Prev()
    ensures KickIndex(from, to) / 2 == KickIndex(to, from) / 2
    ensures KickIndex(from, to) != KickIndex(to, from)
  {
  }

  /** Turning back tries the negated kicks of turning forth, in the same
      order. */
  lemma KicksOfReverseTransition(t: PieceType, from: Rotation, to: Rotation, j: nat)
    requires to == from.Next() || to == from.Prev()
    requires j < |KicksFor(t, from, to)|
    ensures from == to.Next() || from == to.Prev()
    ensures |KicksFor(t, to, from)| == |KicksFor(t, from, to)|
    ensures KicksFor(t, to, from)[j] == Negate(KicksFor(t, from, to)[j])
  {
    KickIndexOfReverse(from, to);
    KicksForShape(t, from, to);
    KicksForShape(t, to, from);
    if t != O {
      var table := KickTableRows(t, from, to);
      PairedRowsNegated(table, KickIndex(from, to), KickIndex(to, from), j);
    }
  }

  /** For a piece other than O, a transition and its reverse read two rows of
      one kick table whose paired rows are negations of each other. */
  lemma KickTableRows(t: PieceType, from: Rotation, to: Rotation) returns (table: seq<seq<Kick>>)
    requires to == from.Next() || to == from.Prev()
    requires t != O
    ensures from == to.Next() || from == to.Prev()
    ensures WellShaped(table) && ReverseRowsNegated(table)
    ensures KicksFor(t, from, to) == table[KickIndex(from, to)]
    ensures KicksFor(t, to, from) == table[KickIndex(to, from)]
  {
    KickIndexOfReverse(from, to);
    KicksForRow(t, from, to);
    KicksForRow(t, to, from);
    KickTablesReverseNegated();
    table := if t == I then IKicks else DefaultKicks;
  }

  /** The kicks of a piece other than O are one row of its table. */
  lemma KicksForRow(t: PieceType, from: Rotation, to: Rotation)
    requires to == from.Next() || to == from.Prev()
    requires t != O
    ensures KicksFor(t, from, to) == (if t == I then IKicks else DefaultKicks)[KickIndex(from, to)]
  {
    KickTablesWellShaped();
  }

  /** Two different rows of one pair 2m, 2m+1 are negations of each other. */
  lemma PairedRowsNegated(table: seq<seq<Kick>>, a: nat, b: nat, j: nat)
    requires WellShaped(table) && ReverseRowsNegated(table)
    requires a < 8 && b < 8 && a / 2 == b / 2 && a != b && j < 5
    ensures table[b][j] == Negate(table[a][j])
  {
    var m := a / 2;
    if a == 2 * m {
      assert b == 2 * m + 1;
    } else {
      assert table[2 * m + 1][j] == Negate(table[2 * m][j]);
    }
  }

  // ---------------------------------------------------------------------
  // A piece

  class Piece {
    const pieceType: PieceType
    var rotation: Rotation
    var board: Board

    ghost predicate Valid()
      reads this, board
    {
      && board.Valid()
      && board.rows == PieceRows(pieceType) && board.cols == PieceCols(pieceType)
      && board.data == PieceGrid(pieceType, rotation)
    }

    /** `Piece::with_rotation`. */
    constructor WithRotation(t: PieceType, r: Rotation)
      ensures Valid() && fresh(board)
      ensures pieceType == t && rotation == r
    {
      pieceType := t;
      rotation := r;
      board := new Board(0, 0);
      new;
      SetupBoard();
    }

    /** `Piece::new`: a piece in its spawn rotation R0. */
    constructor New(t: PieceType)
      ensures Valid() && fresh(board)
      ensures pieceType == t && rotation == R0
    {
      pieceType := t;
      rotation := R0;
      board := new Board(0, 0);
      new;
      SetupBoard();
    }

    method SetupBoard()
      modifies this
      ensures Valid() && fresh(board)
      ensures rotation == old(rotation)
    {
      board := GetPieceMatrix(pieceType, rotation);
    }

    /** `set_rotation`: a new rotation and a grid rebuilt for it. */
    method SetRotation(r: Rotation)
      modifies this
      ensures Valid() && fresh(board)
      ensures rotation == r
    {
      rotation := r;
      SetupBoard();
    }

    /** `rotate_piece`: one quarter turn clockwise. */
    method RotatePiece()
      modifies this
      ensures Valid() && fresh(board)
      ensures rotation == old(rotation).Next()
    {
      SetRotation(rotation.Next());
    }

    /** `rotate_piece_prev`: one quarter turn counter-clockwise. */
    method RotatePiecePrev()
      modifies this
      ensures Valid() && fresh(board)
      ensures rotation == old(rotation).Prev()
    {
      SetRotation(rotation.Prev());
    }

    /** `set_cells`: the filled local cells, row by row. The contract states
        which cells are listed, not their order, which neither `collides`
        nor `finalize_on` depends on. */
    function SetCells(): (cells: seq<(int, int)>)
      reads this, board
      requires board.Valid()
      ensures forall p :: p in cells <==> board.IsSet(p.0, p.1)
    {
      assert forall p: (int, int) :: board.IsSet(p.0, p.1) ==> p in AllCells(board.rows, board.cols);
      FilterSet(AllCells(board.rows, board.cols))
    }

    function FilterSet(cells: seq<(int, int)>): (r: seq<(int, int)>)
      reads this, board
      requires board.Valid()
      ensures forall p :: p in r <==> p in cells && board.IsSet(p.0, p.1)
    {
      if cells == [] then []
      else (if board.IsSet(cells[0].0, cells[0].1) then [cells[0]] else []) + FilterSet(cells[1..])
    }

    /** The piece placed with its local (0, 0) at (row, col) leaves every one
      of its filled cells on a free cell of the board. */
    ghost predicate Fits(row: int, col: int, matrix: Board)
      reads this, board, matrix
      requires board.Valid() && matrix.Valid()
    {
      forall i, j :: board.IsSet(i, j) ==> !Blocked(matrix, i + row, j + col)
    }

    /** `collides`: some filled cell of the piece, placed at (row, col),
        lands off the board or on a filled cell. */
    function Collides(row: int, col: int, matrix: Board): (b: bool)
      reads this, board, matrix
      requires board.Valid() && matrix.Valid()
      ensures b <==> !Fits(row, col, matrix)
    {
      AnyCollidesAllCells(row, col, matrix);
      AnyCollides(AllCells(board.rows, board.cols), row, col, matrix)
    }

    /** Scanning every cell of the piece's matrix finds a blocked one exactly
        when the piece does not fit. */
    lemma AnyCollidesAllCells(row: int, col: int, matrix: Board)
      requires board.Valid() && matrix.Valid()
      ensures AnyCollides(AllCells(board.rows, board.cols), row, col, matrix) <==> !Fits(row, col, matrix)
    {
      if !Fits(row, col, matrix) {
        var i, j :| board.IsSet(i, j) && Blocked(matrix, i + row, j + col);
        assert (i, j) in AllCells(board.rows, board.cols);
      }
    }

    function AnyCollides(cells: seq<(int, int)>, row: int, col: int, matrix: Board): (b: bool)
      reads this, board, matrix
      requires board.Valid() && matrix.Valid()
      ensures b <==> exists p :: p in cells && board.IsSet(p.0, p.1) && Blocked(matrix, p.0 + row, p.1 + col)
    {
      if cells == [] then false
      else
        (board.IsSet(cells[0].0, cells[0].1) && Blocked(matrix, cells[0].0 + row, cells[0].1 + col))
        || AnyCollides(cells[1..], row, col, matrix)
    }

    /** `get_kicks`: the kicks for turning from `from` to the current
        rotation. */
    function GetKicks(from: Rotation): (kicks: seq<Kick>)
      reads this
      requires rotation == from.Next() || rotation == from.Prev()
      ensures kicks == KicksFor(pieceType, from, rotation)
      ensures |kicks| == (if pieceType == O then 1 else 5) && kicks[0] == (0, 0)
    {
      KicksForShape(pieceType, from, rotation);
      KicksFor(pieceType, from, rotation)
    }
  }

  // ---------------------------------------------------------------------
  // A piece at a position on the board

  class PieceWithPosition {
    var r: int
    var c: int
    const piece: Piece

    ghost predicate Valid()
      reads this, piece, piece.board
    {
      piece.Valid()
    }

    constructor(r: int, c: int, piece: Piece)
      ensures this.r == r && this.c == c && this.piece == piece
    {
      this.r := r;
      this.c := c;
      this.piece := piece;
    }

    /** `finalize_on`: writes the piece's colour into the board cells under
        its filled cells; every other cell keeps its content. */
    method FinalizeOn(board: Board)
      requires piece.board.Valid() && board.Valid() && board != piece.board
      requires forall i, j :: piece.board.IsSet(i, j) ==> board.IsInBounds(i + r, j + c)
      modifies board
      ensures board.Valid()
      ensures forall i, j :: 0 <= i < board.rows && 0 <= j < board.cols ==>
        board.data[i][j] == if piece.board.IsSet(i - r, j - c) then Filled(Playable(piece.pieceType)) else old(board.data[i][j])
    {
      var cells := piece.SetCells();
      StampCells(board, cells, r, c, piece.pieceType, piece.board);
    }

    /** The loop of `finalize_on`: sets each listed cell, offset by (r, c);
        the cells are those filled in `local`. */
    static method StampCells(board: Board, cells: seq<(int, int)>, r: int, c: int, t: PieceType, ghost local: Board)
      requires board.Valid() && local.Valid() && board != local
      requires forall p :: p in cells <==> local.IsSet(p.0, p.1)
      requires forall i, j :: local.IsSet(i, j) ==> board.IsInBounds(i + r, j + c)
      modifies board
      ensures board.Valid()
      ensures forall i, j :: 0 <= i < board.rows && 0 <= j < board.cols ==>
        board.data[i][j] == if local.IsSet(i - r, j - c) then Filled(Playable(t)) else old(board.data[i][j])
    {
      ghost var g := board.data;
      ghost var v := Filled(Playable(t));
      for k := 0 to |cells|
        invariant board.Valid()
        invariant Stamped(board.data, g, cells[..k], r, c, v)
      {
        PrefixExtend(cells, k);
        var (i, j) := cells[k];
        ghost var prev := board.data;
        board.Set(i + r, j + c, Playable(t));
        StampStep(prev, g, cells[..k], (i, j), r, c, v);
      }
      PrefixWhole(cells);
      StampedPiece(board.data, g, cells, r, c, v, local);
    }

    /** `collides_left`, `collides_right`, `collides_down`: whether the piece
        would collide one step to the side or one row lower. */
    function CollidesLeft(matrix: Board): (b: bool)
      reads this, piece, piece.board, matrix
      requires Valid() && matrix.Valid()
      ensures b <==> !piece.Fits(r, c - 1, matrix)
    {
      piece.Collides(r, c - 1, matrix)
    }

    function CollidesRight(matrix: Board): (b: bool)
      reads this, piece, piece.board, matrix
      requires Valid() && matrix.Valid()
      ensures b <==> !piece.Fits(r, c + 1, matrix)
    {
      piece.Collides(r, c + 1, matrix)
    }

    function CollidesDown(matrix: Board): (b: bool)
      reads this, piece, piece.board, matrix
      requires Valid() && matrix.Valid()
      ensures b <==> !piece.Fits(r - 1, c, matrix)
    {
      piece.Collides(r - 1, c, matrix)
    }

    /** `collides_kick`: whether the piece would collide when shifted by the
        kick, horizontal part added to the column and vertical part added to
        the row. */
    function CollidesKick(matrix: Board, k: Kick): (b: bool)
      reads this, piece, piece.board, matrix
      requires Valid() && matrix.Valid()
      ensures b <==> !piece.Fits(r + k.1, c + k.0, matrix)
    {
      piece.Collides(r + k.1, c + k.0, matrix)
    }

    /** `try_move_left`: moves one column left iff the piece fits there. */
    method TryMoveLeft(matrix: Board) returns (moved: bool)
      requires Valid() && matrix.Valid()
      modifies this
      ensures moved <==> old(piece.Fits(r, c - 1, matrix))
      ensures r == old(r) && c == (if moved then old(c) - 1 else old(c))
    {
      if !CollidesLeft(matrix) {
        MoveLeft();
        moved := true;
      } else {
        moved := false;
      }
    }

    /** `try_move_right`: moves one column right iff the piece fits there. */
    method TryMoveRight(matrix: Board) returns (moved: bool)
      requires Valid() && matrix.Valid()
      modifies this
      ensures moved <==> old(piece.Fits(r, c + 1, matrix))
      ensures r == old(r) && c == (if moved then old(c) + 1 else old(c))
    {
      if !CollidesRight(matrix) {
        MoveRight();
        moved := true;
      } else {
        moved := false;
      }
    }

    /** `kick_by`: shifts the piece by a kick, the vertical part subtracted
        from the row (the opposite sign of `collides_kick`). */
    method KickBy(k: Kick)
      modifies this
      ensures r == old(r) - k.1 && c == old(c) + k.0
    {
      r := r - k.1;
      c := c + k.0;
    }

    /** `rotate_and_kick`: the first kick, in table order, that does not
        collide; None when every kick collides. */
    function RotateAndKick(prevRot: Rotation, matrix: Board): (k: Option<Kick>)
      reads this, piece, piece.board, matrix
      requires Valid() && matrix.Valid()
      requires piece.rotation == prevRot.Next() || piece.rotation == prevRot.Prev()
      ensures var kicks := piece.GetKicks(prevRot);
        && (k.None? <==> forall m :: 0 <= m < |kicks| ==> CollidesKick(matrix, kicks[m]))
        && (k.Some? ==> exists m :: FirstFree(matrix, kicks, 0, m) && kicks[m] == k.value)
    {
      FirstFreeKick(piece.GetKicks(prevRot), 0, matrix)
    }

    /** Kick m is the first one from index from on that does not collide. */
    predicate FirstFree(matrix: Board, kicks: seq<Kick>, from: nat, m: int)
      reads this, piece, piece.board, matrix
      requires Valid() && matrix.Valid()
    {
      && from <= m < |kicks| && !CollidesKick(matrix, kicks[m])
      && forall m' :: from <= m' < m ==> CollidesKick(matrix, kicks[m'])
    }

    function FirstFreeKick(kicks: seq<Kick>, from: nat, matrix: Board): (k: Option<Kick>)
      reads this, piece, piece.board, matrix
      requires Valid() && matrix.Valid() && from <= |kicks|
      ensures k.None? <==> forall m :: from <= m < |kicks| ==> CollidesKick(matrix, kicks[m])
      ensures k.Some? ==> exists m :: FirstFree(matrix, kicks, from, m) && kicks[m] == k.value
      decreases |kicks| - from
    {
      if from == |kicks| then None
      else if !CollidesKick(matrix, kicks[from]) then
        assert FirstFree(matrix, kicks, from, from);
        AllCollideStep(matrix, kicks, from);
        Some(kicks[from])
      else
        FirstFreeAfterCollision(matrix, kicks, from);
        AllCollideStep(matrix, kicks, from);
        FirstFreeKick(kicks, from + 1, matrix)
    }

    /** Every kick from index from on collides iff kick from does and every
        kick after it does. */
    lemma AllCollideStep(matrix: Board, kicks: seq<Kick>, from: nat)
      requires Valid() && matrix.Valid() && from < |kicks|
      ensures (forall m :: from <= m < |kicks| ==> CollidesKick(matrix, kicks[m]))
              <==> CollidesKick(matrix, kicks[from]) && forall m :: from + 1 <= m < |kicks| ==> CollidesKick(matrix, kicks[m])
    {
    }

    /** When kick from collides, the first free kick from from + 1 on is also
        the first free kick from from on. */
    lemma FirstFreeAfterCollision(matrix: Board, kicks: seq<Kick>, from: nat)
      requires Valid() && matrix.Valid() && from < |kicks| && CollidesKick(matrix, kicks[from])
      ensures forall m :: FirstFree(matrix, kicks, from + 1, m) ==> FirstFree(matrix, kicks, from, m)
    {
      forall m | FirstFree(matrix, kicks, from + 1, m)
        ensures FirstFree(matrix, kicks, from, m)
      {
      }
    }

    /** `move_down`, `move_left`, `move_right`: unconditional one-cell steps. */
    method MoveDown()
      modifies this
      ensures r == old(r) - 1 && c == old(c)
    {
      r := r - 1;
    }

    method MoveLeft()
      modifies this
      ensures r == old(r) && c == old(c) - 1
    {
      c := c - 1;
    }

    method MoveRight()
      modifies this
      ensures r == old(r) && c == old(c) + 1
    {
      c := c + 1;
    }
  }
}
