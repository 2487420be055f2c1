/** Static data of the rules engine: the board size the scorer assumes, the
    Super Rotation System wall-kick tables, and the per-rotation bitmask
    tables that describe each piece shape. */
module Constants {
  import opened Enums

  /** Board height and width assumed by the T-spin corner test. */
  const R: int := 20
  const C: int := 10

  /** A kick offset, (horizontal, vertical). */
  type Kick = (int, int)

  /** Kicks of the I piece, one row per rotation transition
      (R0->R90, R90->R0, R90->R180, R180->R90, R180->R270, R270->R180,
      R270->R0, R0->R270), tried in order. */
  const IKicks: seq<seq<Kick>> := [
    [(0, 0), (-2, 0), (1, 0), (-2, -1), (1, 2)],
    [(0, 0), (2, 0), (-1, 0), (2, 1), (-1, -2)],
    [(0, 0), (-1, 0), (2, 0), (-1, 2), (2, -1)],
    [(0, 0), (1, 0), (-2, 0), (1, -2), (-2, 1)],
    [(0, 0), (2, 0), (-1, 0), (2, 1), (-1, -2)],
    [(0, 0), (-2, 0), (1, 0), (-2, -1), (1, 2)],
    [(0, 0), (1, 0), (-2, 0), (1, -2), (-2, 1)],
    [(0, 0), (-1, 0), (2, 0), (-1, 2), (2, -1)]
  ]

  /** Kicks of the J, L, S, T and Z pieces, rows as in IKicks. */
  const DefaultKicks: seq<seq<Kick>> := [
    [(0, 0), (-1, 0), (-1, 1), (0, -2), (-1, -2)],
    [(0, 0), (1, 0), (1, -1), (0, 2), (1, 2)],
    [(0, 0), (1, 0), (1, -1), (0, 2), (1, 2)],
    [(0, 0), (-1, 0), (-1, 1), (0, -2), (-1, -2)],
    [(0, 0), (1, 0), (1, 1), (0, -2), (1, -2)],
    [(0, 0), (-1, 0), (-1, -1), (0, 2), (-1, 2)],
    [(0, 0), (-1, 0), (-1, -1), (0, 2), (-1, 2)],
    [(0, 0), (1, 0), (1, 1), (0, -2), (1, -2)]
  ]

  /** Shape tables, one entry per rotation (R0, R90, R180, R270). Each entry
      lists the rows of the piece's box from the top down; in a row the most
      significant of the box's columns is the leftmost cell. */
  const IMatrix: seq<seq<bv8>> := [[0, 15, 0, 0], [2, 2, 2, 2], [0, 0, 15, 0], [4, 4, 4, 4]]
  const OMatrix: seq<seq<bv8>> := [[6, 6, 0], [6, 6, 0], [6, 6, 0], [6, 6, 0]]
  const ZMatrix: seq<seq<bv8>> := [[6, 3, 0], [1, 3, 2], [0, 6, 3], [2, 6, 4]]
  const SMatrix: seq<seq<bv8>> := [[3, 6, 0], [2, 3, 1], [0, 3, 6], [4, 6, 2]]
  const JMatrix: seq<seq<bv8>> := [[4, 7, 0], [3, 2, 2], [0, 7, 1], [2, 2, 6]]
  const LMatrix: seq<seq<bv8>> := [[1, 7, 0], [2, 2, 3], [0, 7, 4], [6, 2, 2]]
  const TMatrix: seq<seq<bv8>> := [[2, 7, 0], [2, 3, 2], [0, 7, 2], [2, 6, 2]]

  /** The shape entry of a piece type at a rotation; total over 7 x 4. */
  function GetRotations(t: PieceType, r: Rotation): seq<bv8>
  {
    match t
    case O => OMatrix[r.Index()]
    case I => IMatrix[r.Index()]
    case Z => ZMatrix[r.Index()]
    case S => SMatrix[r.Index()]
    case J => JMatrix[r.Index()]
    case L => LMatrix[r.Index()]
    case T => TMatrix[r.Index()]
  }

  function Negate(k: Kick): Kick
  {
    (-k.0, -k.1)
  }

  /** Shape of a kick table: eight rows of five kicks, each starting with the
      zero kick (rotation in place is tried first). */
  ghost predicate WellShaped(table: seq<seq<Kick>>)
  {
    |table| == 8 && forall i :: 0 <= i < 8 ==> |table[i]| == 5 && table[i][0] == (0, 0)
  }

  /** The reverse of transition 2m is transition 2m+1. */
  ghost predicate ReverseRowsNegated(table: seq<seq<Kick>>)
    requires WellShaped(table)
  {
    forall m, j :: 0 <= m < 4 && 0 <= j < 5 ==> table[2 * m + 1][j] == Negate(table[2 * m][j])
  }

  lemma KickTablesWellShaped()
    ensures WellShaped(IKicks) && WellShaped(DefaultKicks)
  {
  }

  /** In both tables the kicks of a transition and of its reverse are
      componentwise negations of each other. */
  lemma KickTablesReverseNegated()
    ensures WellShaped(IKicks) && ReverseRowsNegated(IKicks)
    ensures WellShaped(DefaultKicks) && ReverseRowsNegated(DefaultKicks)
  {
    KickTablesWellShaped();
    forall m, j | 0 <= m < 4 && 0 <= j < 5
      ensures IKicks[2 * m + 1][j] == Negate(IKicks[2 * m][j])
      ensures DefaultKicks[2 * m + 1][j] == Negate(DefaultKicks[2 * m][j])
    {
      if m == 0 {
      } else if m == 1 {
      } else if m == 2 {
      } else {
      }
    }
  }

  /** Rows shared between transitions: for I, rows 4..7 repeat rows 1, 0, 3,
      2; for the other pieces, rows 2, 3, 6, 7 repeat rows 1, 0, 5, 4. */
  lemma KickTablesRepeatedRows()
    ensures IKicks[4] == IKicks[1] && IKicks[5] == IKicks[0]
    ensures IKicks[6] == IKicks[3] && IKicks[7] == IKicks[2]
    ensures DefaultKicks[2] == DefaultKicks[1] && DefaultKicks[3] == DefaultKicks[0]
    ensures DefaultKicks[6] == DefaultKicks[5] && DefaultKicks[7] == DefaultKicks[4]
  {
  }

  /** The O piece looks the same in every rotation. */
  lemma OMatrixRotationInvariant(r: Rotation, r': Rotation)
    ensures GetRotations(O, r) == GetRotations(O, r') == [6, 6, 0]
  {
  }
}
