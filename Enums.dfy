/** The closed enumerations of the rules engine: the seven piece types, the
    colour tag a filled cell carries, and the four rotation states. */
module Enums {
  import opened Wrappers

  datatype PieceType = T | L | J | O | I | S | Z {

    /** The one-letter name of the variant, which is also its textual form. */
    function Letter(): char
    {
      match this
      case T => 'T'
      case L => 'L'
      case J => 'J'
      case O => 'O'
      case I => 'I'
      case S => 'S'
      case Z => 'Z'
    }
  }

  /** All seven piece types, in declaration order. */
  const AllTypes: seq<PieceType> := [T, L, J, O, I, S, Z]

  /** Parses the textual form of a piece type (derived `FromStr` on a
      one-character string); anything else is an error. */
  function PieceTypeFromChar(ch: char): (r: Option<PieceType>)
    ensures r.Some? ==> r.value.Letter() == ch
  {
    match ch
    case 'T' => Some(T)
    case 'L' => Some(L)
    case 'J' => Some(J)
    case 'O' => Some(O)
    case 'I' => Some(I)
    case 'S' => Some(S)
    case 'Z' => Some(Z)
    case _ => None
  }

  /** Parsing a letter succeeds exactly on the seven names, and gives back
      the type the name belongs to. */
  lemma PieceTypeFromCharRoundTrip(ch: char, t: PieceType)
    ensures PieceTypeFromChar(ch) == Some(t) <==> ch == t.Letter()
    ensures PieceTypeFromChar(t.Letter()) == Some(t)
  {
  }

  /** A filled cell is either part of a locked piece of some type, or a
      pre-seeded block that belongs to no piece. */
  datatype PieceTypeColor = Playable(piece: PieceType) | NotPlayable

  datatype Rotation = R0 | R90 | R180 | R270 {

    /** The discriminant (`rotation as u8`). */
    function Index(): (u: nat)
      ensures u < 4
    {
      match this
      case R0 => 0
      case R90 => 1
      case R180 => 2
      case R270 => 3
    }

    /** One quarter turn clockwise: `from((self as u8 + 1) % 4)`. */
    function Next(): (r: Rotation)
      ensures r == match this case R0 => R90 case R90 => R180 case R180 => R270 case R270 => R0
    {
      FromU8((Index() + 1) % 4)
    }

    /** One quarter turn counter-clockwise: `from((self as u8 + 3) % 4)`. */
    function Prev(): (r: Rotation)
      ensures r == match this case R0 => R270 case R90 => R0 case R180 => R90 case R270 => R180
    {
      FromU8((Index() + 3) % 4)
    }
  }

  /** `Rotation::from(u8)`; any value above 3 panics in the source. */
  function FromU8(u: nat): (r: Rotation)
    requires u < 4
    ensures r.Index() == u
  {
    match u
    case 0 => R0
    case 1 => R90
    case 2 => R180
    case 3 => R270
  }

  /** The discriminant and the conversion from it are inverse. */
  lemma FromU8RoundTrip(r: Rotation)
    ensures FromU8(r.Index()) == r
  {
  }

  /** `prev` undoes `next`. */
  lemma PrevUndoesNext(r: Rotation)
    ensures r.Next().Prev() == r
  {
  }

  /** `next` undoes `prev`. */
  lemma NextUndoesPrev(r: Rotation)
    ensures r.Prev().Next() == r
  {
  }

  /** Four clockwise quarter turns are the identity. */
  lemma FourNextsIdentity(r: Rotation)
    ensures r.Next().Next().Next().Next() == r
  {
  }

  /** Four counter-clockwise quarter turns are the identity. */
  lemma FourPrevsIdentity(r: Rotation)
    ensures r.Prev().Prev().Prev().Prev() == r
  {
  }

  /** No fewer than four clockwise quarter turns come back to the start. */
  lemma NoShorterCycle(r: Rotation)
    ensures r.Next() != r && r.Next().Next() != r && r.Next().Next().Next() != r
  {
  }
}
