/** The hold slot: a piece put aside by the player, reset to its spawn
    rotation, with a flag that forbids a second swap before the next piece
    locks. */
module Holder {
  import opened Wrappers
  import opened Enums
  import opened Pieces

  class HoldPiece {
    const piece: Piece
    var alreadyHold: bool

    /** `HoldPiece::new`: the held piece is turned back to R0 and the slot
        starts out as already used for the current turn. */
    constructor(piece: Piece)
      modifies piece
      ensures this.piece == piece && piece.Valid()
      ensures piece.rotation == R0
      ensures alreadyHold
    {
      this.piece := piece;
      alreadyHold := true;
      new;
      piece.SetRotation(R0);
    }

    /** `set_hold`: marks the slot as used for this turn. */
    method SetHold()
      modifies this
      ensures alreadyHold
    {
      alreadyHold := true;
    }

    /** `reset_hold`: frees the slot for the next swap. */
    method ResetHold()
      modifies this
      ensures !alreadyHold
    {
      alreadyHold := false;
    }
  }

  /** `can_swap` on an optional hold slot: an empty slot can always take a
      piece; a filled one only when it has not been used this turn. */
  function CanSwap(slot: Option<HoldPiece>): (b: bool)
    reads if slot.Some? then {slot.value} else {}
    ensures slot.None? ==> b
    ensures slot.Some? ==> (b <==> !slot.value.alreadyHold)
  {
    match slot
    case None => true
    case Some(h) => !h.alreadyHold
  }

  /** The life of a hold slot over one turn: a piece just put on hold
      cannot be swapped again, resetting the slot (the next piece locked)
      allows one swap, and marking it used forbids the next. The held
      piece comes back in its spawn rotation whatever rotation it had. */
  method HoldCycle(t: PieceType) returns (onHold: bool, afterReset: bool, afterSet: bool, rotation: Rotation)
    ensures !onHold && afterReset && !afterSet
    ensures rotation == R0
  {
    var p := new Piece.New(t);
    p.RotatePiece();
    var h := new HoldPiece(p);
    onHold := CanSwap(Some(h));
    rotation := h.piece.rotation;
    h.ResetHold();
    afterReset := CanSwap(Some(h));
    h.SetHold();
    afterSet := CanSwap(Some(h));
  }
}
