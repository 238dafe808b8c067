/** The error enums and the size bound of src/core/validation.rs:8-23. */
module Errors {

  datatype CoordinateErr = OutOfBounds | TileRevealed | TileFlagged

  datatype InvalidErr =
    | InvalidAction
    | InvalidPlayer
    | InvalidCoordinate(reason: CoordinateErr)
    | InvalidSize

  /** `BOARD_MAX_SIZE`, the single-player bound on either side of the board. */
  const BoardMaxSize: nat := 30

  /** `BoardSize = (u32, u32)`: horizontal and vertical extent. */
  type BoardSize = (nat, nat)
}
