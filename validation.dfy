/**
 * The stateless checks of src/core/validation.rs: board sizes, the tile a
 * player aims at, and the action chosen for it. Each returns its input
 * unchanged on success and says what is wrong otherwise.
 */
module Validation {
  import opened Wrappers
  import opened Coordinates
  import opened Players
  import opened Errors
  import opened Boards
  import Games

  /**
   * `validate_board_size` as written: it refuses a size only when BOTH sides
   * exceed the bound.
   */
  function ValidateBoardSize(hSize: nat, vSize: nat): (r: Result<BoardSize, InvalidErr>)
    ensures r.Err? <==> hSize > BoardMaxSize && vSize > BoardMaxSize
    ensures r.Err? ==> r.error == InvalidSize
    ensures r.Ok? ==> r.value == (hSize, vSize)
  {
    if hSize > BoardMaxSize && vSize > BoardMaxSize then Err(InvalidSize)
    else Ok((hSize, vSize))
  }

  /** The board's own size check and this one agree everywhere. */
  lemma BoardAndValidationAgree(hSize: nat, vSize: nat)
    ensures Boards.ValidateSize(hSize, vSize) == ValidateBoardSize(hSize, vSize)
  {
  }

  /** A board 100 tiles wide and 5 high passes the check as written. */
  lemma WideBoardAccepted()
    ensures ValidateBoardSize(100, 5) == Ok((100, 5))
    ensures 100 > BoardMaxSize
  {
  }

  /** The evident intent: refuse a size as soon as one side exceeds the bound. */
  function IntendedValidateBoardSize(hSize: nat, vSize: nat): (r: Result<BoardSize, InvalidErr>)
    ensures r.Err? <==> hSize > BoardMaxSize || vSize > BoardMaxSize
    ensures r.Err? ==> r.error == InvalidSize
    ensures r.Ok? ==> r.value == (hSize, vSize)
  {
    if hSize > BoardMaxSize || vSize > BoardMaxSize then Err(InvalidSize)
    else Ok((hSize, vSize))
  }

  /**
   * Every size the intended check accepts fits within the bound on both
   * sides, and it accepts no more than the check as written.
   */
  lemma IntendedCheckBoundsBothSides(hSize: nat, vSize: nat)
    ensures IntendedValidateBoardSize(hSize, vSize).Ok? ==>
      var (h, v) := IntendedValidateBoardSize(hSize, vSize).value;
      h <= BoardMaxSize && v <= BoardMaxSize
    ensures IntendedValidateBoardSize(hSize, vSize).Ok? ==> ValidateBoardSize(hSize, vSize).Ok?
  {
  }

  /**
   * `validate_action`: the tile at `coordinate` must be Hidden and the
   * action Flag or Reveal; every other pairing is an invalid action. The
   * tile is read at `coordinate`, not at the action's own coordinate.
   */
  function ValidateAction(game: Games.Game, playerAction: PlayerAction, coordinate: Coord): (r: Result<PlayerAction, InvalidErr>)
    requires coordinate in game.board.boardMap
    ensures r.Ok? <==>
      GetTile(game.board, coordinate) == Hidden && (playerAction.action.Flag? || playerAction.action.Reveal?)
    ensures r.Ok? ==> r.value == playerAction
    ensures r.Err? ==> r.error == InvalidAction
  {
    var tileStatus := GetTile(game.board, coordinate);
    match (tileStatus, playerAction.action)
    case (Hidden, Flag) => Ok(playerAction)
    case (Hidden, Reveal) => Ok(playerAction)
    case _ => Err(InvalidAction)
  }

  /**
   * `validate_coordinate`: out of bounds, revealed, or flagged by another
   * player are refused, each with its own reason; a Hidden tile and the
   * player's own flag are accepted.
   */
  function ValidateCoordinate(board: Board, coordinate: Coord, player: Player): (r: Result<Coord, InvalidErr>)
    requires InBounds(board, coordinate) ==> coordinate in board.boardMap
    ensures r == Err(InvalidCoordinate(OutOfBounds)) <==> !InBounds(board, coordinate)
    ensures r == Err(InvalidCoordinate(TileRevealed)) <==>
      InBounds(board, coordinate) && board.boardMap[coordinate].Revealed?
    ensures r == Err(InvalidCoordinate(TileFlagged)) <==>
      InBounds(board, coordinate) && board.boardMap[coordinate].Flagged?
      && board.boardMap[coordinate].flaggedBy != player.id
    ensures r.Ok? <==>
      InBounds(board, coordinate) &&
      (board.boardMap[coordinate] == Hidden || board.boardMap[coordinate] == Flagged(player.id))
    ensures r.Ok? ==> r.value == coordinate
  {
    if WithinBounds(board, (coordinate.x, coordinate.y)) then
      var tileStatus := GetTile(board, coordinate);
      match tileStatus
      case Revealed(_) => Err(InvalidCoordinate(TileRevealed))
      case Flagged(flaggedBy) =>
        if flaggedBy == player.id then Ok(coordinate) else Err(InvalidCoordinate(TileFlagged))
      case _ => Ok(coordinate)
    else
      Err(InvalidCoordinate(OutOfBounds))
  }

  /**
   * An action that passes the action check on its own coordinate always
   * makes progress: the number of Hidden tiles strictly drops, so a game
   * driven by validated actions ends.
   */
  lemma ValidatedActionMakesProgress(game: Games.Game, pa: PlayerAction)
    requires pa.coordinate in game.board.boardMap
    requires ValidateAction(game, pa, pa.coordinate).Ok?
    ensures HiddenCount(Boards.Update(game.board, pa).boardMap) < HiddenCount(game.board.boardMap)
  {
    var b := game.board;
    if pa.action.Reveal? {
      RevealTile(b, pa.coordinate, b.boardMap);
    } else {
      HiddenCountShrinks(b.boardMap, pa.coordinate, Flagged(pa.playerId));
    }
  }

  /**
   * A tile carrying the player's own flag passes the coordinate check, yet no
   * action on it passes the action check: the code never lets a flag be
   * lifted through validation.
   */
  lemma OwnFlagCannotBeLifted(game: Games.Game, pa: PlayerAction, player: Player)
    requires pa.coordinate in game.board.boardMap && InBounds(game.board, pa.coordinate)
    requires game.board.boardMap[pa.coordinate] == Flagged(player.id)
    ensures ValidateCoordinate(game.board, pa.coordinate, player) == Ok(pa.coordinate)
    ensures ValidateAction(game, pa, pa.coordinate) == Err(InvalidAction)
  {
  }
}
