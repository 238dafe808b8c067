/**
 * The single-player front-end of src/single_player/game.rs: a board and a
 * status that is Over as soon as the acted tile shows a mine and Win once
 * every non-mine tile shows its hint.
 */
module SinglePlayer {
  import opened Coordinates
  import opened Players
  import opened Boards

  datatype GameStatus = Continue | Over | Win

  datatype Game = Game(board: Board, status: GameStatus)

  /** `Game::new_test`: a fresh board over the given mines, game on. */
  method NewTest(h: nat, v: nat, mines: set<Coord>) returns (g: Game)
    ensures g.board == FreshBoard(h, v, mines) && g.status == Continue
    ensures Valid(g.board) && Consistent(g.board)
  {
    var testBoard := Boards.NewTest(h, v, mines);
    g := Game(testBoard, Continue);
  }

  /** `check_win`: every tile is a mine or shows a hint; mine tiles may be in any state. */
  predicate CheckWin(board: Board)
    ensures CheckWin(board) && Consistent(board) ==>
      forall c :: c in board.boardMap && !IsMine(board, c) ==>
        board.boardMap[c] == Revealed(Hint(GetHint(board, c)))
  {
    forall c | c in board.boardMap :: IsMine(board, c) || (board.boardMap[c].Revealed? && board.boardMap[c].tile.Hint?)
  }

  /**
   * `update_status`, read at the acted tile of the given board: a shown mine
   * ends the game whatever else holds; otherwise the game is won exactly when
   * `check_win` holds.
   */
  function UpdateStatus(playerAction: PlayerAction, board: Board): (r: GameStatus)
    requires playerAction.coordinate in board.boardMap
    ensures r == Over <==> GetTile(board, playerAction.coordinate) == Revealed(Mine)
    ensures r == Win <==> GetTile(board, playerAction.coordinate) != Revealed(Mine) && CheckWin(board)
    ensures r == Continue <==> GetTile(board, playerAction.coordinate) != Revealed(Mine) && !CheckWin(board)
  {
    var currentTile := GetTile(board, playerAction.coordinate);
    match currentTile
    case Revealed(Mine) => Over
    case _ => if CheckWin(board) then Win else Continue
  }

  /** `Game::update`: update the board, then read the status from the updated board. */
  function Update(g: Game, playerAction: PlayerAction): (r: Game)
    requires playerAction.action.Reveal? ==> playerAction.coordinate in g.board.boardMap
    ensures r.board == Boards.Update(g.board, playerAction)
    ensures playerAction.coordinate in r.board.boardMap
    ensures r.status == Over <==> r.board.boardMap[playerAction.coordinate] == Revealed(Mine)
    ensures r.status == Win <==> r.board.boardMap[playerAction.coordinate] != Revealed(Mine) && CheckWin(r.board)
  {
    var updatedBoard := Boards.Update(g.board, playerAction);
    var updatedStatus := UpdateStatus(playerAction, updatedBoard);
    Game(updatedBoard, updatedStatus)
  }

  /**
   * On a total board `check_win` says exactly: every in-bounds cell without a
   * mine shows a hint.
   */
  lemma CheckWinSpec(b: Board)
    requires Valid(b)
    ensures CheckWin(b) <==>
      forall c :: InBounds(b, c) && !IsMine(b, c) ==>
        c in b.boardMap && b.boardMap[c].Revealed? && b.boardMap[c].tile.Hint?
  {
    forall c | InBounds(b, c)
      ensures c in b.boardMap
    {
      InCells(b.hSize, b.vSize, c);
    }
    forall c | c in b.boardMap
      ensures InBounds(b, c)
    {
      InCells(b.hSize, b.vSize, c);
    }
  }

  /**
   * `check_win` ignores mine tiles: two boards with the same keys and the
   * same non-mine tiles agree on it, whatever their mine tiles show.
   */
  lemma CheckWinIgnoresMines(b1: Board, b2: Board)
    requires b1.mineCoordinates == b2.mineCoordinates && b1.boardMap.Keys == b2.boardMap.Keys
    requires forall c :: c in b1.boardMap && c !in b1.mineCoordinates ==> b1.boardMap[c] == b2.boardMap[c]
    ensures CheckWin(b1) <==> CheckWin(b2)
  {
    if CheckWin(b1) {
      forall c | c in b2.boardMap
        ensures IsMine(b2, c) || (b2.boardMap[c].Revealed? && b2.boardMap[c].tile.Hint?)
      {
        assert c in b1.boardMap;
      }
    }
    if CheckWin(b2) {
      forall c | c in b1.boardMap
        ensures IsMine(b1, c) || (b1.boardMap[c].Revealed? && b1.boardMap[c].tile.Hint?)
      {
        assert c in b2.boardMap;
      }
    }
  }

  /** Revealing a Hidden mine ends the game, whatever the rest of the board shows. */
  lemma RevealMineIsOver(g: Game, pa: PlayerAction)
    requires pa.action.Reveal? && pa.coordinate in g.board.boardMap
    requires g.board.boardMap[pa.coordinate] == Hidden && IsMine(g.board, pa.coordinate)
    ensures Update(g, pa).status == Over
  {
    RevealTile(g.board, pa.coordinate, g.board.boardMap);
  }

  /**
   * On a board whose revealed tiles are truthful, an action on a cell without
   * a mine never ends the game.
   */
  lemma SafeActionNeverOver(g: Game, pa: PlayerAction)
    requires Consistent(g.board) && pa.coordinate in g.board.boardMap
    requires !IsMine(g.board, pa.coordinate)
    ensures Update(g, pa).status != Over
  {
    var c := pa.coordinate;
    var m := g.board.boardMap;
    if pa.action.Reveal? {
      RevealTile(g.board, c, m);
      if m[c].Revealed? {
        assert m[c].tile == Truth(g.board, c);
      }
    }
  }

  /** Both safe cells of the 2×2 board with mines on the diagonal show Hint(2). */
  lemma DiagonalHint(b: Board, c: Coord)
    requires b.hSize == 2 && b.vSize == 2 && b.mineCoordinates == {Coord(0, 0), Coord(1, 1)}
    requires c == Coord(0, 1) || c == Coord(1, 0)
    ensures Truth(b, c) == Hint(2)
  {
    HintCountsMinedNeighbors(b, c);
    assert MinedNeighbors(b, c) == {Coord(0, 0), Coord(1, 1)};
  }

  /** The cells in a 2×2 board's map. */
  lemma TwoByTwoCells(m: BoardMap, c: Coord)
    requires m.Keys == Cells(2, 2) && c in m
    ensures c == Coord(0, 0) || c == Coord(0, 1) || c == Coord(1, 0) || c == Coord(1, 1)
  {
    InCells(2, 2, c);
  }

  /**
   * The source's test: on the 2×2 board with mines at (0, 0) and (1, 1),
   * revealing (0, 1) keeps the game going and then revealing (1, 0) wins it.
   */
  lemma CheckWinScenario(b: Board, id: PlayerId)
    requires b == FreshBoard(2, 2, {Coord(0, 0), Coord(1, 1)})
    ensures var g1 := Update(Game(b, Continue), PlayerAction(id, Coord(0, 1), Action.Reveal));
      && g1.status == Continue
      && Update(g1, PlayerAction(id, Coord(1, 0), Action.Reveal)).status == Win
  {
    var c01, c10 := Coord(0, 1), Coord(1, 0);
    var m := b.boardMap;
    InCells(2, 2, c01);
    InCells(2, 2, c10);
    assert m[c01] == Hidden && m[c10] == Hidden;
    var pa1 := PlayerAction(id, c01, Action.Reveal);
    var g1 := Update(Game(b, Continue), pa1);
    RevealTile(b, c01, m);
    DiagonalHint(b, c01);
    var m1 := g1.board.boardMap;
    assert m1 == m[c01 := Revealed(Hint(2))];
    assert !CheckWin(g1.board) by {
      assert c10 in m1 && !IsMine(g1.board, c10) && m1[c10] == Hidden;
    }
    var pa2 := PlayerAction(id, c10, Action.Reveal);
    var g2 := Update(g1, pa2);
    RevealTile(g1.board, c10, m1);
    DiagonalHint(g1.board, c10);
    var m2 := g2.board.boardMap;
    assert m2 == m1[c10 := Revealed(Hint(2))];
    assert m2.Keys == Cells(2, 2);
    forall c | c in m2
      ensures IsMine(g2.board, c) || (m2[c].Revealed? && m2[c].tile.Hint?)
    {
      TwoByTwoCells(m2, c);
    }
  }
}
