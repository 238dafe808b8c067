/**
 * The scoring game of src/core/game.rs: a board, a persistent map of players,
 * and a status; each update applies one action to the board, scores it on the
 * updated board and recomputes the status.
 */
module Games {
  import opened Coordinates
  import opened Players
  import opened Boards

  datatype GameStatus = Continue | Over

  datatype Difficulty = Easy | Medium | Hard

  datatype Game = Game(board: Board, players: map<PlayerId, Player>, status: GameStatus)

  /**
   * `Game::new`, with the board given: the randomly mined board of the source
   * is a parameter here.
   */
  function New(board: Board): (g: Game)
    ensures g.board == board && g.status == Continue
    ensures |g.players| == 0
  {
    Game(board, map[], Continue)
  }

  /** `add_player`: stores the player under its id, replacing any earlier entry. */
  function AddPlayer(g: Game, player: Player): (r: Game)
    ensures player.id in r.players && GetPlayer(r, player.id) == player
    ensures r.board == g.board && r.status == g.status
    ensures forall id :: id != player.id ==>
      (id in r.players <==> id in g.players) && (id in g.players ==> r.players[id] == g.players[id])
  {
    Game(g.board, g.players[player.id := player], g.status)
  }

  /**
   * `add_player_by_name`: makes a player through the id counter, as
   * `Player::new` does, and adds it.
   */
  method AddPlayerByName(g: Game, counter: PlayerIdCounter, playerName: string) returns (r: Game)
    modifies counter
    ensures r == AddPlayer(g, Player(old(counter.nextPlayerId), playerName, 0))
    ensures counter.nextPlayerId == old(counter.nextPlayerId) + 1
  {
    var player := counter.NewPlayer(playerName);
    r := Game(g.board, g.players[player.id := player], g.status);
  }

  /** `get_player`; an unknown id panics in the source. */
  function GetPlayer(g: Game, playerId: PlayerId): (p: Player)
    requires playerId in g.players
    ensures p in g.players.Values
    ensures (forall id :: id in g.players ==> g.players[id].id == id) ==> p.id == playerId
  {
    g.players[playerId]
  }

  /** Re-adding an id keeps only the newer player, and the test's two adds keep both. */
  lemma AddPlayerTwice(g: Game, p1: Player, p2: Player)
    ensures p1.id == p2.id ==> AddPlayer(AddPlayer(g, p1), p2) == AddPlayer(g, p2)
    ensures p1.id != p2.id ==>
      var r := AddPlayer(AddPlayer(g, p1), p2);
      GetPlayer(r, p1.id) == p1 && GetPlayer(r, p2.id) == p2
  {
  }

  /**
   * `update_status`: Over once no tile is Hidden (every tile revealed or
   * flagged), that is, once the cascade's measure has reached zero.
   */
  function UpdateStatus(board: Board): (s: GameStatus)
    ensures s == Over <==> HiddenCount(board.boardMap) == 0
  {
    NoneHiddenIffCountZero(board.boardMap);
    if forall c | c in board.boardMap :: board.boardMap[c] != Hidden then Over else Continue
  }

  /** A non-empty set has a member. */
  lemma NonEmptyHasMember(s: set<int>)
    requires s != {}
    ensures exists x :: x in s
  {
    if forall x :: x !in s {
      assert false;
    }
  }

  /** A non-empty set of scores has a largest element. */
  lemma {:induction false} MaxExists(s: set<int>)
    requires s != {}
    ensures exists mx :: mx in s && forall y :: y in s ==> y <= mx
    decreases |s|
  {
    NonEmptyHasMember(s);
    var x :| x in s;
    var rest := s - {x};
    assert forall y :: y in s ==> y == x || y in rest;
    if rest != {} {
      MaxExists(rest);
      var restMax :| restMax in rest && forall y :: y in rest ==> y <= restMax;
      if x < restMax {
        assert restMax in s && forall y :: y in s ==> y <= restMax;
      } else {
        assert x in s && forall y :: y in s ==> y <= x;
      }
    } else {
      assert x in s && forall y :: y in s ==> y <= x;
    }
  }

  /** The largest of a non-empty set of scores: the one score no other exceeds. */
  function MaxOf(s: set<int>): (mx: int)
    requires s != {}
    ensures mx in s && forall y :: y in s ==> y <= mx
  {
    MaxExists(s);
    var mx :| mx in s && forall y :: y in s ==> y <= mx;
    mx
  }

  /** The points held by the players of `g`. */
  function Scores(g: Game): set<int>
  {
    set id | id in g.players :: g.players[id].points
  }

  /** A game with players has a score. */
  lemma ScoresNonEmpty(g: Game)
    requires g.players.Keys != {}
    ensures Scores(g) != {}
  {
    var someId :| someId in g.players.Keys;
    assert g.players[someId].points in Scores(g);
  }

  /** `get_winners`: the players whose points equal the maximum, none if there are no players. */
  function GetWinners(g: Game): (r: map<PlayerId, Player>)
    ensures r.Keys <= g.players.Keys
    ensures forall id :: id in r ==> r[id] == g.players[id]
  {
    if g.players.Keys == {} then map[]
    else
      ScoresNonEmpty(g);
      var maxScore := MaxOf(Scores(g));
      map id | id in g.players && g.players[id].points == maxScore :: g.players[id]
  }

  /**
   * The winners are empty exactly when there are no players; otherwise they
   * are the players no other player outscores.
   */
  lemma GetWinnersSpec(g: Game)
    ensures GetWinners(g) == map[] <==> g.players == map[]
    ensures forall id :: id in GetWinners(g) <==>
      id in g.players && forall j :: j in g.players ==> g.players[j].points <= g.players[id].points
    ensures forall id :: id in GetWinners(g) ==> GetWinners(g)[id] == g.players[id]
  {
    if g.players.Keys != {} {
      var scores := Scores(g);
      var some :| some in g.players.Keys;
      assert g.players[some].points in scores;
      var maxScore := MaxOf(scores);
      forall id | id in g.players
        ensures (g.players[id].points == maxScore) <==>
          forall j :: j in g.players ==> g.players[j].points <= g.players[id].points
      {
        assert g.players[id].points in scores;
        if forall j :: j in g.players ==> g.players[j].points <= g.players[id].points {
          var w :| w in g.players && g.players[w].points == maxScore;
          assert g.players[w].points <= g.players[id].points;
        } else {
          var j :| j in g.players && g.players[j].points > g.players[id].points;
          assert g.players[j].points in scores;
        }
      }
      var w :| w in g.players && g.players[w].points == maxScore;
      assert w in GetWinners(g);
    } else {
      assert g.players == map[];
    }
  }

  /** Four players scoring -1, 30, 25 and 30: the winners are players 2 and 4. */
  lemma WinnersOfFourScores(g: Game)
    requires g.players.Keys == {1, 2, 3, 4}
    requires g.players[1].points == -1 && g.players[2].points == 30
    requires g.players[3].points == 25 && g.players[4].points == 30
    ensures GetWinners(g).Keys == {2, 4}
  {
    var ps := g.players;
    GetWinnersSpec(g);
    var w := GetWinners(g);
    assert forall j :: j in ps ==> ps[j].points <= 30;
    assert 2 in w && 4 in w;
    assert 1 !in w by { assert ps[2].points > ps[1].points; }
    assert 3 !in w by { assert ps[2].points > ps[3].points; }
  }

  /** The source's test: scores -1, 30, 25 and 30 give the two 30-point players. */
  lemma TwoWinners(board: Board)
    ensures var g := AddPlayer(AddPlayer(AddPlayer(AddPlayer(New(board),
        Player(1, "hyeyoung", -1)), Player(2, "charlie", 30)),
        Player(3, "william", 25)), Player(4, "michael", 30));
      GetWinners(g).Keys == {2, 4}
  {
    var g := AddPlayer(AddPlayer(AddPlayer(AddPlayer(New(board),
        Player(1, "hyeyoung", -1)), Player(2, "charlie", 30)),
        Player(3, "william", 25)), Player(4, "michael", 30));
    assert g.players.Keys == {1, 2, 3, 4};
    WinnersOfFourScores(g);
  }

  /** Three players scoring -1, 30 and 25: player 2 is the only winner. */
  lemma WinnersOfThreeScores(g: Game)
    requires g.players.Keys == {1, 2, 3}
    requires g.players[1].points == -1 && g.players[2].points == 30 && g.players[3].points == 25
    ensures GetWinners(g).Keys == {2}
  {
    var ps := g.players;
    GetWinnersSpec(g);
    var w := GetWinners(g);
    assert forall j :: j in ps ==> ps[j].points <= 30;
    assert 2 in w;
    assert 1 !in w by { assert ps[2].points > ps[1].points; }
    assert 3 !in w by { assert ps[2].points > ps[3].points; }
  }

  /** The source's test: scores -1, 30 and 25 give one winner. */
  lemma OneWinner(board: Board)
    ensures var g := AddPlayer(AddPlayer(AddPlayer(New(board),
        Player(1, "hyeyoung", -1)), Player(2, "charlie", 30)), Player(3, "william", 25));
      GetWinners(g).Keys == {2}
  {
    var g := AddPlayer(AddPlayer(AddPlayer(New(board),
        Player(1, "hyeyoung", -1)), Player(2, "charlie", 30)), Player(3, "william", 25));
    assert g.players.Keys == {1, 2, 3};
    WinnersOfThreeScores(g);
  }

  /** The score of one state of the acted tile after a Reveal. */
  function RevealScore(s: TileStatus): int
  {
    match s
    case Revealed(Hint(n)) => if n == 0 then 3 else 1
    case Revealed(Mine) => -10
    case _ => 0
  }

  /**
   * `calculate_points`, read on the board AFTER the action. The source's
   * action type has no Unflag here, so it is excluded.
   */
  function CalculatePoints(playerAction: PlayerAction, board: Board): (points: int)
    requires !playerAction.action.Unflag?
    requires playerAction.action.Reveal? ==> playerAction.coordinate in board.boardMap
    ensures playerAction.action.Flag? ==> (points > 0 <==> IsMine(board, playerAction.coordinate))
    ensures playerAction.action.Reveal? ==>
      (points < 0 <==> GetTile(board, playerAction.coordinate) == Revealed(Mine))
    ensures playerAction.action.Reveal? ==>
      (points == 0 <==> !GetTile(board, playerAction.coordinate).Revealed?)
  {
    if playerAction.action.Reveal? then RevealScore(GetTile(board, playerAction.coordinate))
    else if IsMine(board, playerAction.coordinate) then 2
    else -1
  }

  /** `award_points`: only the acting player changes, by exactly `points`. */
  function AwardPoints(g: Game, playerAction: PlayerAction, points: int): (r: map<PlayerId, Player>)
    requires playerAction.playerId in g.players
    ensures r.Keys == g.players.Keys
    ensures r[playerAction.playerId].id == g.players[playerAction.playerId].id
    ensures r[playerAction.playerId].name == g.players[playerAction.playerId].name
    ensures r[playerAction.playerId].points == g.players[playerAction.playerId].points + points
    ensures forall id :: id in g.players && id != playerAction.playerId ==> r[id] == g.players[id]
  {
    var updatedPlayer := AddPoints(GetPlayer(g, playerAction.playerId), points);
    g.players[playerAction.playerId := updatedPlayer]
  }

  /** `Game::update`: update the board, then score and set the status from the updated board. */
  function Update(g: Game, playerAction: PlayerAction): (r: Game)
    requires !playerAction.action.Unflag?
    requires playerAction.playerId in g.players
    requires playerAction.action.Reveal? ==> playerAction.coordinate in g.board.boardMap
    ensures r.board == Boards.Update(g.board, playerAction)
    ensures r.status == UpdateStatus(r.board)
    ensures r.players.Keys == g.players.Keys
  {
    var updatedBoard := Boards.Update(g.board, playerAction);
    var points := CalculatePoints(playerAction, updatedBoard);
    var updatedPlayers := AwardPoints(g, playerAction, points);
    var updatedStatus := UpdateStatus(updatedBoard);
    Game(updatedBoard, updatedPlayers, updatedStatus)
  }

  /**
   * The score table in terms of the tile BEFORE the action: revealing a
   * Hidden tile gives +3 for a zero hint, +1 for another hint and -10 for a
   * mine; revealing a Flagged tile gives 0 (it stays flagged); re-revealing a
   * Revealed tile scores its content again; flagging gives +2 on a mine and
   * -1 elsewhere. Only the acting player's points move.
   */
  lemma ScoreTable(g: Game, pa: PlayerAction)
    requires !pa.action.Unflag? && pa.playerId in g.players
    requires pa.action.Reveal? ==> pa.coordinate in g.board.boardMap
    ensures var r := Update(g, pa);
      var c := pa.coordinate;
      var delta := r.players[pa.playerId].points - g.players[pa.playerId].points;
      && (forall id :: id in g.players && id != pa.playerId ==> r.players[id] == g.players[id])
      && r.players[pa.playerId].id == g.players[pa.playerId].id
      && (pa.action.Flag? ==> delta == if c in g.board.mineCoordinates then 2 else -1)
      && (pa.action.Reveal? && g.board.boardMap[c] == Hidden ==>
            delta == if c in g.board.mineCoordinates then -10
                     else if GetHint(g.board, c) == 0 then 3 else 1)
      && (pa.action.Reveal? && g.board.boardMap[c].Flagged? ==> delta == 0)
      && (pa.action.Reveal? && g.board.boardMap[c].Revealed? ==>
            delta == RevealScore(g.board.boardMap[c]))
  {
    if pa.action.Reveal? {
      RevealTile(g.board, pa.coordinate, g.board.boardMap);
    }
  }

  /**
   * Revealing a Hidden mine does not end this variant while another tile is
   * still Hidden: the mine shows, and the status stays Continue.
   */
  lemma MineDoesNotEndScoringGame(g: Game, pa: PlayerAction, other: Coord)
    requires pa.action.Reveal? && pa.playerId in g.players
    requires pa.coordinate in g.board.boardMap && g.board.boardMap[pa.coordinate] == Hidden
    requires pa.coordinate in g.board.mineCoordinates
    requires other != pa.coordinate && other in g.board.boardMap && g.board.boardMap[other] == Hidden
    ensures Update(g, pa).board.boardMap[pa.coordinate] == Revealed(Mine)
    ensures Update(g, pa).status == Continue
  {
    RevealTile(g.board, pa.coordinate, g.board.boardMap);
    assert Update(g, pa).board.boardMap[other] == Hidden;
  }

  /** The 2×1 board with one mine: revealing the mine leaves the other tile Hidden and the game on. */
  lemma MineOnTwoByOne(p: Player)
    ensures var g := AddPlayer(New(FreshBoard(2, 1, {Coord(0, 0)})), p);
      var r := Update(g, PlayerAction(p.id, Coord(0, 0), Action.Reveal));
      r.board.boardMap[Coord(0, 0)] == Revealed(Mine) && r.status == Continue
  {
    var b := FreshBoard(2, 1, {Coord(0, 0)});
    InCells(2, 1, Coord(0, 0));
    InCells(2, 1, Coord(1, 0));
    MineDoesNotEndScoringGame(AddPlayer(New(b), p), PlayerAction(p.id, Coord(0, 0), Action.Reveal), Coord(1, 0));
  }
}
