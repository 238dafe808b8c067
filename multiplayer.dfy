/**
 * The multiplayer game of src/multiplayer/game.rs: so far only a board, a
 * persistent map of players and a status, with construction and `add_player`.
 */
module Multiplayer {
  import opened Players
  import opened Boards

  datatype GameStatus = Continue | Over | Win(winner: PlayerId)

  datatype MultiplayerGame = MultiplayerGame(board: Board, players: map<PlayerId, Player>, status: GameStatus)

  /**
   * `MultiplayerGame::new`, with the board given: the randomly mined board of
   * the source is a parameter here.
   */
  function New(board: Board): (g: MultiplayerGame)
    ensures g.board == board && g.status == Continue
    ensures |g.players| == 0
  {
    MultiplayerGame(board, map[], Continue)
  }

  /** `add_player`: stores a copy of the player under its id, replacing any earlier entry. */
  function AddPlayer(g: MultiplayerGame, player: Player): (r: MultiplayerGame)
    ensures r.players.Keys == g.players.Keys + {player.id}
    ensures r.players[player.id] == player
    ensures forall id :: id in g.players && id != player.id ==> r.players[id] == g.players[id]
    ensures r.board == g.board && r.status == g.status
  {
    MultiplayerGame(g.board, g.players[player.id := player], g.status)
  }

  /** The ids of a sequence of players. */
  function IdsOf(ps: seq<Player>): set<PlayerId>
  {
    set i | 0 <= i < |ps| :: ps[i].id
  }

  /** Adds the players one after another, first to last. */
  function AddPlayers(g: MultiplayerGame, ps: seq<Player>): MultiplayerGame
    decreases |ps|
  {
    if ps == [] then g else AddPlayers(AddPlayer(g, ps[0]), ps[1..])
  }

  /** The ids of a non-empty sequence: its first player's and the rest's. */
  lemma IdsOfCons(ps: seq<Player>)
    requires ps != []
    ensures IdsOf(ps) == {ps[0].id} + IdsOf(ps[1..])
  {
    var tail := ps[1..];
    forall x | x in IdsOf(ps)
      ensures x in {ps[0].id} + IdsOf(tail)
    {
      var i :| 0 <= i < |ps| && ps[i].id == x;
      if i > 0 {
        assert tail[i - 1] == ps[i];
      }
    }
    forall x | x in IdsOf(tail)
      ensures x in IdsOf(ps)
    {
      var i :| 0 <= i < |tail| && tail[i].id == x;
      assert ps[i + 1] == tail[i];
    }
  }

  /**
   * Adding players adds exactly their ids and leaves every other entry, the
   * board and the status as they were.
   */
  lemma {:induction false} AddPlayersFrame(g: MultiplayerGame, ps: seq<Player>)
    ensures var r := AddPlayers(g, ps);
      && r.players.Keys == g.players.Keys + IdsOf(ps)
      && (forall id :: id in g.players && id !in IdsOf(ps) ==> r.players[id] == g.players[id])
      && r.board == g.board && r.status == g.status
    decreases |ps|
  {
    if ps != [] {
      AddPlayersFrame(AddPlayer(g, ps[0]), ps[1..]);
      IdsOfCons(ps);
    }
  }

  /** Adding players with pairwise distinct ids keeps every one of them under its id. */
  lemma {:induction false} AddPlayersFound(g: MultiplayerGame, ps: seq<Player>)
    requires forall i, j :: 0 <= i < j < |ps| ==> ps[i].id != ps[j].id
    ensures forall i :: 0 <= i < |ps| ==>
      ps[i].id in AddPlayers(g, ps).players && AddPlayers(g, ps).players[ps[i].id] == ps[i]
    decreases |ps|
  {
    if ps != [] {
      var tail := ps[1..];
      var g1 := AddPlayer(g, ps[0]);
      assert forall i, j :: 0 <= i < j < |tail| ==> tail[i].id != tail[j].id by {
        forall i, j | 0 <= i < j < |tail| ensures tail[i].id != tail[j].id {
          assert tail[i] == ps[i + 1] && tail[j] == ps[j + 1];
        }
      }
      AddPlayersFound(g1, tail);
      AddPlayersFrame(g1, tail);
      var r := AddPlayers(g, ps);
      assert r == AddPlayers(g1, tail);
      forall i | 0 <= i < |ps|
        ensures ps[i].id in r.players && r.players[ps[i].id] == ps[i]
      {
        if i == 0 {
          assert ps[0].id !in IdsOf(tail) by {
            forall k | 0 <= k < |tail| ensures tail[k].id != ps[0].id {
              assert tail[k] == ps[k + 1];
            }
          }
        } else {
          assert ps[i] == tail[i - 1];
        }
      }
    }
  }

  /** The `k`-th of players with distinct ids is found under its id. */
  lemma AddedPlayerFound(g: MultiplayerGame, ps: seq<Player>, k: int)
    requires forall i, j :: 0 <= i < j < |ps| ==> ps[i].id != ps[j].id
    requires 0 <= k < |ps|
    ensures ps[k].id in AddPlayers(g, ps).players && AddPlayers(g, ps).players[ps[k].id] == ps[k]
  {
    AddPlayersFound(g, ps);
  }

  /** Players with consecutive ids from `next`, added to a new game, are found under those ids. */
  lemma ConsecutivePlayersAllFound(board: Board, next: PlayerId, ps: seq<Player>)
    requires forall i :: 0 <= i < |ps| ==> ps[i].id == next + i
    ensures forall id: PlayerId :: next <= id < next + |ps| ==>
      id in AddPlayers(New(board), ps).players && AddPlayers(New(board), ps).players[id] == ps[id - next]
  {
    assert forall i, j :: 0 <= i < j < |ps| ==> ps[i].id != ps[j].id;
    forall id: PlayerId | next <= id < next + |ps|
      ensures id in AddPlayers(New(board), ps).players && AddPlayers(New(board), ps).players[id] == ps[id - next]
    {
      AddedPlayerFound(New(board), ps, id - next);
      assert ps[id - next].id == id;
    }
  }

  /**
   * The source's tests, for any number of players: players made in sequence
   * by `Player::new` from a counter at `next` and added to a new game are all
   * found under their ids, with their names and no points.
   */
  lemma NewPlayersAllFound(board: Board, next: PlayerId, names: seq<string>)
    ensures forall id: PlayerId :: next <= id < next + |names| ==>
      id in AddPlayers(New(board), PlayersFrom(next, names)).players &&
      AddPlayers(New(board), PlayersFrom(next, names)).players[id] == Player(id, names[id - next], 0)
  {
    PlayersFromIds(next, names);
    ConsecutivePlayersAllFound(board, next, PlayersFrom(next, names));
  }
}
