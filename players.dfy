/** Players, their actions and the process-wide id counter (src/core/player.rs). */
module Players {
  import opened Coordinates

  /** `PlayerId = u32`. */
  type PlayerId = nat

  /** The verbs a player applies to a tile. The board also dispatches `Unflag`. */
  datatype Action = Reveal | Flag | Unflag

  datatype PlayerAction = PlayerAction(playerId: PlayerId, coordinate: Coord, action: Action)

  /** Points are signed and may go negative. */
  datatype Player = Player(id: PlayerId, name: string, points: int)

  /** A copy of `p` whose points moved by `delta`; identity and name are kept. */
  function AddPoints(p: Player, delta: int): (r: Player)
    ensures r.id == p.id && r.name == p.name
    ensures r.points - p.points == delta
  {
    Player(p.id, p.name, p.points + delta)
  }

  /** A copy of `p` whose points moved down by `delta`: adding `-delta`. */
  function SubtractPoints(p: Player, delta: int): (r: Player)
    ensures r.id == p.id && r.name == p.name
    ensures r == AddPoints(p, -delta)
  {
    Player(p.id, p.name, p.points - delta)
  }

  /** Subtracting what was added gives back the same player. */
  lemma SubtractUndoesAdd(p: Player, delta: int)
    ensures SubtractPoints(AddPoints(p, delta), delta) == p
    ensures AddPoints(SubtractPoints(p, delta), delta) == p
  {
  }

  /**
   * The players that successive calls of `Player::new` produce for `names`
   * when the counter stands at `next`: ids are handed out in order.
   */
  function PlayersFrom(next: PlayerId, names: seq<string>): seq<Player>
    decreases |names|
  {
    if names == [] then []
    else [Player(next, names[0], 0)] + PlayersFrom(next + 1, names[1..])
  }

  /** Players created in sequence have consecutive, hence pairwise distinct, ids. */
  lemma {:induction false} PlayersFromIds(next: PlayerId, names: seq<string>)
    ensures |PlayersFrom(next, names)| == |names|
    ensures forall i :: 0 <= i < |names| ==>
      PlayersFrom(next, names)[i] == Player(next + i, names[i], 0)
    ensures forall i, j :: 0 <= i < j < |names| ==>
      PlayersFrom(next, names)[i].id < PlayersFrom(next, names)[j].id
    decreases |names|
  {
    if names != [] {
      PlayersFromIds(next + 1, names[1..]);
      var ps := PlayersFrom(next, names);
      forall i | 0 <= i < |names|
        ensures ps[i] == Player(next + i, names[i], 0)
      {
        if i > 0 {
          assert ps[i] == PlayersFrom(next + 1, names[1..])[i - 1];
        }
      }
    }
  }

  /** `NEXT_PLAYER_ID`: the global counter behind `Player::new`, read sequentially. */
  class PlayerIdCounter {
    var nextPlayerId: PlayerId

    /** The counter starts at 1. */
    constructor ()
      ensures nextPlayerId == 1
    {
      nextPlayerId := 1;
    }

    /** `Player::new`: takes the current id, bumps the counter, starts at 0 points. */
    method NewPlayer(name: string) returns (p: Player)
      modifies this
      ensures p == Player(old(nextPlayerId), name, 0)
      ensures nextPlayerId == old(nextPlayerId) + 1
    {
      p := Player(nextPlayerId, name, 0);
      nextPlayerId := nextPlayerId + 1;
    }

    /** Creates one player per name, in order, as repeated `Player::new` calls do. */
    method NewPlayers(names: seq<string>) returns (ps: seq<Player>)
      modifies this
      ensures ps == PlayersFrom(old(nextPlayerId), names)
      ensures nextPlayerId == old(nextPlayerId) + |names|
      ensures forall i, j :: 0 <= i < j < |ps| ==> ps[i].id < ps[j].id
    {
      ps := [];
      var i := 0;
      while i < |names|
        invariant 0 <= i <= |names|
        invariant nextPlayerId == old(nextPlayerId) + i
        invariant ps + PlayersFrom(nextPlayerId, names[i..]) == PlayersFrom(old(nextPlayerId), names)
      {
        assert names[i..] == [names[i]] + names[i + 1..];
        var p := NewPlayer(names[i]);
        ps := ps + [p];
        i := i + 1;
      }
      assert names[i..] == [];
      PlayersFromIds(old(nextPlayerId), names);
    }
  }
}
