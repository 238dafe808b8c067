/**
 * The board state machine of src/core/board.rs: a total map from in-bounds
 * cells to tile statuses over a fixed mine set, neighbour and hint queries,
 * and the persistent `update` whose Reveal branch cascades through zero hints.
 */
module Boards {
  import opened Coordinates
  import opened Players
  import opened Errors
  import opened Wrappers

  datatype Tile = Hint(n: int) | Mine

  datatype TileStatus = Hidden | Flagged(flaggedBy: PlayerId) | Revealed(tile: Tile)

  type BoardMap = map<Coord, TileStatus>

  /** `mineCoordinates` never changes once the board exists. */
  datatype Board = Board(hSize: nat, vSize: nat, boardMap: BoardMap, mineCoordinates: set<Coord>)

  // ---------------------------------------------------------------------------
  // Cells, construction and totality

  /** The h×v cells of a board. */
  function Cells(h: nat, v: nat): set<Coord>
  {
    set x: nat, y: nat | x < h && y < v :: Coord(x, y)
  }

  lemma InCells(h: nat, v: nat, c: Coord)
    ensures c in Cells(h, v) <==> c.x < h && c.y < v
  {
    if c.x < h && c.y < v {
      assert Coord(c.x, c.y) in Cells(h, v);
    }
  }

  /** The cells of column `x`. */
  function Column(x: nat, v: nat): set<Coord>
  {
    set y: nat | y < v :: Coord(x, y)
  }

  lemma {:induction false} ColumnSize(x: nat, v: nat)
    ensures |Column(x, v)| == v
  {
    if v > 0 {
      ColumnSize(x, v - 1);
      assert Column(x, v) == Column(x, v - 1) + {Coord(x, v - 1)};
    }
  }

  /** The cells of h columns are those of the first h - 1 columns and the last column. */
  lemma CellsSplit(h: nat, v: nat)
    requires h > 0
    ensures Cells(h, v) == Cells(h - 1, v) + Column(h - 1, v)
    ensures Cells(h - 1, v) !! Column(h - 1, v)
  {
    forall c | true
      ensures c in Cells(h, v) <==> c in Cells(h - 1, v) || c in Column(h - 1, v)
    {
      InCells(h, v, c);
      InCells(h - 1, v, c);
      if c.x == h - 1 && c.y < v {
        assert c == Coord(h - 1, c.y);
      }
    }
    forall c | c in Cells(h - 1, v)
      ensures c.x < h - 1
    {
      InCells(h - 1, v, c);
    }
  }

  lemma MulStep(h: nat, v: nat)
    requires h > 0
    ensures (h - 1) * v + v == h * v
  {
  }

  /** A board has exactly h·v cells. */
  lemma {:induction false} CellsSize(h: nat, v: nat)
    ensures |Cells(h, v)| == h * v
  {
    if h > 0 {
      CellsSize(h - 1, v);
      ColumnSize(h - 1, v);
      CellsSplit(h, v);
      MulStep(h, v);
    }
  }

  /** The map `initialize_board_map` builds: every cell Hidden. */
  function FreshTiles(h: nat, v: nat): BoardMap
  {
    map c | c in Cells(h, v) :: Hidden
  }

  /** The board `new_test` builds over a given mine set. */
  function FreshBoard(h: nat, v: nat, mines: set<Coord>): Board
  {
    Board(h, v, FreshTiles(h, v), mines)
  }

  /** `initialize_board_map`: fills the map in two nested loops. */
  method InitializeBoardMap(h: nat, v: nat) returns (m: BoardMap)
    ensures m == FreshTiles(h, v)
  {
    m := map[];
    for x := 0 to h
      invariant forall c :: c in m <==> c.x < x && c.y < v
      invariant forall c :: c in m ==> m[c] == Hidden
    {
      for y := 0 to v
        invariant forall c :: c in m <==> (c.x < x && c.y < v) || (c.x == x && c.y < y)
        invariant forall c :: c in m ==> m[c] == Hidden
      {
        m := m[Coord(x, y) := Hidden];
      }
    }
    forall c | true
      ensures c in m <==> c in FreshTiles(h, v)
    {
      InCells(h, v, c);
    }
    assert m.Keys == FreshTiles(h, v).Keys;
  }

  /** `Board::new_test`: a fresh board over an arbitrary mine set. */
  method NewTest(h: nat, v: nat, mines: set<Coord>) returns (b: Board)
    ensures b == FreshBoard(h, v, mines)
    ensures Valid(b) && Consistent(b)
  {
    var m := InitializeBoardMap(h, v);
    b := Board(h, v, m, mines);
    FreshBoardSpec(h, v, mines);
  }

  /** The map holds exactly the board's cells: what `get_tile` relies on. */
  ghost predicate Valid(b: Board)
  {
    b.boardMap.Keys == Cells(b.hSize, b.vSize)
  }

  /** Every revealed tile shows what lies under it. */
  ghost predicate Consistent(b: Board)
  {
    forall k :: k in b.boardMap && b.boardMap[k].Revealed? ==> b.boardMap[k].tile == Truth(b, k)
  }

  /** `get_tile`; a missing key panics in the source. */
  function GetTile(b: Board, c: Coord): (t: TileStatus)
    requires c in b.boardMap
    ensures Consistent(b) && t.Revealed? ==> t.tile == Truth(b, c)
  {
    b.boardMap[c]
  }

  /**
   * A fresh board maps exactly the h·v in-bounds cells, each to Hidden, and
   * within_bounds agrees with membership.
   */
  lemma FreshBoardSpec(h: nat, v: nat, mines: set<Coord>)
    ensures var b := FreshBoard(h, v, mines);
      && Valid(b) && Consistent(b)
      && |b.boardMap| == h * v
      && HiddenCount(b.boardMap) == h * v
      && (forall c :: c in b.boardMap <==> WithinBounds(b, (c.x, c.y)))
      && (forall c :: c in b.boardMap ==> GetTile(b, c) == Hidden)
  {
    var b := FreshBoard(h, v, mines);
    CellsSize(h, v);
    assert b.boardMap.Keys == Cells(h, v);
    assert HiddenCells(b.boardMap) == Cells(h, v);
    forall c | true
      ensures c in b.boardMap <==> WithinBounds(b, (c.x, c.y))
    {
      InCells(h, v, c);
    }
  }

  // ---------------------------------------------------------------------------
  // Bounds, neighbours and hints

  /**
   * `within_bounds` on the signed candidate pair the neighbour scan computes; an
   * accepted pair names a cell of the grid, so the source's cast back to
   * unsigned coordinates is exact.
   */
  predicate WithinBounds(b: Board, p: (int, int))
    ensures WithinBounds(b, p) <==> 0 <= p.0 && 0 <= p.1 && Coord(p.0, p.1) in Cells(b.hSize, b.vSize)
  {
    if 0 <= p.0 && 0 <= p.1 then
      InCells(b.hSize, b.vSize, Coord(p.0, p.1));
      p.0 < b.hSize && p.1 < b.vSize
    else
      false
  }

  /**
   * `within_bounds` applied to a cell, as the callers do after casting its
   * unsigned coordinates to `i32`; kept as a name of its own because most of
   * the model talks about cells.
   */
  predicate InBounds(b: Board, c: Coord)
  {
    WithinBounds(b, (c.x, c.y))
  }

  /** The eight relative positions, in the order the source scans them. */
  const RelativeCoordinates: seq<(int, int)> :=
    [(-1, -1), (0, -1), (1, -1), (-1, 0), (1, 0), (-1, 1), (0, 1), (1, 1)]

  /** The in-bounds neighbours found among the first `k` relative positions. */
  function NeighborsUpTo(b: Board, c: Coord, k: nat): seq<Coord>
    requires k <= |RelativeCoordinates|
  {
    if k == 0 then []
    else
      var r := RelativeCoordinates[k - 1];
      var p := (c.x + r.0, c.y + r.1);
      NeighborsUpTo(b, c, k - 1) + (if WithinBounds(b, p) then [Coord(p.0, p.1)] else [])
  }

  /** What `neighboring_coordinates` returns. */
  function Neighbors(b: Board, c: Coord): seq<Coord>
  {
    NeighborsUpTo(b, c, |RelativeCoordinates|)
  }

  /** `neighboring_coordinates`: pushes every in-bounds shifted position. */
  method NeighboringCoordinates(b: Board, c: Coord) returns (ns: seq<Coord>)
    ensures ns == Neighbors(b, c)
    ensures forall n :: n in ns <==> InBounds(b, n) && Adjacent(c, n)
  {
    ns := [];
    for i := 0 to |RelativeCoordinates|
      invariant ns == NeighborsUpTo(b, c, i)
    {
      var r := RelativeCoordinates[i];
      var p := (c.x + r.0, c.y + r.1);
      if WithinBounds(b, p) {
        ns := ns + [Coord(p.0, p.1)];
      }
    }
    NeighborsSpec(b, c);
  }

  predicate NoDuplicates(s: seq<Coord>)
  {
    forall i, j :: 0 <= i < j < |s| ==> s[i] != s[j]
  }

  /** A cell is adjacent exactly when its offset is one of the eight. */
  lemma AdjacentIffRelative(c: Coord, n: Coord)
    ensures Adjacent(c, n) <==> Offset(c, n) in RelativeCoordinates
  {
  }

  /** No relative position occurs earlier in the scan than its own place. */
  lemma RelativeNotEarlier(k: nat)
    requires 0 < k <= |RelativeCoordinates|
    ensures RelativeCoordinates[k - 1] !in RelativeCoordinates[..k - 1]
  {
  }

  /** Appending a fresh element keeps a sequence free of duplicates. */
  lemma AppendFresh(ns: seq<Coord>, e: Coord)
    requires NoDuplicates(ns) && e !in ns
    ensures NoDuplicates(ns + [e])
  {
    var all := ns + [e];
    forall i, j | 0 <= i < j < |all|
      ensures all[i] != all[j]
    {
      assert all[i] == ns[i];
    }
  }

  /** The neighbours found among the first `k` positions are the in-bounds cells at those offsets. */
  lemma {:induction false} NeighborsUpToMembers(b: Board, c: Coord, k: nat)
    requires k <= |RelativeCoordinates|
    ensures forall n :: n in NeighborsUpTo(b, c, k) <==>
      InBounds(b, n) && Offset(c, n) in RelativeCoordinates[..k]
  {
    if k > 0 {
      NeighborsUpToMembers(b, c, k - 1);
      var r := RelativeCoordinates[k - 1];
      assert RelativeCoordinates[..k] == RelativeCoordinates[..k - 1] + [r];
      var p := (c.x + r.0, c.y + r.1);
      if WithinBounds(b, p) {
        var e := Coord(p.0, p.1);
        assert Offset(c, e) == r;
      }
    }
  }

  /** At most `k` neighbours among the first `k` positions, none of them twice. */
  lemma {:induction false} NeighborsUpToDistinct(b: Board, c: Coord, k: nat)
    requires k <= |RelativeCoordinates|
    ensures |NeighborsUpTo(b, c, k)| <= k
    ensures NoDuplicates(NeighborsUpTo(b, c, k))
  {
    if k > 0 {
      NeighborsUpToDistinct(b, c, k - 1);
      NeighborsUpToMembers(b, c, k - 1);
      var r := RelativeCoordinates[k - 1];
      var p := (c.x + r.0, c.y + r.1);
      var ns := NeighborsUpTo(b, c, k - 1);
      if WithinBounds(b, p) {
        var e := Coord(p.0, p.1);
        assert Offset(c, e) == r;
        RelativeNotEarlier(k);
        assert e !in ns;
        AppendFresh(ns, e);
      }
    }
  }

  lemma NeighborsUpToSpec(b: Board, c: Coord, k: nat)
    requires k <= |RelativeCoordinates|
    ensures |NeighborsUpTo(b, c, k)| <= k
    ensures NoDuplicates(NeighborsUpTo(b, c, k))
    ensures forall n :: n in NeighborsUpTo(b, c, k) <==>
      InBounds(b, n) && Offset(c, n) in RelativeCoordinates[..k]
  {
    NeighborsUpToMembers(b, c, k);
    NeighborsUpToDistinct(b, c, k);
  }

  /**
   * `neighboring_coordinates(c)`: only in-bounds cells at Chebyshev distance 1,
   * every such cell, no duplicates and at most eight.
   */
  lemma NeighborsSpec(b: Board, c: Coord)
    ensures |Neighbors(b, c)| <= 8
    ensures NoDuplicates(Neighbors(b, c))
    ensures forall n :: n in Neighbors(b, c) <==> InBounds(b, n) && Adjacent(c, n)
  {
    NeighborsUpToSpec(b, c, |RelativeCoordinates|);
    assert RelativeCoordinates[..|RelativeCoordinates|] == RelativeCoordinates;
    forall n
      ensures Adjacent(c, n) <==> Offset(c, n) in RelativeCoordinates
    {
      AdjacentIffRelative(c, n);
    }
  }

  /** The corner of a 3×3 board has three neighbours. */
  lemma CornerHasThreeNeighbors(mines: set<Coord>)
    ensures |Neighbors(FreshBoard(3, 3, mines), Coord(0, 2))| == 3
  {
    var b, c := FreshBoard(3, 3, mines), Coord(0, 2);
    assert NeighborsUpTo(b, c, 1) == [];
    assert NeighborsUpTo(b, c, 2) == [Coord(0, 1)];
    assert NeighborsUpTo(b, c, 4) == [Coord(0, 1), Coord(1, 1)];
    assert NeighborsUpTo(b, c, 6) == [Coord(0, 1), Coord(1, 1), Coord(1, 2)];
    assert NeighborsUpTo(b, c, 8) == [Coord(0, 1), Coord(1, 1), Coord(1, 2)];
  }

  /** `is_mine`. */
  predicate IsMine(b: Board, c: Coord)
  {
    c in b.mineCoordinates
  }

  /** How many of `ns` are mines (the source's `filter(..).count()`). */
  function CountMines(mines: set<Coord>, ns: seq<Coord>): nat
  {
    if ns == [] then 0
    else (if ns[0] in mines then 1 else 0) + CountMines(mines, ns[1..])
  }

  /** `get_hint`. */
  function GetHint(b: Board, c: Coord): (h: int)
    ensures 0 <= h <= 8
  {
    NeighborsSpec(b, c);
    CountMinesIsCard(b.mineCoordinates, Neighbors(b, c));
    CountMines(b.mineCoordinates, Neighbors(b, c))
  }

  /** The mined cells around `c`, stated without the neighbour list. */
  ghost function MinedNeighbors(b: Board, c: Coord): set<Coord>
  {
    set n | n in b.mineCoordinates && InBounds(b, n) && Adjacent(c, n)
  }

  lemma {:induction false} CountMinesIsCard(mines: set<Coord>, ns: seq<Coord>)
    requires NoDuplicates(ns)
    ensures CountMines(mines, ns) == |set n | n in ns && n in mines|
    ensures CountMines(mines, ns) <= |ns|
  {
    if ns != [] {
      var tail := ns[1..];
      assert NoDuplicates(tail) by {
        forall i, j | 0 <= i < j < |tail| ensures tail[i] != tail[j] {
          assert tail[i] == ns[i + 1] && tail[j] == ns[j + 1];
        }
      }
      CountMinesIsCard(mines, tail);
      var whole := set n | n in ns && n in mines;
      var rest := set n | n in tail && n in mines;
      assert ns[0] !in tail;
      if ns[0] in mines {
        assert whole == rest + {ns[0]};
      } else {
        assert whole == rest;
      }
    }
  }

  /** `get_hint(c)` is the number of mines among the neighbours of `c`, in 0..8. */
  lemma HintCountsMinedNeighbors(b: Board, c: Coord)
    ensures GetHint(b, c) == |MinedNeighbors(b, c)|
    ensures 0 <= GetHint(b, c) <= 8
  {
    NeighborsSpec(b, c);
    CountMinesIsCard(b.mineCoordinates, Neighbors(b, c));
    assert (set n | n in Neighbors(b, c) && n in b.mineCoordinates) == MinedNeighbors(b, c);
  }

  lemma {:induction false} CountMinesZero(mines: set<Coord>, ns: seq<Coord>)
    requires CountMines(mines, ns) == 0
    ensures forall n :: n in ns ==> n !in mines
  {
    if ns != [] {
      CountMinesZero(mines, ns[1..]);
    }
  }

  /** No neighbour of a zero-hint cell is a mine. */
  lemma ZeroHintNeighborsSafe(b: Board, c: Coord)
    requires GetHint(b, c) == 0
    ensures forall n :: n in Neighbors(b, c) ==> n !in b.mineCoordinates
  {
    CountMinesZero(b.mineCoordinates, Neighbors(b, c));
  }

  /** Neighbours and hints depend on the extents and the mines only, never on the tiles. */
  lemma {:induction false} NeighborsUpToIgnoreTiles(b1: Board, b2: Board, c: Coord, k: nat)
    requires b1.hSize == b2.hSize && b1.vSize == b2.vSize
    requires k <= |RelativeCoordinates|
    ensures NeighborsUpTo(b1, c, k) == NeighborsUpTo(b2, c, k)
  {
    if k > 0 {
      NeighborsUpToIgnoreTiles(b1, b2, c, k - 1);
    }
  }

  lemma TruthIgnoresTiles(b1: Board, b2: Board, c: Coord)
    requires b1.hSize == b2.hSize && b1.vSize == b2.vSize
    requires b1.mineCoordinates == b2.mineCoordinates
    ensures Neighbors(b1, c) == Neighbors(b2, c)
    ensures Truth(b1, c) == Truth(b2, c)
  {
    NeighborsUpToIgnoreTiles(b1, b2, c, |RelativeCoordinates|);
  }

  /** What revealing `c` shows. */
  function Truth(b: Board, c: Coord): Tile
  {
    if IsMine(b, c) then Mine else Hint(GetHint(b, c))
  }

  // ---------------------------------------------------------------------------
  // Reveal and its cascade

  /** The Hidden cells of a map; their number is the cascade's termination measure. */
  ghost function HiddenCells(m: BoardMap): set<Coord>
  {
    set k | k in m && m[k] == Hidden
  }

  ghost function HiddenCount(m: BoardMap): nat
  {
    |HiddenCells(m)|
  }

  /** No tile is Hidden exactly when the Hidden count is zero. */
  lemma NoneHiddenIffCountZero(m: BoardMap)
    ensures (forall c | c in m :: m[c] != Hidden) <==> HiddenCount(m) == 0
  {
    if !(forall c | c in m :: m[c] != Hidden) {
      var c :| c in m && m[c] == Hidden;
      assert c in HiddenCells(m);
    } else {
      assert HiddenCells(m) == {};
    }
  }

  lemma HiddenCountShrinks(m: BoardMap, c: Coord, s: TileStatus)
    requires c in m && m[c] == Hidden && s != Hidden
    ensures HiddenCells(m[c := s]) == HiddenCells(m) - {c}
    ensures HiddenCount(m[c := s]) == HiddenCount(m) - 1
  {
    assert HiddenCells(m[c := s]) == HiddenCells(m) - {c};
  }

  /** The cells of `ns` that are present in `m` and Hidden there, in order. */
  function HiddenOnly(ns: seq<Coord>, m: BoardMap): (r: seq<Coord>)
    ensures forall n :: n in r <==> n in ns && n in m && m[n] == Hidden
  {
    if ns == [] then []
    else (if ns[0] in m && m[ns[0]] == Hidden then [ns[0]] else []) + HiddenOnly(ns[1..], m)
  }

  /**
   * `reveal`: a no-op unless the tile is Hidden; otherwise shows the mine or
   * the hint, and on a zero hint reveals the Hidden neighbours.
   */
  function Reveal(b: Board, c: Coord, m: BoardMap): (r: BoardMap)
    requires c in m
    ensures r.Keys == m.Keys
    ensures HiddenCount(r) <= HiddenCount(m)
    decreases HiddenCount(m), 0, 0
  {
    match m[c]
    case Hidden =>
      var updatedTileStatus := if IsMine(b, c) then Revealed(Mine) else Revealed(Hint(GetHint(b, c)));
      var isZeroHint := updatedTileStatus == Revealed(Hint(0));
      var updatedBoardMap := m[c := updatedTileStatus];
      HiddenCountShrinks(m, c, updatedTileStatus);
      if isZeroHint then
        RevealAll(b, HiddenOnly(Neighbors(b, c), updatedBoardMap), updatedBoardMap)
      else
        updatedBoardMap
    case _ => m
  }

  /** `reveal_all`: pops the worklist from its end and reveals each cell. */
  function RevealAll(b: Board, hiddenNeighbors: seq<Coord>, m: BoardMap): (r: BoardMap)
    requires forall w :: w in hiddenNeighbors ==> w in m
    ensures r.Keys == m.Keys
    ensures HiddenCount(r) <= HiddenCount(m)
    decreases HiddenCount(m), 1, |hiddenNeighbors|
  {
    if hiddenNeighbors == [] then m
    else
      var coord := hiddenNeighbors[|hiddenNeighbors| - 1];
      var updatedBoardMap := Reveal(b, coord, m);
      RevealAll(b, hiddenNeighbors[..|hiddenNeighbors| - 1], updatedBoardMap)
  }

  /** Tile `k` is either untouched or went from Hidden to what lies under it. */
  ghost predicate StepOk(b: Board, m: BoardMap, r: BoardMap, k: Coord)
    requires k in m && k in r
  {
    r[k] == m[k] || (m[k] == Hidden && r[k] == Revealed(Truth(b, k)))
  }

  /** Only Hidden tiles change, and each becomes Revealed with its true content. */
  ghost predicate OnlyUncovers(b: Board, m: BoardMap, r: BoardMap)
  {
    && r.Keys == m.Keys
    && forall k :: k in m ==> StepOk(b, m, r, k)
  }

  /** No in-bounds neighbour of `k` is Hidden in `r`. */
  ghost predicate NeighborsUncovered(b: Board, r: BoardMap, k: Coord)
  {
    forall n :: n in Neighbors(b, k) && n in r ==> r[n] != Hidden
  }

  /** Every zero hint revealed between `m` and `r` has no Hidden neighbour in `r`. */
  ghost predicate CascadeClosed(b: Board, m: BoardMap, r: BoardMap)
    requires r.Keys == m.Keys
  {
    forall k :: k in m && m[k] == Hidden && r[k] == Revealed(Hint(0)) ==> NeighborsUncovered(b, r, k)
  }

  /** No mine tile changed between `m` and `r`. */
  ghost predicate MinesUntouched(b: Board, m: BoardMap, r: BoardMap)
    requires r.Keys == m.Keys
  {
    forall k :: k in m && k in b.mineCoordinates ==> r[k] == m[k]
  }

  /** `z` was Hidden in `m` and shows a zero hint in `r`: the cascade passed through it. */
  ghost predicate ZeroRevealed(m: BoardMap, r: BoardMap, z: Coord)
    requires r.Keys == m.Keys
  {
    z in m && m[z] == Hidden && r[z] == Revealed(Hint(0))
  }

  /**
   * `p` is a chain of the cascade between `m` and `r`: each cell but the last
   * is a zero hint revealed on the way, and each next cell is one of its
   * neighbours.
   */
  ghost predicate CascadePath(b: Board, m: BoardMap, r: BoardMap, p: seq<Coord>)
    requires r.Keys == m.Keys
  {
    forall i :: 0 <= i < |p| - 1 ==> ZeroRevealed(m, r, p[i]) && p[i + 1] in Neighbors(b, p[i])
  }

  /** Some chain of the cascade leads from a cell of `start` to `k`. */
  ghost predicate ReachedFrom(b: Board, m: BoardMap, r: BoardMap, start: set<Coord>, k: Coord)
    requires r.Keys == m.Keys
  {
    exists p :: |p| >= 1 && CascadePath(b, m, r, p) && p[0] in start && p[|p| - 1] == k
  }

  /**
   * Every tile that changed between `m` and `r` is reached from a starting
   * cell through zero hints revealed on the way: the changes lie inside the
   * flood fill from `start`.
   */
  ghost predicate OnlyCascade(b: Board, m: BoardMap, r: BoardMap, start: set<Coord>)
    requires r.Keys == m.Keys
  {
    forall k :: k in m && r[k] != m[k] ==> ReachedFrom(b, m, r, start, k)
  }

  /** A chain of the first pass stays a chain once a second pass has run. */
  lemma PathLiftEarly(b: Board, m1: BoardMap, m2: BoardMap, m3: BoardMap, p: seq<Coord>)
    requires OnlyUncovers(b, m1, m2) && OnlyUncovers(b, m2, m3)
    requires CascadePath(b, m1, m2, p)
    ensures CascadePath(b, m1, m3, p)
  {
    forall i | 0 <= i < |p| - 1
      ensures ZeroRevealed(m1, m3, p[i]) && p[i + 1] in Neighbors(b, p[i])
    {
      assert ZeroRevealed(m1, m2, p[i]);
      assert StepOk(b, m2, m3, p[i]);
    }
  }

  /** A chain of the second pass is a chain of both passes together. */
  lemma PathLiftLate(b: Board, m1: BoardMap, m2: BoardMap, m3: BoardMap, p: seq<Coord>)
    requires OnlyUncovers(b, m1, m2) && OnlyUncovers(b, m2, m3)
    requires CascadePath(b, m2, m3, p)
    ensures CascadePath(b, m1, m3, p)
  {
    forall i | 0 <= i < |p| - 1
      ensures ZeroRevealed(m1, m3, p[i]) && p[i + 1] in Neighbors(b, p[i])
    {
      assert ZeroRevealed(m2, m3, p[i]);
      assert StepOk(b, m1, m2, p[i]);
    }
  }

  lemma OnlyCascadeTrans(b: Board, m1: BoardMap, m2: BoardMap, m3: BoardMap, s1: set<Coord>, s2: set<Coord>)
    requires OnlyUncovers(b, m1, m2) && OnlyUncovers(b, m2, m3)
    requires OnlyCascade(b, m1, m2, s1) && OnlyCascade(b, m2, m3, s2)
    ensures OnlyCascade(b, m1, m3, s1 + s2)
  {
    forall k | k in m1 && m3[k] != m1[k]
      ensures ReachedFrom(b, m1, m3, s1 + s2, k)
    {
      if m2[k] != m1[k] {
        assert ReachedFrom(b, m1, m2, s1, k);
        var p :| |p| >= 1 && CascadePath(b, m1, m2, p) && p[0] in s1 && p[|p| - 1] == k;
        PathLiftEarly(b, m1, m2, m3, p);
        assert |p| >= 1 && CascadePath(b, m1, m3, p) && p[0] in s1 + s2 && p[|p| - 1] == k;
      } else {
        assert ReachedFrom(b, m2, m3, s2, k);
        var p :| |p| >= 1 && CascadePath(b, m2, m3, p) && p[0] in s2 && p[|p| - 1] == k;
        PathLiftLate(b, m1, m2, m3, p);
        assert |p| >= 1 && CascadePath(b, m1, m3, p) && p[0] in s1 + s2 && p[|p| - 1] == k;
      }
    }
  }

  /** A pass that changes at most `c` stays inside the flood fill from `c`. */
  lemma OnlyActedCell(b: Board, m: BoardMap, r: BoardMap, c: Coord)
    requires r.Keys == m.Keys
    requires forall k :: k in m && k != c ==> r[k] == m[k]
    ensures OnlyCascade(b, m, r, {c})
  {
    forall k | k in m && r[k] != m[k]
      ensures ReachedFrom(b, m, r, {c}, k)
    {
      assert |[k]| >= 1 && CascadePath(b, m, r, [k]) && [k][0] in {c} && [k][|[k]| - 1] == k;
    }
  }

  /**
   * A zero hint at `c` whose worklist is drawn from its neighbours keeps the
   * cascade bound: a chain from the worklist, with `c` put in front, is a
   * chain from `c`.
   */
  lemma ZeroHintBound(b: Board, c: Coord, m: BoardMap, ws: seq<Coord>, r: BoardMap)
    requires c in m && m[c] == Hidden
    requires forall w :: w in ws ==> w in Neighbors(b, c)
    requires OnlyUncovers(b, m[c := Revealed(Hint(0))], r)
    requires OnlyCascade(b, m[c := Revealed(Hint(0))], r, set w | w in ws)
    ensures r.Keys == m.Keys && OnlyCascade(b, m, r, {c})
  {
    var m1 := m[c := Revealed(Hint(0))];
    assert ZeroRevealed(m, r, c) by {
      assert StepOk(b, m1, r, c);
    }
    forall k | k in m && r[k] != m[k]
      ensures ReachedFrom(b, m, r, {c}, k)
    {
      if k == c {
        assert |[k]| >= 1 && CascadePath(b, m, r, [k]) && [k][0] in {c} && [k][|[k]| - 1] == k;
      } else {
        assert r[k] != m1[k];
        assert ReachedFrom(b, m1, r, (set w | w in ws), k);
        var p :| |p| >= 1 && CascadePath(b, m1, r, p) && p[0] in (set w | w in ws) && p[|p| - 1] == k;
        PrependZeroHint(b, c, m, r, p);
        var q := [c] + p;
        assert |q| >= 1 && CascadePath(b, m, r, q) && q[0] in {c} && q[|q| - 1] == k;
      }
    }
  }

  /** Putting the revealed zero hint `c` in front of a chain that starts next to it. */
  lemma PrependZeroHint(b: Board, c: Coord, m: BoardMap, r: BoardMap, p: seq<Coord>)
    requires c in m && m[c] == Hidden && r.Keys == m.Keys && r[c] == Revealed(Hint(0))
    requires |p| >= 1 && p[0] in Neighbors(b, c)
    requires CascadePath(b, m[c := Revealed(Hint(0))], r, p)
    ensures CascadePath(b, m, r, [c] + p)
  {
    var m1 := m[c := Revealed(Hint(0))];
    var q := [c] + p;
    forall i | 0 <= i < |q| - 1
      ensures ZeroRevealed(m, r, q[i]) && q[i + 1] in Neighbors(b, q[i])
    {
      if i > 0 {
        assert q[i] == p[i - 1] && q[i + 1] == p[i];
        assert ZeroRevealed(m1, r, p[i - 1]);
      }
    }
  }

  /**
   * A zero hint at `c` whose Hidden neighbours were all uncovered, by a pass
   * that keeps its own zero hints closed, leaves the whole cascade closed.
   */
  lemma ZeroHintClosed(b: Board, c: Coord, m: BoardMap, r: BoardMap)
    requires c in m && m[c] == Hidden
    requires OnlyUncovers(b, m[c := Revealed(Hint(0))], r)
    requires forall w :: w in HiddenOnly(Neighbors(b, c), m[c := Revealed(Hint(0))]) ==> r[w] != Hidden
    requires CascadeClosed(b, m[c := Revealed(Hint(0))], r)
    ensures r.Keys == m.Keys && CascadeClosed(b, m, r)
  {
    var m1 := m[c := Revealed(Hint(0))];
    forall k | k in m && m[k] == Hidden && r[k] == Revealed(Hint(0))
      ensures NeighborsUncovered(b, r, k)
    {
      if k == c {
        forall n | n in Neighbors(b, k) && n in r
          ensures r[n] != Hidden
        {
          if m1[n] != Hidden {
            assert StepOk(b, m1, r, n);
          }
        }
      } else {
        assert m1[k] == Hidden;
      }
    }
  }

  /** Popping `last` and then the rest of the worklist keeps the cascade bound. */
  lemma WorklistBound(b: Board, init: seq<Coord>, last: Coord, m: BoardMap, m1: BoardMap, r: BoardMap)
    requires OnlyUncovers(b, m, m1) && OnlyUncovers(b, m1, r)
    requires OnlyCascade(b, m, m1, {last})
    requires OnlyCascade(b, m1, r, set w | w in init)
    ensures OnlyCascade(b, m, r, set w | w in init + [last])
  {
    OnlyCascadeTrans(b, m, m1, r, {last}, set w | w in init);
    assert {last} + (set w | w in init) == set w | w in init + [last];
  }

  lemma OnlyUncoversTrans(b: Board, m1: BoardMap, m2: BoardMap, m3: BoardMap)
    requires OnlyUncovers(b, m1, m2) && OnlyUncovers(b, m2, m3)
    ensures OnlyUncovers(b, m1, m3)
  {
    forall k | k in m1
      ensures StepOk(b, m1, m3, k)
    {
      assert StepOk(b, m1, m2, k) && StepOk(b, m2, m3, k);
    }
  }

  lemma CascadeClosedTrans(b: Board, m1: BoardMap, m2: BoardMap, m3: BoardMap)
    requires OnlyUncovers(b, m1, m2) && OnlyUncovers(b, m2, m3)
    requires CascadeClosed(b, m1, m2) && CascadeClosed(b, m2, m3)
    ensures CascadeClosed(b, m1, m3)
  {
    forall k | k in m1 && m1[k] == Hidden && m3[k] == Revealed(Hint(0))
      ensures NeighborsUncovered(b, m3, k)
    {
      assert StepOk(b, m2, m3, k);
      if m2[k] != Hidden {
        assert m2[k] == Revealed(Hint(0));
        forall n | n in Neighbors(b, k) && n in m3
          ensures m3[n] != Hidden
        {
          assert m2[n] != Hidden;
          assert StepOk(b, m2, m3, n);
        }
      }
    }
  }

  /**
   * The cascade from `c`: only Hidden tiles change, each to its true content
   * (Flagged tiles are kept); `c` ends non-Hidden; every zero hint it revealed
   * has no Hidden neighbour left; starting from a non-mine no mine is touched,
   * so no `Revealed(Mine)` appears. Conversely, every changed tile is reached
   * from `c` by a chain of zero hints the cascade revealed, so nothing beyond
   * the flood fill is uncovered.
   */
  lemma {:induction false} RevealSpec(b: Board, c: Coord, m: BoardMap)
    requires c in m
    ensures OnlyUncovers(b, m, Reveal(b, c, m))
    ensures Reveal(b, c, m)[c] != Hidden
    ensures CascadeClosed(b, m, Reveal(b, c, m))
    ensures c !in b.mineCoordinates ==> MinesUntouched(b, m, Reveal(b, c, m))
    ensures OnlyCascade(b, m, Reveal(b, c, m), {c})
    decreases HiddenCount(m), 0, 0
  {
    var r := Reveal(b, c, m);
    if m[c] == Hidden {
      var s := Revealed(Truth(b, c));
      var m1 := m[c := s];
      HiddenCountShrinks(m, c, s);
      assert OnlyUncovers(b, m, m1) by {
        forall k | k in m ensures StepOk(b, m, m1, k) { }
      }
      if s == Revealed(Hint(0)) {
        var ws := HiddenOnly(Neighbors(b, c), m1);
        assert r == RevealAll(b, ws, m1);
        RevealAllSpec(b, ws, m1);
        OnlyUncoversTrans(b, m, m1, r);
        ZeroHintBound(b, c, m, ws, r);
        ZeroHintClosed(b, c, m, r);
        ZeroHintNeighborsSafe(b, c);
      } else {
        assert r == m1;
        OnlyActedCell(b, m, r, c);
      }
    }
  }

  /**
   * `reveal_all` keeps the same guarantees and leaves every worklist cell
   * non-Hidden; a worklist of non-mines touches no mine; every changed tile
   * is reached from a worklist cell by a chain of zero hints revealed on the way.
   */
  lemma {:induction false} RevealAllSpec(b: Board, ws: seq<Coord>, m: BoardMap)
    requires forall w :: w in ws ==> w in m
    ensures OnlyUncovers(b, m, RevealAll(b, ws, m))
    ensures forall w :: w in ws ==> RevealAll(b, ws, m)[w] != Hidden
    ensures CascadeClosed(b, m, RevealAll(b, ws, m))
    ensures (forall w :: w in ws ==> w !in b.mineCoordinates) ==> MinesUntouched(b, m, RevealAll(b, ws, m))
    ensures OnlyCascade(b, m, RevealAll(b, ws, m), set w | w in ws)
    decreases HiddenCount(m), 1, |ws|
  {
    var r := RevealAll(b, ws, m);
    if ws == [] {
      assert r == m;
      assert OnlyUncovers(b, m, r) by {
        forall k | k in m ensures StepOk(b, m, r, k) { }
      }
    } else {
      var last := ws[|ws| - 1];
      var init := ws[..|ws| - 1];
      var m1 := Reveal(b, last, m);
      assert r == RevealAll(b, init, m1);
      RevealSpec(b, last, m);
      RevealAllSpec(b, init, m1);
      OnlyUncoversTrans(b, m, m1, r);
      CascadeClosedTrans(b, m, m1, r);
      assert ws == init + [last];
      WorklistBound(b, init, last, m, m1, r);
      forall w | w in ws
        ensures r[w] != Hidden
      {
        if w !in init {
          assert w == last;
          assert StepOk(b, m1, r, w);
        }
      }
    }
  }

  /**
   * `reveal` on one tile: a Flagged or Revealed tile leaves the map unchanged;
   * a Hidden one shows its mine or hint, strictly fewer tiles stay Hidden,
   * and when it is not a zero hint no other tile changes.
   */
  lemma RevealTile(b: Board, c: Coord, m: BoardMap)
    requires c in m
    ensures m[c] != Hidden ==> Reveal(b, c, m) == m
    ensures m[c] == Hidden ==> Reveal(b, c, m)[c] == Revealed(Truth(b, c))
    ensures m[c] == Hidden ==> HiddenCount(Reveal(b, c, m)) < HiddenCount(m)
    ensures m[c] == Hidden && Truth(b, c) != Hint(0) ==>
      Reveal(b, c, m) == m[c := Revealed(Truth(b, c))]
  {
    RevealSpec(b, c, m);
    if m[c] == Hidden {
      assert StepOk(b, m, Reveal(b, c, m), c);
      HiddenCountShrinks(m, c, Revealed(Truth(b, c)));
    }
  }

  /** The hint of `c` on a board whose only mine is at (0, 0). */
  lemma HintNextToCornerMine(b: Board, c: Coord)
    requires b.mineCoordinates == {Coord(0, 0)} && InBounds(b, Coord(0, 0))
    ensures GetHint(b, c) == if Adjacent(c, Coord(0, 0)) then 1 else 0
  {
    HintCountsMinedNeighbors(b, c);
    if Adjacent(c, Coord(0, 0)) {
      assert MinedNeighbors(b, c) == {Coord(0, 0)};
    } else {
      assert MinedNeighbors(b, c) == {};
    }
  }

  /** One link of a cascade: a Hidden neighbour of a zero hint revealed from `c` shows its content. */
  lemma CascadeLink(b: Board, c: Coord, m: BoardMap, k: Coord, n: Coord)
    requires c in m && k in m && m[k] == Hidden && Reveal(b, c, m)[k] == Revealed(Hint(0))
    requires InBounds(b, n) && Adjacent(k, n) && n in m && m[n] == Hidden
    ensures Reveal(b, c, m)[n] == Revealed(Truth(b, n))
  {
    var r := Reveal(b, c, m);
    RevealSpec(b, c, m);
    NeighborsSpec(b, k);
    assert NeighborsUncovered(b, r, k);
    assert StepOk(b, m, r, n);
  }

  /** A cascade started on a non-mine leaves every mine tile as it was. */
  lemma CascadeSparesMine(b: Board, c: Coord, m: BoardMap, k: Coord)
    requires c in m && c !in b.mineCoordinates && k in m && k in b.mineCoordinates
    ensures Reveal(b, c, m)[k] == m[k]
  {
    RevealSpec(b, c, m);
  }

  /** On the fresh 3×3 board, the cells the cascade test reads are present and Hidden. */
  lemma Hidden3x3(b: Board)
    requires b == FreshBoard(3, 3, {Coord(0, 0)})
    ensures forall c :: c in {Coord(0, 0), Coord(0, 2), Coord(1, 2), Coord(2, 2), Coord(0, 1)} ==>
      c in b.boardMap && b.boardMap[c] == Hidden
  {
    forall c | c in {Coord(0, 0), Coord(0, 2), Coord(1, 2), Coord(2, 2), Coord(0, 1)}
      ensures c in b.boardMap && b.boardMap[c] == Hidden
    {
      InCells(3, 3, c);
    }
  }

  /** What the cells of the cascade test hide, with the one mine at (0, 0). */
  lemma Truth3x3(b: Board)
    requires b.hSize == 3 && b.vSize == 3 && b.mineCoordinates == {Coord(0, 0)}
    ensures Truth(b, Coord(0, 2)) == Hint(0) && Truth(b, Coord(1, 2)) == Hint(0)
    ensures Truth(b, Coord(2, 2)) == Hint(0) && Truth(b, Coord(0, 1)) == Hint(1)
  {
    HintNextToCornerMine(b, Coord(0, 2));
    HintNextToCornerMine(b, Coord(1, 2));
    HintNextToCornerMine(b, Coord(2, 2));
    HintNextToCornerMine(b, Coord(0, 1));
  }

  /**
   * The 3×3 test with one mine at (0, 0): revealing the corner (0, 2) cascades
   * through (1, 2) to (2, 2), shows Hint(1) at (0, 1) and leaves the mine Hidden.
   */
  lemma Cascade3x3(b: Board, id: PlayerId)
    requires b == FreshBoard(3, 3, {Coord(0, 0)})
    ensures Coord(0, 2) in b.boardMap
    ensures var r := Update(b, PlayerAction(id, Coord(0, 2), Action.Reveal)).boardMap;
      && Coord(0, 2) in r && r[Coord(0, 2)] == Revealed(Hint(0))
      && Coord(1, 2) in r && r[Coord(1, 2)] == Revealed(Hint(0))
      && Coord(2, 2) in r && r[Coord(2, 2)] == Revealed(Hint(0))
      && Coord(0, 1) in r && r[Coord(0, 1)] == Revealed(Hint(1))
      && Coord(0, 0) in r && r[Coord(0, 0)] == Hidden
  {
    var m := b.boardMap;
    var c00, c02, c12, c22, c01 := Coord(0, 0), Coord(0, 2), Coord(1, 2), Coord(2, 2), Coord(0, 1);
    Hidden3x3(b);
    Truth3x3(b);
    var r := Reveal(b, c02, m);
    assert Update(b, PlayerAction(id, c02, Action.Reveal)).boardMap == r;
    RevealTile(b, c02, m);
    CascadeLink(b, c02, m, c02, c01);
    CascadeLink(b, c02, m, c02, c12);
    CascadeLink(b, c02, m, c12, c22);
    CascadeSparesMine(b, c02, m, c00);
  }

  /**
   * On a 7×1 row with its one mine at (3, 0), a chain of the cascade that
   * starts left of the mine stays left of it: the Hint(1) at (2, 0) is where
   * every chain from there ends.
   */
  lemma {:induction false} ChainStaysLeft(b: Board, m: BoardMap, r: BoardMap, p: seq<Coord>, k: nat)
    requires b.hSize == 7 && b.vSize == 1 && b.mineCoordinates == {Coord(3, 0)}
    requires m.Keys == Cells(7, 1) && OnlyUncovers(b, m, r)
    requires |p| >= 1 && CascadePath(b, m, r, p) && p[0].x <= 2
    requires k < |p|
    ensures p[k].x <= 2
  {
    if k > 0 {
      ChainStaysLeft(b, m, r, p, k - 1);
      var z := p[k - 1];
      assert ZeroRevealed(m, r, z);
      assert StepOk(b, m, r, z);
      assert GetHint(b, z) == 0;
      ZeroHintNeighborsSafe(b, z);
      NeighborsSpec(b, z);
      InCells(7, 1, z);
      var mine := Coord(3, 0);
      assert z.x != 2 by {
        assert z.x == 2 ==> mine in Neighbors(b, z);
      }
      assert p[k] in Neighbors(b, z);
    }
  }

  /**
   * Revealing (0, 0) of a 7×1 row whose one mine is at (3, 0) changes no tile
   * from the mine rightwards, whatever state the row is in.
   */
  lemma RightOfMineUntouched(b: Board, m: BoardMap)
    requires b.hSize == 7 && b.vSize == 1 && b.mineCoordinates == {Coord(3, 0)}
    requires m.Keys == Cells(7, 1) && Coord(0, 0) in m
    ensures forall k :: k in m && k.x >= 3 ==> Reveal(b, Coord(0, 0), m)[k] == m[k]
  {
    var r := Reveal(b, Coord(0, 0), m);
    RevealSpec(b, Coord(0, 0), m);
    forall k | k in m && k.x >= 3
      ensures r[k] == m[k]
    {
      if r[k] != m[k] {
        assert ReachedFrom(b, m, r, {Coord(0, 0)}, k);
        var p :| |p| >= 1 && CascadePath(b, m, r, p) && p[0] in {Coord(0, 0)} && p[|p| - 1] == k;
        ChainStaysLeft(b, m, r, p, |p| - 1);
        assert false;
      }
    }
  }

  /** With the one mine at (3, 0) of a 7×1 row, (5, 0) hides a zero hint. */
  lemma FarZeroHint(b: Board)
    requires b.hSize == 7 && b.vSize == 1 && b.mineCoordinates == {Coord(3, 0)}
    ensures Truth(b, Coord(5, 0)) == Hint(0)
  {
    HintCountsMinedNeighbors(b, Coord(5, 0));
    assert MinedNeighbors(b, Coord(5, 0)) == {};
  }

  /**
   * The fresh 7×1 row with its one mine at (3, 0): revealing (0, 0) stops at
   * the Hint(1) at (2, 0), and the zero hint at (5, 0), on the far side of the
   * mine, stays Hidden, as the source's recursive `reveal` leaves it.
   */
  lemma Cascade7x1(b: Board)
    requires b == FreshBoard(7, 1, {Coord(3, 0)})
    ensures Coord(0, 0) in b.boardMap && Coord(5, 0) in b.boardMap
    ensures Truth(b, Coord(5, 0)) == Hint(0)
    ensures Reveal(b, Coord(0, 0), b.boardMap)[Coord(5, 0)] == Hidden
  {
    InCells(7, 1, Coord(0, 0));
    InCells(7, 1, Coord(5, 0));
    assert b.boardMap.Keys == Cells(7, 1);
    FarZeroHint(b);
    RightOfMineUntouched(b, b.boardMap);
  }

  // ---------------------------------------------------------------------------
  // Update

  /** `Board::update`: dispatches Reveal, Flag or Unflag on the acted cell. */
  function Update(b: Board, playerAction: PlayerAction): (r: Board)
    requires playerAction.action.Reveal? ==> playerAction.coordinate in b.boardMap
    ensures r.hSize == b.hSize && r.vSize == b.vSize && r.mineCoordinates == b.mineCoordinates
    ensures r.boardMap.Keys == b.boardMap.Keys + {playerAction.coordinate}
  {
    var c := playerAction.coordinate;
    var updatedBoardMap := match playerAction.action
      case Reveal => Reveal(b, c, b.boardMap)
      case Flag => b.boardMap[c := Flagged(playerAction.playerId)]
      case Unflag => b.boardMap[c := Hidden];
    Board(b.hSize, b.vSize, updatedBoardMap, b.mineCoordinates)
  }

  /**
   * Flag puts the acting player's flag on the cell, Unflag makes it Hidden;
   * every other tile is unchanged.
   */
  lemma UpdateFlagUnflag(b: Board, pa: PlayerAction)
    requires !pa.action.Reveal?
    ensures var r := Update(b, pa);
      && r.boardMap[pa.coordinate] == (if pa.action == Flag then Flagged(pa.playerId) else Hidden)
      && forall k :: k != pa.coordinate ==>
        (k in r.boardMap <==> k in b.boardMap) && (k in b.boardMap ==> r.boardMap[k] == b.boardMap[k])
  {
  }

  /** Reveal through `update`: the whole cascade guarantee, on the board's own map. */
  lemma UpdateReveal(b: Board, pa: PlayerAction)
    requires pa.action.Reveal? && pa.coordinate in b.boardMap
    ensures var r := Update(b, pa);
      && OnlyUncovers(b, b.boardMap, r.boardMap)
      && r.boardMap[pa.coordinate] != Hidden
      && CascadeClosed(b, b.boardMap, r.boardMap)
      && (pa.coordinate !in b.mineCoordinates ==> MinesUntouched(b, b.boardMap, r.boardMap))
      && OnlyCascade(b, b.boardMap, r.boardMap, {pa.coordinate})
  {
    RevealSpec(b, pa.coordinate, b.boardMap);
  }

  /** `update` on an in-bounds cell keeps the map total and every revealed tile truthful. */
  lemma UpdatePreservesInvariants(b: Board, pa: PlayerAction)
    requires Valid(b) && Consistent(b) && InBounds(b, pa.coordinate)
    ensures pa.coordinate in b.boardMap
    ensures Valid(Update(b, pa)) && Consistent(Update(b, pa))
  {
    InCells(b.hSize, b.vSize, pa.coordinate);
    var r := Update(b, pa);
    if pa.action.Reveal? {
      RevealSpec(b, pa.coordinate, b.boardMap);
      forall k | k in r.boardMap && r.boardMap[k].Revealed?
        ensures r.boardMap[k].tile == Truth(r, k)
      {
        assert StepOk(b, b.boardMap, r.boardMap, k);
        TruthIgnoresTiles(r, b, k);
      }
    } else {
      forall k | k in r.boardMap && r.boardMap[k].Revealed?
        ensures r.boardMap[k].tile == Truth(r, k)
      {
        TruthIgnoresTiles(r, b, k);
      }
    }
  }

  /** `Board::validate_size`: refuses only when both sides exceed the bound. */
  function ValidateSize(hSize: nat, vSize: nat): (r: Result<BoardSize, InvalidErr>)
    ensures r.Err? <==> hSize > BoardMaxSize && vSize > BoardMaxSize
    ensures r.Err? ==> r.error == InvalidSize
    ensures r.Ok? ==> r.value == (hSize, vSize)
  {
    if hSize > BoardMaxSize && vSize > BoardMaxSize then Err(InvalidSize) else Ok((hSize, vSize))
  }
}
