# Minesweeper core, modelled and verified in Dafny

This project models the core of `minesweeper_rust`, a small, sequential,
deterministic Minesweeper engine. The board is a total map from grid cells to
tile statuses (`Hidden`, `Flagged(player)` or `Revealed(Hint n | Mine)`) over
a fixed set of mines. The engine supports:

- neighbour, hint and bounds queries;
- a persistent `update` that dispatches Reveal, Flag and Unflag;
- a recursive reveal that cascades through zero-hint tiles.

Several front-ends use this board:

- a scoring game with a map of players, a score table, winners and an "every
  tile touched" status;
- a single-player game that is lost on a mine and won once every non-mine tile
  shows its hint;
- a multiplayer game that so far only gathers players;
- the stateless validators of board sizes, coordinates and actions;
- the pure parsers the console front-end reads its input with.

Modules, one per part of the program:

| module | file | models |
|---|---|---|
| `Wrappers` | wrappers.dfy | `Option`, `Result` |
| `Coordinates` | coordinates.dfy | `Coordinate`, offsets, king-move adjacency |
| `Errors` | errors.dfy | `CoordinateErr`, `InvalidErr`, `BOARD_MAX_SIZE`, `BoardSize` |
| `Players` | players.dfy | `Player`, `PlayerAction`, `Action`, the id counter |
| `Boards` | boards.dfy | src/core/board.rs |
| `Validation` | validation.dfy | src/core/validation.rs |
| `Games` | games.dfy | src/core/game.rs |
| `SinglePlayer` | singleplayer.dfy | src/single_player/game.rs |
| `Multiplayer` | multiplayer.dfy | src/multiplayer/game.rs |
| `TextUi` | textui.dfy | the `parse_*` functions of src/single_player/text_ui.rs |

How the source's constructs are modelled:

- **Persistent values.** `im::HashMap` becomes a Dafny `map` and the
  `Rc<HashSet>` of mines becomes a `set`. Every persistent operation of the
  source is a function returning a new value.
- **Loops.** The loop that fills the board (`initialize_board_map`) and the
  loop that collects neighbours (`neighboring_coordinates`) are methods. Each
  is proved equal to a specification function, and the properties are proved
  about that function.
- **The cascade.** `reveal` and `reveal_all` are mutually recursive functions.
  They terminate on the number of Hidden tiles, because the no-op guard on
  non-Hidden tiles is what stops the recursion.
- **The id counter.** The global `NEXT_PLAYER_ID` counter becomes the class
  `PlayerIdCounter`, whose methods bump its field.

Two invariants describe a well-formed board:

- `Valid`: the map holds exactly the h×v in-bounds cells.
- `Consistent`: every revealed tile shows what lies under it.

Where the source is inconsistent with itself, and what the model follows:

- **`Action` has three variants.** src/core/player.rs:24-27 declares only
  `Reveal` and `Flag`, but `Board::update` dispatches `Unflag` as well
  (src/core/board.rs:165-169). The model's `Action` has all three. Scoring
  (src/core/game.rs:107-127) handles only two, so `Games.CalculatePoints` and
  `Games.Update` require the action not to be Unflag.
- **Size-error name.** `InvalidErr` declares `InvalidSize`
  (src/core/validation.rs:20), while src/core/board.rs:241 and
  src/single_player/text_ui.rs:42 name it `InvalidBoardSize`. The model has
  the one declared variant, `InvalidSize`.
- **Board size check.** `BOARD_MAX_SIZE` (src/core/validation.rs:23) is a
  bound on the board, so the evident rule is to refuse a board with either side
  above 30. The code refuses only boards whose BOTH sides exceed 30 (see
  Findings). The model follows the code, and states the intended check next
  to it.
- **Lifting a flag.** The action prompt offers Unflag
  (src/single_player/text_ui.rs:131), `Board::update` implements it
  (src/core/board.rs:168), and `validate_coordinate` accepts the player's own
  flag (src/core/validation.rs:51-52). Even so, `parse_action` cannot produce
  Unflag (src/single_player/text_ui.rs:159), and `validate_action` refuses
  every action on a non-Hidden tile (src/core/validation.rs:38-41). The
  model follows the code (`Validation.OwnFlagCannotBeLifted`).
- **Where `validate_action` looks.** It reads the tile at its separate
  `coordinate` argument, not at the action's own coordinate; the model does
  the same.

## Model

| member | source | states |
|---|---|---|
| Boards.InCells | src/core/board.rs:73-83 | a cell belongs to the h×v grid exactly when x < h and y < v |
| Boards.ColumnSize | src/core/board.rs:77-79 | one column of the inner loop holds v cells |
| Boards.CellsSplit | src/core/board.rs:76-80 | the grid of h columns is the grid of h - 1 columns plus the last column, disjointly |
| Boards.CellsSize | src/core/board.rs:73-83 | the grid has exactly h·v cells |
| Boards.InitializeBoardMap | src/core/board.rs:73-83 | the nested loops produce the map sending every cell of the h×v grid, and nothing else, to Hidden |
| Boards.NewTest | src/core/board.rs:62-71 | the test board is the fresh board over the given mine set; it is total and consistent |
| Boards.FreshBoardSpec | src/core/board.rs:73-91 | a fresh board maps exactly the cells that `within_bounds` accepts, h·v of them, each Hidden, so `get_tile` never panics on an in-bounds cell; it is total and consistent, and all h·v tiles are Hidden |
| Boards.GetTile | src/core/board.rs:85-91 | on a consistent board a revealed tile read by `get_tile` shows its true content; a missing key is excluded, as the source panics on it |
| Boards.WithinBounds | src/core/board.rs:159-161 | a signed pair is within bounds exactly when both parts are non-negative and name a cell of the h×v grid, so the cast back to unsigned is exact |
| Boards.IsMine | src/core/board.rs:131-133 | membership in the mine set; what a reveal shows is Mine exactly then (`Truth`), and a cascade started off a mine never changes a mine tile (CascadeSparesMine) |
| Boards.GetHint | src/core/board.rs:151-157 | the hint lies in 0..8; HintCountsMinedNeighbors shows it is the number of mined in-bounds adjacent cells |
| Boards.NeighboringCoordinates | src/core/board.rs:136-149 | the loop returns the neighbour specification, whose members are exactly the in-bounds cells at king-move distance 1 |
| Boards.AdjacentIffRelative | src/core/board.rs:137 | a cell is at king-move distance 1 exactly when its offset is one of the eight relative coordinates |
| Boards.NeighborsUpToMembers | src/core/board.rs:140-146 | after scanning k offsets, the list holds exactly the in-bounds cells at those offsets |
| Boards.NeighborsUpToDistinct | src/core/board.rs:140-146 | after scanning k offsets, the list has at most k cells and no cell twice |
| Boards.NeighborsUpToSpec | src/core/board.rs:136-149 | the conjunction of the two facts above, for any prefix of the scan |
| Boards.NeighborsSpec | src/core/board.rs:136-149 | at most 8 neighbours, no duplicates, and membership iff in bounds and adjacent |
| Boards.CornerHasThreeNeighbors | src/core/board.rs:326-332 | the corner (0, 2) of a 3×3 board has 3 neighbours, whatever the mines |
| Boards.CountMinesIsCard | src/core/board.rs:154-156 | counting mines in a duplicate-free list gives the number of mined cells in it, at most its length |
| Boards.HintCountsMinedNeighbors | src/core/board.rs:151-157 | the hint equals the number of mined in-bounds adjacent cells and lies in 0..8, so the i8 cast is exact |
| Boards.CountMinesZero | src/core/board.rs:154-156 | a zero count means no listed cell is a mine |
| Boards.ZeroHintNeighborsSafe | src/core/board.rs:151-157 | no neighbour of a zero-hint cell is a mine |
| Boards.NeighborsUpToIgnoreTiles | src/core/board.rs:140-146 | the neighbour scan depends only on the board's extents |
| Boards.TruthIgnoresTiles | src/core/board.rs:151-157 | neighbours and what a reveal shows depend only on the extents and the mines, never on the tile statuses |
| Boards.HiddenCountShrinks | src/core/board.rs:220 | overwriting a Hidden tile with anything else lowers the number of Hidden tiles by one |
| Boards.HiddenOnly | src/core/board.rs:223-226 | the filtered list holds exactly the listed cells that are Hidden in the map |
| Boards.Reveal | src/core/board.rs:202-236 | revealing keeps the map's keys and never raises the number of Hidden tiles |
| Boards.RevealAll | src/core/board.rs:179-190 | the worklist pass keeps the map's keys and never raises the number of Hidden tiles |
| Boards.OnlyUncoversTrans | src/core/board.rs:179-190 | changing only Hidden tiles into their true content composes across two passes |
| Boards.CascadeClosedTrans | src/core/board.rs:179-190 | the closure of the cascade around revealed zero hints composes across two passes |
| Boards.OnlyCascadeTrans | src/core/board.rs:179-190 | "every changed tile is reached from a start cell by a chain of adjacent zero hints revealed on the way" composes across two passes, with the start sets joined |
| Boards.RevealSpec | src/core/board.rs:202-236 | a reveal only turns Hidden tiles into Revealed with their true content and keeps Flagged tiles, leaves the acted tile non-Hidden, leaves no Hidden in-bounds neighbour around any zero hint it revealed, and, started on a non-mine, touches no mine; conversely every tile it changes is reached from the acted tile by a chain of adjacent cells whose every link but the last is a zero hint it revealed, so it uncovers the flood fill and nothing more |
| Boards.RevealAllSpec | src/core/board.rs:179-190 | the same for a worklist: every listed cell ends non-Hidden, a list of non-mines touches no mine, and every changed tile is reached from a listed cell by a chain of zero hints the pass revealed |
| Boards.RevealTile | src/core/board.rs:202-236 | a non-Hidden tile leaves the map unchanged; a Hidden tile becomes Revealed(Mine) or Revealed(Hint(hint)) and the Hidden count strictly drops; when the result is not Hint(0), no other tile changes |
| Boards.HintNextToCornerMine | src/core/board.rs:318-324 | with the only mine at (0, 0), a cell's hint is 1 when it is adjacent to (0, 0) and 0 otherwise |
| Boards.CascadeLink | src/core/board.rs:222-228 | a Hidden neighbour of a zero hint revealed by the cascade ends Revealed with its true content |
| Boards.CascadeSparesMine | src/core/board.rs:202-236 | a cascade started on a non-mine leaves every mine tile as it was |
| Boards.Cascade3x3 | src/core/board.rs:334-349 | the 3×3 test: revealing (0, 2) shows Hint(0) at (0, 2), (1, 2) and (2, 2) and Hint(1) at (0, 1), and leaves the mine at (0, 0) Hidden |
| Boards.Update | src/core/board.rs:164-177 | `update` keeps the extents and the mine set and adds no key but the acted one; for Flag and Unflag no other tile changes (UpdateFlagUnflag), while Reveal may change others through the cascade (UpdateReveal) |
| Boards.UpdateFlagUnflag | src/core/board.rs:164-177 | Flag puts `Flagged(player_id)` and Unflag puts Hidden at the cell; every other tile is unchanged (the test at lines 292-304) |
| Boards.ChainStaysLeft | src/core/board.rs:202-236 | on a 7×1 row whose one mine is at (3, 0), every chain of a cascade that starts at x ≤ 2 stays at x ≤ 2, since the Hint(1) at (2, 0) ends it |
| Boards.RightOfMineUntouched | src/core/board.rs:202-236 | revealing (0, 0) of that row changes no tile at x ≥ 3, whatever the row's state |
| Boards.FarZeroHint | src/core/board.rs:151-157 | on that row (5, 0) hides a zero hint |
| Boards.Cascade7x1 | src/core/board.rs:202-236 | on the fresh row, revealing (0, 0) leaves the zero hint at (5, 0) Hidden: a zero region not connected to the acted cell is not uncovered |
| Boards.UpdateReveal | src/core/board.rs:164-177 | Reveal through `update` carries the whole cascade guarantee of RevealSpec, both what it must uncover and that it changes nothing outside the flood fill |
| Boards.UpdatePreservesInvariants | src/core/board.rs:164-177 | an action on an in-bounds cell of a total, consistent board leaves it total and consistent |
| Boards.ValidateSize | src/core/board.rs:239-245 | refuses with the size error exactly when both sides exceed 30, and returns the size unchanged otherwise |
| Players.AddPoints | src/core/player.rs:43-45 | `add_points(d)` keeps the id and name and moves the points by exactly d |
| Players.SubtractPoints | src/core/player.rs:47-49 | `subtract_points(d)` keeps the id and name and equals `add_points(-d)` |
| Players.SubtractUndoesAdd | src/core/player.rs:43-49 | subtracting what was added, or adding what was subtracted, gives back the same player |
| Players.PlayersFromIds | src/core/player.rs:67-83 | n players created in sequence from counter value `next` are `Player(next + i, names[i], 0)`, with strictly increasing, hence distinct, ids |
| Players.PlayerIdCounter.constructor | src/core/player.rs:5 | the counter starts at 1 |
| Players.PlayerIdCounter.NewPlayer | src/core/player.rs:30-36 | `Player::new` returns the current id, the given name and 0 points, and bumps the counter by one |
| Players.PlayerIdCounter.NewPlayers | src/core/player.rs:56-83 | creating players for n names in order returns the sequence above; the counter moves by n and ids strictly increase |
| Games.New | src/core/game.rs:30-36 | a new game has the given board, no players and status Continue |
| Games.AddPlayer | src/core/game.rs:47-53 | after `add_player(p)`, `get_player(p.id) == p`; board, status and every other player are unchanged |
| Games.AddPlayerByName | src/core/game.rs:61-69 | adding by name is adding the player `Player::new` makes from the counter, which moves by one |
| Games.AddPlayerTwice | src/core/game.rs:162-181 | re-adding an id keeps only the newer player; adding two distinct ids keeps both |
| Games.GetPlayer | src/core/game.rs:71-73 | the player returned is an entry of the game; when every entry sits under its own id, as `add_player` stores them, it is the player with the asked id |
| Games.UpdateStatus | src/core/game.rs:81-90 | the status is Over exactly when no tile is Hidden (each is revealed or flagged), i.e. when the Hidden count is zero |
| Games.MaxOf | src/core/game.rs:97-100 | the maximum of a non-empty set of scores belongs to it and bounds every member |
| Games.GetWinners | src/core/game.rs:92-105 | the winners are entries of the game's players, each unchanged; GetWinnersSpec says which |
| Games.GetWinnersSpec | src/core/game.rs:92-105 | the winners are empty exactly when there are no players; otherwise a player wins exactly when nobody scores more, and carries its own entry |
| Games.WinnersOfThreeScores | src/core/game.rs:183-195 | scores -1, 30 and 25 give player 2 as the only winner |
| Games.OneWinner | src/core/game.rs:183-195 | the test's three added players give exactly one winner |
| Games.WinnersOfFourScores | src/core/game.rs:197-215 | scores -1, 30, 25 and 30 give players 2 and 4 as winners |
| Games.TwoWinners | src/core/game.rs:197-215 | the test's four added players give exactly two winners |
| Games.CalculatePoints | src/core/game.rs:107-127 | flagging scores positive exactly on a mine; revealing scores negative exactly when the tile shows a mine and zero exactly when it does not show anything; ScoreTable gives every value |
| Games.AwardPoints | src/core/game.rs:129-133 | only the acting player changes: same id and name, points moved by exactly the award |
| Games.Update | src/core/game.rs:136-154 | the new board is `board.update(action)` and the status is read from that board; the set of players is unchanged |
| Games.ScoreTable | src/core/game.rs:107-154 | read on the tile before the action: revealing a Hidden tile scores +3 on a zero hint, +1 on another hint and -10 on a mine; revealing a Flagged tile scores 0; re-revealing a Revealed tile scores its content again; flagging scores +2 on a mine and -1 elsewhere; only the acting player moves |
| Games.MineDoesNotEndScoringGame | src/core/game.rs:81-90 | in every game, revealing a Hidden mine shows Revealed(Mine) and leaves the status Continue while another tile is still Hidden |
| Games.MineOnTwoByOne | src/core/game.rs:81-90 | one instance: on the 2×1 board with a mine at (0, 0), revealing the mine leaves the game going |
| Validation.ValidateBoardSize | src/core/validation.rs:25-31 | as written: refuses with InvalidSize exactly when both sides exceed 30, and returns the size unchanged otherwise |
| Validation.BoardAndValidationAgree | src/core/board.rs:239-245 | the board's size check and the validator agree on every input |
| Validation.WideBoardAccepted | src/core/validation.rs:25-31 | a 100×5 board, wider than 30, passes the check as written |
| Validation.IntendedValidateBoardSize | src/core/validation.rs:25-31 | corrected: refuses exactly when either side exceeds 30 |
| Validation.IntendedCheckBoundsBothSides | src/core/validation.rs:25-31 | every size the corrected check accepts has both sides at most 30, and the corrected check accepts nothing the check as written refuses |
| Validation.ValidateAction | src/core/validation.rs:34-42 | Ok, carrying the action unchanged, exactly when the tile is Hidden and the action is Flag or Reveal; InvalidAction otherwise |
| Validation.ValidateCoordinate | src/core/validation.rs:45-61 | OutOfBounds iff not within bounds; TileRevealed iff within bounds and Revealed; TileFlagged iff within bounds and flagged by another player; Ok, carrying the coordinate unchanged, iff within bounds and Hidden or flagged by this player |
| Validation.ValidatedActionMakesProgress | src/core/validation.rs:34-42 | an action that passes the action check on its own cell strictly lowers the number of Hidden tiles |
| Validation.OwnFlagCannotBeLifted | src/core/validation.rs:34-61 | a tile the player flagged passes the coordinate check, yet every action on it fails the action check |
| SinglePlayer.NewTest | src/single_player/game.rs:43-50 | the test game has the fresh board over the given mines, which is total and consistent, and status Continue |
| SinglePlayer.UpdateStatus | src/single_player/game.rs:57-67 | Over iff the acted tile is Revealed(Mine); Win iff it is not and `check_win` holds; Continue iff it is not and `check_win` fails |
| SinglePlayer.Update | src/single_player/game.rs:82-92 | the new board is `board.update(action)` and the status is Over or Win as `update_status` says on that board |
| SinglePlayer.CheckWin | src/single_player/game.rs:75-79 | on a consistent board, `check_win` means every non-mine tile shows its own true hint |
| SinglePlayer.CheckWinSpec | src/single_player/game.rs:69-79 | on a total board, `check_win` holds iff every in-bounds non-mine cell shows a hint |
| SinglePlayer.CheckWinIgnoresMines | src/single_player/game.rs:69-79 | the state of mine tiles never changes `check_win` |
| SinglePlayer.RevealMineIsOver | src/single_player/game.rs:57-61 | revealing a Hidden mine gives Over, whatever the other tiles show |
| SinglePlayer.SafeActionNeverOver | src/single_player/game.rs:57-67 | on a consistent board, an action on a non-mine cell never gives Over |
| SinglePlayer.DiagonalHint | src/single_player/game.rs:100-112 | the safe cells of the 2×2 board with mines on the diagonal show Hint(2) |
| SinglePlayer.TwoByTwoCells | src/single_player/game.rs:100-112 | a 2×2 board has exactly the four cells |
| SinglePlayer.CheckWinScenario | src/single_player/game.rs:100-112 | revealing (0, 1) keeps the game going, and then revealing (1, 0) wins it |
| Multiplayer.New | src/multiplayer/game.rs:19-28 | a new game has the given board, no players and status Continue |
| Multiplayer.AddPlayer | src/multiplayer/game.rs:30-36 | the entry at `p.id` equals `p`, the keys gain exactly `p.id`, other entries, board and status are unchanged |
| Multiplayer.IdsOfCons | src/multiplayer/game.rs:30-36 | the ids of a non-empty sequence are its first player's id and the rest's |
| Multiplayer.AddPlayersFrame | src/multiplayer/game.rs:30-36 | adding several players adds exactly their ids and keeps every other entry, the board and the status |
| Multiplayer.AddPlayersFound | src/multiplayer/game.rs:54-63 | adding players with distinct ids keeps every one of them under its id |
| Multiplayer.AddedPlayerFound | src/multiplayer/game.rs:54-63 | each one of such players is found under its id |
| Multiplayer.ConsecutivePlayersAllFound | src/multiplayer/game.rs:46-63 | players with consecutive ids, added to a new game, are found under those ids |
| Multiplayer.NewPlayersAllFound | src/multiplayer/game.rs:46-63 | players made by `Player::new` in sequence and added to a new game are all found under their ids, with their names and 0 points |
| TextUi.TrimStart | src/single_player/text_ui.rs:111 | the result is a suffix of the line and does not start with white space |
| TextUi.TrimStartDropsWhitespace | src/single_player/text_ui.rs:111 | what trimming the start drops is all white space |
| TextUi.TrimEnd | src/single_player/text_ui.rs:111 | the result is a prefix of the line and does not end with white space |
| TextUi.TrimEndDropsWhitespace | src/single_player/text_ui.rs:111 | what trimming the end drops is all white space |
| TextUi.Trim | src/single_player/text_ui.rs:111 | the trimmed line neither starts nor ends with white space |
| TextUi.TrimStartAround | src/single_player/text_ui.rs:111 | leading white space before a part that does not start with it is removed exactly |
| TextUi.TrimEndAround | src/single_player/text_ui.rs:111 | trailing white space after a part that does not end with it is removed exactly |
| TextUi.TrimAround | src/single_player/text_ui.rs:111 | trimming a core wrapped in white space gives back the core |
| TextUi.Split | src/single_player/text_ui.rs:111 | splitting at commas gives one more piece than there are commas, none of them holding a comma |
| TextUi.SplitJoin | src/single_player/text_ui.rs:111 | joining the pieces with commas gives back the line |
| TextUi.SplitPrefix | src/single_player/text_ui.rs:111 | a comma-free piece followed by a comma splits off as the first piece |
| TextUi.JoinSplit | src/single_player/text_ui.rs:111 | splitting comma-free pieces joined by commas gives back the pieces |
| TextUi.ParseI32 | src/single_player/text_ui.rs:115-118 | a parsed number fits in 32 bits, is an optional sign followed by digits, and is negative only after a minus sign |
| TextUi.ToDecimal | src/single_player/text_ui.rs:115-118 | the decimal writing of n is non-empty, all digits, and has value n |
| TextUi.ParseDecimal | src/single_player/text_ui.rs:115-118 | reading back the digits of a value in range, with or without a plus sign, gives the value |
| TextUi.ParseNegativeDecimal | src/single_player/text_ui.rs:115-118 | reading back a minus sign and the digits of a value in range gives its negation |
| TextUi.LeadingSpaceIsNotNum | src/single_player/text_ui.rs:115-118 | pieces are not trimmed: a piece starting with white space is not a number |
| TextUi.ParsePair | src/single_player/text_ui.rs:111-118 | BadFormat iff the trimmed line has not exactly one comma; NotNum iff it has one and a piece is not a number; otherwise the two numbers read |
| TextUi.ParseCoordinate | src/single_player/text_ui.rs:110-128 | BadFormat and NotNum as for the pair; NegativeNum iff a number is below zero; otherwise the coordinate with the values read |
| TextUi.ParseBoardSize | src/single_player/text_ui.rs:189-207 | BadFormat and NotNum as for the pair; NegativeNum iff a number is not above zero; otherwise both sides are positive and equal the values read |
| TextUi.ParseAction | src/single_player/text_ui.rs:155-162 | Reveal iff the trimmed line is "Reveal", Flag iff it is "Flag", never Unflag; BadFormat otherwise |
| TextUi.ParseDifficulty | src/single_player/text_ui.rs:235-242 | Easy, Medium or Hard iff the trimmed line is that word; BadFormat otherwise |
| TextUi.BadFormatIffNotOneComma | src/single_player/text_ui.rs:111-113 | both pair parsers give BadFormat exactly when the trimmed line has not exactly one comma |
| TextUi.TwoPieces | src/single_player/text_ui.rs:111-118 | a trimmed line of two comma-free pieces is read piece by piece |
| TextUi.CoordinateExampleOk | src/single_player/text_ui.rs:107 | "2,3" reads as the coordinate (2, 3) |
| TextUi.CoordinateExampleNotNum | src/single_player/text_ui.rs:108 | "4,k" is NotNum |
| TextUi.CoordinateExampleBadFormat | src/single_player/text_ui.rs:109 | "1,2,3" is BadFormat |
| TextUi.NotNumBeforeNegative | src/single_player/text_ui.rs:115-123 | "-1,k" is NotNum: both numbers are read before any sign is checked |
| TextUi.ParsePairRoundTrip | src/single_player/text_ui.rs:111-118 | two numbers written out as "x,y", with any white space around the line, are read back |
| TextUi.ParseCoordinateRoundTrip | src/single_player/text_ui.rs:110-128 | a coordinate written out, with any white space around it, is read back |
| TextUi.ParseBoardSizeRoundTrip | src/single_player/text_ui.rs:189-207 | a board size with positive sides written out is read back |
| TextUi.ZeroBoardSideRefused | src/single_player/text_ui.rs:199-203 | a board size with a zero side is refused as NegativeNum |
| TextUi.KeywordsReadTrimmed | src/single_player/text_ui.rs:155-162 | lines with the same trim are read as the same action and the same difficulty |
| TextUi.KeywordAfterTrim | src/single_player/text_ui.rs:235-242 | white space around a keyword does not change how it is read |
| TextUi.TrimmedWord | src/single_player/text_ui.rs:156 | a word that neither starts nor ends with white space is its own trim |
| TextUi.UnflagIsRefused | src/single_player/text_ui.rs:159-160 | a line that trims to "Unflag" is refused with BadFormat |

Every validator is a function of its arguments, so it leaves the board and the
game unchanged by construction.

## Left out

- **Random boards.** `random_mine_coordinates` (src/core/board.rs:99-129) uses
  a random number generator, f32 density arithmetic and a debug print. It and
  `Board::new`, `Game::new` (both games) and `MultiplayerGame::new` are not
  modelled as written. The games' `New` functions take the board as a
  parameter instead, and boards are built as `new_test` builds them, over an
  arbitrary mine set.
- **Console I/O.** The following only format or read text, and are not
  modelled:
  - `Board::print`;
  - the `fmt::Display` implementations;
  - the stdin prompt loops of text_ui.rs: `get_coordinate`, `get_action`,
    `get_board_size`, `get_name`, `get_difficulty`, `start_game`,
    `print_scores` and `announce_winners`;
  - the interactive game loops `simulate_single_player`
    (src/single_player/simulation.rs) and `simulate_multiplayer`
    (src/multiplayer/simulation.rs), which read moves from stdin, print the
    board and call the modelled `update` until the status leaves Continue.

  The `trim` of `get_name` is `TextUi.Trim`.
- **`Board::iter`.** It is an iterator over the map; the model reads the
  map directly.
- **Superseded files.** The older iteration of the program does not
  type-check against itself, so no behaviour of it is stated. It comprises
  src/board.rs, src/game.rs, src/game/board.rs, src/game/player.rs,
  src/main.rs, src/parse.rs and src/text_ui.rs.
  src/core/mod.rs only re-exports.
- **Concurrency.** The atomic `fetch_add` on `NEXT_PLAYER_ID` and its memory
  ordering are not modelled as concurrency. The counter is a sequential
  field of `Players.PlayerIdCounter`.
- **Test-only constructor.** `Player::new_with_id` builds `Player(id, name, 0)`
  directly.
- **Panics.** `get_tile`, `get_player` and `reveal` (src/core/board.rs:203-204)
  panic on a missing key. The model turns each into a `requires` that the key
  is present (`Boards.Reveal` requires `c in m`, and `Boards.Update` requires
  the acted cell to be a key for Reveal), and callers use the
  board's totality (`Boards.FreshBoardSpec`,
  `Boards.UpdatePreservesInvariants`) to meet it.
- **Integer widths.** Sizes, coordinates and player ids are unbounded `nat`s,
  and points are unbounded `int`s. None of the following is modelled:
  - the u32 → i32 casts in `within_bounds`, `neighboring_coordinates` and
    `validate_coordinate` (src/core/validation.rs:46), which do not wrap for
    sizes and coordinates below 2^31;
  - i32 overflow of points;
  - u32 wrap-around of the id counter.

  The i8 hint is exact, because `Boards.HintCountsMinedNeighbors` bounds it
  by 8. Parsed numbers are bounded to the i32 range, as `parse::<i32>` does.
- **Lengths of test results.** `Games.GetWinners` returns the winners as a map
  from id to player rather than a `Vec` in hash order. The order is unspecified
  in the source and is not modelled, so the tests' `len()` is the number of
  keys.
- **Persistence and sharing mechanics.** `im::HashMap` structural sharing and
  the `Rc` count on the mine set affect only cost. The mine set is the same
  value before and after every update.
- **Whitespace.** `str::trim` is modelled with the Unicode White_Space set;
  `str::split` and `parse::<i32>` are modelled for the inputs they accept and
  refuse.

## Findings

| source | as written | input that shows it | evidently intended | confidence | as-written member | corrected member |
|---|---|---|---|---|---|---|
| src/core/validation.rs:25-31 (and src/core/board.rs:239-245) | refuses a size only when `h_size > 30 && v_size > 30` | (100, 5) is accepted, though 100 exceeds the bound of 30 | refuse when either side exceeds 30 (`\|\|`), so every accepted board fits the 30×30 bound | medium, not executed | Validation.WideBoardAccepted | Validation.IntendedCheckBoundsBothSides |
