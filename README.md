# Noughts and crosses: rules engine and automated opponent

A Dafny model of the game logic of a 3x3 noughts-and-crosses game written in
C# for Unity. It covers two parts:

- **The rules engine** (`Assets/Scripts/Board.cs`), in module `Board`.
  `Process` classifies a nine-cell board from one player's perspective as
  `None` (still in play), `Tie`, `Win` or `Lose`. It checks rows, then
  columns, then the two diagonals, and only then whether all nine cells are
  occupied. The `Board` class owns the live cell array. `PlaceMarker` writes
  one cell of it and `Clear` empties it.
- **The automated opponent** (`Assets/Scripts/Player.cs`), in module
  `Player`. `Minimax` is an exhaustive search with depth-adjusted scores. It
  works in place on the live cell array: it writes a marker into each empty
  cell, recurses, and clears the cell again. `SelectMove` plays the centre
  when it is free. Otherwise it scores every empty cell the same way, sorts
  the candidates by descending score, and picks the one at position
  `clamp(rank, 0, n - 1)`. The ranks are Easy 3, Average 2, Hard 1 and
  Impossible 0. `AutoMove` then places the chosen move on the board.

Cells are indexed 0 to 8 in row-major order. `Process` is a function of a
board snapshot (`seq<Marker>`), so it cannot modify the array it reads. The
search and the move selection are methods over the live `array<Marker>`.
Each is proved against a specification function of the array's contents:
`MinimaxValue` for the search and `ChooseMove` for the selection. Their
ensures clauses also state that the array is restored.

Decisions taken where the source leaves room:

- **Tie order among equal scores.** The candidates sit in a `Dictionary`, and
  LINQ's `orderby … descending` is a stable sort. Ties in score are modelled
  as ascending cell order, the order in which the loop inserts them. This
  assumes the dictionary enumerates in insertion order. That holds for
  dictionaries that are only ever added to, but the model does not prove it.
  `SortIsStable` shows that the modelled sort keeps that order.
- **Manager state as parameters.** `PlaceMarker` reads two pieces of game
  manager state: whether the game is over, and the marker of the player to
  move. Both become parameters. A space's `Occupied` flag is modelled as
  "the cell is not `None`".
- **Playing markers.** Players always hold `Cross` or `Nought`
  (Manager.cs:189-191). The search therefore requires that its own marker is
  one of the two. `Process` still accepts any perspective, exactly as the
  code does: with perspective `None`, a complete line reads as `Lose`.
- **Clamp.** `Clamp` follows Unity's integer `Mathf.Clamp`: it tests below
  the minimum first, then above the maximum.

## Model

| member | source | states |
|---|---|---|
| `Board.OccupiedCount` | Assets/Scripts/Board.cs:93 | Models the LINQ `Count` of occupied cells. The count never exceeds the number of cells. |
| `Board.WinnerIsLineOwner` | Assets/Scripts/Board.cs:68-90 | About `Winner`, which calls `RowWinner`, `ColumnWinner` and `DiagonalWinner` (the three scans of `Process`). The scan reports a marker exactly when some line of the board is held entirely by one player. What it reports is the owner of such a line. |
| `Board.CountNineIffFull` | Assets/Scripts/Board.cs:93-95 | The occupied count equals the number of cells if and only if every cell holds `Cross` or `Nought`. |
| `Board.PlaceOccupiesOneMore` | Assets/Scripts/Board.cs:137 | Writing a player's marker into an empty cell raises the occupied count by exactly one. |
| `Board.NotFullHasEmpty` | Assets/Scripts/Board.cs:93-95 | Fewer than nine occupied cells implies some cell is empty. |
| `Board.ProcessClassifies` | Assets/Scripts/Board.cs:64-96 | About `Process`. Three iff statements. Win or Lose holds exactly when some line is complete. Tie holds exactly when the board is full with no complete line. None holds exactly when the board is not full and has no complete line. |
| `Board.LineDecides` | Assets/Scripts/Board.cs:69-90 | About `Process`: a complete line of `m`, with no complete line of the other player, gives Win when `m` is the perspective and Lose otherwise, whatever the other cells hold. |
| `Board.LineBeatsFullBoard` | Assets/Scripts/Board.cs:69-95 | A full board with a complete line yields Win or Lose, never Tie. |
| `Board.FullBoardTies` | Assets/Scripts/Board.cs:93-95 | A full board without a complete line yields Tie. |
| `Board.OpenBoardContinues` | Assets/Scripts/Board.cs:93-95 | A board with an empty cell and no complete line yields None. This includes the empty board. |
| `Board.PerspectiveSwap` | Assets/Scripts/Board.cs:64-96 | About `Process`: from Cross's perspective the result is Nought's with Win and Lose exchanged. Tie and None are unchanged. |
| `Board.Board.constructor` | Assets/Scripts/Board.cs:54 | A new board has nine empty cells. |
| `Board.Board.PlaceMarker` | Assets/Scripts/Board.cs:122-147 | A placement happens exactly when the game is not over, the cell is empty and the current player has a marker. Then exactly that cell gains the current player's marker. Otherwise nothing changes. |
| `Board.Board.Clear` | Assets/Scripts/Board.cs:152-167 | All nine cells become empty. |
| `Player.Rank` | Assets/Scripts/Player.cs:6 | Every rank is at most 3, and only Impossible has rank 0. |
| `Player.RankOrder` | Assets/Scripts/Player.cs:6 | The ranks order the levels from strongest to weakest: Impossible < Hard < Average < Easy. |
| `Player.Clamp` | Assets/Scripts/Player.cs:165 | Models Unity's `Mathf.Clamp`. A value below min gives min, a value in range gives itself, and a value above max gives max. With min at most max the result lies in [min, max]. With min above max, any value at least min gives max. That is the path to `ElementAt(-1)` when there are no candidates. |
| `Player.Position` | Assets/Scripts/Player.cs:165 | The position picked among `n > 0` candidates is a valid index. It is the rank when the rank is below `n`, and the last position otherwise. |
| `Player.BestIsExtreme` | Assets/Scripts/Player.cs:83-102 | About `Best`, the loop's fold over cells, and `Child`, the score after the mover's placement (via `Mover` and `OtherPlayer`, Player.cs:66,92). The running best ends at least as large as every child score at a max node, and at least as small at a min node. It is either the start value or the score of some empty cell's child. |
| `Player.MinimaxBounds` | Assets/Scripts/Player.cs:68-102 | About `MinimaxValue`: when play ends by ply 10, the score lies in [depth - 10, 10 - depth]. So the ±1000 sentinel is never returned and every score lies in [-10, 10]. A position still in play scores within [depth - 9, 9 - depth]. |
| `Player.ProcessNoneHasChild` | Assets/Scripts/Player.cs:83-100 | A position that Process calls None always has an empty cell to search. |
| `Player.MinimaxRecurrence` | Assets/Scripts/Player.cs:63-103 | About `MinimaxValue`, `Best` and `Child`: Win scores 10 - depth, Lose scores depth - 10 and Tie scores 0. At any other position, some empty cell's child attains the score. At a max node, where the own marker is placed, no child scores more. At a min node, where the opponent's marker is placed, no child scores less. |
| `Player.Minimax` | Assets/Scripts/Player.cs:63-103 | The search terminates, because each recursive call has one more occupied cell. It returns the specified minimax score and leaves the array exactly as it found it. |
| `Player.CandidatesAreEmptyCells` | Assets/Scripts/Player.cs:137-159 | About `CandidatesUpTo`, the loop's list after each cell. The scoring loop collects exactly the empty cells, in ascending order. Each one carries the score of playing the own marker there with the opponent to move at depth 0. |
| `Player.Insert` | Assets/Scripts/Player.cs:162 | Inserting into a descending list keeps it descending, and it adds exactly the inserted candidate. |
| `Player.SortByScore` | Assets/Scripts/Player.cs:162 | The result is in descending score order and is a permutation of the input. |
| `Player.InsertKeepsRanked` | Assets/Scripts/Player.cs:162 | Inserting a candidate whose cell precedes every ranked cell keeps equal scores in ascending cell order. |
| `Player.SortIsStable` | Assets/Scripts/Player.cs:162 | When the input cells ascend, the sorted list breaks score ties by ascending cell. This is the stable order of LINQ's `orderby`. |
| `Player.RankingIsScored` | Assets/Scripts/Player.cs:137-162 | About `Ranking`, the sorted candidate list: every sorted candidate is an empty cell carrying that cell's score. |
| `Player.RankingCovers` | Assets/Scripts/Player.cs:137-162 | Every empty cell appears among the sorted candidates. |
| `Player.RankingIsRanked` | Assets/Scripts/Player.cs:137-162 | The sorted candidates are in descending score order, with ties in ascending cell order. |
| `Player.RankingNonEmpty` | Assets/Scripts/Player.cs:137-162 | A board with an empty cell yields at least one candidate. |
| `Player.RankingIsEmptyCells` | Assets/Scripts/Player.cs:137-162 | The four ranking facts above, together. |
| `Player.ChooseMove` | Assets/Scripts/Player.cs:120-166 | The chosen move is an empty cell in 0..8. When the centre is empty, it is 4. |
| `Player.ImpossiblePlaysBest` | Assets/Scripts/Player.cs:162-166 | With the centre taken, Impossible plays a move that no other empty cell outscores. |
| `Player.HarderPlaysNoWorse` | Assets/Scripts/Player.cs:162-166 | A difficulty of lower rank never plays a move with a lower score. |
| `Player.ImpossibleTakesImmediateWin` | Assets/Scripts/Player.cs:137-166 | With the centre taken, if some empty cell completes a line for the player, Impossible plays a move that wins at once. |
| `Player.CompletesTopRow` | Assets/Scripts/Player.cs:120-166 | On `[X, X, _, _, O, _, _, _, _]`, Impossible with crosses plays cell 2. |
| `Player.SelectMove` | Assets/Scripts/Player.cs:119-166 | The method returns the specified choice. Its tentative placements on the live array are all undone, so the array is unchanged. |
| `Player.AutoMove` | Assets/Scripts/Player.cs:110-167 | When the game is over, nothing changes. Otherwise the board afterwards is the board before it, with the player's marker added at the chosen move. |

## Left out

- `Board.LineDecides` requires that the other player has no complete line. The code returns the owner of the first line it finds. A board with lines of both players is the one case this leaves out, and it cannot arise in play, because the game ends when the first line completes. `ProcessClassifies` covers such boards too.
- `Player.MinimaxBounds` requires `depth + empty cells <= 10`. Every call the game makes meets this: the top-level search starts at depth 0 with at most 8 empty cells.
- `Player.MinimaxRecurrence` requires `depth + empty cells <= 10`, for the same reason and with the same coverage of every call the game makes.
- Board lengths other than nine are not modelled. The cell array is always allocated with nine entries (Board.cs:54).
- A `SelectMove` call on a full board with the centre taken is excluded by a precondition. The C# code would throw there (`ElementAt(-1)`), and the game never calls it then, because a full board has already ended the game.
- `Board.Board.Clear` models only the reset of the cell array (Board.cs:159). It leaves out clearing each `BoardSpace` (Board.cs:155-156), the clear sound (Board.cs:162-163) and the timed `Invoke("ResetGameOver", 2.0f)` (Board.cs:166, 172-175), which resets the game-over flag after the animation delay. These are presentation and a timer.
- `Player.AutoMove` passes its own marker as the `current` marker of `PlaceMarker`. The C# reads `_manager.CurrentPlayer.Marker` instead (Board.cs:133). The two agree because the manager only calls `AutoMove` on the current player (Manager.cs:224-225).
- `Board.Evaluate` (Board.cs:180-212) is not modelled: it builds the game-over message and updates the score. After a placement, `PlaceMarker` calls `Evaluate` and then swaps players through the manager. Those two calls are left out too.
- The `Score` property (Player.cs:42-52) is not modelled: it only forwards to the game manager.
- The `Invoke("AutoMove", 0.05f)` retry while the game is over (Player.cs:113-117) is a timer. The model makes `AutoMove` do nothing in that case.
- `Manager.cs` is not part of this model: UI text and colours, timers, audio, scene loading, and the random choice of starting player and marker. `BoardSpace.cs` is not part of it either: sprites, animation and sound. The same goes for `MenuButton.cs` (settings persistence and the difficulty button) and `AdManager.cs` (an advertising SDK call).
- Optimal play beyond the search is not proved. The model shows that Impossible maximises the minimax score, and that it takes an immediate win when one exists. It does not prove that the opponent can never force a win.
- No concrete board is proved on which Easy plays a weaker move. Exhibiting one would need a full concrete evaluation of the search.
