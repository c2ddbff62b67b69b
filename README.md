# DeepSeaJewels match-3 board, modelled in Dafny

This project models the game logic of the DeepSeaJewels match-3 game:

- the board controller `GridManager`;
- the move finder `HintManager`;
- the session counters in `GameManager`;
- the tile object `Gem`.

The board is a `width × height` array of optional tiles, indexed column first, with row 0 at the bottom. A tile has:

- a type, which is an index into the six active tile types;
- a special kind: none, horizontal line or vertical line;
- the coordinate it reports.

The model covers these behaviours:

- **Swapping.** The player swaps two neighbouring tiles. The swap is accepted when it creates a match or involves a special tile; otherwise it is swapped back.
- **Cascade rounds.** Each round does the following:
  - it activates special tiles, and each activated line tile destroys its whole row or column, chaining to other special tiles;
  - it turns one tile of a group of four or more into a line tile;
  - it destroys the rest, scoring 10 per tile;
  - it lets the columns fall and refills the empty cells with new tiles.
- **Hints.** After every turn `HintManager` lists the neighbour swaps that would create a straight run of three, or that involve a special tile. When there is none, the board is reshuffled and the special tiles are kept.
- **Game over.** The game ends when the move counter reaches zero.

Modules, one file each:

| File | Module | Contents |
|---|---|---|
| `tiles.dfy` | `Tiles` | tiles, positions, the `Gem` object |
| `grids.dfy` | `Grids` | the value view of the board, `Snap`, and `At` (`GetGemAt` on values) |
| `collections.dfy` | `Collections` | list and set helpers |
| `connectivity.dfy` | `Connectivity` | flood-fill groups; `MatchCells`, the cells `FindAllMatches` reports |
| `runs.dfy` | `Runs` | the straight-run counts of the hint check and of the spawn rule |
| `moves.dfy` | `Moves` | type exchange, tile swap, the pair test and the acceptance rule |
| `gravity.dfy` | `Gravity` | clearing, column compaction and refill |
| `activation.dfy` | `Activation` | line activation and its closure |
| `bags.dfy` | `Bags` | the special-tile data saved by a shuffle, and the cell list |
| `cascade.dfy` | `Cascade` | the choice of the tile that becomes a line tile |
| `session.dfy` | `Session` | `GameManager` |
| `hints.dfy` | `Hints` | `HintManager` |
| `board.dfy` | `Board` | `GridManager` |

`GridManager` is a class that owns the board array and updates it in place. Its specifications read the array through `Snap(grid)`, a value of type `Grid`.

The board's cells hold `Tile` values rather than `Gem` objects. A board tile is moved by `Tile.MovedTo`, which mirrors `Gem.MoveTo`: only the coordinate changes. The moving flag, which only the animation reads, is kept on the standalone `Gem` class alone.

Randomness (`Random.Range`) becomes a nondeterministic choice (`:|`). So every property proved holds for every random outcome.

Coroutines run to completion. Their frame-by-frame waits carry no logic state.

Two loops in the source are unbounded, so each gets a fuel parameter:

- the cascade loop of `ProcessMatches` gets `maxRounds`;
- the board regeneration loops get `maxAttempts`.

When the fuel runs out, the method stops early and `isProcessing` stays `true`. Every contract that states the outcome of a finished turn is therefore guarded by `!isProcessing`, or by `settled` or `generated`.

`GameManager.NoMoreMoves` calls `GridManager.ShuffleBoard`. In the model the call is returned as a `shuffleRequested` flag, which the board acts on.

## Model

| member | source | states |
|---|---|---|
| Tiles.Gem.constructor | DeepSeaJewels_Match3/Assets/Scripts/Gem.cs:16-24 | a new gem is ordinary, at rest, type 0 at (0, 0) |
| Tiles.Gem.Initialize | DeepSeaJewels_Match3/Assets/Scripts/Gem.cs:29-38 | the gem's record becomes (type, its own special kind, x, y) and it is not moving |
| Tiles.Gem.MoveTo | DeepSeaJewels_Match3/Assets/Scripts/Gem.cs:55-61 | only the coordinate changes (type and special kind kept) and the gem starts moving |
| Tiles.Gem.IsMoving | DeepSeaJewels_Match3/Assets/Scripts/Gem.cs:62-65 | returns the moving flag |
| Board.GridManager.GetGemAt | DeepSeaJewels_Match3/Assets/Scripts/GridManager.cs:786-793 | the tile at (x, y) of the current board, and a tile is returned only for in-range coordinates |
| Board.GridManager.IsProcessing | DeepSeaJewels_Match3/Assets/Scripts/GridManager.cs:798-801 | returns the busy flag |
| Board.GridManager.constructor | DeepSeaJewels_Match3/Assets/Scripts/GridManager.cs:67-85 | the setup part of Start: a width × height board with every cell empty, not busy, wired to its GameManager and HintManager (Start then runs InitializeBoard) |
| Board.GridManager.GetRandomGemType | DeepSeaJewels_Match3/Assets/Scripts/GridManager.cs:172-183 | the type is an active type and does not repeat the two tiles to the left or the two below |
| Runs.SomeTypeFits | DeepSeaJewels_Match3/Assets/Scripts/GridManager.cs:172-183 | with three or more types some type passes the rejection test, so the retry loop can stop |
| Board.GridManager.CreateGem | DeepSeaJewels_Match3/Assets/Scripts/GridManager.cs:144-167 | (x, y) gets a new ordinary tile of an active type reporting (x, y) that completes no run to its left or below; all other cells unchanged |
| Board.GridManager.ClearBoard | DeepSeaJewels_Match3/Assets/Scripts/GridManager.cs:190-203 | every cell becomes empty |
| Board.GridManager.FillBoard | DeepSeaJewels_Match3/Assets/Scripts/GridManager.cs:114-120 | every cell holds a fresh ordinary tile of an active type that completes no run with the two tiles to its left or below it |
| Board.FreshIsFull | DeepSeaJewels_Match3/Assets/Scripts/GridManager.cs:114-120 | a freshly filled board is full and holds only ordinary tiles |
| Board.GridManager.RegenerateBoard | DeepSeaJewels_Match3/Assets/Scripts/GridManager.cs:122-132 | when it succeeds, every cell holds a fresh tile and the board has no match |
| Board.GridManager.InitializeBoard | DeepSeaJewels_Match3/Assets/Scripts/GridManager.cs:111-139 | once generated and not busy, the board is full, has no match, and the hint list holds exactly the moves the pair test records on it; if generation fails the busy flag is untouched |
| Board.GridManager.FindConnectedGroup | DeepSeaJewels_Match3/Assets/Scripts/GridManager.cs:313-365 | the group lists, each once and starting with the start cell, exactly the ordinary tiles of the start type connected to the start cell; a special or empty start gives no group; the visited marks grow by exactly the group |
| Connectivity.FloodFillComplete | DeepSeaJewels_Match3/Assets/Scripts/GridManager.cs:331-361 | a set containing the start whose every neighbour of the start type has been visited is the start's whole group |
| Connectivity.ComponentShared | DeepSeaJewels_Match3/Assets/Scripts/GridManager.cs:313-365 | every member of a group has the same group, so the order of the scan does not matter |
| Board.GridManager.FindAllMatches | DeepSeaJewels_Match3/Assets/Scripts/GridManager.cs:287-308 | lists, each once, exactly the cells lying in a group of three or more ordinary same-type tiles |
| Connectivity.MatchCellsOrdinary | DeepSeaJewels_Match3/Assets/Scripts/GridManager.cs:287-308 | only ordinary tiles are ever reported as matched |
| Connectivity.SameKindsComponents | DeepSeaJewels_Match3/Assets/Scripts/GridManager.cs:313-365 | groups and matches depend only on the tiles' types and kinds, not on the coordinates they report |
| Board.GridManager.ActivateSpecialGem | DeepSeaJewels_Match3/Assets/Scripts/GridManager.cs:513-548 | a horizontal tile yields every occupied cell of its row, a vertical one every occupied cell of its column, each once; an ordinary or missing tile yields nothing |
| Activation.LineOfMember | DeepSeaJewels_Match3/Assets/Scripts/GridManager.cs:513-548 | a cell is in a line tile's reach exactly when it is occupied and on its row (or column) |
| Board.GridManager.ResolveActivations | DeepSeaJewels_Match3/Assets/Scripts/GridManager.cs:403-436 | the destroy set is the smallest set holding the round's cells in which every special tile's whole line is included |
| Activation.ActivationUnique | DeepSeaJewels_Match3/Assets/Scripts/GridManager.cs:403-436 | this destroy set is unique, so the queue order cannot change it |
| Activation.OrdinaryStartIsClosed | DeepSeaJewels_Match3/Assets/Scripts/GridManager.cs:403-436 | a round without special tiles destroys exactly its own cells |
| Board.GridManager.CollectGroups | DeepSeaJewels_Match3/Assets/Scripts/GridManager.cs:440-452 | each group collected is a whole flood-fill group; together they cover exactly the groups of the round's unvisited ordinary cells; the first group of four or more starts at the first large cell of the round |
| Cascade.FirstLargeNone | DeepSeaJewels_Match3/Assets/Scripts/GridManager.cs:466-479 | no tile is chosen exactly when no cell of the round lies in a group of four or more |
| Cascade.FirstLargeFirst | DeepSeaJewels_Match3/Assets/Scripts/GridManager.cs:466-479 | the chosen cell is the earliest cell of the round in a group of four or more |
| Cascade.TransformChoiceIsLarge | DeepSeaJewels_Match3/Assets/Scripts/GridManager.cs:454-479 | the tile that becomes a line tile, swiped or not, is ordinary and in a group of four or more; without one, no cell of the round qualifies |
| Board.GridManager.ChooseGemToTransform | DeepSeaJewels_Match3/Assets/Scripts/GridManager.cs:454-479 | in the first round the swiped tile wins if it is ordinary and in a round group of four or more; otherwise the first group of four or more gives its first tile |
| Board.GridManager.TransformGem | DeepSeaJewels_Match3/Assets/Scripts/GridManager.cs:483-500 | the cell gets a horizontal or vertical line tile of the old tile's type; nothing else changes |
| Connectivity.PlaceSpecialShrinks | DeepSeaJewels_Match3/Assets/Scripts/GridManager.cs:483-500 | putting a special tile on a cell never creates a group or a match |
| Board.GridManager.PlanRound | DeepSeaJewels_Match3/Assets/Scripts/GridManager.cs:385-500 | one pass: the activation closure is computed, the chosen tile is taken out of the destroy list and replaced by its line tile, and the list holds every other activated cell once |
| Board.GridManager.RemoveMatched | DeepSeaJewels_Match3/Assets/Scripts/GridManager.cs:555-569 | the listed cells are emptied and the score to add is 10 per tile actually removed |
| Gravity.ClearedKeepsInvariants | DeepSeaJewels_Match3/Assets/Scripts/GridManager.cs:555-569 | removing tiles keeps every tile's coordinate and type valid |
| Board.GridManager.CompactColumn | DeepSeaJewels_Match3/Assets/Scripts/GridManager.cs:571-590 | the column's tiles fall to the bottom in their order, reporting their new rows; other columns unchanged |
| Board.GridManager.DropGem | DeepSeaJewels_Match3/Assets/Scripts/GridManager.cs:578-586 | the tile moves to the lower empty cell with its new coordinate; the old cell becomes empty |
| Board.GridManager.Compact | DeepSeaJewels_Match3/Assets/Scripts/GridManager.cs:571-590 | every column is compacted |
| Gravity.PackedKeepsOrder | DeepSeaJewels_Match3/Assets/Scripts/GridManager.cs:571-590 | the survivors of a column keep their bottom-to-top order and the j-th survivor lands in row j |
| Gravity.SurvivorsCount | DeepSeaJewels_Match3/Assets/Scripts/GridManager.cs:571-590 | falling loses and adds no tile |
| Gravity.PackedSettled | DeepSeaJewels_Match3/Assets/Scripts/GridManager.cs:571-590 | after falling no tile floats above a hole and every tile reports its cell |
| Gravity.PackedTwice | DeepSeaJewels_Match3/Assets/Scripts/GridManager.cs:571-590 | falling twice is the same as falling once |
| Board.GridManager.Refill | DeepSeaJewels_Match3/Assets/Scripts/GridManager.cs:592-625 | every empty cell gets a fresh ordinary tile of an active type that completes no run to its left or below; occupied cells are untouched |
| Gravity.RefillIsFull | DeepSeaJewels_Match3/Assets/Scripts/GridManager.cs:592-625 | after a refill the board is full, and every tile has a valid coordinate and type |
| Board.GridManager.ClearAndRefill | DeepSeaJewels_Match3/Assets/Scripts/GridManager.cs:553-628 | the new board is the refill of the compaction of the old board with the cells cleared; the score grows by 10 per removed tile unless the game is over; moves and the game-over flag are untouched |
| Board.GridManager.CascadeRound | DeepSeaJewels_Match3/Assets/Scripts/GridManager.cs:371-508 | one round of ProcessMatches: plan, clear, fall and refill as above; the board ends full and the next round's cells are exactly its matches |
| Board.GridManager.ProcessMatches | DeepSeaJewels_Match3/Assets/Scripts/GridManager.cs:371-508 | with no initial cells nothing changes; once the cascade settles the board is full and match-free; the score never decreases and stays put when the game is over; moves unchanged |
| Board.GridManager.SwapTiles | DeepSeaJewels_Match3/Assets/Scripts/GridManager.cs:227-231 | the two tiles exchange cells and report their new coordinates |
| Moves.SwapCellsTwice | DeepSeaJewels_Match3/Assets/Scripts/GridManager.cs:259-269 | swapping back restores the board exactly |
| Board.GridManager.SwipedCells | DeepSeaJewels_Match3/Assets/Scripts/GridManager.cs:236-252 | the round's starting cells: every matched cell, plus each swiped tile that is special, each listed once |
| Board.GridManager.ResolveSwap | DeepSeaJewels_Match3/Assets/Scripts/GridManager.cs:218-269 | accepted exactly when the swap makes a match or moves a special tile; a rejected swap leaves board, score and moves as they were; an accepted one spends a move, never lowers the score, and leaves a full match-free board once settled |
| Board.GridManager.SwapGemsCoroutine | DeepSeaJewels_Match3/Assets/Scripts/GridManager.cs:218-282 | besides ResolveSwap's guarantees: at the end of a finished turn the game is over exactly when it already was or no moves remain, and if not over the hint list holds exactly the recordable moves of the new board |
| Board.GridManager.SwapGems | DeepSeaJewels_Match3/Assets/Scripts/GridManager.cs:205-213 | ignored while busy or after game over (state unchanged); otherwise the coroutine's guarantees, with moves spent only for accepted swaps |
| Board.GridManager.PreserveColumn | DeepSeaJewels_Match3/Assets/Scripts/GridManager.cs:683-694 | the saved data of the special tiles of one column, bottom to top |
| Board.GridManager.PreserveSpecials | DeepSeaJewels_Match3/Assets/Scripts/GridManager.cs:683-694 | the saved (type, kind) of every special tile on the board, in column-major order |
| Bags.SpecialsAtPermutation | DeepSeaJewels_Match3/Assets/Scripts/GridManager.cs:683-694 | reading the same cells in any order saves the same multiset of special tiles |
| Board.GridManager.BuildPositions | DeepSeaJewels_Match3/Assets/Scripts/GridManager.cs:724-731 | the list of every cell, column by column |
| Bags.AllPositionsSpec | DeepSeaJewels_Match3/Assets/Scripts/GridManager.cs:724-731 | that list has width × height entries, no repeats, and holds exactly the board's cells |
| Board.GridManager.ShufflePositions | DeepSeaJewels_Match3/Assets/Scripts/GridManager.cs:734-740 | the Fisher-Yates pass returns a permutation of the list |
| Board.ShuffledCells | DeepSeaJewels_Match3/Assets/Scripts/GridManager.cs:734-740 | a permutation of the cell list still holds every cell exactly once |
| Board.GridManager.PlaceSpecials | DeepSeaJewels_Match3/Assets/Scripts/GridManager.cs:743-765 | saved tile i is placed, with its type and line kind, at the i-th shuffled cell, and every other cell keeps its tile; the board stays full and match-free and its special tiles are exactly the saved ones |
| Board.GridManager.RestoreSpecials | DeepSeaJewels_Match3/Assets/Scripts/GridManager.cs:721-765 | with nothing saved the board is unchanged; otherwise some permutation of the cell list receives the saved tiles in order at its first cells, and every other cell keeps its tile; the board stays full and match-free with exactly the saved special tiles |
| Board.GridManager.ShuffleBoardCoroutine | DeepSeaJewels_Match3/Assets/Scripts/GridManager.cs:672-780 | once finished, the board is full, has no match, keeps the same special tiles by type and kind, and the hint list holds exactly its recordable moves |
| Board.GridManager.ShuffleBoard | DeepSeaJewels_Match3/Assets/Scripts/GridManager.cs:663-667 | while busy nothing changes; otherwise the coroutine's guarantees |
| Runs.LinearMatchIsLineOfThree | DeepSeaJewels_Match3/Assets/Scripts/HintManager.cs:127-183 | the hint's straight-run test passes exactly when three matching ordinary tiles, this cell's among them, sit in a row or in a column |
| Runs.HorizontalCountWindow | DeepSeaJewels_Match3/Assets/Scripts/HintManager.cs:136-157 | the horizontal count reaches 3 exactly when one of the three row windows around the cell is all matching |
| Runs.VerticalCountWindow | DeepSeaJewels_Match3/Assets/Scripts/HintManager.cs:160-180 | the same for the vertical count and the three column windows |
| Hints.HintManager.CountHorizontal | DeepSeaJewels_Match3/Assets/Scripts/HintManager.cs:136-157 | the cell plus the unbroken matching run to its left and to its right |
| Hints.HintManager.CountVertical | DeepSeaJewels_Match3/Assets/Scripts/HintManager.cs:160-180 | the cell plus the unbroken matching run below and above it |
| Hints.HintManager.CheckForLinearMatch | DeepSeaJewels_Match3/Assets/Scripts/HintManager.cs:127-183 | true exactly when a tile is given and a straight run of three or more of its type passes through its cell |
| Hints.HintManager.SwapGemData | DeepSeaJewels_Match3/Assets/Scripts/HintManager.cs:116-121 | only the two tiles' types are exchanged |
| Moves.SwapTypesTwice | DeepSeaJewels_Match3/Assets/Scripts/HintManager.cs:98-111 | exchanging types twice restores the board |
| Hints.HintManager.TestSwapForMatch | DeepSeaJewels_Match3/Assets/Scripts/HintManager.cs:98-111 | the board is left as it was, and the answer is whether the exchange makes a straight run at either cell |
| Moves.WouldMatchSymmetric | DeepSeaJewels_Match3/Assets/Scripts/HintManager.cs:98-111 | the test does not depend on the order of the two cells |
| Moves.PairRules | DeepSeaJewels_Match3/Assets/Scripts/HintManager.cs:49-76 | a pair involving a special tile is always recorded; two ordinary tiles of the same type never are |
| Hints.HintManager.TestPairFrom | DeepSeaJewels_Match3/Assets/Scripts/HintManager.cs:49-76 | the pair is recorded exactly when the pair test accepts it; the board is left as it was |
| Hints.MovesFromSpec | DeepSeaJewels_Match3/Assets/Scripts/HintManager.cs:41-78 | a cell contributes exactly the recorded moves starting at it, each once |
| Hints.HintManager.RecordMovesFrom | DeepSeaJewels_Match3/Assets/Scripts/HintManager.cs:45-77 | appends this cell's right-hand and upper recorded moves; the board is left as it was |
| Hints.HintManager.FindAllValidMoves | DeepSeaJewels_Match3/Assets/Scripts/HintManager.cs:27-93 | the list holds, once each, exactly the recordable moves; the board is left as it was; the hint is cleared; a shuffle is requested exactly when the list is empty and the game is not over |
| Moves.RecordedMoveIsAccepted | DeepSeaJewels_Match3/Assets/Scripts/HintManager.cs:41-78 | every hinted move is a swap the board accepts |
| Moves.BentSwapIsAccepted | DeepSeaJewels_Match3/Assets/Scripts/GridManager.cs:254-258 | on a sample board, a swap that makes an L-shaped group of three is accepted |
| Moves.BentSwapIsNotHinted | DeepSeaJewels_Match3/Assets/Scripts/HintManager.cs:127-183 | the same swap is not hinted, since the hint test looks only for straight runs |
| Hints.HintManager.RequestHintFromButton | DeepSeaJewels_Match3/Assets/Scripts/HintManager.cs:189-205 | the hint shown is one of the recorded moves, or none when there are no moves; the list is kept |
| Hints.HintManager.StopHintVisual | DeepSeaJewels_Match3/Assets/Scripts/HintManager.cs:251-273 | the current hint is dropped; the move list is kept |
| Hints.HintManager.constructor | DeepSeaJewels_Match3/Assets/Scripts/HintManager.cs:18-21 | no moves and no hint |
| Session.GameManager.constructor | DeepSeaJewels_Match3/Assets/Scripts/GameManager.cs:33-47 | the stored high score is loaded and a fresh game starts |
| Session.GameManager.InitializeGame | DeepSeaJewels_Match3/Assets/Scripts/GameManager.cs:52-68 | score 0, the full move allowance, not over; high score kept |
| Session.GameManager.AddScore | DeepSeaJewels_Match3/Assets/Scripts/GameManager.cs:73-82 | the score grows by the amount unless the game is over; nothing else changes |
| Session.GameManager.DecreaseMoves | DeepSeaJewels_Match3/Assets/Scripts/GameManager.cs:87-101 | one move is spent, never going below zero; nothing happens once the game is over |
| Session.GameManager.GameOver | DeepSeaJewels_Match3/Assets/Scripts/GameManager.cs:121-155 | the game is over and the high score is the larger of the old high score and the score; a second call changes nothing |
| Session.GameOverTwice | DeepSeaJewels_Match3/Assets/Scripts/GameManager.cs:121-155 | ending the game twice gives the same counters as ending it once |
| Session.GameManager.CheckForGameOver | DeepSeaJewels_Match3/Assets/Scripts/GameManager.cs:160-166 | the game becomes over exactly when no moves remain, with the high score updated then |
| Session.GameManager.NoMoreMoves | DeepSeaJewels_Match3/Assets/Scripts/GameManager.cs:171-178 | a shuffle is requested exactly when the game is not over |
| Session.GameManager.IsGameOver | DeepSeaJewels_Match3/Assets/Scripts/GameManager.cs:183-186 | returns the game-over flag |

## Left out

- Unity's scene and prefab machinery is not modelled: instantiation, `Destroy`, world positions, `transform`, tags, the `SerializeField` inspector settings, and the null-prefab guard branches.
- `Gem.Update` is left out. So are the per-frame animation, `WaitForGemsToSettle` and the coroutine `yield` timing. None of these changes logic state; coroutines are modelled as running to completion.
- `SelectActiveGems` is not modelled. The model fixes the active tile list at six types (`ActiveTypes`), and a tile's type is an index into that list.
- Random numbers (`Random.Range`) are a nondeterministic choice. Every property holds for every choice.
- `InputManager.cs` is not part of this model. Its guarantee that the two swiped tiles are neighbours is a precondition of `SwapGems`.
- Hint visuals are left out: `ShowHint`, `ShowHintCoroutine` and the tile scaling.
- Score and move labels, the game-over panel, `PlayerPrefs` writes, `RestartGame`, `OnHintButtonPressed` and `Debug.Log` are left out.
- Null checks on the collaborating managers are left out. The model always wires them.
- Board.GridManager.ProcessMatches: the cascade is bounded by a `maxRounds` fuel. When it runs out the method returns early; `isProcessing` stays true and the turn's end-state contracts do not apply.
- Board.GridManager.InitializeBoard: the regeneration loop, in the initial fill and in a shuffle, is bounded by `maxAttempts` in the same way.
- Session.GameManager.AddScore: the score is an unbounded integer. 32-bit overflow of `currentScore` is not modelled; it would take over 200 million removed tiles.
- Hints.HintManager.FindAllValidMoves: the list order and `HashSet`/`ToList` orders are not stated. Only membership and the absence of repeats are proved, and the same holds for `FindAllMatches` and the activation closure.
- Board.GridManager.Refill: the start height from which a new tile falls is visual and is not modelled.
- Board.GridManager.SwapGems: for a rejected swap the contract does not say the board is unchanged. The hint pass that follows may shuffle the board when no move is left; `ResolveSwap` does state it.
- Board.GridManager.SwapGemsCoroutine: the contract does not say that the second round onward uses the matches of the refilled board. `CascadeRound` states it, and `ProcessMatches` relies on it.
