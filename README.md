# Connect Four core in Dafny

A model of the game core of a Connect Four simulator (6 rows, 7 columns,
`'.'` for an empty cell, `'X'` and `'O'` for the two players; four in a
row counts horizontally and vertically only). It covers three classes of
the repository:

- `Board` (`board.dfy`, module `Boards`): a 6 x 7 `array2<char>` updated in
  place. A ghost field `Cells` holds the same contents as a value, and
  `Valid()` ties the two together and carries the gravity invariant (no
  empty cell below a disc). Each method is proved against a pure function
  of `rules.dfy` (module `Rules`): dropping a disc, taking the top disc off,
  the full-board test and the horizontal and vertical line scans.
- `GreedyPlayer` (`players.dfy`, module `Players`): the move choice. It
  takes the random override when it fires, otherwise the lowest column
  that blocks the opponent's win, otherwise the lowest column that wins
  for itself, otherwise the first random draw that accepts a disc. The
  choice is specified by the pure `Policy`. The class runs the same
  speculative drop, check and undo sequence on the shared board, and is
  proved to leave the board unchanged and to return `Policy`'s column.
- `Game` (`game.dfy`, module `Games`): the match loop. `Play` states a
  whole match as a recursive function of the starting grid and the
  random draws of every turn. `Game.Start` runs the loop with two players
  on one board and is proved to end on `Play`'s final grid, with exactly
  the counters `Play`'s outcome calls for.

Randomness is an explicit input. A turn's `override` stands for the Java
`nextDouble() < 0.1` test. Its `samples` are the successive
`nextInt(7)` results the resampling loop would draw. A match takes one
override and one stream of samples per turn, as functions of the turn
number.

The statistics class also offers a central-column counter. No code path
of the core increments it, so the model has none.

## Model

| member | source | states |
|---|---|---|
| Rules.EmptyGrid | src/Board.java:13-18 | the fresh grid is 6 x 7 and every cell is `'.'` |
| Rules.EmptyGridSettled | src/Board.java:13-18 | the fresh grid satisfies the gravity invariant and is not full |
| Rules.EmptyGridHasNoWin | src/Board.java:74-76 | on a fresh grid no real symbol has four in a row |
| Rules.EmptyGridWinsForEmpty | src/Board.java:84-96 | the line scan reports four in a row for `'.'` itself on a fresh grid, which is why player symbols must differ from `'.'` |
| Rules.LowestEmpty | src/Board.java:31-36 | the bottom-up scan returns the lowest empty row at or above its start (or -1), and every row below it is occupied |
| Rules.HighestDisc | src/Board.java:46-51 | the top-down scan returns the first occupied row (or 6), and every row above it is empty |
| Rules.GuardedDropLands | src/Board.java:28-37 | once the guard passes, the scan always finds an empty row, so the trailing `return false` is unreachable |
| Rules.DropLandsLowest | src/Board.java:31-35 | a drop sets exactly one cell, the lowest empty cell of the column, to the symbol; every other cell is unchanged |
| Rules.DropSettled | src/Board.java:27-38 | a drop preserves the gravity invariant |
| Rules.RemoveSettled | src/Board.java:45-52 | taking the top disc off preserves the gravity invariant |
| Rules.DropThenRemove | src/GreedyPlayer.java:49-55 | a speculative drop followed by the undo gives back exactly the grid before the drop |
| Rules.RemoveThenDrop | src/Board.java:45-52 | the converse: taking the top disc off a non-empty column and dropping it back gives back the original grid |
| Rules.FullIffNoDrop | src/Board.java:59-66 | the board is full exactly when no column accepts a drop |
| Rules.FullIffNoEmptyCell | src/Board.java:59-66 | under gravity, testing the top row is the same as testing every cell |
| Rules.OtherCannotWin | src/Game.java:46-54 | a drop of one symbol cannot create four in a row for another, so checking only the mover is enough |
| Rules.DiagonalIsNoWin | src/Board.java:74-76 | diagonals do not count: a settled grid holding a diagonal four of `s` is not a win for `s` |
| Rules.DropFillsOneCell | src/Board.java:31-35 | every successful drop lowers the number of empty cells by exactly one |
| Rules.EmptyCellsRange | src/Board.java:59-66 | a grid that is not full has an empty cell, and no grid has more than 42 |
| Boards.Board.constructor | src/Board.java:13-18 | a fresh array whose cells are all empty, as `EmptyGrid` |
| Boards.Board.DropDisc | src/Board.java:27-38 | succeeds exactly when the column is in range and its top cell is empty; then the cells become `Dropped` of the old cells, otherwise they are unchanged; the invariant is kept |
| Boards.Board.RemoveTopDisc | src/Board.java:45-52 | the cells become `Removed` of the old cells: the topmost disc of the column is cleared, or nothing changes on an empty column |
| Boards.Board.IsFull | src/Board.java:59-66 | true exactly when the top cell of every column is taken |
| Boards.Board.CheckWin | src/Board.java:74-76 | true exactly when the symbol has four in a row horizontally or vertically |
| Boards.Board.CheckHorizontal | src/Board.java:84-96 | true exactly when some row holds four consecutive cells of the symbol |
| Boards.Board.CheckVertical | src/Board.java:104-116 | true exactly when some column holds four consecutive cells of the symbol |
| Boards.Board.Snapshot | src/Board.java:123-125 | returns the board's contents, row by row |
| Players.FirstWinning | src/GreedyPlayer.java:48-57 | the lowest column at or after `from` where a drop of the symbol wins, or 7; no lower column wins |
| Players.FirstLegalDraw | src/GreedyPlayer.java:83-85 | the first draw that accepts a disc; every earlier draw is rejected |
| Players.Policy | src/GreedyPlayer.java:41-72 | the chosen column always accepts a disc |
| Players.BlockHasPriority | src/GreedyPlayer.java:47-57 | without the override, any column where the opponent would win forces a block at the lowest such column, whatever the player could win itself |
| Players.WinWhenNothingToBlock | src/GreedyPlayer.java:59-68 | with nothing to block and no override, the player takes its own lowest winning column |
| Players.RandomOtherwise | src/GreedyPlayer.java:41-72 | with the override, or with nothing to block or win, the column is the first legal draw |
| Players.BlocksIff | src/GreedyPlayer.java:47-54 | the block branch is taken exactly when the override does not fire and some column lets the opponent win |
| Players.FairDraws | src/GreedyPlayer.java:83-85 | a legal draw exists only on a board that is not full, and on such a board a stream that visits every column has one |
| Players.GreedyPlayer.constructor | src/GreedyPlayer.java:23-29 | stores the symbol, the opponent's symbol and the shared board; the blocked-move count starts at 0 |
| Players.GreedyPlayer.ChooseMove | src/GreedyPlayer.java:41-72 | returns `Policy`'s column; the board ends as it started; the blocked-move count goes up by one exactly when the block branch is taken |
| Players.GreedyPlayer.TryDrop | src/GreedyPlayer.java:49-56 | reports whether dropping the symbol in the column wins, and leaves the board as it was |
| Players.GreedyPlayer.MakeRandomMove | src/GreedyPlayer.java:81-88 | returns the first legal draw and leaves the board as it was |
| Players.GreedyPlayer.DropRandom | src/GreedyPlayer.java:83-85 | the resampling loop stops at the first legal draw, with that disc dropped |
| Games.TakeTurn | src/Game.java:40-60 | one round: the policy's column accepts a disc, the mover's disc lands there, and the two flags are the mover's win and the fullness of the new grid |
| Games.TurnFillsCell | src/Game.java:40-43 | every turn fills exactly one empty cell |
| Games.Play | src/Game.java:35-72 | a match has at least one move, the first by the side to move; a win leaves the winner with four in a row, a draw leaves the board full |
| Games.PlayLength | src/Game.java:38-60 | a match lasts at most as many moves as there are empty cells, so at most 42 |
| Games.PlayAlternates | src/Game.java:62-63 | moves strictly alternate between the two sides, starting with the side to move |
| Games.PlayWinnerMovedLast | src/Game.java:46-53 | a match won by a side was won on that side's own last move |
| Games.TurnKeepsOtherWinless | src/Game.java:46-54 | the side that did not move cannot gain four in a row from the move |
| Games.PlayOutcome | src/Game.java:46-60 | from a grid where nobody has won, the winner has four in a row and the loser none; a draw is a full board with no line for either side; a last move that wins and fills counts as a win |
| Games.PlayBlocks | src/GreedyPlayer.java:47-54 | the number of blocking moves a side makes during the match equals the count of its blocking moves in `Play`'s move list |
| Games.Game.constructor | src/Game.java:20-26 | a fresh empty board shared by player 1 (`'X'` against `'O'`) and player 2 (`'O'` against `'X'`) |
| Games.Game.Start | src/Game.java:35-72 | the loop ends on `Play`'s final grid with player 1 moving first; exactly one of the wins and draws counters goes up by one, the one `Play`'s outcome names; each player's blocked-move count goes up by its blocking moves in the match |
| Games.Game.PlayTurn | src/Game.java:40-60 | one round: the current player's chosen column receives its disc; the win is checked first, then fullness, as `TakeTurn` states; only the mover's blocked-move count can change |

## Left out

- The visualizer update after each move (src/Game.java:44) and the 500 ms pause with its exception handler (src/Game.java:65-70) are not modelled. They do not touch the board or the counters.
- `java.util.Random` is replaced by explicit inputs. The 10% chance of the override is not modelled, only the branch it selects.
- Players.GreedyPlayer.ChooseMove: requires the draws to contain a column that accepts a disc. With an unlucky generator the Java resampling loop could run forever; the model leaves that case out.
- Players.GreedyPlayer.MakeRandomMove: requires the same fairness of the draws, for the same reason.
- Games.Game.Start: requires every turn's draws to visit all seven columns, so each turn ends. It also requires a board that is not yet full: on a full board the Java loop would resample forever.
- Games.Game.Start: each player keeps its own blocked-move count. The Java players add to one shared counter, which equals the sum of the two.
- Boards.Board.RemoveTopDisc: requires a column in range. The Java method has no bounds check and throws `ArrayIndexOutOfBoundsException` for any other column; that exception path is not modelled. Every caller passes a column that has just accepted a drop.
- Players.GreedyPlayer.constructor: requires both symbols to differ from `'.'`. With `'.'` as a symbol, a speculative drop changes nothing and the undo would erase a real disc.
- Statistics: the wins and draws counters are fields of `Game` and the blocked-move counters are fields of the players; the printing of the statistics is not modelled. The central-column counter is never incremented by the core, so it is not modelled.
- `getGrid` hands out the live array to the visualizer. `Snapshot` returns its contents as a value, so the aliasing is not modelled.
- Counters are unbounded naturals; Java `int` overflow after 2^31 increments of any counter is not modelled. The shared blocked-move counter can go up several times per match, so it would overflow first.
- `TryDrop` (one speculative step of the search), `DropRandom` (the resampling loop) and `Game.PlayTurn` (the body of one round) are separate methods. They run the same statements in the same order as the inlined Java code.
- src/Main.java, src/Simulation.java and src/GameVisualizer.java (entry point, repeated matches, drawing) are not part of this model. `Player.getSymbol` is the constant field `symbol`.
