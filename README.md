# Tic-tac-toe engine of all.c, modelled and verified in Dafny

The repository is a console tic-tac-toe game. A human plays X. O is played by a
second human, by a random computer player, or by a "smart" computer player.
This project models the game engine in `all.c`:

- the 3×3 board: `newBoard`, `copyBoard` and the writes to its cells;
- status evaluation (`getStatus`);
- the placement step of the human move (`userMove`) and of the random move
  (`randomComputerMove`);
- the smart opponent: the exhaustive count `numWinningCombos`, the move choice
  `findBestMove` and the move itself `smartComputerMove`.

The board is an `array2<Cell>` with three rows of three cells, changed in
place, as `Move **` is in the source. `Cells(board)` is the row-major snapshot
of a board: nine cells, with cell (i, j) at index `3*i + j`. Every
imperative method is proved against pure functions of these snapshots:

- `Evaluate` for `getStatus`;
- `Count` for `numWinningCombos`;
- the predicate `IsBestMove` for `findBestMove`.

Properties of those functions are then proved as lemmas.

Files:

- `board.dfy` (module `Board`): cells, boards, snapshots, `NewBoard`, `CopyBoard`;
- `status.dfy` (module `GameStatus`): `Evaluate`, its independent "three in a
  row" characterisation, `GetStatus`;
- `search.dfy` (module `Search`): `Count`, `NumWinningCombos`, `IsBestMove`,
  `FindBestMove`, `SmartComputerMove`;
- `continuations.dfy` (module `Continuations`): what `Count` counts, stated as
  a set of move sequences;
- `moves.dfy` (module `Moves`): the user's and the random player's placement
  step.

Where the code and its design comments disagree, the model follows the code.
`copyBoard` is documented as making a deep copy, but it returns the original
board (see Findings). The model therefore has a `SmartComputerMove` that runs
the search on the live board, as the source does. It also proves that the net
effect is still exactly one cell set to O.

## Model

| member | source | states |
|---|---|---|
| Board.EmptyGrid | all.c:160-171 | the start snapshot has NONE in all nine cells |
| Board.NewBoard | all.c:160-171 | returns a fresh 3×3 board whose snapshot is all NONE |
| Board.SetCell | all.c:275 | writing board[row][col] changes the snapshot at index 3*row+col to the new mark and changes no other cell |
| Board.EmptyCountFill | all.c:349-351 | placing a mark on a NONE cell lowers the number of empty cells by exactly one |
| Board.CopyCells | all.c:151-156 | after the copying loop every cell of the target equals the cell of the source |
| Board.CopyBoard | all.c:148-158 | copyBoard as written: the result is the very board passed in, not a new one |
| Board.CopyBoardDeep | all.c:148-156 | the intended copy: a fresh 3×3 board with the same nine cells |
| Board.WriteThroughCopy | all.c:157 | writing X to (0,0) of copyBoard's result sets (0,0) of the original board to X |
| Board.WriteThroughDeepCopy | all.c:31-34 | writing to a deep copy leaves every cell of the original unchanged |
| GameStatus.BoardHasLineIsHasLine | all.c:222-245 | the eight-line test on the board in memory agrees with the test on its snapshot |
| GameStatus.HasLineIsThreeInARow | all.c:222-232 | the source's eight equality tests for a mark hold exactly when some row, some column or a diagonal holds three of that mark |
| GameStatus.XWinsIff | all.c:222-233 | the status is X_WINS exactly when X has three in a row, even if O also has a line |
| GameStatus.OWinsIff | all.c:234-246 | the status is O_WINS exactly when X has no line and O has one |
| GameStatus.PlayingIff | all.c:247-258 | the status is PLAYING exactly when neither mark has a line and some cell is NONE |
| GameStatus.TieIff | all.c:218-260 | the status is TIE exactly when neither mark has a line and no cell is NONE |
| GameStatus.NewBoardIsPlaying | all.c:98-99 | a new board has status PLAYING |
| GameStatus.PlayingHasEmptyCell | all.c:253-256 | a board with status PLAYING has at least one empty cell, so the computer players always have a cell to take |
| GameStatus.GetStatus | all.c:218-261 | getStatus returns the status of the snapshot: X's lines first, then O's, then PLAYING at the first NONE cell of the scan, else TIE |
| Search.PlaceDecreases | all.c:349-351 | a placement on an empty cell fills it; placing NONE leaves the board as it is, so the recursion still ends |
| Search.CountOfFinishedBoard | all.c:358-362 | the count is 0 when X has won and 1 when O has won or the board is a tie, whoever is to move |
| Search.CountBound | all.c:339-356 | with E empty cells and X or O to move, the count is at most E! |
| Search.CountFitsInInt | all.c:341-351 | every count reached from the game's calls is at most 9! = 362880, so the int `total` cannot overflow |
| Search.NumWinningCombos | all.c:339-367 | returns the count of the snapshot with nextMove to move and restores every cell; the "Illegal state" branch is unreachable |
| Continuations.GamesAreNonLossGames | all.c:343-360 | a move sequence is among the collected games exactly when it plays the game out from the board, alternating marks on empty cells, and does not end with X winning |
| Continuations.CountIsGamesSize | all.c:339-362 | the count equals the number of collected games |
| Continuations.CountIsNumberOfNonLossGames | all.c:72-79 | numWinningCombos counts exactly the complete continuations that X does not win |
| Search.BestMoveIsUnique | all.c:315-336 | at most one cell of a board satisfies findBestMove's rule |
| Search.ScanStep | all.c:318-332 | one scan step: an occupied cell changes nothing; an empty non-winning cell becomes the leader exactly when its count is strictly greater than best |
| Search.ScanDone | all.c:313-336 | after scanning all nine cells with no immediate win, the leader of a board with an empty cell is the rule's choice |
| Search.FindBestMove | all.c:309-337 | returns an in-range cell that was NONE. It is the first row-major cell where O wins at once, and that cell is left holding O. Otherwise it is the first empty cell of greatest count, and the board is left unchanged |
| Search.FirstWinIsTaken | all.c:318-325 | when w is the first cell where O wins at once, the rule picks w and no other cell |
| Search.ImmediateWinIsTaken | all.c:318-325 | with O on (0,0) and (0,1) and the rest empty, the rule picks exactly (0,2) |
| Search.SmartComputerMove | all.c:295-307 | as written, with the aliased copy: afterwards the board is the old board with O on the rule's choice and no other change |
| Search.SmartComputerMoveDeepCopy | all.c:295-306 | with a deep copy: the same net effect on the live board |
| Moves.InputCell | all.c:271-275 | input n in 1..9 names row (n-1)/3 and column (n-1)%3, the cell at row-major index n-1 |
| Moves.UserMoveStep | all.c:268-277 | input outside 1..9 is out of range, and input naming a non-NONE cell is "already made"; in both cases the board is unchanged. Otherwise exactly that cell becomes `player` |
| Moves.RandomComputerMoveStep | all.c:284-290 | the drawn cell (r%3, c%3) is accepted exactly when it is NONE, and then only it becomes O; otherwise nothing changes |
| Moves.OnlyEmptyCellIsAccepted | all.c:285-289 | on a board with one NONE cell, every draw that is accepted is that cell |

## Left out

- `printBoard`, `mainMenu`, the `printf`/`scanf` prompts and the end-of-game messages in `main` are console I/O and are not modelled.
- `userMove`'s re-prompt loop and its `scanf`: one pass of the loop is modelled on a supplied number (`UserMoveStep`). The source repeats the pass until the verdict is `Placed`.
- `randomComputerMove`'s `rand()` calls and its retry loop: one pass is modelled on two supplied non-negative draws (`RandomComputerMoveStep`). The loop ends only with probability one, which Dafny cannot express. `srandom(time(NULL))` is left out with it.
- `main`'s turn loop is not modelled. The lemmas cover the facts it relies on: a new board is in play, a board in play has an empty cell, and every accepted move fills one empty cell.
- `malloc`, `free` and `freeBoard` are not modelled. This leaves out the fresh board that `copyBoard` leaks, and the use after free caused by `freeBoard(copy)` in `smartComputerMove` releasing the live board. Only the aliasing itself is modelled.
- The debug `printf` in `smartComputerMove` (all.c:303) is output and is not modelled. The `exit(1)` of numWinningCombos (all.c:365) sits on a branch proved unreachable.
- Search.FindBestMove: requires an empty cell on the board. On a full board the source returns without setting `*row` and `*col`. `main` only calls the smart player while the status is PLAYING, and `PlayingHasEmptyCell` shows such a board has one.
- Search.SmartComputerMove: requires an empty cell, for the same reason as FindBestMove. The deep-copy variant requires it too.
- The claim that on an empty board the first move is (0,0) is not proved. It needs the count of the whole game tree (over 250,000 games), which is beyond symbolic evaluation by the verifier.

## Findings

| source | as written | input that shows it | evidently intended | confidence | as-written member | corrected member |
|---|---|---|---|---|---|---|
| all.c:157 | `copyBoard` fills a fresh board and then returns `board`, the original | any board: after writing X to (0,0) of the returned "copy", cell (0,0) of the original board is X | return the fresh board `copy`, a deep copy as the header comment says | high (not executed) | Board.CopyBoard | Board.CopyBoardDeep |

`WriteThroughCopy` proves the discrepancy for every board, and `WriteThroughDeepCopy` proves that it is gone with the corrected copy. `SmartComputerMove` uses the copy as written and `SmartComputerMoveDeepCopy` uses the corrected one. Both are proved to change the live board only by setting O on the chosen cell. The aliasing is harmless to the board's contents only because `findBestMove` undoes every trial move.
