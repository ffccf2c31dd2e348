# Connect four with a minimax opponent

This project models the engine of a JavaFX connect-four game (`FORZA4.java`).
A human (red, 1) plays against the computer (yellow, 2) on a 6 x 7 board that
the engine updates in place:

- a disc dropped into a column lands in the lowest empty cell;
- four in a row along a column, a row or a diagonal wins;
- the computer picks its column with depth-bounded minimax search with
  alpha-beta pruning (depth 5). The search drops and takes back discs on the
  shared board.

The model has five modules, one per file:

- `Board` (`board.dfy`) holds the board as a value (`seq<seq<int>>`, row 0 at
  the top). It defines:
  - the landing row of a drop, the drop itself and the cell write that undoes it;
  - the top-row fullness test;
  - gravity (`Settled`) and the disc count, which the turn logic relies on.
- `Win` (`win.dfy`) defines a run of four from a cell along a direction
  vector, a win anywhere on the board (`HasWin`), and the row-by-row scan the
  engine performs (`WinFrom`).
- `Choice` (`choice.dfy`) is the column choice of the best-move loop, apart
  from how columns are scored. It scans left to right and keeps a column only
  when its score is strictly greater, starting from column -1 and the 32-bit
  minimum.
- `Search` (`search.dfy`) holds the search as functions of the board:
  - the evaluator, which is a stub that is identically 0;
  - plain minimax (`Value`/`Best`) as the reference;
  - the alpha-beta search the engine runs (`AlphaBeta`/`Sweep`), a faithful
    fold of its column loop with the running window, the running extremum and
    the `beta <= alpha` cut-off;
  - the computer's move (`BestMove`).

  It proves:
  - scores stay in [-1000, 1000];
  - alpha-beta is fail-soft correct for every non-empty window (alpha < beta)
    of 32-bit bounds;
  - with the full 32-bit window, alpha-beta equals plain minimax.
- `Engine` (`engine.dfy`) is the class `Forza4`. Its `board` field is an
  `array2<int>` and `isRedTurn` is a `bool`. Every method mirrors a method of
  the Java class, and each is proved against the functions above through the
  ghost view `Grid()` of the array.

  Some Java loop bodies became helper methods so that each proof stays small:
  - `CheckCell` is the condition checked at each cell by `checkForWin`;
  - `MaximizeOver` and `MinimizeOver` are the two branches of `minimax`;
  - `SearchChild` is one drop / recurse / undo step;
  - `ScoreColumn` is the body of the `getBestMove` loop.

  The control flow, the order of the board operations and the constants are
  those of the Java code.

Where the code and its comments or its evident intent differ, the model follows the code:

- The code's comments call direction (1, 0) horizontal and (0, 1) vertical.
  In fact (1, 0) advances the row index, so it runs down a column. The set of
  four directions is complete either way.
- When the computer has no column, the code reports no error: `getBestMove`
  returns -1 and `handleAIMove` then drops into column -1, which throws in
  Java. The model keeps this as the `Crashed`
  outcome. `Engine.Forza4.HandlePlayerMove` proves that it cannot happen from
  a game in progress: gravity holds and an even number of discs is on the
  board, so after the human's drop an odd number of the 42 cells is taken and
  some column is still open.

## Model

| member | source | states |
|---|---|---|
| Board.EmptyGrid | src/main/java/org/example/forza4/FORZA4.java:18 | the fresh board has the 6 x 7 shape and every cell is empty (0) |
| Board.ScanUp | src/main/java/org/example/forza4/FORZA4.java:75-81 | the upward scan yields -1 or a row no higher than where it started, and any row it yields is empty |
| Board.ScanUpMeans | src/main/java/org/example/forza4/FORZA4.java:75-81 | the scan yields -1 exactly when every scanned cell is occupied, and every cell it passed over below its answer is occupied |
| Board.DropRow | src/main/java/org/example/forza4/FORZA4.java:74-82 | the landing row is -1 or an empty cell of the column |
| Board.DropRowMeans | src/main/java/org/example/forza4/FORZA4.java:74-82 | the landing row is the lowest empty cell: all cells below it are occupied, and it is -1 exactly when the column is full |
| Board.Drop | src/main/java/org/example/forza4/FORZA4.java:74-82 | a drop into a full column changes nothing; otherwise the landing cell holds the player's disc and every other cell is as before |
| Board.Set | src/main/java/org/example/forza4/FORZA4.java:84-86 | writing a cell sets that cell and leaves every other cell as it was |
| Board.UndoAfterDrop | src/main/java/org/example/forza4/FORZA4.java:74-86 | clearing the landing cell right after a successful drop gives back exactly the board before the drop |
| Board.EmptyGridSettled | src/main/java/org/example/forza4/FORZA4.java:18 | the fresh board obeys gravity |
| Board.DropKeepsSettled | src/main/java/org/example/forza4/FORZA4.java:74-82 | dropping a real disc keeps a board that obeys gravity obeying it |
| Board.OpenTopCanDrop | src/main/java/org/example/forza4/FORZA4.java:118-125 | a column whose top cell is empty accepts a disc, so a board that is not full has a legal move |
| Board.FullIffNoDrop | src/main/java/org/example/forza4/FORZA4.java:118-125 | on a board obeying gravity, the top-row test says full exactly when no column accepts a disc |
| Board.CountRow | src/main/java/org/example/forza4/FORZA4.java:46-72 | a proof device for the crash-freedom of a round (the code keeps no count): a row's disc count is at most its length, and equals it exactly when no cell of the row is empty |
| Board.CountCells | src/main/java/org/example/forza4/FORZA4.java:46-72 | a proof device for the crash-freedom of a round (the code keeps no count): the board's disc count is at most its cell count, and equals it exactly when no cell is empty |
| Board.CountRowEmpty | src/main/java/org/example/forza4/FORZA4.java:18 | a row with no disc counts zero |
| Board.CountCellsEmpty | src/main/java/org/example/forza4/FORZA4.java:18 | a board with no disc counts zero |
| Board.DropCount | src/main/java/org/example/forza4/FORZA4.java:74-82 | each successful drop of a real disc adds exactly one disc to the count |
| Board.OddCountNotFull | src/main/java/org/example/forza4/FORZA4.java:118-125 | a board obeying gravity with an odd number of discs is not full, because the board has an even number (42) of cells |
| Win.RunIsFourSteps | src/main/java/org/example/forza4/FORZA4.java:104-116 | a run of four is exactly the first four cells of the ray, i = 0..3, all on the board and all the player's |
| Win.NoRunFromOtherCell | src/main/java/org/example/forza4/FORZA4.java:92 | no run starts on a cell that is not the player's, so the owner test before the direction checks loses nothing |
| Win.WinFromMeans | src/main/java/org/example/forza4/FORZA4.java:90-101 | the row-by-row scan from a cell finds a run exactly when one starts at that cell or at a later one |
| Win.ScanFindsWin | src/main/java/org/example/forza4/FORZA4.java:88-102 | scanning the whole board finds a run exactly when the player has four in a row somewhere |
| Win.ThreeThenFour | src/main/java/org/example/forza4/FORZA4.java:88-116 | three discs in a row on the bottom row are no win, and the fourth disc next to them makes one |
| Choice.FirstMaxFrom | src/main/java/org/example/forza4/FORZA4.java:131-142 | resuming the column scan in any consistent state ends on the first open column of greatest score, or -1 when no column is open |
| Choice.FirstMax | src/main/java/org/example/forza4/FORZA4.java:127-143 | the whole scan from column -1 and the 32-bit minimum returns the first open column of greatest score, or -1 |
| Choice.FirstMaxStep | src/main/java/org/example/forza4/FORZA4.java:136-139 | one step of the scan, replacing the best only on a strictly greater score, keeps its state consistent and its final answer unchanged |
| Choice.FirstMaxUnique | src/main/java/org/example/forza4/FORZA4.java:136 | the strict comparison makes the choice unique: at most one column is the first open column of greatest score |
| Search.Evaluate | src/main/java/org/example/forza4/FORZA4.java:179-199 | the board evaluation is 0 on every board, since each of its eight directional terms is the stub 0 |
| Search.LeafScore | src/main/java/org/example/forza4/FORZA4.java:146-148 | a computer win scores 1000 - depth and is checked first; otherwise a human win scores -1000 + depth; any other leaf scores the evaluation, 0 |
| Search.Best | src/main/java/org/example/forza4/FORZA4.java:151-175 | the reference extremum never lies beyond the sentinel the side to move starts from |
| Search.InnerNodeHasMove | src/main/java/org/example/forza4/FORZA4.java:148-150 | a position that is not a leaf has a column that accepts a disc |
| Search.ValueRange | src/main/java/org/example/forza4/FORZA4.java:145-177 | plain minimax values lie in [-1000, 1000] |
| Search.BestRange | src/main/java/org/example/forza4/FORZA4.java:150-176 | the extremum over the remaining columns is a score or the sentinel, and an open column among them rules the sentinel out |
| Search.AlphaBetaRange | src/main/java/org/example/forza4/FORZA4.java:145-177 | whatever the window, alpha-beta returns a value in [-1000, 1000]: the sentinels MIN_VALUE/MAX_VALUE never escape an inner node |
| Search.SweepRange | src/main/java/org/example/forza4/FORZA4.java:150-176 | the rest of a column loop returns a score once its running extremum is one or an open column is still ahead |
| Search.AlphaBetaFailSoft | src/main/java/org/example/forza4/FORZA4.java:145-177 | for every window alpha < beta of 32-bit bounds, the alpha-beta result is exact inside the window, an upper bound on the true value at or below alpha, and a lower bound at or above beta |
| Search.MaxChildStep | src/main/java/org/example/forza4/FORZA4.java:155-159 | after one child of a maximizing node, the updates of maxEval and alpha either cut off with a fail-soft result or keep the loop invariant |
| Search.MinChildStep | src/main/java/org/example/forza4/FORZA4.java:168-172 | after one child of a minimizing node, the updates of minEval and beta either cut off with a fail-soft result or keep the loop invariant |
| Search.SweepMaxFailSoft | src/main/java/org/example/forza4/FORZA4.java:150-162 | the maximizing column loop, with or without a cut-off, returns a fail-soft bound of the true maximum over its columns |
| Search.SweepMinFailSoft | src/main/java/org/example/forza4/FORZA4.java:163-176 | the minimizing column loop, with or without a cut-off, returns a fail-soft bound of the true minimum over its columns |
| Search.AlphaBetaIsMinimax | src/main/java/org/example/forza4/FORZA4.java:134 | called with the full window (MIN_VALUE, MAX_VALUE), alpha-beta returns exactly the plain minimax value over the same move order and depth bound |
| Search.SoonerWinScoresMore | src/main/java/org/example/forza4/FORZA4.java:146-147 | a win found at a smaller depth scores strictly better for the winner than one found deeper |
| Search.MoveScore | src/main/java/org/example/forza4/FORZA4.java:132-134 | the score of a trial drop of the computer lies in [-1000, 1000], so it always beats the starting best score |
| Search.FirstMaxIsBest | src/main/java/org/example/forza4/FORZA4.java:127-143 | the scan's answer is the best move: -1 only when every column is full, otherwise an open column of maximal score, and the lowest one among equal scores |
| Search.BestMove | src/main/java/org/example/forza4/FORZA4.java:127-143 | the computer's move is -1 exactly when every column is full, and otherwise the lowest-index open column of maximal score |
| Search.BestMoveIsOpen | src/main/java/org/example/forza4/FORZA4.java:127-143 | when some column accepts a disc, the computer's move is an open column |
| Search.EmptyBoardHasMove | src/main/java/org/example/forza4/FORZA4.java:127-143 | on the empty board the computer's move is a column in [0, 7) |
| Search.BestMoveUnique | src/main/java/org/example/forza4/FORZA4.java:136 | at most one column meets the best-move description, so the choice is deterministic |
| Engine.HumanLeavesRoom | src/main/java/org/example/forza4/FORZA4.java:46-56 | the human's drop on a board obeying gravity with an even disc count leaves a board obeying gravity, with an odd count and an open column |
| Engine.AiRestoresParity | src/main/java/org/example/forza4/FORZA4.java:61-70 | the computer's drop on such a board keeps gravity and makes the count even again |
| Engine.RoundKeepsPlaying | src/main/java/org/example/forza4/FORZA4.java:46-72 | in a game in progress the computer always has a column after the human's move, and after its reply the game is in progress again |
| Engine.Forza4.GridCells | src/main/java/org/example/forza4/FORZA4.java:18 | every cell of the ghost view is the array's cell |
| Engine.Forza4.constructor | src/main/java/org/example/forza4/FORZA4.java:18-19 | a new engine has a fresh, empty 6 x 7 board and the human to move, which is a game in progress |
| Engine.Forza4.EmptyIsPlaying | src/main/java/org/example/forza4/FORZA4.java:18-19 | the empty board with the human to move is a game in progress |
| Engine.Forza4.DropDisc | src/main/java/org/example/forza4/FORZA4.java:74-82 | returns the lowest empty row of the column, or -1 when it is full, and the new board is exactly the drop of the player's disc there |
| Engine.Forza4.UndoMove | src/main/java/org/example/forza4/FORZA4.java:84-86 | the cell is emptied and nothing else changes |
| Engine.Forza4.CheckDirection | src/main/java/org/example/forza4/FORZA4.java:104-116 | true exactly when the four cells from (row, col) along (dRow, dCol) are on the board and the player's; the board is not written |
| Engine.Forza4.CheckCell | src/main/java/org/example/forza4/FORZA4.java:92-96 | true exactly when a run of four of the player starts at the cell in one of the four directions |
| Engine.Forza4.CheckForWin | src/main/java/org/example/forza4/FORZA4.java:88-102 | true exactly when the player has four in a row somewhere on the board; the board is not written |
| Engine.Forza4.IsBoardFull | src/main/java/org/example/forza4/FORZA4.java:118-125 | true exactly when no cell of the top row is empty |
| Engine.Forza4.EvaluateDirection | src/main/java/org/example/forza4/FORZA4.java:195-199 | returns the stub score 0 |
| Engine.Forza4.EvaluateBoard | src/main/java/org/example/forza4/FORZA4.java:179-193 | returns the evaluation of the current board, which is 0 |
| Engine.Forza4.Minimax | src/main/java/org/example/forza4/FORZA4.java:145-177 | leaves the board as it found it on every path, and returns the alpha-beta value of the entry board, which lies in [-1000, 1000] |
| Engine.Forza4.MaximizeOver | src/main/java/org/example/forza4/FORZA4.java:150-162 | the maximizing column loop, cut-off included, leaves the board unchanged and returns the specified fold over the columns |
| Engine.Forza4.MinimizeOver | src/main/java/org/example/forza4/FORZA4.java:163-176 | the minimizing column loop, cut-off included, leaves the board unchanged and returns the specified fold over the columns |
| Engine.Forza4.SearchChild | src/main/java/org/example/forza4/FORZA4.java:153-156 | the side to move plays col exactly when the column accepts a disc; the child is then searched with the current window, and the board comes back unchanged |
| Engine.Forza4.GetBestMove | src/main/java/org/example/forza4/FORZA4.java:127-143 | leaves the board unchanged and returns the best move: -1 exactly when every column is full, otherwise the lowest-index open column of maximal score |
| Engine.Forza4.ScoreColumn | src/main/java/org/example/forza4/FORZA4.java:132-135 | a trial drop is played exactly when the column accepts it, is scored by the full-window search, and is taken back |
| Engine.Forza4.HandleAIMove | src/main/java/org/example/forza4/FORZA4.java:61-72 | the computer plays its best move; on a win the turn flag is left alone, otherwise it is handed back to the human; with no column it crashes and nothing changes |
| Engine.Forza4.HandlePlayerMove | src/main/java/org/example/forza4/FORZA4.java:46-59 | a click outside the human's turn or on a full column changes nothing; otherwise the human's disc lands and either wins or the computer replies; in a game in progress the crash never happens, and a round that continues leaves a game in progress |

## Left out

- The JavaFX user interface is not modelled: `start`, the `Circle` cells, the colour changes and `main`/`launch`.
- `endGame`, which shows a dialog and exits the process, is not modelled. The `HumanWon` and `AiWon` outcomes take its place.
- The exception that Java throws when `handleAIMove` drops into column -1 is the `Crashed` outcome, with the board and the turn flag unchanged.
- The code never detects a draw. Once the computer fills the last cell, every later click is `Ignored`. The model has the same behaviour and adds no draw outcome.
- Engine.Forza4.Minimax: requires `depth <= 5`. The only caller passes 0 and each recursive call adds 1 only below the bound, so no reachable call is excluded.
- Engine.Forza4.DropDisc: requires a column in [0, 7). The only out-of-range column the code ever passes is -1, and that case is the `Crashed` outcome of HandleAIMove.
- The board's `int[][]` rows are modelled as a single `array2<int>`. The code never reassigns or aliases a row, so nothing that depends on row aliasing is lost.
- Java `int` arithmetic is modelled with unbounded integers. Scores stay within [-1000, 1000] and the only extreme values are the `Integer.MIN_VALUE`/`Integer.MAX_VALUE` sentinels, which are written out as constants, so no overflow can occur.
