/**
 * The game engine object: a 6 x 7 integer board updated in place and the
 * flag saying whose turn it is. Every method mirrors one method of the
 * engine and is proved against the board functions of Board, Win and Search.
 */
module Engine {
  import opened Board
  import opened Win
  import opened Search
  import opened Choice

  /** What a click leads to; HumanWon and AiWon stand for the end-of-game dialog. */
  datatype Outcome =
    | Ignored    // not the human's turn, or the clicked column is full
    | Continue   // both sides moved and nobody won; the human is to move again
    | HumanWon
    | AiWon
    | Crashed    // the computer found no column and dropped into column -1

  /**
   * The human's drop on a settled board holding an even number of discs
   * leaves a settled board with an odd number of discs and an open column.
   */
  lemma HumanLeavesRoom(g: Grid, c: int) returns (k: int)
    requires IsGrid(g) && Settled(g) && CountCells(g) % 2 == 0
    requires 0 <= c < Cols && CanDrop(g, c)
    ensures Settled(Drop(g, c, Human)) && CountCells(Drop(g, c, Human)) % 2 == 1
    ensures 0 <= k < Cols && CanDrop(Drop(g, c, Human), k)
  {
    var h := Drop(g, c, Human);
    DropKeepsSettled(g, c, Human);
    DropCount(g, c, Human);
    OddCountNotFull(h);
    k :| 0 <= k < Cols && h[0][k] == Empty;
    OpenTopCanDrop(h, k);
  }

  /** The computer's drop on a settled board holding an odd number of discs makes the count even again. */
  lemma AiRestoresParity(h: Grid, b: int)
    requires IsGrid(h) && Settled(h) && CountCells(h) % 2 == 1
    requires 0 <= b < Cols && CanDrop(h, b)
    ensures Settled(Drop(h, b, Ai)) && CountCells(Drop(h, b, Ai)) % 2 == 0
  {
    DropKeepsSettled(h, b, Ai);
    DropCount(h, b, Ai);
  }

  /**
   * A round of play from a settled board holding an even number of discs:
   * after the human's drop the computer always has an open column, and after
   * its reply the board is again settled with an even number of discs.
   */
  lemma RoundKeepsPlaying(g: Grid, c: int)
    requires IsGrid(g) && Settled(g) && CountCells(g) % 2 == 0
    requires 0 <= c < Cols && CanDrop(g, c)
    ensures BestMove(Drop(g, c, Human)) != -1
    ensures var h := Drop(g, c, Human);
            var m := Drop(h, BestMove(h), Ai);
            Settled(m) && CountCells(m) % 2 == 0
  {
    var h := Drop(g, c, Human);
    var k := HumanLeavesRoom(g, c);
    BestMoveIsOpen(h, k);
    AiRestoresParity(h, BestMove(h));
  }

  class Forza4 {
    var board: array2<int>
    var isRedTurn: bool

    ghost predicate Valid()
      reads this`board
    {
      board.Length0 == Rows && board.Length1 == Cols
    }

    /** Cells 0..n-1 of row r of the board. */
    ghost function RowPrefix(r: int, n: int): (s: seq<int>)
      reads this`board, board
      requires Valid() && 0 <= r < Rows && 0 <= n <= Cols
      ensures |s| == n
      decreases n
    {
      if n == 0 then [] else RowPrefix(r, n - 1) + [board[r, n - 1]]
    }

    /** Rows 0..n-1 of the board. */
    ghost function RowsPrefix(n: int): (g: seq<seq<int>>)
      reads this`board, board
      requires Valid() && 0 <= n <= Rows
      ensures |g| == n && forall r :: 0 <= r < n ==> |g[r]| == Cols
      decreases n
    {
      if n == 0 then [] else RowsPrefix(n - 1) + [RowPrefix(n - 1, board.Length1)]
    }

    /**
     * The board as a value. Its cells are tied to the array by GridCells, which
     * only the methods that read or write the array need.
     */
    ghost function Grid(): (g: Grid)
      reads this`board, board
      requires Valid()
      ensures IsGrid(g)
    {
      RowsPrefix(board.Length0)
    }

    lemma {:induction false} RowPrefixCells(r: int, n: int)
      requires Valid() && 0 <= r < Rows && 0 <= n <= Cols
      ensures forall c :: 0 <= c < n ==> RowPrefix(r, n)[c] == board[r, c]
      decreases n
    {
      if n > 0 {
        RowPrefixCells(r, n - 1);
      }
    }

    lemma {:induction false} RowsPrefixCells(n: int)
      requires Valid() && 0 <= n <= Rows
      ensures forall r, c :: 0 <= r < n && 0 <= c < Cols ==> RowsPrefix(n)[r][c] == board[r, c]
      decreases n
    {
      if n > 0 {
        RowsPrefixCells(n - 1);
        RowPrefixCells(n - 1, Cols);
      }
    }

    /** Every cell of Grid() is the array's cell. */
    lemma GridCells()
      requires Valid()
      ensures forall r, c :: 0 <= r < Rows && 0 <= c < Cols ==> Grid()[r][c] == board[r, c]
    {
      RowsPrefixCells(Rows);
    }

    /**
     * A game in progress with the human to move: discs obey gravity and an
     * even number of them are on the board.
     */
    ghost predicate Playing()
      reads this, board
    {
      Valid() && isRedTurn && Settled(Grid()) && CountCells(Grid()) % 2 == 0
    }

    constructor ()
      ensures Valid() && fresh(board) && isRedTurn
      ensures Grid() == EmptyGrid()
      ensures Playing()
    {
      board := new int[Rows, Cols]((r, c) => Empty);
      isRedTurn := true;
      new;
      GridCells();
      SameCells(Grid(), EmptyGrid());
      EmptyIsPlaying();
    }

    /** The empty board, with the human to move, is a game in progress. */
    lemma EmptyIsPlaying()
      requires Valid() && isRedTurn && Grid() == EmptyGrid()
      ensures Playing()
    {
      EmptyGridSettled();
      CountCellsEmpty(EmptyGrid());
    }

    /** Drops player's disc into column col and returns the row it lands in, or -1 for a full column. */
    method DropDisc(col: int, player: int) returns (row: int)
      requires Valid() && 0 <= col < Cols
      modifies board
      ensures row == DropRow(old(Grid()), col)
      ensures Grid() == Drop(old(Grid()), col, player)
    {
      ghost var g := Grid();
      GridCells();
      DropRowMeans(g, col);
      for r := Rows downto 0
        invariant Grid() == g
        invariant forall i :: r <= i < Rows ==> g[i][col] != Empty
      {
        if board[r, col] == Empty {
          board[r, col] := player;
          GridCells();
          SameCells(Grid(), Set(g, r, col, player));
          return r;
        }
      }
      return -1;
    }

    /** Clears cell (row, col). */
    method UndoMove(row: int, col: int)
      requires Valid() && 0 <= row < Rows && 0 <= col < Cols
      modifies board
      ensures Grid() == Set(old(Grid()), row, col, Empty)
    {
      GridCells();
      board[row, col] := Empty;
      GridCells();
      SameCells(Grid(), Set(old(Grid()), row, col, Empty));
    }

    /** Counts the player's cells from (row, col) along (dRow, dCol), stopping at the first miss. */
    method CheckDirection(row: int, col: int, dRow: int, dCol: int, player: int) returns (found: bool)
      requires Valid()
      ensures found <==> RunOfFour(Grid(), row, col, dRow, dCol, player)
    {
      GridCells();
      var count := 0;
      for i := 0 to 4
        invariant count == i
        invariant forall j :: 0 <= j < i ==> OwnsStep(Grid(), row, col, dRow, dCol, j, player)
      {
        var r := row + i * dRow;
        var c := col + i * dCol;
        if 0 <= r < Rows && 0 <= c < Cols && board[r, c] == player {
          count := count + 1;
        } else {
          assert !OwnsStep(Grid(), row, col, dRow, dCol, i, player);
          break;
        }
      }
      found := count == 4;
      RunIsFourSteps(Grid(), row, col, dRow, dCol, player);
    }

    /**
     * The test the scan applies to one cell: the cell is player's and one of
     * the four directions starting there holds a run of four.
     */
    method CheckCell(row: int, col: int, player: int) returns (found: bool)
      requires Valid() && 0 <= row < Rows && 0 <= col < Cols
      ensures found <==> WinAt(Grid(), row, col, player)
    {
      GridCells();
      found := false;
      if board[row, col] == player {
        found := CheckDirection(row, col, 1, 0, player);                 // down the column
        if !found { found := CheckDirection(row, col, 0, 1, player); }   // along the row
        if !found { found := CheckDirection(row, col, 1, 1, player); }   // diagonal \
        if !found { found := CheckDirection(row, col, 1, -1, player); }  // diagonal /
      } else {
        NoRunFromOtherCell(Grid(), row, col, player);
      }
    }

    /** Looks for a run of four of player's discs, scanning the board row by row. */
    method CheckForWin(player: int) returns (won: bool)
      requires Valid()
      ensures won <==> HasWin(Grid(), player)
    {
      ghost var g := Grid();
      ScanFindsWin(g, player);
      ghost var any := WinFrom(g, player, 0, 0);
      for row := 0 to Rows
        invariant WinFrom(g, player, row, 0) == any
      {
        for col := 0 to Cols
          invariant WinFrom(g, player, row, col) == any
        {
          var found := CheckCell(row, col, player);
          if found {
            return true;
          }
        }
      }
      return false;
    }

    /** Tests the top row only. */
    method IsBoardFull() returns (full: bool)
      requires Valid()
      ensures full <==> IsFull(Grid())
    {
      GridCells();
      for col := 0 to Cols
        invariant forall c :: 0 <= c < col ==> board[0, c] != Empty
      {
        if board[0, col] == Empty {
          return false;
        }
      }
      return true;
    }

    /** The per-direction score, a stub. */
    method EvaluateDirection(dRow: int, dCol: int, player: int) returns (score: int)
      requires Valid()
      ensures score == DirectionScore(Grid(), dRow, dCol, player)
    {
      score := 0;
    }

    /** The leaf evaluation: the computer's directional scores minus the human's. */
    method EvaluateBoard() returns (score: int)
      requires Valid()
      ensures score == Evaluate(Grid())
    {
      score := 0;
      var s := EvaluateDirection(1, 0, Ai);
      score := score + s;
      s := EvaluateDirection(0, 1, Ai);
      score := score + s;
      s := EvaluateDirection(1, 1, Ai);
      score := score + s;
      s := EvaluateDirection(1, -1, Ai);
      score := score + s;
      s := EvaluateDirection(1, 0, Human);
      score := score - s;
      s := EvaluateDirection(0, 1, Human);
      score := score - s;
      s := EvaluateDirection(1, 1, Human);
      score := score - s;
      s := EvaluateDirection(1, -1, Human);
      score := score - s;
    }

    /**
     * Alpha-beta minimax on the shared board: every trial drop is undone
     * before the extremum and the window are updated and before a cut-off,
     * so the board comes back as it was on every path.
     */
    method Minimax(depth: nat, isMaximizing: bool, alpha0: int, beta0: int) returns (v: int)
      requires Valid() && depth <= MaxDepth
      modifies board
      ensures Grid() == old(Grid())
      ensures v == AlphaBeta(old(Grid()), depth, isMaximizing, alpha0, beta0)
      ensures InScoreRange(v)
      decreases MaxDepth - depth, 2
    {
      ghost var g := Grid();
      AlphaBetaRange(g, depth, isMaximizing, alpha0, beta0);
      var aiWins := CheckForWin(Ai);
      if aiWins {
        return WinScore - depth;
      }
      var humanWins := CheckForWin(Human);
      if humanWins {
        return -WinScore + depth;
      }
      var full := IsBoardFull();
      if full || depth == MaxDepth {
        v := EvaluateBoard();
        return;
      }
      assert !IsLeaf(g, depth);
      if isMaximizing {
        v := MaximizeOver(depth, alpha0, beta0);
      } else {
        v := MinimizeOver(depth, alpha0, beta0);
      }
    }

    /**
     * The maximizing branch of minimax on a position that is not a leaf: the
     * computer tries the columns left to right, raising alpha, and stops once
     * beta <= alpha.
     */
    method MaximizeOver(depth: nat, alpha0: int, beta0: int) returns (v: int)
      requires Valid() && depth < MaxDepth
      modifies board
      ensures Grid() == old(Grid())
      ensures v == Sweep(old(Grid()), depth, true, 0, alpha0, beta0, IntMin)
      decreases MaxDepth - depth, 1
    {
      ghost var g := Grid();
      var alpha, beta := alpha0, beta0;
      var maxEval := IntMin;
      for col := 0 to Cols
        invariant Grid() == g
        invariant Sweep(g, depth, true, col, alpha, beta, maxEval) == Sweep(g, depth, true, 0, alpha0, beta0, IntMin)
      {
        var played, eval := SearchChild(col, depth, true, alpha, beta);
        if played {
          maxEval := Max(maxEval, eval);
          alpha := Max(alpha, eval);
          if beta <= alpha {
            break;
          }
        }
      }
      return maxEval;
    }

    /**
     * The minimizing branch of minimax on a position that is not a leaf: the
     * human tries the columns left to right, lowering beta, and stops once
     * beta <= alpha.
     */
    method MinimizeOver(depth: nat, alpha0: int, beta0: int) returns (v: int)
      requires Valid() && depth < MaxDepth
      modifies board
      ensures Grid() == old(Grid())
      ensures v == Sweep(old(Grid()), depth, false, 0, alpha0, beta0, IntMax)
      decreases MaxDepth - depth, 1
    {
      ghost var g := Grid();
      var alpha, beta := alpha0, beta0;
      var minEval := IntMax;
      for col := 0 to Cols
        invariant Grid() == g
        invariant Sweep(g, depth, false, col, alpha, beta, minEval) == Sweep(g, depth, false, 0, alpha0, beta0, IntMax)
      {
        var played, eval := SearchChild(col, depth, false, alpha, beta);
        if played {
          minEval := Min(minEval, eval);
          beta := Min(beta, eval);
          if beta <= alpha {
            break;
          }
        }
      }
      return minEval;
    }

    /**
     * One iteration's move of the minimax column loop: the side to move
     * drops into col; when the column accepts the disc, the child position
     * is searched with the current window and the disc is taken back.
     */
    method SearchChild(col: int, depth: nat, isMaximizing: bool, alpha: int, beta: int) returns (played: bool, eval: int)
      requires Valid() && 0 <= col < Cols && depth < MaxDepth
      modifies board
      ensures Grid() == old(Grid())
      ensures played == CanDrop(old(Grid()), col)
      ensures played ==> eval == AlphaBeta(Drop(old(Grid()), col, Mover(isMaximizing)), depth + 1, !isMaximizing, alpha, beta)
      decreases MaxDepth - depth, 0
    {
      ghost var g := Grid();
      var row := DropDisc(col, Mover(isMaximizing));
      played := row != -1;
      eval := 0;
      if played {
        eval := Minimax(depth + 1, !isMaximizing, alpha, beta);
        UndoMove(row, col);
        UndoAfterDrop(g, col, Mover(isMaximizing));
      }
    }

    /**
     * Tries every column for the computer and keeps the first one whose
     * full-window search score is strictly greater than the best so far.
     */
    method GetBestMove() returns (bestCol: int)
      requires Valid()
      modifies board
      ensures Grid() == old(Grid())
      ensures bestCol == BestMove(old(Grid()))
      ensures IsBestMove(old(Grid()), bestCol)
    {
      ghost var g := Grid();
      ghost var open, scores := Opens(g), Scores(g);
      var bestScore := IntMin;
      bestCol := -1;
      for col := 0 to Cols
        invariant Grid() == g
        invariant FirstMaxSoFar(open, scores, col, bestCol, bestScore)
        invariant FirstMaxFrom(open, scores, col, bestCol, bestScore) == BestMove(g)
      {
        FirstMaxStep(open, scores, col, bestCol, bestScore);
        var played, score := ScoreColumn(col);
        assert played == open[col] && (played ==> score == scores[col]);
        if played {
          if score > bestScore {
            bestScore := score;
            bestCol := col;
          }
        }
      }
    }

    /**
     * The body of the best-move loop: the computer drops into col and, when
     * the column accepts the disc, the reply is searched with the full window
     * and the disc is taken back.
     */
    method ScoreColumn(col: int) returns (played: bool, score: int)
      requires Valid() && 0 <= col < Cols
      modifies board
      ensures Grid() == old(Grid())
      ensures played == CanDrop(old(Grid()), col)
      ensures played ==> score == MoveScore(old(Grid()), col)
    {
      ghost var g := Grid();
      var row := DropDisc(col, Ai);
      played := row != -1;
      score := 0;
      if played {
        score := Minimax(0, false, IntMin, IntMax);
        UndoMove(row, col);
        UndoAfterDrop(g, col, Ai);
        AlphaBetaIsMinimax(Drop(g, col, Ai), 0, false);
      }
    }

    /** The effect of the computer's turn taken on board g with the turn flag at redBefore. */
    ghost predicate AiReplied(g: Grid, outcome: Outcome, after: Grid, red: bool, redBefore: bool)
      requires IsGrid(g)
    {
      var c := BestMove(g);
      if c == -1 then outcome == Crashed && after == g && red == redBefore
      else
        var moved := Drop(g, c, Ai);
        && after == moved
        && if HasWin(moved, Ai) then outcome == AiWon && red == redBefore
           else outcome == Continue && red
    }

    /**
     * The computer's turn: search, drop, then either announce the win or
     * hand the turn back. Dropping into the -1 that a board without an open
     * column yields fails, and the board is left as it was.
     */
    method HandleAIMove() returns (outcome: Outcome)
      requires Valid()
      modifies this`isRedTurn, board
      ensures Valid()
      ensures AiReplied(old(Grid()), outcome, Grid(), isRedTurn, old(isRedTurn))
    {
      ghost var g := Grid();
      var bestCol := GetBestMove();
      if bestCol == -1 {
        return Crashed;
      }
      assert CanDrop(g, bestCol);
      var row := DropDisc(bestCol, Ai);
      ghost var moved := Grid();
      outcome := Continue;
      if row != -1 {
        var won := CheckForWin(Ai);
        if won {
          assert AiReplied(g, AiWon, moved, isRedTurn, isRedTurn);
          return AiWon;
        }
        isRedTurn := true;
        assert Grid() == moved;
        assert AiReplied(g, Continue, moved, true, old(isRedTurn));
      }
    }

    /**
     * The human clicks column col. Outside the human's turn, or on a full
     * column, nothing happens; otherwise the human's disc is dropped and,
     * unless it wins, the turn passes to the computer, which replies at once.
     */
    method HandlePlayerMove(col: int) returns (outcome: Outcome)
      requires Valid() && 0 <= col < Cols
      modifies this`isRedTurn, board
      ensures Valid()
      ensures !old(isRedTurn) || !CanDrop(old(Grid()), col) ==>
                outcome == Ignored && Grid() == old(Grid()) && isRedTurn == old(isRedTurn)
      ensures old(isRedTurn) && CanDrop(old(Grid()), col) ==>
                var afterHuman := Drop(old(Grid()), col, Human);
                if HasWin(afterHuman, Human) then outcome == HumanWon && Grid() == afterHuman && isRedTurn
                else AiReplied(afterHuman, outcome, Grid(), isRedTurn, false)
      ensures old(Playing()) ==> outcome != Crashed
      ensures old(Playing()) && outcome == Continue ==> Playing()
    {
      outcome := Ignored;
      if isRedTurn {
        ghost var g := Grid();
        ghost var playing := Playing();
        var row := DropDisc(col, Human);
        if row != -1 {
          ghost var afterHuman := Grid();
          var won := CheckForWin(Human);
          if won {
            return HumanWon;
          }
          isRedTurn := false;
          assert Grid() == afterHuman;
          if playing {
            RoundKeepsPlaying(g, col);
          }
          outcome := HandleAIMove();
          assert AiReplied(afterHuman, outcome, Grid(), isRedTurn, false);
        }
      }
    }
  }
}
