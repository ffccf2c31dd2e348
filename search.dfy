/**
 * The computer's search, as functions of the board: the leaf evaluator, a
 * plain depth-bounded minimax that serves as the reference, the fail-soft
 * alpha-beta search the engine runs (children in ascending column order,
 * cut-off once beta <= alpha), and the choice of the computer's move.
 */
module Search {
  import opened Board
  import opened Win
  import opened Choice

  const MaxDepth: nat := 5
  const WinScore: int := 1000

  function Max(a: int, b: int): int { if a >= b then a else b }
  function Min(a: int, b: int): int { if a <= b then a else b }

  /** Whose disc a ply drops: the computer maximizes, the human minimizes. */
  function Mover(maximizing: bool): int { if maximizing then Ai else Human }

  /** The per-direction pattern score: an unimplemented stub contributing nothing. */
  function DirectionScore(g: Grid, dRow: int, dCol: int, p: int): int
    requires IsGrid(g)
  {
    0
  }

  /**
   * The leaf evaluation: the computer's four directional scores minus the
   * human's. Since every directional score is 0, so is the evaluation.
   */
  function Evaluate(g: Grid): (score: int)
    requires IsGrid(g)
    ensures score == 0
  {
    DirectionScore(g, 1, 0, Ai) + DirectionScore(g, 0, 1, Ai) +
    DirectionScore(g, 1, 1, Ai) + DirectionScore(g, 1, -1, Ai) -
    DirectionScore(g, 1, 0, Human) - DirectionScore(g, 0, 1, Human) -
    DirectionScore(g, 1, 1, Human) - DirectionScore(g, 1, -1, Human)
  }

  /** The search stops here: someone has won, the top row is full, or the depth bound is reached. */
  ghost predicate IsLeaf(g: Grid, depth: nat)
    requires IsGrid(g)
  {
    HasWin(g, Ai) || HasWin(g, Human) || IsFull(g) || depth == MaxDepth
  }

  /**
   * The score of a leaf. A computer win is checked first and scores
   * WinScore - depth; a human win scores -WinScore + depth; any other leaf
   * gets the evaluation.
   */
  ghost function LeafScore(g: Grid, depth: nat): (s: int)
    requires IsGrid(g) && depth <= MaxDepth && IsLeaf(g, depth)
    ensures HasWin(g, Ai) ==> s == WinScore - depth
    ensures !HasWin(g, Ai) && HasWin(g, Human) ==> s == -WinScore + depth
    ensures !HasWin(g, Ai) && !HasWin(g, Human) ==> s == 0
    ensures -WinScore <= s <= WinScore
  {
    if HasWin(g, Ai) then WinScore - depth
    else if HasWin(g, Human) then -WinScore + depth
    else Evaluate(g)
  }

  /** Plain minimax: the value of the position, no pruning. */
  ghost function Value(g: Grid, depth: nat, maximizing: bool): int
    requires IsGrid(g) && depth <= MaxDepth
    decreases MaxDepth - depth, Cols + 1
  {
    if IsLeaf(g, depth) then LeafScore(g, depth)
    else Best(g, depth, maximizing, 0)
  }

  /**
   * The extremum of the children's values over the columns c.. that accept a
   * disc, or the sentinel of the side to move when none does.
   */
  ghost function Best(g: Grid, depth: nat, maximizing: bool, c: int): (v: int)
    requires IsGrid(g) && depth < MaxDepth && 0 <= c <= Cols
    ensures maximizing ==> IntMin <= v
    ensures !maximizing ==> v <= IntMax
    decreases MaxDepth - depth, Cols - c
  {
    if c == Cols then (if maximizing then IntMin else IntMax)
    else if !CanDrop(g, c) then Best(g, depth, maximizing, c + 1)
    else
      var child := Value(Drop(g, c, Mover(maximizing)), depth + 1, !maximizing);
      var rest := Best(g, depth, maximizing, c + 1);
      if maximizing then Max(child, rest) else Min(child, rest)
  }

  /** Alpha-beta minimax with the window (alpha, beta). */
  ghost function AlphaBeta(g: Grid, depth: nat, maximizing: bool, alpha: int, beta: int): int
    requires IsGrid(g) && depth <= MaxDepth
    decreases MaxDepth - depth, Cols + 1
  {
    if IsLeaf(g, depth) then LeafScore(g, depth)
    else if maximizing then Sweep(g, depth, true, 0, alpha, beta, IntMin)
    else Sweep(g, depth, false, 0, alpha, beta, IntMax)
  }

  /**
   * The remaining iterations of the alpha-beta column loop from column c on,
   * with the running window (alpha, beta) and running extremum acc: each
   * child is searched with the current window, then the extremum and the
   * window are updated, and the loop stops once beta <= alpha.
   */
  ghost function Sweep(g: Grid, depth: nat, maximizing: bool, c: int, alpha: int, beta: int, acc: int): int
    requires IsGrid(g) && depth < MaxDepth && 0 <= c <= Cols
    decreases MaxDepth - depth, Cols - c
  {
    if c == Cols then acc
    else if !CanDrop(g, c) then Sweep(g, depth, maximizing, c + 1, alpha, beta, acc)
    else
      var v := AlphaBeta(Drop(g, c, Mover(maximizing)), depth + 1, !maximizing, alpha, beta);
      if maximizing then
        var acc', alpha' := Max(acc, v), Max(alpha, v);
        if beta <= alpha' then acc' else Sweep(g, depth, true, c + 1, alpha', beta, acc')
      else
        var acc', beta' := Min(acc, v), Min(beta, v);
        if beta' <= alpha then acc' else Sweep(g, depth, false, c + 1, alpha, beta', acc')
  }

  predicate InScoreRange(v: int) { -WinScore <= v <= WinScore }

  /** A position that is not a leaf has a column that accepts a disc. */
  lemma InnerNodeHasMove(g: Grid, depth: nat) returns (k: int)
    requires IsGrid(g) && !IsLeaf(g, depth)
    ensures 0 <= k < Cols && CanDrop(g, k)
  {
    k :| 0 <= k < Cols && g[0][k] == Empty;
    OpenTopCanDrop(g, k);
  }

  /** Minimax values never leave [-WinScore, WinScore]: no sentinel escapes an inner node. */
  lemma {:induction false} ValueRange(g: Grid, depth: nat, maximizing: bool)
    requires IsGrid(g) && depth <= MaxDepth
    ensures InScoreRange(Value(g, depth, maximizing))
    decreases MaxDepth - depth, Cols + 1
  {
    if !IsLeaf(g, depth) {
      var k := InnerNodeHasMove(g, depth);
      BestRange(g, depth, maximizing, 0, k);
    }
  }

  /** Combining a score with a score or with the sentinel of the side to move gives a score. */
  lemma ExtremumRange(maximizing: bool, child: int, rest: int)
    requires InScoreRange(child)
    requires InScoreRange(rest) || rest == (if maximizing then IntMin else IntMax)
    ensures InScoreRange(if maximizing then Max(child, rest) else Min(child, rest))
  {
  }

  /**
   * The extremum over columns c.. is a score or, when none of them accepts
   * a disc, the sentinel; an open column k among them rules the sentinel out.
   */
  lemma {:induction false} BestRange(g: Grid, depth: nat, maximizing: bool, c: int, k: int)
    requires IsGrid(g) && depth < MaxDepth && 0 <= c <= Cols
    ensures InScoreRange(Best(g, depth, maximizing, c)) ||
            Best(g, depth, maximizing, c) == (if maximizing then IntMin else IntMax)
    ensures c <= k < Cols && CanDrop(g, k) ==> InScoreRange(Best(g, depth, maximizing, c))
    decreases MaxDepth - depth, Cols - c
  {
    if c < Cols {
      BestRange(g, depth, maximizing, c + 1, k);
      var rest := Best(g, depth, maximizing, c + 1);
      if CanDrop(g, c) {
        var child := Value(Drop(g, c, Mover(maximizing)), depth + 1, !maximizing);
        ValueRange(Drop(g, c, Mover(maximizing)), depth + 1, !maximizing);
        assert Best(g, depth, maximizing, c) == if maximizing then Max(child, rest) else Min(child, rest);
        ExtremumRange(maximizing, child, rest);
      } else {
        assert Best(g, depth, maximizing, c) == rest;
      }
    }
  }

  /**
   * Alpha-beta results stay in [-WinScore, WinScore] whatever the window:
   * an inner node always searches at least one child before it can cut off,
   * so the sentinel it starts from is never returned.
   */
  lemma {:induction false} AlphaBetaRange(g: Grid, depth: nat, maximizing: bool, alpha: int, beta: int)
    requires IsGrid(g) && depth <= MaxDepth
    ensures InScoreRange(AlphaBeta(g, depth, maximizing, alpha, beta))
    decreases MaxDepth - depth, Cols + 1
  {
    if !IsLeaf(g, depth) {
      var k := InnerNodeHasMove(g, depth);
      SweepRange(g, depth, maximizing, 0, alpha, beta, if maximizing then IntMin else IntMax, k);
    }
  }

  /**
   * The rest of a column loop returns a score when its running extremum acc
   * already is one, or when an open column k is still ahead of it.
   */
  lemma {:induction false} SweepRange(g: Grid, depth: nat, maximizing: bool, c: int, alpha: int, beta: int, acc: int, k: int)
    requires IsGrid(g) && depth < MaxDepth && 0 <= c <= Cols
    requires acc == (if maximizing then IntMin else IntMax) || InScoreRange(acc)
    requires InScoreRange(acc) || (c <= k < Cols && CanDrop(g, k))
    ensures InScoreRange(Sweep(g, depth, maximizing, c, alpha, beta, acc))
    decreases MaxDepth - depth, Cols - c
  {
    if c < Cols {
      if !CanDrop(g, c) {
        SweepRange(g, depth, maximizing, c + 1, alpha, beta, acc, k);
      } else {
        var v := AlphaBeta(Drop(g, c, Mover(maximizing)), depth + 1, !maximizing, alpha, beta);
        AlphaBetaRange(Drop(g, c, Mover(maximizing)), depth + 1, !maximizing, alpha, beta);
        ExtremumRange(maximizing, v, acc);
        if maximizing {
          var acc', alpha' := Max(v, acc), Max(alpha, v);
          if alpha' < beta {
            SweepRange(g, depth, true, c + 1, alpha', beta, acc', k);
            assert Sweep(g, depth, true, c, alpha, beta, acc) == Sweep(g, depth, true, c + 1, alpha', beta, acc');
          } else {
            assert Sweep(g, depth, true, c, alpha, beta, acc) == acc';
          }
        } else {
          var acc', beta' := Min(v, acc), Min(beta, v);
          if alpha < beta' {
            SweepRange(g, depth, false, c + 1, alpha, beta', acc', k);
            assert Sweep(g, depth, false, c, alpha, beta, acc) == Sweep(g, depth, false, c + 1, alpha, beta', acc');
          } else {
            assert Sweep(g, depth, false, c, alpha, beta, acc) == acc';
          }
        }
      }
    }
  }

  /**
   * The fail-soft guarantee of alpha-beta search against the true value mm
   * for a window (alpha, beta): a result inside the window is exact, a
   * result at or below alpha bounds mm from above, a result at or above beta
   * bounds it from below.
   */
  ghost predicate FailSoft(v: int, mm: int, alpha: int, beta: int) {
    && (v <= alpha ==> mm <= v)
    && (alpha < v < beta ==> v == mm)
    && (beta <= v ==> v <= mm)
  }

  /** Alpha-beta is fail-soft correct for every non-empty window of 32-bit bounds. */
  lemma {:induction false} AlphaBetaFailSoft(g: Grid, depth: nat, maximizing: bool, alpha: int, beta: int)
    requires IsGrid(g) && depth <= MaxDepth
    requires IntMin <= alpha < beta <= IntMax
    ensures FailSoft(AlphaBeta(g, depth, maximizing, alpha, beta), Value(g, depth, maximizing), alpha, beta)
    decreases MaxDepth - depth, Cols + 1
  {
    if !IsLeaf(g, depth) {
      if maximizing {
        SweepMaxFailSoft(g, depth, 0, alpha, beta, IntMin, IntMin);
      } else {
        SweepMinFailSoft(g, depth, 0, alpha, beta, IntMax, IntMax);
      }
    }
  }

  /**
   * The bookkeeping after one child of a maximizing node has been searched
   * with the window (Max(alpha0, acc), beta): the child's result v is
   * fail-soft against its true value mi.
   */
  lemma MaxChildStep(alpha0: int, beta: int, acc: int, m: int, v: int, mi: int, rest: int, tail: int)
    requires Max(alpha0, acc) < beta
    requires m <= acc && (alpha0 < acc ==> m == acc)
    requires FailSoft(v, mi, Max(alpha0, acc), beta)
    ensures beta <= Max(Max(alpha0, acc), v) ==> FailSoft(Max(acc, v), Max(m, Max(mi, rest)), alpha0, beta)
    ensures Max(Max(alpha0, acc), v) < beta ==>
              && Max(Max(alpha0, acc), v) == Max(alpha0, Max(acc, v))
              && Max(m, mi) <= Max(acc, v) && (alpha0 < Max(acc, v) ==> Max(m, mi) == Max(acc, v))
              && (FailSoft(tail, Max(Max(m, mi), rest), alpha0, beta) ==> FailSoft(tail, Max(m, Max(mi, rest)), alpha0, beta))
  {
  }

  /** The mirror image of MaxChildStep for a minimizing node. */
  lemma MinChildStep(alpha: int, beta0: int, acc: int, m: int, v: int, mi: int, rest: int, tail: int)
    requires alpha < Min(beta0, acc)
    requires acc <= m && (acc < beta0 ==> m == acc)
    requires FailSoft(v, mi, alpha, Min(beta0, acc))
    ensures Min(Min(beta0, acc), v) <= alpha ==> FailSoft(Min(acc, v), Min(m, Min(mi, rest)), alpha, beta0)
    ensures alpha < Min(Min(beta0, acc), v) ==>
              && Min(Min(beta0, acc), v) == Min(beta0, Min(acc, v))
              && Min(acc, v) <= Min(m, mi) && (Min(acc, v) < beta0 ==> Min(m, mi) == Min(acc, v))
              && (FailSoft(tail, Min(Min(m, mi), rest), alpha, beta0) ==> FailSoft(tail, Min(m, Min(mi, rest)), alpha, beta0))
  {
  }

  /**
   * Loop invariant of a maximizing node whose window came in as
   * (alpha0, beta): acc is the largest alpha-beta result so far and m the
   * largest true child value so far; m never exceeds acc, and the two agree
   * once acc has risen above alpha0.
   */
  lemma {:induction false} SweepMaxFailSoft(g: Grid, depth: nat, c: int, alpha0: int, beta: int, acc: int, m: int)
    requires IsGrid(g) && depth < MaxDepth && 0 <= c <= Cols
    requires IntMin <= alpha0 < beta <= IntMax
    requires Max(alpha0, acc) < beta
    requires IntMin <= m <= acc && (alpha0 < acc ==> m == acc)
    ensures FailSoft(Sweep(g, depth, true, c, Max(alpha0, acc), beta, acc), Max(m, Best(g, depth, true, c)), alpha0, beta)
    decreases MaxDepth - depth, Cols - c
  {
    if c < Cols {
      if !CanDrop(g, c) {
        SweepMaxFailSoft(g, depth, c + 1, alpha0, beta, acc, m);
      } else {
        var child := Drop(g, c, Ai);
        var alpha := Max(alpha0, acc);
        var v := AlphaBeta(child, depth + 1, false, alpha, beta);
        var mi := Value(child, depth + 1, false);
        AlphaBetaFailSoft(child, depth + 1, false, alpha, beta);
        var rest := Best(g, depth, true, c + 1);
        assert Best(g, depth, true, c) == Max(mi, rest);
        var tail := Sweep(g, depth, true, c + 1, Max(alpha, v), beta, Max(acc, v));
        MaxChildStep(alpha0, beta, acc, m, v, mi, rest, tail);
        if Max(alpha, v) < beta {
          SweepMaxFailSoft(g, depth, c + 1, alpha0, beta, Max(acc, v), Max(m, mi));
        }
      }
    }
  }

  /** The mirror image of SweepMaxFailSoft for a minimizing node. */
  lemma {:induction false} SweepMinFailSoft(g: Grid, depth: nat, c: int, alpha: int, beta0: int, acc: int, m: int)
    requires IsGrid(g) && depth < MaxDepth && 0 <= c <= Cols
    requires IntMin <= alpha < beta0 <= IntMax
    requires alpha < Min(beta0, acc)
    requires acc <= m <= IntMax && (acc < beta0 ==> m == acc)
    ensures FailSoft(Sweep(g, depth, false, c, alpha, Min(beta0, acc), acc), Min(m, Best(g, depth, false, c)), alpha, beta0)
    decreases MaxDepth - depth, Cols - c
  {
    if c < Cols {
      if !CanDrop(g, c) {
        SweepMinFailSoft(g, depth, c + 1, alpha, beta0, acc, m);
      } else {
        var child := Drop(g, c, Human);
        var beta := Min(beta0, acc);
        var v := AlphaBeta(child, depth + 1, true, alpha, beta);
        var mi := Value(child, depth + 1, true);
        AlphaBetaFailSoft(child, depth + 1, true, alpha, beta);
        var rest := Best(g, depth, false, c + 1);
        assert Best(g, depth, false, c) == Min(mi, rest);
        var tail := Sweep(g, depth, false, c + 1, alpha, Min(beta, v), Min(acc, v));
        MinChildStep(alpha, beta0, acc, m, v, mi, rest, tail);
        if alpha < Min(beta, v) {
          SweepMinFailSoft(g, depth, c + 1, alpha, beta0, Min(acc, v), Min(m, mi));
        }
      }
    }
  }

  /**
   * Called with the full 32-bit window, alpha-beta returns exactly the plain
   * minimax value over the same move order and depth bound.
   */
  lemma AlphaBetaIsMinimax(g: Grid, depth: nat, maximizing: bool)
    requires IsGrid(g) && depth <= MaxDepth
    ensures AlphaBeta(g, depth, maximizing, IntMin, IntMax) == Value(g, depth, maximizing)
  {
    AlphaBetaFailSoft(g, depth, maximizing, IntMin, IntMax);
    ValueRange(g, depth, maximizing);
  }

  /** A win seen sooner scores strictly better for the winner than one seen later. */
  lemma SoonerWinScoresMore(g: Grid, d1: nat, h: Grid, d2: nat, m1: bool, m2: bool)
    requires IsGrid(g) && IsGrid(h) && d1 < d2 <= MaxDepth
    ensures HasWin(g, Ai) && HasWin(h, Ai) ==> Value(g, d1, m1) > Value(h, d2, m2)
    ensures !HasWin(g, Ai) && HasWin(g, Human) && !HasWin(h, Ai) && HasWin(h, Human) ==>
              Value(g, d1, m1) < Value(h, d2, m2)
  {
  }

  /** The score of the computer's trial drop into column c: the human replies next, from depth 0. */
  ghost function MoveScore(g: Grid, c: int): (s: int)
    requires IsGrid(g) && 0 <= c < Cols
    ensures InScoreRange(s)
  {
    ValueRange(Drop(g, c, Ai), 0, false);
    Value(Drop(g, c, Ai), 0, false)
  }

  /**
   * col is the computer's choice: -1 when no column accepts a disc, and
   * otherwise an open column of maximal score, the lowest-indexed one among
   * equal scores.
   */
  ghost predicate IsBestMove(g: Grid, col: int)
    requires IsGrid(g)
  {
    if col == -1 then forall k :: 0 <= k < Cols ==> !CanDrop(g, k)
    else
      && 0 <= col < Cols && CanDrop(g, col)
      && (forall k :: 0 <= k < Cols && CanDrop(g, k) ==> MoveScore(g, k) <= MoveScore(g, col))
      && (forall k :: 0 <= k < col && CanDrop(g, k) ==> MoveScore(g, k) < MoveScore(g, col))
  }

  /** Which columns accept a disc. */
  ghost function Opens(g: Grid): (open: seq<bool>)
    requires IsGrid(g)
    ensures |open| == Cols && forall k :: 0 <= k < Cols ==> open[k] == CanDrop(g, k)
  {
    seq(Cols, k requires 0 <= k < Cols => CanDrop(g, k))
  }

  /** The score of every column's trial drop. */
  ghost function Scores(g: Grid): (score: seq<int>)
    requires IsGrid(g)
    ensures |score| == Cols && forall k :: 0 <= k < Cols ==> score[k] == MoveScore(g, k)
  {
    seq(Cols, k requires 0 <= k < Cols => MoveScore(g, k))
  }

  /** The first open column of greatest score is the best move as IsBestMove states it. */
  lemma FirstMaxIsBest(g: Grid, col: int)
    requires IsGrid(g) && IsFirstMax(Opens(g), Scores(g), col)
    ensures IsBestMove(g, col)
  {
    var open, score := Opens(g), Scores(g);
    if col != -1 {
      forall k | 0 <= k < Cols && CanDrop(g, k)
        ensures MoveScore(g, k) <= MoveScore(g, col)
      {
        assert open[k];
      }
      forall k | 0 <= k < col && CanDrop(g, k)
        ensures MoveScore(g, k) < MoveScore(g, col)
      {
        assert open[k];
      }
    } else {
      forall k | 0 <= k < Cols
        ensures !CanDrop(g, k)
      {
        assert !open[k];
      }
    }
  }

  /** The computer's move on board g: the scan of getBestMove over the columns' scores. */
  ghost function BestMove(g: Grid): (col: int)
    requires IsGrid(g)
    ensures IsBestMove(g, col)
  {
    var col := FirstMax(Opens(g), Scores(g));
    FirstMaxIsBest(g, col);
    col
  }

  /** When some column accepts a disc, the computer's choice is an open column. */
  lemma BestMoveIsOpen(g: Grid, k: int)
    requires IsGrid(g) && 0 <= k < Cols && CanDrop(g, k)
    ensures 0 <= BestMove(g) < Cols && CanDrop(g, BestMove(g))
  {
  }

  /** On the empty board the computer's choice is a real column. */
  lemma EmptyBoardHasMove()
    ensures 0 <= BestMove(EmptyGrid()) < Cols
  {
    OpenTopCanDrop(EmptyGrid(), 0);
    BestMoveIsOpen(EmptyGrid(), 0);
  }

  /** At most one column is the best move. */
  lemma BestMoveUnique(g: Grid, c1: int, c2: int)
    requires IsGrid(g) && IsBestMove(g, c1) && IsBestMove(g, c2)
    ensures c1 == c2
  {
  }
}
