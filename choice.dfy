/**
 * The computer's column choice, apart from how columns are scored: scanning
 * the columns left to right, a column replaces the best so far only when it
 * is open and scores strictly more, starting from no column (-1) and the
 * 32-bit minimum as the best score.
 */
module Choice {

  /** The 32-bit sentinels the search starts its extremum and window from. */
  const IntMin: int := -0x8000_0000
  const IntMax: int := 0x7fff_ffff

  /** One open flag and one score per column, every score above the starting best score. */
  predicate WellScored(open: seq<bool>, score: seq<int>) {
    |open| == |score| && forall k :: 0 <= k < |score| ==> IntMin < score[k]
  }

  /**
   * col is the first open column of greatest score, or -1 when no column is
   * open.
   */
  predicate IsFirstMax(open: seq<bool>, score: seq<int>, col: int)
    requires |open| == |score|
  {
    if col == -1 then forall k :: 0 <= k < |open| ==> !open[k]
    else
      && 0 <= col < |open| && open[col]
      && (forall k :: 0 <= k < |open| && open[k] ==> score[k] <= score[col])
      && (forall k :: 0 <= k < col && open[k] ==> score[k] < score[col])
  }

  /** The state of the scan once it has looked at columns 0..c-1. */
  predicate FirstMaxSoFar(open: seq<bool>, score: seq<int>, c: int, bestCol: int, bestScore: int)
    requires |open| == |score| && 0 <= c <= |open|
  {
    if bestCol == -1 then bestScore == IntMin && forall k :: 0 <= k < c ==> !open[k]
    else
      && 0 <= bestCol < c && open[bestCol] && bestScore == score[bestCol]
      && (forall k :: 0 <= k < c && open[k] ==> score[k] <= bestScore)
      && (forall k :: 0 <= k < bestCol && open[k] ==> score[k] < bestScore)
  }

  /** What the scan returns when it resumes at column c in the given state. */
  function FirstMaxFrom(open: seq<bool>, score: seq<int>, c: int, bestCol: int, bestScore: int): (col: int)
    requires WellScored(open, score) && 0 <= c <= |open| && FirstMaxSoFar(open, score, c, bestCol, bestScore)
    ensures IsFirstMax(open, score, col)
    decreases |open| - c
  {
    if c == |open| then bestCol
    else if open[c] && score[c] > bestScore then FirstMaxFrom(open, score, c + 1, c, score[c])
    else FirstMaxFrom(open, score, c + 1, bestCol, bestScore)
  }

  /** The whole scan. */
  function FirstMax(open: seq<bool>, score: seq<int>): (col: int)
    requires WellScored(open, score)
    ensures IsFirstMax(open, score, col)
  {
    FirstMaxFrom(open, score, 0, -1, IntMin)
  }

  /** One step of the scan keeps its state well formed and its final answer unchanged. */
  lemma FirstMaxStep(open: seq<bool>, score: seq<int>, c: int, bestCol: int, bestScore: int)
    requires WellScored(open, score) && 0 <= c < |open| && FirstMaxSoFar(open, score, c, bestCol, bestScore)
    ensures open[c] && score[c] > bestScore ==>
              FirstMaxSoFar(open, score, c + 1, c, score[c]) &&
              FirstMaxFrom(open, score, c, bestCol, bestScore) == FirstMaxFrom(open, score, c + 1, c, score[c])
    ensures !(open[c] && score[c] > bestScore) ==>
              FirstMaxSoFar(open, score, c + 1, bestCol, bestScore) &&
              FirstMaxFrom(open, score, c, bestCol, bestScore) == FirstMaxFrom(open, score, c + 1, bestCol, bestScore)
  {
  }

  /** At most one column is the first open column of greatest score. */
  lemma FirstMaxUnique(open: seq<bool>, score: seq<int>, c1: int, c2: int)
    requires |open| == |score| && IsFirstMax(open, score, c1) && IsFirstMax(open, score, c2)
    ensures c1 == c2
  {
  }
}
