/**
 * The connect-four grid as a value.
 *
 * Row 0 is the top of the board and row Rows - 1 the bottom; a cell holds
 * Empty (0), Human (1) or Ai (2). Discs fall under gravity: a drop fills the
 * empty cell with the highest row index in its column.
 */
module Board {

  const Rows: int := 6
  const Cols: int := 7

  const Empty: int := 0
  const Human: int := 1
  const Ai: int := 2

  type Grid = seq<seq<int>>

  /** g has the shape of the board: Rows rows of Cols cells each. */
  predicate IsGrid(g: Grid) {
    |g| == Rows && forall r :: 0 <= r < Rows ==> |g[r]| == Cols
  }

  /** The board a new game starts from. */
  function EmptyGrid(): (g: Grid)
    ensures IsGrid(g)
    ensures forall r, c :: 0 <= r < Rows && 0 <= c < Cols ==> g[r][c] == Empty
  {
    seq(Rows, _ => seq(Cols, _ => Empty))
  }

  /** Two boards holding the same value in every cell are the same board. */
  lemma SameCells(g: Grid, h: Grid)
    requires IsGrid(g) && IsGrid(h)
    requires forall r, c :: 0 <= r < Rows && 0 <= c < Cols ==> g[r][c] == h[r][c]
    ensures g == h
  {
    forall r | 0 <= r < Rows
      ensures g[r] == h[r]
    {
      assert |g[r]| == |h[r]| == Cols;
    }
  }

  /** The board with cell (r, c) set to v and every other cell as it was. */
  function Set(g: Grid, r: int, c: int, v: int): (h: Grid)
    requires IsGrid(g) && 0 <= r < Rows && 0 <= c < Cols
    ensures IsGrid(h) && h[r][c] == v
    ensures forall rr, cc {:trigger h[rr][cc]} :: 0 <= rr < Rows && 0 <= cc < Cols && (rr != r || cc != c) ==> h[rr][cc] == g[rr][cc]
  {
    g[r := g[r][c := v]]
  }

  /**
   * Scans column c from row k up to row 0 and yields the first empty row met,
   * or -1 when rows 0..k of the column are all occupied.
   */
  function ScanUp(g: Grid, c: int, k: int): (r: int)
    requires IsGrid(g) && 0 <= c < Cols && -1 <= k < Rows
    ensures -1 <= r <= k
    ensures r != -1 ==> g[r][c] == Empty
    decreases k + 1
  {
    if k < 0 then -1
    else if g[k][c] == Empty then k
    else ScanUp(g, c, k - 1)
  }

  /** The scan stops at the first empty row below k's end, and gives up only on a full stretch. */
  lemma {:induction false} ScanUpMeans(g: Grid, c: int, k: int)
    requires IsGrid(g) && 0 <= c < Cols && -1 <= k < Rows
    ensures ScanUp(g, c, k) == -1 <==> forall i :: 0 <= i <= k ==> g[i][c] != Empty
    ensures forall i :: ScanUp(g, c, k) < i <= k ==> g[i][c] != Empty
    decreases k + 1
  {
    if k >= 0 && g[k][c] != Empty {
      ScanUpMeans(g, c, k - 1);
    }
  }

  /** The row a disc dropped into column c lands in, or -1 when the column is full. */
  function DropRow(g: Grid, c: int): (r: int)
    requires IsGrid(g) && 0 <= c < Cols
    ensures -1 <= r < Rows
    ensures r != -1 ==> g[r][c] == Empty
  {
    ScanUp(g, c, Rows - 1)
  }

  /**
   * The landing row is the lowest empty cell of the column: every cell below
   * it is occupied, and there is none exactly when the column is full.
   */
  lemma DropRowMeans(g: Grid, c: int)
    requires IsGrid(g) && 0 <= c < Cols
    ensures DropRow(g, c) == -1 <==> forall i :: 0 <= i < Rows ==> g[i][c] != Empty
    ensures forall i :: DropRow(g, c) < i < Rows ==> g[i][c] != Empty
  {
    ScanUpMeans(g, c, Rows - 1);
  }

  /** Column c still accepts a disc. */
  predicate CanDrop(g: Grid, c: int)
    requires IsGrid(g) && 0 <= c < Cols
  {
    DropRow(g, c) != -1
  }

  /**
   * The board after player p drops a disc into column c: p lands in the
   * lowest empty cell of the column and nothing else changes; a full column
   * leaves the board as it was.
   */
  function Drop(g: Grid, c: int, p: int): (h: Grid)
    requires IsGrid(g) && 0 <= c < Cols
    ensures IsGrid(h)
    ensures !CanDrop(g, c) ==> h == g
    ensures CanDrop(g, c) ==> h[DropRow(g, c)][c] == p
    ensures forall rr, cc {:trigger h[rr][cc]} :: 0 <= rr < Rows && 0 <= cc < Cols && (rr != DropRow(g, c) || cc != c) ==> h[rr][cc] == g[rr][cc]
  {
    var r := DropRow(g, c);
    if r == -1 then g else Set(g, r, c, p)
  }

  /** Clearing the cell a drop has just filled gives back the board before the drop. */
  lemma UndoAfterDrop(g: Grid, c: int, p: int)
    requires IsGrid(g) && 0 <= c < Cols && CanDrop(g, c)
    ensures Set(Drop(g, c, p), DropRow(g, c), c, Empty) == g
  {
    SameCells(Set(Drop(g, c, p), DropRow(g, c), c, Empty), g);
  }

  /** The top row has no empty cell. */
  predicate IsFull(g: Grid)
    requires IsGrid(g)
  {
    forall c :: 0 <= c < Cols ==> g[0][c] != Empty
  }

  /** Gravity: above an empty cell every cell of the same column is empty. */
  predicate Settled(g: Grid)
    requires IsGrid(g)
  {
    forall r1, r2, c :: 0 <= r1 <= r2 < Rows && 0 <= c < Cols && g[r2][c] == Empty ==> g[r1][c] == Empty
  }

  lemma EmptyGridSettled()
    ensures Settled(EmptyGrid())
  {
  }

  /** A drop of a real disc keeps a settled board settled. */
  lemma DropKeepsSettled(g: Grid, c: int, p: int)
    requires IsGrid(g) && 0 <= c < Cols && Settled(g) && p != Empty
    ensures Settled(Drop(g, c, p))
  {
    var h := Drop(g, c, p);
    if CanDrop(g, c) {
      var r := DropRow(g, c);
      DropRowMeans(g, c);
      forall r1, r2, cc | 0 <= r1 <= r2 < Rows && 0 <= cc < Cols && h[r2][cc] == Empty
        ensures h[r1][cc] == Empty
      {
        if cc == c {
          assert r2 < r;
          assert g[r2][cc] == Empty;
        }
      }
    }
  }

  /**
   * On a settled board the top-row test is exact: the board is full
   * exactly when no column accepts a disc.
   */
  lemma FullIffNoDrop(g: Grid)
    requires IsGrid(g) && Settled(g)
    ensures IsFull(g) <==> forall c :: 0 <= c < Cols ==> !CanDrop(g, c)
  {
    if IsFull(g) {
      forall c | 0 <= c < Cols
        ensures !CanDrop(g, c)
      {
        DropRowMeans(g, c);
        forall i | 0 <= i < Rows
          ensures g[i][c] != Empty
        {
          assert g[0][c] != Empty;
        }
      }
    } else {
      var c :| 0 <= c < Cols && g[0][c] == Empty;
      OpenTopCanDrop(g, c);
    }
  }

  /** A top cell that is empty means its column accepts a disc. */
  lemma OpenTopCanDrop(g: Grid, c: int)
    requires IsGrid(g) && 0 <= c < Cols && g[0][c] == Empty
    ensures CanDrop(g, c)
  {
    DropRowMeans(g, c);
    assert !(forall i :: 0 <= i < Rows ==> g[i][c] != Empty) by {
      assert g[0][c] == Empty;
    }
  }

  /** Number of occupied cells of a row. */
  function CountRow(row: seq<int>): (n: nat)
    ensures n <= |row|
    ensures n == |row| <==> forall i :: 0 <= i < |row| ==> row[i] != Empty
  {
    if row == [] then 0
    else (if row[0] != Empty then 1 else 0) + CountRow(row[1..])
  }

  /** Number of occupied cells in rows of Cols cells each. */
  function CountCells(g: Grid): (n: nat)
    requires forall r :: 0 <= r < |g| ==> |g[r]| == Cols
    ensures n <= Cols * |g|
    ensures n == Cols * |g| <==> forall r, c :: 0 <= r < |g| && 0 <= c < Cols ==> g[r][c] != Empty
  {
    if g == [] then 0
    else CountRow(g[0]) + CountCells(g[1..])
  }

  /** A row with no disc counts zero. */
  lemma {:induction false} CountRowEmpty(row: seq<int>)
    requires forall i :: 0 <= i < |row| ==> row[i] == Empty
    ensures CountRow(row) == 0
    decreases |row|
  {
    if row != [] {
      CountRowEmpty(row[1..]);
    }
  }

  /** Rows with no disc count zero. */
  lemma {:induction false} CountCellsEmpty(g: Grid)
    requires forall r :: 0 <= r < |g| ==> |g[r]| == Cols
    requires forall r, c :: 0 <= r < |g| && 0 <= c < Cols ==> g[r][c] == Empty
    ensures CountCells(g) == 0
    decreases |g|
  {
    if g != [] {
      CountRowEmpty(g[0]);
      CountCellsEmpty(g[1..]);
    }
  }

  lemma {:induction false} CountRowSet(row: seq<int>, c: int, v: int)
    requires 0 <= c < |row| && row[c] == Empty && v != Empty
    ensures CountRow(row[c := v]) == CountRow(row) + 1
    decreases c
  {
    if c > 0 {
      CountRowSet(row[1..], c - 1, v);
      assert row[c := v][1..] == row[1..][c - 1 := v];
    }
  }

  lemma {:induction false} CountCellsSet(g: Grid, r: int, row: seq<int>)
    requires forall i :: 0 <= i < |g| ==> |g[i]| == Cols
    requires 0 <= r < |g| && |row| == Cols
    ensures CountCells(g[r := row]) == CountCells(g) - CountRow(g[r]) + CountRow(row)
    decreases r
  {
    if r > 0 {
      CountCellsSet(g[1..], r - 1, row);
      assert g[r := row][1..] == g[1..][r - 1 := row];
    }
  }

  /** Every successful drop of a real disc adds exactly one occupied cell. */
  lemma DropCount(g: Grid, c: int, p: int)
    requires IsGrid(g) && 0 <= c < Cols && CanDrop(g, c) && p != Empty
    ensures CountCells(Drop(g, c, p)) == CountCells(g) + 1
  {
    var r := DropRow(g, c);
    CountRowSet(g[r], c, p);
    CountCellsSet(g, r, g[r][c := p]);
  }

  /**
   * The board has an even number of cells, so a settled board holding an
   * odd number of discs still has room in its top row.
   */
  lemma OddCountNotFull(g: Grid)
    requires IsGrid(g) && Settled(g) && CountCells(g) % 2 == 1
    ensures !IsFull(g)
  {
    assert CountCells(g) != Cols * Rows;
    var r, c :| 0 <= r < Rows && 0 <= c < Cols && g[r][c] == Empty;
    assert g[0][c] == Empty;
  }
}
