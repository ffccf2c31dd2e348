/**
 * Four-in-a-row detection. A run starts at a cell and follows a direction
 * vector (dRow, dCol); it counts only when all four of its cells lie on the
 * board and hold the player's disc, so a run never wraps around an edge.
 */
module Win {
  import opened Board

  /** Cell (r, c) lies on the board and holds p. */
  predicate Owns(g: Grid, r: int, c: int, p: int)
    requires IsGrid(g)
  {
    0 <= r < Rows && 0 <= c < Cols && g[r][c] == p
  }

  /** The i-th cell of the ray from (r, c) along (dRow, dCol) is p's. */
  predicate OwnsStep(g: Grid, r: int, c: int, dRow: int, dCol: int, i: int, p: int)
    requires IsGrid(g)
  {
    Owns(g, r + i * dRow, c + i * dCol, p)
  }

  /** Four cells of p in a row, starting at (r, c) and going along (dRow, dCol). */
  predicate RunOfFour(g: Grid, r: int, c: int, dRow: int, dCol: int, p: int)
    requires IsGrid(g)
  {
    Owns(g, r, c, p) && Owns(g, r + dRow, c + dCol, p) &&
    Owns(g, r + 2 * dRow, c + 2 * dCol, p) && Owns(g, r + 3 * dRow, c + 3 * dCol, p)
  }

  /** A run of four is the first four steps of its ray. */
  lemma RunIsFourSteps(g: Grid, r: int, c: int, dRow: int, dCol: int, p: int)
    requires IsGrid(g)
    ensures RunOfFour(g, r, c, dRow, dCol, p) <==> forall i :: 0 <= i < 4 ==> OwnsStep(g, r, c, dRow, dCol, i, p)
  {
    if !RunOfFour(g, r, c, dRow, dCol, p) {
      if !Owns(g, r, c, p) {
        assert !OwnsStep(g, r, c, dRow, dCol, 0, p);
      } else if !Owns(g, r + dRow, c + dCol, p) {
        assert !OwnsStep(g, r, c, dRow, dCol, 1, p);
      } else if !Owns(g, r + 2 * dRow, c + 2 * dCol, p) {
        assert !OwnsStep(g, r, c, dRow, dCol, 2, p);
      } else {
        assert !OwnsStep(g, r, c, dRow, dCol, 3, p);
      }
    } else {
      forall i | 0 <= i < 4
        ensures OwnsStep(g, r, c, dRow, dCol, i, p)
      {
        assert i == 0 || i == 1 || i == 2 || i == 3;
      }
    }
  }

  /** No run starts on a cell that is not p's. */
  lemma NoRunFromOtherCell(g: Grid, r: int, c: int, p: int)
    requires IsGrid(g) && !Owns(g, r, c, p)
    ensures !WinAt(g, r, c, p)
  {
  }

  /**
   * A run of p starts at (r, c) in one of the four directions: down the
   * column (1, 0), along the row (0, 1), and the two diagonals (1, 1) and
   * (1, -1). With the start cell free to be any end of a run, these four
   * cover every line on the board.
   */
  predicate WinAt(g: Grid, r: int, c: int, p: int)
    requires IsGrid(g)
  {
    RunOfFour(g, r, c, 1, 0, p) || RunOfFour(g, r, c, 0, 1, p) ||
    RunOfFour(g, r, c, 1, 1, p) || RunOfFour(g, r, c, 1, -1, p)
  }

  /** Player p has four in a row somewhere on the board. */
  ghost predicate HasWin(g: Grid, p: int)
    requires IsGrid(g)
  {
    exists r, c :: 0 <= r < Rows && 0 <= c < Cols && WinAt(g, r, c, p)
  }

  /**
   * Some cell at or after (r, c), in the row-by-row order the board is
   * scanned in, starts a run of four of p.
   */
  predicate WinFrom(g: Grid, p: int, r: int, c: int)
    requires IsGrid(g) && 0 <= r <= Rows && 0 <= c <= Cols
    decreases Rows - r, Cols - c
  {
    if r == Rows then false
    else if c == Cols then WinFrom(g, p, r + 1, 0)
    else WinAt(g, r, c, p) || WinFrom(g, p, r, c + 1)
  }

  lemma {:induction false} WinFromMeans(g: Grid, p: int, r: int, c: int)
    requires IsGrid(g) && 0 <= r <= Rows && 0 <= c <= Cols
    ensures WinFrom(g, p, r, c) <==>
            exists rr, cc :: 0 <= rr < Rows && 0 <= cc < Cols && (r < rr || (r == rr && c <= cc)) && WinAt(g, rr, cc, p)
    decreases Rows - r, Cols - c
  {
    if r < Rows {
      if c == Cols {
        WinFromMeans(g, p, r + 1, 0);
      } else {
        WinFromMeans(g, p, r, c + 1);
      }
    }
  }

  /** Scanning the whole board from its first cell finds a win exactly when there is one. */
  lemma ScanFindsWin(g: Grid, p: int)
    requires IsGrid(g)
    ensures WinFrom(g, p, 0, 0) == HasWin(g, p)
  {
    WinFromMeans(g, p, 0, 0);
  }

  /** Three discs of p at the left of the bottom row and nothing else. */
  function ThreeOnBottom(p: int): (g: Grid)
    ensures IsGrid(g)
  {
    Set(Set(Set(EmptyGrid(), Rows - 1, 0, p), Rows - 1, 1, p), Rows - 1, 2, p)
  }

  /**
   * Three in a row is no win; dropping the fourth disc next to them, into
   * column 3, makes one.
   */
  lemma ThreeThenFour(p: int)
    requires p != Empty
    ensures !HasWin(ThreeOnBottom(p), p)
    ensures HasWin(Drop(ThreeOnBottom(p), 3, p), p)
  {
    var g := ThreeOnBottom(p);
    forall r, c | 0 <= r < Rows && 0 <= c < Cols && g[r][c] == p
      ensures r == Rows - 1 && 0 <= c < 3
    {
    }
    forall r, c | 0 <= r < Rows && 0 <= c < Cols
      ensures !WinAt(g, r, c, p)
    {
      if Owns(g, r, c, p) {
        assert !Owns(g, r - 1, c, p);
        assert !Owns(g, r + 1, c, p);
        assert !Owns(g, r + 3, c + 3, p);
        assert !Owns(g, r + 1, c - 1, p);
      }
    }
    var h := Drop(g, 3, p);
    assert DropRow(g, 3) == Rows - 1;
    assert WinAt(h, Rows - 1, 0, p);
  }
}
