/** The rules of the board as pure values: a 6 x 7 grid of chars in which
    '.' is an empty cell, row 0 is the top row and row Rows - 1 the bottom
    one. Every operation of the Board class is specified by a function here. */
module Rules {

  const Rows: nat := 6
  const Cols: nat := 7
  const Empty: char := '.'

  type Grid = seq<seq<char>>

  predicate WellFormed(g: Grid)
  {
    |g| == Rows && forall r :: 0 <= r < Rows ==> |g[r]| == Cols
  }

  /** The board right after construction: every cell empty. */
  function EmptyGrid(): (g: Grid)
    ensures WellFormed(g)
    ensures forall r, c :: 0 <= r < Rows && 0 <= c < Cols ==> g[r][c] == Empty
  {
    seq(Rows, _ => seq(Cols, _ => Empty))
  }

  /** The gravity invariant: in every column, no empty cell lies below a disc. */
  predicate Settled(g: Grid)
    requires WellFormed(g)
  {
    forall r, k, c :: 0 <= r <= k < Rows && 0 <= c < Cols && g[r][c] != Empty ==> g[k][c] != Empty
  }

  /** g with cell (r, c) set to v. */
  function Place(g: Grid, r: int, c: int, v: char): (g': Grid)
    requires WellFormed(g) && 0 <= r < Rows && 0 <= c < Cols
    ensures WellFormed(g')
    ensures forall i, j :: 0 <= i < Rows && 0 <= j < Cols ==>
              g'[i][j] == if i == r && j == c then v else g[i][j]
  {
    g[r := g[r][c := v]]
  }

  /** The guard of a drop: the column exists and its top cell is empty. */
  predicate CanDrop(g: Grid, col: int)
    requires WellFormed(g)
  {
    0 <= col < Cols && g[0][col] == Empty
  }

  /** Scanning column col upward from row i, the first empty row, or -1. */
  function LowestEmpty(g: Grid, col: int, i: int): (r: int)
    requires WellFormed(g) && 0 <= col < Cols && -1 <= i < Rows
    ensures -1 <= r <= i
    ensures r >= 0 ==> g[r][col] == Empty
    ensures forall k :: r < k <= i ==> g[k][col] != Empty
    decreases i + 1
  {
    if i < 0 then -1
    else if g[i][col] == Empty then i
    else LowestEmpty(g, col, i - 1)
  }

  /** The row a disc dropped into col comes to rest on. */
  function LandingRow(g: Grid, col: int): int
    requires WellFormed(g) && 0 <= col < Cols
  {
    LowestEmpty(g, col, Rows - 1)
  }

  /** The grid after a successful drop of s into col. */
  function Dropped(g: Grid, col: int, s: char): Grid
    requires WellFormed(g) && CanDrop(g, col)
  {
    var r := LandingRow(g, col);
    assert r >= 0;
    Place(g, r, col, s)
  }

  /** Scanning column col downward from row i, the first occupied row, or Rows. */
  function HighestDisc(g: Grid, col: int, i: nat): (r: nat)
    requires WellFormed(g) && 0 <= col < Cols && i <= Rows
    ensures i <= r <= Rows
    ensures r < Rows ==> g[r][col] != Empty
    ensures forall k :: i <= k < r ==> g[k][col] == Empty
    decreases Rows - i
  {
    if i == Rows then Rows
    else if g[i][col] != Empty then i
    else HighestDisc(g, col, i + 1)
  }

  /** The row of the top disc of col, or Rows when the column is empty. */
  function TopRow(g: Grid, col: int): nat
    requires WellFormed(g) && 0 <= col < Cols
  {
    HighestDisc(g, col, 0)
  }

  /** The grid after the top disc of col is taken off (unchanged if there is none). */
  function Removed(g: Grid, col: int): Grid
    requires WellFormed(g) && 0 <= col < Cols
  {
    var r := TopRow(g, col);
    if r < Rows then Place(g, r, col, Empty) else g
  }

  /** The board is full when the top cell of every column is occupied. */
  predicate Full(g: Grid)
    requires WellFormed(g)
  {
    forall c :: 0 <= c < Cols ==> g[0][c] != Empty
  }

  /** s at (r, c), (r, c + 1), (r, c + 2) and (r, c + 3). */
  predicate HorizontalAt(g: Grid, r: int, c: int, s: char)
    requires WellFormed(g) && 0 <= r < Rows && 0 <= c <= Cols - 4
  {
    g[r][c] == s && g[r][c + 1] == s && g[r][c + 2] == s && g[r][c + 3] == s
  }

  /** s at (r, c), (r + 1, c), (r + 2, c) and (r + 3, c). */
  predicate VerticalAt(g: Grid, r: int, c: int, s: char)
    requires WellFormed(g) && 0 <= r <= Rows - 4 && 0 <= c < Cols
  {
    g[r][c] == s && g[r + 1][c] == s && g[r + 2][c] == s && g[r + 3][c] == s
  }

  predicate HasHorizontal(g: Grid, s: char)
    requires WellFormed(g)
  {
    exists r, c :: 0 <= r < Rows && 0 <= c <= Cols - 4 && HorizontalAt(g, r, c, s)
  }

  predicate HasVertical(g: Grid, s: char)
    requires WellFormed(g)
  {
    exists r, c :: 0 <= r <= Rows - 4 && 0 <= c < Cols && VerticalAt(g, r, c, s)
  }

  /** Four in a row for s, horizontally or vertically; diagonals never count. */
  predicate HasWin(g: Grid, s: char)
    requires WellFormed(g)
  {
    HasHorizontal(g, s) || HasVertical(g, s)
  }

  /** Number of empty cells of a row. */
  function EmptyInRow(row: seq<char>): (n: nat)
    ensures n <= |row|
  {
    if row == [] then 0
    else (if row[0] == Empty then 1 else 0) + EmptyInRow(row[1..])
  }

  /** Number of empty cells of the grid; each successful drop lowers it by one. */
  function EmptyCells(g: Grid): nat
  {
    if g == [] then 0 else EmptyInRow(g[0]) + EmptyCells(g[1..])
  }

  // ---------------------------------------------------------------------
  // Construction

  lemma EmptyGridSettled()
    ensures Settled(EmptyGrid()) && !Full(EmptyGrid())
  {
    assert CanDrop(EmptyGrid(), 0);
  }

  /** On a fresh board nobody with a real symbol has four in a row. */
  lemma EmptyGridHasNoWin(s: char)
    requires s != Empty
    ensures !HasWin(EmptyGrid(), s)
  {
  }

  /** The quirk of the scan: the empty symbol itself "wins" on a fresh board. */
  lemma EmptyGridWinsForEmpty()
    ensures HasWin(EmptyGrid(), Empty)
  {
    assert HorizontalAt(EmptyGrid(), 0, 0, Empty);
  }

  // ---------------------------------------------------------------------
  // Gravity

  /** The guard of a drop is enough for the scan to find an empty row: a
      drop that passes the guard never falls through the loop. */
  lemma GuardedDropLands(g: Grid, col: int)
    requires WellFormed(g) && CanDrop(g, col)
    ensures 0 <= LandingRow(g, col) < Rows
  {
  }

  /** A successful drop sets exactly one cell: the lowest empty cell of col. */
  lemma DropLandsLowest(g: Grid, col: int, s: char)
    requires WellFormed(g) && CanDrop(g, col)
    ensures var r := LandingRow(g, col);
      0 <= r < Rows && g[r][col] == Empty &&
      (forall k :: r < k < Rows ==> g[k][col] != Empty) &&
      var g' := Dropped(g, col, s);
      WellFormed(g') &&
      forall i, j :: 0 <= i < Rows && 0 <= j < Cols ==>
        g'[i][j] == if i == r && j == col then s else g[i][j]
  {
  }

  lemma DropSettled(g: Grid, col: int, s: char)
    requires WellFormed(g) && Settled(g) && CanDrop(g, col)
    ensures WellFormed(Dropped(g, col, s)) && Settled(Dropped(g, col, s))
  {
    var r := LandingRow(g, col);
    var g' := Dropped(g, col, s);
    forall i, k, j | 0 <= i <= k < Rows && 0 <= j < Cols && g'[i][j] != Empty
      ensures g'[k][j] != Empty
    {
      if j == col && i == r && k > r {
        assert g'[k][j] == g[k][j];
      }
    }
  }

  lemma RemoveSettled(g: Grid, col: int)
    requires WellFormed(g) && Settled(g) && 0 <= col < Cols
    ensures WellFormed(Removed(g, col)) && Settled(Removed(g, col))
  {
    var r := TopRow(g, col);
    if r < Rows {
      var g' := Removed(g, col);
      forall i, k, j | 0 <= i <= k < Rows && 0 <= j < Cols && g'[i][j] != Empty
        ensures g'[k][j] != Empty
      {
        assert g[i][j] != Empty;
      }
    }
  }

  /** Drop then undo on the same column restores the grid exactly. */
  lemma DropThenRemove(g: Grid, col: int, s: char)
    requires WellFormed(g) && Settled(g) && CanDrop(g, col) && s != Empty
    ensures Removed(Dropped(g, col, s), col) == g
  {
    var r := LandingRow(g, col);
    var g' := Dropped(g, col, s);
    assert TopRow(g', col) == r;
    var g'' := Removed(g', col);
    assert forall i :: 0 <= i < Rows ==> g''[i] == g[i];
  }

  /** Undo then drop of the same disc restores the grid exactly. */
  lemma RemoveThenDrop(g: Grid, col: int)
    requires WellFormed(g) && Settled(g) && 0 <= col < Cols && g[Rows - 1][col] != Empty
    ensures var r := TopRow(g, col);
      r < Rows && CanDrop(Removed(g, col), col) &&
      Dropped(Removed(g, col), col, g[r][col]) == g
  {
    var r := TopRow(g, col);
    var g' := Removed(g, col);
    if r > 0 {
      assert g[0][col] == Empty;
    }
    assert CanDrop(g', col);
    assert LandingRow(g', col) == r;
    var g'' := Dropped(g', col, g[r][col]);
    assert forall i :: 0 <= i < Rows ==> g''[i] == g[i];
  }

  // ---------------------------------------------------------------------
  // Fullness

  /** Full means no column accepts a drop. */
  lemma FullIffNoDrop(g: Grid)
    requires WellFormed(g)
    ensures Full(g) <==> forall col :: !CanDrop(g, col)
  {
    if !Full(g) {
      var c :| 0 <= c < Cols && g[0][c] == Empty;
      assert CanDrop(g, c);
    }
  }

  /** Under gravity, full means every cell holds a disc. */
  lemma FullIffNoEmptyCell(g: Grid)
    requires WellFormed(g) && Settled(g)
    ensures Full(g) <==> forall r, c :: 0 <= r < Rows && 0 <= c < Cols ==> g[r][c] != Empty
  {
    if Full(g) {
      forall r, c | 0 <= r < Rows && 0 <= c < Cols
        ensures g[r][c] != Empty
      {
        assert g[0][c] != Empty;
      }
    }
  }

  // ---------------------------------------------------------------------
  // Wins

  /** A drop of s cannot give a different symbol t a new four in a row. */
  lemma OtherCannotWin(g: Grid, col: int, s: char, t: char)
    requires WellFormed(g) && CanDrop(g, col) && s != t
    requires HasWin(Dropped(g, col, s), t)
    ensures HasWin(g, t)
  {
    var g' := Dropped(g, col, s);
    if HasHorizontal(g', t) {
      var r, c :| 0 <= r < Rows && 0 <= c <= Cols - 4 && HorizontalAt(g', r, c, t);
      assert HorizontalAt(g, r, c, t);
    } else {
      var r, c :| 0 <= r <= Rows - 4 && 0 <= c < Cols && VerticalAt(g', r, c, t);
      assert VerticalAt(g, r, c, t);
    }
  }

  /** A settled grid in which s holds the diagonal (5, 0), (4, 1), (3, 2),
      (2, 3), resting on discs of t; the other columns are empty. */
  function Staircase(s: char, t: char): (g: Grid)
    ensures WellFormed(g)
    ensures g[5][0] == s && g[4][1] == s && g[3][2] == s && g[2][3] == s
  {
    seq(Rows, r => seq(Cols, c =>
      if c < 4 && r + c == Rows - 1 then s
      else if c < 4 && r + c > Rows - 1 then t
      else Empty))
  }

  /** Diagonals are not wins: a settled board with a diagonal four of s is
      not a win for s. */
  lemma DiagonalIsNoWin(s: char, t: char)
    requires s != Empty && t != Empty && s != t
    ensures Settled(Staircase(s, t))
    ensures !HasWin(Staircase(s, t), s)
  {
    var g := Staircase(s, t);
    forall r, c | 0 <= r < Rows && 0 <= c < Cols && g[r][c] == s
      ensures r + c == Rows - 1
    {
    }
  }

  // ---------------------------------------------------------------------
  // Counting empty cells

  lemma {:induction false} EmptyInRowUpdate(row: seq<char>, c: int, v: char)
    requires 0 <= c < |row| && row[c] == Empty && v != Empty
    ensures EmptyInRow(row[c := v]) == EmptyInRow(row) - 1
  {
    if c > 0 {
      assert row[c := v][1..] == row[1..][c - 1 := v];
      EmptyInRowUpdate(row[1..], c - 1, v);
    } else {
      assert row[c := v][1..] == row[1..];
    }
  }

  lemma {:induction false} EmptyCellsUpdate(g: Grid, r: int, c: int, v: char)
    requires 0 <= r < |g| && 0 <= c < |g[r]| && g[r][c] == Empty && v != Empty
    ensures EmptyCells(g[r := g[r][c := v]]) == EmptyCells(g) - 1
  {
    var g' := g[r := g[r][c := v]];
    if r == 0 {
      assert g'[1..] == g[1..];
      EmptyInRowUpdate(g[0], c, v);
    } else {
      assert g'[1..] == g[1..][r - 1 := g[r][c := v]];
      EmptyCellsUpdate(g[1..], r - 1, c, v);
    }
  }

  /** Each successful drop of a real disc fills exactly one empty cell. */
  lemma DropFillsOneCell(g: Grid, col: int, s: char)
    requires WellFormed(g) && CanDrop(g, col) && s != Empty
    ensures EmptyCells(Dropped(g, col, s)) == EmptyCells(g) - 1
  {
    EmptyCellsUpdate(g, LandingRow(g, col), col, s);
  }

  lemma {:induction false} EmptyInRowPositive(row: seq<char>, c: int)
    requires 0 <= c < |row| && row[c] == Empty
    ensures EmptyInRow(row) > 0
  {
    if c > 0 {
      EmptyInRowPositive(row[1..], c - 1);
    }
  }

  lemma {:induction false} EmptyCellsBound(g: Grid, width: nat)
    requires forall r :: 0 <= r < |g| ==> |g[r]| == width
    ensures EmptyCells(g) <= |g| * width
  {
    if g != [] {
      EmptyCellsBound(g[1..], width);
    }
  }

  /** A board that is not full has an empty cell, and there are never more
      than Rows * Cols of them: a match ends within 42 moves. */
  lemma EmptyCellsRange(g: Grid)
    requires WellFormed(g)
    ensures !Full(g) ==> EmptyCells(g) > 0
    ensures EmptyCells(g) <= Rows * Cols
  {
    EmptyCellsBound(g, Cols);
    if !Full(g) {
      var c :| 0 <= c < Cols && g[0][c] == Empty;
      EmptyInRowPositive(g[0], c);
    }
  }
}
