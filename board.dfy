/** The mutable board: a fixed 6 x 7 array of chars updated in place. The
    ghost field Cells is its value as a Rules.Grid; Valid() ties the two
    together and carries the gravity invariant. */
module Boards {
  import opened Rules

  class Board {
    const grid: array2<char>
    ghost var Cells: Grid

    ghost predicate Valid()
      reads this, grid
    {
      grid.Length0 == Rows && grid.Length1 == Cols &&
      WellFormed(Cells) && Settled(Cells) &&
      forall r, c :: 0 <= r < Rows && 0 <= c < Cols ==> grid[r, c] == Cells[r][c]
    }

    /** A new board with every cell empty. */
    constructor ()
      ensures Valid() && fresh(grid)
      ensures Cells == EmptyGrid()
    {
      grid := new char[Rows, Cols];
      new;
      var r := 0;
      while r < Rows
        invariant 0 <= r <= Rows
        invariant forall i, j :: 0 <= i < r && 0 <= j < Cols ==> grid[i, j] == Empty
      {
        var c := 0;
        while c < Cols
          invariant 0 <= c <= Cols
          invariant forall i, j :: 0 <= i < r && 0 <= j < Cols ==> grid[i, j] == Empty
          invariant forall j :: 0 <= j < c ==> grid[r, j] == Empty
        {
          grid[r, c] := Empty;
          c := c + 1;
        }
        r := r + 1;
      }
      Cells := EmptyGrid();
      EmptyGridSettled();
    }

    /** Drops s into col. Fails, changing nothing, when col is out of range or
        its top cell is taken; otherwise s lands on the lowest empty cell. */
    method DropDisc(col: int, s: char) returns (ok: bool)
      requires Valid()
      modifies this, grid
      ensures Valid()
      ensures ok == CanDrop(old(Cells), col)
      ensures Cells == if ok then Dropped(old(Cells), col, s) else old(Cells)
    {
      if col < 0 || col >= Cols || grid[0, col] != Empty {
        return false;
      }
      var i := Rows - 1;
      while i >= 0
        invariant -1 <= i < Rows
        invariant Valid() && Cells == old(Cells)
        invariant forall k :: i < k < Rows ==> grid[k, col] != Empty
      {
        if grid[i, col] == Empty {
          assert i == LandingRow(Cells, col);
          DropSettled(Cells, col, s);
          grid[i, col] := s;
          Cells := Place(Cells, i, col, s);
          return true;
        }
        i := i - 1;
      }
      // The guard found row 0 empty, so the scan always stops above.
      assert false;
      return false;
    }

    /** Takes the top disc off col; does nothing when the column is empty. */
    method RemoveTopDisc(col: int)
      requires Valid() && 0 <= col < Cols
      modifies this, grid
      ensures Valid()
      ensures Cells == Removed(old(Cells), col)
    {
      var i := 0;
      while i < Rows
        invariant 0 <= i <= Rows
        invariant Valid() && Cells == old(Cells)
        invariant forall k :: 0 <= k < i ==> grid[k, col] == Empty
      {
        if grid[i, col] != Empty {
          assert i == TopRow(Cells, col);
          RemoveSettled(Cells, col);
          grid[i, col] := Empty;
          Cells := Place(Cells, i, col, Empty);
          break;
        }
        i := i + 1;
      }
    }

    /** True exactly when the top cell of every column is taken. */
    method IsFull() returns (full: bool)
      requires Valid()
      ensures full == Full(Cells)
    {
      var col := 0;
      while col < Cols
        invariant 0 <= col <= Cols
        invariant forall c :: 0 <= c < col ==> Cells[0][c] != Empty
      {
        if grid[0, col] == Empty {
          return false;
        }
        col := col + 1;
      }
      return true;
    }

    /** True exactly when s has four in a row horizontally or vertically. */
    method CheckWin(s: char) returns (won: bool)
      requires Valid()
      ensures won == HasWin(Cells, s)
    {
      won := CheckHorizontal(s);
      if !won {
        won := CheckVertical(s);
      }
    }

    method CheckHorizontal(s: char) returns (found: bool)
      requires Valid()
      ensures found == HasHorizontal(Cells, s)
    {
      var row := 0;
      while row < grid.Length0
        invariant 0 <= row <= Rows
        invariant forall r, c :: 0 <= r < row && 0 <= c <= Cols - 4 ==> !HorizontalAt(Cells, r, c, s)
      {
        var col := 0;
        while col <= grid.Length1 - 4
          invariant 0 <= col <= Cols - 3
          invariant forall r, c :: 0 <= r < row && 0 <= c <= Cols - 4 ==> !HorizontalAt(Cells, r, c, s)
          invariant forall c :: 0 <= c < col ==> !HorizontalAt(Cells, row, c, s)
        {
          if grid[row, col] == s && grid[row, col + 1] == s &&
             grid[row, col + 2] == s && grid[row, col + 3] == s
          {
            assert HorizontalAt(Cells, row, col, s);
            return true;
          }
          col := col + 1;
        }
        row := row + 1;
      }
      return false;
    }

    method CheckVertical(s: char) returns (found: bool)
      requires Valid()
      ensures found == HasVertical(Cells, s)
    {
      var col := 0;
      while col < grid.Length1
        invariant 0 <= col <= Cols
        invariant forall r, c :: 0 <= r <= Rows - 4 && 0 <= c < col ==> !VerticalAt(Cells, r, c, s)
      {
        var row := 0;
        while row <= grid.Length0 - 4
          invariant 0 <= row <= Rows - 3
          invariant forall r, c :: 0 <= r <= Rows - 4 && 0 <= c < col ==> !VerticalAt(Cells, r, c, s)
          invariant forall r :: 0 <= r < row ==> !VerticalAt(Cells, r, col, s)
        {
          if grid[row, col] == s && grid[row + 1, col] == s &&
             grid[row + 2, col] == s && grid[row + 3, col] == s
          {
            assert VerticalAt(Cells, row, col, s);
            return true;
          }
          row := row + 1;
        }
        col := col + 1;
      }
      return false;
    }

    /** A read-only copy of the cells, row by row. */
    method Snapshot() returns (view: Grid)
      requires Valid()
      ensures view == Cells
    {
      view := [];
      var r := 0;
      while r < Rows
        invariant 0 <= r <= Rows && |view| == r
        invariant forall i :: 0 <= i < r ==> view[i] == Cells[i]
      {
        var row: seq<char> := [];
        var c := 0;
        while c < Cols
          invariant 0 <= c <= Cols && row == Cells[r][..c]
        {
          row := row + [grid[r, c]];
          c := c + 1;
        }
        view := view + [row];
        r := r + 1;
      }
    }
  }
}
