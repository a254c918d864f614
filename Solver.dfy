/** The backtracking solver: an object owning the grid, whose `Solve` fills
    the open slots in place and undoes every write on the way back. */
module Solver {
  import opened Board

  class Sudoku {
    var grid: Grid

    ghost predicate Valid()
      reads this
    {
      WellShaped(grid)
    }

    /** Takes a grid already read from the puzzle text. */
    constructor (g: Grid)
      requires WellShaped(g)
      ensures Valid() && grid == g
    {
      grid := g;
    }

    /** Whether no slot of row r holds `val`. */
    method ValidRow(r: int, val: int) returns (ok: bool)
      requires Valid() && 0 <= r < Size
      ensures ok <==> RowFree(grid, r, val)
    {
      for i := 0 to Size
        invariant forall j :: 0 <= j < i ==> !Holds(grid[r][j], val)
      {
        if grid[r][i].first == val || grid[r][i].second == val {
          return false;
        }
      }
      return true;
    }

    /** Whether no slot of column c holds `val`. */
    method ValidCol(c: int, val: int) returns (ok: bool)
      requires Valid() && 0 <= c < Size
      ensures ok <==> ColFree(grid, c, val)
    {
      for i := 0 to Size
        invariant forall k :: 0 <= k < i ==> !Holds(grid[k][c], val)
      {
        if grid[i][c].first == val || grid[i][c].second == val {
          return false;
        }
      }
      return true;
    }

    /** Whether no slot of the 2x3 box holding (r, c) holds `val`. */
    method ValidBox(r: int, c: int, val: int) returns (ok: bool)
      requires Valid() && 0 <= r < Size && 0 <= c < Size
      ensures ok <==> BoxFree(grid, r, c, val)
    {
      var bRow := 2 * (r / 2);
      var bCol := 3 * (c / 3);
      assert bRow == BoxTop(r) && bCol == BoxLeft(c);
      for i := bRow to bRow + 2
        invariant forall k, j :: bRow <= k < i && bCol <= j < bCol + 3 ==> !Holds(grid[k][j], val)
      {
        for j := bCol to bCol + 3
          invariant forall k :: bCol <= k < j ==> !Holds(grid[i][k], val)
        {
          if grid[i][j].first == val || grid[i][j].second == val {
            return false;
          }
        }
      }
      return true;
    }

    /** Whether `val` may go into (r, c): none of the three scans finds it. */
    method ValidEntry(r: int, c: int, val: int) returns (ok: bool)
      requires Valid() && 0 <= r < Size && 0 <= c < Size
      ensures ok <==> ScopeFree(grid, r, c, val)
    {
      EntryFreeIffScopeFree(grid, r, c, val);
      ok := ValidRow(r, val);
      if ok {
        ok := ValidCol(c, val);
      }
      if ok {
        ok := ValidBox(r, c, val);
      }
    }

    /** Reports the first cell in row-major order with an open slot; when
        there is none, hands back (r, c) unchanged. */
    method LocateUnsolved(r: int, c: int) returns (row: int, col: int)
      requires Valid()
      ensures NoOpenSlot(grid) ==> row == r && col == c
      ensures !NoOpenSlot(grid) ==> IsFirstOpen(grid, row, col)
    {
      row, col := r, c;
      for i := 0 to Size
        invariant forall k, j :: 0 <= k < i && 0 <= j < Size ==> !IsOpen(grid[k][j])
      {
        for j := 0 to Size
          invariant forall k, l :: 0 <= k < i && 0 <= l < Size ==> !IsOpen(grid[k][l])
          invariant forall l :: 0 <= l < j ==> !IsOpen(grid[i][l])
        {
          if grid[i][j].twoVals {
            if grid[i][j].first == 0 || grid[i][j].second == 0 {
              return i, j;
            }
          } else {
            if grid[i][j].first == 0 {
              return i, j;
            }
          }
        }
      }
    }

    /** Depth-first search with undo. Succeeds exactly when the grid has a
        completion, leaving one in place; on failure the grid is as it was. */
    method Solve() returns (solved: bool)
      requires Valid()
      modifies this
      decreases OpenCount(grid)
      ensures Valid()
      ensures solved <==> Solvable(old(grid))
      ensures solved ==> IsSolutionOf(old(grid), grid)
      ensures !solved ==> grid == old(grid)
      ensures NoOpenSlot(old(grid)) ==> solved && grid == old(grid)
    {
      // which slot to write: -1 a single cell, 0 the first slot of a pair, 1 its second
      var which := -1;

      var row, col := LocateUnsolved(-1, -1);
      if row == -1 || col == -1 {
        FullGridSolvesItself(grid);
        return true;
      }

      if grid[row][col].twoVals {
        if grid[row][col].first == 0 {
          which := 0;
        } else {
          which := 1;
        }
      }

      ghost var g0 := grid;
      ghost var s := Target(g0[row][col]);
      assert s == (if which == 1 then Second else First);

      for choice := 1 to 10
        invariant grid == g0
        invariant forall h :: IsSolutionOf(g0, h) ==> !(1 <= SlotAt(h, row, col, s) < choice)
      {
        var ok := ValidEntry(row, col, choice);
        if ok {
          if which == 0 || which == -1 {
            grid := grid[row := grid[row][col := grid[row][col].(first := choice)]];
          }
          if which == 1 {
            grid := grid[row := grid[row][col := grid[row][col].(second := choice)]];
          }
          assert grid == WithSlot(g0, row, col, s, choice);
          PlaceDecreasesOpenCount(g0, row, col, s, choice);

          var done := Solve();
          if done {
            EntryFreeIffScopeFree(g0, row, col, choice);
            ExtendSolution(g0, grid, row, col, s, choice);
            return true;
          }
          forall h | IsSolutionOf(g0, h) && SlotAt(h, row, col, s) == choice
            ensures IsSolutionOf(WithSlot(g0, row, col, s, choice), h)
          {
            PlaceKeepsSolution(g0, h, row, col, s);
          }
        } else {
          forall h | IsSolutionOf(g0, h) ensures EntryFree(g0, row, col, SlotAt(h, row, col, s)) {
            SolutionAdmitsEntry(g0, h, row, col, s);
          }
          EntryFreeIffScopeFree(g0, row, col, choice);
        }

        // undo the write, whether or not the candidate was tried
        if which == 0 || which == -1 {
          grid := grid[row := grid[row][col := grid[row][col].(first := 0)]];
        }
        if which == 1 {
          grid := grid[row := grid[row][col := grid[row][col].(second := 0)]];
        }
        RestoreSlot(g0, row, col, s, choice);
      }

      forall h | IsSolutionOf(g0, h) ensures 1 <= SlotAt(h, row, col, s) <= 9 {
        SolutionAdmitsEntry(g0, h, row, col, s);
      }
      return false;
    }
  }
}
