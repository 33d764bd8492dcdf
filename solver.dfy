/** Services/SudokuSolverService.cs: in-place backtracking over the jagged
    grid of a puzzle. The service class holds no state, so its three
    operations are module-level methods. */
module SudokuSolverService {
  import opened SudokuRules
  import opened Models

  /** Solves the puzzle's grid in place. On success the grid is complete, keeps
      every given, and, when the givens had no conflict, is a solved Sudoku; on
      failure it is exactly as it was. */
  method SolveSudoku(puzzle: Types) returns (solved: bool)
    requires puzzle.StructurallyValid() && RowsDistinct(puzzle.Grid)
    modifies Rows(puzzle.Grid)
    ensures puzzle.StructurallyValid()
    ensures !solved ==> Board(puzzle.Grid) == old(Board(puzzle.Grid))
    ensures solved ==> Complete(Board(puzzle.Grid)) && Extends(old(Board(puzzle.Grid)), Board(puzzle.Grid))
    ensures solved ==> NoNewConflicts(old(Board(puzzle.Grid)), Board(puzzle.Grid))
    ensures solved && ConflictFree(old(Board(puzzle.Grid))) ==> Solved(Board(puzzle.Grid))
    ensures ZeroCount(old(Board(puzzle.Grid))) == 0 ==> solved && Board(puzzle.Grid) == old(Board(puzzle.Grid))
  {
    solved := SolveRecursively(puzzle.Grid);
    if solved && ConflictFree(old(Board(puzzle.Grid))) {
      ConflictFreePreserved(old(Board(puzzle.Grid)), Board(puzzle.Grid));
      CompleteConflictFreeIsSolved(Board(puzzle.Grid));
    }
  }

  /** Finds the first empty cell in row-major order and tries the digits 1..9
      there in ascending order, recursing after each legal placement (see
      PlaceAndRecurse); fails when no digit leads to a solution, succeeds at
      once when no cell is empty. */
  method SolveRecursively(grid: array<array?<int>>) returns (solved: bool)
    requires Shaped(grid) && RowsDistinct(grid) && InRange(Board(grid))
    modifies Rows(grid)
    ensures SearchOutcome(old(Board(grid)), Board(grid), solved)
    decreases ZeroCount(Board(grid)), 1
  {
    ghost var b := Board(grid);
    for row := 0 to 9
      invariant Board(grid) == b
      invariant forall r, c :: 0 <= r < row && 0 <= c < 9 ==> b[r][c] != 0
    {
      for col := 0 to 9
        invariant Board(grid) == b
        invariant forall r, c :: 0 <= r < row && 0 <= c < 9 ==> b[r][c] != 0
        invariant forall c :: 0 <= c < col ==> b[row][c] != 0
      {
        if grid[row][col] == 0 {
          for num := 1 to 10
            invariant Board(grid) == b
          {
            var legal := IsValid(grid, row, col, num);
            if legal {
              solved := PlaceAndRecurse(grid, row, col, num);
              if solved {
                return true;
              }
            }
          }
          UnchangedIsFailure(b, row, col);
          return false;
        }
      }
    }
    NoEmptyCellIsSuccess(b);
    return true;
  }

  /** Writes the legal digit `num` into the empty cell (row, col) and searches
      on; if that search fails, resets the cell to 0, so the grid is exactly
      as it was. */
  method PlaceAndRecurse(grid: array<array?<int>>, row: int, col: int, num: int) returns (solved: bool)
    requires Shaped(grid) && RowsDistinct(grid) && InRange(Board(grid))
    requires 0 <= row < 9 && 0 <= col < 9 && Board(grid)[row][col] == 0
    requires 1 <= num <= 9 && Legal(Board(grid), row, col, num)
    modifies Rows(grid)
    ensures solved ==> SearchOutcome(old(Board(grid)), Board(grid), true)
    ensures !solved ==> Board(grid) == old(Board(grid))
    decreases ZeroCount(Board(grid)), 0
  {
    ghost var b := Board(grid);
    grid[row][col] := num;
    BoardsEqual(Board(grid), Place(b, row, col, num));
    PlaceDecreasesZeroCount(b, row, col, num);
    solved := SolveRecursively(grid);
    if solved {
      PlacementSuccess(b, row, col, num, Board(grid));
    } else {
      grid[row][col] := 0;
      BoardsEqual(Board(grid), b);
    }
  }

  /** Whether `num` may be placed at (row, col): it is absent from the row,
      from the column and from the 3x3 box whose corner is
      (row - row % 3, col - col % 3). Reads the grid only. */
  method IsValid(grid: array<array?<int>>, row: int, col: int, num: int) returns (legal: bool)
    requires Shaped(grid)
    requires 0 <= row < 9 && 0 <= col < 9
    ensures legal == Legal(Board(grid), row, col, num)
  {
    for x := 0 to 9
      invariant forall k :: 0 <= k < x ==> grid[row][k] != num
    {
      if grid[row][x] == num {
        return false;
      }
    }
    for x := 0 to 9
      invariant forall k :: 0 <= k < x ==> grid[k][col] != num
    {
      if grid[x][col] == num {
        return false;
      }
    }
    var startRow := row - row % 3;
    var startCol := col - col % 3;
    for i := 0 to 3
      invariant forall r, c :: startRow <= r < startRow + i && startCol <= c < startCol + 3 ==> grid[r][c] != num
    {
      var r := i + startRow;
      for j := 0 to 3
        invariant forall c :: startCol <= c < startCol + j ==> grid[r][c] != num
      {
        if grid[i + startRow][j + startCol] == num {
          return false;
        }
      }
    }
    return true;
  }
}
