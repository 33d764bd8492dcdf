# Sudoku solver core, modelled in Dafny

This project models the solving engine of a Sudoku web service. A puzzle is
a 9x9 grid of ints in which 0 marks an empty cell and 1..9 a placed digit.
The engine has two parts:

- **`Types`** holds the grid as a jagged array, as in C#. Its constructor
  allocates nine rows of nine zeros. Its `IsValid` check tests shape and
  range only: 9 rows, each present with 9 cells, each cell in [0, 9].
- **`SudokuSolverService`** solves a grid in place by backtracking. It finds
  the first empty cell in row-major order. It tries the digits 1..9 in
  ascending order and keeps only those that pass a row, column and 3x3 box
  legality check. After each placement it recurses. If the recursion fails,
  it resets the cell to 0 and tries the next digit.

Files:

- `rules.dfy` (module `SudokuRules`): the rules on board values
  (`seq<seq<int>>`). It defines legality, conflicts, the number of empty cells
  and what a solved Sudoku is, and holds the lemmas about them.
- `types.dfy` (module `Models`): class `Types` with its `Grid` field of type
  `array?<array?<int>>`. `Board(g)` reads a heap grid as a board value.
- `solver.dfy` (module `SudokuSolverService`): `SolveSudoku`,
  `SolveRecursively`, `PlaceAndRecurse` and `IsValid`, as imperative methods
  over the heap grid. The C# service class has no fields, so the methods are
  module-level.

What is proved, in short:

- The legality check is exactly "no cell sharing a row, column or box with
  (row, col) holds `num`". The box scan from (row - row % 3, col - col % 3)
  stays inside the grid and covers exactly the cell's box.
- When the search fails, the grid is exactly as it was on entry.
- When the search succeeds, no cell is empty. Every given (nonzero cell on
  entry) is unchanged. No conflict appears in the result that was not already
  there between two givens.
- When the grid has no empty cell, the search succeeds and changes nothing.
  This holds even when the givens repeat a digit, because the base case never
  checks them. So success means a legal Sudoku only when the givens are
  conflict-free. In that case every row, column and box of the result holds
  1..9 exactly once.
- Termination: every recursive call follows one more cell filled. The number
  of empty cells (at most 81) is the decreasing measure.

A natural reading of the base case is that a board with no empty cell is
"fully and legally filled". The code (Services/SudokuSolverService.cs:40)
returns true there without checking the givens. The model follows the code,
and `SudokuRules.InRangeAdmitsDuplicates` gives a full board with duplicates
that the structural check accepts and the solver leaves as it is.

## Model

| member | source | states |
|---|---|---|
| `SudokuSolverService.SolveSudoku` | Services/SudokuSolverService.cs:7-10 | On a structurally valid puzzle: on failure the grid is unchanged. On success it is complete, keeps every given and adds no new conflict. If the givens were conflict-free, the result is a solved Sudoku. A grid with no empty cell gives success with no change. |
| `SudokuSolverService.SolveRecursively` | Services/SudokuSolverService.cs:12-41 | Establishes `SearchOutcome(old board, new board, solved)`: success means complete, givens kept and no new conflicts; failure means unchanged; no empty cell means success and unchanged. Terminates because the number of empty cells decreases. Writes only the row arrays. |
| `SudokuSolverService.PlaceAndRecurse` | Services/SudokuSolverService.cs:24-33 | Writes a legal digit into an empty cell and recurses. On success the outcome holds for the board before the write. On failure the cell is reset to 0 and the grid equals its state on entry. |
| `SudokuSolverService.IsValid` | Services/SudokuSolverService.cs:43-65 | Returns exactly `Legal(board, row, col, num)`: `num` is absent from the row, the column and the 3x3 box at (row - row % 3, col - col % 3). Reads the grid only. |
| `Models.Types.constructor` | Models/Types.cs:7-14 | The new grid has 9 fresh, distinct rows of length 9, all cells 0, and it passes the structural check. |
| `Models.Types.IsValid` | Models/Types.cs:16-34 | Returns true exactly when the grid is non-null with 9 rows, every row is non-null with 9 cells, and every cell is in [0, 9]. Any other grid gives false. Modifies nothing. |
| `Models.Board` | Models/Types.cs:5 | The board value of a shaped grid: 9 rows of 9 cells, cell (r, c) equal to `g[r][c]`. |
| `SudokuRules.InRangeAdmitsDuplicates` | Models/Types.cs:16-34 | There is a board that passes the range check and has no empty cell, yet repeats a digit in a row. So neither the structural check nor the solver's base case detects duplicates. |
| `SudokuRules.LegalIffNoUnitHolds` | Services/SudokuSolverService.cs:43-65 | The legality check rejects `num` if and only if some cell sharing a row, column or box with (row, col) holds `num`. Both directions are proved. |
| `SudokuRules.BoxStart` | Services/SudokuSolverService.cs:56-57 | `i - i % 3` is a multiple of 3, at most `i`, and starts a band of three inside 0..8. So every box index `i + startRow`, `j + startCol` with i, j < 3 is in range. |
| `SudokuRules.BoxScanCoversBox` | Services/SudokuSolverService.cs:56-62 | Row r is in the box band of row i (r / 3 == i / 3) exactly when `startRow <= r < startRow + 3`. |
| `SudokuRules.PlacementStep` | Services/SudokuSolverService.cs:20-28 | A legal digit in an empty cell, followed by a filling that keeps it and adds no conflict, gives a filling of the original board that keeps its givens and adds no conflict. |
| `SudokuRules.PlacementSuccess` | Services/SudokuSolverService.cs:22-28 | A successful search after a legal placement is a successful search from the board before the placement. |
| `SudokuRules.UnchangedIsFailure` | Services/SudokuSolverService.cs:18-36 | Returning false with the board unchanged, at an empty cell, meets the search contract. |
| `SudokuRules.NoEmptyCellIsSuccess` | Services/SudokuSolverService.cs:14-40 | A board in range with no empty cell, returned unchanged with true, meets the search contract. |
| `SudokuRules.PlaceDecreasesZeroCount` | Services/SudokuSolverService.cs:18-26 | Writing a nonzero digit into an empty cell lowers the number of empty cells by exactly one. This is the termination measure. |
| `SudokuRules.ZeroCountOnBoard` | Services/SudokuSolverService.cs:14-18 | A board has at most 81 empty cells. The count is 0 exactly when no cell is 0. |
| `SudokuRules.ConflictFreePreserved` | Services/SudokuSolverService.cs:22-28 | Conflict-free givens stay conflict-free under a filling that keeps them and adds no conflict. |
| `SudokuRules.CompleteConflictFreeIsSolved` | Services/SudokuSolverService.cs:40 | A complete, conflict-free board has every row, column and box holding 1..9 exactly once. |
| `SudokuRules.SolvedIsCompleteConflictFree` | Services/SudokuSolverService.cs:40 | The converse: a solved Sudoku is complete and conflict-free. |
| `SudokuRules.NineDistinctDigits` | Services/SudokuSolverService.cs:40 | Pigeonhole: nine pairwise different digits from 1..9 contain every digit 1..9. |

## Left out

- HTTP and GraphQL transport (the controller, both `Mutation` classes, host setup) and the browser form: I/O shells with no domain logic. Their rule "validate, then solve, and report invalid and unsolvable input separately" is not modelled.
- Completeness is not proved: the model does not show that the search returns true whenever the givens can be completed. So "the empty grid is solved" and "a unique solution is found" are not proved. The order of the search (first solution in row-major, ascending-digit order) is modelled by the code but not stated as a property.
- The concrete example puzzle and its known solution are not part of this model.
- Running time (exponential in the worst case) is not modelled; only termination is.
- SudokuSolverService.SolveRecursively: "every written digit passed the legality check against the board at the moment of writing" is a property of the history of writes. It is stated through its consequence on the final board, `NoNewConflicts`, together with `Complete` (every cell in 1..9).
- SudokuSolverService.SolveSudoku: the rows of the jagged grid must be distinct arrays (`RowsDistinct`). C# would accept a grid whose rows alias each other, and the search would then behave differently. Grids built by the constructor or by deserialization have distinct rows.
- SudokuSolverService.SolveSudoku: it requires a structurally valid grid, as its callers ensure. On other grids C# throws a null-reference or index exception, which is not modelled.
- `PlaceAndRecurse` is the body of the digit loop (write, recurse, undo) given its own method. It is mutually recursive with `SolveRecursively`, which keeps each proof small. The behaviour is that of the inline code.
- C# `int` is 32-bit. All values here are 0..9 or indices below 9, so no overflow can occur, and unbounded `int` is used.
