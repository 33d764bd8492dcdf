/** Models/Types.cs: the puzzle container. Its Grid is a jagged array of
    rows, as in C#; the ghost functions below read it as a board
    value of SudokuRules. */
module Models {
  import opened SudokuRules

  /** The rows of a jagged grid, the objects a solver writes. */
  ghost function Rows(g: array<array?<int>>): set<array?<int>>
    reads g
  {
    set i | 0 <= i < g.Length :: g[i]
  }

  /** Shape part of the structural check: 9 rows, none missing, 9 cells each. */
  ghost predicate Shaped(g: array<array?<int>>)
    reads g
  {
    g.Length == 9 && forall i :: 0 <= i < 9 ==> g[i] != null && g[i].Length == 9
  }

  /** No two rows are the same array object. */
  ghost predicate RowsDistinct(g: array<array?<int>>)
    reads g
  {
    forall i, j :: 0 <= i < j < g.Length ==> g[i] != g[j]
  }

  /** The board a shaped grid currently holds. */
  ghost function Board(g: array<array?<int>>): (b: seq<seq<int>>)
    requires Shaped(g)
    reads g, Rows(g)
    ensures IsBoard(b)
    ensures forall r, c :: 0 <= r < 9 && 0 <= c < 9 ==> b[r][c] == g[r][c]
  {
    seq(9, i requires 0 <= i < 9 && g[i] != null reads g, Rows(g) => g[i][..])
  }

  /** The nine-by-nine board of empty cells. */
  function EmptyBoard(): (b: seq<seq<int>>)
    ensures IsBoard(b) && forall r, c :: 0 <= r < 9 && 0 <= c < 9 ==> b[r][c] == 0
  {
    seq(9, _ => seq(9, _ => 0))
  }

  class Types {
    var Grid: array?<array?<int>>

    /** Exactly 9 rows, each present with 9 cells, every cell in [0, 9]. */
    ghost predicate StructurallyValid()
      reads this, Grid, if Grid == null then {} else Rows(Grid)
    {
      Grid != null && Shaped(Grid) && InRange(Board(Grid))
    }

    /** A fresh puzzle holds nine fresh, separate rows of nine empty cells. */
    constructor ()
      ensures StructurallyValid()
      ensures Grid != null && fresh(Grid) && RowsDistinct(Grid)
      ensures forall i :: 0 <= i < 9 ==> fresh(Grid[i])
      ensures Board(Grid) == EmptyBoard()
    {
      var g := new array?<int>[9](_ => null);
      for i := 0 to 9
        invariant forall k :: 0 <= k < i ==> g[k] != null && fresh(g[k]) && g[k].Length == 9
        invariant forall k :: 0 <= k < i ==> forall m :: 0 <= m < 9 ==> g[k][m] == 0
        invariant forall k, m :: 0 <= k < m < i ==> g[k] != g[m]
      {
        g[i] := new int[9](_ => 0);
      }
      Grid := g;
      BoardsEqual(Board(g), EmptyBoard());
    }

    /** The structural check: false for a missing grid, a wrong number of
        rows, a missing or mis-sized row, or a cell outside [0, 9]. Duplicate
        digits are not looked for (see SudokuRules.InRangeAdmitsDuplicates). */
    method IsValid() returns (ok: bool)
      ensures ok == StructurallyValid()
    {
      if Grid == null || Grid.Length != 9 {
        return false;
      }
      for i := 0 to 9
        invariant forall k :: 0 <= k < i ==> Grid[k] != null && Grid[k].Length == 9
        invariant forall k, m :: 0 <= k < i && 0 <= m < 9 ==> 0 <= Grid[k][m] <= 9
      {
        if Grid[i] == null || Grid[i].Length != 9 {
          return false;
        }
        for j := 0 to 9
          invariant forall m :: 0 <= m < j ==> 0 <= Grid[i][m] <= 9
        {
          if Grid[i][j] < 0 || Grid[i][j] > 9 {
            return false;
          }
        }
      }
      return true;
    }
  }
}
