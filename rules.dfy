/** The Sudoku rules on board values: a board is a 9x9 sequence of rows of
    ints, 0 marks an empty cell and 1..9 a placed digit.  Everything here is
    pure; the heap grid of Models and the solver of SudokuSolverService are
    specified through these definitions. */
module SudokuRules {

  /** Nine rows of nine cells. */
  predicate IsBoard(b: seq<seq<int>>) {
    |b| == 9 && forall r :: 0 <= r < 9 ==> |b[r]| == 9
  }

  /** The range part of the structural check: every cell in [0, 9]. */
  predicate InRange(b: seq<seq<int>>) {
    IsBoard(b) && forall r, c :: 0 <= r < 9 && 0 <= c < 9 ==> 0 <= b[r][c] <= 9
  }

  /** No empty cell is left and every cell holds a digit 1..9. */
  predicate Complete(b: seq<seq<int>>) {
    IsBoard(b) && forall r, c :: 0 <= r < 9 && 0 <= c < 9 ==> 1 <= b[r][c] <= 9
  }

  /** `after` keeps every nonzero cell (every given) of `before`. */
  predicate Extends(before: seq<seq<int>>, after: seq<seq<int>>)
    requires IsBoard(before) && IsBoard(after)
  {
    forall r, c :: 0 <= r < 9 && 0 <= c < 9 && before[r][c] != 0 ==> after[r][c] == before[r][c]
  }

  /** The board with the cell (r, c) set to v. */
  function Place(b: seq<seq<int>>, r: int, c: int, v: int): (p: seq<seq<int>>)
    requires IsBoard(b) && 0 <= r < 9 && 0 <= c < 9
    ensures IsBoard(p) && p[r][c] == v
    ensures forall r', c' :: 0 <= r' < 9 && 0 <= c' < 9 && (r' != r || c' != c) ==> p[r'][c'] == b[r'][c']
  {
    b[r := b[r][c := v]]
  }

  /** Two boards with equal cells are equal. */
  lemma BoardsEqual(a: seq<seq<int>>, b: seq<seq<int>>)
    requires IsBoard(a) && IsBoard(b)
    requires forall r, c :: 0 <= r < 9 && 0 <= c < 9 ==> a[r][c] == b[r][c]
    ensures a == b
  {
    forall r | 0 <= r < 9 ensures a[r] == b[r] {
      assert forall c :: 0 <= c < 9 ==> a[r][c] == b[r][c];
    }
  }

  // ---------------------------------------------------------------------------
  // Units and peers

  /** First row (column) of the 3x3 box holding row (column) i,
      computed as i - i % 3. */
  function BoxStart(i: int): (s: int)
    requires 0 <= i < 9
    ensures s % 3 == 0 && 0 <= s <= i < s + 3 <= 9
  {
    i - i % 3
  }

  /** Cells (r1, c1) and (r2, c2) lie in a common row, column or 3x3 box
      (a cell shares every unit with itself). */
  predicate SharesUnit(r1: int, c1: int, r2: int, c2: int) {
    r1 == r2 || c1 == c2 || (r1 / 3 == r2 / 3 && c1 / 3 == c2 / 3)
  }

  /** Two different cells sharing a unit. */
  predicate Peers(r1: int, c1: int, r2: int, c2: int) {
    (r1 != r2 || c1 != c2) && SharesUnit(r1, c1, r2, c2)
  }

  /** Row, column and box legality of placing `num` at (row, col), stated the
      way the solver scans: the row, then the column, then the 3x3 box whose
      corner is (row - row % 3, col - col % 3). */
  predicate Legal(b: seq<seq<int>>, row: int, col: int, num: int)
    requires IsBoard(b) && 0 <= row < 9 && 0 <= col < 9
  {
    (forall x :: 0 <= x < 9 ==> b[row][x] != num) &&
    (forall x :: 0 <= x < 9 ==> b[x][col] != num) &&
    (forall r, c :: BoxStart(row) <= r < BoxStart(row) + 3 && BoxStart(col) <= c < BoxStart(col) + 3 ==>
       b[r][c] != num)
  }

  /** The box scan from the corner (row - row % 3, col - col % 3) visits
      exactly the rows (columns) of the box holding row (col). */
  lemma BoxScanCoversBox(i: int, r: int)
    requires 0 <= i < 9 && 0 <= r < 9
    ensures r / 3 == i / 3 <==> BoxStart(i) <= r < BoxStart(i) + 3
  {
  }

  /** The legality check rejects `num` exactly when some cell sharing a unit
      with (row, col) already holds it. */
  lemma LegalIffNoUnitHolds(b: seq<seq<int>>, row: int, col: int, num: int)
    requires IsBoard(b) && 0 <= row < 9 && 0 <= col < 9
    ensures Legal(b, row, col, num) <==>
            forall r, c :: 0 <= r < 9 && 0 <= c < 9 && SharesUnit(row, col, r, c) ==> b[r][c] != num
  {
  }

  // ---------------------------------------------------------------------------
  // Conflicts

  /** Peers (r1, c1) and (r2, c2) hold the same digit. */
  predicate Clash(b: seq<seq<int>>, r1: int, c1: int, r2: int, c2: int)
    requires IsBoard(b) && 0 <= r1 < 9 && 0 <= c1 < 9 && 0 <= r2 < 9 && 0 <= c2 < 9
  {
    Peers(r1, c1, r2, c2) && b[r1][c1] != 0 && b[r1][c1] == b[r2][c2]
  }

  /** No digit occurs twice in any row, column or box. */
  predicate ConflictFree(b: seq<seq<int>>)
    requires IsBoard(b)
  {
    forall r1, c1, r2, c2 :: 0 <= r1 < 9 && 0 <= c1 < 9 && 0 <= r2 < 9 && 0 <= c2 < 9 ==>
      !Clash(b, r1, c1, r2, c2)
  }

  /** Every clash in `after` is between two cells that were already filled in
      `before`: filling cells introduced no conflict of its own. */
  predicate NoNewConflicts(before: seq<seq<int>>, after: seq<seq<int>>)
    requires IsBoard(before) && IsBoard(after)
  {
    forall r1, c1, r2, c2 ::
      (0 <= r1 < 9 && 0 <= c1 < 9 && 0 <= r2 < 9 && 0 <= c2 < 9 && Clash(after, r1, c1, r2, c2)) ==>
      before[r1][c1] != 0 && before[r2][c2] != 0
  }

  /** A legal placement into an empty cell, followed by a filling that extends
      it without new conflicts, is itself a filling of the original board that
      keeps its givens and adds no conflict. This is the step the solver's
      recursion takes at each level. */
  lemma PlacementStep(b: seq<seq<int>>, row: int, col: int, num: int, fin: seq<seq<int>>)
    requires IsBoard(b) && 0 <= row < 9 && 0 <= col < 9 && b[row][col] == 0
    requires Legal(b, row, col, num)
    requires IsBoard(fin)
    requires Extends(Place(b, row, col, num), fin)
    requires NoNewConflicts(Place(b, row, col, num), fin)
    ensures Extends(b, fin) && NoNewConflicts(b, fin)
  {
  }

  /** What one call of the backtracking search promises about the board it
      was given (`before`) and the board it leaves (`after`): on success a
      complete filling that keeps every given and adds no conflict of its own,
      on failure the board as it was; and a board without empty cells is a
      success that changes nothing. */
  predicate SearchOutcome(before: seq<seq<int>>, after: seq<seq<int>>, solved: bool)
    requires IsBoard(before)
  {
    InRange(after) &&
    (solved ==> Complete(after) && Extends(before, after) && NoNewConflicts(before, after)) &&
    (!solved ==> after == before) &&
    (ZeroCount(before) == 0 ==> solved && after == before)
  }

  /** Base case: a board with no empty cell is already a successful outcome. */
  lemma NoEmptyCellIsSuccess(b: seq<seq<int>>)
    requires InRange(b)
    requires forall r, c :: 0 <= r < 9 && 0 <= c < 9 ==> b[r][c] != 0
    ensures SearchOutcome(b, b, true)
  {
  }

  /** Exhausted case: leaving a board with an empty cell unchanged is a failing outcome. */
  lemma UnchangedIsFailure(b: seq<seq<int>>, row: int, col: int)
    requires InRange(b) && 0 <= row < 9 && 0 <= col < 9 && b[row][col] == 0
    ensures SearchOutcome(b, b, false)
  {
    PlaceDecreasesZeroCount(b, row, col, 1);
  }

  /** Recursive case: a legal digit placed in an empty cell, followed by a
      successful search from there, is a successful search from the board
      before the placement. */
  lemma PlacementSuccess(b: seq<seq<int>>, row: int, col: int, num: int, fin: seq<seq<int>>)
    requires InRange(b) && 0 <= row < 9 && 0 <= col < 9 && b[row][col] == 0
    requires Legal(b, row, col, num)
    requires SearchOutcome(Place(b, row, col, num), fin, true)
    ensures SearchOutcome(b, fin, true)
  {
    PlacementStep(b, row, col, num, fin);
    PlaceDecreasesZeroCount(b, row, col, num);
  }

  /** Givens without conflict stay without conflict under a filling that keeps
      them and adds no conflict of its own. */
  lemma ConflictFreePreserved(before: seq<seq<int>>, after: seq<seq<int>>)
    requires IsBoard(before) && IsBoard(after)
    requires ConflictFree(before) && Extends(before, after) && NoNewConflicts(before, after)
    ensures ConflictFree(after)
  {
    forall r1, c1, r2, c2 | 0 <= r1 < 9 && 0 <= c1 < 9 && 0 <= r2 < 9 && 0 <= c2 < 9
      ensures !Clash(after, r1, c1, r2, c2)
    {
      if Clash(after, r1, c1, r2, c2) {
        assert Clash(before, r1, c1, r2, c2);
      }
    }
  }

  /** The structural range check does not look for duplicates: a board with
      no empty cell whose cells are all in range may still repeat a digit in a
      row. The solver accepts such a board as it is, since it has nothing to
      fill. */
  lemma InRangeAdmitsDuplicates()
    ensures exists b :: InRange(b) && ZeroCount(b) == 0 && !ConflictFree(b)
  {
    var row := seq(9, _ => 1);
    var b := seq(9, _ => row);
    assert Clash(b, 0, 0, 0, 1);
    ZeroCountOnBoard(b);
    assert InRange(b) && ZeroCount(b) == 0;
  }

  // ---------------------------------------------------------------------------
  // Counting empty cells (the solver's termination measure)

  function RowZeros(s: seq<int>): (n: nat)
    ensures n <= |s|
  {
    if s == [] then 0 else (if s[0] == 0 then 1 else 0) + RowZeros(s[1..])
  }

  function ZeroCount(b: seq<seq<int>>): nat {
    if b == [] then 0 else RowZeros(b[0]) + ZeroCount(b[1..])
  }

  lemma {:induction false} RowZerosFill(s: seq<int>, c: int, v: int)
    requires 0 <= c < |s| && s[c] == 0 && v != 0
    ensures RowZeros(s[c := v]) == RowZeros(s) - 1
  {
    if c > 0 {
      assert s[c := v][1..] == s[1..][c - 1 := v];
      RowZerosFill(s[1..], c - 1, v);
    } else {
      assert s[c := v][1..] == s[1..];
    }
  }

  lemma {:induction false} ZeroCountFill(b: seq<seq<int>>, r: int, c: int, v: int)
    requires 0 <= r < |b| && 0 <= c < |b[r]| && b[r][c] == 0 && v != 0
    ensures ZeroCount(b[r := b[r][c := v]]) == ZeroCount(b) - 1
  {
    if r > 0 {
      assert b[r := b[r][c := v]][1..] == b[1..][r - 1 := b[1..][r - 1][c := v]];
      ZeroCountFill(b[1..], r - 1, c, v);
    } else {
      assert b[r := b[r][c := v]][1..] == b[1..];
      RowZerosFill(b[0], c, v);
    }
  }

  /** Filling an empty cell with a digit lowers the number of empty cells by one. */
  lemma PlaceDecreasesZeroCount(b: seq<seq<int>>, r: int, c: int, v: int)
    requires IsBoard(b) && 0 <= r < 9 && 0 <= c < 9 && b[r][c] == 0 && v != 0
    ensures ZeroCount(Place(b, r, c, v)) == ZeroCount(b) - 1
  {
    ZeroCountFill(b, r, c, v);
  }

  lemma {:induction false} RowZerosNone(s: seq<int>)
    ensures RowZeros(s) == 0 <==> forall i :: 0 <= i < |s| ==> s[i] != 0
  {
    if s != [] {
      RowZerosNone(s[1..]);
      assert forall i :: 1 <= i < |s| ==> s[i] == s[1..][i - 1];
    }
  }

  lemma {:induction false} ZeroCountNone(b: seq<seq<int>>)
    ensures ZeroCount(b) == 0 <==> forall r, c :: 0 <= r < |b| && 0 <= c < |b[r]| ==> b[r][c] != 0
  {
    if b != [] {
      RowZerosNone(b[0]);
      ZeroCountNone(b[1..]);
      assert forall r :: 1 <= r < |b| ==> b[r] == b[1..][r - 1];
    }
  }

  lemma {:induction false} ZeroCountBound(b: seq<seq<int>>)
    ensures ZeroCount(b) <= 9 * |b| || exists r :: 0 <= r < |b| && |b[r]| > 9
  {
    if b != [] {
      ZeroCountBound(b[1..]);
      if exists r :: 0 <= r < |b[1..]| && |b[1..][r]| > 9 {
        var r :| 0 <= r < |b[1..]| && |b[1..][r]| > 9;
        assert b[r + 1] == b[1..][r];
      }
    }
  }

  /** On a board the number of empty cells is at most 81, and it is 0 exactly
      when the board has no empty cell. */
  lemma ZeroCountOnBoard(b: seq<seq<int>>)
    requires IsBoard(b)
    ensures ZeroCount(b) <= 81
    ensures ZeroCount(b) == 0 <==> forall r, c :: 0 <= r < 9 && 0 <= c < 9 ==> b[r][c] != 0
  {
    ZeroCountBound(b);
    ZeroCountNone(b);
  }

  // ---------------------------------------------------------------------------
  // Solved boards

  /** The cells of column c, top to bottom. */
  function Column(b: seq<seq<int>>, c: int): (s: seq<int>)
    requires IsBoard(b) && 0 <= c < 9
    ensures |s| == 9 && forall r :: 0 <= r < 9 ==> s[r] == b[r][c]
  {
    seq(9, r requires 0 <= r < 9 => b[r][c])
  }

  /** Row and column of position i of box k (boxes and positions numbered row-major). */
  function BoxRow(k: int, i: int): int { 3 * (k / 3) + i / 3 }
  function BoxCol(k: int, i: int): int { 3 * (k % 3) + i % 3 }

  /** The cells of box k, row-major inside the box. */
  function Box(b: seq<seq<int>>, k: int): (s: seq<int>)
    requires IsBoard(b) && 0 <= k < 9
    ensures |s| == 9 && forall i :: 0 <= i < 9 ==> s[i] == b[BoxRow(k, i)][BoxCol(k, i)]
  {
    seq(9, i requires 0 <= i < 9 => b[BoxRow(k, i)][BoxCol(k, i)])
  }

  predicate Distinct(s: seq<int>) {
    forall i, j :: 0 <= i < j < |s| ==> s[i] != s[j]
  }

  /** The unit holds each digit 1..9 exactly once. */
  predicate HoldsEachDigitOnce(s: seq<int>) {
    |s| == 9 && Distinct(s) &&
    (forall i :: 0 <= i < |s| ==> 1 <= s[i] <= 9) &&
    (forall d :: 1 <= d <= 9 ==> d in s)
  }

  /** A legal, fully solved Sudoku: every row, column and box holds 1..9 once. */
  predicate Solved(b: seq<seq<int>>) {
    IsBoard(b) &&
    forall k :: 0 <= k < 9 ==>
      HoldsEachDigitOnce(b[k]) && HoldsEachDigitOnce(Column(b, k)) && HoldsEachDigitOnce(Box(b, k))
  }

  function Elements(s: seq<int>): set<int> {
    set x | x in s
  }

  lemma {:induction false} DistinctCardinality(s: seq<int>)
    requires Distinct(s)
    ensures |Elements(s)| == |s|
  {
    if s != [] {
      DistinctCardinality(s[1..]);
      assert Elements(s) == {s[0]} + Elements(s[1..]);
      assert s[0] !in Elements(s[1..]);
    }
  }

  lemma SubsetCardinality(a: set<int>, b: set<int>)
    requires a <= b
    ensures |a| <= |b|
  {
    assert b == a + (b - a);
  }

  /** Pigeonhole: nine different digits from 1..9 are all of them. */
  lemma NineDistinctDigits(s: seq<int>)
    requires |s| == 9 && Distinct(s)
    requires forall i :: 0 <= i < 9 ==> 1 <= s[i] <= 9
    ensures HoldsEachDigitOnce(s)
  {
    DistinctCardinality(s);
    forall d | 1 <= d <= 9 ensures d in s {
      if d !in s {
        var others := {1, 2, 3, 4, 5, 6, 7, 8, 9} - {d};
        assert |others| == 8;
        assert Elements(s) <= others;
        SubsetCardinality(Elements(s), others);
      }
    }
  }

  /** The cell at position i of box k, and back: box k, position i hold the
      cell (3 * (k / 3) + i / 3, 3 * (k % 3) + i % 3). */
  lemma BoxCoordinates(r: int, c: int)
    requires 0 <= r < 9 && 0 <= c < 9
    ensures var k, i := 3 * (r / 3) + c / 3, 3 * (r % 3) + c % 3;
            0 <= k < 9 && 0 <= i < 9 && BoxRow(k, i) == r && BoxCol(k, i) == c
  {
  }

  /** Two different positions of one box are two different cells of that box. */
  lemma BoxPositionsArePeers(k: int, i: int, j: int)
    requires 0 <= k < 9 && 0 <= i < j < 9
    ensures 0 <= BoxRow(k, i) < 9 && 0 <= BoxCol(k, i) < 9 && 0 <= BoxRow(k, j) < 9 && 0 <= BoxCol(k, j) < 9
    ensures Peers(BoxRow(k, i), BoxCol(k, i), BoxRow(k, j), BoxCol(k, j))
  {
    assert BoxRow(k, i) / 3 == k / 3 && BoxRow(k, j) / 3 == k / 3;
    assert BoxCol(k, i) / 3 == k % 3 && BoxCol(k, j) / 3 == k % 3;
  }

  lemma CompleteConflictFreeRow(b: seq<seq<int>>, k: int)
    requires Complete(b) && ConflictFree(b) && 0 <= k < 9
    ensures HoldsEachDigitOnce(b[k])
  {
    forall i, j | 0 <= i < j < 9 ensures b[k][i] != b[k][j] {
      assert !Clash(b, k, i, k, j);
    }
    NineDistinctDigits(b[k]);
  }

  lemma CompleteConflictFreeColumn(b: seq<seq<int>>, k: int)
    requires Complete(b) && ConflictFree(b) && 0 <= k < 9
    ensures HoldsEachDigitOnce(Column(b, k))
  {
    var col := Column(b, k);
    forall i, j | 0 <= i < j < 9 ensures col[i] != col[j] {
      assert !Clash(b, i, k, j, k);
    }
    NineDistinctDigits(col);
  }

  lemma CompleteConflictFreeBox(b: seq<seq<int>>, k: int)
    requires Complete(b) && ConflictFree(b) && 0 <= k < 9
    ensures HoldsEachDigitOnce(Box(b, k))
  {
    var box := Box(b, k);
    forall i, j | 0 <= i < j < 9 ensures box[i] != box[j] {
      BoxPositionsArePeers(k, i, j);
      assert !Clash(b, BoxRow(k, i), BoxCol(k, i), BoxRow(k, j), BoxCol(k, j));
    }
    NineDistinctDigits(box);
  }

  /** A complete board without conflicts is a solved Sudoku. */
  lemma CompleteConflictFreeIsSolved(b: seq<seq<int>>)
    requires Complete(b) && ConflictFree(b)
    ensures Solved(b)
  {
    forall k | 0 <= k < 9
      ensures HoldsEachDigitOnce(b[k]) && HoldsEachDigitOnce(Column(b, k)) && HoldsEachDigitOnce(Box(b, k))
    {
      CompleteConflictFreeRow(b, k);
      CompleteConflictFreeColumn(b, k);
      CompleteConflictFreeBox(b, k);
    }
  }

  /** A unit in which each digit occurs once has no repeated value. */
  lemma DistinctAt(s: seq<int>, i: int, j: int)
    requires Distinct(s) && 0 <= i < |s| && 0 <= j < |s| && i != j
    ensures s[i] != s[j]
  {
  }

  /** Two different cells of one box sit at two different positions of the
      same box number. */
  lemma SameBoxPositions(r1: int, c1: int, r2: int, c2: int) returns (k: int, i1: int, i2: int)
    requires 0 <= r1 < 9 && 0 <= c1 < 9 && 0 <= r2 < 9 && 0 <= c2 < 9
    requires r1 / 3 == r2 / 3 && c1 / 3 == c2 / 3 && (r1 != r2 || c1 != c2)
    ensures 0 <= k < 9 && 0 <= i1 < 9 && 0 <= i2 < 9 && i1 != i2
    ensures BoxRow(k, i1) == r1 && BoxCol(k, i1) == c1
    ensures BoxRow(k, i2) == r2 && BoxCol(k, i2) == c2
  {
    BoxCoordinates(r1, c1);
    BoxCoordinates(r2, c2);
    k := 3 * (r1 / 3) + c1 / 3;
    i1, i2 := 3 * (r1 % 3) + c1 % 3, 3 * (r2 % 3) + c2 % 3;
  }

  lemma SolvedBoxNoClash(b: seq<seq<int>>, r1: int, c1: int, r2: int, c2: int)
    requires Solved(b) && 0 <= r1 < 9 && 0 <= c1 < 9 && 0 <= r2 < 9 && 0 <= c2 < 9
    requires r1 / 3 == r2 / 3 && c1 / 3 == c2 / 3 && (r1 != r2 || c1 != c2)
    ensures b[r1][c1] != b[r2][c2]
  {
    var k, i1, i2 := SameBoxPositions(r1, c1, r2, c2);
    var box := Box(b, k);
    assert Distinct(box) by {
      assert HoldsEachDigitOnce(box);
    }
    assert box[i1] == b[r1][c1];
    assert box[i2] == b[r2][c2];
    DistinctAt(box, i1, i2);
  }

  /** Two different cells sharing a unit never hold the same digit on a solved board. */
  lemma SolvedHasNoClash(b: seq<seq<int>>, r1: int, c1: int, r2: int, c2: int)
    requires Solved(b) && 0 <= r1 < 9 && 0 <= c1 < 9 && 0 <= r2 < 9 && 0 <= c2 < 9
    ensures !Clash(b, r1, c1, r2, c2)
  {
    if Peers(r1, c1, r2, c2) {
      if r1 == r2 {
        assert HoldsEachDigitOnce(b[r1]);
        DistinctAt(b[r1], c1, c2);
      } else if c1 == c2 {
        assert HoldsEachDigitOnce(Column(b, c1));
        DistinctAt(Column(b, c1), r1, r2);
      } else {
        SolvedBoxNoClash(b, r1, c1, r2, c2);
      }
    }
  }

  /** A solved Sudoku is complete and free of conflicts. */
  lemma SolvedIsCompleteConflictFree(b: seq<seq<int>>)
    requires Solved(b)
    ensures Complete(b) && ConflictFree(b)
  {
    forall r, c | 0 <= r < 9 && 0 <= c < 9 ensures 1 <= b[r][c] <= 9 {
      assert HoldsEachDigitOnce(b[r]);
    }
    forall r1, c1, r2, c2 | 0 <= r1 < 9 && 0 <= c1 < 9 && 0 <= r2 < 9 && 0 <= c2 < 9
      ensures !Clash(b, r1, c1, r2, c2)
    {
      SolvedHasNoClash(b, r1, c1, r2, c2);
    }
  }
}
