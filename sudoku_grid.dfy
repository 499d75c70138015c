/**
 * The Java class SudokuGrid: a 9x9 integer array, 0 for an empty cell, with
 * the rule checks that read it, the single-cell updates and the bulk load
 * that write it, and the generator (backtracking fill, then removal of
 * cells) that works on it in place.
 *
 * Randomness is a parameter: `shuffles(n)` is the candidate order that the
 * n-th call of `Collections.shuffle` produces, and the cell that a retry of
 * `removeNumbers` finally hits is chosen nondeterministically.
 */
module Sudoku {
  import opened SudokuRules

  /** What `initializeGrid` did with the matrix it was given. */
  datatype LoadOutcome =
    | Loaded
      /** the guard (9 rows, row 0 of length 9) failed: nothing was copied */
    | ShapeRejected
      /** row `row` is shorter than 9: `System.arraycopy` throws after rows 0..row-1 were copied */
    | RowTooShort(row: nat)

  class SudokuGrid {
    const grid: array2<int>

    predicate Valid() {
      grid.Length0 == 9 && grid.Length1 == 9
    }

    /** The board the array holds, as a value. */
    ghost function Cells(): (g: Grid)
      reads grid
      requires Valid()
      ensures IsGrid(g)
      ensures forall i, j :: 0 <= i < 9 && 0 <= j < 9 ==> g[i][j] == grid[i, j]
    {
      seq(9, i requires 0 <= i < 9 reads grid => seq(9, j requires 0 <= j < 9 reads grid => grid[i, j]))
    }

    /** Allocates the 9x9 array, every cell 0, as `new int[9][9]` does. */
    constructor ()
      ensures Valid() && fresh(grid)
      ensures Cells() == EmptyGrid()
    {
      grid := new int[9, 9]((i, j) => 0);
      new;
      SameBoard(Cells(), EmptyGrid());
    }

    // ----- Single-cell updates and bulk load -----

    /** setCell: writes `num` only when isValidMove allows it; otherwise nothing changes. */
    method SetCell(row: int, col: int, num: int)
      requires Valid()
      requires 1 <= num <= 9 ==> InBounds(row, col)
      modifies grid
      ensures LegalMove(old(Cells()), row, col, num) ==> Cells() == Put(old(Cells()), row, col, num)
      ensures !LegalMove(old(Cells()), row, col, num) ==> Cells() == old(Cells())
      ensures Consistent(old(Cells())) ==> Consistent(Cells())
    {
      ghost var g := Cells();
      var legal := IsValidMove(row, col, num);
      if legal {
        grid[row, col] := num;
        SameBoard(Cells(), Put(g, row, col, num));
        if Consistent(g) {
          LegalMoveKeepsConsistent(g, row, col, num);
        }
      }
    }

    /**
     * fillCell: the same write as setCell; the message it prints for a
     * rejected move becomes the result `accepted == false`.
     */
    method FillCell(row: int, col: int, num: int) returns (accepted: bool)
      requires Valid()
      requires 1 <= num <= 9 ==> InBounds(row, col)
      modifies grid
      ensures accepted == LegalMove(old(Cells()), row, col, num)
      ensures accepted ==> Cells() == Put(old(Cells()), row, col, num)
      ensures !accepted ==> Cells() == old(Cells())
      ensures Consistent(old(Cells())) ==> Consistent(Cells())
    {
      ghost var g := Cells();
      accepted := IsValidMove(row, col, num);
      if accepted {
        grid[row, col] := num;
        SameBoard(Cells(), Put(g, row, col, num));
        if Consistent(g) {
          LegalMoveKeepsConsistent(g, row, col, num);
        }
      }
    }

    /** clearCell: the cell becomes 0; an empty cell is left as it is. */
    method ClearCell(row: int, col: int)
      requires Valid() && InBounds(row, col)
      modifies grid
      ensures Cells() == Put(old(Cells()), row, col, 0)
      ensures old(Cells())[row][col] == 0 ==> Cells() == old(Cells())
      ensures Consistent(old(Cells())) ==> Consistent(Cells())
    {
      ghost var g := Cells();
      if grid[row, col] != 0 {
        grid[row, col] := 0;
      }
      SameBoard(Cells(), Put(g, row, col, 0));
      if g[row][col] == 0 {
        SameBoard(g, Put(g, row, col, 0));
      }
      if Consistent(g) {
        ClearKeepsConsistent(g, row, col);
      }
    }

    /**
     * initializeGrid: the shape guard looks at the number of rows and at the
     * length of row 0 only. Each row is then copied with System.arraycopy,
     * which throws, before copying anything of that row, when the row has
     * fewer than nine values; the rows before it stay copied. Values are
     * not checked.
     */
    method InitializeGrid(initialValues: seq<seq<int>>) returns (outcome: LoadOutcome)
      requires Valid()
      modifies grid
      ensures !(|initialValues| == 9 && |initialValues[0]| == 9) <==> outcome == ShapeRejected
      ensures outcome == ShapeRejected ==> Cells() == old(Cells())
      ensures outcome == Loaded <==>
        |initialValues| == 9 && |initialValues[0]| == 9 && forall i :: 0 <= i < 9 ==> |initialValues[i]| >= 9
      ensures outcome == Loaded ==> Cells() == CopyRows(old(Cells()), initialValues, 9)
      ensures outcome.RowTooShort? ==>
        && outcome.row < 9 == |initialValues|
        && |initialValues[outcome.row]| < 9
        && (forall i :: 0 <= i < outcome.row ==> |initialValues[i]| >= 9)
        && Cells() == CopyRows(old(Cells()), initialValues, outcome.row)
    {
      if !(|initialValues| == 9 && |initialValues[0]| == 9) {
        return ShapeRejected;
      }
      ghost var g := Cells();
      for i := 0 to 9
        invariant forall k :: 0 <= k < i ==> |initialValues[k]| >= 9
        invariant forall a, b :: 0 <= a < 9 && 0 <= b < 9 ==>
          grid[a, b] == if a < i then initialValues[a][b] else g[a][b]
      {
        if |initialValues[i]| < 9 {
          SameBoard(Cells(), CopyRows(g, initialValues, i));
          return RowTooShort(i);
        }
        forall j | 0 <= j < 9 {
          grid[i, j] := initialValues[i][j];
        }
      }
      SameBoard(Cells(), CopyRows(g, initialValues, 9));
      return Loaded;
    }

    // ----- Rule checks (read only) -----

    /**
     * isValidMove. The cell is read only once `num` is known to be in 1..9,
     * so only then must (row, col) lie on the board.
     */
    method IsValidMove(row: int, col: int, num: int) returns (ok: bool)
      requires Valid()
      requires 1 <= num <= 9 ==> InBounds(row, col)
      ensures ok == LegalMove(Cells(), row, col, num)
    {
      if num < 1 || num > 9 || grid[row, col] != 0 {
        return false;
      }
      ghost var g := Cells();
      for i := 0 to 9
        invariant forall k :: 0 <= k < i ==> g[row][k] != num && g[k][col] != num
      {
        if grid[row, i] == num || grid[i, col] == num {
          assert g[row][i] == num || Column(g, col)[i] == num;
          return false;
        }
      }
      assert num !in g[row] && num !in Column(g, col);
      var startRow := (row / 3) * 3;
      var startCol := (col / 3) * 3;
      BandIsQuotient(row);
      BandIsQuotient(col);
      var found := BoxContains(startRow, startCol, num);
      return !found;
    }

    /** The box loops of isValidMove: whether `num` occurs in the block with corner (startRow, startCol). */
    method BoxContains(startRow: int, startCol: int, num: int) returns (found: bool)
      requires Valid() && 0 <= startRow <= 6 && 0 <= startCol <= 6
      ensures found == (num in Box(Cells(), startRow, startCol))
    {
      ghost var g := Cells();
      for i := startRow to startRow + 3
        invariant forall a, b :: startRow <= a < i && startCol <= b < startCol + 3 ==> g[a][b] != num
      {
        for j := startCol to startCol + 3
          invariant forall a, b :: startRow <= a < i && startCol <= b < startCol + 3 ==> g[a][b] != num
          invariant forall b :: startCol <= b < j ==> g[i][b] != num
        {
          if grid[i, j] == num {
            BoxCell(g, startRow, startCol, i, j);
            assert Box(g, startRow, startCol)[3 * (i - startRow) + (j - startCol)] == num;
            return true;
          }
        }
      }
      NotInBox(g, startRow, startCol, num);
      return false;
    }

    /** isSolved: completeness only, the rules are not consulted. */
    method IsSolved() returns (solved: bool)
      requires Valid()
      ensures solved == Full(Cells())
    {
      for row := 0 to 9
        invariant forall i, j :: 0 <= i < row && 0 <= j < 9 ==> grid[i, j] != 0
      {
        for col := 0 to 9
          invariant forall j :: 0 <= j < col ==> grid[row, j] != 0
        {
          if grid[row, col] == 0 {
            return false;
          }
        }
      }
      return true;
    }

    /**
     * findEmptyCell: the first empty cell in row-major order, or (-1, -1)
     * when the board is full.
     */
    method FindEmptyCell() returns (row: int, col: int)
      requires Valid()
      ensures Full(Cells()) ==> row == -1 && col == -1
      ensures !Full(Cells()) ==> FirstEmpty(Cells(), row, col)
    {
      for i := 0 to 9
        invariant forall a, b :: 0 <= a < i && 0 <= b < 9 ==> grid[a, b] != 0
      {
        for j := 0 to 9
          invariant forall b :: 0 <= b < j ==> grid[i, b] != 0
        {
          if grid[i, j] == 0 {
            return i, j;
          }
        }
      }
      return -1, -1;
    }

    // ----- Generator -----

    /**
     * fillValidSudoku: backtracking on the first empty cell. `shuffles(draws)`
     * is the order in which this call tries the values 1..9; the recursive
     * calls consume the following orders, and `draws'` is the index of the
     * first order left unused. On success every empty cell has been given a
     * puzzle value; on failure every tentative write has been undone, and
     * then no solution keeps the values the board started with: the search
     * is complete.
     */
    method FillValidSudoku(shuffles: nat -> seq<int>, draws: nat) returns (ok: bool, draws': nat)
      requires Valid() && forall n :: IsPermutation(shuffles(n))
      modifies grid
      decreases |EmptyCells(Cells())|, 1
      ensures draws' >= draws
      ensures ok ==> Full(Cells()) && FillsIn(old(Cells()), Cells())
      ensures ok && Consistent(old(Cells())) ==> Consistent(Cells())
      ensures !ok ==> Cells() == old(Cells()) && !Completable(old(Cells()))
    {
      ghost var g := Cells();
      var row, col := FindEmptyCell();
      if row == -1 && col == -1 {
        return true, draws;
      }
      var order := shuffles(draws);
      draws' := draws + 1;
      for k := 0 to 9
        invariant Cells() == g && draws' > draws
        invariant Excluded(g, row, col, order[..k])
      {
        var num := order[k];
        var legal := IsValidMove(row, col, num);
        if legal {
          ok, draws' := TryValue(row, col, num, shuffles, draws');
          if ok {
            return;
          }
        }
        ExcludeValue(g, row, col, order, k);
      }
      assert order[..9] == order;
      AllExcluded(g, row, col, order);
      return false, draws';
    }

    /**
     * The body of the loop in fillValidSudoku for a value that isValidMove
     * accepted: write it, recurse on the rest of the board, and clear the
     * cell again when the recursion fails.
     */
    method TryValue(row: int, col: int, num: int, shuffles: nat -> seq<int>, draws: nat) returns (ok: bool, draws': nat)
      requires Valid() && forall n :: IsPermutation(shuffles(n))
      requires LegalMove(Cells(), row, col, num)
      modifies grid
      decreases |EmptyCells(Cells())|, 0
      ensures draws' >= draws
      ensures ok ==> Full(Cells()) && FillsIn(old(Cells()), Cells())
      ensures ok && Consistent(old(Cells())) ==> Consistent(Cells())
      ensures !ok ==> Cells() == old(Cells()) && !Completable(Put(old(Cells()), row, col, num))
    {
      ghost var g := Cells();
      grid[row, col] := num;
      SameBoard(Cells(), Put(g, row, col, num));
      FillShrinksEmpty(g, row, col, num);
      ok, draws' := FillValidSudoku(shuffles, draws);
      if ok {
        FillsInAfterPut(g, row, col, num, Cells());
        if Consistent(g) {
          LegalMoveKeepsConsistent(g, row, col, num);
        }
        return;
      }
      grid[row, col] := 0;
      SameBoard(Cells(), g);
    }

    /**
     * generateValidSudokuGrid: clear every cell, then fill the board by
     * backtracking. The boolean that the fill returns is dropped, as in the
     * source; it is always true, because the empty board can be completed.
     */
    method GenerateValidSudokuGrid(shuffles: nat -> seq<int>)
      requires Valid() && forall n :: IsPermutation(shuffles(n))
      modifies grid
      ensures IsSolution(Cells())
    {
      for i := 0 to 9
        invariant forall a, b :: 0 <= a < i && 0 <= b < 9 ==> grid[a, b] == 0
      {
        for j := 0 to 9
          invariant forall a, b :: 0 <= a < i && 0 <= b < 9 ==> grid[a, b] == 0
          invariant forall b :: 0 <= b < j ==> grid[i, b] == 0
        {
          grid[i, j] := 0;
        }
      }
      SameBoard(Cells(), EmptyGrid());
      EmptyGridCompletable();
      EmptyGridConsistent();
      var _, _ := FillValidSudoku(shuffles, 0);
    }

    /**
     * removeNumbers: a count outside 0..81 is rejected and nothing changes;
     * otherwise exactly `numToRemove` filled cells are emptied.
     */
    method RemoveNumbers(numToRemove: int)
      requires Valid()
      requires 0 <= numToRemove <= 81 ==> numToRemove <= |FilledCells(Cells())|
      modifies grid
      ensures !(0 <= numToRemove <= 81) ==> Cells() == old(Cells())
      ensures Erases(old(Cells()), Cells())
      ensures 0 <= numToRemove <= 81 ==> |FilledCells(Cells())| == |FilledCells(old(Cells()))| - numToRemove
      ensures Consistent(old(Cells())) ==> Consistent(Cells())
    {
      if numToRemove < 0 || numToRemove > 81 {
        return;
      }
      ghost var g := Cells();
      var count := 0;
      while count < numToRemove
        invariant 0 <= count <= numToRemove
        invariant Erases(g, Cells())
        invariant |FilledCells(Cells())| == |FilledCells(g)| - count
        invariant Consistent(g) ==> Consistent(Cells())
        decreases numToRemove - count
      {
        ghost var cur := Cells();
        ghost var cell :| cell in FilledCells(cur);
        assert grid[cell.0, cell.1] != 0;
        var row, col :| 0 <= row < 9 && 0 <= col < 9 && grid[row, col] != 0;
        grid[row, col] := 0;
        SameBoard(Cells(), Put(cur, row, col, 0));
        ClearShrinksFilled(cur, row, col);
        if Consistent(g) {
          ClearKeepsConsistent(cur, row, col);
        }
        count := count + 1;
      }
    }

    /** The row-scan part of isValidSudoku, for one row. */
    method ScanRow(row: int) returns (ok: bool)
      requires Valid() && 0 <= row < 9 && ValuesInRange(Cells())
      ensures ok == NoRepeat(Cells()[row])
    {
      ghost var s := Cells()[row];
      var used := new bool[10](_ => false);
      for col := 0 to 9
        invariant Scanned(s, col, used[..])
      {
        ghost var u := used[..];
        var num := grid[row, col];
        assert num == s[col];
        if num != 0 {
          if used[num] {
            RepeatFound(s, col, u);
            return false;
          }
          used[num] := true;
        }
        ScanStep(s, col, u);
        assert used[..] == if num == 0 then u else u[num := true];
      }
      ScanComplete(s, used[..]);
      return true;
    }

    /** The column-scan part of isValidSudoku, for one column. */
    method ScanColumn(col: int) returns (ok: bool)
      requires Valid() && 0 <= col < 9 && ValuesInRange(Cells())
      ensures ok == NoRepeat(Column(Cells(), col))
    {
      ghost var s := Column(Cells(), col);
      var used := new bool[10](_ => false);
      for row := 0 to 9
        invariant Scanned(s, row, used[..])
      {
        ghost var u := used[..];
        var num := grid[row, col];
        assert num == s[row];
        if num != 0 {
          if used[num] {
            RepeatFound(s, row, u);
            return false;
          }
          used[num] := true;
        }
        ScanStep(s, row, u);
        assert used[..] == if num == 0 then u else u[num := true];
      }
      ScanComplete(s, used[..]);
      return true;
    }

    /** The box part of isValidSudoku, for the block whose top-left cell is (row, col). */
    method ScanBox(row: int, col: int) returns (ok: bool)
      requires Valid() && ValuesInRange(Cells())
      requires 0 <= row <= 6 && 0 <= col <= 6
      ensures ok == NoRepeat(Box(Cells(), row, col))
    {
      ghost var g := Cells();
      ghost var s := Box(g, row, col);
      var used := new bool[10](_ => false);
      for i := row to row + 3
        invariant Scanned(s, 3 * (i - row), used[..])
      {
        for j := col to col + 3
          invariant Scanned(s, 3 * (i - row) + (j - col), used[..])
        {
          ghost var t := 3 * (i - row) + (j - col);
          ghost var u := used[..];
          var num := grid[i, j];
          BoxCell(g, row, col, i, j);
          assert num == g[i][j] == s[t];
          if num != 0 {
            if used[num] {
              RepeatFound(s, t, u);
              return false;
            }
            used[num] := true;
          }
          ScanStep(s, t, u);
          assert used[..] == if num == 0 then u else u[num := true];
        }
      }
      ScanComplete(s, used[..]);
      return true;
    }

    /**
     * isValidSudoku: every row, then every column, then every aligned box is
     * scanned for a repeated nonzero value.
     */
    method IsValidSudoku() returns (ok: bool)
      requires Valid() && ValuesInRange(Cells())
      ensures ok == Consistent(Cells())
    {
      ok := ScanRows();
      if ok {
        ok := ScanColumns();
        if ok {
          ok := ScanBoxes();
        }
      }
    }

    /** The first phase of isValidSudoku: every row in turn. */
    method ScanRows() returns (ok: bool)
      requires Valid() && ValuesInRange(Cells())
      ensures ok == RowsOk(Cells())
    {
      for row := 0 to 9
        invariant forall r :: 0 <= r < row ==> NoRepeat(Cells()[r])
      {
        ok := ScanRow(row);
        if !ok {
          return;
        }
      }
      return true;
    }

    /** The second phase of isValidSudoku: every column in turn. */
    method ScanColumns() returns (ok: bool)
      requires Valid() && ValuesInRange(Cells())
      ensures ok == ColumnsOk(Cells())
    {
      for col := 0 to 9
        invariant forall c :: 0 <= c < col ==> NoRepeat(Column(Cells(), c))
      {
        ok := ScanColumn(col);
        if !ok {
          return;
        }
      }
      return true;
    }

    /** The third phase of isValidSudoku: the nine aligned boxes, row of boxes by row of boxes. */
    method ScanBoxes() returns (ok: bool)
      requires Valid() && ValuesInRange(Cells())
      ensures ok == BoxesOk(Cells())
    {
      // box row br stands for the source's corner row 3 * br, stepped by 3
      for br := 0 to 3
        invariant forall i, j :: 0 <= i < br && 0 <= j < 3 ==> BlockOk(Cells(), i, j)
      {
        ok := ScanBoxRow(br);
        if !ok {
          return;
        }
      }
      return true;
    }

    /** The inner loop of the third phase: the three boxes whose corner is on row 3 * br. */
    method ScanBoxRow(br: int) returns (ok: bool)
      requires Valid() && ValuesInRange(Cells()) && 0 <= br < 3
      ensures ok == forall j :: 0 <= j < 3 ==> BlockOk(Cells(), br, j)
    {
      // box column bc stands for the source's corner column 3 * bc, stepped by 3
      for bc := 0 to 3
        invariant forall j :: 0 <= j < bc ==> BlockOk(Cells(), br, j)
      {
        ok := ScanBox(3 * br, 3 * bc);
        if !ok {
          assert !BlockOk(Cells(), br, bc);
          return;
        }
        BlockRowStep(Cells(), br, bc);
      }
      return true;
    }
  }

  /**
   * The state of a scan after the first t elements of `s`: no repeat so
   * far, and `used[v]` holds exactly for the values met so far.
   */
  predicate Scanned(s: seq<int>, t: int, used: seq<bool>)
    requires 0 <= t <= |s|
  {
    |used| == 10 && NoRepeat(s[..t]) && forall v :: 1 <= v <= 9 ==> (used[v] <==> v in s[..t])
  }

  /** Reading a value not yet marked (or a 0) extends the scan by one element. */
  lemma ScanStep(s: seq<int>, t: int, used: seq<bool>)
    requires 0 <= t < |s| && Scanned(s, t, used) && 0 <= s[t] <= 9 && (s[t] == 0 || !used[s[t]])
    ensures Scanned(s, t + 1, if s[t] == 0 then used else used[s[t] := true])
  {
    assert s[..t + 1] == s[..t] + [s[t]];
  }

  /** Reading a value already marked is a repeat in `s`. */
  lemma RepeatFound(s: seq<int>, t: int, used: seq<bool>)
    requires 0 <= t < |s| && Scanned(s, t, used) && 1 <= s[t] <= 9 && used[s[t]]
    ensures !NoRepeat(s)
  {
    var p :| 0 <= p < t && s[p] == s[t];
    assert s[p] != 0 && s[p] == s[t];
  }

  /** A scan that reached the end found no repeat. */
  lemma ScanComplete(s: seq<int>, used: seq<bool>)
    requires Scanned(s, |s|, used)
    ensures NoRepeat(s)
  {
    assert s[..|s|] == s;
  }

  /** Two boards that agree on every cell are equal. */
  lemma SameBoard(g: Grid, h: Grid)
    requires IsGrid(g) && IsGrid(h)
    requires forall i, j :: 0 <= i < 9 && 0 <= j < 9 ==> g[i][j] == h[i][j]
    ensures g == h
  {
    forall i | 0 <= i < 9
      ensures g[i] == h[i]
    {
      assert forall j :: 0 <= j < 9 ==> g[i][j] == h[i][j];
    }
  }
}
