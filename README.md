# SudokuGrid in Dafny

A model of the class `SudokuGrid` of a console Sudoku game written in Java.
The class keeps a 9x9 `int[][] grid`, with 0 for an empty cell. Its
operations fall into three groups:

- rule checks that read the board: `isValidMove`, `isSolved`,
  `findEmptyCell` and `isValidSudoku`;
- updates that write the board: `setCell`, `fillCell`, `clearCell` and
  the bulk load `initializeGrid`;
- a generator that works on the board in place: `generateValidSudokuGrid`
  clears the board and fills it by randomised backtracking
  (`fillValidSudoku`), and `removeNumbers` then empties a number of cells.

The project has two modules:

- `SudokuRules` (`sudoku_rules.dfy`) states the rules on values. A board is
  a `seq<seq<int>>`; the module defines legal moves, row/column/box
  consistency, full boards, solutions and the cell counts, and proves the
  lemmas that connect them.
- `Sudoku` (`sudoku_grid.dfy`) is the class itself. `SudokuGrid` wraps a
  9x9 `array2<int>`. The ghost function `Cells()` reads the array as a board
  value, and every method is proved against the predicates of `SudokuRules`.
  The loops of the Java code are loops here too, with their invariants.

Randomness becomes parameters. `Collections.shuffle` becomes a function
`shuffles: nat -> seq<int>`, where `shuffles(n)` is the order that the n-th
shuffle of the list 1..9 produced; any permutation is allowed. The random
cell that a retry of `removeNumbers` finally hits is a nondeterministic
choice of some filled cell.

The model follows the Java code in these places:

- `initializeGrid` checks only the number of rows and the length of row 0.
  A later row shorter than nine values makes `System.arraycopy` throw once
  the rows before it have been copied. `LoadOutcome.RowTooShort(i)` models
  that case. A row longer than nine has only its first nine values copied.
- `removeNumbers` checks that its count lies in 0..81, but when fewer cells
  are filled than it is asked to empty, its retry loop never ends.
  `RemoveNumbers` therefore requires enough filled cells.

The search is proved complete, not only sound. If `FillValidSudoku` reports
failure, it has undone all its writes and no solution keeps the values the
board started with (`!Completable`). The empty board can be completed: a
fixed solved board, `Pattern()`, is a witness. So `GenerateValidSudokuGrid`
always ends with a solved, consistent board, whatever the shuffles were.

## Model

| member | source | states |
|---|---|---|
| Sudoku.SudokuGrid.constructor | src/SudokuGrid.java:8 | a fresh 9x9 array whose board is the empty board |
| Sudoku.SudokuGrid.InitializeGrid | src/SudokuGrid.java:13-20 | the matrix is rejected, with the board unchanged, exactly when it does not have 9 rows with row 0 of length 9; it is loaded exactly when every row has at least 9 values, and then the board is the first nine values of each row; otherwise the first short row is reported and the rows before it are already copied |
| Sudoku.SudokuGrid.IsValidMove | src/SudokuGrid.java:22-46 | the result is true exactly when num is in 1..9, the cell is empty, and num is in neither the row, the column nor the box of the cell |
| Sudoku.SudokuGrid.BoxContains | src/SudokuGrid.java:35-43 | the box loops find num exactly when num occurs in the 3x3 block whose corner is (startRow, startCol) |
| Sudoku.SudokuGrid.IsSolved | src/SudokuGrid.java:48-57 | true exactly when no cell is 0 (completeness only, the rules are not consulted) |
| Sudoku.SudokuGrid.SetCell | src/SudokuGrid.java:63-67 | a legal move writes num into exactly that cell; any other call leaves the board unchanged; a consistent board stays consistent |
| Sudoku.SudokuGrid.FillCell | src/SudokuGrid.java:278-284 | the same write as setCell; the rejected case, which prints a message in the source, is reported as accepted == false |
| Sudoku.SudokuGrid.ClearCell | src/SudokuGrid.java:69-73 | the cell becomes 0 and no other cell changes; on an empty cell nothing changes; consistency is kept |
| Sudoku.SudokuGrid.GenerateValidSudokuGrid | src/SudokuGrid.java:75-87 | whatever the shuffles, the board ends fully filled with values 1..9 and with no row, column or box repeating a value |
| Sudoku.SudokuGrid.FillValidSudoku | src/SudokuGrid.java:89-120 | on success every empty cell has received a puzzle value, the filled cells keep their values, and a consistent board stays consistent; on failure the board is back as it was and no solution keeps its values |
| Sudoku.SudokuGrid.TryValue | src/SudokuGrid.java:105-115 | after placing a legal value and recursing: success as above, or the cell is cleared again and the board with that value placed cannot be completed |
| Sudoku.SudokuGrid.FindEmptyCell | src/SudokuGrid.java:122-131 | (-1, -1) on a full board; otherwise an empty cell such that every cell before it in row-major order is filled |
| Sudoku.SudokuGrid.IsValidSudoku | src/SudokuGrid.java:133-181 | true exactly when no row, no column and no aligned 3x3 box holds a nonzero value twice |
| Sudoku.SudokuGrid.ScanRows | src/SudokuGrid.java:134-146 | true exactly when no row repeats a nonzero value |
| Sudoku.SudokuGrid.ScanRow | src/SudokuGrid.java:136-145 | the used-array scan of one row returns true exactly when that row repeats no nonzero value |
| Sudoku.SudokuGrid.ScanColumns | src/SudokuGrid.java:148-160 | true exactly when no column repeats a nonzero value |
| Sudoku.SudokuGrid.ScanColumn | src/SudokuGrid.java:150-159 | the used-array scan of one column returns true exactly when that column repeats no nonzero value |
| Sudoku.SudokuGrid.ScanBoxes | src/SudokuGrid.java:162-178 | true exactly when none of the nine aligned boxes repeats a nonzero value |
| Sudoku.SudokuGrid.ScanBoxRow | src/SudokuGrid.java:164-177 | for the box corners on one row of boxes: true exactly when none of its three boxes repeats a nonzero value |
| Sudoku.SudokuGrid.ScanBox | src/SudokuGrid.java:165-176 | the used-array scan of one block returns true exactly when that block repeats no nonzero value |
| Sudoku.SudokuGrid.RemoveNumbers | src/SudokuGrid.java:193-211 | a count outside 0..81 changes nothing; otherwise cells are only ever emptied, the number of filled cells drops by exactly the count, and consistency is kept |
| Sudoku.ScanStep | src/SudokuGrid.java:138-144 | reading a 0, or a value not yet marked in used, extends a repeat-free scan by one element with used marking exactly the values seen |
| Sudoku.RepeatFound | src/SudokuGrid.java:140-141 | reading a value already marked in used means the region repeats that value |
| SudokuRules.LegalMoveIffStaysConsistent | src/SudokuGrid.java:22-45 | on a consistent board, placing a value 1..9 into an empty cell keeps the board consistent exactly when isValidMove accepts it |
| SudokuRules.LegalMoveKeepsConsistent | src/SudokuGrid.java:63-67 | a legal move on a consistent board keeps it consistent |
| SudokuRules.IllegalMoveBreaksConsistent | src/SudokuGrid.java:27-43 | a value already in the row, column or box of an empty cell breaks consistency once placed there |
| SudokuRules.RowZeroMoves | src/SudokuGrid.java:22-45 | with 5 3 4 6 7 8 9 1 2 in row 0 of an empty board: 3 and 5 are rejected at the occupied (0, 1), 3 is rejected at (1, 1) because its box holds 3, and 6 is accepted at (1, 1) |
| SudokuRules.ConsistentIffNoPeerConflict | src/SudokuGrid.java:133-181 | the region-by-region check agrees with the reading "no two cells sharing a row, column or box hold the same nonzero value" |
| SudokuRules.ConsistentPeersDiffer | src/SudokuGrid.java:133-181 | on a consistent board two cells sharing a row, column or box never hold the same nonzero value |
| SudokuRules.OverwriteBreaksConsistent | src/SudokuGrid.java:133-181 | overwriting a cell of a solved board with another value of its row, without the move check, makes the board inconsistent |
| SudokuRules.FullIffAllFilled | src/SudokuGrid.java:48-57 | a board has no empty cell exactly when 81 of its cells are filled |
| SudokuRules.CellsPartition | src/SudokuGrid.java:48-57 | the filled and the empty cells are disjoint and number 81 together |
| SudokuRules.ClearKeepsConsistent | src/SudokuGrid.java:69-73 | emptying any cell of a consistent board keeps it consistent |
| SudokuRules.ClearUndoesMove | src/SudokuGrid.java:106-114 | clearing the cell that a legal move filled gives back the board before the move |
| SudokuRules.LoadRoundTrip | src/SudokuGrid.java:13-20 | loading a 9x9 matrix and reading the board back gives that matrix |
| SudokuRules.SolutionValueIsLegal | src/SudokuGrid.java:104-106 | the value that any solution holds at an empty cell passes the move check there |
| SudokuRules.ExcludeValue | src/SudokuGrid.java:104-116 | a candidate that is rejected, or whose placement cannot be completed, is held at that cell by no solution: the excluded prefix of the order grows by one |
| SudokuRules.AllExcluded | src/SudokuGrid.java:118-119 | once every value 1..9 is excluded at an empty cell, no solution keeps the board's values |
| SudokuRules.FillsInAfterPut | src/SudokuGrid.java:106-110 | a completion of the board with the candidate placed is a completion of the board before it |
| SudokuRules.FillShrinksEmpty | src/SudokuGrid.java:106 | filling an empty cell removes exactly that cell from the empty cells, so the recursion works on one empty cell less |
| SudokuRules.ClearShrinksFilled | src/SudokuGrid.java:206-208 | emptying a filled cell removes exactly that cell from the filled cells |
| SudokuRules.RemovalFromFullBoard | src/SudokuGrid.java:9-10 | emptying k > 0 cells of a full board leaves exactly 81 - k filled cells and a board that is not solved (31 for the constructor's 50) |
| SudokuRules.EmptyGridConsistent | src/SudokuGrid.java:79-83 | the cleared board breaks no rule |
| SudokuRules.PatternIsSolution | src/SudokuGrid.java:85-86 | a fixed board is filled with values 1..9 and repeats no value in any row, column or box |
| SudokuRules.EmptyGridCompletable | src/SudokuGrid.java:85-86 | some solution exists for the cleared board, so the fill cannot fail from it |
| SudokuRules.BandIsQuotient | src/SudokuGrid.java:35-36 | the box band of an index 0..8 is its quotient by 3, and its place in the band is its remainder |

## Left out

- main, printGrid, displayGrid and getUserInput: console input and output, outside the game's state.
- Printed messages: the message of removeNumbers for a bad count is left out, and the message of fillCell becomes its boolean result.
- getGrid: it returns the array itself, so callers share it. The model reads the board through `Cells()` and does not model outside aliasing of the array.
- The constructor's calls to generateValidSudokuGrid and removeNumbers(50): the constructor only allocates the empty board. `RemovalFromFullBoard` states what those two calls leave behind together.
- Real randomness: shuffles and removal picks are parameters or nondeterministic choices, so no statement about their distribution is made.
- Sudoku.SudokuGrid.RemoveNumbers: the Java retry loop with random picks is folded into one choice of a filled cell per removal. The model requires at least as many filled cells as the count, because the Java loop never ends otherwise.
- Sudoku.SudokuGrid.IsValidSudoku: requires every cell to hold 0..9. Only initializeGrid can store other values. On such a board the Java `used[num]` throws `ArrayIndexOutOfBoundsException` once a scan reaches an out-of-range value, unless an earlier repeat has already returned false; the model excludes such boards. The same requirement is on the scan methods beneath it.
- Sudoku.SudokuGrid.IsValidMove, SetCell, FillCell and ClearCell: coordinates off the board, for which Java throws, are excluded by requires. isValidMove reads the cell only once num is in 1..9, so its requires asks for valid coordinates only then.
- Sudoku.SudokuGrid.InitializeGrid: a null matrix or a null row, and the exception that a null row would raise, are not modelled. The matrix is a sequence value, so it cannot be aliased.
- Sudoku.SudokuGrid.FillValidSudoku: the Java method takes the board and a `Random` as parameters. It is always called with the grid field, and the `Random` is never used by `Collections.shuffle`. The model works on the field and takes the shuffles instead.
- Sudoku.SudokuGrid.ScanBoxes and ScanBoxRow: the Java loops step the corner by 3 (`row += 3`). The model counts box rows and box columns 0..2 and passes `3 * br` and `3 * bc` as the corner.
- Integer width: no arithmetic in the core leaves 0..81 (the box corner `(row / 3) * 3`, the loop indices, the removal count), and loaded cell values and arguments are only compared and copied, so 32-bit overflow cannot occur and is not modelled.
