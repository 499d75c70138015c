/**
 * The rules of a 9x9 Sudoku board, stated on values.
 *
 * A board is nine rows of nine integers, as the Java class keeps it in its
 * `int[][] grid`; 0 marks an empty cell and 1..9 are puzzle values. Every
 * predicate here is the specification that a method of `Sudoku.SudokuGrid`
 * is proved against.
 */
module SudokuRules {

  type Grid = seq<seq<int>>

  /** The 9x9 shape. */
  predicate IsGrid(g: Grid) {
    |g| == 9 && forall i :: 0 <= i < 9 ==> |g[i]| == 9
  }

  predicate InBounds(r: int, c: int) {
    0 <= r < 9 && 0 <= c < 9
  }

  /** The board of 81 empty cells. */
  function EmptyGrid(): (g: Grid)
    ensures IsGrid(g)
  {
    seq(9, i => seq(9, j => 0))
  }

  /** Every cell holds 0 or a puzzle value (what `used[num]` in isValidSudoku can index). */
  predicate ValuesInRange(g: Grid)
    requires IsGrid(g)
  {
    forall i, j :: 0 <= i < 9 && 0 <= j < 9 ==> 0 <= g[i][j] <= 9
  }

  /** The board `g` with cell (r, c) overwritten by `v`. */
  function Put(g: Grid, r: int, c: int, v: int): (h: Grid)
    requires IsGrid(g) && InBounds(r, c)
    ensures IsGrid(h)
    ensures forall i, j :: 0 <= i < 9 && 0 <= j < 9 ==> h[i][j] == if i == r && j == c then v else g[i][j]
  {
    g[r := g[r][c := v]]
  }

  // ----- Regions -----

  function Column(g: Grid, c: int): (s: seq<int>)
    requires IsGrid(g) && 0 <= c < 9
    ensures |s| == 9 && forall i :: 0 <= i < 9 ==> s[i] == g[i][c]
  {
    seq(9, i requires 0 <= i < 9 => g[i][c])
  }

  /** The band 0, 1 or 2 that a row or column index lies in: what `r / 3` is on the board. */
  function Band(r: int): int {
    if r < 3 then 0 else if r < 6 then 1 else 2
  }

  /** The position of an index within its band: what `r % 3` is on the board. */
  function Offset(r: int): int {
    r - 3 * Band(r)
  }

  lemma BandIsQuotient(r: int)
    requires 0 <= r < 9
    ensures Band(r) == r / 3 && Offset(r) == r % 3
  {
  }

  /**
   * The 3x3 block whose top-left cell is (r0, c0), read row by row: its
   * k-th element is the cell at offset (Band(k), Offset(k)) from that corner.
   * The boxes of the board are the blocks with r0 and c0 in {0, 3, 6}.
   */
  function Box(g: Grid, r0: int, c0: int): (s: seq<int>)
    requires IsGrid(g) && 0 <= r0 <= 6 && 0 <= c0 <= 6
    ensures |s| == 9 && forall k :: 0 <= k < 9 ==> s[k] == g[r0 + Band(k)][c0 + Offset(k)]
  {
    seq(9, k requires 0 <= k < 9 => g[r0 + Band(k)][c0 + Offset(k)])
  }

  /** Position k of a box cell at offset (a, b) from the box's corner. */
  lemma BoxOffset(a: int, b: int)
    requires 0 <= a < 3 && 0 <= b < 3
    ensures 0 <= 3 * a + b < 9 && Band(3 * a + b) == a && Offset(3 * a + b) == b
  {
  }

  /** Cell (i, j) of the block with corner (r0, c0) is its element 3 * (i - r0) + (j - c0). */
  lemma BoxCell(g: Grid, r0: int, c0: int, i: int, j: int)
    requires IsGrid(g) && 0 <= r0 <= 6 && 0 <= c0 <= 6 && r0 <= i < r0 + 3 && c0 <= j < c0 + 3
    ensures Box(g, r0, c0)[3 * (i - r0) + (j - c0)] == g[i][j]
  {
    BoxOffset(i - r0, j - c0);
  }

  /** A value that no cell of the block holds is not in the block's sequence. */
  lemma NotInBox(g: Grid, r0: int, c0: int, v: int)
    requires IsGrid(g) && 0 <= r0 <= 6 && 0 <= c0 <= 6
    requires forall a, b :: r0 <= a < r0 + 3 && c0 <= b < c0 + 3 ==> g[a][b] != v
    ensures v !in Box(g, r0, c0)
  {
    forall k | 0 <= k < 9
      ensures Box(g, r0, c0)[k] != v
    {
      BoxOffset(Band(k), Offset(k));
    }
  }

  /** A value in a block's sequence is held by one of the block's cells. */
  lemma BoxWitness(g: Grid, r0: int, c0: int, v: int) returns (i: int, j: int)
    requires IsGrid(g) && 0 <= r0 <= 6 && 0 <= c0 <= 6 && v in Box(g, r0, c0)
    ensures r0 <= i < r0 + 3 && c0 <= j < c0 + 3 && g[i][j] == v
  {
    var k :| 0 <= k < 9 && Box(g, r0, c0)[k] == v;
    i, j := r0 + Band(k), c0 + Offset(k);
  }

  /** Cell (i, j) is element 3 * Offset(i) + Offset(j) of the box with corner (3 * Band(i), 3 * Band(j)). */
  lemma BoxElement(g: Grid, i: int, j: int)
    requires IsGrid(g) && InBounds(i, j)
    ensures 0 <= Band(i) < 3 && 0 <= Band(j) < 3 && 0 <= 3 * Offset(i) + Offset(j) < 9
    ensures Box(g, 3 * Band(i), 3 * Band(j))[3 * Offset(i) + Offset(j)] == g[i][j]
  {
    BoxOffset(Offset(i), Offset(j));
  }

  // ----- The move check -----

  /**
   * A legal placement: `v` is a puzzle value, (r, c) is an empty cell, and
   * `v` occurs neither in row r, nor in column c, nor in the box holding
   * (r, c).
   */
  predicate LegalMove(g: Grid, r: int, c: int, v: int)
    requires IsGrid(g)
  {
    1 <= v <= 9 && InBounds(r, c) && g[r][c] == 0
    && v !in g[r] && v !in Column(g, c) && v !in Box(g, 3 * Band(r), 3 * Band(c))
  }

  /** A candidate order as `Collections.shuffle` leaves the list 1..9: a permutation of it. */
  predicate IsPermutation(order: seq<int>) {
    |order| == 9 && forall v :: 1 <= v <= 9 ==> v in order
  }

  // ----- Completeness and consistency -----

  /** No empty cell is left; nothing is said about the rules. */
  predicate Full(g: Grid)
    requires IsGrid(g)
  {
    forall i, j :: 0 <= i < 9 && 0 <= j < 9 ==> g[i][j] != 0
  }

  /** (r, c) is empty and every cell before it in row-major order is filled. */
  predicate FirstEmpty(g: Grid, r: int, c: int)
    requires IsGrid(g)
  {
    InBounds(r, c) && g[r][c] == 0
    && (forall i, j :: 0 <= i < r && 0 <= j < 9 ==> g[i][j] != 0)
    && (forall j :: 0 <= j < c ==> g[r][j] != 0)
  }

  /** No nonzero value occurs twice in `s`. */
  predicate NoRepeat(s: seq<int>) {
    forall p, q :: 0 <= p < q < |s| && s[p] != 0 ==> s[p] != s[q]
  }

  predicate RowsOk(g: Grid)
    requires IsGrid(g)
  {
    forall r :: 0 <= r < 9 ==> NoRepeat(g[r])
  }

  predicate ColumnsOk(g: Grid)
    requires IsGrid(g)
  {
    forall c :: 0 <= c < 9 ==> NoRepeat(Column(g, c))
  }

  /** The aligned box in box row br and box column bc repeats no nonzero value. */
  predicate BlockOk(g: Grid, br: int, bc: int)
    requires IsGrid(g) && 0 <= br < 3 && 0 <= bc < 3
  {
    NoRepeat(Box(g, 3 * br, 3 * bc))
  }

  /** One more box of a box row checked: the checked prefix of that box row grows by one. */
  lemma BlockRowStep(g: Grid, br: int, bc: int)
    requires IsGrid(g) && 0 <= br < 3 && 0 <= bc < 3
    requires forall j :: 0 <= j < bc ==> BlockOk(g, br, j)
    requires BlockOk(g, br, bc)
    ensures forall j :: 0 <= j < bc + 1 ==> BlockOk(g, br, j)
  {
  }

  predicate BoxesOk(g: Grid)
    requires IsGrid(g)
  {
    forall br, bc :: 0 <= br < 3 && 0 <= bc < 3 ==> BlockOk(g, br, bc)
  }

  /** No row, no column and no aligned box repeats a nonzero value. */
  predicate Consistent(g: Grid)
    requires IsGrid(g)
  {
    RowsOk(g) && ColumnsOk(g) && BoxesOk(g)
  }

  /** Two cells are peers when they share a row, a column or a box. */
  predicate Peers(i: int, j: int, i2: int, j2: int) {
    (i != i2 || j != j2) && (i == i2 || j == j2 || (Band(i) == Band(i2) && Band(j) == Band(j2)))
  }

  /** Reference reading of consistency: no two peers hold the same nonzero value. */
  ghost predicate NoPeerConflict(g: Grid)
    requires IsGrid(g)
  {
    forall i, j, i2, j2 ::
      InBounds(i, j) && InBounds(i2, j2) && Peers(i, j, i2, j2) && g[i][j] != 0 ==> g[i][j] != g[i2][j2]
  }

  /** Two distinct box positions name two distinct cells of that box. */
  lemma BoxCellsDistinct(br: int, bc: int, p: int, q: int)
    requires 0 <= br < 3 && 0 <= bc < 3 && 0 <= p < 9 && 0 <= q < 9 && p != q
    ensures InBounds(3 * br + Band(p), 3 * bc + Offset(p)) && InBounds(3 * br + Band(q), 3 * bc + Offset(q))
    ensures Peers(3 * br + Band(p), 3 * bc + Offset(p), 3 * br + Band(q), 3 * bc + Offset(q))
  {
  }

  lemma NoRepeatAt(s: seq<int>, p: int, q: int)
    requires NoRepeat(s) && 0 <= p < |s| && 0 <= q < |s| && p != q && s[p] != 0
    ensures s[p] != s[q]
  {
    if q < p {
      assert s[q] != 0 ==> s[q] != s[p];
    }
  }

  /** In a consistent board two peers never hold the same nonzero value. */
  lemma ConsistentPeersDiffer(g: Grid, i: int, j: int, i2: int, j2: int)
    requires IsGrid(g) && Consistent(g)
    requires InBounds(i, j) && InBounds(i2, j2) && Peers(i, j, i2, j2) && g[i][j] != 0
    ensures g[i][j] != g[i2][j2]
  {
    if i == i2 {
      NoRepeatAt(g[i], j, j2);
    } else if j == j2 {
      NoRepeatAt(Column(g, j), i, i2);
    } else {
      BoxElement(g, i, j);
      BoxElement(g, i2, j2);
      assert BlockOk(g, Band(i), Band(j));
      NoRepeatAt(Box(g, 3 * Band(i), 3 * Band(j)), 3 * Offset(i) + Offset(j), 3 * Offset(i2) + Offset(j2));
    }
  }

  /** The region-by-region check and the peer-by-peer reading agree. */
  lemma ConsistentIffNoPeerConflict(g: Grid)
    requires IsGrid(g)
    ensures Consistent(g) <==> NoPeerConflict(g)
  {
    if Consistent(g) {
      forall i, j, i2, j2 | InBounds(i, j) && InBounds(i2, j2) && Peers(i, j, i2, j2) && g[i][j] != 0
        ensures g[i][j] != g[i2][j2]
      {
        ConsistentPeersDiffer(g, i, j, i2, j2);
      }
    }
    if NoPeerConflict(g) {
      forall r | 0 <= r < 9
        ensures NoRepeat(g[r])
      {
        forall p, q | 0 <= p < q < 9 && g[r][p] != 0
          ensures g[r][p] != g[r][q]
        {
          assert Peers(r, p, r, q);
        }
      }
      forall c | 0 <= c < 9
        ensures NoRepeat(Column(g, c))
      {
        forall p, q | 0 <= p < q < 9 && g[p][c] != 0
          ensures g[p][c] != g[q][c]
        {
          assert Peers(p, c, q, c);
        }
      }
      forall br, bc | 0 <= br < 3 && 0 <= bc < 3
        ensures NoRepeat(Box(g, 3 * br, 3 * bc))
      {
        var s := Box(g, 3 * br, 3 * bc);
        forall p, q | 0 <= p < q < 9 && s[p] != 0
          ensures s[p] != s[q]
        {
          BoxCellsDistinct(br, bc, p, q);
        }
      }
    }
  }

  // ----- Moves and consistency -----

  /** A legal value differs from every peer of the target cell. */
  lemma LegalMoveAvoidsPeers(g: Grid, r: int, c: int, v: int, i: int, j: int)
    requires IsGrid(g) && LegalMove(g, r, c, v) && InBounds(i, j) && Peers(r, c, i, j)
    ensures g[i][j] != v
  {
    if i == r {
      assert g[r][j] in g[r];
    } else if j == c {
      assert Column(g, c)[i] == g[i][c];
    } else {
      BoxElement(g, i, j);
    }
  }

  lemma LegalMoveKeepsConsistent(g: Grid, r: int, c: int, v: int)
    requires IsGrid(g) && Consistent(g) && LegalMove(g, r, c, v)
    ensures Consistent(Put(g, r, c, v))
  {
    var h := Put(g, r, c, v);
    ConsistentIffNoPeerConflict(g);
    forall i, j, i2, j2 | InBounds(i, j) && InBounds(i2, j2) && Peers(i, j, i2, j2) && h[i][j] != 0
      ensures h[i][j] != h[i2][j2]
    {
      if i == r && j == c {
        LegalMoveAvoidsPeers(g, r, c, v, i2, j2);
      } else if i2 == r && j2 == c {
        assert Peers(r, c, i, j);
        LegalMoveAvoidsPeers(g, r, c, v, i, j);
      }
    }
    ConsistentIffNoPeerConflict(h);
  }

  /** Placing `v` at (r, c) while a peer already holds `v` breaks consistency. */
  lemma PeerClash(g: Grid, r: int, c: int, v: int, i: int, j: int)
    requires IsGrid(g) && InBounds(r, c) && InBounds(i, j) && Peers(r, c, i, j)
    requires v != 0 && g[i][j] == v
    ensures !Consistent(Put(g, r, c, v))
  {
    var h := Put(g, r, c, v);
    if Consistent(h) {
      ConsistentPeersDiffer(h, r, c, i, j);
    }
  }

  /** A puzzle value already in the row, column or box of (r, c) clashes once placed there. */
  lemma IllegalMoveBreaksConsistent(g: Grid, r: int, c: int, v: int)
    requires IsGrid(g) && InBounds(r, c) && g[r][c] == 0 && 1 <= v <= 9 && !LegalMove(g, r, c, v)
    ensures !Consistent(Put(g, r, c, v))
  {
    if v in g[r] {
      var j :| 0 <= j < 9 && g[r][j] == v;
      assert j != c;
      assert Peers(r, c, r, j);
      PeerClash(g, r, c, v, r, j);
    } else if v in Column(g, c) {
      var i :| 0 <= i < 9 && Column(g, c)[i] == v;
      assert g[i][c] == v && i != r;
      assert Peers(r, c, i, c);
      PeerClash(g, r, c, v, i, c);
    } else {
      var i, j := BoxWitness(g, 3 * Band(r), 3 * Band(c), v);
      assert Band(i) == Band(r) && Band(j) == Band(c) && (i, j) != (r, c);
      PeerClash(g, r, c, v, i, j);
    }
  }

  /**
   * On a consistent board, placing a puzzle value into an empty cell keeps
   * the board consistent exactly when the placement is a legal move.
   */
  lemma LegalMoveIffStaysConsistent(g: Grid, r: int, c: int, v: int)
    requires IsGrid(g) && Consistent(g) && InBounds(r, c) && g[r][c] == 0 && 1 <= v <= 9
    ensures LegalMove(g, r, c, v) <==> Consistent(Put(g, r, c, v))
  {
    if LegalMove(g, r, c, v) {
      LegalMoveKeepsConsistent(g, r, c, v);
    } else {
      IllegalMoveBreaksConsistent(g, r, c, v);
    }
  }

  /** Overwriting a cell of a solved board with another value of its row, bypassing the move check, breaks consistency. */
  lemma OverwriteBreaksConsistent(h: Grid, r: int, c: int, c2: int)
    requires IsSolution(h) && InBounds(r, c) && InBounds(r, c2) && c != c2
    ensures !Consistent(Put(h, r, c, h[r][c2]))
  {
    assert Peers(r, c, r, c2);
    PeerClash(h, r, c, h[r][c2], r, c2);
  }

  /** An otherwise empty board whose row 0 holds 5 3 4 6 7 8 9 1 2. */
  function RowZeroBoard(): (g: Grid)
    ensures IsGrid(g)
  {
    EmptyGrid()[0 := [5, 3, 4, 6, 7, 8, 9, 1, 2]]
  }

  /**
   * On that board: (0, 1) is occupied, 3 sits in the box of (1, 1), and 6
   * is free in row 1, in column 1 and in the top-left box.
   */
  lemma RowZeroMoves()
    ensures !LegalMove(RowZeroBoard(), 0, 1, 3) && !LegalMove(RowZeroBoard(), 0, 1, 5)
    ensures !LegalMove(RowZeroBoard(), 1, 1, 3) && LegalMove(RowZeroBoard(), 1, 1, 6)
  {
    var g := RowZeroBoard();
    BoxCell(g, 0, 0, 0, 1);
    assert 6 !in g[1] && 6 !in Column(g, 1);
    NotInBox(g, 0, 0, 6);
  }

  /** Emptying a cell never creates a conflict. */
  lemma ClearKeepsConsistent(g: Grid, r: int, c: int)
    requires IsGrid(g) && Consistent(g) && InBounds(r, c)
    ensures Consistent(Put(g, r, c, 0))
  {
    var h := Put(g, r, c, 0);
    ConsistentIffNoPeerConflict(g);
    ConsistentIffNoPeerConflict(h);
    forall i, j, i2, j2 | InBounds(i, j) && InBounds(i2, j2) && Peers(i, j, i2, j2) && h[i][j] != 0
      ensures h[i][j] != h[i2][j2]
    {
      assert g[i][j] != 0;
    }
  }

  /** Clearing the cell a legal move filled gives back the board before the move. */
  lemma ClearUndoesMove(g: Grid, r: int, c: int, v: int)
    requires IsGrid(g) && LegalMove(g, r, c, v)
    ensures Put(Put(g, r, c, v), r, c, 0) == g
  {
    var h := Put(Put(g, r, c, v), r, c, 0);
    forall i | 0 <= i < 9
      ensures h[i] == g[i]
    {
      assert forall j :: 0 <= j < 9 ==> h[i][j] == g[i][j];
    }
  }

  // ----- Counting cells -----

  function FilledCells(g: Grid): (cells: set<(int, int)>)
    requires IsGrid(g)
  {
    set i, j | 0 <= i < 9 && 0 <= j < 9 && g[i][j] != 0 :: (i, j)
  }

  function EmptyCells(g: Grid): (cells: set<(int, int)>)
    requires IsGrid(g)
  {
    set i, j | 0 <= i < 9 && 0 <= j < 9 && g[i][j] == 0 :: (i, j)
  }

  /** The first m cells of row i. */
  function RowPrefix(i: int, m: int): set<(int, int)> {
    set j | 0 <= j < m :: (i, j)
  }

  /** The cells of the first n rows. */
  function TopRows(n: int): set<(int, int)> {
    set i, j | 0 <= i < n && 0 <= j < 9 :: (i, j)
  }

  lemma {:induction false} RowPrefixSize(i: int, m: nat)
    ensures |RowPrefix(i, m)| == m
  {
    if m > 0 {
      assert RowPrefix(i, m) == RowPrefix(i, m - 1) + {(i, m - 1)};
      RowPrefixSize(i, m - 1);
    }
  }

  lemma {:induction false} TopRowsSize(n: nat)
    ensures |TopRows(n)| == 9 * n
  {
    if n > 0 {
      assert TopRows(n) == TopRows(n - 1) + RowPrefix(n - 1, 9);
      assert TopRows(n - 1) !! RowPrefix(n - 1, 9);
      TopRowsSize(n - 1);
      RowPrefixSize(n - 1, 9);
    }
  }

  /** Every cell is either filled or empty, and there are 81 of them. */
  lemma CellsPartition(g: Grid)
    requires IsGrid(g)
    ensures FilledCells(g) !! EmptyCells(g)
    ensures |FilledCells(g)| + |EmptyCells(g)| == 81
  {
    assert FilledCells(g) + EmptyCells(g) == TopRows(9);
    TopRowsSize(9);
  }

  /** A board is full exactly when all 81 of its cells are filled. */
  lemma FullIffAllFilled(g: Grid)
    requires IsGrid(g)
    ensures Full(g) <==> |FilledCells(g)| == 81
  {
    CellsPartition(g);
    if !Full(g) {
      var i, j :| 0 <= i < 9 && 0 <= j < 9 && g[i][j] == 0;
      assert (i, j) in EmptyCells(g);
    }
  }

  /** Filling an empty cell removes exactly that cell from the empty ones. */
  lemma FillShrinksEmpty(g: Grid, r: int, c: int, v: int)
    requires IsGrid(g) && InBounds(r, c) && g[r][c] == 0 && v != 0
    ensures (r, c) in EmptyCells(g)
    ensures EmptyCells(Put(g, r, c, v)) == EmptyCells(g) - {(r, c)}
    ensures |EmptyCells(Put(g, r, c, v))| == |EmptyCells(g)| - 1
  {
    assert EmptyCells(Put(g, r, c, v)) == EmptyCells(g) - {(r, c)};
  }

  /** Clearing a filled cell removes exactly that cell from the filled ones. */
  lemma ClearShrinksFilled(g: Grid, r: int, c: int)
    requires IsGrid(g) && InBounds(r, c) && g[r][c] != 0
    ensures (r, c) in FilledCells(g)
    ensures FilledCells(Put(g, r, c, 0)) == FilledCells(g) - {(r, c)}
    ensures |FilledCells(Put(g, r, c, 0))| == |FilledCells(g)| - 1
  {
    assert FilledCells(Put(g, r, c, 0)) == FilledCells(g) - {(r, c)};
  }

  /** `h` differs from `g` only by cells that were emptied. */
  predicate Erases(g: Grid, h: Grid)
    requires IsGrid(g) && IsGrid(h)
  {
    forall i, j :: 0 <= i < 9 && 0 <= j < 9 ==> h[i][j] == g[i][j] || h[i][j] == 0
  }

  /**
   * Emptying k filled cells of a full board leaves 81 - k filled cells, and
   * the board is no longer full once k > 0.
   */
  lemma RemovalFromFullBoard(g: Grid, h: Grid, k: int)
    requires IsGrid(g) && IsGrid(h) && Full(g) && 0 < k
    requires |FilledCells(h)| == |FilledCells(g)| - k
    ensures |FilledCells(h)| == 81 - k && !Full(h)
  {
    FullIffAllFilled(g);
    FullIffAllFilled(h);
  }

  // ----- Solutions -----

  /** `h` keeps every value that `g` has filled in. */
  predicate Extends(h: Grid, g: Grid)
    requires IsGrid(h) && IsGrid(g)
  {
    forall i, j :: 0 <= i < 9 && 0 <= j < 9 && g[i][j] != 0 ==> h[i][j] == g[i][j]
  }

  /** A solved board: every cell holds a puzzle value and no rule is broken. */
  predicate IsSolution(h: Grid) {
    IsGrid(h) && (forall i, j :: 0 <= i < 9 && 0 <= j < 9 ==> 1 <= h[i][j] <= 9) && Consistent(h)
  }

  /** Some solution keeps every value of `g`. */
  ghost predicate Completable(g: Grid)
    requires IsGrid(g)
  {
    exists h :: IsSolution(h) && Extends(h, g)
  }

  /** A solution of `g` holds at (r, c) a value that no peer of (r, c) holds in `g`. */
  lemma SolutionAvoidsPeer(g: Grid, h: Grid, r: int, c: int, i: int, j: int)
    requires IsGrid(g) && IsSolution(h) && Extends(h, g)
    requires InBounds(r, c) && InBounds(i, j) && Peers(r, c, i, j)
    ensures g[i][j] != h[r][c]
  {
    if g[i][j] != 0 {
      ConsistentPeersDiffer(h, r, c, i, j);
    }
  }

  lemma SolutionNotInBox(g: Grid, h: Grid, r: int, c: int)
    requires IsGrid(g) && IsSolution(h) && Extends(h, g) && InBounds(r, c) && g[r][c] == 0
    ensures h[r][c] !in Box(g, 3 * Band(r), 3 * Band(c))
  {
    var v := h[r][c];
    if v in Box(g, 3 * Band(r), 3 * Band(c)) {
      var i, j := BoxWitness(g, 3 * Band(r), 3 * Band(c), v);
      assert Band(i) == Band(r) && Band(j) == Band(c) && (i, j) != (r, c);
      SolutionAvoidsPeer(g, h, r, c, i, j);
    }
  }

  /** The value a solution has at an empty cell of `g` is a legal move there. */
  lemma SolutionValueIsLegal(g: Grid, h: Grid, r: int, c: int)
    requires IsGrid(g) && IsSolution(h) && Extends(h, g) && InBounds(r, c) && g[r][c] == 0
    ensures LegalMove(g, r, c, h[r][c])
  {
    var v := h[r][c];
    if v in g[r] {
      var j :| 0 <= j < 9 && g[r][j] == v;
      assert j != c;
      assert Peers(r, c, r, j);
      SolutionAvoidsPeer(g, h, r, c, r, j);
    } else if v in Column(g, c) {
      var i :| 0 <= i < 9 && Column(g, c)[i] == v;
      assert g[i][c] == v && i != r;
      assert Peers(r, c, i, c);
      SolutionAvoidsPeer(g, h, r, c, i, c);
    } else {
      SolutionNotInBox(g, h, r, c);
    }
  }

  /** A solution of `g` that holds `v` at (r, c) is a solution of `g` with `v` placed there. */
  lemma SolutionExtendsPut(g: Grid, h: Grid, r: int, c: int)
    requires IsGrid(g) && IsGrid(h) && Extends(h, g) && InBounds(r, c)
    ensures Extends(h, Put(g, r, c, h[r][c]))
  {
  }

  /** `h` keeps the filled cells of `g` and puts a puzzle value into each of its empty cells. */
  predicate FillsIn(g: Grid, h: Grid)
    requires IsGrid(g) && IsGrid(h)
  {
    Extends(h, g) && forall i, j :: 0 <= i < 9 && 0 <= j < 9 && g[i][j] == 0 ==> 1 <= h[i][j] <= 9
  }

  /** No solution that keeps the values of `g` has any of `vals` at (r, c). */
  ghost predicate Excluded(g: Grid, r: int, c: int, vals: seq<int>)
    requires IsGrid(g) && InBounds(r, c)
  {
    forall h :: IsSolution(h) && Extends(h, g) ==> h[r][c] !in vals
  }

  /**
   * At an empty cell, a value that is not a legal move, or whose placement
   * leaves a board that cannot be completed, is held there by no solution:
   * the values of `order` tried so far stay excluded with one more.
   */
  lemma ExcludeValue(g: Grid, r: int, c: int, order: seq<int>, k: int)
    requires IsGrid(g) && InBounds(r, c) && g[r][c] == 0 && 0 <= k < |order|
    requires Excluded(g, r, c, order[..k])
    requires !LegalMove(g, r, c, order[k]) || !Completable(Put(g, r, c, order[k]))
    ensures Excluded(g, r, c, order[..k + 1])
  {
    assert order[..k + 1] == order[..k] + [order[k]];
    forall h | IsSolution(h) && Extends(h, g)
      ensures h[r][c] !in order[..k + 1]
    {
      SolutionValueIsLegal(g, h, r, c);
      if h[r][c] == order[k] {
        SolutionExtendsPut(g, h, r, c);
      }
    }
  }

  /** When every puzzle value is excluded at an empty cell, the board cannot be completed. */
  lemma AllExcluded(g: Grid, r: int, c: int, vals: seq<int>)
    requires IsGrid(g) && InBounds(r, c) && Excluded(g, r, c, vals)
    requires forall v :: 1 <= v <= 9 ==> v in vals
    ensures !Completable(g)
  {
  }

  /** Filling in the board after one more value was placed fills in the board before it. */
  lemma FillsInAfterPut(g: Grid, r: int, c: int, v: int, h: Grid)
    requires IsGrid(g) && IsGrid(h) && InBounds(r, c) && g[r][c] == 0 && 1 <= v <= 9
    requires FillsIn(Put(g, r, c, v), h)
    ensures FillsIn(g, h)
  {
    assert h[r][c] == v;
  }

  /** The empty board breaks no rule. */
  lemma EmptyGridConsistent()
    ensures Consistent(EmptyGrid())
  {
    var g := EmptyGrid();
    forall br, bc | 0 <= br < 3 && 0 <= bc < 3
      ensures NoRepeat(Box(g, 3 * br, 3 * bc))
    {
    }
  }

  /** What `x % 9` is for 0 <= x < 18, written without division. */
  function Wrap(x: int): int {
    if x < 9 then x else x - 9
  }

  /** The rotation of row i in `Pattern()`: 0, 3, 6, 1, 4, 7, 2, 5, 8 for i = 0..8. */
  function Shift(i: int): int {
    if i < 3 then 3 * i else if i < 6 then 3 * (i - 3) + 1 else 3 * (i - 6) + 2
  }

  /**
   * A fixed solved board: row i is the sequence 1..9 rotated by Shift(i),
   * so rows 0, 1, 2 start with 1, 4, 7, rows 3, 4, 5 with 2, 5, 8 and rows
   * 6, 7, 8 with 3, 6, 9.
   */
  function Pattern(): (h: Grid)
    ensures IsGrid(h)
  {
    seq(9, i => seq(9, j => Wrap(Shift(i) + j) + 1))
  }

  lemma PatternAt(i: int, j: int)
    requires 0 <= i < 9 && 0 <= j < 9
    ensures Pattern()[i][j] == Wrap(Shift(i) + j) + 1
  {
  }

  lemma PatternRowOk(r: int)
    requires 0 <= r < 9
    ensures NoRepeat(Pattern()[r])
  {
    forall p, q | 0 <= p < q < 9
      ensures Pattern()[r][p] != Pattern()[r][q]
    {
      PatternAt(r, p);
      PatternAt(r, q);
    }
  }

  lemma PatternColumnOk(c: int)
    requires 0 <= c < 9
    ensures NoRepeat(Column(Pattern(), c))
  {
    forall p, q | 0 <= p < q < 9
      ensures Pattern()[p][c] != Pattern()[q][c]
    {
      PatternAt(p, c);
      PatternAt(q, c);
    }
  }

  /** Element k of a box of `Pattern()` is k + br + 3 * bc modulo 9, plus one. */
  lemma PatternBoxAt(br: int, bc: int, k: int)
    requires 0 <= br < 3 && 0 <= bc < 3 && 0 <= k < 9
    ensures Box(Pattern(), 3 * br, 3 * bc)[k] == Wrap(k + br + 3 * bc) + 1
  {
    var a, b := Band(k), Offset(k);
    assert 0 <= a < 3 && 0 <= b < 3 && k == 3 * a + b;
    BoxCell(Pattern(), 3 * br, 3 * bc, 3 * br + a, 3 * bc + b);
    PatternAt(3 * br + a, 3 * bc + b);
    assert Shift(3 * br + a) == 3 * a + br;
  }

  lemma PatternBoxOk(br: int, bc: int)
    requires 0 <= br < 3 && 0 <= bc < 3
    ensures NoRepeat(Box(Pattern(), 3 * br, 3 * bc))
  {
    var s := Box(Pattern(), 3 * br, 3 * bc);
    forall p, q | 0 <= p < q < 9
      ensures s[p] != s[q]
    {
      PatternBoxAt(br, bc, p);
      PatternBoxAt(br, bc, q);
    }
  }

  lemma PatternIsSolution()
    ensures IsSolution(Pattern())
  {
    var h := Pattern();
    forall i, j | 0 <= i < 9 && 0 <= j < 9
      ensures 1 <= h[i][j] <= 9
    {
      PatternAt(i, j);
    }
    forall r | 0 <= r < 9
      ensures NoRepeat(h[r])
    {
      PatternRowOk(r);
    }
    forall c | 0 <= c < 9
      ensures NoRepeat(Column(h, c))
    {
      PatternColumnOk(c);
    }
    forall br, bc | 0 <= br < 3 && 0 <= bc < 3
      ensures NoRepeat(Box(h, 3 * br, 3 * bc))
    {
      PatternBoxOk(br, bc);
    }
  }

  /** The empty board can be completed: `Pattern()` keeps its (no) values. */
  lemma EmptyGridCompletable()
    ensures Completable(EmptyGrid())
  {
    PatternIsSolution();
    assert Extends(Pattern(), EmptyGrid());
  }

  // ----- Bulk load -----

  /** `g` with its first n rows replaced by the first nine values of the rows of `src`. */
  function CopyRows(g: Grid, src: seq<seq<int>>, n: int): (h: Grid)
    requires IsGrid(g) && 0 <= n <= 9 && n <= |src|
    requires forall i :: 0 <= i < n ==> |src[i]| >= 9
    ensures IsGrid(h)
  {
    seq(9, i requires 0 <= i < 9 => if i < n then src[i][..9] else g[i])
  }

  /** Loading a 9x9 matrix and reading the board back gives the matrix. */
  lemma LoadRoundTrip(g: Grid, src: seq<seq<int>>)
    requires IsGrid(g) && IsGrid(src)
    ensures CopyRows(g, src, 9) == src
  {
    var h := CopyRows(g, src, 9);
    forall i | 0 <= i < 9
      ensures h[i] == src[i]
    {
      assert src[i][..9] == src[i];
    }
  }
}
