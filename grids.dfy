/** Values of the 9x9 Sudoku board: cells addressed by (row, column) in [0, 9),
    0 meaning blank, 1..9 a filled digit. Counting, single-cell update and the
    row, column and 3x3-box constraints are defined here once, for boards and
    for the flag grids that sit beside them. */
module Grids {

  /** A board as the solver sees it: nine rows of nine integers. */
  type Grid = seq<seq<int>>

  const BLANK := 0

  predicate InBoard(row: int, col: int) {
    0 <= row < 9 && 0 <= col < 9
  }

  predicate IsGrid<T>(g: seq<seq<T>>) {
    |g| == 9 && forall i :: 0 <= i < 9 ==> |g[i]| == 9
  }

  /** Two grids are equal as soon as they agree on every cell. */
  lemma GridEq<T>(a: seq<seq<T>>, b: seq<seq<T>>)
    requires IsGrid(a) && IsGrid(b)
    requires forall i, j :: 0 <= i < 9 && 0 <= j < 9 ==> a[i][j] == b[i][j]
    ensures a == b
  {
    forall i | 0 <= i < 9
      ensures a[i] == b[i]
    {
      assert forall j :: 0 <= j < 9 ==> a[i][j] == b[i][j];
    }
  }

  /** The grid with cell (row, col) set to v and every other cell as it was. */
  function Update<T>(g: seq<seq<T>>, row: int, col: int, v: T): (u: seq<seq<T>>)
    requires IsGrid(g) && InBoard(row, col)
    ensures IsGrid(u) && u[row][col] == v
    ensures forall i, j :: 0 <= i < 9 && 0 <= j < 9 && (i != row || j != col) ==> u[i][j] == g[i][j]
  {
    g[row := g[row][col := v]]
  }

  /** Writing a cell and then its old value back restores the grid. */
  lemma UndoUpdate<T>(g: seq<seq<T>>, row: int, col: int, v: T)
    requires IsGrid(g) && InBoard(row, col)
    ensures Update(Update(g, row, col, v), row, col, g[row][col]) == g
  {
    GridEq(Update(Update(g, row, col, v), row, col, g[row][col]), g);
  }

  // ---------------------------------------------------------------------------
  // Counting

  /** Number of occurrences of x among the first n elements of s. */
  function CountTo<T(==)>(s: seq<T>, n: int, x: T): (c: nat)
    requires 0 <= n <= |s|
    ensures c <= n
  {
    if n == 0 then 0
    else CountTo(s, n - 1, x) + (if s[n - 1] == x then 1 else 0)
  }

  /** Number of occurrences of x in s. */
  function Count<T(==)>(s: seq<T>, x: T): nat {
    CountTo(s, |s|, x)
  }

  /** Number of cells equal to x in the first n rows. */
  function GridCountTo<T(==)>(rows: seq<seq<T>>, n: int, x: T): nat
    requires 0 <= n <= |rows|
  {
    if n == 0 then 0
    else GridCountTo(rows, n - 1, x) + Count(rows[n - 1], x)
  }

  /** Number of cells equal to x. */
  function GridCount<T(==)>(rows: seq<seq<T>>, x: T): nat {
    GridCountTo(rows, |rows|, x)
  }

  /** Number of blank cells of a board. */
  function Blanks(g: Grid): nat {
    GridCount(g, BLANK)
  }

  /** Overwriting element k changes the count of a prefix that holds it by
      what left and what came in, and leaves a shorter prefix alone. */
  lemma {:induction false} CountToUpdate<T>(s: seq<T>, n: int, k: int, v: T, x: T)
    requires 0 <= n <= |s| && 0 <= k < |s|
    ensures CountTo(s[k := v], n, x)
            == CountTo(s, n, x) - (if k < n && s[k] == x then 1 else 0) + (if k < n && v == x then 1 else 0)
  {
    if n > 0 {
      CountToUpdate(s, n - 1, k, v, x);
    }
  }

  /** Replacing row r changes the count of the first n rows holding it by the
      difference of the row counts. */
  lemma {:induction false} GridCountToReplaceRow<T>(rows: seq<seq<T>>, n: int, r: int, row: seq<T>, x: T)
    requires 0 <= n <= |rows| && 0 <= r < |rows|
    ensures GridCountTo(rows[r := row], n, x)
            == GridCountTo(rows, n, x) - (if r < n then Count(rows[r], x) else 0) + (if r < n then Count(row, x) else 0)
  {
    if n > 0 {
      GridCountToReplaceRow(rows, n - 1, r, row, x);
    }
  }

  /** Setting one cell changes the grid count by what left and what came in. */
  lemma GridCountUpdate<T>(g: seq<seq<T>>, row: int, col: int, v: T, x: T)
    requires IsGrid(g) && InBoard(row, col)
    ensures GridCount(Update(g, row, col, v), x)
            == GridCount(g, x) - (if g[row][col] == x then 1 else 0) + (if v == x then 1 else 0)
  {
    CountToUpdate(g[row], 9, col, v, x);
    GridCountToReplaceRow(g, 9, row, g[row][col := v], x);
  }

  /** Two sequences marked at the same positions have as many marks in every
      prefix. */
  lemma {:induction false} CountToMatch<A, B>(a: seq<A>, x: A, b: seq<B>, y: B, n: int)
    requires |a| == |b| && 0 <= n <= |a|
    requires forall k :: 0 <= k < |a| ==> (a[k] == x <==> b[k] == y)
    ensures CountTo(a, n, x) == CountTo(b, n, y)
  {
    if n > 0 {
      CountToMatch(a, x, b, y, n - 1);
    }
  }

  /** Two grids marked at the same cells have as many marks in every group of
      leading rows. */
  lemma {:induction false} GridCountToMatch<A, B>(a: seq<seq<A>>, x: A, b: seq<seq<B>>, y: B, n: int)
    requires |a| == |b| && 0 <= n <= |a|
    requires forall i :: 0 <= i < |a| ==> |a[i]| == |b[i]|
    requires forall i, j :: 0 <= i < |a| && 0 <= j < |a[i]| ==> (a[i][j] == x <==> b[i][j] == y)
    ensures GridCountTo(a, n, x) == GridCountTo(b, n, y)
  {
    if n > 0 {
      GridCountToMatch(a, x, b, y, n - 1);
      CountToMatch(a[n - 1], x, b[n - 1], y, |a[n - 1]|);
    }
  }

  /** Two grids marked at the same cells have the same number of marks. */
  lemma GridCountMatch<A, B>(a: seq<seq<A>>, x: A, b: seq<seq<B>>, y: B)
    requires IsGrid(a) && IsGrid(b)
    requires forall i, j :: 0 <= i < 9 && 0 <= j < 9 ==> (a[i][j] == x <==> b[i][j] == y)
    ensures GridCount(a, x) == GridCount(b, y)
  {
    GridCountToMatch(a, x, b, y, 9);
  }

  /** Filling a blank cell with a digit removes exactly one blank: the measure
      that makes the backtracking search terminate. */
  lemma PlaceRemovesBlank(g: Grid, row: int, col: int, v: int)
    requires IsGrid(g) && InBoard(row, col) && g[row][col] == BLANK && v != BLANK
    ensures Blanks(Update(g, row, col, v)) == Blanks(g) - 1
  {
    GridCountUpdate(g, row, col, v, BLANK);
  }

  // ---------------------------------------------------------------------------
  // Constraints

  /** First row (or column) of the 3x3 box holding row (or column) x. */
  function BoxOrigin(x: int): int {
    x - x % 3
  }

  predicate SameBox(i: int, j: int, k: int, l: int) {
    BoxOrigin(i) == BoxOrigin(k) && BoxOrigin(j) == BoxOrigin(l)
  }

  /** The cells of a box are exactly the nine from its origin on. */
  lemma InBoxIff(r: int, i: int)
    requires 0 <= r < 9 && 0 <= i < 9
    ensures 0 <= BoxOrigin(r) <= 6
    ensures BoxOrigin(i) == BoxOrigin(r) <==> BoxOrigin(r) <= i < BoxOrigin(r) + 3
  {
  }

  ghost predicate NoBlanks(g: Grid)
    requires IsGrid(g)
  {
    forall i, j :: 0 <= i < 9 && 0 <= j < 9 ==> g[i][j] != BLANK
  }

  /** Every cell is blank or a digit: the input format of the solver. */
  ghost predicate WellFormed(g: Grid) {
    IsGrid(g) && forall i, j :: 0 <= i < 9 && 0 <= j < 9 ==> 0 <= g[i][j] <= 9
  }

  /** s keeps every filled cell of g. */
  ghost predicate Extends(s: Grid, g: Grid)
    requires IsGrid(s) && IsGrid(g)
  {
    forall i, j :: 0 <= i < 9 && 0 <= j < 9 && g[i][j] != BLANK ==> s[i][j] == g[i][j]
  }

  /** Cell (i, j) is blank, or no other cell of its row, its column or its box
      holds its value. */
  ghost predicate UniqueAt(g: Grid, i: int, j: int)
    requires IsGrid(g) && 0 <= i < 9 && 0 <= j < 9
  {
    g[i][j] == BLANK ||
    ((forall l :: 0 <= l < 9 && l != j ==> g[i][l] != g[i][j]) &&
     (forall k :: 0 <= k < 9 && k != i ==> g[k][j] != g[i][j]) &&
     (forall k, l :: 0 <= k < 9 && 0 <= l < 9 && SameBox(i, j, k, l) && (k != i || l != j) ==> g[k][l] != g[i][j]))
  }

  /** No filled cell repeats its value elsewhere in its row, its column or its box. */
  ghost predicate Consistent(g: Grid)
    requires IsGrid(g)
  {
    forall i, j {:trigger UniqueAt(g, i, j)} :: 0 <= i < 9 && 0 <= j < 9 ==> UniqueAt(g, i, j)
  }

  /** A complete valid Sudoku: every cell a digit, no digit twice in a unit. */
  ghost predicate IsSolution(s: Grid) {
    IsGrid(s) && (forall i, j :: 0 <= i < 9 && 0 <= j < 9 ==> 1 <= s[i][j] <= 9) && Consistent(s)
  }

  /** s is a complete valid Sudoku that keeps the givens of g. */
  ghost predicate SolutionOf(s: Grid, g: Grid) {
    IsSolution(s) && IsGrid(g) && Extends(s, g)
  }

  ghost predicate Solvable(g: Grid) {
    exists s :: SolutionOf(s, g)
  }

  /** num appears nowhere in row `row`, nowhere in column `col` and nowhere in
      the box whose origin is (BoxOrigin(row), BoxOrigin(col)). */
  predicate ValidMove(g: Grid, row: int, col: int, num: int)
    requires IsGrid(g) && InBoard(row, col)
  {
    (forall i :: 0 <= i < 9 ==> g[row][i] != num && g[i][col] != num) &&
    (forall i, j :: BoxOrigin(row) <= i < BoxOrigin(row) + 3 && BoxOrigin(col) <= j < BoxOrigin(col) + 3
       ==> g[i][j] != num)
  }

  /** Placing a digit that ValidMove accepts into a blank cell keeps the filled
      cells free of repeats. */
  lemma PlaceKeepsConsistent(g: Grid, row: int, col: int, num: int)
    requires IsGrid(g) && InBoard(row, col) && Consistent(g)
    requires g[row][col] == BLANK && num != BLANK && ValidMove(g, row, col, num)
    ensures Consistent(Update(g, row, col, num))
  {
    var u := Update(g, row, col, num);
    forall i, j | 0 <= i < 9 && 0 <= j < 9
      ensures UniqueAt(u, i, j)
    {
      InBoxIff(row, i);
      InBoxIff(col, j);
      if i != row || j != col {
        assert UniqueAt(g, i, j);
      }
    }
  }

  /** A board that keeps the givens of g with one blank filled keeps the
      givens of g. */
  lemma ExtendsPlaced(s: Grid, g: Grid, row: int, col: int, num: int)
    requires IsGrid(s) && IsGrid(g) && InBoard(row, col) && g[row][col] == BLANK
    requires Extends(s, Update(g, row, col, num))
    ensures Extends(s, g)
  {
  }

  /** s completes g the way the solver fills a board: s keeps every given of
      g, and every blank of g holds in s a digit 1..9 that no other cell of its
      row, its column or its box holds in s. The givens themselves are not
      required to be free of repeats. */
  ghost predicate Completes(s: Grid, g: Grid) {
    IsGrid(s) && IsGrid(g) && Extends(s, g) &&
    forall i, j {:trigger UniqueAt(s, i, j)} :: 0 <= i < 9 && 0 <= j < 9 && g[i][j] == BLANK ==>
      UniqueAt(s, i, j) && 1 <= s[i][j] <= 9
  }

  /** A completion of g puts, into a blank cell of g, a digit that ValidMove
      accepts, and still completes g with that digit placed. */
  lemma CompletesAdmitsMove(g: Grid, s: Grid, row: int, col: int)
    requires Completes(s, g) && InBoard(row, col) && g[row][col] == BLANK
    ensures ValidMove(g, row, col, s[row][col])
    ensures Completes(s, Update(g, row, col, s[row][col]))
  {
    var num := s[row][col];
    assert UniqueAt(s, row, col);
    forall i, j | BoxOrigin(row) <= i < BoxOrigin(row) + 3 && BoxOrigin(col) <= j < BoxOrigin(col) + 3
      ensures g[i][j] != num
    {
      InBoxIff(row, i);
      InBoxIff(col, j);
    }
    var u := Update(g, row, col, num);
    forall i, j | 0 <= i < 9 && 0 <= j < 9 && u[i][j] == BLANK
      ensures UniqueAt(s, i, j) && 1 <= s[i][j] <= 9
    {
      assert g[i][j] == BLANK;
      assert UniqueAt(s, i, j) && 1 <= s[i][j] <= 9;
    }
  }

  /** The digit placed at a blank cell by a valid move is unique in its row,
      its column and its box of every completion of the board with the digit
      placed. */
  lemma PlacedUnique(s: Grid, g: Grid, row: int, col: int, num: int)
    requires IsGrid(g) && InBoard(row, col) && g[row][col] == BLANK && 1 <= num <= 9
    requires ValidMove(g, row, col, num) && Completes(s, Update(g, row, col, num))
    ensures s[row][col] == num && UniqueAt(s, row, col)
  {
    var u := Update(g, row, col, num);
    forall l | 0 <= l < 9 && l != col
      ensures s[row][l] != num
    {
      if g[row][l] == BLANK {
        assert u[row][l] == BLANK && UniqueAt(s, row, l);
      }
    }
    forall k | 0 <= k < 9 && k != row
      ensures s[k][col] != num
    {
      if g[k][col] == BLANK {
        assert u[k][col] == BLANK && UniqueAt(s, k, col);
      }
    }
    forall k, l | 0 <= k < 9 && 0 <= l < 9 && SameBox(row, col, k, l) && (k != row || l != col)
      ensures s[k][l] != num
    {
      InBoxIff(row, k);
      InBoxIff(col, l);
      if g[k][l] == BLANK {
        assert u[k][l] == BLANK && UniqueAt(s, k, l);
      }
    }
  }

  /** A completion of the board with a valid move placed completes the board
      before the move. */
  lemma CompletesPlaced(s: Grid, g: Grid, row: int, col: int, num: int)
    requires IsGrid(g) && InBoard(row, col) && g[row][col] == BLANK && 1 <= num <= 9
    requires ValidMove(g, row, col, num) && Completes(s, Update(g, row, col, num))
    ensures Completes(s, g)
  {
    var u := Update(g, row, col, num);
    PlacedUnique(s, g, row, col, num);
    forall i, j | 0 <= i < 9 && 0 <= j < 9 && g[i][j] == BLANK
      ensures UniqueAt(s, i, j) && 1 <= s[i][j] <= 9
    {
      if i != row || j != col {
        assert u[i][j] == BLANK;
        assert UniqueAt(s, i, j) && 1 <= s[i][j] <= 9;
      }
    }
  }

  /** A board with no blank completes itself. */
  lemma FullCompletesItself(g: Grid)
    requires IsGrid(g) && NoBlanks(g)
    ensures Completes(g, g)
  {
  }

  /** A valid Sudoku keeping the givens of g is a completion of g. */
  lemma SolutionCompletes(s: Grid, g: Grid)
    requires SolutionOf(s, g)
    ensures Completes(s, g)
  {
    forall i, j | 0 <= i < 9 && 0 <= j < 9 && g[i][j] == BLANK
      ensures UniqueAt(s, i, j) && 1 <= s[i][j] <= 9
    {
      assert UniqueAt(s, i, j);
    }
  }

  /** When the givens are well-formed and free of repeats, a completion is a
      valid Sudoku: the givens are unique among themselves, and a given and a
      filled blank differ because the filled blank is unique. */
  lemma CompletesConsistent(s: Grid, g: Grid)
    requires WellFormed(g) && Consistent(g) && Completes(s, g)
    ensures SolutionOf(s, g)
  {
    forall i, j | 0 <= i < 9 && 0 <= j < 9
      ensures UniqueAt(s, i, j) && 1 <= s[i][j] <= 9
    {
      if g[i][j] != BLANK {
        assert UniqueAt(g, i, j);
        forall l | 0 <= l < 9 && l != j
          ensures s[i][l] != s[i][j]
        {
          if g[i][l] == BLANK {
            assert UniqueAt(s, i, l);
          }
        }
        forall k | 0 <= k < 9 && k != i
          ensures s[k][j] != s[i][j]
        {
          if g[k][j] == BLANK {
            assert UniqueAt(s, k, j);
          }
        }
        forall k, l | 0 <= k < 9 && 0 <= l < 9 && SameBox(i, j, k, l) && (k != i || l != j)
          ensures s[k][l] != s[i][j]
        {
          if g[k][l] == BLANK {
            assert UniqueAt(s, k, l);
          }
        }
      }
    }
  }

  /** A repeat among the givens survives any extension: both cells of the
      repeat are givens, so an extension keeps both values. */
  lemma ConflictPersists(s: Grid, g: Grid, i: int, j: int)
    requires IsGrid(s) && IsGrid(g) && Extends(s, g) && 0 <= i < 9 && 0 <= j < 9
    requires !UniqueAt(g, i, j)
    ensures !UniqueAt(s, i, j)
  {
    if exists l :: 0 <= l < 9 && l != j && g[i][l] == g[i][j] {
      var l :| 0 <= l < 9 && l != j && g[i][l] == g[i][j];
      assert s[i][l] == s[i][j];
    } else if exists k :: 0 <= k < 9 && k != i && g[k][j] == g[i][j] {
      var k :| 0 <= k < 9 && k != i && g[k][j] == g[i][j];
      assert s[k][j] == s[i][j];
    } else {
      var k, l :| 0 <= k < 9 && 0 <= l < 9 && SameBox(i, j, k, l) && (k != i || l != j) && g[k][l] == g[i][j];
      assert s[k][l] == s[i][j];
    }
  }

  // ---------------------------------------------------------------------------
  // UniqueAt without quantifiers: the twenty comparisons with the other cells
  // of the row, the column and the box written out, for checking a concrete
  // board cell by cell.

  predicate RowDiffers(g: Grid, i: int, j: int)
    requires IsGrid(g) && InBoard(i, j)
  {
    var v := g[i][j];
    (j == 0 || g[i][0] != v) &&
    (j == 1 || g[i][1] != v) &&
    (j == 2 || g[i][2] != v) &&
    (j == 3 || g[i][3] != v) &&
    (j == 4 || g[i][4] != v) &&
    (j == 5 || g[i][5] != v) &&
    (j == 6 || g[i][6] != v) &&
    (j == 7 || g[i][7] != v) &&
    (j == 8 || g[i][8] != v)
  }

  predicate ColumnDiffers(g: Grid, i: int, j: int)
    requires IsGrid(g) && InBoard(i, j)
  {
    var v := g[i][j];
    (i == 0 || g[0][j] != v) &&
    (i == 1 || g[1][j] != v) &&
    (i == 2 || g[2][j] != v) &&
    (i == 3 || g[3][j] != v) &&
    (i == 4 || g[4][j] != v) &&
    (i == 5 || g[5][j] != v) &&
    (i == 6 || g[6][j] != v) &&
    (i == 7 || g[7][j] != v) &&
    (i == 8 || g[8][j] != v)
  }

  predicate BoxDiffers(g: Grid, i: int, j: int)
    requires IsGrid(g) && InBoard(i, j)
  {
    InBoxIff(i, i);
    InBoxIff(j, j);
    var r, c, v := BoxOrigin(i), BoxOrigin(j), g[i][j];
    ((r + 0 == i && c + 0 == j) || g[r + 0][c + 0] != v) &&
    ((r + 0 == i && c + 1 == j) || g[r + 0][c + 1] != v) &&
    ((r + 0 == i && c + 2 == j) || g[r + 0][c + 2] != v) &&
    ((r + 1 == i && c + 0 == j) || g[r + 1][c + 0] != v) &&
    ((r + 1 == i && c + 1 == j) || g[r + 1][c + 1] != v) &&
    ((r + 1 == i && c + 2 == j) || g[r + 1][c + 2] != v) &&
    ((r + 2 == i && c + 0 == j) || g[r + 2][c + 0] != v) &&
    ((r + 2 == i && c + 1 == j) || g[r + 2][c + 1] != v) &&
    ((r + 2 == i && c + 2 == j) || g[r + 2][c + 2] != v)
  }

  /** The written-out comparisons are UniqueAt. */
  lemma UniqueAtFromDiffers(g: Grid, i: int, j: int)
    requires IsGrid(g) && InBoard(i, j)
    requires RowDiffers(g, i, j) && ColumnDiffers(g, i, j) && BoxDiffers(g, i, j)
    ensures UniqueAt(g, i, j)
  {
    RowFromDiffers(g, i, j);
    ColumnFromDiffers(g, i, j);
    BoxFromDiffers(g, i, j);
  }

  lemma RowFromDiffers(g: Grid, i: int, j: int)
    requires IsGrid(g) && InBoard(i, j) && RowDiffers(g, i, j)
    ensures forall l :: 0 <= l < 9 && l != j ==> g[i][l] != g[i][j]
  {
  }

  lemma ColumnFromDiffers(g: Grid, i: int, j: int)
    requires IsGrid(g) && InBoard(i, j) && ColumnDiffers(g, i, j)
    ensures forall k :: 0 <= k < 9 && k != i ==> g[k][j] != g[i][j]
  {
  }

  lemma BoxFromDiffers(g: Grid, i: int, j: int)
    requires IsGrid(g) && InBoard(i, j) && BoxDiffers(g, i, j)
    ensures forall k, l :: 0 <= k < 9 && 0 <= l < 9 && SameBox(i, j, k, l) && (k != i || l != j) ==> g[k][l] != g[i][j]
  {
    forall k, l | 0 <= k < 9 && 0 <= l < 9 && SameBox(i, j, k, l) && (k != i || l != j)
      ensures g[k][l] != g[i][j]
    {
      InBoxIff(i, k);
      InBoxIff(j, l);
      var r, c := BoxOrigin(i), BoxOrigin(j);
      assert k == r || k == r + 1 || k == r + 2;
      assert l == c || l == c + 1 || l == c + 2;
    }
  }

  /** UniqueAt at a filled cell gives the written-out comparisons. */
  lemma DiffersFromUniqueAt(g: Grid, i: int, j: int)
    requires IsGrid(g) && InBoard(i, j) && g[i][j] != BLANK && UniqueAt(g, i, j)
    ensures RowDiffers(g, i, j) && ColumnDiffers(g, i, j) && BoxDiffers(g, i, j)
  {
    RowDiffersFrom(g, i, j);
    ColumnDiffersFrom(g, i, j);
    BoxDiffersFrom(g, i, j);
  }

  lemma RowDiffersFrom(g: Grid, i: int, j: int)
    requires IsGrid(g) && InBoard(i, j)
    requires forall l :: 0 <= l < 9 && l != j ==> g[i][l] != g[i][j]
    ensures RowDiffers(g, i, j)
  {
  }

  lemma ColumnDiffersFrom(g: Grid, i: int, j: int)
    requires IsGrid(g) && InBoard(i, j)
    requires forall k :: 0 <= k < 9 && k != i ==> g[k][j] != g[i][j]
    ensures ColumnDiffers(g, i, j)
  {
  }

  lemma BoxDiffersFrom(g: Grid, i: int, j: int)
    requires IsGrid(g) && InBoard(i, j)
    requires forall k, l :: 0 <= k < 9 && 0 <= l < 9 && SameBox(i, j, k, l) && (k != i || l != j) ==> g[k][l] != g[i][j]
    ensures BoxDiffers(g, i, j)
  {
    InBoxIff(i, i);
    InBoxIff(j, j);
    var r, c := BoxOrigin(i), BoxOrigin(j);
    InBoxIff(i, r);
    InBoxIff(i, r + 1);
    InBoxIff(i, r + 2);
    InBoxIff(j, c);
    InBoxIff(j, c + 1);
    InBoxIff(j, c + 2);
  }

  /** The givens of a board that has a solution are digits and free of
      repeats: each given is the solution's value there. */
  lemma SolutionGivensValid(s: Grid, g: Grid)
    requires SolutionOf(s, g)
    ensures WellFormed(g) && Consistent(g)
  {
    forall i, j | 0 <= i < 9 && 0 <= j < 9
      ensures UniqueAt(g, i, j)
    {
      if g[i][j] != BLANK {
        assert UniqueAt(s, i, j);
      }
    }
  }
}
