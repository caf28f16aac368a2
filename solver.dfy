/** The backtracking search of the Sudoku program stated on board values: take
    the first blank cell in row-major order, try the digits 1..9 in ascending
    order, keep a digit only when ValidMove accepts it, and return the first
    completed board found. The in-place method Program.SolveSudoku is proved to
    compute exactly Search; what Search promises is proved here. */
module Solver {
  import opened Grids

  datatype Option<T> = None | Some(value: T)

  /** The first blank cell at or after (row, col) in row-major order (row by
      row, and within a row column by column). */
  function FirstBlankFrom(g: Grid, row: int, col: int): (r: Option<(int, int)>)
    requires IsGrid(g) && 0 <= row <= 9 && 0 <= col <= 9
    decreases 9 - row, 9 - col
    ensures r.None? <==>
      forall i, j :: 0 <= i < 9 && 0 <= j < 9 && (i > row || (i == row && j >= col)) ==> g[i][j] != BLANK
    ensures r.Some? ==>
      var (br, bc) := r.value;
      InBoard(br, bc) && g[br][bc] == BLANK && (br > row || (br == row && bc >= col)) &&
      forall i, j ::
        0 <= i < 9 && 0 <= j < 9 && (i > row || (i == row && j >= col)) && (i < br || (i == br && j < bc))
        ==> g[i][j] != BLANK
  {
    if row == 9 then None
    else if col == 9 then FirstBlankFrom(g, row + 1, 0)
    else if g[row][col] == BLANK then Some((row, col))
    else FirstBlankFrom(g, row, col + 1)
  }

  /** Search from the first blank cell of the whole board; a board without a
      blank is returned as it is. */
  function Search(g: Grid): (r: Option<Grid>)
    requires IsGrid(g)
    decreases Blanks(g), 1, 0
    ensures r.Some? ==> IsGrid(r.value) && NoBlanks(r.value) && Extends(r.value, g)
  {
    match FirstBlankFrom(g, 0, 0)
    case None => Some(g)
    case Some((row, col)) => TryDigits(g, row, col, 1)
  }

  /** Try the digits num..9 at the blank cell (row, col), in ascending order. */
  function TryDigits(g: Grid, row: int, col: int, num: int): (r: Option<Grid>)
    requires IsGrid(g) && InBoard(row, col) && g[row][col] == BLANK && 1 <= num <= 10
    decreases Blanks(g), 0, 10 - num
    ensures r.Some? ==> IsGrid(r.value) && NoBlanks(r.value) && Extends(r.value, g)
  {
    if num == 10 then None
    else if ValidMove(g, row, col, num) then
      PlaceRemovesBlank(g, row, col, num);
      var next := Search(Update(g, row, col, num));
      if next.Some? then
        ExtendsPlaced(next.value, g, row, col, num);
        next
      else TryDigits(g, row, col, num + 1)
    else TryDigits(g, row, col, num + 1)
  }

  /** TryDigits unfolded at one digit, for the method that follows the digit
      loop one digit at a time: num is kept exactly when it is a valid move and
      the search below it succeeds. Placing it removes one blank, the measure
      of the recursion. */
  lemma TryDigitsStep(g: Grid, row: int, col: int, num: int)
    requires IsGrid(g) && InBoard(row, col) && g[row][col] == BLANK && 1 <= num <= 9
    ensures Blanks(Update(g, row, col, num)) == Blanks(g) - 1
    ensures TryDigits(g, row, col, num) ==
      if ValidMove(g, row, col, num) && Search(Update(g, row, col, num)).Some?
      then Search(Update(g, row, col, num))
      else TryDigits(g, row, col, num + 1)
  {
    PlaceRemovesBlank(g, row, col, num);
  }

  // ---------------------------------------------------------------------------
  // What the search computes, whatever the givens: it succeeds exactly when a
  // completion of the board exists (Completes), and what it returns is one.

  lemma {:induction false} SearchSound(g: Grid)
    requires IsGrid(g)
    ensures Search(g).Some? ==> Completes(Search(g).value, g)
    decreases Blanks(g), 1, 0
  {
    match FirstBlankFrom(g, 0, 0)
    case None =>
      FullCompletesItself(g);
    case Some((row, col)) =>
      TryDigitsSound(g, row, col, 1);
  }

  lemma {:induction false} TryDigitsSound(g: Grid, row: int, col: int, num: int)
    requires IsGrid(g) && InBoard(row, col) && g[row][col] == BLANK && 1 <= num <= 10
    ensures TryDigits(g, row, col, num).Some? ==> Completes(TryDigits(g, row, col, num).value, g)
    decreases Blanks(g), 0, 10 - num
  {
    if num < 10 {
      var u := Update(g, row, col, num);
      PlaceRemovesBlank(g, row, col, num);
      if ValidMove(g, row, col, num) && Search(u).Some? {
        TryDigitsTakes(g, row, col, num);
        SearchSound(u);
        CompletesPlaced(Search(u).value, g, row, col, num);
      } else {
        TryDigitsPasses(g, row, col, num);
        TryDigitsSound(g, row, col, num + 1);
      }
    }
  }

  lemma {:induction false} SearchComplete(g: Grid, s: Grid)
    requires Completes(s, g)
    ensures Search(g).Some?
    decreases Blanks(g), 1, 0
  {
    match FirstBlankFrom(g, 0, 0)
    case None =>
    case Some((row, col)) =>
      assert UniqueAt(s, row, col);
      TryDigitsComplete(g, s, row, col, 1);
  }

  /** A digit that is a valid move and leads to a completed board is kept. */
  lemma TryDigitsTakes(g: Grid, row: int, col: int, num: int)
    requires IsGrid(g) && InBoard(row, col) && g[row][col] == BLANK && 1 <= num <= 9
    requires ValidMove(g, row, col, num) && Search(Update(g, row, col, num)).Some?
    ensures TryDigits(g, row, col, num) == Search(Update(g, row, col, num))
  {
    TryDigitsStep(g, row, col, num);
  }

  /** A digit that is not a valid move, or below which the search fails, is
      passed over. */
  lemma TryDigitsPasses(g: Grid, row: int, col: int, num: int)
    requires IsGrid(g) && InBoard(row, col) && g[row][col] == BLANK && 1 <= num <= 9
    requires !(ValidMove(g, row, col, num) && Search(Update(g, row, col, num)).Some?)
    ensures TryDigits(g, row, col, num) == TryDigits(g, row, col, num + 1)
  {
    TryDigitsStep(g, row, col, num);
  }

  /** Starting at a smaller digit never loses a success: the digits tried
      later are still tried. */
  lemma TryDigitsKeeps(g: Grid, row: int, col: int, num: int)
    requires IsGrid(g) && InBoard(row, col) && g[row][col] == BLANK && 1 <= num <= 9
    requires TryDigits(g, row, col, num + 1).Some?
    ensures TryDigits(g, row, col, num).Some?
  {
    TryDigitsStep(g, row, col, num);
  }

  lemma {:induction false} TryDigitsComplete(g: Grid, s: Grid, row: int, col: int, num: int)
    requires Completes(s, g) && InBoard(row, col) && g[row][col] == BLANK && 1 <= num <= s[row][col] <= 9
    ensures TryDigits(g, row, col, num).Some?
    decreases Blanks(g), 0, 10 - num
  {
    if num == s[row][col] {
      TryDigitsCompleteAt(g, s, row, col);
    } else {
      TryDigitsComplete(g, s, row, col, num + 1);
      TryDigitsKeeps(g, row, col, num);
    }
  }

  /** The digit a completion s has at (row, col) is a valid move, and the
      search below it succeeds because s still completes that board. */
  lemma {:induction false} TryDigitsCompleteAt(g: Grid, s: Grid, row: int, col: int)
    requires Completes(s, g) && InBoard(row, col) && g[row][col] == BLANK && 1 <= s[row][col] <= 9
    ensures TryDigits(g, row, col, s[row][col]).Some?
    decreases Blanks(g), 0, 0
  {
    var num := s[row][col];
    PlaceRemovesBlank(g, row, col, num);
    CompletesAdmitsMove(g, s, row, col);
    SearchComplete(Update(g, row, col, num), s);
    TryDigitsTakes(g, row, col, num);
  }

  /** The search succeeds exactly when the board has a completion. */
  lemma SearchExact(g: Grid)
    requires IsGrid(g)
    ensures Search(g).Some? <==> exists s :: Completes(s, g)
  {
    SearchSound(g);
    if exists s :: Completes(s, g) {
      var s :| Completes(s, g);
      SearchComplete(g, s);
    }
  }

  // ---------------------------------------------------------------------------
  // Valid Sudokus.

  /** Failure of the search means that no valid completion exists, whatever
      the givens are. */
  lemma SearchFailsOnlyIfUnsolvable(g: Grid)
    requires IsGrid(g)
    ensures Search(g).None? ==> !Solvable(g)
  {
    if Solvable(g) {
      var s :| SolutionOf(s, g);
      SolutionCompletes(s, g);
      SearchComplete(g, s);
    }
  }

  /** For well-formed, consistent givens the search succeeds exactly when the
      puzzle has a solution, and what it returns is one. */
  lemma SearchCorrect(g: Grid)
    requires WellFormed(g) && Consistent(g)
    ensures Search(g).Some? <==> Solvable(g)
    ensures Search(g).Some? ==> SolutionOf(Search(g).value, g)
  {
    SearchSound(g);
    if Search(g).Some? {
      CompletesConsistent(Search(g).value, g);
    }
    SearchFailsOnlyIfUnsolvable(g);
  }

  /** Repeated givens are never resolved: when the givens already repeat a
      digit, a board the search returns repeats it too, so it is not a valid
      Sudoku. The search does not inspect the givens, so it can still succeed
      (Conflicts.RepeatedGivenReportedSolved shows a board where it does). */
  lemma SearchKeepsConflicts(g: Grid)
    requires IsGrid(g) && !Consistent(g)
    ensures Search(g).Some? ==> !Consistent(Search(g).value)
  {
    if Search(g).Some? {
      var i, j :| 0 <= i < 9 && 0 <= j < 9 && !UniqueAt(g, i, j);
      ConflictPersists(Search(g).value, g, i, j);
    }
  }
}
