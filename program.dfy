/** The state of the Sudoku program and the operations that change it: the
    in-place backtracking solver, the copy of its result into the answer grid,
    the blank and highlight bookkeeping, the entry of a digit into the selected
    cell, the retry dialog's reset, and the completion check. Drawing, dialogs
    and event wiring are not modelled; their inputs (the selected cell, the
    digit typed, the user's choice in the retry dialog) are parameters. */
module SudokuProgram {
  import opened Grids
  import opened Solver

  /** The puzzle the program starts with. */
  const PUZZLE: Grid := [
    [0, 2, 9, 5, 8, 0, 3, 7, 6],
    [0, 1, 0, 0, 4, 0, 9, 0, 0],
    [7, 0, 8, 3, 0, 2, 0, 5, 0],
    [8, 0, 0, 0, 7, 0, 0, 3, 0],
    [9, 3, 0, 6, 2, 0, 0, 4, 0],
    [2, 0, 0, 0, 0, 0, 0, 6, 1],
    [1, 0, 0, 0, 6, 0, 4, 2, 3],
    [6, 0, 4, 2, 5, 0, 0, 1, 0],
    [3, 7, 0, 0, 1, 4, 0, 9, 0]
  ]

  /** What the program does after a digit has been entered: nothing yet, the
      success message, or the retry dialog; or the key press fails on an index
      out of range because no cell is selected. */
  datatype KeyOutcome = Pending | Succeeded | RetryOffered | NoCellSelected

  /** The contents of a 9x9 array as a grid value. */
  ghost function Snapshot<T>(a: array2<T>): (g: seq<seq<T>>)
    reads a
    requires a.Length0 == 9 && a.Length1 == 9
    ensures IsGrid(g)
    ensures forall i, j :: 0 <= i < 9 && 0 <= j < 9 ==> g[i][j] == a[i, j]
  {
    seq(9, i requires 0 <= i < 9 reads a => seq(9, j requires 0 <= j < 9 reads a => a[i, j]))
  }

  /** a[row, col] := v, with its effect on the array's contents. */
  method WriteCell<T>(a: array2<T>, row: int, col: int, v: T)
    requires a.Length0 == 9 && a.Length1 == 9 && InBoard(row, col)
    modifies a
    ensures Snapshot(a) == Update(old(Snapshot(a)), row, col, v)
  {
    ghost var before := Snapshot(a);
    a[row, col] := v;
    GridEq(Snapshot(a), Update(before, row, col, v));
  }

  class Program {
    /** The board shown to the user; givens are non-zero, blanks 0. */
    const sudokuBoard: array2<int>
    /** True for a given cell or one the user has filled; false for a cell
        still waiting for the user's digit. */
    const isBlankCell: array2<bool>
    /** True for the cells the user may edit (the blanks of the puzzle). */
    const highLightCell: array2<bool>
    /** The solver's result. */
    const answer: array2<int>
    /** The board the solver works on; null until Solve, then sudokuBoard itself. */
    var board: array2?<int>
    var selectedCellRow: int
    var selectedCellCol: int
    /** Number of editable cells the user has not filled yet. */
    var blankNumber: int
    /** Whether the answer is to be drawn instead of the user's board. */
    var writeAnswer: bool

    ghost predicate Valid()
      reads this
    {
      sudokuBoard.Length0 == 9 && sudokuBoard.Length1 == 9 &&
      isBlankCell.Length0 == 9 && isBlankCell.Length1 == 9 &&
      highLightCell.Length0 == 9 && highLightCell.Length1 == 9 &&
      answer.Length0 == 9 && answer.Length1 == 9 &&
      answer != sudokuBoard && isBlankCell != highLightCell &&
      (board == null || board == sudokuBoard)
    }

    /** blankNumber counts the cells still waiting for the user, and only
        editable cells wait. */
    ghost predicate BlankCountTracked()
      reads this, isBlankCell, highLightCell
      requires Valid()
    {
      blankNumber == GridCount(Snapshot(isBlankCell), false) &&
      forall i, j :: 0 <= i < 9 && 0 <= j < 9 && !isBlankCell[i, j] ==> highLightCell[i, j]
    }

    constructor ()
      ensures Valid()
      ensures forall i, j :: 0 <= i < 9 && 0 <= j < 9 ==> sudokuBoard[i, j] == PUZZLE[i][j]
      ensures forall i, j :: 0 <= i < 9 && 0 <= j < 9 ==> !isBlankCell[i, j] && !highLightCell[i, j] && answer[i, j] == 0
      ensures board == null && selectedCellRow == -1 && selectedCellCol == -1
      ensures blankNumber == 0 && !writeAnswer
      ensures fresh(sudokuBoard) && fresh(isBlankCell) && fresh(highLightCell) && fresh(answer)
    {
      sudokuBoard := new int[9, 9]((i, j) => if 0 <= i < 9 && 0 <= j < 9 then PUZZLE[i][j] else 0);
      isBlankCell := new bool[9, 9]((i, j) => false);
      highLightCell := new bool[9, 9]((i, j) => false);
      answer := new int[9, 9]((i, j) => 0);
      board := null;
      selectedCellRow, selectedCellCol := -1, -1;
      blankNumber := 0;
      writeAnswer := false;
    }

    /** True exactly when num is not in row `row`, not in column `col` and not
        in the 3x3 box of (row, col). */
    method IsValidMove(row: int, col: int, num: int) returns (ok: bool)
      requires Valid() && board != null && InBoard(row, col)
      ensures ok == ValidMove(Snapshot(board), row, col, num)
    {
      for i := 0 to 9
        invariant forall k :: 0 <= k < i ==> board[row, k] != num && board[k, col] != num
      {
        if board[row, i] == num || board[i, col] == num {
          return false;
        }
      }
      var boxRow := row - row % 3;
      var boxCol := col - col % 3;
      for i := boxRow to boxRow + 3
        invariant forall k, l :: boxRow <= k < i && boxCol <= l < boxCol + 3 ==> board[k, l] != num
      {
        for j := boxCol to boxCol + 3
          invariant forall l :: boxCol <= l < j ==> board[i, l] != num
        {
          if board[i, j] == num {
            return false;
          }
        }
      }
      return true;
    }

    /** Point the solver at sudokuBoard itself (board aliases it), solve in
        place, and copy the result into answer on success. The result stands
        for whether the "no solution" message is left out. */
    method Solve() returns (solved: bool)
      requires Valid()
      modifies this`board, sudokuBoard, answer
      ensures Valid() && board == sudokuBoard
      ensures solved == Search(old(Snapshot(sudokuBoard))).Some?
      ensures solved ==> Snapshot(sudokuBoard) == Search(old(Snapshot(sudokuBoard))).value
      ensures solved ==> Snapshot(answer) == Snapshot(sudokuBoard)
      ensures !solved ==> Snapshot(sudokuBoard) == old(Snapshot(sudokuBoard))
      ensures !solved ==> Snapshot(answer) == old(Snapshot(answer))
      ensures !solved ==> !Solvable(old(Snapshot(sudokuBoard)))
      ensures WellFormed(old(Snapshot(sudokuBoard))) && Consistent(old(Snapshot(sudokuBoard))) ==>
        (solved <==> Solvable(old(Snapshot(sudokuBoard)))) &&
        (solved ==> SolutionOf(Snapshot(answer), old(Snapshot(sudokuBoard))))
    {
      ghost var g0 := Snapshot(sudokuBoard);
      board := sudokuBoard;
      solved := SolveSudoku();
      if solved {
        PrintBoard();
      }
      SearchFailsOnlyIfUnsolvable(g0);
      if WellFormed(g0) && Consistent(g0) {
        SearchCorrect(g0);
      }
    }

    /** Copy board into answer, cell by cell. */
    method PrintBoard()
      requires Valid() && board != null
      modifies answer
      ensures Valid()
      ensures Snapshot(answer) == Snapshot(board)
    {
      for row := 0 to 9
        invariant forall i, j :: 0 <= i < 9 && 0 <= j < 9 && i < row ==> answer[i, j] == board[i, j]
      {
        for col := 0 to 9
          invariant forall i, j :: 0 <= i < 9 && 0 <= j < 9 && (i < row || (i == row && j < col)) ==> answer[i, j] == board[i, j]
        {
          answer[row, col] := board[row, col];
        }
      }
      GridEq(Snapshot(answer), Snapshot(board));
    }

    /** Mark the blanks of sudokuBoard as editable (highlighted, not yet
        filled) and the givens as fixed, adding the number of blanks to
        blankNumber. */
    method GenerateSudokuBoard()
      requires Valid()
      modifies this`blankNumber, isBlankCell, highLightCell
      ensures Valid()
      ensures blankNumber == old(blankNumber) + Blanks(Snapshot(sudokuBoard))
      ensures forall i, j :: 0 <= i < 9 && 0 <= j < 9 ==>
        highLightCell[i, j] == (sudokuBoard[i, j] == 0) && isBlankCell[i, j] == !highLightCell[i, j]
      ensures old(blankNumber) == 0 ==> BlankCountTracked()
    {
      ghost var g := Snapshot(sudokuBoard);
      for i := 0 to 9
        invariant blankNumber == old(blankNumber) + GridCountTo(g, i, 0)
        invariant forall k, l {:trigger highLightCell[k, l]} {:trigger isBlankCell[k, l]} :: 0 <= k < 9 && 0 <= l < 9 && k < i ==>
          highLightCell[k, l] == (sudokuBoard[k, l] == 0) && isBlankCell[k, l] == !highLightCell[k, l]
      {
        for j := 0 to 9
          invariant blankNumber == old(blankNumber) + GridCountTo(g, i, 0) + CountTo(g[i], j, 0)
          invariant forall k, l {:trigger highLightCell[k, l]} {:trigger isBlankCell[k, l]} :: 0 <= k < 9 && 0 <= l < 9 && (k < i || (k == i && l < j)) ==>
            highLightCell[k, l] == (sudokuBoard[k, l] == 0) && isBlankCell[k, l] == !highLightCell[k, l]
        {
          if sudokuBoard[i, j] == 0 {
            blankNumber := blankNumber + 1;
            isBlankCell[i, j] := false;
            highLightCell[i, j] := true;
          } else {
            isBlankCell[i, j] := true;
            highLightCell[i, j] := false;
          }
        }
      }
      GridCountMatch(g, 0, Snapshot(isBlankCell), false);
    }

    /** The retry dialog's reset: every editable cell becomes blank and
        unfilled again, and blankNumber grows by the number of editable cells. */
    method ClearSudokuBoard()
      requires Valid()
      modifies this`blankNumber, isBlankCell, sudokuBoard
      ensures Valid()
      ensures forall i, j :: 0 <= i < 9 && 0 <= j < 9 ==>
        sudokuBoard[i, j] == (if highLightCell[i, j] then 0 else old(sudokuBoard[i, j])) &&
        isBlankCell[i, j] == !highLightCell[i, j]
      ensures blankNumber == old(blankNumber) + GridCount(Snapshot(highLightCell), true)
      ensures old(blankNumber) == 0 ==> BlankCountTracked()
    {
      ghost var h, b0 := Snapshot(highLightCell), Snapshot(sudokuBoard);
      for i := 0 to 9
        invariant blankNumber == old(blankNumber) + GridCountTo(h, i, true)
        invariant forall k, l {:trigger sudokuBoard[k, l]} :: 0 <= k < 9 && 0 <= l < 9 ==>
          sudokuBoard[k, l] == (if k < i && h[k][l] then 0 else b0[k][l])
        invariant forall k, l {:trigger isBlankCell[k, l]} :: 0 <= k < 9 && 0 <= l < 9 && k < i ==> isBlankCell[k, l] == !h[k][l]
      {
        for j := 0 to 9
          invariant blankNumber == old(blankNumber) + GridCountTo(h, i, true) + CountTo(h[i], j, true)
          invariant forall k, l {:trigger sudokuBoard[k, l]} :: 0 <= k < 9 && 0 <= l < 9 ==>
            sudokuBoard[k, l] == (if (k < i || (k == i && l < j)) && h[k][l] then 0 else b0[k][l])
          invariant forall k, l {:trigger isBlankCell[k, l]} :: 0 <= k < 9 && 0 <= l < 9 && (k < i || (k == i && l < j)) ==> isBlankCell[k, l] == !h[k][l]
        {
          if highLightCell[i, j] {
            isBlankCell[i, j] := false;
            sudokuBoard[i, j] := 0;
            blankNumber := blankNumber + 1;
          } else {
            isBlankCell[i, j] := true;
          }
        }
      }
      GridCountMatch(h, true, Snapshot(isBlankCell), false);
    }

    /** True exactly when sudokuBoard and answer agree on every cell. */
    method IsCompleted() returns (done: bool)
      requires Valid()
      ensures done <==> forall i, j :: 0 <= i < 9 && 0 <= j < 9 ==> sudokuBoard[i, j] == answer[i, j]
      ensures done <==> Snapshot(sudokuBoard) == Snapshot(answer)
    {
      for i := 0 to 9
        invariant forall k, l :: 0 <= k < 9 && 0 <= l < 9 && k < i ==> sudokuBoard[k, l] == answer[k, l]
      {
        for j := 0 to 9
          invariant forall k, l :: 0 <= k < 9 && 0 <= l < 9 && (k < i || (k == i && l < j)) ==> sudokuBoard[k, l] == answer[k, l]
        {
          if sudokuBoard[i, j] != answer[i, j] {
            return false;
          }
        }
      }
      GridEq(Snapshot(sudokuBoard), Snapshot(answer));
      return true;
    }

    /** The click handler's state change, given the cell the click falls in:
        a cell inside the board becomes the selected cell. */
    method SelectCell(row: int, col: int)
      modifies this`selectedCellRow, this`selectedCellCol
      ensures old(Valid()) ==> Valid()
      ensures InBoard(row, col) ==> selectedCellRow == row && selectedCellCol == col
      ensures !InBoard(row, col) ==>
        selectedCellRow == old(selectedCellRow) && selectedCellCol == old(selectedCellCol)
    {
      if row >= 0 && row < 9 && col >= 0 && col < 9 {
        selectedCellRow := row;
        selectedCellCol := col;
      }
    }

    /** The key handler's state change for the digit typed: an unfilled cell
        counts as filled from now on, an editable cell takes the digit, and
        once no cell is left unfilled the board is compared with the answer.
        While no cell is selected (-1, -1) the first array access fails and
        nothing changes. */
    method EnterDigit(digit: int) returns (outcome: KeyOutcome)
      requires Valid()
      modifies this`blankNumber, sudokuBoard, isBlankCell
      ensures Valid()
      ensures !InBoard(selectedCellRow, selectedCellCol) ==>
        outcome == NoCellSelected && blankNumber == old(blankNumber) &&
        Snapshot(sudokuBoard) == old(Snapshot(sudokuBoard)) && Snapshot(isBlankCell) == old(Snapshot(isBlankCell))
      ensures InBoard(selectedCellRow, selectedCellCol) ==>
        blankNumber == old(blankNumber) - (if old(isBlankCell[selectedCellRow, selectedCellCol]) then 0 else 1)
      ensures InBoard(selectedCellRow, selectedCellCol) && highLightCell[selectedCellRow, selectedCellCol] ==>
        Snapshot(sudokuBoard) == Update(old(Snapshot(sudokuBoard)), selectedCellRow, selectedCellCol, digit) &&
        Snapshot(isBlankCell) == Update(old(Snapshot(isBlankCell)), selectedCellRow, selectedCellCol, true)
      ensures InBoard(selectedCellRow, selectedCellCol) && !highLightCell[selectedCellRow, selectedCellCol] ==>
        Snapshot(sudokuBoard) == old(Snapshot(sudokuBoard)) && Snapshot(isBlankCell) == old(Snapshot(isBlankCell))
      ensures InBoard(selectedCellRow, selectedCellCol) ==>
        outcome == (if blankNumber != 0 then Pending
                    else if Snapshot(sudokuBoard) == Snapshot(answer) then Succeeded
                    else RetryOffered)
      ensures old(BlankCountTracked()) ==> BlankCountTracked()
    {
      var row, col := selectedCellRow, selectedCellCol;
      if !InBoard(row, col) {
        return NoCellSelected;
      }
      ghost var f0 := Snapshot(isBlankCell);
      if !isBlankCell[row, col] {
        blankNumber := blankNumber - 1;
      }
      if highLightCell[row, col] {
        WriteCell(sudokuBoard, row, col, digit);
        WriteCell(isBlankCell, row, col, true);
        GridCountUpdate(f0, row, col, true, false);
      }
      if blankNumber == 0 {
        var done := IsCompleted();
        outcome := if done then Succeeded else RetryOffered;
      } else {
        outcome := Pending;
      }
    }

    /** The user's answer to the retry dialog: retry clears the editable
        cells, otherwise the answer is to be drawn. */
    method RespondToRetry(retry: bool)
      requires Valid()
      modifies this`blankNumber, this`writeAnswer, isBlankCell, sudokuBoard
      ensures Valid()
      ensures retry ==> writeAnswer == old(writeAnswer)
      ensures retry ==> forall i, j :: 0 <= i < 9 && 0 <= j < 9 ==>
        sudokuBoard[i, j] == (if highLightCell[i, j] then 0 else old(sudokuBoard[i, j])) &&
        isBlankCell[i, j] == !highLightCell[i, j]
      ensures retry ==> blankNumber == old(blankNumber) + GridCount(Snapshot(highLightCell), true)
      ensures retry && old(blankNumber) == 0 ==> BlankCountTracked()
      ensures !retry ==> writeAnswer && blankNumber == old(blankNumber)
      ensures !retry ==> Snapshot(sudokuBoard) == old(Snapshot(sudokuBoard)) && Snapshot(isBlankCell) == old(Snapshot(isBlankCell))
    {
      if retry {
        ClearSudokuBoard();
      } else {
        writeAnswer := true;
      }
    }

    /** Backtracking search on board in place (the scan for the first blank
        cell in row-major order). It computes exactly Search of the board it
        starts from, and on failure the board is as it was. */
    method SolveSudoku() returns (solved: bool)
      requires Valid() && board != null
      modifies board
      decreases Blanks(Snapshot(board)), 2
      ensures Search(old(Snapshot(board))) == if solved then Some(Snapshot(board)) else None
      ensures solved ==> NoBlanks(Snapshot(board)) && Extends(Snapshot(board), old(Snapshot(board)))
      ensures !solved ==> Snapshot(board) == old(Snapshot(board))
    {
      ghost var g0 := Snapshot(board);
      for row := 0 to 9
        invariant Snapshot(board) == g0
        invariant FirstBlankFrom(g0, row, 0) == FirstBlankFrom(g0, 0, 0)
      {
        for col := 0 to 9
          invariant Snapshot(board) == g0
          invariant FirstBlankFrom(g0, row, col) == FirstBlankFrom(g0, 0, 0)
        {
          if board[row, col] == 0 {
            solved := TryDigitsAt(row, col);
            return;
          }
        }
      }
      return true;
    }

    /** The digit loop of the solver at the blank cell (row, col): try 1..9 in
        ascending order, place a digit only after IsValidMove accepts it,
        recurse, and reset the cell to 0 when the recursion fails. */
    method TryDigitsAt(row: int, col: int) returns (solved: bool)
      requires Valid() && board != null && InBoard(row, col) && board[row, col] == 0
      modifies board
      decreases Blanks(Snapshot(board)), 1
      ensures TryDigits(old(Snapshot(board)), row, col, 1) == if solved then Some(Snapshot(board)) else None
      ensures !solved ==> Snapshot(board) == old(Snapshot(board))
    {
      ghost var g0 := Snapshot(board);
      for num := 1 to 10
        invariant Snapshot(board) == g0
        invariant TryDigits(g0, row, col, num) == TryDigits(g0, row, col, 1)
      {
        var found := TryDigit(row, col, num);
        if found {
          return true;
        }
      }
      return false;
    }

    /** One round of the digit loop: when IsValidMove accepts num, place it at
        the blank cell (row, col), search the rest of the board, and reset the
        cell to 0 on failure. The outcome is the step TryDigits takes at num:
        success with the board it returns, or moving on to num + 1 with the
        board as it was. */
    method TryDigit(row: int, col: int, num: int) returns (found: bool)
      requires Valid() && board != null && InBoard(row, col) && board[row, col] == 0 && 1 <= num <= 9
      modifies board
      decreases Blanks(Snapshot(board)), 0
      ensures found ==> TryDigits(old(Snapshot(board)), row, col, num) == Some(Snapshot(board))
      ensures !found ==> TryDigits(old(Snapshot(board)), row, col, num) == TryDigits(old(Snapshot(board)), row, col, num + 1)
      ensures !found ==> Snapshot(board) == old(Snapshot(board))
    {
      ghost var g0 := Snapshot(board);
      found := false;
      var ok := IsValidMove(row, col, num);
      if ok {
        TryDigitsStep(g0, row, col, num);
        WriteCell(board, row, col, num);
        found := SolveSudoku();
        if !found {
          WriteCell(board, row, col, 0);
          UndoUpdate(g0, row, col, num);
        }
      } else {
        TryDigitsPasses(g0, row, col, num);
      }
    }
  }
}
