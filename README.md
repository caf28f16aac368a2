# Sudoku program: verified model of the solver and the board bookkeeping

The program shows a fixed 9x9 Sudoku puzzle. It solves it once at start-up by
in-place backtracking, and then lets the user fill the blank cells. When the
last blank is filled, the board is compared with the solver's answer; the
user then gets a success message or a retry dialog.

This project models the state of that program (`sudoku/Program.cs`) and every
operation that changes it, and proves what each operation computes.

- `Grids` (grids.dfy): board values as `seq<seq<int>>` (0 is a blank cell).
  It defines the single-cell update, counting, and the row, column and box
  constraints. It also defines `Completes`: a board fills every blank of
  another with a digit unique in its row, column and box, and keeps the
  givens.
- `Solver` (solver.dfy): `Search` and `TryDigits`, the backtracking written
  as recursive functions. They scan for the first blank cell in row-major
  order and try 1..9 in ascending order, keeping a digit only when
  `ValidMove` accepts it. The lemmas prove four things:
  - the search succeeds exactly when a completion exists;
  - what it returns is one;
  - on consistent givens, success means exactly that the puzzle is solvable,
    and the returned board is a solution;
  - failure always means that no solution exists.
- `SudokuProgram` (program.dfy): class `Program`, whose fields are the
  program's arrays (`array2`) and counters. Each method is proved against the
  functions above. The loops over the arrays are in `PrintBoard`,
  `GenerateSudokuBoard`, `ClearSudokuBoard` and `IsCompleted`. The loops of the
  search are in `TryDigitsAt`; `SolveSudoku` finds the first blank by nested
  loops. `SelectCell`, `EnterDigit`, `RespondToRetry` and `Solve` update single
  fields or cells, or call the other methods.
  - The class invariant `Valid` says that the grids are 9x9, and the solver's
    board is unset or is `sudokuBoard` itself. Every method that writes a
    field of the object ensures it again; the others write only array cells,
    which `Valid` does not read.
  - `SolveSudoku`, `TryDigitsAt` and `TryDigit` compute exactly
    `Search`/`TryDigits`. They leave the board as it was on failure.
  - `Solve` makes `board` an alias of `sudokuBoard`, exactly as the source
    does. So after a successful solve the displayed board itself holds the
    solution, and `answer` is a copy of it.
  - The blank counter `blankNumber` is kept equal to the number of cells
    still waiting for a digit (`BlankCountTracked`).
    - `GenerateSudokuBoard` establishes it when started from 0.
    - `EnterDigit` preserves it.
    - `ClearSudokuBoard` restores it when started from 0. That is its only
      use: the retry dialog appears only once the counter is 0.
- `Conflicts` (conflicts.dfy): two concrete boards whose givens repeat a
  digit.
  - On the first, the search succeeds and returns a board that is not a
    valid Sudoku.
  - On the second, with two 5s side by side in the first row and every other
    cell blank, the search fails, and no valid Sudoku keeps those givens.
- `Puzzle` (puzzle.dfy): the puzzle the program starts with. A concrete valid
  Sudoku keeps its givens, so the puzzle is solvable. Each blank is forced in
  turn by its row, column and box, so that Sudoku is the only completion, and
  it is exactly what the search returns. The same board completes the empty
  grid. `Start` runs the start-up sequence of `Main` (constructor,
  `GenerateSudokuBoard`, `Solve`) and proves that it solves the puzzle.

The program does not validate the givens. A board whose givens already
repeat a digit in a row, column or box is not necessarily reported as having
no solution:
- the search only checks each digit it places against the cells already on
  the board;
- the repeat is kept, because the search never writes a given
  (`Solver.SearchKeepsConflicts`);
- the search can still succeed (`Conflicts.RepeatedGivenReportedSolved`).

Repeated givens are therefore not in general reported unsolvable. Whether
they are depends on the board: `Conflicts.RepeatedGivenReportedUnsolvable`
shows one that is. Two lemmas state what the search guarantees:
- `Solver.SearchExact` says when it succeeds, for every board;
- `Solver.SearchCorrect` says that the board returned is a solution, for
  consistent givens only.

Inputs that the program takes from the GUI become parameters:
- the digit typed (`EnterDigit`);
- the cell a click falls in (`SelectCell`);
- the button chosen in the retry dialog (`RespondToRetry`).

## Model

| member | source | states |
|---|---|---|
| SudokuProgram.Program.constructor | sudoku/Program.cs:10-66 | the field initialisers (lines 10-30 and 65-66): the board holds the fixed puzzle; the flag grids are all false; the solver's board is unset and the answer all 0; no cell is selected (-1, -1); the counter is 0; the answer is not shown |
| SudokuProgram.Program.IsValidMove | sudoku/Program.cs:99-118 | true exactly when num is in no cell of the row, of the column, or of the 3x3 box whose origin is (row - row % 3, col - col % 3) |
| SudokuProgram.Program.SolveSudoku | sudoku/Program.cs:77-97 | the in-place search returns true exactly when Search of the starting board succeeds, and the board is then that result: no blank, every given kept; on false the board is exactly as it was |
| SudokuProgram.Program.TryDigitsAt | sudoku/Program.cs:81-92 | the digit loop at the first blank cell gives exactly TryDigits from digit 1; on failure the board is restored |
| SudokuProgram.Program.TryDigit | sudoku/Program.cs:82-90 | one round for digit num: placed after IsValidMove accepts it and kept when the recursive search succeeds; otherwise the cell is reset to 0 and the outcome is TryDigits at num + 1 |
| SudokuProgram.Program.Solve | sudoku/Program.cs:68-75 | board aliases sudokuBoard; success is exactly Search succeeding, and the answer is then the solved board; failure means unsolvable and leaves board and answer unchanged; for well-formed, consistent givens success is exactly solvability and the answer is a solution keeping the givens |
| SudokuProgram.Program.PrintBoard | sudoku/Program.cs:120-128 | answer equals board on every cell |
| SudokuProgram.Program.GenerateSudokuBoard | sudoku/Program.cs:130-143 | the counter grows by the number of blank cells; a cell is highlighted exactly when it is blank, and marked as filled exactly when it is not highlighted; starting from 0 the counter then counts the unfilled cells |
| SudokuProgram.Program.EnterDigit | sudoku/Program.cs:151-166 | with no cell selected nothing changes; otherwise the counter drops by one when the selected cell was unfilled; a highlighted cell takes the digit and becomes filled, and any other cell leaves both grids unchanged; when the counter reaches 0 the outcome is success exactly when the board equals the answer, else the retry dialog; the counter invariant is preserved |
| SudokuProgram.Program.IsCompleted | sudoku/Program.cs:168-177 | true exactly when sudokuBoard and answer agree on every cell |
| SudokuProgram.Program.RespondToRetry | sudoku/Program.cs:194-201 | retry clears the editable cells as ClearSudokuBoard does; the other button only sets the answer to be shown |
| SudokuProgram.Program.ClearSudokuBoard | sudoku/Program.cs:204-216 | exactly the highlighted cells become 0 and unfilled, every other cell keeps its value and becomes filled, and the counter grows by the number of highlighted cells; starting from 0 the counter then counts the unfilled cells |
| SudokuProgram.Program.SelectCell | sudoku/Program.cs:225-227 | a cell inside the board becomes the selected cell; any other position leaves the selection unchanged |
| Solver.FirstBlankFrom | sudoku/Program.cs:78-80 | the row-major scan finds the first blank cell at or after (row, col), with no blank between; none exactly when every later cell is filled |
| Solver.Search | sudoku/Program.cs:77-97 | a board it returns has no blank and keeps every filled cell of its input |
| Solver.TryDigits | sudoku/Program.cs:81-92 | a board it returns has no blank and keeps every filled cell of its input |
| Solver.SearchSound | sudoku/Program.cs:77-97 | every board the search returns completes its input |
| Solver.SearchComplete | sudoku/Program.cs:77-97 | if any completion of the board exists, the search succeeds |
| Solver.TryDigitsComplete | sudoku/Program.cs:81-92 | the digit loop succeeds at a blank cell when a completion exists, since the completion's digit is reached and accepted |
| Solver.SearchExact | sudoku/Program.cs:77-97 | the search succeeds exactly when a completion of the board exists |
| Solver.SearchFailsOnlyIfUnsolvable | sudoku/Program.cs:91-92 | when the search fails, no valid Sudoku keeps the givens, whatever the givens are |
| Solver.SearchCorrect | sudoku/Program.cs:77-97 | for well-formed, consistent givens: success exactly when the puzzle is solvable, and the board returned is a valid Sudoku keeping the givens |
| Solver.SearchKeepsConflicts | sudoku/Program.cs:80-83 | when the givens repeat a digit, any board the search returns repeats it too |
| Grids.PlaceKeepsConsistent | sudoku/Program.cs:82-83 | placing a digit that ValidMove accepts into a blank cell keeps the filled cells free of repeats |
| Grids.CompletesAdmitsMove | sudoku/Program.cs:82-83 | the digit a completion has at a blank cell is accepted by ValidMove, and the completion still completes the board with that digit placed |
| Grids.CompletesPlaced | sudoku/Program.cs:82-86 | a completion of the board with a validly placed digit completes the board before the placement |
| Grids.CompletesConsistent | sudoku/Program.cs:82-83 | for well-formed, consistent givens a completion is a valid Sudoku keeping the givens |
| Grids.SolutionCompletes | sudoku/Program.cs:82-83 | a valid Sudoku keeping the givens completes the board |
| Grids.ConflictPersists | sudoku/Program.cs:80-83 | a repeat among the filled cells survives any board keeping them |
| Grids.PlaceRemovesBlank | sudoku/Program.cs:80-85 | filling a blank cell removes exactly one blank, so the recursion terminates |
| Grids.UndoUpdate | sudoku/Program.cs:83-89 | writing a cell and then its old value back restores the board |
| Grids.GridCountUpdate | sudoku/Program.cs:151-156 | setting one cell changes a grid's count of a value by what left and what came in |
| Conflicts.RepeatedGivenReportedSolved | sudoku/Program.cs:77-97 | for a board whose givens repeat the digit 2 in the first row, the search succeeds and returns a board that is not a valid Sudoku |
| Conflicts.FivesHasNoCompletion | sudoku/Program.cs:82-83 | no board completes the grid whose only givens are two 5s side by side in the first row: the other eight rows each need a 5, in eight distinct columns other than the first two |
| Conflicts.RepeatedGivenReportedUnsolvable | sudoku/Program.cs:77-97 | on that grid the givens are not free of repeats, the search fails, and no valid Sudoku keeps the givens |
| Grids.SolutionGivensValid | sudoku/Program.cs:82-83 | a board that some valid Sudoku keeps has only digits as givens, and they repeat nothing |
| Puzzle.PuzzleValid | sudoku/Program.cs:10-20 | the program's puzzle is well-formed, free of repeats and solvable: a concrete valid Sudoku keeps its givens |
| Puzzle.PuzzleSolved | sudoku/Program.cs:77-97 | the search succeeds on the program's puzzle, and the board it returns is a valid Sudoku keeping the givens; it is exactly the concrete SOLUTION, so for instance row 0 column 0 holds 4 |
| Puzzle.PuzzleUnique | sudoku/Program.cs:10-20 | the program's puzzle has exactly one completion: every valid Sudoku keeping its givens equals SOLUTION, each of the 40 blanks being forced by the eight other digits already in its row, column and box |
| Puzzle.EmptyBoardSolved | sudoku/Program.cs:77-97 | on a board with no givens the search succeeds and returns a valid Sudoku |
| Puzzle.Setup | sudoku/Program.cs:36-50 | after the constructor and GenerateSudokuBoard, the board holds the puzzle, exactly its blanks are highlighted, and the counter counts the editable cells |
| Puzzle.Start | sudoku/Program.cs:32-40 | the start-up sequence solves the puzzle: the board shown is aliased by the solver's board and holds a valid Sudoku keeping the givens, the answer equals it and is exactly SOLUTION, and exactly the puzzle's blanks are highlighted |

## Left out

- Window setup and event wiring (`Main`, `SetupUI`, lines 32-63): GTK calls. What they do to the model's state (constructor, then `GenerateSudokuBoard`, then `Solve`) is `Puzzle.Start`.
- Puzzle.Start: does not state the blank counter after the solve. `Puzzle.Setup` states it before, and `Solve` does not change the counter or the flag grids.
- Drawing (`OnDraw`, `DrawNumber`), the message and retry dialogs (`ShowMessageDialog`, `ShowRetryDialog` up to line 193), and every `QueueDraw` call: presentation only. The dialog's choice is the `retry` parameter of `RespondToRetry`, and which message is shown is `EnterDigit`'s outcome.
- The "No solution exists." console line in `Solve` (line 73): output only. `Solve` returns whether it solved.
- The key-code conversion in `OnKeyPress` (lines 146-149): `EnterDigit` takes the resulting digit as an unbounded integer, so a non-digit key's value is written just as the source writes it.
- The pixel-to-cell mapping in `OnCellClick` (lines 219-223): `SelectCell` takes the row and column already computed.
- A key press with no cell selected: the source indexes the arrays with -1 at line 151 and throws an IndexOutOfRangeException that nothing catches. `EnterDigit` returns `NoCellSelected` and changes nothing. What the GUI toolkit does with the exception is not modelled.
- Floating-point line widths and colours: presentation only.
- 32-bit integer wrap-around: no value the program computes comes close to the bounds (cell values 0..9, indices 0..8, a counter of at most 81 away from its start, apart from the unbounded digit, which is only stored).
- semester_project/Program.cs is not part of this model: it is window setup and drawing with a copy of the flag-marking loop.
- SudokuProgram.Program.ClearSudokuBoard: the counter invariant is proved only when it starts from 0. That is the one situation in which the retry dialog calls it.
