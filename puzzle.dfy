/** The puzzle the program starts with is solvable, and so is the empty
    board: both are completed by SOLUTION. What the program does at start-up
    follows: the search succeeds and the answer is a valid Sudoku keeping the
    givens. */
module Puzzle {
  import opened Grids
  import opened Solver
  import opened SudokuProgram

  /** A valid Sudoku that keeps the givens of PUZZLE. */
  const SOLUTION: Grid := [
    [4, 2, 9, 5, 8, 1, 3, 7, 6],
    [5, 1, 3, 7, 4, 6, 9, 8, 2],
    [7, 6, 8, 3, 9, 2, 1, 5, 4],
    [8, 4, 6, 1, 7, 5, 2, 3, 9],
    [9, 3, 1, 6, 2, 8, 5, 4, 7],
    [2, 5, 7, 4, 3, 9, 8, 6, 1],
    [1, 8, 5, 9, 6, 7, 4, 2, 3],
    [6, 9, 4, 2, 5, 3, 7, 1, 8],
    [3, 7, 2, 8, 1, 4, 6, 9, 5]
  ]

  /** The board with no givens at all. */
  const EMPTY: Grid := seq(9, i => seq(9, j => BLANK))

  // ---------------------------------------------------------------------------
  // SOLUTION is a valid Sudoku, one cell at a time: each cell lemma checks
  // the twenty comparisons of RowDiffers, ColumnDiffers and BoxDiffers.

  lemma SolutionRow0()
    ensures forall j :: 0 <= j < 9 ==> UniqueAt(SOLUTION, 0, j) && 1 <= SOLUTION[0][j] <= 9
  {
    Cell00();
    Cell01();
    Cell02();
    Cell03();
    Cell04();
    Cell05();
    Cell06();
    Cell07();
    Cell08();
  }

  lemma Cell00() ensures UniqueAt(SOLUTION, 0, 0) && 1 <= SOLUTION[0][0] <= 9 { UniqueAtFromDiffers(SOLUTION, 0, 0); }
  lemma Cell01() ensures UniqueAt(SOLUTION, 0, 1) && 1 <= SOLUTION[0][1] <= 9 { UniqueAtFromDiffers(SOLUTION, 0, 1); }
  lemma Cell02() ensures UniqueAt(SOLUTION, 0, 2) && 1 <= SOLUTION[0][2] <= 9 { UniqueAtFromDiffers(SOLUTION, 0, 2); }
  lemma Cell03() ensures UniqueAt(SOLUTION, 0, 3) && 1 <= SOLUTION[0][3] <= 9 { UniqueAtFromDiffers(SOLUTION, 0, 3); }
  lemma Cell04() ensures UniqueAt(SOLUTION, 0, 4) && 1 <= SOLUTION[0][4] <= 9 { UniqueAtFromDiffers(SOLUTION, 0, 4); }
  lemma Cell05() ensures UniqueAt(SOLUTION, 0, 5) && 1 <= SOLUTION[0][5] <= 9 { UniqueAtFromDiffers(SOLUTION, 0, 5); }
  lemma Cell06() ensures UniqueAt(SOLUTION, 0, 6) && 1 <= SOLUTION[0][6] <= 9 { UniqueAtFromDiffers(SOLUTION, 0, 6); }
  lemma Cell07() ensures UniqueAt(SOLUTION, 0, 7) && 1 <= SOLUTION[0][7] <= 9 { UniqueAtFromDiffers(SOLUTION, 0, 7); }
  lemma Cell08() ensures UniqueAt(SOLUTION, 0, 8) && 1 <= SOLUTION[0][8] <= 9 { UniqueAtFromDiffers(SOLUTION, 0, 8); }

  lemma SolutionRow1()
    ensures forall j :: 0 <= j < 9 ==> UniqueAt(SOLUTION, 1, j) && 1 <= SOLUTION[1][j] <= 9
  {
    Cell10();
    Cell11();
    Cell12();
    Cell13();
    Cell14();
    Cell15();
    Cell16();
    Cell17();
    Cell18();
  }

  lemma Cell10() ensures UniqueAt(SOLUTION, 1, 0) && 1 <= SOLUTION[1][0] <= 9 { UniqueAtFromDiffers(SOLUTION, 1, 0); }
  lemma Cell11() ensures UniqueAt(SOLUTION, 1, 1) && 1 <= SOLUTION[1][1] <= 9 { UniqueAtFromDiffers(SOLUTION, 1, 1); }
  lemma Cell12() ensures UniqueAt(SOLUTION, 1, 2) && 1 <= SOLUTION[1][2] <= 9 { UniqueAtFromDiffers(SOLUTION, 1, 2); }
  lemma Cell13() ensures UniqueAt(SOLUTION, 1, 3) && 1 <= SOLUTION[1][3] <= 9 { UniqueAtFromDiffers(SOLUTION, 1, 3); }
  lemma Cell14() ensures UniqueAt(SOLUTION, 1, 4) && 1 <= SOLUTION[1][4] <= 9 { UniqueAtFromDiffers(SOLUTION, 1, 4); }
  lemma Cell15() ensures UniqueAt(SOLUTION, 1, 5) && 1 <= SOLUTION[1][5] <= 9 { UniqueAtFromDiffers(SOLUTION, 1, 5); }
  lemma Cell16() ensures UniqueAt(SOLUTION, 1, 6) && 1 <= SOLUTION[1][6] <= 9 { UniqueAtFromDiffers(SOLUTION, 1, 6); }
  lemma Cell17() ensures UniqueAt(SOLUTION, 1, 7) && 1 <= SOLUTION[1][7] <= 9 { UniqueAtFromDiffers(SOLUTION, 1, 7); }
  lemma Cell18() ensures UniqueAt(SOLUTION, 1, 8) && 1 <= SOLUTION[1][8] <= 9 { UniqueAtFromDiffers(SOLUTION, 1, 8); }

  lemma SolutionRow2()
    ensures forall j :: 0 <= j < 9 ==> UniqueAt(SOLUTION, 2, j) && 1 <= SOLUTION[2][j] <= 9
  {
    Cell20();
    Cell21();
    Cell22();
    Cell23();
    Cell24();
    Cell25();
    Cell26();
    Cell27();
    Cell28();
  }

  lemma Cell20() ensures UniqueAt(SOLUTION, 2, 0) && 1 <= SOLUTION[2][0] <= 9 { UniqueAtFromDiffers(SOLUTION, 2, 0); }
  lemma Cell21() ensures UniqueAt(SOLUTION, 2, 1) && 1 <= SOLUTION[2][1] <= 9 { UniqueAtFromDiffers(SOLUTION, 2, 1); }
  lemma Cell22() ensures UniqueAt(SOLUTION, 2, 2) && 1 <= SOLUTION[2][2] <= 9 { UniqueAtFromDiffers(SOLUTION, 2, 2); }
  lemma Cell23() ensures UniqueAt(SOLUTION, 2, 3) && 1 <= SOLUTION[2][3] <= 9 { UniqueAtFromDiffers(SOLUTION, 2, 3); }
  lemma Cell24() ensures UniqueAt(SOLUTION, 2, 4) && 1 <= SOLUTION[2][4] <= 9 { UniqueAtFromDiffers(SOLUTION, 2, 4); }
  lemma Cell25() ensures UniqueAt(SOLUTION, 2, 5) && 1 <= SOLUTION[2][5] <= 9 { UniqueAtFromDiffers(SOLUTION, 2, 5); }
  lemma Cell26() ensures UniqueAt(SOLUTION, 2, 6) && 1 <= SOLUTION[2][6] <= 9 { UniqueAtFromDiffers(SOLUTION, 2, 6); }
  lemma Cell27() ensures UniqueAt(SOLUTION, 2, 7) && 1 <= SOLUTION[2][7] <= 9 { UniqueAtFromDiffers(SOLUTION, 2, 7); }
  lemma Cell28() ensures UniqueAt(SOLUTION, 2, 8) && 1 <= SOLUTION[2][8] <= 9 { UniqueAtFromDiffers(SOLUTION, 2, 8); }

  lemma SolutionRow3()
    ensures forall j :: 0 <= j < 9 ==> UniqueAt(SOLUTION, 3, j) && 1 <= SOLUTION[3][j] <= 9
  {
    Cell30();
    Cell31();
    Cell32();
    Cell33();
    Cell34();
    Cell35();
    Cell36();
    Cell37();
    Cell38();
  }

  lemma Cell30() ensures UniqueAt(SOLUTION, 3, 0) && 1 <= SOLUTION[3][0] <= 9 { UniqueAtFromDiffers(SOLUTION, 3, 0); }
  lemma Cell31() ensures UniqueAt(SOLUTION, 3, 1) && 1 <= SOLUTION[3][1] <= 9 { UniqueAtFromDiffers(SOLUTION, 3, 1); }
  lemma Cell32() ensures UniqueAt(SOLUTION, 3, 2) && 1 <= SOLUTION[3][2] <= 9 { UniqueAtFromDiffers(SOLUTION, 3, 2); }
  lemma Cell33() ensures UniqueAt(SOLUTION, 3, 3) && 1 <= SOLUTION[3][3] <= 9 { UniqueAtFromDiffers(SOLUTION, 3, 3); }
  lemma Cell34() ensures UniqueAt(SOLUTION, 3, 4) && 1 <= SOLUTION[3][4] <= 9 { UniqueAtFromDiffers(SOLUTION, 3, 4); }
  lemma Cell35() ensures UniqueAt(SOLUTION, 3, 5) && 1 <= SOLUTION[3][5] <= 9 { UniqueAtFromDiffers(SOLUTION, 3, 5); }
  lemma Cell36() ensures UniqueAt(SOLUTION, 3, 6) && 1 <= SOLUTION[3][6] <= 9 { UniqueAtFromDiffers(SOLUTION, 3, 6); }
  lemma Cell37() ensures UniqueAt(SOLUTION, 3, 7) && 1 <= SOLUTION[3][7] <= 9 { UniqueAtFromDiffers(SOLUTION, 3, 7); }
  lemma Cell38() ensures UniqueAt(SOLUTION, 3, 8) && 1 <= SOLUTION[3][8] <= 9 { UniqueAtFromDiffers(SOLUTION, 3, 8); }

  lemma SolutionRow4()
    ensures forall j :: 0 <= j < 9 ==> UniqueAt(SOLUTION, 4, j) && 1 <= SOLUTION[4][j] <= 9
  {
    Cell40();
    Cell41();
    Cell42();
    Cell43();
    Cell44();
    Cell45();
    Cell46();
    Cell47();
    Cell48();
  }

  lemma Cell40() ensures UniqueAt(SOLUTION, 4, 0) && 1 <= SOLUTION[4][0] <= 9 { UniqueAtFromDiffers(SOLUTION, 4, 0); }
  lemma Cell41() ensures UniqueAt(SOLUTION, 4, 1) && 1 <= SOLUTION[4][1] <= 9 { UniqueAtFromDiffers(SOLUTION, 4, 1); }
  lemma Cell42() ensures UniqueAt(SOLUTION, 4, 2) && 1 <= SOLUTION[4][2] <= 9 { UniqueAtFromDiffers(SOLUTION, 4, 2); }
  lemma Cell43() ensures UniqueAt(SOLUTION, 4, 3) && 1 <= SOLUTION[4][3] <= 9 { UniqueAtFromDiffers(SOLUTION, 4, 3); }
  lemma Cell44() ensures UniqueAt(SOLUTION, 4, 4) && 1 <= SOLUTION[4][4] <= 9 { UniqueAtFromDiffers(SOLUTION, 4, 4); }
  lemma Cell45() ensures UniqueAt(SOLUTION, 4, 5) && 1 <= SOLUTION[4][5] <= 9 { UniqueAtFromDiffers(SOLUTION, 4, 5); }
  lemma Cell46() ensures UniqueAt(SOLUTION, 4, 6) && 1 <= SOLUTION[4][6] <= 9 { UniqueAtFromDiffers(SOLUTION, 4, 6); }
  lemma Cell47() ensures UniqueAt(SOLUTION, 4, 7) && 1 <= SOLUTION[4][7] <= 9 { UniqueAtFromDiffers(SOLUTION, 4, 7); }
  lemma Cell48() ensures UniqueAt(SOLUTION, 4, 8) && 1 <= SOLUTION[4][8] <= 9 { UniqueAtFromDiffers(SOLUTION, 4, 8); }

  lemma SolutionRow5()
    ensures forall j :: 0 <= j < 9 ==> UniqueAt(SOLUTION, 5, j) && 1 <= SOLUTION[5][j] <= 9
  {
    Cell50();
    Cell51();
    Cell52();
    Cell53();
    Cell54();
    Cell55();
    Cell56();
    Cell57();
    Cell58();
  }

  lemma Cell50() ensures UniqueAt(SOLUTION, 5, 0) && 1 <= SOLUTION[5][0] <= 9 { UniqueAtFromDiffers(SOLUTION, 5, 0); }
  lemma Cell51() ensures UniqueAt(SOLUTION, 5, 1) && 1 <= SOLUTION[5][1] <= 9 { UniqueAtFromDiffers(SOLUTION, 5, 1); }
  lemma Cell52() ensures UniqueAt(SOLUTION, 5, 2) && 1 <= SOLUTION[5][2] <= 9 { UniqueAtFromDiffers(SOLUTION, 5, 2); }
  lemma Cell53() ensures UniqueAt(SOLUTION, 5, 3) && 1 <= SOLUTION[5][3] <= 9 { UniqueAtFromDiffers(SOLUTION, 5, 3); }
  lemma Cell54() ensures UniqueAt(SOLUTION, 5, 4) && 1 <= SOLUTION[5][4] <= 9 { UniqueAtFromDiffers(SOLUTION, 5, 4); }
  lemma Cell55() ensures UniqueAt(SOLUTION, 5, 5) && 1 <= SOLUTION[5][5] <= 9 { UniqueAtFromDiffers(SOLUTION, 5, 5); }
  lemma Cell56() ensures UniqueAt(SOLUTION, 5, 6) && 1 <= SOLUTION[5][6] <= 9 { UniqueAtFromDiffers(SOLUTION, 5, 6); }
  lemma Cell57() ensures UniqueAt(SOLUTION, 5, 7) && 1 <= SOLUTION[5][7] <= 9 { UniqueAtFromDiffers(SOLUTION, 5, 7); }
  lemma Cell58() ensures UniqueAt(SOLUTION, 5, 8) && 1 <= SOLUTION[5][8] <= 9 { UniqueAtFromDiffers(SOLUTION, 5, 8); }

  lemma SolutionRow6()
    ensures forall j :: 0 <= j < 9 ==> UniqueAt(SOLUTION, 6, j) && 1 <= SOLUTION[6][j] <= 9
  {
    Cell60();
    Cell61();
    Cell62();
    Cell63();
    Cell64();
    Cell65();
    Cell66();
    Cell67();
    Cell68();
  }

  lemma Cell60() ensures UniqueAt(SOLUTION, 6, 0) && 1 <= SOLUTION[6][0] <= 9 { UniqueAtFromDiffers(SOLUTION, 6, 0); }
  lemma Cell61() ensures UniqueAt(SOLUTION, 6, 1) && 1 <= SOLUTION[6][1] <= 9 { UniqueAtFromDiffers(SOLUTION, 6, 1); }
  lemma Cell62() ensures UniqueAt(SOLUTION, 6, 2) && 1 <= SOLUTION[6][2] <= 9 { UniqueAtFromDiffers(SOLUTION, 6, 2); }
  lemma Cell63() ensures UniqueAt(SOLUTION, 6, 3) && 1 <= SOLUTION[6][3] <= 9 { UniqueAtFromDiffers(SOLUTION, 6, 3); }
  lemma Cell64() ensures UniqueAt(SOLUTION, 6, 4) && 1 <= SOLUTION[6][4] <= 9 { UniqueAtFromDiffers(SOLUTION, 6, 4); }
  lemma Cell65() ensures UniqueAt(SOLUTION, 6, 5) && 1 <= SOLUTION[6][5] <= 9 { UniqueAtFromDiffers(SOLUTION, 6, 5); }
  lemma Cell66() ensures UniqueAt(SOLUTION, 6, 6) && 1 <= SOLUTION[6][6] <= 9 { UniqueAtFromDiffers(SOLUTION, 6, 6); }
  lemma Cell67() ensures UniqueAt(SOLUTION, 6, 7) && 1 <= SOLUTION[6][7] <= 9 { UniqueAtFromDiffers(SOLUTION, 6, 7); }
  lemma Cell68() ensures UniqueAt(SOLUTION, 6, 8) && 1 <= SOLUTION[6][8] <= 9 { UniqueAtFromDiffers(SOLUTION, 6, 8); }

  lemma SolutionRow7()
    ensures forall j :: 0 <= j < 9 ==> UniqueAt(SOLUTION, 7, j) && 1 <= SOLUTION[7][j] <= 9
  {
    Cell70();
    Cell71();
    Cell72();
    Cell73();
    Cell74();
    Cell75();
    Cell76();
    Cell77();
    Cell78();
  }

  lemma Cell70() ensures UniqueAt(SOLUTION, 7, 0) && 1 <= SOLUTION[7][0] <= 9 { UniqueAtFromDiffers(SOLUTION, 7, 0); }
  lemma Cell71() ensures UniqueAt(SOLUTION, 7, 1) && 1 <= SOLUTION[7][1] <= 9 { UniqueAtFromDiffers(SOLUTION, 7, 1); }
  lemma Cell72() ensures UniqueAt(SOLUTION, 7, 2) && 1 <= SOLUTION[7][2] <= 9 { UniqueAtFromDiffers(SOLUTION, 7, 2); }
  lemma Cell73() ensures UniqueAt(SOLUTION, 7, 3) && 1 <= SOLUTION[7][3] <= 9 { UniqueAtFromDiffers(SOLUTION, 7, 3); }
  lemma Cell74() ensures UniqueAt(SOLUTION, 7, 4) && 1 <= SOLUTION[7][4] <= 9 { UniqueAtFromDiffers(SOLUTION, 7, 4); }
  lemma Cell75() ensures UniqueAt(SOLUTION, 7, 5) && 1 <= SOLUTION[7][5] <= 9 { UniqueAtFromDiffers(SOLUTION, 7, 5); }
  lemma Cell76() ensures UniqueAt(SOLUTION, 7, 6) && 1 <= SOLUTION[7][6] <= 9 { UniqueAtFromDiffers(SOLUTION, 7, 6); }
  lemma Cell77() ensures UniqueAt(SOLUTION, 7, 7) && 1 <= SOLUTION[7][7] <= 9 { UniqueAtFromDiffers(SOLUTION, 7, 7); }
  lemma Cell78() ensures UniqueAt(SOLUTION, 7, 8) && 1 <= SOLUTION[7][8] <= 9 { UniqueAtFromDiffers(SOLUTION, 7, 8); }

  lemma SolutionRow8()
    ensures forall j :: 0 <= j < 9 ==> UniqueAt(SOLUTION, 8, j) && 1 <= SOLUTION[8][j] <= 9
  {
    Cell80();
    Cell81();
    Cell82();
    Cell83();
    Cell84();
    Cell85();
    Cell86();
    Cell87();
    Cell88();
  }

  lemma Cell80() ensures UniqueAt(SOLUTION, 8, 0) && 1 <= SOLUTION[8][0] <= 9 { UniqueAtFromDiffers(SOLUTION, 8, 0); }
  lemma Cell81() ensures UniqueAt(SOLUTION, 8, 1) && 1 <= SOLUTION[8][1] <= 9 { UniqueAtFromDiffers(SOLUTION, 8, 1); }
  lemma Cell82() ensures UniqueAt(SOLUTION, 8, 2) && 1 <= SOLUTION[8][2] <= 9 { UniqueAtFromDiffers(SOLUTION, 8, 2); }
  lemma Cell83() ensures UniqueAt(SOLUTION, 8, 3) && 1 <= SOLUTION[8][3] <= 9 { UniqueAtFromDiffers(SOLUTION, 8, 3); }
  lemma Cell84() ensures UniqueAt(SOLUTION, 8, 4) && 1 <= SOLUTION[8][4] <= 9 { UniqueAtFromDiffers(SOLUTION, 8, 4); }
  lemma Cell85() ensures UniqueAt(SOLUTION, 8, 5) && 1 <= SOLUTION[8][5] <= 9 { UniqueAtFromDiffers(SOLUTION, 8, 5); }
  lemma Cell86() ensures UniqueAt(SOLUTION, 8, 6) && 1 <= SOLUTION[8][6] <= 9 { UniqueAtFromDiffers(SOLUTION, 8, 6); }
  lemma Cell87() ensures UniqueAt(SOLUTION, 8, 7) && 1 <= SOLUTION[8][7] <= 9 { UniqueAtFromDiffers(SOLUTION, 8, 7); }
  lemma Cell88() ensures UniqueAt(SOLUTION, 8, 8) && 1 <= SOLUTION[8][8] <= 9 { UniqueAtFromDiffers(SOLUTION, 8, 8); }

  /** Every cell of SOLUTION holds a digit unique in its row, column and box. */
  lemma SolutionIsValid()
    ensures IsSolution(SOLUTION)
  {
    SolutionRow0(); SolutionRow1(); SolutionRow2();
    SolutionRow3(); SolutionRow4(); SolutionRow5();
    SolutionRow6(); SolutionRow7(); SolutionRow8();
  }

  // ---------------------------------------------------------------------------
  // SOLUTION is the only valid Sudoku keeping the givens of PUZZLE: each blank
  // is forced, in turn, because its row, column and box already hold the eight
  // other digits. Forced<i><j> derives cell (i, j) from the givens and the cells
  // forced before it.

  lemma Forced00(s: Grid)
    requires SolutionOf(s, PUZZLE)
    ensures s[0][0] == 4
  {
    assert UniqueAt(s, 0, 0) && 1 <= s[0][0] <= 9;
    DiffersFromUniqueAt(s, 0, 0);
  }

  lemma Forced05(s: Grid)
    requires SolutionOf(s, PUZZLE)
    requires s[0][0] == 4
    ensures s[0][5] == 1
  {
    assert UniqueAt(s, 0, 5) && 1 <= s[0][5] <= 9;
    DiffersFromUniqueAt(s, 0, 5);
  }

  lemma Forced10(s: Grid)
    requires SolutionOf(s, PUZZLE)
    requires s[0][0] == 4
    ensures s[1][0] == 5
  {
    assert UniqueAt(s, 1, 0) && 1 <= s[1][0] <= 9;
    DiffersFromUniqueAt(s, 1, 0);
  }

  lemma Forced13(s: Grid)
    requires SolutionOf(s, PUZZLE)
    requires s[0][5] == 1 && s[1][0] == 5
    ensures s[1][3] == 7
  {
    assert UniqueAt(s, 1, 3) && 1 <= s[1][3] <= 9;
    DiffersFromUniqueAt(s, 1, 3);
  }

  lemma Forced15(s: Grid)
    requires SolutionOf(s, PUZZLE)
    requires s[0][5] == 1 && s[1][0] == 5 && s[1][3] == 7
    ensures s[1][5] == 6
  {
    assert UniqueAt(s, 1, 5) && 1 <= s[1][5] <= 9;
    DiffersFromUniqueAt(s, 1, 5);
  }

  lemma Forced17(s: Grid)
    requires SolutionOf(s, PUZZLE)
    requires s[1][0] == 5 && s[1][3] == 7 && s[1][5] == 6
    ensures s[1][7] == 8
  {
    assert UniqueAt(s, 1, 7) && 1 <= s[1][7] <= 9;
    DiffersFromUniqueAt(s, 1, 7);
  }

  lemma Forced18(s: Grid)
    requires SolutionOf(s, PUZZLE)
    requires s[1][0] == 5 && s[1][3] == 7 && s[1][5] == 6 && s[1][7] == 8
    ensures s[1][8] == 2
  {
    assert UniqueAt(s, 1, 8) && 1 <= s[1][8] <= 9;
    DiffersFromUniqueAt(s, 1, 8);
  }

  lemma Forced21(s: Grid)
    requires SolutionOf(s, PUZZLE)
    requires s[0][0] == 4 && s[1][0] == 5
    ensures s[2][1] == 6
  {
    assert UniqueAt(s, 2, 1) && 1 <= s[2][1] <= 9;
    DiffersFromUniqueAt(s, 2, 1);
  }

  lemma Forced24(s: Grid)
    requires SolutionOf(s, PUZZLE)
    requires s[0][5] == 1 && s[1][3] == 7 && s[1][5] == 6 && s[2][1] == 6
    ensures s[2][4] == 9
  {
    assert UniqueAt(s, 2, 4) && 1 <= s[2][4] <= 9;
    DiffersFromUniqueAt(s, 2, 4);
  }

  lemma Forced26(s: Grid)
    requires SolutionOf(s, PUZZLE)
    requires s[1][7] == 8 && s[1][8] == 2 && s[2][1] == 6 && s[2][4] == 9
    ensures s[2][6] == 1
  {
    assert UniqueAt(s, 2, 6) && 1 <= s[2][6] <= 9;
    DiffersFromUniqueAt(s, 2, 6);
  }

  lemma Forced28(s: Grid)
    requires SolutionOf(s, PUZZLE)
    requires s[1][7] == 8 && s[1][8] == 2 && s[2][1] == 6 && s[2][4] == 9 && s[2][6] == 1
    ensures s[2][8] == 4
  {
    assert UniqueAt(s, 2, 8) && 1 <= s[2][8] <= 9;
    DiffersFromUniqueAt(s, 2, 8);
  }

  lemma Forced54(s: Grid)
    requires SolutionOf(s, PUZZLE)
    requires s[2][4] == 9
    ensures s[5][4] == 3
  {
    assert UniqueAt(s, 5, 4) && 1 <= s[5][4] <= 9;
    DiffersFromUniqueAt(s, 5, 4);
  }

  lemma Forced62(s: Grid)
    requires SolutionOf(s, PUZZLE)
    ensures s[6][2] == 5
  {
    assert UniqueAt(s, 6, 2) && 1 <= s[6][2] <= 9;
    DiffersFromUniqueAt(s, 6, 2);
  }

  lemma Forced82(s: Grid)
    requires SolutionOf(s, PUZZLE)
    requires s[6][2] == 5
    ensures s[8][2] == 2
  {
    assert UniqueAt(s, 8, 2) && 1 <= s[8][2] <= 9;
    DiffersFromUniqueAt(s, 8, 2);
  }

  lemma Forced83(s: Grid)
    requires SolutionOf(s, PUZZLE)
    requires s[1][3] == 7 && s[8][2] == 2
    ensures s[8][3] == 8
  {
    assert UniqueAt(s, 8, 3) && 1 <= s[8][3] <= 9;
    DiffersFromUniqueAt(s, 8, 3);
  }

  lemma Forced88(s: Grid)
    requires SolutionOf(s, PUZZLE)
    requires s[1][8] == 2 && s[2][8] == 4 && s[8][2] == 2 && s[8][3] == 8
    ensures s[8][8] == 5
  {
    assert UniqueAt(s, 8, 8) && 1 <= s[8][8] <= 9;
    DiffersFromUniqueAt(s, 8, 8);
  }

  lemma Forced12(s: Grid)
    requires SolutionOf(s, PUZZLE)
    requires s[0][0] == 4 && s[1][0] == 5 && s[1][3] == 7 && s[1][5] == 6 && s[1][7] == 8 && s[1][8] == 2 && s[2][1] == 6 && s[6][2] == 5 && s[8][2] == 2
    ensures s[1][2] == 3
  {
    assert UniqueAt(s, 1, 2) && 1 <= s[1][2] <= 9;
    DiffersFromUniqueAt(s, 1, 2);
  }

  lemma Forced38(s: Grid)
    requires SolutionOf(s, PUZZLE)
    requires s[1][8] == 2 && s[2][8] == 4 && s[8][8] == 5
    ensures s[3][8] == 9
  {
    assert UniqueAt(s, 3, 8) && 1 <= s[3][8] <= 9;
    DiffersFromUniqueAt(s, 3, 8);
  }

  lemma Forced52(s: Grid)
    requires SolutionOf(s, PUZZLE)
    requires s[1][2] == 3 && s[5][4] == 3 && s[6][2] == 5 && s[8][2] == 2
    ensures s[5][2] == 7
  {
    assert UniqueAt(s, 5, 2) && 1 <= s[5][2] <= 9;
    DiffersFromUniqueAt(s, 5, 2);
  }

  lemma Forced63(s: Grid)
    requires SolutionOf(s, PUZZLE)
    requires s[1][3] == 7 && s[6][2] == 5 && s[8][3] == 8
    ensures s[6][3] == 9
  {
    assert UniqueAt(s, 6, 3) && 1 <= s[6][3] <= 9;
    DiffersFromUniqueAt(s, 6, 3);
  }

  lemma Forced65(s: Grid)
    requires SolutionOf(s, PUZZLE)
    requires s[0][5] == 1 && s[1][5] == 6 && s[6][2] == 5 && s[6][3] == 9 && s[8][3] == 8
    ensures s[6][5] == 7
  {
    assert UniqueAt(s, 6, 5) && 1 <= s[6][5] <= 9;
    DiffersFromUniqueAt(s, 6, 5);
  }

  lemma Forced75(s: Grid)
    requires SolutionOf(s, PUZZLE)
    requires s[0][5] == 1 && s[1][5] == 6 && s[6][3] == 9 && s[6][5] == 7 && s[8][3] == 8
    ensures s[7][5] == 3
  {
    assert UniqueAt(s, 7, 5) && 1 <= s[7][5] <= 9;
    DiffersFromUniqueAt(s, 7, 5);
  }

  lemma Forced86(s: Grid)
    requires SolutionOf(s, PUZZLE)
    requires s[2][6] == 1 && s[8][2] == 2 && s[8][3] == 8 && s[8][8] == 5
    ensures s[8][6] == 6
  {
    assert UniqueAt(s, 8, 6) && 1 <= s[8][6] <= 9;
    DiffersFromUniqueAt(s, 8, 6);
  }

  lemma Forced35(s: Grid)
    requires SolutionOf(s, PUZZLE)
    requires s[0][5] == 1 && s[1][5] == 6 && s[3][8] == 9 && s[5][4] == 3 && s[6][5] == 7 && s[7][5] == 3
    ensures s[3][5] == 5
  {
    assert UniqueAt(s, 3, 5) && 1 <= s[3][5] <= 9;
    DiffersFromUniqueAt(s, 3, 5);
  }

  lemma Forced36(s: Grid)
    requires SolutionOf(s, PUZZLE)
    requires s[2][6] == 1 && s[3][5] == 5 && s[3][8] == 9 && s[8][6] == 6
    ensures s[3][6] == 2
  {
    assert UniqueAt(s, 3, 6) && 1 <= s[3][6] <= 9;
    DiffersFromUniqueAt(s, 3, 6);
  }

  lemma Forced42(s: Grid)
    requires SolutionOf(s, PUZZLE)
    requires s[1][2] == 3 && s[5][2] == 7 && s[6][2] == 5 && s[8][2] == 2
    ensures s[4][2] == 1
  {
    assert UniqueAt(s, 4, 2) && 1 <= s[4][2] <= 9;
    DiffersFromUniqueAt(s, 4, 2);
  }

  lemma Forced45(s: Grid)
    requires SolutionOf(s, PUZZLE)
    requires s[0][5] == 1 && s[1][5] == 6 && s[3][5] == 5 && s[4][2] == 1 && s[5][4] == 3 && s[6][5] == 7 && s[7][5] == 3
    ensures s[4][5] == 8
  {
    assert UniqueAt(s, 4, 5) && 1 <= s[4][5] <= 9;
    DiffersFromUniqueAt(s, 4, 5);
  }

  lemma Forced48(s: Grid)
    requires SolutionOf(s, PUZZLE)
    requires s[1][8] == 2 && s[2][8] == 4 && s[3][6] == 2 && s[3][8] == 9 && s[4][2] == 1 && s[4][5] == 8 && s[8][8] == 5
    ensures s[4][8] == 7
  {
    assert UniqueAt(s, 4, 8) && 1 <= s[4][8] <= 9;
    DiffersFromUniqueAt(s, 4, 8);
  }

  lemma Forced53(s: Grid)
    requires SolutionOf(s, PUZZLE)
    requires s[1][3] == 7 && s[3][5] == 5 && s[4][5] == 8 && s[5][2] == 7 && s[5][4] == 3 && s[6][3] == 9 && s[8][3] == 8
    ensures s[5][3] == 4
  {
    assert UniqueAt(s, 5, 3) && 1 <= s[5][3] <= 9;
    DiffersFromUniqueAt(s, 5, 3);
  }

  lemma Forced55(s: Grid)
    requires SolutionOf(s, PUZZLE)
    requires s[0][5] == 1 && s[1][5] == 6 && s[3][5] == 5 && s[4][5] == 8 && s[5][2] == 7 && s[5][3] == 4 && s[5][4] == 3 && s[6][5] == 7 && s[7][5] == 3
    ensures s[5][5] == 9
  {
    assert UniqueAt(s, 5, 5) && 1 <= s[5][5] <= 9;
    DiffersFromUniqueAt(s, 5, 5);
  }

  lemma Forced61(s: Grid)
    requires SolutionOf(s, PUZZLE)
    requires s[2][1] == 6 && s[6][2] == 5 && s[6][3] == 9 && s[6][5] == 7 && s[8][2] == 2
    ensures s[6][1] == 8
  {
    assert UniqueAt(s, 6, 1) && 1 <= s[6][1] <= 9;
    DiffersFromUniqueAt(s, 6, 1);
  }

  lemma Forced71(s: Grid)
    requires SolutionOf(s, PUZZLE)
    requires s[2][1] == 6 && s[6][1] == 8 && s[6][2] == 5 && s[7][5] == 3 && s[8][2] == 2
    ensures s[7][1] == 9
  {
    assert UniqueAt(s, 7, 1) && 1 <= s[7][1] <= 9;
    DiffersFromUniqueAt(s, 7, 1);
  }

  lemma Forced78(s: Grid)
    requires SolutionOf(s, PUZZLE)
    requires s[1][8] == 2 && s[2][8] == 4 && s[3][8] == 9 && s[4][8] == 7 && s[7][1] == 9 && s[7][5] == 3 && s[8][6] == 6 && s[8][8] == 5
    ensures s[7][8] == 8
  {
    assert UniqueAt(s, 7, 8) && 1 <= s[7][8] <= 9;
    DiffersFromUniqueAt(s, 7, 8);
  }

  lemma Forced31(s: Grid)
    requires SolutionOf(s, PUZZLE)
    requires s[2][1] == 6 && s[3][5] == 5 && s[3][6] == 2 && s[3][8] == 9 && s[4][2] == 1 && s[5][2] == 7 && s[6][1] == 8 && s[7][1] == 9
    ensures s[3][1] == 4
  {
    assert UniqueAt(s, 3, 1) && 1 <= s[3][1] <= 9;
    DiffersFromUniqueAt(s, 3, 1);
  }

  lemma Forced32(s: Grid)
    requires SolutionOf(s, PUZZLE)
    requires s[1][2] == 3 && s[3][1] == 4 && s[3][5] == 5 && s[3][6] == 2 && s[3][8] == 9 && s[4][2] == 1 && s[5][2] == 7 && s[6][2] == 5 && s[8][2] == 2
    ensures s[3][2] == 6
  {
    assert UniqueAt(s, 3, 2) && 1 <= s[3][2] <= 9;
    DiffersFromUniqueAt(s, 3, 2);
  }

  lemma Forced33(s: Grid)
    requires SolutionOf(s, PUZZLE)
    requires s[1][3] == 7 && s[3][1] == 4 && s[3][2] == 6 && s[3][5] == 5 && s[3][6] == 2 && s[3][8] == 9 && s[4][5] == 8 && s[5][3] == 4 && s[5][4] == 3 && s[5][5] == 9 && s[6][3] == 9 && s[8][3] == 8
    ensures s[3][3] == 1
  {
    assert UniqueAt(s, 3, 3) && 1 <= s[3][3] <= 9;
    DiffersFromUniqueAt(s, 3, 3);
  }

  lemma Forced46(s: Grid)
    requires SolutionOf(s, PUZZLE)
    requires s[2][6] == 1 && s[3][6] == 2 && s[3][8] == 9 && s[4][2] == 1 && s[4][5] == 8 && s[4][8] == 7 && s[8][6] == 6
    ensures s[4][6] == 5
  {
    assert UniqueAt(s, 4, 6) && 1 <= s[4][6] <= 9;
    DiffersFromUniqueAt(s, 4, 6);
  }

  lemma Forced51(s: Grid)
    requires SolutionOf(s, PUZZLE)
    requires s[2][1] == 6 && s[3][1] == 4 && s[3][2] == 6 && s[4][2] == 1 && s[5][2] == 7 && s[5][3] == 4 && s[5][4] == 3 && s[5][5] == 9 && s[6][1] == 8 && s[7][1] == 9
    ensures s[5][1] == 5
  {
    assert UniqueAt(s, 5, 1) && 1 <= s[5][1] <= 9;
    DiffersFromUniqueAt(s, 5, 1);
  }

  lemma Forced56(s: Grid)
    requires SolutionOf(s, PUZZLE)
    requires s[2][6] == 1 && s[3][6] == 2 && s[3][8] == 9 && s[4][6] == 5 && s[4][8] == 7 && s[5][1] == 5 && s[5][2] == 7 && s[5][3] == 4 && s[5][4] == 3 && s[5][5] == 9 && s[8][6] == 6
    ensures s[5][6] == 8
  {
    assert UniqueAt(s, 5, 6) && 1 <= s[5][6] <= 9;
    DiffersFromUniqueAt(s, 5, 6);
  }

  lemma Forced76(s: Grid)
    requires SolutionOf(s, PUZZLE)
    requires s[2][6] == 1 && s[3][6] == 2 && s[4][6] == 5 && s[5][6] == 8 && s[7][1] == 9 && s[7][5] == 3 && s[7][8] == 8 && s[8][6] == 6 && s[8][8] == 5
    ensures s[7][6] == 7
  {
    assert UniqueAt(s, 7, 6) && 1 <= s[7][6] <= 9;
    DiffersFromUniqueAt(s, 7, 6);
  }

  /** A valid Sudoku that keeps the givens of PUZZLE is SOLUTION: the
      puzzle's completion is unique. */
  lemma PuzzleUnique(s: Grid)
    requires SolutionOf(s, PUZZLE)
    ensures s == SOLUTION
  {
    Forced00(s);
    Forced05(s);
    Forced10(s);
    Forced13(s);
    Forced15(s);
    Forced17(s);
    Forced18(s);
    Forced21(s);
    Forced24(s);
    Forced26(s);
    Forced28(s);
    Forced54(s);
    Forced62(s);
    Forced82(s);
    Forced83(s);
    Forced88(s);
    Forced12(s);
    Forced38(s);
    Forced52(s);
    Forced63(s);
    Forced65(s);
    Forced75(s);
    Forced86(s);
    Forced35(s);
    Forced36(s);
    Forced42(s);
    Forced45(s);
    Forced48(s);
    Forced53(s);
    Forced55(s);
    Forced61(s);
    Forced71(s);
    Forced78(s);
    Forced31(s);
    Forced32(s);
    Forced33(s);
    Forced46(s);
    Forced51(s);
    Forced56(s);
    Forced76(s);
    assert s[0] == SOLUTION[0];
    assert s[1] == SOLUTION[1];
    assert s[2] == SOLUTION[2];
    assert s[3] == SOLUTION[3];
    assert s[4] == SOLUTION[4];
    assert s[5] == SOLUTION[5];
    assert s[6] == SOLUTION[6];
    assert s[7] == SOLUTION[7];
    assert s[8] == SOLUTION[8];
  }

  // ---------------------------------------------------------------------------
  // The puzzle and the empty board.

  /** SOLUTION is a valid Sudoku keeping the givens of PUZZLE. */
  lemma SolutionKeepsPuzzle()
    ensures SolutionOf(SOLUTION, PUZZLE)
  {
    SolutionIsValid();
  }

  /** The program's puzzle is well-formed, free of repeats and solvable. */
  lemma PuzzleValid()
    ensures WellFormed(PUZZLE) && Consistent(PUZZLE) && Solvable(PUZZLE)
  {
    SolutionKeepsPuzzle();
    SolutionGivensValid(SOLUTION, PUZZLE);
  }

  /** The search succeeds on the program's puzzle, and the board it returns is
      a valid Sudoku keeping the givens; being the only one, it is SOLUTION,
      with a 4 in the top-left cell. */
  lemma PuzzleSolved()
    ensures Search(PUZZLE).Some? && SolutionOf(Search(PUZZLE).value, PUZZLE)
    ensures Search(PUZZLE) == Some(SOLUTION) && Search(PUZZLE).value[0][0] == 4
  {
    PuzzleValid();
    SearchCorrect(PUZZLE);
    PuzzleUnique(Search(PUZZLE).value);
  }

  /** The search also succeeds on a board without givens, with a valid Sudoku. */
  lemma EmptyBoardSolved()
    ensures WellFormed(EMPTY) && Consistent(EMPTY)
    ensures Search(EMPTY).Some? && IsSolution(Search(EMPTY).value)
  {
    SolutionIsValid();
    assert SolutionOf(SOLUTION, EMPTY);
    SolutionGivensValid(SOLUTION, EMPTY);
    SearchCorrect(EMPTY);
  }

  /** The first two steps of the start-up sequence: construct the program and
      mark the editable cells. */
  method Setup() returns (p: Program)
    ensures fresh(p) && fresh(p.sudokuBoard) && fresh(p.answer)
    ensures p.Valid() && p.board == null
    ensures forall i, j :: 0 <= i < 9 && 0 <= j < 9 ==> p.sudokuBoard[i, j] == PUZZLE[i][j]
    ensures forall i, j :: 0 <= i < 9 && 0 <= j < 9 ==> p.highLightCell[i, j] == (PUZZLE[i][j] == BLANK)
    ensures p.BlankCountTracked()
  {
    p := new Program();
    p.GenerateSudokuBoard();
  }

  /** The start-up sequence: construct the program, mark the editable cells,
      then solve. The puzzle is solved, and the board shown and the answer both
      hold SOLUTION, the one valid Sudoku keeping the givens. */
  method Start() returns (p: Program, solved: bool)
    ensures p.Valid() && p.board == p.sudokuBoard && solved
    ensures SolutionOf(Snapshot(p.answer), PUZZLE) && Snapshot(p.sudokuBoard) == Snapshot(p.answer)
    ensures Snapshot(p.answer) == SOLUTION
    ensures forall i, j :: 0 <= i < 9 && 0 <= j < 9 ==> p.highLightCell[i, j] == (PUZZLE[i][j] == BLANK)
  {
    p := Setup();
    GridEq(Snapshot(p.sudokuBoard), PUZZLE);
    PuzzleValid();
    PuzzleSolved();
    solved := p.Solve();
  }
}
