/** A concrete board with repeated givens on which the search succeeds: the
    program reports it solved although no valid Sudoku extends it. The board
    is a valid Sudoku with its first cell overwritten by the digit 2, which
    then repeats the 2 beside it, and its last cell blanked. */
module Conflicts {
  import opened Grids
  import opened Solver

  /** The board completed: the blank filled with 5. */
  const FILLED: Grid := [
    [2, 2, 9, 5, 8, 1, 3, 7, 6],
    [5, 1, 3, 7, 4, 6, 9, 8, 2],
    [7, 6, 8, 3, 9, 2, 1, 5, 4],
    [8, 4, 6, 1, 7, 5, 2, 3, 9],
    [9, 3, 1, 6, 2, 8, 5, 4, 7],
    [2, 5, 7, 4, 3, 9, 8, 6, 1],
    [1, 8, 5, 9, 6, 7, 4, 2, 3],
    [6, 9, 4, 2, 5, 3, 7, 1, 8],
    [3, 7, 2, 8, 1, 4, 6, 9, 5]
  ]

  const REPEATED: Grid := [
    [2, 2, 9, 5, 8, 1, 3, 7, 6],
    [5, 1, 3, 7, 4, 6, 9, 8, 2],
    [7, 6, 8, 3, 9, 2, 1, 5, 4],
    [8, 4, 6, 1, 7, 5, 2, 3, 9],
    [9, 3, 1, 6, 2, 8, 5, 4, 7],
    [2, 5, 7, 4, 3, 9, 8, 6, 1],
    [1, 8, 5, 9, 6, 7, 4, 2, 3],
    [6, 9, 4, 2, 5, 3, 7, 1, 8],
    [3, 7, 2, 8, 1, 4, 6, 9, 0]
  ]

  /** The givens of REPEATED repeat the digit 2 in the first row. */
  lemma RepeatedIsInconsistent()
    ensures IsGrid(REPEATED) && !Consistent(REPEATED)
  {
    assert REPEATED[0][1] == REPEATED[0][0];
    assert !UniqueAt(REPEATED, 0, 0);
  }

  /** FILLED completes REPEATED: the one blank gets a digit unique in its row,
      column and box. */
  lemma FilledCompletesRepeated()
    ensures Completes(FILLED, REPEATED)
  {
    UniqueAtFromDiffers(FILLED, 8, 8);
  }

  /** The search succeeds on REPEATED, and what it returns is not a valid
      Sudoku. */
  lemma RepeatedGivenReportedSolved()
    ensures IsGrid(REPEATED) && Search(REPEATED).Some?
    ensures !IsSolution(Search(REPEATED).value)
  {
    FilledCompletesRepeated();
    SearchComplete(REPEATED, FILLED);
    RepeatedIsInconsistent();
    SearchKeepsConflicts(REPEATED);
  }

  // ---------------------------------------------------------------------------
  // A repeat that makes the board unsolvable

  /** A board whose only givens are two 5s side by side in the first row. */
  const FIVES: Grid := seq(9, i => seq(9, j => if i == 0 && j < 2 then 5 else BLANK))

  /** Distinct elements drawn from a finite set are no more than the set has. */
  lemma {:induction false} Pigeonhole(xs: seq<int>, a: set<int>)
    requires forall k :: 0 <= k < |xs| ==> xs[k] in a
    requires forall k, m :: 0 <= k < m < |xs| ==> xs[k] != xs[m]
    ensures |xs| <= |a|
  {
    if |xs| > 0 {
      Pigeonhole(xs[1..], a - {xs[0]});
    }
  }

  /** In a completion of FIVES every row below the first, blank in FIVES, holds
      nine distinct digits, so one of them is a 5. */
  lemma RowHasFive(s: Grid, r: int)
    requires Completes(s, FIVES) && 1 <= r < 9
    ensures exists c :: 0 <= c < 9 && s[r][c] == 5
  {
    if forall c :: 0 <= c < 9 ==> s[r][c] != 5 {
      var others := {1, 2, 3, 4, 6, 7, 8, 9};
      forall k | 0 <= k < 9
        ensures s[r][k] in others && UniqueAt(s, r, k)
      {
        assert FIVES[r][k] == BLANK;
        assert UniqueAt(s, r, k) && 1 <= s[r][k] <= 9;
        assert s[r][k] != 5;
      }
      Pigeonhole(s[r], others);
    }
  }

  /** The column of the 5 in row r of a completion of FIVES. */
  ghost function FiveAt(s: Grid, r: int): (c: int)
    requires Completes(s, FIVES) && 1 <= r < 9
    ensures 0 <= c < 9 && s[r][c] == 5
  {
    RowHasFive(s, r);
    var c :| 0 <= c < 9 && s[r][c] == 5; c
  }

  /** No board completes FIVES: the 5s of rows 1 to 8 avoid the columns of the
      two given 5s and each other's columns, but only seven columns remain. */
  lemma FivesHasNoCompletion(s: Grid)
    ensures !Completes(s, FIVES)
  {
    if Completes(s, FIVES) {
      assert s[0][0] == 5 && s[0][1] == 5 by {
        assert FIVES[0][0] == 5 && FIVES[0][1] == 5;
      }
      var cols := seq(8, k requires 0 <= k < 8 => FiveAt(s, k + 1));
      forall k | 0 <= k < 8
        ensures 0 <= cols[k] < 9 && s[k + 1][cols[k]] == 5 && UniqueAt(s, k + 1, cols[k])
      {
        assert cols[k] == FiveAt(s, k + 1);
        assert FIVES[k + 1][cols[k]] == BLANK;
      }
      forall k | 0 <= k < 8
        ensures cols[k] in {2, 3, 4, 5, 6, 7, 8}
      {
        assert s[0][cols[k]] != 5;
      }
      forall k, m | 0 <= k < m < 8
        ensures cols[k] != cols[m]
      {
        assert s[m + 1][cols[k]] != 5;
      }
      Pigeonhole(cols, {2, 3, 4, 5, 6, 7, 8});
    }
  }

  /** The search fails on FIVES, and rightly: no valid Sudoku keeps its
      givens. */
  lemma RepeatedGivenReportedUnsolvable()
    ensures WellFormed(FIVES) && !Consistent(FIVES)
    ensures Search(FIVES).None? && !Solvable(FIVES)
  {
    assert FIVES[0][1] == FIVES[0][0];
    assert !UniqueAt(FIVES, 0, 0);
    forall s
      ensures !Completes(s, FIVES) && !SolutionOf(s, FIVES)
    {
      FivesHasNoCompletion(s);
      if SolutionOf(s, FIVES) {
        SolutionCompletes(s, FIVES);
      }
    }
    SearchExact(FIVES);
  }
}
