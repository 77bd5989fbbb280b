/** The backtracking solver of the Sudoku game: it finds the first empty cell in row-major
    order, tries the digits 1..9 that the rules allow there, and either stops at the first
    solution (`SolveSudoku`) or counts all of them (`CountSolutions`). The search is specified
    by the ghost functions `SolveFn` and `CountFn`, and the lemmas relate both to the
    solutions (`IsCompletion`) of the board. */
module SudokuSolve {
  import opened Grids
  import opened Options
  import opened SudokuRules

  /** The number of empty cells, the measure the search decreases. */
  ghost function Empties(g: Grid): nat {
    CountIn(g, 0, 0)
  }

  /** Cell (r1, c1) comes before cell (r2, c2) in row-major order. */
  predicate Before(r1: int, c1: int, r2: int, c2: int) {
    r1 < r2 || (r1 == r2 && c1 < c2)
  }

  /** The first empty cell at or after (r, c) in row-major order. */
  ghost function FirstEmptyFrom(g: Grid, r: int, c: int): (p: Option<(int, int)>)
    requires IsBoard(g) && 0 <= r <= 9 && 0 <= c <= 9
    decreases 9 - r, 9 - c
    ensures p.None? <==> forall r2, c2 :: InRange(r2, c2) && !Before(r2, c2, r, c) ==> g[r2][c2] != 0
    ensures p.Some? ==> (&& InRange(p.value.0, p.value.1) && !Before(p.value.0, p.value.1, r, c)
                        && g[p.value.0][p.value.1] == 0
                        && forall r2, c2 ::
                             InRange(r2, c2) && !Before(r2, c2, r, c) && Before(r2, c2, p.value.0, p.value.1)
                             ==> g[r2][c2] != 0)
  {
    if r == 9 then None
    else if c == 9 then FirstEmptyFrom(g, r + 1, 0)
    else if g[r][c] == 0 then Some((r, c))
    else FirstEmptyFrom(g, r, c + 1)
  }

  /** `find_empty_cell`, as a function of the board. */
  ghost function FirstEmpty(g: Grid): Option<(int, int)>
    requires IsBoard(g)
  {
    FirstEmptyFrom(g, 0, 0)
  }

  /** The first empty cell is the only empty cell that no empty cell precedes; it is
      absent exactly when the board is full. */
  lemma FirstEmptySpec(g: Grid, r: int, c: int)
    requires IsBoard(g)
    ensures FirstEmpty(g).None? <==> forall r2, c2 :: InRange(r2, c2) ==> g[r2][c2] != 0
    ensures FirstEmpty(g) == Some((r, c)) <==>
              && InRange(r, c) && g[r][c] == 0
              && forall r2, c2 :: InRange(r2, c2) && Before(r2, c2, r, c) ==> g[r2][c2] != 0
  {
    var p := FirstEmpty(g);
    if InRange(r, c) && g[r][c] == 0
       && (forall r2, c2 :: InRange(r2, c2) && Before(r2, c2, r, c) ==> g[r2][c2] != 0)
    {
      assert p.Some?;
      assert !Before(r, c, p.value.0, p.value.1);
      assert !Before(p.value.0, p.value.1, r, c);
    }
  }

  /** Writing a digit into an empty cell leaves one empty cell fewer. */
  lemma PlaceDecreases(g: Grid, r: int, c: int, d: int)
    requires IsBoard(g) && InRange(r, c) && g[r][c] == 0 && d != 0
    ensures IsBoard(Update(g, r, c, d)) && Empties(Update(g, r, c, d)) == Empties(g) - 1
  {
    UpdateRect(g, 9, 9, r, c, d);
    CountInUpdate(g, r, c, d, 0, 0);
  }

  // ---------------------------------------------------------------------------------------
  // The two searches, as functions

  /** `count_solutions`: the number of ways the search fills the board. A board without an
      empty cell counts as one solution, whether or not it is consistent. */
  ghost function CountFn(g: Grid): nat
    requires IsBoard(g)
    decreases Empties(g), 1, 0
  {
    match FirstEmpty(g)
    case None => 1
    case Some(p) => SumDigits(g, p.0, p.1, 1)
  }

  /** The solutions found by trying the digits d..9 in the empty cell (r, c). */
  ghost function SumDigits(g: Grid, r: int, c: int, d: int): nat
    requires IsBoard(g) && InRange(r, c) && g[r][c] == 0 && 1 <= d <= 10
    decreases Empties(g), 0, 10 - d
  {
    if d == 10 then 0 else Term(g, r, c, d) + SumDigits(g, r, c, d + 1)
  }

  /** The solutions found with digit d in the empty cell (r, c). */
  ghost function Term(g: Grid, r: int, c: int, d: int): nat
    requires IsBoard(g) && InRange(r, c) && g[r][c] == 0 && 1 <= d <= 9
    decreases Empties(g), 0, 0
  {
    PlaceDecreases(g, r, c, d);
    if Allowed(g, r, c, d) then CountFn(Update(g, r, c, d)) else 0
  }

  /** `solve_sudoku`: the first filled board the search reaches, if any. */
  ghost function SolveFn(g: Grid): Option<Grid>
    requires IsBoard(g)
    decreases Empties(g), 1, 0
  {
    match FirstEmpty(g)
    case None => Some(g)
    case Some(p) => TryDigits(g, p.0, p.1, 1)
  }

  /** The first solution found by trying the digits d..9 in the empty cell (r, c). */
  ghost function TryDigits(g: Grid, r: int, c: int, d: int): Option<Grid>
    requires IsBoard(g) && InRange(r, c) && g[r][c] == 0 && 1 <= d <= 10
    decreases Empties(g), 0, 10 - d
  {
    if d == 10 then None
    else if Allowed(g, r, c, d) then
      PlaceDecreases(g, r, c, d);
      var s := SolveFn(Update(g, r, c, d));
      if s.Some? then s else TryDigits(g, r, c, d + 1)
    else TryDigits(g, r, c, d + 1)
  }

  // ---------------------------------------------------------------------------------------
  // What the searches compute

  /** A board without an empty cell counts as exactly one solution. */
  lemma CountFull(g: Grid)
    requires IsBoard(g) && forall r, c :: InRange(r, c) ==> g[r][c] != 0
    ensures CountFn(g) == 1 && SolveFn(g) == Some(g)
  {
    FirstEmptySpec(g, 0, 0);
  }

  /** A solution placed digit by digit is still a solution of the board with a digit more. */
  lemma CompletionStep(s: Grid, g: Grid, r: int, c: int)
    requires IsCompletion(s, g) && InRange(r, c) && g[r][c] == 0
    ensures 1 <= s[r][c] <= 9 && Allowed(g, r, c, s[r][c])
    ensures IsCompletion(s, Update(g, r, c, s[r][c]))
  {
    CompletionAllowed(s, g, r, c);
    UpdateRect(g, 9, 9, r, c, s[r][c]);
  }

  /** The sum of ts[k..]. */
  function SumFrom(ts: seq<nat>, k: nat): nat
    requires k <= |ts|
    decreases |ts| - k
  {
    if k == |ts| then 0 else ts[k] + SumFrom(ts, k + 1)
  }

  /** A sum of naturals is at least each of its terms. */
  lemma {:induction false} SumFromAtLeast(ts: seq<nat>, k: nat, e: nat)
    requires k <= e < |ts|
    ensures SumFrom(ts, k) >= ts[e]
    decreases e - k
  {
    if k < e {
      SumFromAtLeast(ts, k + 1, e);
    }
  }

  /** A sum of naturals is at least the sum of two of its terms. */
  lemma {:induction false} SumFromAtLeastTwo(ts: seq<nat>, k: nat, e1: nat, e2: nat)
    requires k <= e1 < e2 < |ts|
    ensures SumFrom(ts, k) >= ts[e1] + ts[e2]
    decreases e1 - k
  {
    if k < e1 {
      SumFromAtLeastTwo(ts, k + 1, e1, e2);
    } else {
      SumFromAtLeast(ts, k + 1, e2);
    }
  }

  /** What each digit 1..9 contributes in the empty cell (r, c), in order. */
  ghost function DigitCounts(g: Grid, r: int, c: int): (ts: seq<nat>)
    requires IsBoard(g) && InRange(r, c) && g[r][c] == 0
    ensures |ts| == 9 && forall e :: 1 <= e <= 9 ==> ts[e - 1] == Term(g, r, c, e)
  {
    seq(9, k requires 0 <= k < 9 => Term(g, r, c, k + 1))
  }

  /** Trying the digits d..9 sums what each of them contributes. */
  lemma {:induction false} SumDigitsIsSum(g: Grid, r: int, c: int, d: int)
    requires IsBoard(g) && InRange(r, c) && g[r][c] == 0 && 1 <= d <= 10
    ensures SumDigits(g, r, c, d) == SumFrom(DigitCounts(g, r, c), d - 1)
    decreases 10 - d
  {
    if d < 10 {
      SumDigitsIsSum(g, r, c, d + 1);
    }
  }

  /** The digits d..9 contribute at least what digit e contributes. */
  lemma SumDigitsAtLeast(g: Grid, r: int, c: int, d: int, e: int)
    requires IsBoard(g) && InRange(r, c) && g[r][c] == 0 && 1 <= d <= e <= 9
    ensures SumDigits(g, r, c, d) >= Term(g, r, c, e)
  {
    SumDigitsIsSum(g, r, c, d);
    SumFromAtLeast(DigitCounts(g, r, c), d - 1, e - 1);
  }

  /** The digits d..9 contribute at least what two different digits e1 < e2 contribute. */
  lemma SumDigitsAtLeastTwo(g: Grid, r: int, c: int, d: int, e1: int, e2: int)
    requires IsBoard(g) && InRange(r, c) && g[r][c] == 0 && 1 <= d <= e1 < e2 <= 9
    ensures SumDigits(g, r, c, d) >= Term(g, r, c, e1) + Term(g, r, c, e2)
  {
    SumDigitsIsSum(g, r, c, d);
    SumFromAtLeastTwo(DigitCounts(g, r, c), d - 1, e1 - 1, e2 - 1);
  }

  /** Every solution of the board is counted: a solvable board counts at least one. */
  lemma {:induction false} CountAtLeastOne(s: Grid, g: Grid)
    requires IsCompletion(s, g)
    ensures CountFn(g) >= 1
    decreases Empties(g)
  {
    match FirstEmpty(g)
    case None =>
    case Some(p) =>
      FirstEmptySpec(g, p.0, p.1);
      var (r, c) := p;
      CompletionStep(s, g, r, c);
      PlaceDecreases(g, r, c, s[r][c]);
      CountAtLeastOne(s, Update(g, r, c, s[r][c]));
      SumDigitsAtLeast(g, r, c, 1, s[r][c]);
  }

  /** A board that counts at most one solution has at most one solution. */
  lemma {:induction false} CountUnique(s1: Grid, s2: Grid, g: Grid)
    requires IsCompletion(s1, g) && IsCompletion(s2, g) && CountFn(g) <= 1
    ensures s1 == s2
    decreases Empties(g)
  {
    match FirstEmpty(g)
    case None =>
      FirstEmptySpec(g, 0, 0);
      Extensionality(s1, s2, 9, 9);
    case Some(p) =>
      FirstEmptySpec(g, p.0, p.1);
      var (r, c) := p;
      CompletionStep(s1, g, r, c);
      CompletionStep(s2, g, r, c);
      var d1, d2 := s1[r][c], s2[r][c];
      PlaceDecreases(g, r, c, d1);
      PlaceDecreases(g, r, c, d2);
      CountAtLeastOne(s1, Update(g, r, c, d1));
      CountAtLeastOne(s2, Update(g, r, c, d2));
      if d1 < d2 {
        SumDigitsAtLeastTwo(g, r, c, 1, d1, d2);
      } else if d2 < d1 {
        SumDigitsAtLeastTwo(g, r, c, 1, d2, d1);
      } else {
        SumDigitsAtLeast(g, r, c, 1, d1);
        CountUnique(s1, s2, Update(g, r, c, d1));
      }
  }

  /** On a consistent board, whatever the solver returns is a solution of the board. */
  lemma {:induction false} SolveSound(g: Grid)
    requires Consistent(g)
    ensures SolveFn(g).Some? ==> IsCompletion(SolveFn(g).value, g)
    decreases Empties(g), 1, 0
  {
    match FirstEmpty(g)
    case None =>
      FirstEmptySpec(g, 0, 0);
    case Some(p) =>
      FirstEmptySpec(g, p.0, p.1);
      TryDigitsSound(g, p.0, p.1, 1);
  }

  lemma {:induction false} TryDigitsSound(g: Grid, r: int, c: int, d: int)
    requires Consistent(g) && InRange(r, c) && g[r][c] == 0 && 1 <= d <= 10
    ensures TryDigits(g, r, c, d).Some? ==> IsCompletion(TryDigits(g, r, c, d).value, g)
    decreases Empties(g), 0, 10 - d
  {
    if d < 10 {
      if Allowed(g, r, c, d) {
        var g1 := Update(g, r, c, d);
        PlaceDecreases(g, r, c, d);
        PlaceAllowed(g, r, c, d);
        SolveSound(g1);
        if SolveFn(g1).Some? {
          var s := SolveFn(g1).value;
          assert forall r2, c2 :: InRange(r2, c2) && g[r2][c2] != 0 ==> g1[r2][c2] == g[r2][c2];
        } else {
          TryDigitsSound(g, r, c, d + 1);
        }
      } else {
        TryDigitsSound(g, r, c, d + 1);
      }
    }
  }

  /** On any board, a board the solver returns has no empty cell and keeps every clue. */
  lemma {:induction false} SolveFills(g: Grid)
    requires IsBoard(g)
    ensures SolveFn(g).Some? ==> && IsBoard(SolveFn(g).value) && Extends(SolveFn(g).value, g)
                                 && forall r, c :: InRange(r, c) ==> SolveFn(g).value[r][c] != 0
    decreases Empties(g), 1, 0
  {
    match FirstEmpty(g)
    case None =>
      FirstEmptySpec(g, 0, 0);
    case Some(p) =>
      TryDigitsFills(g, p.0, p.1, 1);
  }

  lemma {:induction false} TryDigitsFills(g: Grid, r: int, c: int, d: int)
    requires IsBoard(g) && InRange(r, c) && g[r][c] == 0 && 1 <= d <= 10
    ensures var t := TryDigits(g, r, c, d);
            t.Some? ==> && IsBoard(t.value) && Extends(t.value, g) && forall r2, c2 :: InRange(r2, c2) ==> t.value[r2][c2] != 0
    decreases Empties(g), 0, 10 - d
  {
    if d < 10 {
      if Allowed(g, r, c, d) {
        var g1 := Update(g, r, c, d);
        PlaceDecreases(g, r, c, d);
        SolveFills(g1);
        if SolveFn(g1).None? {
          TryDigitsFills(g, r, c, d + 1);
        }
      } else {
        TryDigitsFills(g, r, c, d + 1);
      }
    }
  }

  /** The solver succeeds exactly when the counter counts at least one solution. */
  lemma {:induction false} SolveIffCount(g: Grid)
    requires IsBoard(g)
    ensures SolveFn(g).Some? <==> CountFn(g) >= 1
    decreases Empties(g), 1, 0
  {
    match FirstEmpty(g)
    case None =>
    case Some(p) =>
      FirstEmptySpec(g, p.0, p.1);
      TryIffSum(g, p.0, p.1, 1);
  }

  lemma {:induction false} TryIffSum(g: Grid, r: int, c: int, d: int)
    requires IsBoard(g) && InRange(r, c) && g[r][c] == 0 && 1 <= d <= 10
    ensures TryDigits(g, r, c, d).Some? <==> SumDigits(g, r, c, d) >= 1
    decreases Empties(g), 0, 10 - d
  {
    if d < 10 {
      PlaceDecreases(g, r, c, d);
      if Allowed(g, r, c, d) {
        SolveIffCount(Update(g, r, c, d));
      }
      TryIffSum(g, r, c, d + 1);
    }
  }

  /** On a consistent board the count is positive exactly when the board has a solution,
      and the solver then finds one. */
  lemma Solvable(g: Grid)
    requires Consistent(g)
    ensures CountFn(g) >= 1 <==> exists s :: IsCompletion(s, g)
    ensures CountFn(g) >= 1 ==> SolveFn(g).Some? && IsCompletion(SolveFn(g).value, g)
  {
    SolveIffCount(g);
    SolveSound(g);
    if exists s :: IsCompletion(s, g) {
      var s :| IsCompletion(s, g);
      CountAtLeastOne(s, g);
    }
  }

  /** A consistent board that counts exactly one solution has exactly one solution, the one
      the solver returns. */
  lemma UniqueSolution(g: Grid, s: Grid)
    requires Consistent(g) && CountFn(g) == 1 && IsCompletion(s, g)
    ensures SolveFn(g) == Some(s)
  {
    Solvable(g);
    CountUnique(s, SolveFn(g).value, g);
  }

  // ---------------------------------------------------------------------------------------
  // The solver object

  class SudokuSolver {
    /** The board being solved; the solver works on the caller's array, not a copy. */
    var board: array2?<int>
    /** A copy of the board taken when the search filled it. */
    var solvedBoard: Option<Grid>

    constructor()
      ensures board == null && solvedBoard == None
    {
      board := null;
      solvedBoard := None;
    }

    /** `set_board`: the solver shares the caller's array. */
    method SetBoard(b: array2<int>)
      modifies this
      ensures board == b && solvedBoard == old(solvedBoard)
    {
      board := b;
    }

    /** A 9 x 9 board has been set. */
    ghost predicate Ready()
      reads this
    {
      board != null && board.Length0 == 9 && board.Length1 == 9
    }

    /** `is_valid`: the row, the column and the block of (row, col) are scanned for `digit`. */
    method IsValid(row: int, col: int, digit: int) returns (valid: bool)
      requires Ready() && InRange(row, col)
      ensures valid == Allowed(Snapshot(board), row, col, digit)
    {
      ghost var g := Snapshot(board);
      for j := 0 to 9
        invariant forall j2 :: 0 <= j2 < j ==> board[row, j2] != digit
      {
        if board[row, j] == digit {
          assert g[row][j] == digit && SameUnit(row, col, row, j);
          return false;
        }
      }
      for i := 0 to 9
        invariant forall i2 :: 0 <= i2 < i ==> board[i2, col] != digit
      {
        if board[i, col] == digit {
          assert g[i][col] == digit && SameUnit(row, col, i, col);
          return false;
        }
      }
      var startRow, startCol := 3 * (row / 3), 3 * (col / 3);
      for i := startRow to startRow + 3
        invariant forall i2, j2 :: startRow <= i2 < i && startCol <= j2 < startCol + 3 ==> board[i2, j2] != digit
      {
        for j := startCol to startCol + 3
          invariant forall i2, j2 :: startRow <= i2 < i && startCol <= j2 < startCol + 3 ==> board[i2, j2] != digit
          invariant forall j2 :: startCol <= j2 < j ==> board[i, j2] != digit
        {
          if board[i, j] == digit {
            assert g[i][j] == digit && SameUnit(row, col, i, j);
            return false;
          }
        }
      }
      forall r2, c2 | InRange(r2, c2) && SameUnit(row, col, r2, c2)
        ensures g[r2][c2] != digit
      {
        if r2 != row && c2 != col {
          assert startRow <= r2 < startRow + 3 && startCol <= c2 < startCol + 3;
        }
      }
      return true;
    }

    /** `find_empty_cell`: the first empty cell in row-major order. */
    method FindEmptyCell() returns (cell: Option<(int, int)>)
      requires Ready()
      ensures cell == FirstEmpty(Snapshot(board))
    {
      ghost var g := Snapshot(board);
      for row := 0 to 9
        invariant forall r2, c2 :: InRange(r2, c2) && r2 < row ==> g[r2][c2] != 0
      {
        for col := 0 to 9
          invariant forall r2, c2 :: InRange(r2, c2) && Before(r2, c2, row, col) ==> g[r2][c2] != 0
        {
          if board[row, col] == 0 {
            FirstEmptySpec(g, row, col);
            return Some((row, col));
          }
        }
      }
      FirstEmptySpec(g, 0, 0);
      return None;
    }

    /** `solve_sudoku`: on success the board is left filled with the solution and a copy of
        it is kept; on failure every cell the search wrote is reset. */
    method SolveSudoku() returns (solved: bool)
      requires Ready()
      modifies this, board
      decreases Empties(Snapshot(board))
      ensures board == old(board) && Ready()
      ensures solved <==> SolveFn(old(Snapshot(board))).Some?
      ensures solved ==> SolveFn(old(Snapshot(board))) == Some(Snapshot(board)) && solvedBoard == Some(Snapshot(board))
      ensures !solved ==> Snapshot(board) == old(Snapshot(board)) && solvedBoard == old(solvedBoard)
    {
      var emptyCell := FindEmptyCell();
      if emptyCell.None? {
        solvedBoard := Some(Snapshot(board));
        return true;
      }
      var (row, col) := emptyCell.value;
      ghost var g := Snapshot(board);
      FirstEmptySpec(g, row, col);
      for digit := 1 to 10
        invariant board == old(board) && Ready()
        invariant Snapshot(board) == g && solvedBoard == old(solvedBoard)
        invariant TryDigits(g, row, col, 1) == TryDigits(g, row, col, digit)
      {
        var valid := IsValid(row, col, digit);
        if valid {
          Write(board, row, col, digit);
          PlaceDecreases(g, row, col, digit);
          solved := SolveSudoku();
          if solved {
            return true;
          }
          Write(board, row, col, 0);
          UpdateRestore(g, row, col, digit);
        }
      }
      return false;
    }

    /** `count_solutions`: the number of solutions the search reaches; the board is restored. */
    method CountSolutions() returns (count: nat)
      requires Ready()
      modifies board
      decreases Empties(Snapshot(board))
      ensures count == CountFn(old(Snapshot(board)))
      ensures Snapshot(board) == old(Snapshot(board))
    {
      var emptyCell := FindEmptyCell();
      if emptyCell.None? {
        return 1;
      }
      var (row, col) := emptyCell.value;
      ghost var g := Snapshot(board);
      FirstEmptySpec(g, row, col);
      count := 0;
      for digit := 1 to 10
        invariant Snapshot(board) == g
        invariant count + SumDigits(g, row, col, digit) == SumDigits(g, row, col, 1)
      {
        var valid := IsValid(row, col, digit);
        if valid {
          Write(board, row, col, digit);
          PlaceDecreases(g, row, col, digit);
          var sub := CountSolutions();
          count := count + sub;
          Write(board, row, col, 0);
          UpdateRestore(g, row, col, digit);
        }
      }
    }

    /** `compare_solution`: false before a solution was stored, otherwise whether the stored
        solution equals the given grid. */
    method CompareSolution(solution: Grid) returns (equal: bool)
      ensures equal <==> solvedBoard.Some? && solvedBoard.value == solution
    {
      match solvedBoard
      case None => equal := false;
      case Some(s) => equal := s == solution;
    }

    /** `validate_board`: the error raised unless a 9 x 9 board has been set. */
    method ValidateBoard() returns (error: Option<string>)
      ensures error.None? <==> Ready()
      ensures error.Some? ==> error.value == "Board must be a 9x9 grid."
    {
      if board == null || board.Length0 != 9 || board.Length1 != 9 {
        return Some("Board must be a 9x9 grid.");
      }
      return None;
    }
  }
}
