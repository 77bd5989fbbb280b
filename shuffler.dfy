/** The board shuffler (Sudoku/shuffler.py): starting from a fixed valid grid, it relabels
    digits, swaps rows and columns inside a band or stack, and swaps bands, all in place. */
module SudokuShuffle {
  import opened Grids
  import opened Oracle
  import opened SudokuRules

  /** Python's floor division `a // b`. */
  function FloorDiv(a: int, b: int): int
    requires b != 0
  {
    if b < 0 && a % b != 0 then a / b - 1 else a / b
  }

  /** `cycle_index(idx, max_cycle)`: Python's `%`, whose result takes the sign of the divisor
      (Dafny's `%` never returns a negative value). A zero divisor raises in Python. The
      result completes Python's division identity `idx == max_cycle * (idx // max_cycle) + r`. */
  function CycleIndex(idx: int, maxCycle: int): (r: int)
    requires maxCycle != 0
    ensures maxCycle > 0 ==> 0 <= r < maxCycle
    ensures maxCycle < 0 ==> maxCycle < r <= 0
    ensures idx == maxCycle * FloorDiv(idx, maxCycle) + r
  {
    var m := idx % maxCycle;
    if maxCycle < 0 && m != 0 then m + maxCycle else m
  }

  /** With the default `max_cycle = 9`, indices already on the board are kept, and the
      index wraps around every 9 steps. */
  lemma CycleIndexDefault(idx: int)
    ensures 0 <= idx < 9 ==> CycleIndex(idx, 9) == idx
    ensures CycleIndex(idx + 9, 9) == CycleIndex(idx, 9)
  {
  }

  /** The draws of one `shuffle`: one `random.randint` per loop iteration of each driver. */
  datatype ShuffleDraws = ShuffleDraws(numbers: seq<nat>, rows: seq<nat>, cols: seq<nat>,
                                       rowBlocks: seq<nat>, colBlocks: seq<nat>)

  predicate WellSized(d: ShuffleDraws) {
    |d.numbers| == 9 && |d.rows| == 9 && |d.cols| == 9 && |d.rowBlocks| == 3 && |d.colBlocks| == 3
  }

  /** `shuffle_numbers` after its first |draws| iterations: iteration ii swaps digit ii with a
      drawn digit in 1..9. */
  function ShuffleNumbersFn(g: Grid, draws: seq<nat>): (r: Grid)
    requires |draws| <= 9
    ensures |r| == |g| && forall i :: 0 <= i < |g| ==> |r[i]| == |g[i]|
  {
    if |draws| == 0 then g
    else SwapDigits(ShuffleNumbersFn(g, draws[..|draws| - 1]), |draws|, RandInt(1, 9, draws[|draws| - 1]))
  }

  /** The row (or column) that `shuffle_rows` (or `shuffle_cols`) swaps with ii: one of the
      three of ii's band (or stack). */
  function Partner(ii: int, x: nat): (p: int)
    requires 0 <= ii < 9
    ensures 0 <= p < 9 && p / 3 == ii / 3
  {
    (ii / 3) * 3 + RandInt(0, 2, x)
  }

  /** `shuffle_rows` after its first |draws| iterations. */
  function ShuffleRowsFn(g: Grid, draws: seq<nat>): (r: Grid)
    requires IsBoard(g) && |draws| <= 9
    ensures IsBoard(r)
  {
    if |draws| == 0 then g
    else
      var ii := |draws| - 1;
      SwapRows(ShuffleRowsFn(g, draws[..ii]), ii, Partner(ii, draws[ii]))
  }

  /** `shuffle_cols` after its first |draws| iterations. */
  function ShuffleColsFn(g: Grid, draws: seq<nat>): (r: Grid)
    requires IsBoard(g) && |draws| <= 9
    ensures IsBoard(r)
  {
    if |draws| == 0 then g
    else
      var ii := |draws| - 1;
      SwapCols(ShuffleColsFn(g, draws[..ii]), 9, ii, Partner(ii, draws[ii]))
  }

  /** One more iteration of `shuffle_rows` swaps row ii with its drawn partner. */
  lemma ShuffleRowsFnStep(g: Grid, draws: seq<nat>, ii: nat)
    requires IsBoard(g) && ii < |draws| <= 9
    ensures ShuffleRowsFn(g, draws[..ii + 1]) == SwapRows(ShuffleRowsFn(g, draws[..ii]), ii, Partner(ii, draws[ii]))
  {
    assert draws[..ii + 1][..ii] == draws[..ii];
  }

  /** One more iteration of `shuffle_cols` swaps column ii with its drawn partner. */
  lemma ShuffleColsFnStep(g: Grid, draws: seq<nat>, ii: nat)
    requires IsBoard(g) && ii < |draws| <= 9
    ensures ShuffleColsFn(g, draws[..ii + 1]) == SwapCols(ShuffleColsFn(g, draws[..ii]), 9, ii, Partner(ii, draws[ii]))
  {
    assert draws[..ii + 1][..ii] == draws[..ii];
  }

  /** `shuffle_row_block` (and, as written, `shuffle_col_block`) after its first |draws|
      iterations: iteration ii swaps band ii with a drawn band. */
  function ShuffleBandsFn(g: Grid, draws: seq<nat>): (r: Grid)
    requires IsBoard(g) && |draws| <= 3
    ensures IsBoard(r)
  {
    if |draws| == 0 then g
    else
      var ii := |draws| - 1;
      SwapBands(ShuffleBandsFn(g, draws[..ii]), ii, RandInt(0, 2, draws[ii]))
  }

  /** `shuffle`: numbers, rows, columns, row blocks, then column blocks. */
  function ShuffleFn(g: Grid, d: ShuffleDraws): (r: Grid)
    requires IsBoard(g) && WellSized(d)
    ensures IsBoard(r)
  {
    var n := ShuffleNumbersFn(g, d.numbers);
    var cols := ShuffleColsFn(ShuffleRowsFn(n, d.rows), d.cols);
    ShuffleBandsFn(ShuffleBandsFn(cols, d.rowBlocks), d.colBlocks)
  }

  lemma {:induction false} ShuffleNumbersSolved(g: Grid, draws: seq<nat>)
    requires IsSolved(g) && |draws| <= 9
    ensures IsSolved(ShuffleNumbersFn(g, draws))
  {
    if |draws| > 0 {
      ShuffleNumbersSolved(g, draws[..|draws| - 1]);
      SwapDigitsSolved(ShuffleNumbersFn(g, draws[..|draws| - 1]), |draws|, RandInt(1, 9, draws[|draws| - 1]));
    }
  }

  /** Every row swap of `shuffle_rows` stays inside a band, so the grid is solved after each one. */
  lemma {:induction false} ShuffleRowsSolved(g: Grid, draws: seq<nat>)
    requires IsSolved(g) && |draws| <= 9
    ensures IsSolved(ShuffleRowsFn(g, draws))
  {
    if |draws| > 0 {
      var ii := |draws| - 1;
      ShuffleRowsSolved(g, draws[..ii]);
      SwapRowsSolved(ShuffleRowsFn(g, draws[..ii]), ii, Partner(ii, draws[ii]));
    }
  }

  lemma {:induction false} ShuffleColsSolved(g: Grid, draws: seq<nat>)
    requires IsSolved(g) && |draws| <= 9
    ensures IsSolved(ShuffleColsFn(g, draws))
  {
    if |draws| > 0 {
      var ii := |draws| - 1;
      ShuffleColsSolved(g, draws[..ii]);
      SwapColsSolved(ShuffleColsFn(g, draws[..ii]), ii, Partner(ii, draws[ii]));
    }
  }

  lemma {:induction false} ShuffleBandsSolved(g: Grid, draws: seq<nat>)
    requires IsSolved(g) && |draws| <= 3
    ensures IsSolved(ShuffleBandsFn(g, draws))
  {
    if |draws| > 0 {
      var ii := |draws| - 1;
      ShuffleBandsSolved(g, draws[..ii]);
      SwapBandsSolved(ShuffleBandsFn(g, draws[..ii]), ii, RandInt(0, 2, draws[ii]));
    }
  }

  /** `shuffle` turns a valid grid into a valid grid, whatever the draws. */
  lemma ShuffleSolved(g: Grid, d: ShuffleDraws)
    requires IsSolved(g) && WellSized(d)
    ensures IsSolved(ShuffleFn(g, d))
  {
    var n := ShuffleNumbersFn(g, d.numbers);
    ShuffleNumbersSolved(g, d.numbers);
    ShuffleRowsSolved(n, d.rows);
    var rows := ShuffleRowsFn(n, d.rows);
    ShuffleColsSolved(rows, d.cols);
    var cols := ShuffleColsFn(rows, d.cols);
    ShuffleBandsSolved(cols, d.rowBlocks);
    ShuffleBandsSolved(ShuffleBandsFn(cols, d.rowBlocks), d.colBlocks);
  }

  class BoardShuffler {
    const board: array2<int>

    predicate Valid() {
      board.Length0 == 9 && board.Length1 == 9
    }

    /** The shuffler starts from the fixed valid grid. */
    constructor ()
      ensures Valid() && fresh(board)
      ensures Snapshot(board) == Canonical()
    {
      board := new int[9, 9]((i, j) requires 0 <= i < 9 && 0 <= j < 9 => Canonical()[i][j]);
      new;
      Extensionality(Snapshot(board), Canonical(), 9, 9);
    }

    method Shuffle(d: ShuffleDraws)
      requires Valid() && WellSized(d)
      modifies board
      ensures Snapshot(board) == ShuffleFn(old(Snapshot(board)), d)
      ensures IsSolved(old(Snapshot(board))) ==> IsSolved(Snapshot(board))
    {
      ghost var g := Snapshot(board);
      ShuffleNumbers(d.numbers);
      ShuffleRows(d.rows);
      ShuffleCols(d.cols);
      ShuffleRowBlock(d.rowBlocks);
      ShuffleColBlock(d.colBlocks);
      if IsSolved(g) {
        ShuffleSolved(g, d);
      }
    }

    method ShuffleNumbers(draws: seq<nat>)
      requires Valid() && |draws| == 9
      modifies board
      ensures Snapshot(board) == ShuffleNumbersFn(old(Snapshot(board)), draws)
    {
      ghost var g := Snapshot(board);
      for ii := 1 to 10
        invariant Snapshot(board) == ShuffleNumbersFn(g, draws[..ii - 1])
      {
        var randomNumber := RandInt(1, 9, draws[ii - 1]);
        SwapNumbers(ii, randomNumber);
        assert draws[..ii][..ii - 1] == draws[..ii - 1];
      }
      assert draws[..9] == draws;
    }

    /** `swap_numbers(n1, n2)`: a column-by-column walk that exchanges the two digits. */
    method SwapNumbers(n1: int, n2: int)
      requires Valid()
      modifies board
      ensures Snapshot(board) == SwapDigits(old(Snapshot(board)), n1, n2)
    {
      ghost var g := Snapshot(board);
      for yy := 0 to 9
        invariant forall i, j :: 0 <= i < 9 && 0 <= j < 9 ==>
          board[i, j] == if j < yy then SwapDigit(g[i][j], n1, n2) else g[i][j]
      {
        for xx := 0 to 9
          invariant forall i, j :: 0 <= i < 9 && 0 <= j < 9 ==>
            board[i, j] == if j < yy || (j == yy && i < xx) then SwapDigit(g[i][j], n1, n2) else g[i][j]
        {
          if board[xx, yy] == n1 {
            board[xx, yy] := n2;
          } else if board[xx, yy] == n2 {
            board[xx, yy] := n1;
          }
        }
      }
      Extensionality(Snapshot(board), SwapDigits(g, n1, n2), 9, 9);
    }

    method ShuffleRows(draws: seq<nat>)
      requires Valid() && |draws| == 9
      modifies board
      ensures Snapshot(board) == ShuffleRowsFn(old(Snapshot(board)), draws)
    {
      ghost var g := Snapshot(board);
      for ii := 0 to 9
        invariant Snapshot(board) == ShuffleRowsFn(g, draws[..ii])
      {
        var randomNumber := RandInt(0, 2, draws[ii]);
        var blockNumber := ii / 3;
        SwapRows(ii, blockNumber * 3 + randomNumber);
        ShuffleRowsFnStep(g, draws, ii);
      }
      assert draws[..9] == draws;
    }

    /** `swap_rows(row1, row2)`: copies row1, overwrites it with row2, then writes the copy into row2. */
    method SwapRows(row1: int, row2: int)
      requires Valid() && 0 <= row1 < 9 && 0 <= row2 < 9
      modifies board
      ensures Snapshot(board) == SudokuRules.SwapRows(old(Snapshot(board)), row1, row2)
    {
      ghost var g := Snapshot(board);
      var row := Snapshot(board)[row1];
      forall j | 0 <= j < 9 {
        board[row1, j] := board[row2, j];
      }
      forall j | 0 <= j < 9 {
        board[row2, j] := row[j];
      }
      Extensionality(Snapshot(board), SudokuRules.SwapRows(g, row1, row2), 9, 9);
    }

    method ShuffleCols(draws: seq<nat>)
      requires Valid() && |draws| == 9
      modifies board
      ensures Snapshot(board) == ShuffleColsFn(old(Snapshot(board)), draws)
    {
      ghost var g := Snapshot(board);
      for ii := 0 to 9
        invariant Snapshot(board) == ShuffleColsFn(g, draws[..ii])
      {
        var randomNumber := RandInt(0, 2, draws[ii]);
        var blockNumber := ii / 3;
        SwapCols(ii, blockNumber * 3 + randomNumber);
        ShuffleColsFnStep(g, draws, ii);
      }
      assert draws[..9] == draws;
    }

    /** `swap_cols(col1, col2)`: the same three steps on columns. */
    method SwapCols(col1: int, col2: int)
      requires Valid() && 0 <= col1 < 9 && 0 <= col2 < 9
      modifies board
      ensures Snapshot(board) == SudokuRules.SwapCols(old(Snapshot(board)), 9, col1, col2)
    {
      ghost var g := Snapshot(board);
      var column := seq(9, (i: int) requires 0 <= i < 9 reads board => board[i, col1]);
      forall i | 0 <= i < 9 {
        board[i, col1] := board[i, col2];
      }
      forall i | 0 <= i < 9 {
        board[i, col2] := column[i];
      }
      Extensionality(Snapshot(board), SudokuRules.SwapCols(g, 9, col1, col2), 9, 9);
    }

    method ShuffleRowBlock(draws: seq<nat>)
      requires Valid() && |draws| == 3
      modifies board
      ensures Snapshot(board) == ShuffleBandsFn(old(Snapshot(board)), draws)
    {
      ghost var g := Snapshot(board);
      for ii := 0 to 3
        invariant Snapshot(board) == ShuffleBandsFn(g, draws[..ii])
      {
        var randomNumber := RandInt(0, 2, draws[ii]);
        SwapRowBlocks(ii, randomNumber);
        assert draws[..ii + 1][..ii] == draws[..ii];
      }
      assert draws[..3] == draws;
    }

    method SwapRowBlocks(rowBlock1: int, rowBlock2: int)
      requires Valid() && 0 <= rowBlock1 < 3 && 0 <= rowBlock2 < 3
      modifies board
      ensures Snapshot(board) == SwapBands(old(Snapshot(board)), rowBlock1, rowBlock2)
    {
      ghost var g := Snapshot(board);
      for ii := 0 to 3
        invariant Snapshot(board) == SwapBandRows(g, rowBlock1, rowBlock2, ii)
      {
        SwapRows(rowBlock1 * 3 + ii, rowBlock2 * 3 + ii);
      }
    }

    method ShuffleColBlock(draws: seq<nat>)
      requires Valid() && |draws| == 3
      modifies board
      ensures Snapshot(board) == ShuffleBandsFn(old(Snapshot(board)), draws)
    {
      ghost var g := Snapshot(board);
      for ii := 0 to 3
        invariant Snapshot(board) == ShuffleBandsFn(g, draws[..ii])
      {
        var randomNumber := RandInt(0, 2, draws[ii]);
        SwapColBlocks(ii, randomNumber);
        assert draws[..ii + 1][..ii] == draws[..ii];
      }
      assert draws[..3] == draws;
    }

    /** `swap_col_blocks`, as written: it calls `swap_rows`, so it exchanges the row bands
        `colBlock1` and `colBlock2`, exactly like `swap_row_blocks`. */
    method SwapColBlocks(colBlock1: int, colBlock2: int)
      requires Valid() && 0 <= colBlock1 < 3 && 0 <= colBlock2 < 3
      modifies board
      ensures Snapshot(board) == SwapBands(old(Snapshot(board)), colBlock1, colBlock2)
    {
      ghost var g := Snapshot(board);
      for ii := 0 to 3
        invariant Snapshot(board) == SwapBandRows(g, colBlock1, colBlock2, ii)
      {
        SwapRows(colBlock1 * 3 + ii, colBlock2 * 3 + ii);
      }
    }
  }
}
