/** The Sudoku creator: it shuffles the solution grid, opens a start mask of clues, derives
    the puzzle from the solution and the mask, and adds one clue at a time until the solver
    counts at most one solution. */
module SudokuCreate {
  import opened Grids
  import opened Options
  import opened Oracle
  import opened SudokuRules
  import opened SudokuShuffle
  import opened SudokuSolve
  import opened SudokuMask

  /** `dst[m == 1] = src[m == 1]`: the cells marked in `m` are copied from `src`. */
  ghost function Overlay(dst: Grid, src: Grid, m: Grid): (r: Grid)
    requires IsBoard(dst) && IsBoard(src) && IsBoard(m)
    ensures IsBoard(r)
    ensures forall i, j :: InRange(i, j) ==> r[i][j] == if m[i][j] == 1 then src[i][j] else dst[i][j]
  {
    seq(9, (i: int) requires 0 <= i < 9 => seq(9, (j: int) requires 0 <= j < 9 =>
      if m[i][j] == 1 then src[i][j] else dst[i][j]))
  }

  /** The puzzle of solution `s` under mask `m`: the solution's digit on every clue, 0 on
      every other cell. */
  ghost function Masked(s: Grid, m: Grid): Grid
    requires IsBoard(s) && IsBoard(m)
  {
    Overlay(Zeros(9, 9), s, m)
  }

  /** Every clue of m1 is a clue of m2. */
  ghost predicate Keeps(m1: Grid, m2: Grid)
    requires IsBoard(m1) && IsBoard(m2)
  {
    forall i, j :: InRange(i, j) && m1[i][j] == 1 ==> m2[i][j] == 1
  }

  /** Adding an entry keeps every clue the mask had, and so every clue of an earlier mask. */
  lemma AddEntryKeeps(m0: Grid, m: Grid, pick: nat)
    requires IsBoard(m0) && IsBoard(m) && IsBinary(m) && Open(m) > 0 && Keeps(m0, m)
    ensures Keeps(m, AddEntry(m, pick)) && Keeps(m0, AddEntry(m, pick))
  {
    ZeroCellsSpec(m);
    var p := ZeroCells(m)[Choice(|ZeroCells(m)|, pick)];
    assert p in ZeroCells(m);
  }

  /** Copying the solution over the puzzle of a smaller mask gives the puzzle of the larger
      mask: the creator's recopy after each new clue keeps the puzzle equal to `Masked`. */
  lemma OverlayMasked(s: Grid, m1: Grid, m2: Grid)
    requires IsBoard(s) && IsBoard(m1) && IsBoard(m2) && IsBinary(m1) && Keeps(m1, m2)
    ensures Overlay(Masked(s, m1), s, m2) == Masked(s, m2)
  {
    Extensionality(Overlay(Masked(s, m1), s, m2), Masked(s, m2), 9, 9);
  }

  /** The puzzle of a solved grid is consistent, the grid is one of its solutions, and its
      clues are exactly the masked cells. */
  lemma MaskedPuzzle(s: Grid, m: Grid)
    requires IsSolved(s) && IsBoard(m) && IsBinary(m)
    ensures Consistent(Masked(s, m)) && IsCompletion(s, Masked(s, m))
    ensures forall i, j :: InRange(i, j) ==> (Masked(s, m)[i][j] != 0 <==> m[i][j] == 1)
  {
    var p := Masked(s, m);
    forall r1, c1, r2, c2 | InRange(r1, c1) && InRange(r2, c2) && Peers(r1, c1, r2, c2) && p[r1][c1] != 0
      ensures p[r1][c1] != p[r2][c2]
    {
      assert s[r1][c1] != s[r2][c2];
    }
  }

  /** A mask without an open cell gives the full solution, which counts exactly one
      solution; so a count above one means some cell is still open. */
  lemma CountAboveOneHasOpen(s: Grid, m: Grid)
    requires IsSolved(s) && IsBoard(m) && IsBinary(m)
    ensures CountFn(Masked(s, m)) > 1 ==> Open(m) > 0
    ensures Open(m) == 0 ==> Masked(s, m) == s && CountFn(Masked(s, m)) == 1
  {
    if Open(m) == 0 {
      CountInZero(m, 0, 0);
      Extensionality(Masked(s, m), s, 9, 9);
      CountFull(s);
    }
  }

  /** When the creator stops, the puzzle has exactly one solution: the shuffled grid. */
  lemma ExitUnique(s: Grid, m: Grid)
    requires IsSolved(s) && IsBoard(m) && IsBinary(m) && CountFn(Masked(s, m)) <= 1
    ensures CountFn(Masked(s, m)) == 1
    ensures forall t :: IsCompletion(t, Masked(s, m)) ==> t == s
    ensures SolveFn(Masked(s, m)) == Some(s)
  {
    MaskedPuzzle(s, m);
    CountAtLeastOne(s, Masked(s, m));
    forall t | IsCompletion(t, Masked(s, m))
      ensures t == s
    {
      CountUnique(t, s, Masked(s, m));
    }
    UniqueSolution(Masked(s, m), s);
  }

  /** The creator's copy step, `sudoku_board[mask == 1] = solution_board[mask == 1]`. */
  method CopyMasked(dst: array2<int>, src: array2<int>, mask: array2<int>)
    requires dst.Length0 == 9 && dst.Length1 == 9 && src.Length0 == 9 && src.Length1 == 9
    requires mask.Length0 == 9 && mask.Length1 == 9 && dst != src && dst != mask
    modifies dst
    ensures Snapshot(dst) == Overlay(old(Snapshot(dst)), Snapshot(src), Snapshot(mask))
  {
    ghost var g := Snapshot(dst);
    for i := 0 to 9
      invariant forall i2, j2 :: 0 <= i2 < 9 && 0 <= j2 < 9 ==>
                  dst[i2, j2] == if i2 < i && mask[i2, j2] == 1 then src[i2, j2] else g[i2][j2]
    {
      for j := 0 to 9
        invariant forall i2, j2 :: 0 <= i2 < 9 && 0 <= j2 < 9 ==>
                    dst[i2, j2] == if (i2 < i || (i2 == i && j2 < j)) && mask[i2, j2] == 1 then src[i2, j2] else g[i2][j2]
      {
        if mask[i, j] == 1 {
          dst[i, j] := src[i, j];
        }
      }
    }
    Extensionality(Snapshot(dst), Overlay(g, Snapshot(src), Snapshot(mask)), 9, 9);
  }

  class SudokuCreator {
    const masker: MaskCreator
    const shuffler: BoardShuffler
    const solver: SudokuSolver
    const startEntries: nat

    /** The mask is binary, the shuffler holds a valid grid, and the two arrays are distinct. */
    ghost predicate Valid()
      reads this, masker, masker.mask, shuffler, shuffler.board
    {
      && masker.Valid() && shuffler.Valid() && masker.mask != shuffler.board
      && IsSolved(Snapshot(shuffler.board))
    }

    constructor (solver: SudokuSolver, startEntries: nat)
      ensures Valid() && this.solver == solver && this.startEntries == startEntries
      ensures fresh(masker) && fresh(masker.mask) && fresh(shuffler) && fresh(shuffler.board)
      ensures Open(Snapshot(masker.mask)) == 81
    {
      masker := new MaskCreator();
      shuffler := new BoardShuffler();
      this.solver := solver;
      this.startEntries := startEntries;
      new;
      CanonicalSolved();
      CountInAll(Snapshot(masker.mask), 9, 9, 0, 0);
    }

    /** One round of the creator's loop: a clue is added to the mask, and the puzzle is
        recopied from the solution under the new mask. */
    method AddClue(sudokuBoard: array2<int>, ghost s: Grid, pick: nat, ghost start: Grid)
      requires masker.Valid() && shuffler.Valid() && Snapshot(shuffler.board) == s
      requires IsBoard(start) && Keeps(start, Snapshot(masker.mask))
      requires sudokuBoard.Length0 == 9 && sudokuBoard.Length1 == 9
      requires sudokuBoard != masker.mask && sudokuBoard != shuffler.board && masker.mask != shuffler.board
      requires Open(Snapshot(masker.mask)) > 0
      requires Snapshot(sudokuBoard) == Masked(s, Snapshot(masker.mask))
      modifies masker.mask, sudokuBoard
      ensures masker.Valid() && Snapshot(masker.mask) == AddEntry(old(Snapshot(masker.mask)), pick)
      ensures Snapshot(sudokuBoard) == Masked(s, Snapshot(masker.mask))
      ensures Clues(Snapshot(masker.mask)) == Clues(old(Snapshot(masker.mask))) + 1
      ensures Open(Snapshot(masker.mask)) == Open(old(Snapshot(masker.mask))) - 1
      ensures Keeps(start, Snapshot(masker.mask))
    {
      ghost var m := Snapshot(masker.mask);
      masker.AddMaskEntry(pick);
      AddEntrySpec(m, pick);
      AddEntryKeeps(start, m, pick);
      CopyMasked(sudokuBoard, shuffler.board, masker.mask);
      OverlayMasked(s, m, Snapshot(masker.mask));
    }

    /** The solver is pointed at the puzzle and counts its solutions; the puzzle, the mask
        and the solution are as they were. */
    method CountPuzzle(sudokuBoard: array2<int>) returns (count: nat)
      requires masker.Valid() && shuffler.Valid()
      requires sudokuBoard.Length0 == 9 && sudokuBoard.Length1 == 9
      requires sudokuBoard != masker.mask && sudokuBoard != shuffler.board
      modifies solver, sudokuBoard
      ensures masker.Valid() && shuffler.Valid() && solver.board == sudokuBoard
      ensures count == CountFn(Snapshot(sudokuBoard))
      ensures Snapshot(sudokuBoard) == old(Snapshot(sudokuBoard))
      ensures Snapshot(masker.mask) == old(Snapshot(masker.mask))
      ensures Snapshot(shuffler.board) == old(Snapshot(shuffler.board))
    {
      solver.SetBoard(sudokuBoard);
      count := solver.CountSolutions();
    }

    /** The creator's `while not unique` loop: the solver counts the puzzle's solutions, and
        while it counts more than one a clue is added. */
    method AddCluesUntilUnique(sudokuBoard: array2<int>, ghost s: Grid, picks: nat -> nat) returns (ghost rounds: nat)
      requires masker.Valid() && shuffler.Valid() && Snapshot(shuffler.board) == s && IsSolved(s)
      requires sudokuBoard.Length0 == 9 && sudokuBoard.Length1 == 9
      requires sudokuBoard != masker.mask && sudokuBoard != shuffler.board && masker.mask != shuffler.board
      requires Snapshot(sudokuBoard) == Masked(s, Snapshot(masker.mask))
      modifies masker.mask, sudokuBoard, solver
      ensures masker.Valid() && Snapshot(shuffler.board) == s && solver.board == sudokuBoard
      ensures Snapshot(sudokuBoard) == Masked(s, Snapshot(masker.mask))
      ensures CountFn(Snapshot(sudokuBoard)) <= 1
      ensures Keeps(old(Snapshot(masker.mask)), Snapshot(masker.mask))
      ensures Clues(Snapshot(masker.mask)) == Clues(old(Snapshot(masker.mask))) + rounds
      ensures rounds <= Open(old(Snapshot(masker.mask)))
    {
      var solutionBoard := shuffler.board;
      ghost var start := Snapshot(masker.mask);
      var mask := masker.mask;
      var round := 0;
      var unique := false;
      while !unique
        invariant sudokuBoard != mask && sudokuBoard != solutionBoard
        invariant masker.Valid() && shuffler.Valid() && mask != solutionBoard
        invariant Snapshot(solutionBoard) == s
        invariant Snapshot(sudokuBoard) == Masked(s, Snapshot(mask))
        invariant Keeps(start, Snapshot(mask))
        invariant Clues(Snapshot(mask)) == Clues(start) + round
        invariant Open(Snapshot(mask)) + round == Open(start)
        invariant unique ==> CountFn(Snapshot(sudokuBoard)) <= 1 && solver.board == sudokuBoard
        decreases Open(Snapshot(mask)), !unique
      {
        var solutionCount := CountPuzzle(sudokuBoard);
        if solutionCount > 1 {
          ghost var m := Snapshot(mask);
          CountAboveOneHasOpen(s, m);
          AddClue(sudokuBoard, s, picks(round), start);
          round := round + 1;
        } else {
          unique := true;
        }
      }
      rounds := round;
    }

    /** `generate`: the returned puzzle is the shuffled grid under the final mask, it has
        exactly one solution, and that solution is the shuffled grid. The mask keeps every
        clue of the start mask, and each extra round of the loop adds one clue. */
    method Generate(shuffleDraws: ShuffleDraws, startPicks: seq<nat>, picks: nat -> nat)
      returns (sudokuBoard: array2<int>, ghost rounds: nat)
      requires Valid() && WellSized(shuffleDraws)
      requires |startPicks| == startEntries && Open(Snapshot(masker.mask)) >= startEntries
      modifies masker.mask, shuffler.board, solver
      ensures Valid() && fresh(sudokuBoard) && solver.board == sudokuBoard
      ensures Snapshot(shuffler.board) == ShuffleFn(old(Snapshot(shuffler.board)), shuffleDraws)
      ensures Snapshot(sudokuBoard) == Masked(Snapshot(shuffler.board), Snapshot(masker.mask))
      ensures CountFn(Snapshot(sudokuBoard)) == 1
      ensures forall t :: IsCompletion(t, Snapshot(sudokuBoard)) ==> t == Snapshot(shuffler.board)
      ensures Keeps(AddEntries(old(Snapshot(masker.mask)), startPicks), Snapshot(masker.mask))
      ensures Clues(Snapshot(masker.mask)) == Clues(AddEntries(old(Snapshot(masker.mask)), startPicks)) + rounds
      ensures rounds <= Open(AddEntries(old(Snapshot(masker.mask)), startPicks))
    {
      shuffler.Shuffle(shuffleDraws);
      masker.GenerateStartMask(startEntries, startPicks);

      var solutionBoard := shuffler.board;
      ghost var s := Snapshot(solutionBoard);
      ghost var start := Snapshot(masker.mask);

      sudokuBoard := new int[9, 9]((i, j) => 0);
      Extensionality(Snapshot(sudokuBoard), Zeros(9, 9), 9, 9);
      CopyMasked(sudokuBoard, solutionBoard, masker.mask);

      rounds := AddCluesUntilUnique(sudokuBoard, s, picks);
      ExitUnique(s, Snapshot(masker.mask));
    }
  }
}
