# GamesBox game engines in Dafny

This project models the game logic of three small games from GamesBox and proves
properties of it:

- **Minesweeper** (`Mines`, minefield.dfy). A `Minefield` object keeps the whole game
  in one integer grid:
  - `0..8` is a hidden hint cell and `9` a hidden mine.
  - A negated value is a flag.
  - `100 + v` is a revealed cell, and `99` the detonated mine.

  The model covers mine placement, the hint convolution, flagging, sweeping with its
  recursive flood fill, and the check for a finished game.
- **Sudoku** (`SudokuRules`, `SudokuSolve`, `SudokuShuffle`, `SudokuMask`, `SudokuCreate`).
  - A `BoardShuffler` relabels digits and swaps rows, columns and bands of a fixed valid grid.
  - A `MaskCreator` grows a 0/1 mask of clues.
  - A backtracking `SudokuSolver` validates, solves and counts solutions.
  - A `SudokuCreator` keeps adding clues until the solver counts at most one solution.
- **2048** (`GameGrid2048`, `Agent2048`).
  - A `GameGrid` stacks and merges tiles in four directions, spawns tiles, and detects
    the end of the game.
  - A search `Agent` clones `State`s, explores every sequence of successful moves up to
    a depth, scores the leaves with its heuristic, and picks the best first move.

The source mutates numpy arrays in place, so each engine is a class over `array2<int>`.
Each method is specified against pure functions on the value type
`Grid = seq<seq<int>>`, through `Grids.Snapshot`. The pure functions are the reference
definitions: `FloodFill`, `HintField`, `CountFn`, `SolveFn`, `ShuffleFn`, `Masked`,
`StackFn`, `SpawnResult` and `Paths`. The game properties are proved about them as
lemmas.

Randomness is modelled as caller-supplied draws (module `Oracle`). A draw is any natural
number, reduced into the range the source draws from. Every outcome of the source's
random choices is therefore covered, but their distribution is not modelled. Python
exceptions that numpy or the interpreter would raise become preconditions:
- a choice from an empty range;
- a bad index;
- the missing parent of a root `State`;
- the `TypeError` of `check_largest_in_corner` on a field without a positive tile.

Where the source's documentation and its code disagree, the model follows the code:
- `check_finish` only looks for cells in [0, 8], so flagged hint cells (-1..-8) do not
  block a win (`Mines.Finished`).
- Mines and 2048 tiles are drawn with replacement, so fewer mines or tiles may be placed
  than were asked for (`Mines.SetupFieldMineCount`, `GameGrid2048.SpawnFn`).
- `spawn` compares the size of the `argwhere` array, which is twice the number of empty
  cells, with the number of tiles asked for (`GameGrid2048.SpawnSucceeds`).
- `lookup` records a state only at depth 0: a line of play that runs out of successful
  moves early is dropped, not recorded (`Agent2048.Paths`).
- The agent's score is the heuristic blend in the code (`update_score`), not a pure
  cumulative score (`Agent2048.BaseScore`).
- `swap_col_blocks` calls `swap_rows`, so it exchanges row bands
  (`SudokuShuffle.BoardShuffler.SwapColBlocks`).
- `stack` adds merge gains to the score even when it works on a temporary field, so
  `check_game_over` raises the score whenever some direction changes the field
  (`GameGrid2048.GameGrid.CheckGameOver`).

## Model

| member | source | states |
|---|---|---|
| Oracle.Choice | ZwanzigAchtundVierzig/game_grid.py:38 | `np.random.choice(range(k))` yields an index in [0, k), and every index is reachable |
| Oracle.RandInt | Sudoku/shuffler.py:34 | `random.randint(a, b)` yields a value in [a, b], and every value is reachable |
| Grids.Zeros | Minesweeper/minefield.py:19 | `np.zeros`: an h x w grid whose every cell is 0 |
| Grids.Transpose | ZwanzigAchtundVierzig/game_grid.py:80 | `.T` swaps rows and columns, cell by cell |
| Grids.TransposeTwice | ZwanzigAchtundVierzig/game_grid.py:79-80 | transposing back restores the field, which is why UP and DOWN can work on the transpose |
| Grids.ZeroCellsSpec | Minesweeper/minefield.py:26 | the list of `argwhere(field == 0)` has one entry per empty cell and holds exactly the empty cells |
| Grids.Argwhere | Sudoku/masker.py:14 | the nested scan computes that list of empty cells, in row-major order |
| Mines.AmountMines | Minesweeper/minefield.py:13 | the mine count is at least 1; above 1 it is h x w x percent divided by 100, rounded down |
| Mines.Marks | Minesweeper/minefield.py:29-32 | the marking loop keeps the shape of the field; what it writes is stated by `Mines.MarksBinary` |
| Mines.Spawned | Minesweeper/minefield.py:26-32 | `spawn_mines` draws among the zero cells and keeps the shape of the field; `Mines.Minefield.SpawnMines` computes it |
| Mines.MineMarks | Minesweeper/minefield.py:19-32 | the markers on a fresh h x w field form an h x w grid; their number is bounded by `Mines.MineMarksBinary` |
| Mines.MarksBinary | Minesweeper/minefield.py:26-32 | marking writes only 1s, so a 0/1 field stays 0/1; it adds at most one marker per draw, and at least one marker when there is a draw |
| Mines.MineMarksBinary | Minesweeper/minefield.py:19-32 | a fresh field gets between 1 and `amount_mines` markers, fewer when draws collide |
| Mines.HintField | Minesweeper/minefield.py:34-53 | after `setup_hints` a marker cell is 9 and every other cell holds its 3 x 3 convolution hint |
| Mines.MarkedAmong | Minesweeper/minefield.py:36-52 | reference count of the in-bounds marked neighbours, bounded by the number of offsets tried |
| Mines.PaddedMarker | Minesweeper/minefield.py:36 | on a field of markers, a read of the zero-padded field is 1 exactly at an in-bounds marker |
| Mines.HintCountsMarkedNeighbours | Minesweeper/minefield.py:36-52 | the convolution equals the number of marked in-bounds neighbours, so every hint is in 0..8 |
| Mines.SetupFieldCells | Minesweeper/minefield.py:34-53 | after setup, a cell is 9 exactly where a marker was drawn; any other cell holds its number of marked neighbours, in 0..8 |
| Mines.SetupFieldMineCount | Minesweeper/minefield.py:24-53 | after setup there are between 1 and `amount_mines` mines |
| Mines.FloodFill | Minesweeper/minefield.py:92-113 | `sweep_field` keeps the shape of the field and never increases the number of cells in [-8, 8], the measure by which it terminates |
| Mines.RevealCell | Minesweeper/minefield.py:106-113 | revealing an in-bounds sweepable cell strictly decreases the number of cells in [-8, 8] |
| Mines.FloodFillAt | Minesweeper/minefield.py:106-113 | a sweepable cell becomes abs(v) + 100, and only when that is 100 are the neighbour loops run |
| Mines.FillNeighbours | Minesweeper/minefield.py:110-113 | the neighbour loops keep the shape and never increase the number of sweepable cells |
| Mines.FillNeighboursStep | Minesweeper/minefield.py:110-113 | the loops skip offset (0, 0) and sweep each other neighbour in order |
| Mines.FloodFillFacts | Minesweeper/minefield.py:99-113 | the flood fill only reveals sweepable cells, leaves no sweepable neighbour beside an opened empty cell, and leaves its start cell unsweepable |
| Mines.FloodFillProperties | Minesweeper/minefield.py:99-113 | a cell outside [-8, 8] (a hidden or flagged mine, a revealed cell) is never changed; each changed cell v becomes abs(v) + 100; each opened 0 has every neighbour swept |
| Mines.FloodFillNoOp | Minesweeper/minefield.py:99-104 | out-of-bounds sweeps, and sweeps of a cell outside [-8, 8], change nothing |
| Mines.Shift | Minesweeper/minefield.py:85 | `field += 100` adds 100 to every cell |
| Mines.FlagTwice | Minesweeper/minefield.py:75 | flagging negates exactly one cell, leaves all others unchanged, and flagging twice restores the field |
| Mines.Minefield.constructor | Minesweeper/minefield.py:5-14 | the new field holds mines at the drawn cells and the hints everywhere else |
| Mines.Minefield.Setup | Minesweeper/minefield.py:16-22 | `setup` produces the hint field of the drawn markers on a fresh zero field |
| Mines.Minefield.SpawnMines | Minesweeper/minefield.py:24-32 | the field becomes the markers drawn among its zero cells |
| Mines.Minefield.SetupHints | Minesweeper/minefield.py:34-53 | the field becomes `HintField` of the markers it held |
| Mines.Minefield.Action | Minesweeper/minefield.py:55-66 | a flag action yields nothing and negates the cell; a sweep action yields whether a mine was hit and detonates or flood-fills |
| Mines.Minefield.Flag | Minesweeper/minefield.py:69-75 | the field becomes the field with that one cell negated |
| Mines.Minefield.Sweep | Minesweeper/minefield.py:77-90 | a hit happens exactly on a 9; a hit adds 100 everywhere and sets the cell to 99; otherwise the field is the flood fill (a no-op on a flagged mine, -9) |
| Mines.Minefield.Detonate | Minesweeper/minefield.py:84-87 | the lost game: every cell + 100, the swept cell 99 |
| Mines.Minefield.SweepField | Minesweeper/minefield.py:92-113 | the recursive method computes exactly `FloodFill` of the old field |
| Mines.Minefield.SweepNeighbours | Minesweeper/minefield.py:109-113 | the two offset loops compute `FillNeighbours` from offset (-1, -1) |
| Mines.Minefield.SweepOffset | Minesweeper/minefield.py:110-113 | one turn of the inner loop sweeps the neighbour, or does nothing at offset (0, 0) |
| Mines.Minefield.CheckFinish | Minesweeper/minefield.py:115-120 | true exactly when no cell holds a value in [0, 8] |
| SudokuRules.PlaceAllowed | Sudoku/solver.py:52-54 | writing a digit that `is_valid` allows into an empty cell keeps a consistent board consistent |
| SudokuRules.CompletionAllowed | Sudoku/solver.py:22-42 | in every empty cell, the digit of any solution is one that `is_valid` allows |
| SudokuRules.CanonicalBand | Sudoku/shuffler.py:7-17 | the fixed board follows one arithmetic rule, band by band |
| SudokuRules.CanonicalDigit | Sudoku/shuffler.py:7-17 | each cell of the fixed board, as a function of its row and column |
| SudokuRules.CanonicalPeers | Sudoku/shuffler.py:7-17 | two different cells of a row, column or block of the fixed board hold different digits |
| SudokuRules.CanonicalSolved | Sudoku/shuffler.py:7-17 | the initial board is a valid, completely filled Sudoku |
| SudokuRules.SwapDigits | Sudoku/shuffler.py:37-44 | every n1 becomes n2, every n2 becomes n1, and every other cell keeps its value |
| SudokuRules.SwapDigitsSolved | Sudoku/shuffler.py:37-44 | exchanging two digits keeps a grid a valid Sudoku |
| SudokuRules.SwapDigitsTwice | Sudoku/shuffler.py:37-44 | exchanging twice restores the grid, and `n1 == n2` changes nothing |
| SudokuRules.SwapRows | Sudoku/shuffler.py:53-57 | each row i becomes the row that the swap of a and b sends to i |
| SudokuRules.SwapCols | Sudoku/shuffler.py:67-71 | each column j becomes the column that the swap of a and b sends to j |
| SudokuRules.SwapRowsTwice | Sudoku/shuffler.py:53-57 | a row swap leaves other rows unchanged and swapping twice is the identity |
| SudokuRules.SwapColsTwice | Sudoku/shuffler.py:67-71 | swapping two columns twice is the identity |
| SudokuRules.SwapRowsSolved | Sudoku/shuffler.py:46-57 | swapping two rows of one band keeps a grid valid |
| SudokuRules.SwapColsSolved | Sudoku/shuffler.py:59-71 | swapping two columns of one stack keeps a grid valid |
| SudokuRules.SwapBandRows | Sudoku/shuffler.py:78-80 | the first k row swaps of a band swap keep a 9 x 9 board |
| SudokuRules.SwapBands | Sudoku/shuffler.py:78-80 | `swap_row_blocks` keeps a 9 x 9 board |
| SudokuRules.BandIndexOneToOne | Sudoku/shuffler.py:78-80 | a band swap keeps rows of one band together and sends different rows to different rows |
| SudokuRules.SwapBandsRows | Sudoku/shuffler.py:78-80 | the three row swaps move each row of one band to the same position in the other band |
| SudokuRules.SwapBandsSolved | Sudoku/shuffler.py:78-80 | swapping two bands keeps a grid valid |
| SudokuShuffle.CycleIndex | Sudoku/shuffler.py:22-23 | Python's `%`: the result has the sign of the modulus and completes the floor-division identity |
| SudokuShuffle.CycleIndexDefault | Sudoku/shuffler.py:22-23 | with `max_cycle = 9` an index on the board is kept, and indices wrap every 9 |
| SudokuShuffle.ShuffleNumbersFn | Sudoku/shuffler.py:32-35 | the digit relabelling keeps the shape of the grid; `SudokuShuffle.ShuffleNumbersSolved` proves it keeps a grid valid |
| SudokuShuffle.Partner | Sudoku/shuffler.py:48-51 | the row (or column) swapped with ii is one of the three in ii's band (or stack) |
| SudokuShuffle.ShuffleRowsFn | Sudoku/shuffler.py:46-51 | `shuffle_rows` keeps a 9 x 9 board; `SudokuShuffle.ShuffleRowsSolved` proves it keeps a grid valid |
| SudokuShuffle.ShuffleColsFn | Sudoku/shuffler.py:59-65 | `shuffle_cols` keeps a 9 x 9 board; `SudokuShuffle.ShuffleColsSolved` proves it keeps a grid valid |
| SudokuShuffle.ShuffleRowsFnStep | Sudoku/shuffler.py:48-51 | iteration ii swaps row ii with its drawn partner |
| SudokuShuffle.ShuffleColsFnStep | Sudoku/shuffler.py:62-65 | iteration ii swaps column ii with its drawn partner |
| SudokuShuffle.ShuffleBandsFn | Sudoku/shuffler.py:73-76 | the band shuffle keeps a 9 x 9 board; `SudokuShuffle.ShuffleBandsSolved` proves it keeps a grid valid |
| SudokuShuffle.ShuffleFn | Sudoku/shuffler.py:25-30 | the whole shuffle keeps a 9 x 9 board; `SudokuShuffle.ShuffleSolved` proves it keeps a grid valid |
| SudokuShuffle.ShuffleNumbersSolved | Sudoku/shuffler.py:32-44 | relabelling digits keeps a grid valid after every swap |
| SudokuShuffle.ShuffleRowsSolved | Sudoku/shuffler.py:46-57 | the grid is valid after every row swap of `shuffle_rows` |
| SudokuShuffle.ShuffleColsSolved | Sudoku/shuffler.py:59-71 | the grid is valid after every column swap of `shuffle_cols` |
| SudokuShuffle.ShuffleBandsSolved | Sudoku/shuffler.py:73-80 | the grid is valid after every band swap |
| SudokuShuffle.ShuffleSolved | Sudoku/shuffler.py:25-30 | `shuffle` turns a valid grid into a valid grid, whatever the draws |
| SudokuShuffle.BoardShuffler.constructor | Sudoku/shuffler.py:7-17 | the board starts as the fixed grid |
| SudokuShuffle.BoardShuffler.Shuffle | Sudoku/shuffler.py:25-30 | the board becomes `ShuffleFn` of the old board and stays valid |
| SudokuShuffle.BoardShuffler.ShuffleNumbers | Sudoku/shuffler.py:32-35 | the board becomes the nine drawn digit swaps of the old board |
| SudokuShuffle.BoardShuffler.SwapNumbers | Sudoku/shuffler.py:37-44 | the column-by-column walk exchanges the two digits everywhere |
| SudokuShuffle.BoardShuffler.ShuffleRows | Sudoku/shuffler.py:46-51 | the board becomes the nine drawn in-band row swaps of the old board |
| SudokuShuffle.BoardShuffler.SwapRows | Sudoku/shuffler.py:53-57 | the copy-then-overwrite steps exchange the two rows |
| SudokuShuffle.BoardShuffler.ShuffleCols | Sudoku/shuffler.py:59-65 | the board becomes the nine drawn in-stack column swaps of the old board |
| SudokuShuffle.BoardShuffler.SwapCols | Sudoku/shuffler.py:67-71 | the same steps exchange the two columns |
| SudokuShuffle.BoardShuffler.ShuffleRowBlock | Sudoku/shuffler.py:73-76 | the board becomes the three drawn band swaps |
| SudokuShuffle.BoardShuffler.SwapRowBlocks | Sudoku/shuffler.py:78-80 | three row swaps exchange two whole bands |
| SudokuShuffle.BoardShuffler.ShuffleColBlock | Sudoku/shuffler.py:82-85 | as written, the same band swaps as `shuffle_row_block` |
| SudokuShuffle.BoardShuffler.SwapColBlocks | Sudoku/shuffler.py:87-89 | as written, it exchanges row bands exactly like `swap_row_blocks` |
| SudokuSolve.FirstEmptyFrom | Sudoku/solver.py:78-84 | the first empty cell at or after a position in row-major order, or none when there is no empty cell from there |
| SudokuSolve.FirstEmptySpec | Sudoku/solver.py:78-84 | the result is absent exactly when the board is full; it is (r, c) exactly when (r, c) is empty and every cell before it is filled |
| SudokuSolve.PlaceDecreases | Sudoku/solver.py:52-57 | placing a digit leaves one empty cell fewer, so the backtracking terminates |
| SudokuSolve.CountFull | Sudoku/solver.py:63-65 | a board without an empty cell counts exactly one solution, and the solver returns it |
| SudokuSolve.CompletionStep | Sudoku/solver.py:52-56 | the digit a solution holds in the first empty cell is allowed there, and the solution still completes the board with that digit placed |
| SudokuSolve.CountAtLeastOne | Sudoku/solver.py:61-76 | every solution is reached: a board with a solution counts at least one |
| SudokuSolve.CountUnique | Sudoku/solver.py:61-76 | a board that counts at most one solution has at most one solution |
| SudokuSolve.SolveSound | Sudoku/solver.py:44-59 | on a consistent board, a board the solver returns is a valid completion of it |
| SudokuSolve.SolveFills | Sudoku/solver.py:46-56 | on any board, a returned board has no empty cell and keeps every clue |
| SudokuSolve.SolveIffCount | Sudoku/solver.py:44-76 | `solve_sudoku` succeeds exactly when `count_solutions` counts at least one |
| SudokuSolve.Solvable | Sudoku/solver.py:44-76 | on a consistent board the count is positive exactly when a solution exists, and the solver then finds one |
| SudokuSolve.UniqueSolution | Sudoku/solver.py:44-76 | when the count is 1, the one solution is what the solver returns |
| SudokuSolve.SudokuSolver.constructor | Sudoku/solver.py:4-7 | no board and no stored solution |
| SudokuSolve.SudokuSolver.SetBoard | Sudoku/solver.py:9-15 | the solver shares the caller's array |
| SudokuSolve.SudokuSolver.IsValid | Sudoku/solver.py:22-42 | true exactly when the digit is absent from the row, the column and the block of the cell |
| SudokuSolve.SudokuSolver.FindEmptyCell | Sudoku/solver.py:78-84 | the first empty cell in row-major order, none when the board is full |
| SudokuSolve.SudokuSolver.SolveSudoku | Sudoku/solver.py:44-59 | success exactly when a solution is reachable; on success the board and the stored copy are that solution; on failure the board is its input |
| SudokuSolve.SudokuSolver.CountSolutions | Sudoku/solver.py:61-76 | the count is `CountFn` of the board, and the board is left exactly as found |
| SudokuSolve.SudokuSolver.CompareSolution | Sudoku/solver.py:86-97 | false without a stored solution, otherwise cell-wise equality with it |
| SudokuSolve.SudokuSolver.ValidateBoard | Sudoku/solver.py:99-102 | the error "Board must be a 9x9 grid." is raised exactly when no 9 x 9 board is set |
| SudokuMask.PyIndex | Sudoku/masker.py:27-28 | a Python index into an axis of 9: negative counts from the end |
| SudokuMask.AddEntry | Sudoku/masker.py:11-19 | `add_mask_entry` keeps a 9 x 9 mask; its effect is stated by `SudokuMask.AddEntrySpec` |
| SudokuMask.AddEntrySpec | Sudoku/masker.py:11-19 | exactly one open cell becomes a clue and nothing else changes; the mask stays 0/1; clues +1, open cells -1 |
| SudokuMask.AddEntries | Sudoku/masker.py:21-25 | `generate_start_mask` keeps a 9 x 9 mask; its effect is stated by `SudokuMask.AddEntriesSpec` |
| SudokuMask.AddEntriesSpec | Sudoku/masker.py:21-25 | k entries add exactly k clues, keep every earlier clue, and keep the mask 0/1 |
| SudokuMask.MaskCreator.constructor | Sudoku/masker.py:6 | the mask starts with every cell open |
| SudokuMask.MaskCreator.AddMaskEntry | Sudoku/masker.py:11-19 | the flattened-index choice among open cells turns the chosen cell into a clue; at least one open cell is required |
| SudokuMask.MaskCreator.GenerateStartMask | Sudoku/masker.py:21-25 | one entry per pick, without resetting the mask first |
| SudokuMask.MaskCreator.RemoveMaskEntry | Sudoku/masker.py:27-28 | the one cell becomes open, and nothing else changes |
| SudokuCreate.Overlay | Sudoku/creator.py:28 | `dst[mask == 1] = src[mask == 1]`: masked cells come from the source, the others stay |
| SudokuCreate.AddEntryKeeps | Sudoku/creator.py:34-36 | an added clue keeps every clue the mask had |
| SudokuCreate.OverlayMasked | Sudoku/creator.py:35-36 | recopying the solution under the larger mask gives the puzzle of the larger mask |
| SudokuCreate.MaskedPuzzle | Sudoku/creator.py:27-28 | the puzzle of a valid grid is consistent, has that grid as a solution, and is non-zero exactly on the masked cells |
| SudokuCreate.CountAboveOneHasOpen | Sudoku/creator.py:31-38 | a full mask gives the solution itself, which counts 1; so while the count is above 1 a cell is open and the loop can add a clue |
| SudokuCreate.ExitUnique | Sudoku/creator.py:31-38 | at exit the count is exactly 1, the shuffled grid is the only solution, and the solver returns it |
| SudokuCreate.CopyMasked | Sudoku/creator.py:27-28 | the copy step computes `Overlay` |
| SudokuCreate.SudokuCreator.constructor | Sudoku/creator.py:13-19 | a fresh mask with all 81 cells open, and a fresh shuffler |
| SudokuCreate.SudokuCreator.AddClue | Sudoku/creator.py:34-36 | one more clue, and the puzzle stays the solution under the mask |
| SudokuCreate.SudokuCreator.CountPuzzle | Sudoku/creator.py:32-33 | the solver counts the puzzle's solutions; the puzzle, the mask and the solution are unchanged |
| SudokuCreate.SudokuCreator.AddCluesUntilUnique | Sudoku/creator.py:30-38 | the loop ends with count at most 1, one clue per round, clues never lost, and at most as many rounds as open cells |
| SudokuCreate.SudokuCreator.Generate | Sudoku/creator.py:21-40 | the puzzle is the shuffled valid grid under the mask; it has exactly one solution, the shuffled grid; the loop added at most as many clues as cells were open |
| GameGrid2048.NonZeros | ZwanzigAchtundVierzig/game_grid.py:83 | `row[row != 0]` is no longer than the row and holds no empty cell |
| GameGrid2048.Reverse | ZwanzigAchtundVierzig/game_grid.py:89 | `[::-1]` reads the line backwards |
| GameGrid2048.Merge | ZwanzigAchtundVierzig/game_grid.py:91-103 | the merge pass never lengthens a line; `GameGrid2048.MergeFacts` and `GameGrid2048.StackRightExample` state what it merges |
| GameGrid2048.Pad | ZwanzigAchtundVierzig/game_grid.py:105 | the merged tiles come first and zeros fill the line up to `frame_size` |
| GameGrid2048.Tiles | ZwanzigAchtundVierzig/game_grid.py:83-89 | the tiles the pass visits are the line's non-zero cells |
| GameGrid2048.StackLine | ZwanzigAchtundVierzig/game_grid.py:82-108 | every stacked line has length `frame_size`; its layout is stated by `GameGrid2048.StackLineLayout` |
| GameGrid2048.NonZerosReverse | ZwanzigAchtundVierzig/game_grid.py:83-89 | taking tiles commutes with reversing |
| GameGrid2048.NonZerosSigns | ZwanzigAchtundVierzig/game_grid.py:83 | tiles of a non-negative line are positive; a line has no tile exactly when every cell is empty |
| GameGrid2048.MergeFacts | ZwanzigAchtundVierzig/game_grid.py:91-103 | merging keeps tiles non-zero and positive; a pass that does not shorten the line merged nothing and scored nothing |
| GameGrid2048.StackLineTiles | ZwanzigAchtundVierzig/game_grid.py:82-108 | the tiles of a stacked line are the merged tiles, in the stacking direction |
| GameGrid2048.StackLineLayout | ZwanzigAchtundVierzig/game_grid.py:82-108 | the merged tiles sit at the front (the back for DOWN and RIGHT), with zeros behind (or in front) |
| GameGrid2048.TileCount | ZwanzigAchtundVierzig/game_grid.py:91-105 | stacking creates no tile: the number of tiles drops by one per merge |
| GameGrid2048.UnchangedLineGain | ZwanzigAchtundVierzig/game_grid.py:98-100 | a line that stacking leaves unchanged scores nothing |
| GameGrid2048.FullLineUnchanged | ZwanzigAchtundVierzig/game_grid.py:91-108 | a stacked line with no empty cell is the line itself |
| GameGrid2048.MergeFullLength | ZwanzigAchtundVierzig/game_grid.py:91-105 | a stacked line without an empty cell has a full line of tiles, none of them merged |
| GameGrid2048.StackLineSigns | ZwanzigAchtundVierzig/game_grid.py:82-108 | a non-negative line stays non-negative and keeps a tile if it had one |
| GameGrid2048.Lines | ZwanzigAchtundVierzig/game_grid.py:78-82 | the columns for UP and DOWN, otherwise the rows, each of length `frame_size` |
| GameGrid2048.StackRows | ZwanzigAchtundVierzig/game_grid.py:82-110 | line i of the new field is line i stacked |
| GameGrid2048.StackFn | ZwanzigAchtundVierzig/game_grid.py:62-119 | `stack` keeps an n x n field; `GameGrid2048.StackFnLines` states it line by line |
| GameGrid2048.StackFnLines | ZwanzigAchtundVierzig/game_grid.py:78-114 | read along the direction, the stacked field is the stacked lines |
| GameGrid2048.UnchangedGain | ZwanzigAchtundVierzig/game_grid.py:98-100 | a move that changes nothing scores nothing |
| GameGrid2048.ChangedHasEmpty | ZwanzigAchtundVierzig/game_grid.py:50-59 | a move that changes the field leaves an empty cell |
| GameGrid2048.StackSigns | ZwanzigAchtundVierzig/game_grid.py:82-114 | stacking keeps tiles non-negative and keeps a tile on the field |
| GameGrid2048.StackRightExample | ZwanzigAchtundVierzig/game_grid.py:63-64 | [0, 2, 2, 2] stacked RIGHT is [0, 0, 2, 4] and scores 4 |
| GameGrid2048.SpawnValue | ZwanzigAchtundVierzig/game_grid.py:41-46 | the custom value if given; otherwise twice the base exactly when the draw is below the percentage, else the base |
| GameGrid2048.SpawnFn | ZwanzigAchtundVierzig/game_grid.py:37-46 | the spawn loop keeps the shape of the field; what it writes is stated by `GameGrid2048.SpawnFnCells` |
| GameGrid2048.SpawnFnCells | ZwanzigAchtundVierzig/game_grid.py:37-48 | spawning writes only cells that were empty, each with a spawn value; every tile is unchanged |
| GameGrid2048.SpawnSigns | ZwanzigAchtundVierzig/game_grid.py:37-48 | spawning with a non-negative base keeps tiles non-negative and keeps a tile |
| GameGrid2048.SpawnResult | ZwanzigAchtundVierzig/game_grid.py:33-48 | a `spawn` call, failed or not, keeps the shape of the field; `GameGrid2048.GameGrid.Spawn` states when it fails |
| GameGrid2048.EmptyCellSpawns | ZwanzigAchtundVierzig/game_grid.py:33-34 | a field with an empty cell passes the test for one tile |
| GameGrid2048.MoveSigns | ZwanzigAchtundVierzig/game_grid.py:50-59 | a move keeps the field non-negative and keeps a tile on it |
| GameGrid2048.FirstChange | ZwanzigAchtundVierzig/game_grid.py:124-132 | the first direction in the order 0..3 that changes the field, and 4 when none does |
| GameGrid2048.CopyGrid | ZwanzigAchtundVierzig/game_grid.py:71 | `.copy()` is a fresh array with the same cells |
| GameGrid2048.TransposeArray | ZwanzigAchtundVierzig/game_grid.py:80 | a fresh array holding the transpose |
| GameGrid2048.SetRow | ZwanzigAchtundVierzig/game_grid.py:110 | row `index` becomes the new row and nothing else changes |
| GameGrid2048.GameGrid.constructor | ZwanzigAchtundVierzig/game_grid.py:5-20 | score 0 and a zero field with the two start tiles spawned |
| GameGrid2048.GameGrid.Restart | ZwanzigAchtundVierzig/game_grid.py:22-25 | score 0, a fresh zero field, then the spawn |
| GameGrid2048.GameGrid.Spawn | ZwanzigAchtundVierzig/game_grid.py:27-48 | fails, reporting the score, exactly when 2 x (empty cells) < `spawn_no`, and then the field is untouched; otherwise the field is the drawn spawns |
| GameGrid2048.GameGrid.SpawnTile | ZwanzigAchtundVierzig/game_grid.py:39-46 | the one cell gets its spawn value |
| GameGrid2048.GameGrid.StackRow | ZwanzigAchtundVierzig/game_grid.py:82-110 | a line becomes `StackLine`, and its merge gain is added to the score |
| GameGrid2048.GameGrid.MergeTiles | ZwanzigAchtundVierzig/game_grid.py:91-103 | the skip-flag loop computes the merge pass and adds exactly the sum of the doubled tiles to the score |
| GameGrid2048.GameGrid.Stack | ZwanzigAchtundVierzig/game_grid.py:62-119 | the stacked field is stored, or returned for a temporary field; in both cases the whole gain is added to the score |
| GameGrid2048.GameGrid.StackLines | ZwanzigAchtundVierzig/game_grid.py:82-110 | the row loop builds the stacked lines and adds each line's gain |
| GameGrid2048.GameGrid.CheckChanges | ZwanzigAchtundVierzig/game_grid.py:121-122 | true exactly when the stacked field differs from the field |
| GameGrid2048.GameGrid.Move | ZwanzigAchtundVierzig/game_grid.py:50-59 | success exactly when stacking changes the field; a failed move leaves field and score alone; a successful one takes the stacked field and spawns one tile |
| GameGrid2048.GameGrid.TakeStacked | ZwanzigAchtundVierzig/game_grid.py:56-59 | the stacked field is copied in and the single spawn succeeds |
| GameGrid2048.GameGrid.CheckGameOver | ZwanzigAchtundVierzig/game_grid.py:124-132 | true exactly when no direction changes the field; before giving false it has added the gains of every direction it tried |
| GameGrid2048.GameGrid.Probe | ZwanzigAchtundVierzig/game_grid.py:126-130 | one round stacks a copy, leaves the field unchanged, and adds that direction's gain |
| GameGrid2048.GameGrid.Copy | ZwanzigAchtundVierzig/game_grid.py:134-135 | a fresh array holding the field |
| Agent2048.RowPairsCount | ZwanzigAchtundVierzig/agent.py:8-11 | the count is the number of positions where a cell equals its right neighbour |
| Agent2048.EqualPairsZero | ZwanzigAchtundVierzig/agent.py:5-13 | the count over all rows is 0 exactly when no cell equals its right neighbour |
| Agent2048.NeighboursZero | ZwanzigAchtundVierzig/agent.py:55-58 | rows plus transposed rows count 0 exactly when no two adjacent cells are equal |
| Agent2048.NeighboursChecker | ZwanzigAchtundVierzig/agent.py:5-13 | the loops count equal horizontal pairs, empty cells included |
| Agent2048.CornerIsOrigin | ZwanzigAchtundVierzig/agent.py:72 | the corner test passes exactly when the first largest tile is at (0, 0), since `nn` is no index |
| Agent2048.ScanDone | ZwanzigAchtundVierzig/agent.py:64-70 | after the scan, a field with a tile has its first largest tile found |
| Agent2048.State.constructor | ZwanzigAchtundVierzig/agent.py:17-33 | the moves are the parent's moves plus the move that led here; the counters and the score start at 0 |
| Agent2048.State.Move | ZwanzigAchtundVierzig/agent.py:35-40 | the grid moves, the move is counted, and the score is recomputed from the new field |
| Agent2048.State.MoveGrid | ZwanzigAchtundVierzig/agent.py:36 | the grid's move, which keeps the field non-negative with a tile on it |
| Agent2048.State.UpdateScore | ZwanzigAchtundVierzig/agent.py:42-53 | score = base x moves + grid score, where base = -100 on failure, 15 per equal pair, +100 when pairs decreased, and +25 for the corner |
| Agent2048.State.HasEqualNeighbour | ZwanzigAchtundVierzig/agent.py:55-58 | the equal pairs along rows and columns, which are also stored |
| Agent2048.State.CheckLargestInCorner | ZwanzigAchtundVierzig/agent.py:60-72 | true exactly when the first largest tile sits at a cell with both coordinates in {0, nn} |
| Agent2048.State.ScanField | ZwanzigAchtundVierzig/agent.py:61-70 | the nested scan keeps the first position of the running maximum |
| Agent2048.State.Copy | ZwanzigAchtundVierzig/agent.py:74-78 | a fresh state with a fresh grid whose field and score equal the original's; its moves are these moves plus the new one |
| Agent2048.PathsShape | ZwanzigAchtundVierzig/agent.py:129-139 | every recorded state's moves extend the start by exactly `depth` directions |
| Agent2048.PathsCount | ZwanzigAchtundVierzig/agent.py:129-139 | at most 4^depth states are recorded |
| Agent2048.OneMoveAhead | ZwanzigAchtundVierzig/agent.py:134-139 | one move ahead, exactly the directions that change the field are recorded, in order |
| Agent2048.OneMoveAheadOver | ZwanzigAchtundVierzig/agent.py:134-139 | one move ahead, nothing is recorded exactly when `check_game_over` would report the end |
| Agent2048.GameRulesOf | ZwanzigAchtundVierzig/agent.py:35-72 | the rules `RulesOf` bundles are those of the game: whether a direction changes the field, the moved field with its spawn, the merge gain, the equal pairs and the corner test |
| Agent2048.Child | ZwanzigAchtundVierzig/agent.py:74-78 | the child of a state below a direction extends its moves by that direction and has made exactly one move |
| Agent2048.GameChild | ZwanzigAchtundVierzig/agent.py:35-53 | under the game's rules, the child below a direction has the moved field, the parent's grid score plus the merge gain, the field's equal pairs, and the score of a successful first move against the parent's pairs |
| Agent2048.LeavesMoves | ZwanzigAchtundVierzig/agent.py:129-139 | the moves of the recorded states, in order, are exactly `Paths` |
| Agent2048.LeavesScores | ZwanzigAchtundVierzig/agent.py:42-53 | every state recorded below the root has made exactly one move, so the `* move_no` weighting has no effect: its pairs are those of its field and its score is its grid score, 15 per pair, and a bonus of 0, 25, 100 or 125 |
| Agent2048.FirstMaxIndex | ZwanzigAchtundVierzig/agent.py:125 | the first position of a maximum, as Python's `max` returns it |
| Agent2048.MaxByScore | ZwanzigAchtundVierzig/agent.py:125 | `max(states, key=score)` is a state of the pool whose score no state exceeds, and no state before it has the same score |
| Agent2048.AgentArgumentError | ZwanzigAchtundVierzig/agent.py:88-89 | the `ValueError` is raised exactly when neither a grid nor a UI is given |
| Agent2048.NewAgent | ZwanzigAchtundVierzig/agent.py:82-94 | construction fails with that error, or yields a fresh agent with an empty pool |
| Agent2048.Agent.constructor | ZwanzigAchtundVierzig/agent.py:91-94 | the agent keeps the grid and the UI flag; the pool starts empty |
| Agent2048.Agent.Lookup | ZwanzigAchtundVierzig/agent.py:129-139 | the pool keeps its prefix, and the states appended are, as values, exactly `Leaves`: the moves, field, grid score, move count (always 1 below the root), equal pairs and score of every state `depth` successful moves below, in order; at depth 0 the state itself is appended; the appended states are fresh |
| Agent2048.Agent.LookupDirections | ZwanzigAchtundVierzig/agent.py:134-139 | the loop over the four directions appends, in order, the `Leaves` below each direction |
| Agent2048.Agent.LookupDirection | ZwanzigAchtundVierzig/agent.py:135-139 | one direction appends exactly the `LeavesBranch` of that direction, fresh states only, and leaves the state unchanged |
| Agent2048.Agent.Descend | ZwanzigAchtundVierzig/agent.py:138-139 | after a successful move, the search below the copy appends its `Leaves` |
| Agent2048.Agent.TryMove | ZwanzigAchtundVierzig/agent.py:135-136 | the copy's move succeeds exactly when the direction changes the field, and the copy then holds the state's `Child`: moved field, gained grid score, one move, its pairs and its score |
| Agent2048.Agent.MoveCopy | ZwanzigAchtundVierzig/agent.py:136 | the move of the fresh copy succeeds exactly when the direction changes the field, and the copy then equals the `Child` |
| Agent2048.Agent.DepthSearch | ZwanzigAchtundVierzig/agent.py:110-127 | the pool is, as values, `Leaves` of the state and its moves are `Paths`; below the root every pooled state has made one move and carries the unweighted score of `LeavesScores`; the input state is returned when the pool is empty, otherwise its first state of maximal score |
| Agent2048.Agent.Step | ZwanzigAchtundVierzig/agent.py:96-108 | the pool is `Leaves` of a fresh root under the game's rules; the move is -1 exactly when the depth is 0 or the pool is empty; otherwise it is the first move of the best state, whose path has length `depth` |

## Left out

- The user interfaces and helpers are not part of this model: the tkinter windows, menus,
  key bindings and schedulers, the colour mappers, `print_board` and the `main` functions.
- The distribution of the random draws is not modelled. Every value a draw can take is
  covered, through `Oracle`.
- numpy is modelled only through element reads and writes, copies, transposes and
  `argwhere`.
- The performance of the exponential solver and the O(4^depth) search is not modelled.
- Python exceptions are modelled as preconditions, not as error results: an empty random
  choice, a non-positive field size, an index outside the field, and the missing parent of
  a root `State` in `update_score`. The one exception whose message matters to callers,
  in `validate_board`, is modelled as a result.
- The class attributes `BoardShuffler.board` and `MaskCreator.mask` are modelled as
  per-instance arrays. Instances that share the class-level array are not modelled.
- Mines.AmountMines: computes `int(h * w * percent / 100)` exactly. Floating-point rounding
  is not modelled; it would matter only for products beyond 2^53.
- Mines.Minefield.Sweep: requires an in-bounds cell. Python's negative indices for
  `field[x][y]` in `sweep` and `flag` are not modelled.
- Mines.Minefield.SetupHints: the padded copy and the kernel product are specified by the
  sum of the eight padded neighbours. numpy's convolution is not modelled.
- GameGrid2048.GameGrid.Spawn: the draws are supplied per tile. Python draws the value
  only when there is no custom value, so draw order is not modelled.
- GameGrid2048.GameGrid.Stack: requires a temporary field of the game's size. The
  direction is any integer, and any value outside 0..3 stacks the rows to the front, as
  the source does.
- Agent2048.Agent.Lookup: the spawn draws of every state are a function of its path of
  moves. The specification takes the game's rules as a ghost `Rules` value, which
  `GameRules` ties to the real rules and `RulesOf` builds for `Step`. The recorded states
  are described by their values (`View`); the parent links between them are not.
- Agent2048.State.CheckLargestInCorner, Agent2048.State.UpdateScore, Agent2048.State.Move,
  Agent2048.Agent.Lookup, Agent2048.Agent.DepthSearch and Agent2048.Agent.Step: require a
  field with a positive tile, and the moves additionally one with no negative tile, which
  keeps a positive tile after every move. On a field without a positive tile, `max_pos`
  stays `None` and `max_pos[0]` raises a `TypeError` (agent.py:61-72). The game's callers
  never reach that case: the settings allow a base number of 1 or 2 only (frame.py:171),
  and a custom tile must be at least the base number (frame.py:273).
- SudokuSolve.SudokuSolver.SolveSudoku: `solved_board` is modelled as a copy of the
  board's values. In the source, `[row[:] for row in self.board]` (solver.py:48) on the
  numpy board of creator.py:27-32 makes row views that share memory with the board; no
  caller changes the board between `solve_sudoku` and `compare_solution`, so nothing
  observable differs.
- Agent2048.NewAgent: the UI is a flag, since the UI class is not part of this model.
  The bare constructor requires a grid or a UI, and `NewAgent` models the error path.
- Agent2048.State.Move: requires a parent state, because `update_score` reads the
  parent's neighbour count. A root state would raise in the source.
