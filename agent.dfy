/** The 2048 search agent: a `State` wraps a game grid with the moves that led to it and a
    heuristic score; the `Agent` enumerates every sequence of `depth` successful moves from a
    state and picks the first state of maximal score. The spawn draws of every move are
    supplied by the caller, keyed by the sequence of moves that leads to the moved state. */
module Agent2048 {
  import opened Grids
  import opened Options
  import opened GameGrid2048

  // ---------------------------------------------------------------------------------------
  // Equal neighbours

  /** The number of indices j with row[j] == row[j + 1]; empty cells count as equal too. */
  function RowPairs(row: seq<int>): nat {
    if |row| < 2 then 0
    else RowPairs(row[..|row| - 1]) + (if row[|row| - 2] == row[|row| - 1] then 1 else 0)
  }

  /** `neighbours_checker`: the equal horizontal neighbours over all rows. */
  function EqualPairs(g: Grid): nat {
    if |g| == 0 then 0 else EqualPairs(g[..|g| - 1]) + RowPairs(g[|g| - 1])
  }

  /** row[j] equals its right neighbour. */
  predicate EqualAt(row: seq<int>, j: int)
    requires 0 <= j < |row| - 1
  {
    row[j] == row[j + 1]
  }

  /** g[i][j] equals the cell below it. */
  predicate EqualBelow(g: Grid, i: int, j: int)
    requires 0 <= i < |g| - 1 && 0 <= j < |g[i]| && j < |g[i + 1]|
  {
    g[i][j] == g[i + 1][j]
  }

  /** The positions of the equal neighbours of a row. */
  ghost function PairSet(row: seq<int>): set<int> {
    set j | 0 <= j < |row| - 1 && EqualAt(row, j)
  }

  /** The count is the number of positions where a cell equals its right neighbour. */
  lemma {:induction false} RowPairsCount(row: seq<int>)
    ensures RowPairs(row) == |PairSet(row)|
  {
    if |row| < 2 {
      assert PairSet(row) == {};
    } else {
      var p := row[..|row| - 1];
      RowPairsCount(p);
      var k := |row| - 2;
      assert k !in PairSet(p);
      assert forall j :: 0 <= j < |p| - 1 ==> EqualAt(p, j) == EqualAt(row, j);
      if row[k] == row[k + 1] {
        assert PairSet(row) == PairSet(p) + {k};
      } else {
        assert PairSet(row) == PairSet(p);
      }
    }
  }

  /** A grid has no equal horizontal neighbours exactly when the count is 0. */
  lemma {:induction false} EqualPairsZero(g: Grid)
    ensures EqualPairs(g) == 0 <==> forall i, j :: 0 <= i < |g| && 0 <= j < |g[i]| - 1 ==> !EqualAt(g[i], j)
  {
    if |g| > 0 {
      var p := g[..|g| - 1];
      EqualPairsZero(p);
      var row := g[|g| - 1];
      RowPairsCount(row);
      assert forall i :: 0 <= i < |p| ==> p[i] == g[i];
      if RowPairs(row) == 0 {
        forall j | 0 <= j < |row| - 1 ensures !EqualAt(row, j) {
          assert j !in PairSet(row);
        }
      } else {
        var j :| j in PairSet(row);
        assert EqualAt(g[|g| - 1], j);
      }
    }
  }

  /** `has_equal_neighbour`: the equal neighbours along rows and along columns. */
  function Neighbours(g: Grid, n: nat): nat
    requires IsRect(g, n, n)
  {
    EqualPairs(g) + EqualPairs(Transpose(g, n))
  }

  /** No two cells side by side or one above the other are equal exactly when the count of
      equal neighbours is 0. */
  lemma NeighboursZero(g: Grid, n: nat)
    requires IsRect(g, n, n)
    ensures Neighbours(g, n) == 0 <==>
              forall i, j :: 0 <= i < n && 0 <= j < n - 1 ==> !EqualAt(g[i], j) && !EqualBelow(g, j, i)
  {
    var t := Transpose(g, n);
    EqualPairsZero(g);
    EqualPairsZero(t);
    assert forall i, j :: 0 <= i < n && 0 <= j < n - 1 ==> EqualAt(t[i], j) == EqualBelow(g, j, i);
  }

  /** `neighbours_checker`. */
  method NeighboursChecker(grid: Grid) returns (equalNeighs: nat)
    ensures equalNeighs == EqualPairs(grid)
  {
    equalNeighs := 0;
    for r := 0 to |grid|
      invariant equalNeighs == EqualPairs(grid[..r])
    {
      var row := grid[r];
      ghost var before := equalNeighs;
      if |row| >= 1 {
        for jj := 0 to |row| - 1
          invariant equalNeighs == before + RowPairs(row[..jj + 1])
        {
          if row[jj] == row[jj + 1] {
            equalNeighs := equalNeighs + 1;
          }
          assert row[..jj + 2][..jj + 1] == row[..jj + 1];
        }
        assert row[..|row|] == row;
      }
      assert grid[..r + 1][..r] == grid[..r];
    }
    assert grid[..|grid|] == grid;
  }

  // ---------------------------------------------------------------------------------------
  // The largest tile

  /** Row-major order of cells. */
  predicate Before(p: (int, int), q: (int, int)) {
    p.0 < q.0 || (p.0 == q.0 && p.1 < q.1)
  }

  /** p is the first cell, in row-major order, holding the largest positive value. */
  ghost predicate IsFirstMax(g: Grid, n: nat, p: (int, int))
    requires IsRect(g, n, n)
  {
    && 0 <= p.0 < n && 0 <= p.1 < n && g[p.0][p.1] > 0
    && (forall i, j :: 0 <= i < n && 0 <= j < n ==> g[i][j] <= g[p.0][p.1])
    && (forall i, j :: 0 <= i < n && 0 <= j < n && Before((i, j), p) ==> g[i][j] < g[p.0][p.1])
  }

  /** The test `max_pos[0] in [0, nn] and max_pos[1] in [0, nn]`. */
  predicate CornerCell(p: (int, int), n: int) {
    (p.0 == 0 || p.0 == n) && (p.1 == 0 || p.1 == n)
  }

  /** `check_largest_in_corner` as a property of the field. */
  ghost predicate LargestInCorner(g: Grid, n: nat)
    requires IsRect(g, n, n)
  {
    forall p :: IsFirstMax(g, n, p) ==> CornerCell(p, n)
  }

  lemma FirstMaxUnique(g: Grid, n: nat, p: (int, int), q: (int, int))
    requires IsRect(g, n, n) && IsFirstMax(g, n, p) && IsFirstMax(g, n, q)
    ensures p == q
  {
  }

  /** n is never an index of the field, so of the four corners only the top left one is
      recognised: the largest tile is "in the corner" exactly when the first largest tile
      is at (0, 0). */
  lemma CornerIsOrigin(g: Grid, n: nat, p: (int, int))
    requires IsRect(g, n, n) && IsFirstMax(g, n, p)
    ensures LargestInCorner(g, n) <==> p == (0, 0)
  {
    forall q | IsFirstMax(g, n, q) ensures q == p {
      FirstMaxUnique(g, n, p, q);
    }
  }

  /** What the scan of `check_largest_in_corner` knows after visiting the cells before
      (ii, jj): the largest value so far (at least 0) and, if it is positive, its first
      position. */
  ghost predicate Scanned(g: Grid, n: nat, ii: int, jj: int, maxPos: Option<(int, int)>, maxVal: int)
    requires IsRect(g, n, n)
  {
    && maxVal >= 0
    && (forall i, j :: 0 <= i < n && 0 <= j < n && Before((i, j), (ii, jj)) ==> g[i][j] <= maxVal)
    && (maxPos.None? ==> maxVal == 0)
    && (maxPos.Some? ==>
          var p := maxPos.value;
          && 0 <= p.0 < n && 0 <= p.1 < n && Before(p, (ii, jj)) && g[p.0][p.1] == maxVal > 0
          && forall i, j :: 0 <= i < n && 0 <= j < n && Before((i, j), p) ==> g[i][j] < maxVal)
  }

  /** Visiting the cell (ii, jj): a value above the largest so far becomes the new largest. */
  lemma ScanCell(g: Grid, n: nat, ii: int, jj: int, maxPos: Option<(int, int)>, maxVal: int)
    requires IsRect(g, n, n) && 0 <= ii < n && 0 <= jj < n && Scanned(g, n, ii, jj, maxPos, maxVal)
    ensures g[ii][jj] > maxVal ==> Scanned(g, n, ii, jj + 1, Some((ii, jj)), g[ii][jj])
    ensures g[ii][jj] <= maxVal ==> Scanned(g, n, ii, jj + 1, maxPos, maxVal)
  {
  }

  /** The end of a row is the start of the next one. */
  lemma ScanRow(g: Grid, n: nat, ii: int, maxPos: Option<(int, int)>, maxVal: int)
    requires IsRect(g, n, n) && Scanned(g, n, ii, n, maxPos, maxVal)
    ensures Scanned(g, n, ii + 1, 0, maxPos, maxVal)
  {
  }

  /** After the whole field, a field with a tile has its first largest tile found. */
  lemma ScanDone(g: Grid, n: nat, maxPos: Option<(int, int)>, maxVal: int)
    requires IsRect(g, n, n) && Scanned(g, n, n, 0, maxPos, maxVal) && HasTile(g)
    ensures maxPos.Some? && IsFirstMax(g, n, maxPos.value)
  {
    var i, j :| InBounds(g, i, j) && g[i][j] > 0;
    assert Before((i, j), (n, 0));
  }

  // ---------------------------------------------------------------------------------------
  // The score of a state

  /** The heuristic of `update_score` before it is weighted by the number of moves: a
      penalty of 100 for a failed move, 15 per equal neighbour pair, 100 when there are
      fewer pairs than in the parent, and 25 when the largest tile is in the corner. */
  function BaseScore(moveSuccess: bool, equal: int, parentEqual: int, corner: bool): int {
    (if moveSuccess then 0 else -100) + 15 * equal + (if equal < parentEqual then 100 else 0) + (if corner then 25 else 0)
  }

  /** The score of a state: the heuristic weighted by the number of moves, plus the grid's
      own score. */
  function Weighted(baseScore: int, moveNo: int, gridScore: int): int {
    baseScore * moveNo + gridScore
  }

  function StateScore(moveSuccess: bool, equal: int, parentEqual: int, corner: bool, moveNo: int, gridScore: int): int {
    Weighted(BaseScore(moveSuccess, equal, parentEqual, corner), moveNo, gridScore)
  }

  /** One node of the search: a game grid, the moves that led to it from the root, and its
      heuristic score. */
  class State {
    var score: int
    const grid: GameGrid
    const parent: State?
    const performedMoves: seq<int>
    var moveNo: int
    var equalNeighbours: int

    /** The moves are copied from the parent, and the move that led here is appended. */
    constructor (grid: GameGrid, stateMove: Option<int>, parent: State?)
      ensures this.grid == grid && this.parent == parent
      ensures score == 0 && moveNo == 0 && equalNeighbours == 0
      ensures performedMoves == (if parent != null then parent.performedMoves else [])
                                + (if stateMove.Some? then [stateMove.value] else [])
    {
      score := 0;
      this.grid := grid;
      this.parent := parent;
      var moves := if parent != null then parent.performedMoves else [];
      if stateMove.Some? {
        moves := moves + [stateMove.value];
      }
      performedMoves := moves;
      moveNo := 0;
      equalNeighbours := 0;
    }

    /** `move`: the grid moves, the move is counted, and the score is recomputed. */
    method Move(direction: int, position: nat, value: nat) returns (success: bool)
      requires grid.Valid() && parent != null && parent != this
      requires grid.baseNumber >= 0 && NonNegative(Snapshot(grid.field)) && HasTile(Snapshot(grid.field))
      modifies this, grid
      ensures grid.Valid() && NonNegative(Snapshot(grid.field)) && HasTile(Snapshot(grid.field))
      ensures success <==> Changes(old(Snapshot(grid.field)), grid.frameSize, direction)
      ensures Snapshot(grid.field) ==
                if success then SpawnResult(StackFn(old(Snapshot(grid.field)), grid.frameSize, direction), 1, None,
                                            grid.baseNumber, grid.percentDoubleBaseOnSpawn, [position], [value])
                else old(Snapshot(grid.field))
      ensures grid.score == old(grid.score) + GainFn(old(Snapshot(grid.field)), grid.frameSize, direction)
      ensures moveNo == old(moveNo) + 1
      ensures equalNeighbours == Neighbours(Snapshot(grid.field), grid.frameSize)
      ensures score == StateScore(success, equalNeighbours, parent.equalNeighbours,
                                 LargestInCorner(Snapshot(grid.field), grid.frameSize), moveNo, grid.score)
    {
      success := MoveGrid(direction, position, value);
      moveNo := moveNo + 1;
      UpdateScore(success);
    }

    /** The grid's part of `move`, which keeps the field free of negative tiles and keeps a
        tile on it. */
    method MoveGrid(direction: int, position: nat, value: nat) returns (success: bool)
      requires grid.Valid()
      requires grid.baseNumber >= 0 && NonNegative(Snapshot(grid.field)) && HasTile(Snapshot(grid.field))
      modifies grid
      ensures grid.Valid() && NonNegative(Snapshot(grid.field)) && HasTile(Snapshot(grid.field))
      ensures success <==> Changes(old(Snapshot(grid.field)), grid.frameSize, direction)
      ensures Snapshot(grid.field) ==
                if success then SpawnResult(StackFn(old(Snapshot(grid.field)), grid.frameSize, direction), 1, None,
                                            grid.baseNumber, grid.percentDoubleBaseOnSpawn, [position], [value])
                else old(Snapshot(grid.field))
      ensures grid.score == old(grid.score) + GainFn(old(Snapshot(grid.field)), grid.frameSize, direction)
    {
      ghost var g := Snapshot(grid.field);
      success := grid.Move(direction, position, value);
      ghost var h := Snapshot(grid.field);
      if success {
        MoveSigns(g, grid.frameSize, direction, grid.baseNumber, grid.percentDoubleBaseOnSpawn, position, value);
      } else {
        assert h == g;
      }
    }

    /** `update_score`. */
    method UpdateScore(moveSuccess: bool)
      requires grid.Valid() && HasTile(Snapshot(grid.field)) && parent != null && parent != this
      modifies this
      ensures moveNo == old(moveNo) && Snapshot(grid.field) == old(Snapshot(grid.field))
      ensures equalNeighbours == Neighbours(Snapshot(grid.field), grid.frameSize)
      ensures score == StateScore(moveSuccess, equalNeighbours, parent.equalNeighbours,
                                 LargestInCorner(Snapshot(grid.field), grid.frameSize), moveNo, grid.score)
    {
      var baseScore: int := 0;
      if !moveSuccess {
        baseScore := baseScore - 100;
      }
      var equal := HasEqualNeighbour();
      baseScore := baseScore + equal * 15;
      if equalNeighbours < parent.equalNeighbours {
        baseScore := baseScore + 100;
      }
      var corner := CheckLargestInCorner();
      if corner {
        baseScore := baseScore + 25;
      }
      assert baseScore == BaseScore(moveSuccess, equal, parent.equalNeighbours, corner);
      score := Weighted(baseScore, moveNo, grid.score);
    }

    /** `has_equal_neighbour`: equal pairs along the rows plus along the columns, which is
        also stored in the state. */
    method HasEqualNeighbour() returns (equal: nat)
      requires grid.Valid()
      modifies this
      ensures equal == Neighbours(Snapshot(grid.field), grid.frameSize)
      ensures equalNeighbours == equal && score == old(score) && moveNo == old(moveNo)
      ensures Snapshot(grid.field) == old(Snapshot(grid.field))
    {
      var g := Snapshot(grid.field);
      var rows := NeighboursChecker(g);
      var columns := NeighboursChecker(Transpose(g, grid.frameSize));
      equal := rows + columns;
      equalNeighbours := equal;
    }

    /** `check_largest_in_corner`: the cells are scanned row by row for the first largest
        positive value, whose position is then compared with the corners. A field without
        a positive tile leaves no position to test (an error in the game). */
    method CheckLargestInCorner() returns (corner: bool)
      requires grid.Valid() && HasTile(Snapshot(grid.field))
      ensures corner <==> LargestInCorner(Snapshot(grid.field), grid.frameSize)
    {
      ghost var g := Snapshot(grid.field);
      var nn := grid.field.Length0;
      var maxPos, maxVal := ScanField();
      ScanDone(g, nn, maxPos, maxVal);
      var p := maxPos.value;
      CornerIsOrigin(g, nn, p);
      corner := (p.0 == 0 || p.0 == nn) && (p.1 == 0 || p.1 == nn);
    }

    /** The scan of `check_largest_in_corner`, row by row, for the first largest value. */
    method ScanField() returns (maxPos: Option<(int, int)>, maxVal: int)
      requires grid.Valid()
      ensures Scanned(Snapshot(grid.field), grid.frameSize, grid.frameSize, 0, maxPos, maxVal)
    {
      ghost var g := Snapshot(grid.field);
      maxPos, maxVal := None, 0;
      var nn := grid.field.Length0;
      for ii := 0 to nn
        invariant Scanned(g, nn, ii, 0, maxPos, maxVal)
      {
        for jj := 0 to nn
          invariant Scanned(g, nn, ii, jj, maxPos, maxVal)
        {
          var value := grid.field[ii, jj];
          ScanCell(g, nn, ii, jj, maxPos, maxVal);
          if value > maxVal {
            maxVal := value;
            maxPos := Some((ii, jj));
          }
        }
        ScanRow(g, nn, ii, maxPos, maxVal);
      }
    }

    /** `copy`: a fresh grid with the same settings gets a copy of the field and the score;
        the new state is a child of this one, reached by `stateMove`. The draws of the fresh
        grid's own start spawn do not matter, since its field is replaced. */
    method Copy(stateMove: int) returns (s: State)
      requires grid.Valid()
      ensures fresh(s) && fresh(s.grid) && fresh(s.grid.field)
      ensures s.parent == this && s.performedMoves == performedMoves + [stateMove]
      ensures s.score == 0 && s.moveNo == 0 && s.equalNeighbours == 0
      ensures s.grid.Valid() && s.grid.newField == null && s.grid.score == grid.score
      ensures s.grid.frameSize == grid.frameSize && s.grid.baseNumber == grid.baseNumber
      ensures s.grid.percentDoubleBaseOnSpawn == grid.percentDoubleBaseOnSpawn
      ensures Snapshot(s.grid.field) == Snapshot(grid.field)
    {
      var newGrid := new GameGrid(grid.frameSize, grid.baseNumber, grid.percentDoubleBaseOnSpawn, [0, 0], [0, 0]);
      newGrid.field := grid.Copy();
      newGrid.score := grid.score;
      s := new State(newGrid, Some(stateMove), this);
    }
  }

  // ---------------------------------------------------------------------------------------
  // The search

  /** The field after a successful move in direction d with the spawn drawn from `draw`. */
  ghost function MovedField(g: Grid, n: nat, d: int, base: int, percent: int, draw: (nat, nat)): (r: Grid)
    requires IsRect(g, n, n)
    ensures IsRect(r, n, n)
  {
    SpawnResult(StackFn(g, n, d), 1, None, base, percent, [draw.0], [draw.1])
  }

  /** Whether direction d changes a field of size n, as a function value. */
  ghost function ChangesOf(n: nat): (Grid, int) -> bool {
    (h: Grid, d: int) => IsRect(h, n, n) && Changes(h, n, d)
  }

  /** The field after a successful move on a field of size n, as a function value. */
  ghost function MoveOf(n: nat, base: int, percent: int): (Grid, int, (nat, nat)) -> Grid {
    (h: Grid, d: int, draw: (nat, nat)) => if IsRect(h, n, n) then MovedField(h, n, d, base, percent, draw) else h
  }

  /** The rules the search follows, as function values: whether a direction changes a field,
      the field after a successful move with a given spawn draw, the score the move gains,
      the number of equal neighbours of a field, and whether its largest tile is in the
      corner. `RulesOf` gives the game's own. */
  datatype Rules = Rules(changes: (Grid, int) -> bool, moved: (Grid, int, (nat, nat)) -> Grid,
                         gain: (Grid, int) -> int, equal: Grid -> int, corner: Grid -> bool)

  /** The game's rules on fields of size n. */
  ghost function RulesOf(n: nat, base: int, percent: int): Rules {
    Rules(ChangesOf(n), MoveOf(n, base, percent),
          (h: Grid, d: int) => if IsRect(h, n, n) then GainFn(h, n, d) else 0,
          (h: Grid) => if IsRect(h, n, n) then Neighbours(h, n) else 0,
          (h: Grid) => IsRect(h, n, n) && LargestInCorner(h, n))
  }

  /** `rules` agree with the game's rules on fields of size n. */
  ghost predicate GameRules(rules: Rules, n: nat, base: int, percent: int) {
    && (forall h, d {:trigger Changes(h, n, d)} :: IsRect(h, n, n) ==> rules.changes(h, d) == Changes(h, n, d))
    && (forall h, d, draw {:trigger MovedField(h, n, d, base, percent, draw)} ::
          IsRect(h, n, n) ==> rules.moved(h, d, draw) == MovedField(h, n, d, base, percent, draw))
    && (forall h, d {:trigger GainFn(h, n, d)} :: IsRect(h, n, n) ==> rules.gain(h, d) == GainFn(h, n, d))
    && (forall h {:trigger Neighbours(h, n)} :: IsRect(h, n, n) ==> rules.equal(h) == Neighbours(h, n))
    && (forall h {:trigger LargestInCorner(h, n)} :: IsRect(h, n, n) ==> rules.corner(h) == LargestInCorner(h, n))
  }

  lemma GameRulesOf(n: nat, base: int, percent: int)
    ensures GameRules(RulesOf(n, base, percent), n, base, percent)
  {
  }

  /** The moves of the states `lookup` records below a state on field g reached by moves
      `root`, in the order it records them: every sequence of `depth` successful moves, the
      directions tried in the order 0, 1, 2, 3 at every level. Whether a direction succeeds
      and the field it leads to are given by `changes` and `moved` (`ChangesOf` and `MoveOf`
      for the game). */
  ghost function Paths(g: Grid, root: seq<int>, depth: nat, draws: seq<int> -> (nat, nat),
                       changes: (Grid, int) -> bool, moved: (Grid, int, (nat, nat)) -> Grid): seq<seq<int>>
    decreases depth, 1, 0, 0
  {
    if depth == 0 then [root] else PathsBefore(g, root, depth, draws, changes, moved, 4)
  }

  /** The part of `Paths` that lies below the directions before `dirs`. */
  ghost function PathsBefore(g: Grid, root: seq<int>, depth: nat, draws: seq<int> -> (nat, nat),
                             changes: (Grid, int) -> bool, moved: (Grid, int, (nat, nat)) -> Grid, dirs: nat): seq<seq<int>>
    requires depth > 0 && dirs <= 4
    decreases depth, 0, dirs, 1
  {
    if dirs == 0 then []
    else
      PathsBefore(g, root, depth, draws, changes, moved, dirs - 1) + Branch(g, root, depth, draws, changes, moved, dirs - 1)
  }

  /** The part of `Paths` below direction d: nothing when d does not change the field. */
  ghost function Branch(g: Grid, root: seq<int>, depth: nat, draws: seq<int> -> (nat, nat),
                        changes: (Grid, int) -> bool, moved: (Grid, int, (nat, nat)) -> Grid, d: int): seq<seq<int>>
    requires depth > 0 && 0 <= d < 4
    decreases depth, 0, d + 1, 0
  {
    if changes(g, d) then Paths(moved(g, d, draws(root + [d])), root + [d], depth - 1, draws, changes, moved) else []
  }

  /** Every entry is a direction. */
  predicate Directions(ms: seq<int>) {
    forall k :: 0 <= k < |ms| ==> 0 <= ms[k] < 4
  }

  /** p extends `root` by exactly `depth` directions. */
  predicate ExtendsBy(p: seq<int>, root: seq<int>, depth: nat) {
    |p| == |root| + depth && p[..|root|] == root && Directions(p[|root|..])
  }

  /** Extending root + [d] by depth - 1 directions extends root by depth directions. */
  lemma ExtendsStep(p: seq<int>, root: seq<int>, d: int, depth: nat)
    requires 0 <= d < 4 && depth > 0 && ExtendsBy(p, root + [d], depth - 1)
    ensures ExtendsBy(p, root, depth)
  {
    var m := |root|;
    assert p[..m] == p[..m + 1][..m];
    assert p[m..] == [d] + p[m + 1..];
  }

  /** Every recorded sequence of moves extends the root by `depth` directions. */
  lemma {:induction false} PathsShape(g: Grid, root: seq<int>, depth: nat, draws: seq<int> -> (nat, nat),
                                      changes: (Grid, int) -> bool, moved: (Grid, int, (nat, nat)) -> Grid)
    ensures forall k :: 0 <= k < |Paths(g, root, depth, draws, changes, moved)| ==>
              ExtendsBy(Paths(g, root, depth, draws, changes, moved)[k], root, depth)
    decreases depth, 1, 0
  {
    if depth == 0 {
      assert root[..|root|] == root && root[|root|..] == [];
    } else {
      PathsBeforeShape(g, root, depth, draws, changes, moved, 4);
    }
  }

  lemma {:induction false} PathsBeforeShape(g: Grid, root: seq<int>, depth: nat, draws: seq<int> -> (nat, nat),
                                            changes: (Grid, int) -> bool, moved: (Grid, int, (nat, nat)) -> Grid,
                                            dirs: nat)
    requires depth > 0 && dirs <= 4
    ensures forall k :: 0 <= k < |PathsBefore(g, root, depth, draws, changes, moved, dirs)| ==>
              ExtendsBy(PathsBefore(g, root, depth, draws, changes, moved, dirs)[k], root, depth)
    decreases depth, 0, dirs
  {
    if dirs > 0 {
      var d := dirs - 1;
      PathsBeforeShape(g, root, depth, draws, changes, moved, d);
      if changes(g, d) {
        var c := moved(g, d, draws(root + [d]));
        PathsShape(c, root + [d], depth - 1, draws, changes, moved);
        var below := Paths(c, root + [d], depth - 1, draws, changes, moved);
        forall k | 0 <= k < |below| ensures ExtendsBy(below[k], root, depth) {
          ExtendsStep(below[k], root, d, depth);
        }
      }
    }
  }

  /** 4 to the power k. */
  function Pow4(k: nat): (r: nat)
    ensures r >= 1
  {
    if k == 0 then 1 else 4 * Pow4(k - 1)
  }

  /** At most 4^depth states are recorded. */
  lemma {:induction false} PathsCount(g: Grid, root: seq<int>, depth: nat, draws: seq<int> -> (nat, nat),
                                      changes: (Grid, int) -> bool, moved: (Grid, int, (nat, nat)) -> Grid)
    ensures |Paths(g, root, depth, draws, changes, moved)| <= Pow4(depth)
    decreases depth, 1, 0
  {
    if depth > 0 {
      PathsBeforeCount(g, root, depth, draws, changes, moved, 4);
    }
  }

  lemma {:induction false} PathsBeforeCount(g: Grid, root: seq<int>, depth: nat, draws: seq<int> -> (nat, nat),
                                            changes: (Grid, int) -> bool, moved: (Grid, int, (nat, nat)) -> Grid,
                                            dirs: nat)
    requires depth > 0 && dirs <= 4
    ensures |PathsBefore(g, root, depth, draws, changes, moved, dirs)| <= dirs * Pow4(depth - 1)
    decreases depth, 0, dirs
  {
    if dirs > 0 {
      var d := dirs - 1;
      PathsBeforeCount(g, root, depth, draws, changes, moved, d);
      var p := Pow4(depth - 1);
      assert dirs * p == d * p + p;
      if changes(g, d) {
        PathsCount(moved(g, d, draws(root + [d])), root + [d], depth - 1, draws, changes, moved);
      }
    }
  }

  /** One move ahead, exactly the directions that change the field are recorded, in order. */
  lemma OneMoveAhead(g: Grid, root: seq<int>, draws: seq<int> -> (nat, nat),
                     changes: (Grid, int) -> bool, moved: (Grid, int, (nat, nat)) -> Grid)
    ensures Paths(g, root, 1, draws, changes, moved) ==
              (if changes(g, 0) then [root + [0]] else []) + (if changes(g, 1) then [root + [1]] else [])
              + (if changes(g, 2) then [root + [2]] else []) + (if changes(g, 3) then [root + [3]] else [])
  {
    assert Paths(g, root, 1, draws, changes, moved) == PathsBefore(g, root, 1, draws, changes, moved, 4);
  }

  /** In the game, nothing is recorded one move ahead exactly when the game is over. */
  lemma OneMoveAheadOver(g: Grid, n: nat, base: int, percent: int, root: seq<int>, draws: seq<int> -> (nat, nat))
    requires IsRect(g, n, n)
    ensures Paths(g, root, 1, draws, ChangesOf(n), MoveOf(n, base, percent)) == [] <==> FirstChange(g, n, 0) == 4
  {
    OneMoveAhead(g, root, draws, ChangesOf(n), MoveOf(n, base, percent));
    var c := ChangesOf(n);
    assert FirstChange(g, n, 0) == 4 <==> !Changes(g, n, 0) && !Changes(g, n, 1) && !Changes(g, n, 2) && !Changes(g, n, 3);
    assert c(g, 0) == Changes(g, n, 0) && c(g, 1) == Changes(g, n, 1) && c(g, 2) == Changes(g, n, 2) && c(g, 3) == Changes(g, n, 3);
  }

  /** What a state holds, as a value: its moves, its grid's field and score, its move
      counter, its count of equal neighbours and its score. */
  datatype Leaf = Leaf(moves: seq<int>, field: Grid, gridScore: int, moveNo: int, equal: int, score: int)

  /** The copy of the state `self` that made the successful move d, with the spawn drawn for
      its moves: `copy` takes the moves, the field and the grid's score and resets the move
      counter, and `move` gains the score of d, counts one move, counts the equal
      neighbours of the new field and scores a successful move against `self`'s count. */
  ghost function Child(self: Leaf, d: int, draws: seq<int> -> (nat, nat), rules: Rules): (c: Leaf)
    ensures c.moves == self.moves + [d] && c.moveNo == 1
  {
    var moves := self.moves + [d];
    var field := rules.moved(self.field, d, draws(moves));
    var gridScore := self.gridScore + rules.gain(self.field, d);
    var equal := rules.equal(field);
    Leaf(moves, field, gridScore, 1, equal, StateScore(true, equal, self.equal, rules.corner(field), 1, gridScore))
  }

  /** The score of a state after its first successful move. */
  lemma SuccessScore(score: int, equal: int, parentEqual: int, before: int, corner: bool, moveNo: int, gridScore: int)
    requires score == StateScore(true, equal, parentEqual, corner, moveNo, gridScore)
    requires parentEqual == before && moveNo == 1
    ensures score == StateScore(true, equal, before, corner, 1, gridScore)
  {
  }

  /** The child under the game's rules, given its parts. */
  lemma GameChild(self: Leaf, d: int, draws: seq<int> -> (nat, nat), rules: Rules, n: nat, base: int, percent: int,
                  field: Grid, gridScore: int, equal: int, score: int)
    requires GameRules(rules, n, base, percent) && IsRect(self.field, n, n)
    requires field == MovedField(self.field, n, d, base, percent, draws(self.moves + [d]))
    requires gridScore == self.gridScore + GainFn(self.field, n, d) && equal == Neighbours(field, n)
    requires score == StateScore(true, equal, self.equal, LargestInCorner(field, n), 1, gridScore)
    ensures Child(self, d, draws, rules) == Leaf(self.moves + [d], field, gridScore, 1, equal, score)
  {
  }

  /** The states `lookup` records below the state `self`, as values and in the order it
      records them: `self` at depth 0, otherwise, for the directions 0, 1, 2, 3 in turn, the
      states below the child of every direction that changes the field. */
  ghost function Leaves(self: Leaf, depth: nat, draws: seq<int> -> (nat, nat), rules: Rules): seq<Leaf>
    decreases depth, 1, 0
  {
    if depth == 0 then [self] else LeavesBefore(self, depth, draws, rules, 4)
  }

  /** The part of `Leaves` that lies below the directions before `dirs`. */
  ghost function LeavesBefore(self: Leaf, depth: nat, draws: seq<int> -> (nat, nat), rules: Rules, dirs: nat): seq<Leaf>
    requires depth > 0 && dirs <= 4
    decreases depth, 0, dirs, 1
  {
    if dirs == 0 then [] else LeavesBefore(self, depth, draws, rules, dirs - 1) + LeavesBranch(self, depth, draws, rules, dirs - 1)
  }

  /** The part of `Leaves` below direction d. */
  ghost function LeavesBranch(self: Leaf, depth: nat, draws: seq<int> -> (nat, nat), rules: Rules, d: int): seq<Leaf>
    requires depth > 0 && 0 <= d < 4
    decreases depth, 0, d + 1, 0
  {
    if rules.changes(self.field, d) then Leaves(Child(self, d, draws, rules), depth - 1, draws, rules) else []
  }

  /** One more direction adds its branch. */
  lemma LeavesBeforeStep(self: Leaf, depth: nat, draws: seq<int> -> (nat, nat), rules: Rules, d: nat,
                         done: seq<Leaf>, branch: seq<Leaf>)
    requires depth > 0 && d < 4
    requires done == LeavesBefore(self, depth, draws, rules, d) && branch == LeavesBranch(self, depth, draws, rules, d)
    ensures LeavesBefore(self, depth, draws, rules, d + 1) == done + branch
  {
  }

  /** The moves of a list of recorded states. */
  function LeafMoves(ls: seq<Leaf>): (r: seq<seq<int>>)
    ensures |r| == |ls| && forall k :: 0 <= k < |ls| ==> r[k] == ls[k].moves
  {
    seq(|ls|, (k: int) requires 0 <= k < |ls| => ls[k].moves)
  }

  lemma LeafMovesAppend(a: seq<Leaf>, b: seq<Leaf>)
    ensures LeafMoves(a + b) == LeafMoves(a) + LeafMoves(b)
  {
  }

  /** The moves of the recorded states are `Paths`. */
  lemma {:induction false} LeavesMoves(self: Leaf, depth: nat, draws: seq<int> -> (nat, nat), rules: Rules)
    ensures LeafMoves(Leaves(self, depth, draws, rules)) == Paths(self.field, self.moves, depth, draws, rules.changes, rules.moved)
    decreases depth, 1
  {
    if depth > 0 {
      LeavesBeforeMoves(self, depth, draws, rules, 4);
    }
  }

  lemma {:induction false} LeavesBeforeMoves(self: Leaf, depth: nat, draws: seq<int> -> (nat, nat), rules: Rules, dirs: nat)
    requires depth > 0 && dirs <= 4
    ensures LeafMoves(LeavesBefore(self, depth, draws, rules, dirs)) ==
              PathsBefore(self.field, self.moves, depth, draws, rules.changes, rules.moved, dirs)
    decreases depth, 0, dirs
  {
    if dirs > 0 {
      var d := dirs - 1;
      LeavesBeforeMoves(self, depth, draws, rules, d);
      LeafMovesAppend(LeavesBefore(self, depth, draws, rules, d), LeavesBranch(self, depth, draws, rules, d));
      if rules.changes(self.field, d) {
        LeavesMoves(Child(self, d, draws, rules), depth - 1, draws, rules);
      } else {
        assert LeavesBranch(self, depth, draws, rules, d) == [];
      }
    }
  }

  /** The heuristic of a successful move is the 15 per equal pair plus one of the bonuses
      0, 25, 100 or 125; there is no penalty. */
  predicate SuccessBonus(score: int, gridScore: int, equal: int) {
    var bonus := score - gridScore - 15 * equal;
    bonus == 0 || bonus == 25 || bonus == 100 || bonus == 125
  }

  /** Every state recorded below the root has made exactly one move since it was copied, so
      the weighting of the heuristic by `move_no` has no effect: its score is its grid's
      score, 15 per equal pair of its field, and the bonuses of a successful move. */
  lemma {:induction false} LeavesScores(self: Leaf, depth: nat, draws: seq<int> -> (nat, nat), rules: Rules)
    requires depth > 0
    ensures forall l :: l in Leaves(self, depth, draws, rules) ==>
              l.moveNo == 1 && l.equal == rules.equal(l.field) && SuccessBonus(l.score, l.gridScore, l.equal)
    decreases depth, 1
  {
    LeavesBeforeScores(self, depth, draws, rules, 4);
  }

  lemma {:induction false} LeavesBeforeScores(self: Leaf, depth: nat, draws: seq<int> -> (nat, nat), rules: Rules, dirs: nat)
    requires depth > 0 && dirs <= 4
    ensures forall l :: l in LeavesBefore(self, depth, draws, rules, dirs) ==>
              l.moveNo == 1 && l.equal == rules.equal(l.field) && SuccessBonus(l.score, l.gridScore, l.equal)
    decreases depth, 0, dirs
  {
    if dirs > 0 {
      var d := dirs - 1;
      LeavesBeforeScores(self, depth, draws, rules, d);
      if rules.changes(self.field, d) {
        var c := Child(self, d, draws, rules);
        if depth > 1 {
          LeavesScores(c, depth - 1, draws, rules);
        } else {
          assert Leaves(c, 0, draws, rules) == [c];
        }
      }
    }
  }

  lemma LeavesJoin(all: seq<Leaf>, before: seq<Leaf>, added: seq<Leaf>, done: seq<Leaf>, branch: seq<Leaf>)
    requires all == before + added && before == done && added == branch
    ensures all == done + branch
  {
  }

  /** Appending one part after another. */
  lemma LeavesChain(all: seq<Leaf>, start: seq<Leaf>, done: seq<Leaf>, branch: seq<Leaf>, before: seq<Leaf>, after: seq<Leaf>)
    requires before == start + done && after == done + branch && all == before + branch
    ensures all == start + after
  {
  }

  /** A state as a value. */
  function View(s: State): Leaf
    reads s, s.grid, s.grid.field
  {
    Leaf(s.performedMoves, Snapshot(s.grid.field), s.grid.score, s.moveNo, s.equalNeighbours, s.score)
  }

  /** A list of states as values. */
  function Views(ss: seq<State>): (r: seq<Leaf>)
    reads set s | s in ss, set s | s in ss :: s.grid, set s | s in ss :: s.grid.field
    ensures |r| == |ss|
  {
    seq(|ss|, (k: int) requires 0 <= k < |ss| reads set s | s in ss, set s | s in ss :: s.grid, set s | s in ss :: s.grid.field
                => View(ss[k]))
  }

  lemma ViewsAppend(a: seq<State>, b: seq<State>)
    ensures Views(a + b) == Views(a) + Views(b)
  {
  }

  lemma ViewsMoves(ss: seq<State>)
    ensures LeafMoves(Views(ss)) == MovesOf(ss)
  {
  }

  /** The moves of a list of states. */
  function MovesOf(ss: seq<State>): (r: seq<seq<int>>)
    ensures |r| == |ss| && forall k :: 0 <= k < |ss| ==> r[k] == ss[k].performedMoves
  {
    seq(|ss|, (k: int) requires 0 <= k < |ss| => ss[k].performedMoves)
  }

  /** Appending to a list of states appends to the moves of every suffix. */
  lemma MovesOfExtend(before: seq<State>, after: seq<State>, o: nat)
    requires o <= |before| <= |after| && after[..|before|] == before
    ensures after[..o] == before[..o]
    ensures MovesOf(after[o..]) == MovesOf(before[o..]) + MovesOf(after[|before|..])
  {
    assert after[o..] == before[o..] + after[|before|..];
  }

  /** The scores of a list of states. */
  function Scores(ss: seq<State>): (r: seq<int>)
    reads set s | s in ss
    ensures |r| == |ss| && forall k :: 0 <= k < |ss| ==> r[k] == ss[k].score
  {
    seq(|ss|, (k: int) requires 0 <= k < |ss| reads set s | s in ss => ss[k].score)
  }

  /** The position of the first maximum, as Python's `max` returns it. */
  function FirstMaxIndex(xs: seq<int>): (k: nat)
    requires |xs| > 0
    ensures k < |xs|
    ensures forall j :: 0 <= j < |xs| ==> xs[j] <= xs[k]
    ensures forall j :: 0 <= j < k ==> xs[j] < xs[k]
  {
    if |xs| == 1 then 0
    else
      var k := FirstMaxIndex(xs[..|xs| - 1]);
      if xs[|xs| - 1] > xs[k] then |xs| - 1 else k
  }

  /** `max(states, key=lambda s: s.score)`: the first state of maximal score. */
  function MaxByScore(ss: seq<State>): (best: State)
    requires |ss| > 0
    reads set s | s in ss
    ensures best in ss && forall s :: s in ss ==> s.score <= best.score
    ensures exists k :: 0 <= k < |ss| && ss[k] == best && forall j :: 0 <= j < k ==> ss[j].score < best.score
  {
    ss[FirstMaxIndex(Scores(ss))]
  }

  /** The `ValueError` of `Agent(grid, ui)`: raised exactly when neither a grid nor a UI is
      given. */
  function AgentArgumentError(hasGrid: bool, hasUi: bool): (error: Option<string>)
    ensures error.None? <==> hasGrid || hasUi
    ensures error.Some? ==> error.value == "Either a GameGrid or a GameUI have to be supplied."
  {
    if !hasGrid && !hasUi then Some("Either a GameGrid or a GameUI have to be supplied.") else None
  }

  /** `Agent(grid, ui)`: the error is raised, or a new agent is built. */
  method NewAgent(grid: GameGrid?, ui: bool) returns (agent: Agent?, error: Option<string>)
    ensures error == AgentArgumentError(grid != null, ui)
    ensures error.Some? <==> agent == null
    ensures agent != null ==> fresh(agent) && agent.grid == grid && agent.ui == ui && agent.states == []
  {
    error := AgentArgumentError(grid != null, ui);
    if error.Some? {
      agent := null;
    } else {
      agent := new Agent(grid, ui);
    }
  }

  /** The search agent; the game UI is not part of this model, only whether one was given. */
  class Agent {
    const grid: GameGrid?
    const ui: bool
    var states: seq<State>

    /** A grid or a UI has to be supplied. */
    constructor (grid: GameGrid?, ui: bool)
      requires grid != null || ui
      ensures this.grid == grid && this.ui == ui && states == []
    {
      this.grid := grid;
      this.ui := ui;
      states := [];
    }

    /** `lookup`: at depth 0 the state is recorded; otherwise each direction 0 to 3 is tried
        on a copy of the state, and the search goes on below every copy whose move
        succeeded. The spawn of the move that leads to moves m is drawn from draws(m). The
        states recorded are new states (apart from `state` itself at depth 0) holding what
        `Leaves` says, in its order. */
    method Lookup(state: State, depth: nat, draws: seq<int> -> (nat, nat), ghost rules: Rules)
      requires state.grid.Valid() && state.grid.baseNumber >= 0
      requires GameRules(rules, state.grid.frameSize, state.grid.baseNumber, state.grid.percentDoubleBaseOnSpawn)
      requires NonNegative(Snapshot(state.grid.field)) && (depth > 0 ==> HasTile(Snapshot(state.grid.field)))
      modifies this
      decreases depth, 2
      ensures |states| >= |old(states)| && states[..|old(states)|] == old(states)
      ensures Views(states) == old(Views(states)) + Leaves(View(state), depth, draws, rules)
      ensures depth == 0 ==> states == old(states) + [state]
      ensures depth > 0 ==> forall k :: |old(states)| <= k < |states| ==> fresh(states[k])
      ensures View(state) == old(View(state))
    {
      if depth == 0 {
        ghost var done := Views(states);
        states := states + [state];
        ViewsAppend(old(states), [state]);
        assert Views(old(states)) == done;
      } else {
        LookupDirections(state, depth, draws, rules);
      }
    }

    /** The loop of `lookup` over the directions 0 to 3. */
    method LookupDirections(state: State, depth: nat, draws: seq<int> -> (nat, nat), ghost rules: Rules)
      requires state.grid.Valid() && state.grid.baseNumber >= 0 && depth > 0
      requires GameRules(rules, state.grid.frameSize, state.grid.baseNumber, state.grid.percentDoubleBaseOnSpawn)
      requires NonNegative(Snapshot(state.grid.field)) && HasTile(Snapshot(state.grid.field))
      modifies this
      decreases depth, 1
      ensures |states| >= |old(states)| && states[..|old(states)|] == old(states)
      ensures Views(states) == old(Views(states)) + LeavesBefore(View(state), depth, draws, rules, 4)
      ensures forall k :: |old(states)| <= k < |states| ==> fresh(states[k])
      ensures View(state) == old(View(state))
    {
      ghost var self, start := View(state), Views(states);
      for ii := 0 to 4
        invariant |states| >= |old(states)| && states[..|old(states)|] == old(states)
        invariant View(state) == self
        invariant Views(states) == start + LeavesBefore(self, depth, draws, rules, ii)
        invariant forall k :: |old(states)| <= k < |states| ==> fresh(states[k])
      {
        ghost var done, branch := LeavesBefore(self, depth, draws, rules, ii), LeavesBranch(self, depth, draws, rules, ii);
        ghost var views := Views(states);
        LookupDirection(state, ii, depth, draws, rules);
        LeavesBeforeStep(self, depth, draws, rules, ii, done, branch);
        LeavesChain(Views(states), start, done, branch, views, LeavesBefore(self, depth, draws, rules, ii + 1));
      }
    }

    /** One round of `lookup`'s loop: a copy of the state makes the move in direction ii, and
        the search goes on below it when it succeeded. */
    method LookupDirection(state: State, ii: int, depth: nat, draws: seq<int> -> (nat, nat), ghost rules: Rules)
      requires state.grid.Valid() && state.grid.baseNumber >= 0 && depth > 0 && 0 <= ii < 4
      requires GameRules(rules, state.grid.frameSize, state.grid.baseNumber, state.grid.percentDoubleBaseOnSpawn)
      requires NonNegative(Snapshot(state.grid.field)) && HasTile(Snapshot(state.grid.field))
      modifies this
      decreases depth, 0
      ensures |states| >= |old(states)| && states[..|old(states)|] == old(states)
      ensures Views(states) == old(Views(states)) + LeavesBranch(View(state), depth, draws, rules, ii)
      ensures forall k :: |old(states)| <= k < |states| ==> fresh(states[k])
      ensures View(state) == old(View(state))
    {
      ghost var self, done := View(state), Views(states);
      ghost var branch := LeavesBranch(self, depth, draws, rules, ii);
      var newState, success := TryMove(state, ii, draws, rules);
      ghost var mid := Views(states);
      assert mid == done && View(state) == self;
      if success {
        assert branch == Leaves(View(newState), depth - 1, draws, rules);
        Descend(newState, depth - 1, draws, rules, branch);
      } else {
        assert branch == [] && mid + branch == mid;
      }
      assert View(state) == self;
      LeavesJoin(Views(states), mid, branch, done, LeavesBranch(View(state), depth, draws, rules, ii));
    }

    /** The search below a state that a successful move has just made. */
    method Descend(child: State, depth: nat, draws: seq<int> -> (nat, nat), ghost rules: Rules, ghost below: seq<Leaf>)
      requires child.grid.Valid() && child.grid.baseNumber >= 0
      requires GameRules(rules, child.grid.frameSize, child.grid.baseNumber, child.grid.percentDoubleBaseOnSpawn)
      requires NonNegative(Snapshot(child.grid.field)) && HasTile(Snapshot(child.grid.field))
      requires below == Leaves(View(child), depth, draws, rules)
      modifies this
      decreases depth, 3
      ensures |states| >= |old(states)| && states[..|old(states)|] == old(states)
      ensures Views(states) == old(Views(states)) + below
      ensures forall k :: |old(states)| <= k < |states| ==> fresh(states[k]) || states[k] == child
      ensures View(child) == old(View(child))
    {
      ghost var before := Views(states);
      Lookup(child, depth, draws, rules);
      LeavesJoin(Views(states), before, Leaves(View(child), depth, draws, rules), before, below);
    }

    /** One round of `lookup`'s loop: a copy of the state, one move below it, makes the move
        in direction ii with the spawn drawn for its moves; after a successful move it holds
        the `Child` of the state. */
    method TryMove(state: State, ii: int, draws: seq<int> -> (nat, nat), ghost rules: Rules)
      returns (newState: State, success: bool)
      requires state.grid.Valid() && state.grid.baseNumber >= 0
      requires GameRules(rules, state.grid.frameSize, state.grid.baseNumber, state.grid.percentDoubleBaseOnSpawn)
      requires NonNegative(Snapshot(state.grid.field)) && HasTile(Snapshot(state.grid.field))
      ensures fresh(newState) && newState.parent == state && newState.performedMoves == state.performedMoves + [ii]
      ensures newState.grid.Valid() && newState.grid.baseNumber == state.grid.baseNumber
      ensures newState.grid.frameSize == state.grid.frameSize
      ensures newState.grid.percentDoubleBaseOnSpawn == state.grid.percentDoubleBaseOnSpawn
      ensures NonNegative(Snapshot(newState.grid.field)) && HasTile(Snapshot(newState.grid.field))
      ensures success == rules.changes(Snapshot(state.grid.field), ii)
      ensures success ==> View(newState) == Child(View(state), ii, draws, rules)
      ensures View(state) == old(View(state))
    {
      newState := state.Copy(ii);
      success := MoveCopy(state, newState, ii, draws, rules);
    }

    /** The move of `child`, a copy of `state` one move below it, in direction ii with the
        spawn drawn for the child's moves. */
    method MoveCopy(state: State, child: State, ii: int, draws: seq<int> -> (nat, nat), ghost rules: Rules)
      returns (success: bool)
      requires state.grid.baseNumber >= 0
      requires GameRules(rules, state.grid.frameSize, state.grid.baseNumber, state.grid.percentDoubleBaseOnSpawn)
      requires NonNegative(Snapshot(state.grid.field)) && HasTile(Snapshot(state.grid.field))
      requires child.parent == state && child != state && child.grid != state.grid && child.grid.Valid()
      requires child.performedMoves == state.performedMoves + [ii]
      requires child.grid.frameSize == state.grid.frameSize && child.grid.baseNumber == state.grid.baseNumber
      requires child.grid.percentDoubleBaseOnSpawn == state.grid.percentDoubleBaseOnSpawn
      requires Snapshot(child.grid.field) == Snapshot(state.grid.field)
      requires child.grid.score == state.grid.score && child.moveNo == 0
      modifies child, child.grid
      ensures child.grid.Valid() && NonNegative(Snapshot(child.grid.field)) && HasTile(Snapshot(child.grid.field))
      ensures success == rules.changes(Snapshot(state.grid.field), ii)
      ensures success ==> View(child) == Child(View(state), ii, draws, rules)
      ensures View(state) == old(View(state))
    {
      ghost var self := View(state);
      ghost var n, base, percent := state.grid.frameSize, state.grid.baseNumber, state.grid.percentDoubleBaseOnSpawn;
      ghost var parentEqual := state.equalNeighbours;
      var (position, value) := draws(child.performedMoves);
      ghost var count := child.moveNo;
      assert count == 0;
      success := child.Move(ii, position, value);
      assert child.moveNo == count + 1 == 1;
      assert View(state) == self && state.equalNeighbours == parentEqual;
      if success {
        ghost var f := Snapshot(child.grid.field);
        assert f == MovedField(self.field, n, ii, base, percent, (position, value));
        assert child.grid.score == self.gridScore + GainFn(self.field, n, ii);
        assert child.equalNeighbours == Neighbours(f, n);
        ghost var score, moveNo, equal, gridScore := child.score, child.moveNo, child.equalNeighbours, child.grid.score;
        SuccessScore(score, equal, child.parent.equalNeighbours, parentEqual, LargestInCorner(f, n), moveNo, gridScore);
        GameChild(self, ii, draws, rules, n, base, percent, f, gridScore, equal, score);
      }
    }

    /** `depth_search`: the states `depth` successful moves below `state` are collected, and
        the first one of maximal score is returned; `state` itself when there is none. */
    method DepthSearch(state: State, depth: nat, draws: seq<int> -> (nat, nat), ghost rules: Rules)
      returns (best: State)
      requires state.grid.Valid() && state.grid.baseNumber >= 0
      requires GameRules(rules, state.grid.frameSize, state.grid.baseNumber, state.grid.percentDoubleBaseOnSpawn)
      requires NonNegative(Snapshot(state.grid.field)) && (depth > 0 ==> HasTile(Snapshot(state.grid.field)))
      modifies this
      ensures Views(states) == Leaves(View(state), depth, draws, rules)
      ensures MovesOf(states) == Paths(Snapshot(state.grid.field), state.performedMoves, depth, draws, rules.changes, rules.moved)
      ensures depth == 0 ==> states == [state]
      ensures depth > 0 ==> forall k :: 0 <= k < |states| ==> fresh(states[k])
      ensures depth > 0 ==> forall k :: 0 <= k < |states| ==>
                states[k].moveNo == 1 && SuccessBonus(states[k].score, states[k].grid.score, states[k].equalNeighbours)
      ensures |states| == 0 ==> best == state
      ensures |states| > 0 ==> best == states[FirstMaxIndex(Scores(states))]
    {
      states := [];
      assert Views(states) == [];
      ghost var leaves := Leaves(View(state), depth, draws, rules);
      Lookup(state, depth, draws, rules);
      assert [] + leaves == leaves;
      assert Views(states) == leaves;
      ViewsMoves(states);
      LeavesMoves(View(state), depth, draws, rules);
      assert MovesOf(states) == Paths(Snapshot(state.grid.field), state.performedMoves, depth, draws, rules.changes, rules.moved);
      assert depth > 0 ==> forall k :: 0 <= k < |states| ==> fresh(states[k]);
      if depth > 0 {
        LeavesScores(View(state), depth, draws, rules);
        forall k | 0 <= k < |states|
          ensures states[k].moveNo == 1 && SuccessBonus(states[k].score, states[k].grid.score, states[k].equalNeighbours)
        {
          assert Views(states)[k] == View(states[k]) && Views(states)[k] in leaves;
        }
      }
      if |states| == 0 {
        return state;
      }
      best := MaxByScore(states);
    }

    /** `step`: the search starts from a fresh root state on `grid`; the best state's first
        move is returned, or -1 when it has none, which is when the depth is 0 or no
        sequence of `depth` successful moves exists. The root state has no equal neighbours
        counted yet, so the first move of every line is scored against 0. */
    method Step(grid: GameGrid, depth: nat, draws: seq<int> -> (nat, nat)) returns (best: State, move: int)
      requires grid.Valid() && grid.baseNumber >= 0
      requires NonNegative(Snapshot(grid.field)) && (depth > 0 ==> HasTile(Snapshot(grid.field)))
      modifies this
      ensures Views(states) == Leaves(Leaf([], Snapshot(grid.field), grid.score, 0, 0, 0), depth, draws,
                                      RulesOf(grid.frameSize, grid.baseNumber, grid.percentDoubleBaseOnSpawn))
      ensures MovesOf(states) ==
                Paths(Snapshot(grid.field), [], depth, draws, ChangesOf(grid.frameSize),
                      MoveOf(grid.frameSize, grid.baseNumber, grid.percentDoubleBaseOnSpawn))
      ensures depth > 0 ==> forall k :: 0 <= k < |states| ==> fresh(states[k])
      ensures move == -1 <==> depth == 0 || |states| == 0
      ensures move != -1 ==> && |best.performedMoves| == depth && move == best.performedMoves[0] && 0 <= move < 4
                             && best == states[FirstMaxIndex(Scores(states))]
      ensures move == -1 ==> best.performedMoves == [] && best.grid == grid
    {
      var state := new State(grid, None, null);
      ghost var rules := RulesOf(grid.frameSize, grid.baseNumber, grid.percentDoubleBaseOnSpawn);
      GameRulesOf(grid.frameSize, grid.baseNumber, grid.percentDoubleBaseOnSpawn);
      best := DepthSearch(state, depth, draws, rules);
      PathsShape(Snapshot(grid.field), [], depth, draws, rules.changes, rules.moved);
      if |states| > 0 {
        var k := FirstMaxIndex(Scores(states));
        assert ExtendsBy(MovesOf(states)[k], [], depth);
        assert best.performedMoves[0..] == best.performedMoves;
      }
      if |best.performedMoves| > 0 {
        move := best.performedMoves[0];
      } else {
        move := -1;
      }
    }
  }
}
