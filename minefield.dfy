/** The Minesweeper engine (Minesweeper/minefield.py). One integer grid holds the whole
    game state:
      0..8         a hidden cell with that many neighbouring mines (its hint),
      9            a hidden mine,
      -v           a flagged cell of value v (flagging multiplies by -1, so a flagged 0 stays 0),
      100 + v      a revealed cell,
      99           the detonated mine; on a loss every other cell has had 100 added. */
module Mines {
  import opened Grids
  import opened Oracle
  import opened Options

  const MINE: int := 9
  const DETONATED: int := 99
  const REVEALED: int := 100

  /** `amount_mines = max(1, int(h * w * percent / 100))`. For a product below 200 this is 1;
      otherwise the whole number of hundreds in h * w * percent. (Truncation and flooring agree
      here: a negative product is below 200 either way.) */
  function AmountMines(h: int, w: int, percent: int): (r: int)
    ensures r >= 1
    ensures r == 1 || r * 100 <= h * w * percent
    ensures h * w * percent < (r + 1) * 100
  {
    var p := h * w * percent;
    if p / 100 > 1 then p / 100 else 1
  }

  // ---------------------------------------------------------------------------------------
  // Setup: `spawn_mines` and `setup_hints` as functions of the caller-supplied draws

  /** The grid after `spawn_mines`: for each draw in turn, the drawn position is set to the
      marker 1. Draws are with replacement, so two draws may hit the same cell. */
  function Marks(g: Grid, positions: seq<(int, int)>, draws: seq<nat>): (r: Grid)
    requires |positions| > 0
    requires forall k :: 0 <= k < |positions| ==> InBounds(g, positions[k].0, positions[k].1)
    ensures |r| == |g| && forall i :: 0 <= i < |g| ==> |r[i]| == |g[i]|
    decreases |draws|
  {
    if |draws| == 0 then g
    else
      var p := positions[Choice(|positions|, draws[|draws| - 1])];
      Update(Marks(g, positions, draws[..|draws| - 1]), p.0, p.1, 1)
  }

  /** `spawn_mines` on grid `g`: the draws pick among the zero cells of `g`. */
  function Spawned(g: Grid, draws: seq<nat>): (r: Grid)
    requires |ZeroCells(g)| > 0
    ensures |r| == |g| && forall i :: 0 <= i < |g| ==> |r[i]| == |g[i]|
  {
    ZeroCellsSpec(g);
    Marks(g, ZeroCells(g), draws)
  }

  /** The markers placed on a fresh h x w field: `spawn_positions` is every cell. */
  function MineMarks(h: int, w: int, draws: seq<nat>): (m: Grid)
    requires h >= 1 && w >= 1
    ensures IsRect(m, h, w)
  {
    var z := Zeros(h, w);
    ZeroCellsSpec(z);
    assert (0, 0) in ZeroCells(z);
    Spawned(z, draws)
  }

  /** The field padded with a border of zeros: reads outside the field give 0. */
  function Padded(g: Grid, i: int, j: int): int {
    if InBounds(g, i, j) then g[i][j] else 0
  }

  /** `setup_hints`' convolution with the 3 x 3 kernel of ones whose centre is 0. */
  function Hint(g: Grid, i: int, j: int): int {
    Padded(g, i - 1, j - 1) + Padded(g, i - 1, j) + Padded(g, i - 1, j + 1)
    + Padded(g, i, j - 1) + Padded(g, i, j + 1)
    + Padded(g, i + 1, j - 1) + Padded(g, i + 1, j) + Padded(g, i + 1, j + 1)
  }

  /** The grid after `setup_hints`: marker cells become mines, the others their hint. */
  function HintField(m: Grid, h: int, w: int): (f: Grid)
    requires IsRect(m, h, w)
    ensures IsRect(f, h, w)
    ensures forall i, j :: 0 <= i < h && 0 <= j < w ==> f[i][j] == if m[i][j] == 1 then MINE else Hint(m, i, j)
  {
    seq(h, (i: int) requires 0 <= i < h =>
      seq(w, (j: int) requires 0 <= j < w => if m[i][j] == 1 then MINE else Hint(m, i, j)))
  }

  /** The eight neighbour offsets, in the order the source visits them. */
  const Offsets: seq<(int, int)> := [(-1, -1), (-1, 0), (-1, 1), (0, -1), (0, 1), (1, -1), (1, 0), (1, 1)]

  /** Reference count: how many of the neighbours at the first k offsets lie inside the field
      and hold a mine marker. */
  function MarkedAmong(g: Grid, i: int, j: int, k: nat): (c: nat)
    requires k <= |Offsets|
    ensures c <= k
  {
    if k == 0 then 0
    else
      var o := Offsets[k - 1];
      MarkedAmong(g, i, j, k - 1) + (if InBounds(g, i + o.0, j + o.1) && g[i + o.0][j + o.1] == 1 then 1 else 0)
  }

  /** On a field of markers, a padded read is 1 exactly at an in-bounds marker. */
  lemma PaddedMarker(g: Grid, i: int, j: int)
    requires IsBinary(g)
    ensures Padded(g, i, j) == if InBounds(g, i, j) && g[i][j] == 1 then 1 else 0
  {
  }

  /** On a field of markers the convolution counts the marked in-bounds neighbours (the border
      counts as no mine), so every hint lies in 0..8. */
  lemma HintCountsMarkedNeighbours(g: Grid, i: int, j: int)
    requires IsBinary(g)
    ensures Hint(g, i, j) == MarkedAmong(g, i, j, |Offsets|)
    ensures 0 <= Hint(g, i, j) <= 8
  {
    PaddedMarker(g, i - 1, j - 1);
    PaddedMarker(g, i - 1, j);
    PaddedMarker(g, i - 1, j + 1);
    PaddedMarker(g, i, j - 1);
    PaddedMarker(g, i, j + 1);
    PaddedMarker(g, i + 1, j - 1);
    PaddedMarker(g, i + 1, j);
    PaddedMarker(g, i + 1, j + 1);
    assert MarkedAmong(g, i, j, 2) == Padded(g, i - 1, j - 1) + Padded(g, i - 1, j);
    assert MarkedAmong(g, i, j, 4) == MarkedAmong(g, i, j, 2) + Padded(g, i - 1, j + 1) + Padded(g, i, j - 1);
    assert MarkedAmong(g, i, j, 6) == MarkedAmong(g, i, j, 4) + Padded(g, i, j + 1) + Padded(g, i + 1, j - 1);
  }

  lemma {:induction false} MarksBinary(g: Grid, positions: seq<(int, int)>, draws: seq<nat>)
    requires |positions| > 0
    requires forall k :: 0 <= k < |positions| ==> InBounds(g, positions[k].0, positions[k].1)
    requires IsBinary(g)
    ensures IsBinary(Marks(g, positions, draws))
    ensures CountIn(g, 1, 1) <= CountIn(Marks(g, positions, draws), 1, 1) <= CountIn(g, 1, 1) + |draws|
    ensures |draws| > 0 ==> CountIn(Marks(g, positions, draws), 1, 1) >= 1
    decreases |draws|
  {
    if |draws| > 0 {
      var prev := Marks(g, positions, draws[..|draws| - 1]);
      MarksBinary(g, positions, draws[..|draws| - 1]);
      var p := positions[Choice(|positions|, draws[|draws| - 1])];
      CountInUpdate(prev, p.0, p.1, 1, 1, 1);
      CountInZero(Marks(g, positions, draws), 1, 1);
    }
  }

  /** After setup every cell is a mine exactly where a marker was drawn, and otherwise holds
      the number of marked neighbours, 0..8. */
  lemma SetupFieldCells(h: int, w: int, draws: seq<nat>, i: int, j: int)
    requires h >= 1 && w >= 1 && 0 <= i < h && 0 <= j < w
    ensures var m := MineMarks(h, w, draws); var f := HintField(m, h, w);
      && IsBinary(m)
      && (f[i][j] == MINE <==> m[i][j] == 1)
      && (m[i][j] != 1 ==> f[i][j] == MarkedAmong(m, i, j, |Offsets|) && 0 <= f[i][j] <= 8)
  {
    MineMarksBinary(h, w, draws);
    HintCountsMarkedNeighbours(MineMarks(h, w, draws), i, j);
  }

  lemma MineMarksBinary(h: int, w: int, draws: seq<nat>)
    requires h >= 1 && w >= 1
    ensures IsBinary(MineMarks(h, w, draws))
    ensures |draws| >= 1 ==> 1 <= CountIn(MineMarks(h, w, draws), 1, 1) <= |draws|
  {
    var z := Zeros(h, w);
    ZeroCellsSpec(z);
    CountInZero(z, 1, 1);
    assert (0, 0) in ZeroCells(z);
    MarksBinary(z, ZeroCells(z), draws);
  }

  /** The number of mines is between 1 and the number of draws (duplicate draws collide,
      so it can be fewer). */
  lemma SetupFieldMineCount(h: int, w: int, draws: seq<nat>)
    requires h >= 1 && w >= 1 && |draws| >= 1
    ensures 1 <= CountIn(HintField(MineMarks(h, w, draws), h, w), MINE, MINE) <= |draws|
  {
    var m := MineMarks(h, w, draws);
    var f := HintField(m, h, w);
    MineMarksBinary(h, w, draws);
    forall i, j | 0 <= i < h && 0 <= j < w
      ensures MINE <= f[i][j] <= MINE <==> 1 <= m[i][j] <= 1
    {
      SetupFieldCells(h, w, draws, i, j);
    }
    CountInSame(f, m, h, w, MINE, MINE, 1, 1);
  }

  // ---------------------------------------------------------------------------------------
  // Flood fill: `sweep_field` as a function

  /** A cell `sweep_field` may reveal: a hidden or flagged hint cell (mines are 9 and -9). */
  predicate Sweepable(v: int) {
    -8 <= v <= 8
  }

  /** The number of cells `sweep_field` may still reveal: every step reveals one of them. */
  function Hidden(g: Grid): nat {
    CountIn(g, -8, 8)
  }

  /** The value `sweep_field` writes into a cell holding v. */
  function Reveal(v: int): int {
    (if v < 0 then -v else v) + REVEALED
  }

  /** `sweep_field(x, y)` on grid `g` of h rows and w columns: out of bounds, and on a cell
      that is not sweepable, nothing happens. */
  function FloodFill(g: Grid, h: int, w: int, x: int, y: int): (r: Grid)
    requires IsRect(g, h, w)
    ensures IsRect(r, h, w) && Hidden(r) <= Hidden(g)
    decreases Hidden(g), 0, 0, 1
  {
    if !(0 <= x < h && 0 <= y < w) then g
    else if !Sweepable(g[x][y]) then g
    else RevealCell(g, h, w, x, y)
  }

  /** The rest of `sweep_field` on a sweepable in-bounds cell: the cell is revealed, and the
      neighbour loops run when it is revealed as empty. */
  function RevealCell(g: Grid, h: int, w: int, x: int, y: int): (r: Grid)
    requires IsRect(g, h, w) && 0 <= x < h && 0 <= y < w && Sweepable(g[x][y])
    ensures IsRect(r, h, w) && Hidden(r) < Hidden(g)
    decreases Hidden(g), 0, 0, 0
  {
    var v := Reveal(g[x][y]);
    CountInUpdate(g, x, y, v, -8, 8);
    var g1 := Update(g, x, y, v);
    if v == REVEALED then FillNeighbours(g1, h, w, x, y, -1, -1) else g1
  }

  /** `sweep_field` on a sweepable in-bounds cell: the cell is revealed, and the neighbour
      loops run when it is revealed as empty. */
  lemma FloodFillAt(g: Grid, h: int, w: int, x: int, y: int)
    requires IsRect(g, h, w) && 0 <= x < h && 0 <= y < w && Sweepable(g[x][y])
    ensures Reveal(g[x][y]) == REVEALED ==>
      FloodFill(g, h, w, x, y) == FillNeighbours(Update(g, x, y, Reveal(g[x][y])), h, w, x, y, -1, -1)
    ensures Reveal(g[x][y]) != REVEALED ==> FloodFill(g, h, w, x, y) == Update(g, x, y, Reveal(g[x][y]))
  {
    assert FloodFill(g, h, w, x, y) == RevealCell(g, h, w, x, y);
  }

  /** The two loops `for dx in [-1, 0, 1]: for dy in [-1, 0, 1]` of `sweep_field`, from the
      pair (dx, dy) on; the pair (0, 0) is skipped. */
  function FillNeighbours(g: Grid, h: int, w: int, x: int, y: int, dx: int, dy: int): (r: Grid)
    requires IsRect(g, h, w) && -1 <= dx <= 2 && -1 <= dy <= 2
    ensures IsRect(r, h, w) && Hidden(r) <= Hidden(g)
    decreases Hidden(g), 1, 2 - dx, 2 - dy
  {
    if dx == 2 then g
    else if dy == 2 then FillNeighbours(g, h, w, x, y, dx + 1, -1)
    else if dx == 0 && dy == 0 then FillNeighbours(g, h, w, x, y, dx, dy + 1)
    else FillNeighbours(FloodFill(g, h, w, x + dx, y + dy), h, w, x, y, dx, dy + 1)
  }

  /** One turn of the inner loop. */
  lemma FillNeighboursStep(g: Grid, h: int, w: int, x: int, y: int, dx: int, dy: int)
    requires IsRect(g, h, w) && -1 <= dx <= 1 && -1 <= dy <= 1
    ensures dx == 0 && dy == 0 ==>
      FillNeighbours(g, h, w, x, y, dx, dy) == FillNeighbours(g, h, w, x, y, dx, dy + 1)
    ensures dx != 0 || dy != 0 ==>
      FillNeighbours(g, h, w, x, y, dx, dy) == FillNeighbours(FloodFill(g, h, w, x + dx, y + dy), h, w, x, y, dx, dy + 1)
  {
  }

  /** Each cell of `r` is either its value in `g`, or was sweepable in `g` and is now
      revealed as |v| + 100. */
  ghost predicate RevealsOnly(g: Grid, r: Grid, h: int, w: int)
    requires IsRect(g, h, w) && IsRect(r, h, w)
  {
    forall i, j :: 0 <= i < h && 0 <= j < w ==>
      r[i][j] == g[i][j] || (Sweepable(g[i][j]) && r[i][j] == Reveal(g[i][j]))
  }

  /** The neighbour at offset (dx, dy) of cell (i, j), or 9 (not sweepable) outside the field. */
  function Near(g: Grid, i: int, j: int, dx: int, dy: int): int {
    if InBounds(g, i + dx, j + dy) then g[i + dx][j + dy] else MINE
  }

  /** Every cell the fill opened as an empty cell (100) has no sweepable neighbour left:
      the fill went on through every empty cell it opened. */
  ghost predicate Closed(g: Grid, r: Grid, h: int, w: int)
    requires IsRect(g, h, w) && IsRect(r, h, w)
  {
    forall i, j, dx, dy :: 0 <= i < h && 0 <= j < w && -1 <= dx <= 1 && -1 <= dy <= 1
      && Sweepable(g[i][j]) && r[i][j] == REVEALED
      ==> !Sweepable(Near(r, i, j, dx, dy))
  }

  /** RevealsOnly composes; and a cell that is not sweepable is left as it is. */
  lemma RevealsOnlyTrans(a: Grid, b: Grid, c: Grid, h: int, w: int)
    requires IsRect(a, h, w) && IsRect(b, h, w) && IsRect(c, h, w)
    requires RevealsOnly(a, b, h, w) && RevealsOnly(b, c, h, w)
    ensures RevealsOnly(a, c, h, w)
  {
  }

  lemma ClosedTrans(a: Grid, b: Grid, c: Grid, h: int, w: int)
    requires IsRect(a, h, w) && IsRect(b, h, w) && IsRect(c, h, w)
    requires RevealsOnly(a, b, h, w) && RevealsOnly(b, c, h, w)
    requires Closed(a, b, h, w) && Closed(b, c, h, w)
    ensures Closed(a, c, h, w)
  {
    forall i, j, dx, dy | 0 <= i < h && 0 <= j < w && -1 <= dx <= 1 && -1 <= dy <= 1
      && Sweepable(a[i][j]) && c[i][j] == REVEALED
      ensures !Sweepable(Near(c, i, j, dx, dy))
    {
      if b[i][j] != a[i][j] {
        assert !Sweepable(Near(b, i, j, dx, dy));
      }
    }
  }

  /** Neither relation holds anything back for an unchanged grid. */
  lemma NothingRevealed(g: Grid, h: int, w: int)
    requires IsRect(g, h, w)
    ensures RevealsOnly(g, g, h, w) && Closed(g, g, h, w)
  {
  }

  /** The first step of `sweep_field` on a sweepable in-bounds cell. */
  lemma RevealStep(g: Grid, h: int, w: int, x: int, y: int)
    requires IsRect(g, h, w) && 0 <= x < h && 0 <= y < w && Sweepable(g[x][y])
    ensures var g1 := Update(g, x, y, Reveal(g[x][y]));
      IsRect(g1, h, w) && RevealsOnly(g, g1, h, w)
      && (Reveal(g[x][y]) != REVEALED ==> Closed(g, g1, h, w))
  {
    UpdateRect(g, h, w, x, y, Reveal(g[x][y]));
  }

  /** A neighbour that is not sweepable stays as it is. */
  lemma NearStays(g: Grid, r: Grid, h: int, w: int, x: int, y: int, dx: int, dy: int)
    requires IsRect(g, h, w) && IsRect(r, h, w) && RevealsOnly(g, r, h, w)
    requires !Sweepable(Near(g, x, y, dx, dy))
    ensures Near(r, x, y, dx, dy) == Near(g, x, y, dx, dy)
  {
  }

  /** Pairs (dx', dy') that the loops visit at or after (dx, dy). */
  predicate AtOrAfter(dx': int, dy': int, dx: int, dy: int) {
    dx' > dx || (dx' == dx && dy' >= dy)
  }

  /** The mutual induction behind the flood-fill properties. */
  lemma {:induction false} FloodFillFacts(g: Grid, h: int, w: int, x: int, y: int)
    requires IsRect(g, h, w)
    ensures var r := FloodFill(g, h, w, x, y);
      RevealsOnly(g, r, h, w) && Closed(g, r, h, w)
      && (0 <= x < h && 0 <= y < w ==> !Sweepable(r[x][y]))
    decreases Hidden(g), 0, 0, 0, 0
  {
    if 0 <= x < h && 0 <= y < w && Sweepable(g[x][y]) {
      var v := Reveal(g[x][y]);
      CountInUpdate(g, x, y, v, -8, 8);
      var g1 := Update(g, x, y, v);
      FloodFillAt(g, h, w, x, y);
      RevealStep(g, h, w, x, y);
      if v == REVEALED {
        var r := FillNeighbours(g1, h, w, x, y, -1, -1);
        FillNeighboursFacts(g1, h, w, x, y, -1, -1);
        RevealsOnlyTrans(g, g1, r, h, w);
        forall i, j, dx, dy | 0 <= i < h && 0 <= j < w && -1 <= dx <= 1 && -1 <= dy <= 1
          && Sweepable(g[i][j]) && r[i][j] == REVEALED
          ensures !Sweepable(Near(r, i, j, dx, dy))
        {
          if i == x && j == y && dx == 0 && dy == 0 {
            assert Near(r, i, j, dx, dy) == r[x][y] == g1[x][y];
          }
        }
      } else {
        assert !Sweepable(g1[x][y]);
      }
    } else {
      NothingRevealed(g, h, w);
    }
  }

  lemma {:induction false} FillNeighboursFacts(g: Grid, h: int, w: int, x: int, y: int, dx: int, dy: int)
    requires IsRect(g, h, w) && -1 <= dx <= 2 && -1 <= dy <= 2
    ensures var r := FillNeighbours(g, h, w, x, y, dx, dy);
      RevealsOnly(g, r, h, w) && Closed(g, r, h, w)
      && (forall dx', dy' :: -1 <= dx' <= 1 && -1 <= dy' <= 1 && AtOrAfter(dx', dy', dx, dy) && (dx' != 0 || dy' != 0)
            ==> !Sweepable(Near(r, x, y, dx', dy')))
    decreases Hidden(g), 1, 2 - dx, 2 - dy, 2
  {
    if dx == 2 {
      NothingRevealed(g, h, w);
    } else if dy == 2 {
      FillNeighboursFacts(g, h, w, x, y, dx + 1, -1);
    } else if dx == 0 && dy == 0 {
      FillNeighboursFacts(g, h, w, x, y, dx, dy + 1);
    } else {
      SweepTurn(g, h, w, x, y, dx, dy);
    }
  }

  /** One turn of the neighbour loop at a real neighbour (dx, dy). */
  lemma {:induction false} SweepTurn(g: Grid, h: int, w: int, x: int, y: int, dx: int, dy: int)
    requires IsRect(g, h, w) && -1 <= dx <= 1 && -1 <= dy <= 1
    ensures var r := FillNeighbours(FloodFill(g, h, w, x + dx, y + dy), h, w, x, y, dx, dy + 1);
      RevealsOnly(g, r, h, w) && Closed(g, r, h, w)
      && (forall dx', dy' :: -1 <= dx' <= 1 && -1 <= dy' <= 1 && AtOrAfter(dx', dy', dx, dy) && (dx' != 0 || dy' != 0)
            ==> !Sweepable(Near(r, x, y, dx', dy')))
    decreases Hidden(g), 1, 2 - dx, 2 - dy, 1
  {
    var g1 := FloodFill(g, h, w, x + dx, y + dy);
    FloodFillFacts(g, h, w, x + dx, y + dy);
    SweepRest(g, g1, h, w, x, y, dx, dy);
  }

  /** The rest of the neighbour loop, after the sweep of neighbour (dx, dy) turned g into g1. */
  lemma {:induction false} SweepRest(g: Grid, g1: Grid, h: int, w: int, x: int, y: int, dx: int, dy: int)
    requires IsRect(g, h, w) && IsRect(g1, h, w) && Hidden(g1) <= Hidden(g) && -1 <= dx <= 1 && -1 <= dy <= 1
    requires RevealsOnly(g, g1, h, w) && Closed(g, g1, h, w) && !Sweepable(Near(g1, x, y, dx, dy))
    ensures var r := FillNeighbours(g1, h, w, x, y, dx, dy + 1);
      RevealsOnly(g, r, h, w) && Closed(g, r, h, w)
      && (forall dx', dy' :: -1 <= dx' <= 1 && -1 <= dy' <= 1 && AtOrAfter(dx', dy', dx, dy) && (dx' != 0 || dy' != 0)
            ==> !Sweepable(Near(r, x, y, dx', dy')))
    decreases Hidden(g), 1, 2 - dx, 2 - dy, 0
  {
    var r := FillNeighbours(g1, h, w, x, y, dx, dy + 1);
    FillNeighboursFacts(g1, h, w, x, y, dx, dy + 1);
    CombineSweeps(g, g1, r, h, w, x, y, dx, dy);
  }

  /** One turn of the neighbour loop: the sweep of neighbour (dx, dy), then the rest of the loop. */
  lemma CombineSweeps(g: Grid, g1: Grid, r: Grid, h: int, w: int, x: int, y: int, dx: int, dy: int)
    requires IsRect(g, h, w) && IsRect(g1, h, w) && IsRect(r, h, w) && -1 <= dx <= 1 && -1 <= dy <= 1
    requires RevealsOnly(g, g1, h, w) && Closed(g, g1, h, w) && !Sweepable(Near(g1, x, y, dx, dy))
    requires RevealsOnly(g1, r, h, w) && Closed(g1, r, h, w)
    requires forall dx', dy' :: -1 <= dx' <= 1 && -1 <= dy' <= 1 && AtOrAfter(dx', dy', dx, dy + 1) && (dx' != 0 || dy' != 0) ==>
        !Sweepable(Near(r, x, y, dx', dy'))
    ensures RevealsOnly(g, r, h, w) && Closed(g, r, h, w)
    ensures forall dx', dy' :: -1 <= dx' <= 1 && -1 <= dy' <= 1 && AtOrAfter(dx', dy', dx, dy) && (dx' != 0 || dy' != 0) ==>
        !Sweepable(Near(r, x, y, dx', dy'))
  {
    RevealsOnlyTrans(g, g1, r, h, w);
    ClosedTrans(g, g1, r, h, w);
    NearStays(g1, r, h, w, x, y, dx, dy);
    forall dx', dy' | -1 <= dx' <= 1 && -1 <= dy' <= 1 && AtOrAfter(dx', dy', dx, dy) && (dx' != 0 || dy' != 0)
      ensures !Sweepable(Near(r, x, y, dx', dy'))
    {
      if dx' != dx || dy' != dy {
        assert AtOrAfter(dx', dy', dx, dy + 1);
      }
    }
  }

  /** `sweep_field` changes no cell that is not sweepable (mines, flagged mines, revealed
      cells); every cell it changes was a sweepable v and becomes |v| + 100; a sweepable
      in-bounds start cell is revealed; and every cell it opens as empty (100) has no
      sweepable neighbour left. */
  lemma FloodFillProperties(g: Grid, h: int, w: int, x: int, y: int)
    requires IsRect(g, h, w)
    ensures var r := FloodFill(g, h, w, x, y);
      && (forall i, j :: 0 <= i < h && 0 <= j < w && !Sweepable(g[i][j]) ==> r[i][j] == g[i][j])
      && RevealsOnly(g, r, h, w)
      && Closed(g, r, h, w)
      && (0 <= x < h && 0 <= y < w && Sweepable(g[x][y]) ==> r[x][y] == Reveal(g[x][y]))
  {
    FloodFillFacts(g, h, w, x, y);
  }

  /** Out-of-bounds sweeps, and sweeps of a mine, a flagged mine (-9) or a revealed cell,
      change nothing. */
  lemma FloodFillNoOp(g: Grid, h: int, w: int, x: int, y: int)
    requires IsRect(g, h, w)
    requires !(0 <= x < h && 0 <= y < w) || !Sweepable(g[x][y])
    ensures FloodFill(g, h, w, x, y) == g
  {
  }

  // ---------------------------------------------------------------------------------------
  // Whole-field operations

  /** `field += d`. */
  function Shift(g: Grid, d: int): (r: Grid)
    ensures |r| == |g| && forall i :: 0 <= i < |g| ==> |r[i]| == |g[i]|
    ensures forall i, j :: InBounds(g, i, j) ==> r[i][j] == g[i][j] + d
  {
    seq(|g|, (i: int) requires 0 <= i < |g| => seq(|g[i]|, (j: int) requires 0 <= j < |g[i]| => g[i][j] + d))
  }

  /** `flag(x, y)` as a function: the cell is negated. */
  function Flagged(g: Grid, x: int, y: int): Grid
    requires InBounds(g, x, y)
  {
    Update(g, x, y, -g[x][y])
  }

  /** Flagging negates one cell and nothing else, and flagging twice restores the field. */
  lemma FlagTwice(g: Grid, x: int, y: int)
    requires InBounds(g, x, y)
    ensures Flagged(g, x, y)[x][y] == -g[x][y]
    ensures forall i, j :: InBounds(g, i, j) && (i != x || j != y) ==> Flagged(g, x, y)[i][j] == g[i][j]
    ensures Flagged(Flagged(g, x, y), x, y) == g
  {
    var v := g[x][y];
    var f := Flagged(g, x, y);
    assert f[x] == g[x][y := -v];
    assert f[x][y := v] == g[x];
  }

  /** `check_finish`: no cell holds a value in [0, 8]. A flagged hint cell (-1..-8) does not
      block a win; a flagged 0 is still 0 and does. */
  ghost predicate Finished(g: Grid) {
    forall i, j :: InBounds(g, i, j) ==> !(0 <= g[i][j] <= 8)
  }

  class Minefield {
    const height: int
    const width: int
    const amountMines: int
    var field: array2<int>

    ghost predicate Valid()
      reads this
    {
      height >= 1 && width >= 1 && field.Length0 == height && field.Length1 == width
    }

    /** `Minefield(field_size, percent_mines)`: `draws` are the `amount_mines` positions drawn
        by `spawn_mines`. A non-positive dimension makes numpy raise. */
    constructor (fieldSize: (int, int), percentMines: int, draws: seq<nat>)
      requires fieldSize.0 >= 1 && fieldSize.1 >= 1
      requires |draws| == AmountMines(fieldSize.0, fieldSize.1, percentMines)
      ensures Valid() && fresh(field)
      ensures height == fieldSize.0 && width == fieldSize.1
      ensures amountMines == AmountMines(fieldSize.0, fieldSize.1, percentMines)
      ensures Snapshot(field) == HintField(MineMarks(height, width, draws), height, width)
    {
      height, width := fieldSize.0, fieldSize.1;
      amountMines := AmountMines(fieldSize.0, fieldSize.1, percentMines);
      field := new int[0, 0];
      new;
      Setup(draws);
    }

    /** `setup`: a fresh zero field, then the mines, then the hints. */
    method Setup(draws: seq<nat>)
      requires height >= 1 && width >= 1 && |draws| == amountMines
      modifies this
      ensures Valid() && fresh(field)
      ensures Snapshot(field) == HintField(MineMarks(height, width, draws), height, width)
    {
      field := new int[height, width]((i, j) => 0);
      assert Snapshot(field) == Zeros(height, width) by {
        Extensionality(Snapshot(field), Zeros(height, width), height, width);
      }
      ZeroCellsSpec(Zeros(height, width));
      assert (0, 0) in ZeroCells(Snapshot(field));
      SpawnMines(draws);
      SetupHints();
    }

    /** `spawn_mines`: the drawn positions among the zero cells are set to the marker 1. */
    method SpawnMines(draws: seq<nat>)
      requires Valid() && |draws| == amountMines
      requires |ZeroCells(Snapshot(field))| > 0
      modifies field
      ensures Snapshot(field) == Spawned(old(Snapshot(field)), draws)
    {
      ghost var g := Snapshot(field);
      var positions := Argwhere(field);
      ZeroCellsSpec(g);
      for k := 0 to |draws|
        invariant Snapshot(field) == Marks(g, positions, draws[..k])
      {
        var p := positions[Choice(|positions|, draws[k])];
        assert draws[..k + 1][..k] == draws[..k];
        Write(field, p.0, p.1, 1);
      }
      assert draws[..|draws|] == draws;
    }

    /** `setup_hints`: reads the markers from a padded copy and overwrites each cell with 9
        (marker) or its hint. */
    method SetupHints()
      requires Valid()
      modifies field
      ensures Snapshot(field) == HintField(old(Snapshot(field)), height, width)
    {
      var padded := Snapshot(field);
      ghost var target := HintField(padded, height, width);
      for ii := 0 to height
        invariant forall i, j :: 0 <= i < height && 0 <= j < width ==>
          field[i, j] == if i < ii then target[i][j] else padded[i][j]
      {
        for jj := 0 to width
          invariant forall i, j :: 0 <= i < height && 0 <= j < width ==>
            field[i, j] == if i < ii || (i == ii && j < jj) then target[i][j] else padded[i][j]
        {
          var hint := if padded[ii][jj] == 1 then MINE else Hint(padded, ii, jj);
          assert hint == target[ii][jj];
          field[ii, jj] := hint;
        }
      }
      Extensionality(Snapshot(field), target, height, width);
    }

    /** `action(x, y, flag)`: flags (and yields nothing) or sweeps (and yields whether a mine
        was hit). */
    method Action(x: int, y: int, flag: bool) returns (r: Option<bool>)
      requires Valid() && 0 <= x < height && 0 <= y < width
      modifies field
      ensures flag ==> r == None && Snapshot(field) == Flagged(old(Snapshot(field)), x, y)
      ensures !flag ==> r == Some(old(field[x, y]) == MINE)
      ensures !flag && old(field[x, y]) == MINE ==>
        Snapshot(field) == Update(Shift(old(Snapshot(field)), 100), x, y, DETONATED)
      ensures !flag && old(field[x, y]) != MINE ==>
        Snapshot(field) == FloodFill(old(Snapshot(field)), height, width, x, y)
    {
      if flag {
        Flag(x, y);
        r := None;
      } else {
        var hit := Sweep(x, y);
        r := Some(hit);
      }
    }

    /** `flag(x, y)`: `field[x][y] *= -1`. */
    method Flag(x: int, y: int)
      requires Valid() && 0 <= x < height && 0 <= y < width
      modifies field
      ensures Snapshot(field) == Flagged(old(Snapshot(field)), x, y)
    {
      ghost var g := Snapshot(field);
      field[x, y] := field[x, y] * -1;
      Extensionality(Snapshot(field), Flagged(g, x, y), height, width);
    }

    /** `sweep(x, y)`: on a hidden mine the game is lost (every cell gains 100, the cell becomes
        99, result true); otherwise the flood fill runs and the result is false. A flagged
        mine (-9) is not 9, so sweeping it is the flood fill's silent no-op. */
    method Sweep(x: int, y: int) returns (hit: bool)
      requires Valid() && 0 <= x < height && 0 <= y < width
      modifies field
      ensures hit <==> old(field[x, y]) == MINE
      ensures hit ==> Snapshot(field) == Update(Shift(old(Snapshot(field)), 100), x, y, DETONATED)
      ensures !hit ==> Snapshot(field) == FloodFill(old(Snapshot(field)), height, width, x, y)
    {
      if field[x, y] == MINE {
        Detonate(x, y);
        hit := true;
      } else {
        SweepField(x, y);
        hit := false;
      }
    }

    /** The lost game of `sweep`: `field += 100`, then the swept cell becomes 99. */
    method Detonate(x: int, y: int)
      requires Valid() && 0 <= x < height && 0 <= y < width
      modifies field
      ensures Snapshot(field) == Update(Shift(old(Snapshot(field)), 100), x, y, DETONATED)
    {
      ghost var g := Snapshot(field);
      forall i, j | 0 <= i < height && 0 <= j < width {
        field[i, j] := field[i, j] + 100;
      }
      Extensionality(Snapshot(field), Shift(g, 100), height, width);
      Write(field, x, y, DETONATED);
    }

    /** `sweep_field(x, y)`: the recursive flood fill. */
    method SweepField(x: int, y: int)
      requires Valid()
      modifies field
      ensures Snapshot(field) == FloodFill(old(Snapshot(field)), height, width, x, y)
      decreases Hidden(Snapshot(field)), 0, 0
    {
      if !(0 <= x < height && 0 <= y < width) {
        FloodFillNoOp(Snapshot(field), height, width, x, y);
        return;
      }
      var value := field[x, y];
      if value > 8 || value < -8 {
        FloodFillNoOp(Snapshot(field), height, width, x, y);
        return;
      }
      ghost var g := Snapshot(field);
      value := (if value < 0 then -value else value) + REVEALED;
      assert value == Reveal(g[x][y]);
      Write(field, x, y, value);
      CountInUpdate(g, x, y, value, -8, 8);
      FloodFillAt(g, height, width, x, y);
      if value == REVEALED {
        SweepNeighbours(x, y);
      }
    }

    /** The two loops over the offsets dx, dy in [-1, 0, 1] at the end of `sweep_field`. */
    method SweepNeighbours(x: int, y: int)
      requires Valid()
      modifies field
      ensures Snapshot(field) == FillNeighbours(old(Snapshot(field)), height, width, x, y, -1, -1)
      decreases Hidden(Snapshot(field)), 1, 0
    {
      ghost var g := Snapshot(field);
      ghost var target := FillNeighbours(g, height, width, x, y, -1, -1);
      ghost var cur := g;
      for dx := -1 to 2
        invariant Snapshot(field) == cur && IsRect(cur, height, width)
        invariant FillNeighbours(cur, height, width, x, y, dx, -1) == target
        invariant Hidden(cur) <= Hidden(g)
      {
        for dy := -1 to 2
          invariant Snapshot(field) == cur && IsRect(cur, height, width)
          invariant FillNeighbours(cur, height, width, x, y, dx, dy) == target
          invariant Hidden(cur) <= Hidden(g)
        {
          ghost var prev := cur;
          SweepOffset(x, y, dx, dy);
          if dx != 0 || dy != 0 {
            cur := FloodFill(cur, height, width, x + dx, y + dy);
          }
          FillNeighboursStep(prev, height, width, x, y, dx, dy);
        }
        assert FillNeighbours(cur, height, width, x, y, dx, 2) == FillNeighbours(cur, height, width, x, y, dx + 1, -1);
      }
    }

    /** One turn of the inner loop: the neighbour at offset (dx, dy) is swept, except for
        the cell itself. */
    method SweepOffset(x: int, y: int, dx: int, dy: int)
      requires Valid() && -1 <= dx <= 1 && -1 <= dy <= 1
      modifies field
      ensures dx != 0 || dy != 0 ==> Snapshot(field) == FloodFill(old(Snapshot(field)), height, width, x + dx, y + dy)
      ensures dx == 0 && dy == 0 ==> Snapshot(field) == old(Snapshot(field))
      decreases Hidden(Snapshot(field)), 0, 1
    {
      if dx != 0 || dy != 0 {
        SweepField(x + dx, y + dy);
      }
    }

    /** `check_finish`: counts the cells still in [0, 8] (`np.argwhere`) and reports whether
        there are none. */
    method CheckFinish() returns (finished: bool)
      requires Valid()
      ensures finished <==> Finished(Snapshot(field))
    {
      ghost var g := Snapshot(field);
      var notRevealed := 0;
      for ii := 0 to height
        invariant notRevealed == CountIn(g[..ii], 0, 8)
      {
        var inRow := 0;
        for jj := 0 to width
          invariant inRow == CountSeq(g[ii][..jj], 0, 8)
        {
          assert g[ii][..jj + 1][..jj] == g[ii][..jj];
          if 0 <= field[ii, jj] <= 8 {
            inRow := inRow + 1;
          }
        }
        assert g[ii][..width] == g[ii];
        assert g[..ii + 1][..ii] == g[..ii];
        notRevealed := notRevealed + inRow;
      }
      assert g[..height] == g;
      CountInZero(g, 0, 8);
      finished := !(notRevealed > 0);
    }
  }
}
