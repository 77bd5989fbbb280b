/** The rules of Sudoku shared by the shuffler, the solver and the creator: a 9 x 9 board,
    0 for an empty cell, digits 1..9, and no digit twice in a row, a column or a 3 x 3 block. */
module SudokuRules {
  import opened Grids

  ghost predicate IsBoard(g: Grid) {
    IsRect(g, 9, 9)
  }

  predicate InRange(r: int, c: int) {
    0 <= r < 9 && 0 <= c < 9
  }

  predicate SameBlock(r1: int, c1: int, r2: int, c2: int) {
    r1 / 3 == r2 / 3 && c1 / 3 == c2 / 3
  }

  /** The two cells share a row, a column or a block (a cell shares all three with itself). */
  predicate SameUnit(r1: int, c1: int, r2: int, c2: int) {
    r1 == r2 || c1 == c2 || SameBlock(r1, c1, r2, c2)
  }

  /** Two different cells that share a unit. */
  predicate Peers(r1: int, c1: int, r2: int, c2: int) {
    (r1 != r2 || c1 != c2) && SameUnit(r1, c1, r2, c2)
  }

  /** Every cell is empty or a digit, and no digit is repeated among peers. */
  ghost predicate Consistent(g: Grid) {
    && IsBoard(g)
    && (forall r, c :: InRange(r, c) ==> 0 <= g[r][c] <= 9)
    && (forall r1, c1, r2, c2 :: InRange(r1, c1) && InRange(r2, c2) && Peers(r1, c1, r2, c2) && g[r1][c1] != 0
          ==> g[r1][c1] != g[r2][c2])
  }

  /** A valid, completely filled Sudoku grid. */
  ghost predicate IsSolved(g: Grid) {
    Consistent(g) && forall r, c :: InRange(r, c) ==> g[r][c] != 0
  }

  /** `s` keeps every clue (non-zero cell) of `g`. */
  ghost predicate Extends(s: Grid, g: Grid)
    requires IsBoard(s) && IsBoard(g)
  {
    forall r, c :: InRange(r, c) && g[r][c] != 0 ==> s[r][c] == g[r][c]
  }

  /** A solution of the puzzle `g`. */
  ghost predicate IsCompletion(s: Grid, g: Grid) {
    IsSolved(s) && IsBoard(g) && Extends(s, g)
  }

  /** `is_valid`: digit `d` occurs neither in row `r`, nor in column `c`, nor in the block of (r, c). */
  ghost predicate Allowed(g: Grid, r: int, c: int, d: int)
    requires IsBoard(g)
  {
    forall r2, c2 :: InRange(r2, c2) && SameUnit(r, c, r2, c2) ==> g[r2][c2] != d
  }

  /** Writing an allowed digit into an empty cell keeps a board consistent, and a solution
      goes on extending the board exactly when it holds that digit there. */
  lemma PlaceAllowed(g: Grid, r: int, c: int, d: int)
    requires Consistent(g) && InRange(r, c) && g[r][c] == 0 && 1 <= d <= 9 && Allowed(g, r, c, d)
    ensures Consistent(Update(g, r, c, d))
  {
    var g1 := Update(g, r, c, d);
    forall r1, c1, r2, c2 | InRange(r1, c1) && InRange(r2, c2) && Peers(r1, c1, r2, c2) && g1[r1][c1] != 0
      ensures g1[r1][c1] != g1[r2][c2]
    {
      if r2 == r && c2 == c {
        assert g1[r1][c1] == g[r1][c1];
        assert SameUnit(r, c, r1, c1);
      } else if r1 == r && c1 == c {
        assert SameUnit(r, c, r2, c2);
      }
    }
  }

  /** A completion of `g` has an allowed digit in every empty cell of `g`. */
  lemma CompletionAllowed(s: Grid, g: Grid, r: int, c: int)
    requires IsCompletion(s, g) && InRange(r, c) && g[r][c] == 0
    ensures 1 <= s[r][c] <= 9 && Allowed(g, r, c, s[r][c])
  {
    forall r2, c2 | InRange(r2, c2) && SameUnit(r, c, r2, c2)
      ensures g[r2][c2] != s[r][c]
    {
      if g[r2][c2] != 0 && (r2 != r || c2 != c) {
        assert Peers(r2, c2, r, c);
      }
    }
  }

  // ---------------------------------------------------------------------------------------
  // The fixed starting grid of the shuffler

  /** The board every shuffle starts from. */
  function Canonical(): Grid
  {
    [[1, 2, 3, 4, 5, 6, 7, 8, 9],
     [4, 5, 6, 7, 8, 9, 1, 2, 3],
     [7, 8, 9, 1, 2, 3, 4, 5, 6],
     [2, 3, 1, 5, 6, 4, 8, 9, 7],
     [5, 6, 4, 8, 9, 7, 2, 3, 1],
     [8, 9, 7, 2, 3, 1, 5, 6, 4],
     [3, 1, 2, 6, 4, 5, 9, 7, 8],
     [6, 4, 5, 9, 7, 8, 3, 1, 2],
     [9, 7, 8, 3, 1, 2, 6, 4, 5]]
  }

  /** Addition modulo 3 of two residues. */
  function Add3(x: int, y: int): int {
    if x + y >= 3 then x + y - 3 else x + y
  }

  /** The rule behind the grid, checked cell by cell: row rr of band b holds, in column c,
      the digit 3 (rr + c / 3 mod 3) + (c % 3 + b mod 3) + 1. */
  lemma CanonicalBand(b: int, rr: int, c: int)
    requires 0 <= b < 3 && 0 <= rr < 3 && 0 <= c < 9
    ensures Canonical()[3 * b + rr][c] == 3 * Add3(rr, c / 3) + Add3(c % 3, b) + 1
  {
    assert c == 0 || c == 1 || c == 2 || c == 3 || c == 4 || c == 5 || c == 6 || c == 7 || c == 8;
    if b == 0 {
      assert rr == 0 || rr == 1 || rr == 2;
    } else if b == 1 {
      assert rr == 0 || rr == 1 || rr == 2;
    } else {
      assert rr == 0 || rr == 1 || rr == 2;
    }
  }

  lemma CanonicalDigit(r: int, c: int)
    requires InRange(r, c)
    ensures Canonical()[r][c] == 3 * Add3(r % 3, c / 3) + Add3(c % 3, r / 3) + 1
  {
    assert r == 3 * (r / 3) + r % 3;
    CanonicalBand(r / 3, r % 3, c);
  }

  /** Two different cells (band b, row rr, stack s, column o) that share a row, a column or a block get different digits of the pattern. */
  lemma SplitDigitsDiffer(b1: int, rr1: int, s1: int, o1: int, b2: int, rr2: int, s2: int, o2: int)
    requires 0 <= b1 < 3 && 0 <= rr1 < 3 && 0 <= s1 < 3 && 0 <= o1 < 3
    requires 0 <= b2 < 3 && 0 <= rr2 < 3 && 0 <= s2 < 3 && 0 <= o2 < 3
    requires b1 != b2 || rr1 != rr2 || s1 != s2 || o1 != o2
    requires (b1 == b2 && rr1 == rr2) || (s1 == s2 && o1 == o2) || (b1 == b2 && s1 == s2)
    ensures 3 * Add3(rr1, s1) + Add3(o1, b1) != 3 * Add3(rr2, s2) + Add3(o2, b2)
  {
  }

  lemma CanonicalPeers(r1: int, c1: int, r2: int, c2: int)
    requires InRange(r1, c1) && InRange(r2, c2) && Peers(r1, c1, r2, c2)
    ensures Canonical()[r1][c1] != Canonical()[r2][c2]
  {
    CanonicalDigit(r1, c1);
    CanonicalDigit(r2, c2);
    assert r1 == 3 * (r1 / 3) + r1 % 3 && c1 == 3 * (c1 / 3) + c1 % 3;
    assert r2 == 3 * (r2 / 3) + r2 % 3 && c2 == 3 * (c2 / 3) + c2 % 3;
    SplitDigitsDiffer(r1 / 3, r1 % 3, c1 / 3, c1 % 3, r2 / 3, r2 % 3, c2 / 3, c2 % 3);
  }

  /** The starting grid is a valid, completely filled Sudoku. */
  lemma CanonicalSolved()
    ensures IsSolved(Canonical())
  {
    var g := Canonical();
    forall r, c | InRange(r, c) ensures 1 <= g[r][c] <= 9 {
      CanonicalDigit(r, c);
    }
    forall r1, c1, r2, c2 | InRange(r1, c1) && InRange(r2, c2) && Peers(r1, c1, r2, c2)
      ensures g[r1][c1] != g[r2][c2]
    {
      CanonicalPeers(r1, c1, r2, c2);
    }
  }

  // ---------------------------------------------------------------------------------------
  // The shuffling operations as functions on boards

  /** `swap_numbers` on one cell. */
  function SwapDigit(v: int, n1: int, n2: int): int {
    if v == n1 then n2 else if v == n2 then n1 else v
  }

  /** Every occurrence of `n1` becomes `n2` and vice versa. */
  function SwapDigits(g: Grid, n1: int, n2: int): (r: Grid)
    ensures |r| == |g| && forall i :: 0 <= i < |g| ==> |r[i]| == |g[i]|
    ensures forall i, j :: InBounds(g, i, j) ==> r[i][j] == SwapDigit(g[i][j], n1, n2)
  {
    seq(|g|, (i: int) requires 0 <= i < |g| =>
      seq(|g[i]|, (j: int) requires 0 <= j < |g[i]| => SwapDigit(g[i][j], n1, n2)))
  }

  /** Exchanging two digits keeps a grid solved, undoes itself, and is the identity when
      both digits are the same. */
  lemma SwapDigitsSolved(g: Grid, n1: int, n2: int)
    requires IsSolved(g) && 1 <= n1 <= 9 && 1 <= n2 <= 9
    ensures IsSolved(SwapDigits(g, n1, n2))
  {
    var s := SwapDigits(g, n1, n2);
    forall r1, c1, r2, c2 | InRange(r1, c1) && InRange(r2, c2) && Peers(r1, c1, r2, c2)
      ensures s[r1][c1] != s[r2][c2]
    {
      assert g[r1][c1] != g[r2][c2];
    }
  }

  lemma SwapDigitsTwice(g: Grid, n1: int, n2: int)
    ensures SwapDigits(SwapDigits(g, n1, n2), n1, n2) == g
    ensures SwapDigits(g, n1, n1) == g
  {
    var s := SwapDigits(SwapDigits(g, n1, n2), n1, n2);
    forall i | 0 <= i < |g| ensures s[i] == g[i] {
    }
    var t := SwapDigits(g, n1, n1);
    forall i | 0 <= i < |g| ensures t[i] == g[i] {
    }
  }

  /** The index that a swap of `a` and `b` sends `i` to. */
  function SwapIndex(i: int, a: int, b: int): int {
    if i == a then b else if i == b then a else i
  }

  /** `swap_rows`: rows `a` and `b` exchanged. */
  function SwapRows(g: Grid, a: int, b: int): (r: Grid)
    requires 0 <= a < |g| && 0 <= b < |g|
    ensures |r| == |g| && forall i :: 0 <= i < |g| ==> r[i] == g[SwapIndex(i, a, b)]
  {
    g[a := g[b]][b := g[a]]
  }

  /** `swap_cols`: columns `a` and `b` exchanged. */
  function SwapCols(g: Grid, w: int, a: int, b: int): (r: Grid)
    requires IsRect(g, |g|, w) && 0 <= a < w && 0 <= b < w
    ensures IsRect(r, |g|, w)
    ensures forall i, j :: 0 <= i < |g| && 0 <= j < w ==> r[i][j] == g[i][SwapIndex(j, a, b)]
  {
    seq(|g|, (i: int) requires 0 <= i < |g| => g[i][a := g[i][b]][b := g[i][a]])
  }

  /** Swapping rows changes only those two rows and undoes itself. */
  lemma SwapRowsTwice(g: Grid, a: int, b: int)
    requires 0 <= a < |g| && 0 <= b < |g|
    ensures SwapRows(SwapRows(g, a, b), a, b) == g
    ensures forall i :: 0 <= i < |g| && i != a && i != b ==> SwapRows(g, a, b)[i] == g[i]
  {
  }

  lemma SwapColsTwice(g: Grid, w: int, a: int, b: int)
    requires IsRect(g, |g|, w) && 0 <= a < w && 0 <= b < w
    ensures SwapCols(SwapCols(g, w, a, b), w, a, b) == g
  {
    Extensionality(SwapCols(SwapCols(g, w, a, b), w, a, b), g, |g|, w);
  }

  /** A relabelling of rows and columns by index maps `p` and `q` that keep bands and stacks
      together (and are one-to-one) keeps a grid solved. */
  lemma PermutedSolved(g: Grid, s: Grid, p: int -> int, q: int -> int)
    requires IsSolved(g) && IsBoard(s)
    requires forall i :: 0 <= i < 9 ==> 0 <= p(i) < 9 && 0 <= q(i) < 9
    requires forall i, j :: 0 <= i < 9 && 0 <= j < 9 ==> (p(i) == p(j) <==> i == j) && (p(i) / 3 == p(j) / 3 <==> i / 3 == j / 3)
    requires forall i, j :: 0 <= i < 9 && 0 <= j < 9 ==> (q(i) == q(j) <==> i == j) && (q(i) / 3 == q(j) / 3 <==> i / 3 == j / 3)
    requires forall i, j :: InRange(i, j) ==> s[i][j] == g[p(i)][q(j)]
    ensures IsSolved(s)
  {
    forall r1, c1, r2, c2 | InRange(r1, c1) && InRange(r2, c2) && Peers(r1, c1, r2, c2)
      ensures s[r1][c1] != s[r2][c2]
    {
      assert Peers(p(r1), q(c1), p(r2), q(c2));
    }
    forall r, c | InRange(r, c) ensures 1 <= s[r][c] <= 9 {
      assert InRange(p(r), q(c));
    }
  }

  /** Swapping two rows of the same band keeps a grid solved. */
  lemma SwapRowsSolved(g: Grid, a: int, b: int)
    requires IsSolved(g) && 0 <= a < 9 && 0 <= b < 9 && a / 3 == b / 3
    ensures IsSolved(SwapRows(g, a, b))
  {
    var s := SwapRows(g, a, b);
    PermutedSolved(g, s, i => SwapIndex(i, a, b), j => j);
  }

  /** Swapping two columns of the same stack keeps a grid solved. */
  lemma SwapColsSolved(g: Grid, a: int, b: int)
    requires IsSolved(g) && 0 <= a < 9 && 0 <= b < 9 && a / 3 == b / 3
    ensures IsSolved(SwapCols(g, 9, a, b))
  {
    var s := SwapCols(g, 9, a, b);
    PermutedSolved(g, s, i => i, j => SwapIndex(j, a, b));
  }

  /** The first k of the three row swaps (3 b1 + i with 3 b2 + i, for i = 0, 1, 2) that exchange
      bands `b1` and `b2`. */
  function SwapBandRows(g: Grid, b1: int, b2: int, k: int): (r: Grid)
    requires IsBoard(g) && 0 <= b1 < 3 && 0 <= b2 < 3 && 0 <= k <= 3
    ensures IsBoard(r)
  {
    if k == 0 then g else SwapRows(SwapBandRows(g, b1, b2, k - 1), 3 * b1 + k - 1, 3 * b2 + k - 1)
  }

  /** `swap_row_blocks`: all three row swaps. */
  function SwapBands(g: Grid, b1: int, b2: int): (r: Grid)
    requires IsBoard(g) && 0 <= b1 < 3 && 0 <= b2 < 3
    ensures IsBoard(r)
  {
    SwapBandRows(g, b1, b2, 3)
  }

  /** The row that a swap of bands `b1` and `b2` moves to row `i`. */
  function BandIndex(i: int, b1: int, b2: int): int {
    if i / 3 == b1 then 3 * b2 + i % 3 else if i / 3 == b2 then 3 * b1 + i % 3 else i
  }

  /** A band swap keeps rows of one band together and sends different rows to different rows. */
  lemma BandIndexOneToOne(i: int, j: int, b1: int, b2: int)
    requires 0 <= i < 9 && 0 <= j < 9 && 0 <= b1 < 3 && 0 <= b2 < 3
    ensures 0 <= BandIndex(i, b1, b2) < 9
    ensures BandIndex(i, b1, b2) / 3 == BandIndex(j, b1, b2) / 3 <==> i / 3 == j / 3
    ensures BandIndex(i, b1, b2) == BandIndex(j, b1, b2) <==> i == j
  {
    assert i == 3 * (i / 3) + i % 3 && j == 3 * (j / 3) + j % 3;
    assert (3 * b1 + i % 3) / 3 == b1 && (3 * b2 + i % 3) / 3 == b2;
    assert (3 * b1 + j % 3) / 3 == b1 && (3 * b2 + j % 3) / 3 == b2;
  }

  /** The three row swaps move each row of one band to the same place in the other band. */
  lemma SwapBandsRows(g: Grid, b1: int, b2: int)
    requires IsBoard(g) && 0 <= b1 < 3 && 0 <= b2 < 3
    ensures forall i :: 0 <= i < 9 ==> SwapBands(g, b1, b2)[i] == g[BandIndex(i, b1, b2)]
  {
    var g1 := SwapBandRows(g, b1, b2, 1);
    var g2 := SwapBandRows(g, b1, b2, 2);
    assert g2 == SwapRows(g1, 3 * b1 + 1, 3 * b2 + 1);
    assert SwapBands(g, b1, b2) == SwapRows(g2, 3 * b1 + 2, 3 * b2 + 2);
    assert SwapBandRows(g, b1, b2, 0) == g;
    assert g1 == SwapRows(g, 3 * b1, 3 * b2);
    forall i | 0 <= i < 9 ensures SwapBands(g, b1, b2)[i] == g[BandIndex(i, b1, b2)] {
      var i2 := SwapIndex(i, 3 * b1 + 2, 3 * b2 + 2);
      var i1 := SwapIndex(i2, 3 * b1 + 1, 3 * b2 + 1);
      assert SwapIndex(i1, 3 * b1, 3 * b2) == BandIndex(i, b1, b2) by {
        assert i == 3 * (i / 3) + i % 3;
      }
    }
  }

  /** Swapping two bands keeps a grid solved. */
  lemma SwapBandsSolved(g: Grid, b1: int, b2: int)
    requires IsSolved(g) && 0 <= b1 < 3 && 0 <= b2 < 3
    ensures IsSolved(SwapBands(g, b1, b2))
  {
    var s := SwapBands(g, b1, b2);
    SwapBandsRows(g, b1, b2);
    forall i, j | 0 <= i < 9 && 0 <= j < 9
      ensures BandIndex(i, b1, b2) / 3 == BandIndex(j, b1, b2) / 3 <==> i / 3 == j / 3
      ensures BandIndex(i, b1, b2) == BandIndex(j, b1, b2) <==> i == j
    {
      BandIndexOneToOne(i, j, b1, b2);
    }
    PermutedSolved(g, s, i => BandIndex(i, b1, b2), j => j);
  }
}
