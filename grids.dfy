/** Integer grids, the value view of the numpy arrays all three engines work on.
    A `Grid` is a sequence of rows; `Snapshot` reads an `array2<int>` into one, so that
    methods over arrays can be specified by functions over grids. */
module Grids {

  type Grid = seq<seq<int>>

  /** `g` has `h` rows of `w` cells each. */
  ghost predicate IsRect(g: Grid, h: int, w: int) {
    |g| == h && w >= 0 && forall i :: 0 <= i < |g| ==> |g[i]| == w
  }

  predicate InBounds(g: Grid, i: int, j: int) {
    0 <= i < |g| && 0 <= j < |g[i]|
  }

  /** The current contents of an array, as a grid. */
  function Snapshot(a: array2<int>): (g: Grid)
    reads a
    ensures IsRect(g, a.Length0, a.Length1)
    ensures forall i, j :: 0 <= i < a.Length0 && 0 <= j < a.Length1 ==> g[i][j] == a[i, j]
  {
    seq(a.Length0, (i: int) requires 0 <= i < a.Length0 reads a =>
      seq(a.Length1, (j: int) requires 0 <= j < a.Length1 reads a => a[i, j]))
  }

  /** Every cell is 0 or 1 (the mine markers and the Sudoku mask). */
  ghost predicate IsBinary(g: Grid) {
    forall i, j :: InBounds(g, i, j) ==> g[i][j] == 0 || g[i][j] == 1
  }

  /** Two grids of the same shape that agree on every cell are equal. */
  lemma Extensionality(g: Grid, r: Grid, h: int, w: int)
    requires IsRect(g, h, w) && IsRect(r, h, w)
    requires forall i, j :: 0 <= i < h && 0 <= j < w ==> g[i][j] == r[i][j]
    ensures g == r
  {
    forall i | 0 <= i < h ensures g[i] == r[i] {
      assert |g[i]| == |r[i]| == w;
    }
  }

  /** `h` rows of `w` zeros (`np.zeros((h, w))`). */
  function Zeros(h: nat, w: nat): (g: Grid)
    ensures IsRect(g, h, w)
    ensures forall i, j :: 0 <= i < h && 0 <= j < w ==> g[i][j] == 0
  {
    seq(h, _ => seq(w, _ => 0))
  }

  /** `g` with cell (i, j) replaced by `v`. */
  function Update(g: Grid, i: int, j: int, v: int): (r: Grid)
    requires InBounds(g, i, j)
    ensures |r| == |g| && forall k :: 0 <= k < |g| ==> |r[k]| == |g[k]|
    ensures r[i][j] == v
    ensures forall k, l :: InBounds(g, k, l) && (k != i || l != j) ==> r[k][l] == g[k][l]
  {
    g[i := g[i][j := v]]
  }

  /** Writes one cell of an array; its snapshot changes as `Update` says. */
  method Write(a: array2<int>, i: int, j: int, v: int)
    requires 0 <= i < a.Length0 && 0 <= j < a.Length1
    modifies a
    ensures Snapshot(a) == Update(old(Snapshot(a)), i, j, v)
  {
    ghost var g := Snapshot(a);
    a[i, j] := v;
    Extensionality(Snapshot(a), Update(g, i, j, v), a.Length0, a.Length1);
  }

  /** Writing back the old value of a cell undoes a write. */
  lemma UpdateRestore(g: Grid, i: int, j: int, v: int)
    requires InBounds(g, i, j)
    ensures Update(Update(g, i, j, v), i, j, g[i][j]) == g
  {
    assert g[i][j := v][j := g[i][j]] == g[i];
  }

  lemma UpdateRect(g: Grid, h: int, w: int, i: int, j: int, v: int)
    requires IsRect(g, h, w) && InBounds(g, i, j)
    ensures IsRect(Update(g, i, j, v), h, w)
  {
  }

  /** Transposition of a grid with `w` columns (numpy `.T`). */
  function Transpose(g: Grid, w: nat): (r: Grid)
    requires IsRect(g, |g|, w)
    ensures IsRect(r, w, |g|)
    ensures forall i, j :: 0 <= i < w && 0 <= j < |g| ==> r[i][j] == g[j][i]
  {
    seq(w, (i: int) requires 0 <= i < w => seq(|g|, (j: int) requires 0 <= j < |g| => g[j][i]))
  }

  lemma TransposeTwice(g: Grid, h: nat, w: nat)
    requires IsRect(g, h, w)
    ensures Transpose(Transpose(g, w), h) == g
  {
    Extensionality(Transpose(Transpose(g, w), h), g, h, w);
  }

  // ---------------------------------------------------------------------------------------
  // Counting the cells whose value lies in [lo, hi]

  function CountSeq(s: seq<int>, lo: int, hi: int): nat {
    if |s| == 0 then 0
    else CountSeq(s[..|s| - 1], lo, hi) + (if lo <= s[|s| - 1] <= hi then 1 else 0)
  }

  function CountIn(g: Grid, lo: int, hi: int): nat {
    if |g| == 0 then 0
    else CountIn(g[..|g| - 1], lo, hi) + CountSeq(g[|g| - 1], lo, hi)
  }

  lemma {:induction false} CountSeqUpdate(s: seq<int>, j: int, v: int, lo: int, hi: int)
    requires 0 <= j < |s|
    ensures CountSeq(s[j := v], lo, hi)
         == CountSeq(s, lo, hi) - (if lo <= s[j] <= hi then 1 else 0) + (if lo <= v <= hi then 1 else 0)
  {
    var n := |s|;
    if j == n - 1 {
      assert s[j := v][..n - 1] == s[..n - 1];
    } else {
      assert s[j := v][..n - 1] == s[..n - 1][j := v];
      CountSeqUpdate(s[..n - 1], j, v, lo, hi);
    }
  }

  /** Replacing one cell changes the count by what leaves and what enters [lo, hi]. */
  lemma {:induction false} CountInUpdate(g: Grid, i: int, j: int, v: int, lo: int, hi: int)
    requires InBounds(g, i, j)
    ensures CountIn(Update(g, i, j, v), lo, hi)
         == CountIn(g, lo, hi) - (if lo <= g[i][j] <= hi then 1 else 0) + (if lo <= v <= hi then 1 else 0)
  {
    var n := |g|;
    var r := Update(g, i, j, v);
    if i == n - 1 {
      assert r[..n - 1] == g[..n - 1];
      CountSeqUpdate(g[i], j, v, lo, hi);
    } else {
      assert r[..n - 1] == Update(g[..n - 1], i, j, v);
      assert r[n - 1] == g[n - 1];
      CountInUpdate(g[..n - 1], i, j, v, lo, hi);
    }
  }

  lemma {:induction false} CountSeqZero(s: seq<int>, lo: int, hi: int)
    ensures CountSeq(s, lo, hi) == 0 <==> forall j :: 0 <= j < |s| ==> !(lo <= s[j] <= hi)
  {
    if |s| > 0 {
      var p := s[..|s| - 1];
      CountSeqZero(p, lo, hi);
      assert forall j :: 0 <= j < |p| ==> p[j] == s[j];
    }
  }

  /** No cell lies in [lo, hi] exactly when the count is zero. */
  lemma {:induction false} CountInZero(g: Grid, lo: int, hi: int)
    ensures CountIn(g, lo, hi) == 0 <==> forall i, j :: InBounds(g, i, j) ==> !(lo <= g[i][j] <= hi)
  {
    if |g| > 0 {
      var p := g[..|g| - 1];
      CountInZero(p, lo, hi);
      CountSeqZero(g[|g| - 1], lo, hi);
      assert forall i :: 0 <= i < |p| ==> p[i] == g[i];
    }
  }

  lemma {:induction false} CountSeqAll(s: seq<int>, lo: int, hi: int)
    requires forall j :: 0 <= j < |s| ==> lo <= s[j] <= hi
    ensures CountSeq(s, lo, hi) == |s|
  {
    if |s| > 0 {
      CountSeqAll(s[..|s| - 1], lo, hi);
    }
  }

  lemma MulStep(a: nat, w: nat)
    ensures a * w + w == (a + 1) * w
  {
  }

  /** When every cell of an h x w grid lies in [lo, hi], all h * w cells are counted. */
  lemma {:induction false} CountInAll(g: Grid, h: nat, w: nat, lo: int, hi: int)
    requires IsRect(g, h, w) && forall i, j :: 0 <= i < h && 0 <= j < w ==> lo <= g[i][j] <= hi
    ensures CountIn(g, lo, hi) == h * w
  {
    if h > 0 {
      var top, last := g[..h - 1], g[h - 1];
      assert forall i, j :: 0 <= i < h - 1 && 0 <= j < w ==> top[i][j] == g[i][j];
      CountInAll(top, h - 1, w, lo, hi);
      CountSeqAll(last, lo, hi);
      MulStep(h - 1, w);
    }
  }

  /** Counting is invariant under any cell-wise correspondence of membership. */
  lemma {:induction false} CountSeqSame(s: seq<int>, t: seq<int>, lo: int, hi: int, lo': int, hi': int)
    requires |s| == |t|
    requires forall j :: 0 <= j < |s| ==> (lo <= s[j] <= hi <==> lo' <= t[j] <= hi')
    ensures CountSeq(s, lo, hi) == CountSeq(t, lo', hi')
  {
    if |s| > 0 {
      CountSeqSame(s[..|s| - 1], t[..|t| - 1], lo, hi, lo', hi');
    }
  }

  lemma {:induction false} CountInSame(g: Grid, r: Grid, h: int, w: int, lo: int, hi: int, lo': int, hi': int)
    requires IsRect(g, h, w) && IsRect(r, h, w)
    requires forall i, j :: 0 <= i < h && 0 <= j < w ==> (lo <= g[i][j] <= hi <==> lo' <= r[i][j] <= hi')
    ensures CountIn(g, lo, hi) == CountIn(r, lo', hi')
  {
    if h > 0 {
      CountInSame(g[..h - 1], r[..h - 1], h - 1, w, lo, hi, lo', hi');
      CountSeqSame(g[h - 1], r[h - 1], lo, hi, lo', hi');
    }
  }

  // ---------------------------------------------------------------------------------------
  // `np.argwhere(g == 0)`: the zero cells in row-major order

  function RowZeros(row: seq<int>, i: int): seq<(int, int)> {
    if |row| == 0 then []
    else RowZeros(row[..|row| - 1], i) + (if row[|row| - 1] == 0 then [(i, |row| - 1)] else [])
  }

  function ZeroCells(g: Grid): seq<(int, int)> {
    if |g| == 0 then [] else ZeroCells(g[..|g| - 1]) + RowZeros(g[|g| - 1], |g| - 1)
  }

  lemma {:induction false} RowZerosSpec(row: seq<int>, i: int)
    ensures |RowZeros(row, i)| == CountSeq(row, 0, 0)
    ensures forall p :: p in RowZeros(row, i) <==> p.0 == i && 0 <= p.1 < |row| && row[p.1] == 0
  {
    if |row| > 0 {
      var q := row[..|row| - 1];
      RowZerosSpec(q, i);
      assert forall j :: 0 <= j < |q| ==> q[j] == row[j];
    }
  }

  /** The zero cells are listed once per zero cell, and they are exactly the zero cells. */
  lemma {:induction false} ZeroCellsSpec(g: Grid)
    ensures |ZeroCells(g)| == CountIn(g, 0, 0)
    ensures forall p :: p in ZeroCells(g) <==> InBounds(g, p.0, p.1) && g[p.0][p.1] == 0
  {
    if |g| > 0 {
      var q := g[..|g| - 1];
      ZeroCellsSpec(q);
      RowZerosSpec(g[|g| - 1], |g| - 1);
      assert forall i :: 0 <= i < |q| ==> q[i] == g[i];
    }
  }

  /** Computes `np.argwhere(a == 0)` with two nested loops. */
  method Argwhere(a: array2<int>) returns (cells: seq<(int, int)>)
    ensures cells == ZeroCells(Snapshot(a))
  {
    ghost var g := Snapshot(a);
    cells := [];
    for i := 0 to a.Length0
      invariant cells == ZeroCells(g[..i])
    {
      var rowCells := [];
      for j := 0 to a.Length1
        invariant rowCells == RowZeros(g[i][..j], i)
      {
        assert g[i][..j + 1][..j] == g[i][..j];
        if a[i, j] == 0 {
          rowCells := rowCells + [(i, j)];
        }
      }
      assert g[i][..a.Length1] == g[i];
      assert g[..i + 1][..i] == g[..i];
      cells := cells + rowCells;
    }
    assert g[..a.Length0] == g;
  }
}
