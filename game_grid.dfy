/** The 2048 game field: a square grid of tiles (0 for an empty cell) that is stacked in one
    of four directions, merging equal neighbours once per move, and that spawns new tiles on
    empty cells. The stacking is specified by the pure functions `StackLine` and `StackFn`,
    and the class `GameGrid` computes them with the source's loops. */
module GameGrid2048 {
  import opened Grids
  import opened Oracle
  import opened Options

  const UP := 0
  const DOWN := 1
  const LEFT := 2
  const RIGHT := 3

  // ---------------------------------------------------------------------------------------
  // Lines

  predicate NoZero(s: seq<int>) {
    forall i :: 0 <= i < |s| ==> s[i] != 0
  }

  predicate NonNeg(s: seq<int>) {
    forall i :: 0 <= i < |s| ==> s[i] >= 0
  }

  /** `row[row != 0]`: the non-zero tiles of a line, in order. */
  function NonZeros(row: seq<int>): (r: seq<int>)
    ensures |r| <= |row| && NoZero(r)
  {
    if |row| == 0 then []
    else (if row[0] != 0 then [row[0]] else []) + NonZeros(row[1..])
  }

  /** `s[::-1]`. */
  function Reverse(s: seq<int>): (r: seq<int>)
    ensures |r| == |s| && forall i :: 0 <= i < |s| ==> r[i] == s[|s| - 1 - i]
  {
    seq(|s|, (i: int) requires 0 <= i < |s| => s[|s| - 1 - i])
  }

  /** One merge pass from the front: an equal pair becomes its double, and the double is not
      merged again in the same pass. */
  function Merge(xs: seq<int>): (r: seq<int>)
    ensures |r| <= |xs|
  {
    if |xs| == 0 then []
    else if |xs| >= 2 && xs[0] == xs[1] then [2 * xs[0]] + Merge(xs[2..])
    else [xs[0]] + Merge(xs[1..])
  }

  /** The score the merge pass adds: the sum of the doubled tiles. */
  function MergeGain(xs: seq<int>): int {
    if |xs| == 0 then 0
    else if |xs| >= 2 && xs[0] == xs[1] then 2 * xs[0] + MergeGain(xs[2..])
    else MergeGain(xs[1..])
  }

  /** The merge pass seen from the tile at index k. */
  lemma MergeAt(xs: seq<int>, k: int)
    requires 0 <= k < |xs|
    ensures k + 1 < |xs| && xs[k] == xs[k + 1] ==>
              && Merge(xs[k..]) == [2 * xs[k]] + Merge(xs[k + 2..])
              && MergeGain(xs[k..]) == 2 * xs[k] + MergeGain(xs[k + 2..])
    ensures !(k + 1 < |xs| && xs[k] == xs[k + 1]) ==>
              && Merge(xs[k..]) == [xs[k]] + Merge(xs[k + 1..])
              && MergeGain(xs[k..]) == MergeGain(xs[k + 1..])
  {
    assert xs[k..][1..] == xs[k + 1..];
    if k + 1 < |xs| {
      assert xs[k..][2..] == xs[k + 2..];
    }
  }

  /** The merge pass started at index k. */
  function MergeFrom(xs: seq<int>, k: nat): seq<int>
    decreases |xs| - k
  {
    if k >= |xs| then []
    else if k + 1 < |xs| && xs[k] == xs[k + 1] then [2 * xs[k]] + MergeFrom(xs, k + 2)
    else [xs[k]] + MergeFrom(xs, k + 1)
  }

  function GainFrom(xs: seq<int>, k: nat): int
    decreases |xs| - k
  {
    if k >= |xs| then 0
    else if k + 1 < |xs| && xs[k] == xs[k + 1] then 2 * xs[k] + GainFrom(xs, k + 2)
    else GainFrom(xs, k + 1)
  }

  lemma AppendAssoc(a: seq<int>, b: seq<int>, c: seq<int>)
    ensures a + b + c == a + (b + c)
  {
  }

  /** One step of the index-based pass. */
  lemma MergeFromStep(xs: seq<int>, k: nat)
    requires k < |xs|
    ensures k + 1 < |xs| && xs[k] == xs[k + 1] ==>
              MergeFrom(xs, k) == [2 * xs[k]] + MergeFrom(xs, k + 2) && GainFrom(xs, k) == 2 * xs[k] + GainFrom(xs, k + 2)
    ensures !(k + 1 < |xs| && xs[k] == xs[k + 1]) ==>
              MergeFrom(xs, k) == [xs[k]] + MergeFrom(xs, k + 1) && GainFrom(xs, k) == GainFrom(xs, k + 1)
  {
  }

  /** The merge loop's progress: the output so far followed by the pass from the next
      unconsumed tile stays the whole pass, and so does the score. */
  lemma MergeProgress(xs: seq<int>, out: seq<int>, k: nat, merged: seq<int>)
    requires k < |xs| && out + MergeFrom(xs, k) == merged
    ensures k + 1 < |xs| && xs[k] == xs[k + 1] ==>
              && out + [2 * xs[k]] + MergeFrom(xs, k + 2) == merged
              && GainFrom(xs, k) == 2 * xs[k] + GainFrom(xs, k + 2)
    ensures !(k + 1 < |xs| && xs[k] == xs[k + 1]) ==>
              && out + [xs[k]] + MergeFrom(xs, k + 1) == merged
              && GainFrom(xs, k) == GainFrom(xs, k + 1)
  {
    MergeFromStep(xs, k);
    if k + 1 < |xs| && xs[k] == xs[k + 1] {
      AppendAssoc(out, [2 * xs[k]], MergeFrom(xs, k + 2));
    } else {
      AppendAssoc(out, [xs[k]], MergeFrom(xs, k + 1));
    }
  }

  /** The index-based pass agrees with the pass on the suffix. */
  lemma {:induction false} MergeFromSlice(xs: seq<int>, k: nat)
    requires k <= |xs|
    ensures MergeFrom(xs, k) == Merge(xs[k..]) && GainFrom(xs, k) == MergeGain(xs[k..])
    decreases |xs| - k
  {
    if k < |xs| {
      MergeAt(xs, k);
      if k + 1 < |xs| && xs[k] == xs[k + 1] {
        MergeFromSlice(xs, k + 2);
      } else {
        MergeFromSlice(xs, k + 1);
      }
    }
  }

  /** `new_row + [0] * (n - len(new_row))`: Python repeats a list a negative number of times
      as the empty list. */
  function Pad(s: seq<int>, n: int): (r: seq<int>)
    ensures |r| == (if |s| <= n then n else |s|)
    ensures forall i :: 0 <= i < |s| ==> r[i] == s[i]
    ensures forall i :: |s| <= i < |r| ==> r[i] == 0
  {
    s + seq(if n - |s| > 0 then n - |s| else 0, _ => 0)
  }

  /** The non-zero tiles in the order the merge pass visits them. */
  function Tiles(row: seq<int>, reverse: bool): (r: seq<int>)
    ensures |r| == |NonZeros(row)| && NoZero(r)
  {
    if reverse then Reverse(NonZeros(row)) else NonZeros(row)
  }

  /** A line stacked towards its front, or towards its back when `reverse`. */
  function StackLine(row: seq<int>, n: int, reverse: bool): (r: seq<int>)
    ensures |row| <= n ==> |r| == n
  {
    var packed := Pad(Merge(Tiles(row, reverse)), n);
    if reverse then Reverse(packed) else packed
  }

  function LineGain(row: seq<int>, reverse: bool): int {
    MergeGain(Tiles(row, reverse))
  }

  // ---------------------------------------------------------------------------------------
  // Facts about lines

  lemma {:induction false} NonZerosAppend(s: seq<int>, t: seq<int>)
    ensures NonZeros(s + t) == NonZeros(s) + NonZeros(t)
  {
    if |s| == 0 {
      assert s + t == t;
    } else {
      var h := if s[0] != 0 then [s[0]] else [];
      assert (s + t)[0] == s[0];
      assert (s + t)[1..] == s[1..] + t;
      assert NonZeros(s + t) == h + NonZeros(s[1..] + t);
      NonZerosAppend(s[1..], t);
      assert h + (NonZeros(s[1..]) + NonZeros(t)) == (h + NonZeros(s[1..])) + NonZeros(t);
    }
  }

  lemma {:induction false} NonZerosReverse(s: seq<int>)
    ensures NonZeros(Reverse(s)) == Reverse(NonZeros(s))
  {
    if |s| > 0 {
      assert Reverse(s) == Reverse(s[1..]) + [s[0]];
      NonZerosAppend(Reverse(s[1..]), [s[0]]);
      NonZerosReverse(s[1..]);
      assert NonZeros([s[0]]) == if s[0] != 0 then [s[0]] else [];
      var h := if s[0] != 0 then [s[0]] else [];
      assert Reverse(h + NonZeros(s[1..])) == Reverse(NonZeros(s[1..])) + Reverse(h);
    }
  }

  /** A line with as many tiles as cells is its own list of tiles. */
  lemma {:induction false} NonZerosFull(s: seq<int>)
    requires |NonZeros(s)| == |s|
    ensures NonZeros(s) == s
  {
    if |s| > 0 {
      NonZerosFull(s[1..]);
    }
  }

  lemma {:induction false} NonZerosOfTiles(m: seq<int>)
    requires NoZero(m)
    ensures NonZeros(m) == m
  {
    if |m| > 0 {
      NonZerosOfTiles(m[1..]);
    }
  }

  lemma {:induction false} NonZerosOfZeros(z: seq<int>)
    requires forall i :: 0 <= i < |z| ==> z[i] == 0
    ensures NonZeros(z) == []
  {
    if |z| > 0 {
      NonZerosOfZeros(z[1..]);
    }
  }

  /** Zeros added at the end are not tiles. */
  lemma NonZerosPad(m: seq<int>, n: int)
    requires NoZero(m)
    ensures NonZeros(Pad(m, n)) == m
  {
    var z := seq(if n - |m| > 0 then n - |m| else 0, _ => 0);
    NonZerosAppend(m, z);
    NonZerosOfTiles(m);
    NonZerosOfZeros(z);
  }

  /** The tiles of a line of non-negative cells are positive; a line has no tile only when
      every cell is empty. */
  lemma {:induction false} NonZerosSigns(row: seq<int>)
    ensures NonNeg(row) ==> forall i :: 0 <= i < |NonZeros(row)| ==> NonZeros(row)[i] > 0
    ensures |NonZeros(row)| == 0 <==> forall i :: 0 <= i < |row| ==> row[i] == 0
  {
    if |row| > 0 {
      NonZerosSigns(row[1..]);
      var h := if row[0] != 0 then [row[0]] else [];
      assert NonZeros(row) == h + NonZeros(row[1..]);
      if |NonZeros(row)| == 0 {
        assert row[0] == 0;
      }
    }
  }

  /** The merge pass keeps tiles non-zero and positive tiles positive; when it does not
      shorten the line, nothing was merged, nothing scored, and the line is unchanged. */
  lemma {:induction false} MergeFacts(xs: seq<int>)
    ensures NoZero(xs) ==> NoZero(Merge(xs))
    ensures (forall i :: 0 <= i < |xs| ==> xs[i] > 0) ==> forall i :: 0 <= i < |Merge(xs)| ==> Merge(xs)[i] > 0
    ensures |Merge(xs)| == |xs| ==> Merge(xs) == xs && MergeGain(xs) == 0
    ensures |xs| > 0 ==> |Merge(xs)| > 0
  {
    if |xs| >= 2 && xs[0] == xs[1] {
      MergeFacts(xs[2..]);
    } else if |xs| > 0 {
      MergeFacts(xs[1..]);
    }
  }

  /** The tiles of a stacked line are the merged tiles, read from the front, or from the back
      for DOWN and RIGHT. */
  lemma StackLineTiles(row: seq<int>, n: int, reverse: bool)
    requires |row| == n
    ensures NonZeros(StackLine(row, n, reverse)) == (if reverse then Reverse(Merge(Tiles(row, true)))
                                                     else Merge(Tiles(row, false)))
  {
    var t := Tiles(row, reverse);
    MergeFacts(t);
    var m := Merge(t);
    NonZerosPad(m, n);
    if reverse {
      NonZerosReverse(Pad(m, n));
    }
  }

  /** The stacked line holds the merged tiles at its front and zeros behind them (at its back
      and zeros in front of them for DOWN and RIGHT). */
  lemma StackLineLayout(row: seq<int>, n: int, reverse: bool)
    requires |row| == n
    ensures var r := StackLine(row, n, reverse);
            var m := Merge(Tiles(row, reverse));
            && (!reverse ==> (forall i :: 0 <= i < |m| ==> r[i] == m[i]) && (forall i :: |m| <= i < n ==> r[i] == 0))
            && (reverse ==> (forall i :: 0 <= i < n - |m| ==> r[i] == 0) && (forall i :: n - |m| <= i < n ==> r[i] == m[n - 1 - i]))
  {
  }

  /** Stacking never creates tiles: the number of tiles of a line drops by one per merge. */
  lemma TileCount(row: seq<int>, n: int, reverse: bool)
    requires |row| == n
    ensures |NonZeros(StackLine(row, n, reverse))| == |Merge(Tiles(row, reverse))|
  {
    StackLineTiles(row, n, reverse);
  }

  /** A line that stacking leaves unchanged scores nothing. */
  lemma UnchangedLineGain(row: seq<int>, n: int, reverse: bool)
    requires |row| == n && StackLine(row, n, reverse) == row
    ensures LineGain(row, reverse) == 0
  {
    TileCount(row, n, reverse);
    MergeFacts(Tiles(row, reverse));
  }

  /** A stacked line without an empty cell is the line itself: so a line that stacking
      changes has an empty cell afterwards. */
  lemma FullLineUnchanged(row: seq<int>, n: int, reverse: bool)
    requires |row| == n && NoZero(StackLine(row, n, reverse))
    ensures StackLine(row, n, reverse) == row
  {
    var t := Tiles(row, reverse);
    var m := Merge(t);
    MergeFullLength(row, n, reverse);
    MergeFacts(t);
    assert m == t;
    NonZerosFull(row);
    var packed := Pad(m, n);
    assert packed == m;
    if reverse {
      assert t == Reverse(row);
      assert Reverse(Reverse(row)) == row;
    } else {
      assert t == row;
    }
  }

  /** A stacked line without an empty cell holds as many tiles as the line has cells, and
      the merge pass merged none of them. */
  lemma MergeFullLength(row: seq<int>, n: int, reverse: bool)
    requires |row| == n && NoZero(StackLine(row, n, reverse))
    ensures |Merge(Tiles(row, reverse))| == n == |Tiles(row, reverse)|
  {
    StackLineLayout(row, n, reverse);
    var r := StackLine(row, n, reverse);
    if n > 0 {
      assert r[0] != 0 && r[n - 1] != 0;
    }
  }

  /** A line of non-negative cells stays non-negative and, if it had a tile, keeps one. */
  lemma StackLineSigns(row: seq<int>, n: int, reverse: bool)
    requires |row| == n && NonNeg(row)
    ensures NonNeg(StackLine(row, n, reverse))
    ensures (exists i :: 0 <= i < n && row[i] > 0) ==> exists i :: 0 <= i < n && StackLine(row, n, reverse)[i] > 0
  {
    var t := Tiles(row, reverse);
    NonZerosSigns(row);
    assert forall i :: 0 <= i < |t| ==> t[i] > 0;
    MergeFacts(t);
    var m := Merge(t);
    StackLineLayout(row, n, reverse);
    var r := StackLine(row, n, reverse);
    if exists i :: 0 <= i < n && row[i] > 0 {
      assert |m| > 0;
      if reverse {
        assert r[n - 1] == m[0];
      } else {
        assert r[0] == m[0];
      }
    }
  }

  // ---------------------------------------------------------------------------------------
  // The field

  /** The lines the stack works on: the columns for UP and DOWN, the rows otherwise. */
  function Lines(g: Grid, n: nat, direction: int): (ls: Grid)
    requires IsRect(g, n, n)
    ensures IsRect(ls, n, n)
  {
    if direction == UP || direction == DOWN then Transpose(g, n) else g
  }

  /** DOWN and RIGHT stack towards the back of each line. */
  predicate Reversed(direction: int) {
    direction == DOWN || direction == RIGHT
  }

  function StackRows(ls: Grid, n: nat, reverse: bool): (r: Grid)
    requires IsRect(ls, |ls|, n)
    ensures IsRect(r, |ls|, n)
    ensures forall i :: 0 <= i < |ls| ==> r[i] == StackLine(ls[i], n, reverse)
  {
    seq(|ls|, (i: int) requires 0 <= i < |ls| => StackLine(ls[i], n, reverse))
  }

  /** `stack(direction)`: the stacked field. */
  function StackFn(g: Grid, n: nat, direction: int): (r: Grid)
    requires IsRect(g, n, n)
    ensures IsRect(r, n, n)
  {
    var s := StackRows(Lines(g, n, direction), n, Reversed(direction));
    if direction == UP || direction == DOWN then Transpose(s, n) else s
  }

  /** The score gained by stacking the lines `ls`, line by line. */
  function RowsGain(ls: Grid, reverse: bool): int {
    if |ls| == 0 then 0 else RowsGain(ls[..|ls| - 1], reverse) + LineGain(ls[|ls| - 1], reverse)
  }

  function GainFn(g: Grid, n: nat, direction: int): int
    requires IsRect(g, n, n)
  {
    RowsGain(Lines(g, n, direction), Reversed(direction))
  }

  /** The stacked field, read along the stacking direction, is the stacked lines. */
  lemma StackFnLines(g: Grid, n: nat, direction: int)
    requires IsRect(g, n, n)
    ensures Lines(StackFn(g, n, direction), n, direction) == StackRows(Lines(g, n, direction), n, Reversed(direction))
  {
    if direction == UP || direction == DOWN {
      TransposeTwice(StackRows(Lines(g, n, direction), n, Reversed(direction)), n, n);
    }
  }

  lemma RowsGainStep(ls: Grid, k: int, reverse: bool)
    requires 0 <= k < |ls|
    ensures RowsGain(ls[..k + 1], reverse) == RowsGain(ls[..k], reverse) + LineGain(ls[k], reverse)
  {
    assert ls[..k + 1][..k] == ls[..k];
  }

  lemma {:induction false} RowsGainZero(ls: Grid, n: nat, reverse: bool)
    requires IsRect(ls, |ls|, n) && StackRows(ls, n, reverse) == ls
    ensures RowsGain(ls, reverse) == 0
  {
    if |ls| > 0 {
      var p := ls[..|ls| - 1];
      assert StackRows(p, n, reverse) == p by {
        assert forall i :: 0 <= i < |p| ==> StackRows(ls, n, reverse)[i] == StackLine(p[i], n, reverse);
      }
      RowsGainZero(p, n, reverse);
      assert StackRows(ls, n, reverse)[|ls| - 1] == ls[|ls| - 1];
      UnchangedLineGain(ls[|ls| - 1], n, reverse);
    }
  }

  /** A move that leaves the field unchanged scores nothing. */
  lemma UnchangedGain(g: Grid, n: nat, direction: int)
    requires IsRect(g, n, n) && StackFn(g, n, direction) == g
    ensures GainFn(g, n, direction) == 0
  {
    StackFnLines(g, n, direction);
    RowsGainZero(Lines(g, n, direction), n, Reversed(direction));
  }

  /** A move that changes the field leaves an empty cell, so the spawn after it succeeds. */
  lemma ChangedHasEmpty(g: Grid, n: nat, direction: int)
    requires IsRect(g, n, n) && StackFn(g, n, direction) != g
    ensures exists i, j :: 0 <= i < n && 0 <= j < n && StackFn(g, n, direction)[i][j] == 0
  {
    var r := StackFn(g, n, direction);
    var ls := Lines(g, n, direction);
    var rev := Reversed(direction);
    StackFnLines(g, n, direction);
    if StackRows(ls, n, rev) == ls {
      if direction == UP || direction == DOWN {
        TransposeTwice(g, n, n);
      }
      assert false;
    }
    var i :| 0 <= i < n && StackRows(ls, n, rev)[i] != ls[i];
    if NoZero(StackLine(ls[i], n, rev)) {
      FullLineUnchanged(ls[i], n, rev);
    }
    var j :| 0 <= j < n && StackLine(ls[i], n, rev)[j] == 0;
    if direction == UP || direction == DOWN {
      assert r[j][i] == 0;
    } else {
      assert r[i][j] == 0;
    }
  }

  /** Every cell is an empty cell or a tile of positive value. */
  ghost predicate NonNegative(g: Grid) {
    forall i, j :: InBounds(g, i, j) ==> g[i][j] >= 0
  }

  ghost predicate HasTile(g: Grid) {
    exists i, j :: InBounds(g, i, j) && g[i][j] > 0
  }

  /** Stacking keeps tiles non-negative, and a field with a tile keeps one. */
  lemma StackSigns(g: Grid, n: nat, direction: int)
    requires IsRect(g, n, n) && NonNegative(g)
    ensures NonNegative(StackFn(g, n, direction))
    ensures HasTile(g) ==> HasTile(StackFn(g, n, direction))
  {
    StackNonNegative(g, n, direction);
    if HasTile(g) {
      StackKeepsTile(g, n, direction);
    }
  }

  lemma StackNonNegative(g: Grid, n: nat, direction: int)
    requires IsRect(g, n, n) && NonNegative(g)
    ensures NonNegative(StackFn(g, n, direction))
  {
    var ls := Lines(g, n, direction);
    var rev := Reversed(direction);
    var r := StackFn(g, n, direction);
    StackFnLines(g, n, direction);
    var rl := Lines(r, n, direction);
    forall i | 0 <= i < n
      ensures NonNeg(rl[i])
    {
      StackLineSigns(ls[i], n, rev);
    }
    forall i, j | 0 <= i < n && 0 <= j < n ensures r[i][j] >= 0 {
      if direction == UP || direction == DOWN {
        assert r[i][j] == rl[j][i];
      } else {
        assert r[i][j] == rl[i][j];
      }
    }
  }

  lemma StackKeepsTile(g: Grid, n: nat, direction: int)
    requires IsRect(g, n, n) && NonNegative(g) && HasTile(g)
    ensures HasTile(StackFn(g, n, direction))
  {
    StackFnLines(g, n, direction);
    LinesKeepTile(g, StackFn(g, n, direction), n, direction);
  }

  /** A field whose lines are the stacked lines of g has a tile when g has one. */
  lemma LinesKeepTile(g: Grid, r: Grid, n: nat, direction: int)
    requires IsRect(g, n, n) && IsRect(r, n, n) && NonNegative(g) && HasTile(g)
    requires Lines(r, n, direction) == StackRows(Lines(g, n, direction), n, Reversed(direction))
    ensures HasTile(r)
  {
    var ls := Lines(g, n, direction);
    var rl := Lines(r, n, direction);
    var i, j :| InBounds(g, i, j) && g[i][j] > 0;
    var li, lj := if direction == UP || direction == DOWN then j else i, if direction == UP || direction == DOWN then i else j;
    assert ls[li][lj] == g[i][j];
    assert NonNeg(ls[li]);
    var k := StackedLineTile(ls, n, Reversed(direction), li, lj);
    if direction == UP || direction == DOWN {
      assert r[k][li] == rl[li][k];
    } else {
      assert r[li][k] == rl[li][k];
    }
  }

  /** Line li of the stacked lines keeps a tile when it had one at index lj. */
  lemma StackedLineTile(ls: Grid, n: nat, reverse: bool, li: int, lj: int) returns (k: int)
    requires IsRect(ls, |ls|, n) && 0 <= li < |ls| && 0 <= lj < n && NonNeg(ls[li]) && ls[li][lj] > 0
    ensures 0 <= k < n && StackRows(ls, n, reverse)[li][k] > 0
  {
    StackLineSigns(ls[li], n, reverse);
    k :| 0 <= k < n && StackLine(ls[li], n, reverse)[k] > 0;
  }

  /** The example of the source's documentation: [0, 2, 2, 2] stacked RIGHT is [0, 0, 2, 4];
      the merged 4 does not absorb the remaining 2. */
  lemma StackRightExample()
    ensures StackLine([0, 2, 2, 2], 4, Reversed(RIGHT)) == [0, 0, 2, 4]
    ensures LineGain([0, 2, 2, 2], Reversed(RIGHT)) == 4
  {
    assert NonZeros([0, 2, 2, 2]) == [2, 2, 2] by {
      assert [0, 2, 2, 2][1..] == [2, 2, 2];
      assert [2, 2, 2][1..] == [2, 2];
      assert [2, 2][1..] == [2];
      assert [2][1..] == [];
    }
    assert Reverse([2, 2, 2]) == [2, 2, 2];
    assert Merge([2, 2, 2]) == [4, 2] by {
      assert [2, 2, 2][2..] == [2];
      assert [2][1..] == [];
    }
    assert MergeGain([2, 2, 2]) == 4 by {
      assert [2, 2, 2][2..] == [2];
      assert [2][1..] == [];
    }
    assert Pad([4, 2], 4) == [4, 2, 0, 0];
  }

  // ---------------------------------------------------------------------------------------
  // Spawning

  /** The value `spawn` writes: the custom value if one is given, otherwise twice the base
      number when the draw in [0, 100) falls below the percentage, else the base number. */
  function SpawnValue(custom: Option<int>, base: int, percent: int, draw: nat): (v: int)
    ensures custom.Some? ==> v == custom.value
    ensures custom.None? ==> (v == 2 * base <==> RandInt(0, 99, draw) < percent || base == 0)
    ensures custom.None? ==> v == base || v == 2 * base
  {
    if custom.Some? then custom.value
    else if RandInt(0, 99, draw) < percent then base * 2 else base
  }

  /** The field after the first `k` spawns: positions are drawn, with replacement, from the
      empty cells found before the first spawn. */
  function SpawnFn(g: Grid, empties: seq<(int, int)>, k: nat, custom: Option<int>, base: int, percent: int,
                   positions: seq<nat>, values: seq<nat>): (r: Grid)
    requires k <= |positions| && k <= |values|
    requires k > 0 ==> |empties| > 0
    requires forall p :: p in empties ==> InBounds(g, p.0, p.1)
    ensures |r| == |g| && forall i :: 0 <= i < |g| ==> |r[i]| == |g[i]|
    decreases k
  {
    if k == 0 then g
    else
      var p := empties[Choice(|empties|, positions[k - 1])];
      var r := SpawnFn(g, empties, k - 1, custom, base, percent, positions, values);
      Update(r, p.0, p.1, SpawnValue(custom, base, percent, values[k - 1]))
  }

  /** A spawn fills only cells that were empty, each with a spawn value; every other cell,
      and in particular every tile, is unchanged. */
  lemma {:induction false} SpawnFnCells(g: Grid, empties: seq<(int, int)>, k: nat, custom: Option<int>, base: int,
                                        percent: int, positions: seq<nat>, values: seq<nat>)
    requires k <= |positions| && k <= |values| && (k > 0 ==> |empties| > 0)
    requires forall p :: p in empties ==> InBounds(g, p.0, p.1) && g[p.0][p.1] == 0
    ensures var r := SpawnFn(g, empties, k, custom, base, percent, positions, values);
            forall i, j :: InBounds(g, i, j) ==>
              r[i][j] == g[i][j] || (g[i][j] == 0 && (exists d :: 0 <= d < k && r[i][j] == SpawnValue(custom, base, percent, values[d])))
    decreases k
  {
    if k > 0 {
      SpawnFnCells(g, empties, k - 1, custom, base, percent, positions, values);
      var r := SpawnFn(g, empties, k, custom, base, percent, positions, values);
      var r1 := SpawnFn(g, empties, k - 1, custom, base, percent, positions, values);
      var p := empties[Choice(|empties|, positions[k - 1])];
      assert p in empties;
      forall i, j | InBounds(g, i, j)
        ensures r[i][j] == g[i][j] || (g[i][j] == 0 && (exists d :: 0 <= d < k && r[i][j] == SpawnValue(custom, base, percent, values[d])))
      {
        if i == p.0 && j == p.1 {
          assert r[i][j] == SpawnValue(custom, base, percent, values[k - 1]);
        } else {
          assert r[i][j] == r1[i][j];
        }
      }
    }
  }

  /** Spawning with a non-negative base (and no negative custom value) keeps tiles
      non-negative, and keeps a tile. */
  lemma SpawnSigns(g: Grid, empties: seq<(int, int)>, k: nat, custom: Option<int>, base: int, percent: int,
                   positions: seq<nat>, values: seq<nat>)
    requires k <= |positions| && k <= |values| && (k > 0 ==> |empties| > 0)
    requires forall p :: p in empties ==> InBounds(g, p.0, p.1) && g[p.0][p.1] == 0
    requires base >= 0 && (custom.Some? ==> custom.value >= 0) && NonNegative(g)
    ensures NonNegative(SpawnFn(g, empties, k, custom, base, percent, positions, values))
    ensures HasTile(g) ==> HasTile(SpawnFn(g, empties, k, custom, base, percent, positions, values))
  {
    SpawnFnCells(g, empties, k, custom, base, percent, positions, values);
    var r := SpawnFn(g, empties, k, custom, base, percent, positions, values);
    forall i, j | InBounds(r, i, j) ensures r[i][j] >= 0 {
      assert InBounds(g, i, j);
    }
    if HasTile(g) {
      var i, j :| InBounds(g, i, j) && g[i][j] > 0;
      assert r[i][j] == g[i][j];
    }
  }

  // ---------------------------------------------------------------------------------------
  // The whole of one `spawn` call, and the probe of `check_game_over`

  /** `spawn` succeeds unless the array of empty-cell coordinates (two numbers per cell) is
      smaller than the number of tiles asked for. */
  predicate SpawnSucceeds(g: Grid, spawnNo: int) {
    2 * |ZeroCells(g)| >= spawnNo
  }

  /** The field after a `spawn` call: unchanged when it fails, otherwise one draw per tile. */
  function SpawnResult(g: Grid, spawnNo: int, custom: Option<int>, base: int, percent: int,
                       positions: seq<nat>, values: seq<nat>): (r: Grid)
    requires spawnNo <= |positions| && spawnNo <= |values|
    ensures |r| == |g| && forall i :: 0 <= i < |g| ==> |r[i]| == |g[i]|
  {
    if !SpawnSucceeds(g, spawnNo) || spawnNo <= 0 then g
    else
      ZeroCellsSpec(g);
      SpawnFn(g, ZeroCells(g), spawnNo, custom, base, percent, positions, values)
  }

  /** A field with an empty cell has room for one more tile. */
  lemma EmptyCellSpawns(g: Grid, n: nat)
    requires IsRect(g, n, n) && exists i, j :: 0 <= i < n && 0 <= j < n && g[i][j] == 0
    ensures SpawnSucceeds(g, 1)
  {
    var i, j :| 0 <= i < n && 0 <= j < n && g[i][j] == 0;
    ZeroCellsSpec(g);
    assert (i, j) in ZeroCells(g);
  }

  /** A move (stack, then one spawn with a non-negative base) keeps the field free of
      negative tiles and keeps a tile on it. */
  lemma MoveSigns(g: Grid, n: nat, direction: int, base: int, percent: int, position: nat, value: nat)
    requires IsRect(g, n, n) && NonNegative(g) && HasTile(g) && base >= 0
    ensures NonNegative(SpawnResult(StackFn(g, n, direction), 1, None, base, percent, [position], [value]))
    ensures HasTile(SpawnResult(StackFn(g, n, direction), 1, None, base, percent, [position], [value]))
  {
    StackSigns(g, n, direction);
    var s := StackFn(g, n, direction);
    if SpawnSucceeds(s, 1) {
      ZeroCellsSpec(s);
      SpawnSigns(s, ZeroCells(s), 1, None, base, percent, [position], [value]);
    }
  }

  /** Whether stacking in direction d changes the field. */
  predicate Changes(g: Grid, n: nat, d: int)
    requires IsRect(g, n, n)
  {
    StackFn(g, n, d) != g
  }

  /** The first direction from k on, in the order 0, 1, 2, 3, that changes the field; 4 if
      none does. */
  function FirstChange(g: Grid, n: nat, k: int): (r: int)
    requires IsRect(g, n, n) && 0 <= k <= 4
    ensures k <= r <= 4
    ensures forall e :: k <= e < r ==> !Changes(g, n, e)
    ensures r < 4 ==> Changes(g, n, r)
    decreases 4 - k
  {
    if k == 4 then 4 else if Changes(g, n, k) then k else FirstChange(g, n, k + 1)
  }

  /** `field.copy()`. */
  method CopyGrid(a: array2<int>) returns (c: array2<int>)
    ensures fresh(c) && c.Length0 == a.Length0 && c.Length1 == a.Length1
    ensures Snapshot(c) == Snapshot(a)
  {
    c := new int[a.Length0, a.Length1]((i, j) requires 0 <= i < a.Length0 && 0 <= j < a.Length1 reads a => a[i, j]);
    Extensionality(Snapshot(c), Snapshot(a), a.Length0, a.Length1);
  }

  /** `a.T`, as a new array. */
  method TransposeArray(a: array2<int>) returns (t: array2<int>)
    requires a.Length0 == a.Length1
    ensures fresh(t) && t.Length0 == a.Length1 && t.Length1 == a.Length0
    ensures Snapshot(t) == Transpose(Snapshot(a), a.Length1)
  {
    t := new int[a.Length1, a.Length0]((i, j) requires 0 <= i < a.Length1 && 0 <= j < a.Length0 reads a => a[j, i]);
    Extensionality(Snapshot(t), Transpose(Snapshot(a), a.Length1), a.Length1, a.Length0);
  }

  /** `new_field[index] = new_row`. */
  method SetRow(a: array2<int>, index: int, row: seq<int>)
    requires 0 <= index < a.Length0 && |row| == a.Length1
    modifies a
    ensures forall i, j :: 0 <= i < a.Length0 && 0 <= j < a.Length1 ==>
              a[i, j] == if i == index then row[j] else old(a[i, j])
  {
    for j := 0 to a.Length1
      invariant forall i, k :: 0 <= i < a.Length0 && 0 <= k < a.Length1 ==>
                  a[i, k] == if i == index && k < j then row[k] else old(a[i, k])
    {
      a[index, j] := row[j];
    }
  }

  // ---------------------------------------------------------------------------------------
  // The game grid

  /** `GameGrid`: a frameSize x frameSize field, the field a stack produced last, and the
      score. The random draws of each spawn are supplied by the caller: one position draw and
      one value draw per tile. */
  class GameGrid {
    const frameSize: nat
    const baseNumber: int
    const percentDoubleBaseOnSpawn: int
    var field: array2<int>
    var newField: array2?<int>
    var score: int

    ghost predicate Valid()
      reads this
    {
      && field.Length0 == frameSize && field.Length1 == frameSize
      && (newField != null ==> newField.Length0 == frameSize && newField.Length1 == frameSize)
    }

    /** A new game: the field is cleared and two tiles are spawned (`restart()`). */
    constructor (frameSize: nat, baseNumber: int, percentDoubleBaseOnSpawn: int, positions: seq<nat>, values: seq<nat>)
      requires |positions| >= 2 && |values| >= 2
      ensures Valid() && fresh(field) && newField == null && score == 0
      ensures this.frameSize == frameSize && this.baseNumber == baseNumber
      ensures this.percentDoubleBaseOnSpawn == percentDoubleBaseOnSpawn
      ensures Snapshot(field) == SpawnResult(Zeros(frameSize, frameSize), 2, None, baseNumber, percentDoubleBaseOnSpawn, positions, values)
    {
      this.frameSize := frameSize;
      this.baseNumber := baseNumber;
      this.percentDoubleBaseOnSpawn := percentDoubleBaseOnSpawn;
      field := new int[0, 0];
      newField := null;
      score := 0;
      new;
      Restart(2, positions, values);
    }

    /** `restart`: score 0, an empty field, then `spawn(spawnNo)`. */
    method Restart(spawnNo: int, positions: seq<nat>, values: seq<nat>)
      requires spawnNo <= |positions| && spawnNo <= |values|
      modifies this
      ensures fresh(field) && newField == old(newField) && score == 0
      ensures field.Length0 == frameSize && field.Length1 == frameSize
      ensures Snapshot(field) == SpawnResult(Zeros(frameSize, frameSize), spawnNo, None, baseNumber, percentDoubleBaseOnSpawn, positions, values)
    {
      score := 0;
      field := new int[frameSize, frameSize]((i, j) => 0);
      Extensionality(Snapshot(field), Zeros(frameSize, frameSize), frameSize, frameSize);
      var _, _ := Spawn(spawnNo, None, positions, values);
    }

    /** `spawn`: the empty cells are listed once; if there are enough of them, each tile
        draws its cell from that list (with replacement) and gets the custom value, or twice
        the base number with the given percentage, or the base number. On failure the score
        is reported. */
    method Spawn(spawnNo: int, customValue: Option<int>, positions: seq<nat>, values: seq<nat>)
      returns (success: bool, reported: Option<int>)
      requires spawnNo <= |positions| && spawnNo <= |values|
      modifies field
      ensures success <==> SpawnSucceeds(old(Snapshot(field)), spawnNo)
      ensures reported == if success then None else Some(score)
      ensures Snapshot(field) == SpawnResult(old(Snapshot(field)), spawnNo, customValue, baseNumber,
                                             percentDoubleBaseOnSpawn, positions, values)
    {
      ghost var g := Snapshot(field);
      var spawnPositions := Argwhere(field);
      if 2 * |spawnPositions| < spawnNo {
        return false, Some(score);
      }
      ZeroCellsSpec(g);
      var count := if spawnNo > 0 then spawnNo else 0;
      for ii := 0 to count
        invariant Snapshot(field) == SpawnFn(g, spawnPositions, ii, customValue, baseNumber, percentDoubleBaseOnSpawn, positions, values)
      {
        var pos := Choice(|spawnPositions|, positions[ii]);
        var (x, y) := spawnPositions[pos];
        assert spawnPositions[pos] in ZeroCells(g);
        SpawnTile(x, y, customValue, values[ii]);
      }
      return true, None;
    }

    /** The body of the `spawn` loop: the cell (x, y) gets the custom value, or a value drawn
        from the base number. */
    method SpawnTile(x: int, y: int, customValue: Option<int>, draw: nat)
      requires 0 <= x < field.Length0 && 0 <= y < field.Length1
      modifies field
      ensures Snapshot(field) == Update(old(Snapshot(field)), x, y, SpawnValue(customValue, baseNumber, percentDoubleBaseOnSpawn, draw))
    {
      if customValue.Some? {
        Write(field, x, y, customValue.value);
      } else {
        var randNum := RandInt(0, 99, draw);
        var spawnValue := if randNum < percentDoubleBaseOnSpawn then baseNumber * 2 else baseNumber;
        Write(field, x, y, spawnValue);
      }
    }

    /** One line of `stack`: its tiles, reversed for DOWN and RIGHT, are merged, padded with
        zeros and reversed back. */
    method StackRow(row: seq<int>, reverse: bool) returns (newRow: seq<int>)
      requires |row| == frameSize
      modifies this
      ensures field == old(field) && newField == old(newField)
      ensures newRow == StackLine(row, frameSize, reverse)
      ensures score == old(score) + LineGain(row, reverse)
    {
      var nonZeros := NonZeros(row);
      if reverse {
        nonZeros := Reverse(nonZeros);
      }
      newRow := MergeTiles(nonZeros);
      newRow := Pad(newRow, frameSize);
      if reverse {
        newRow := Reverse(newRow);
      }
    }

    /** The merge loop of `stack`: front to back, an unskipped tile equal to the next one is
        doubled, the double is added to the score, and the next tile is skipped. */
    method MergeTiles(nonZeros: seq<int>) returns (newRow: seq<int>)
      modifies this
      ensures field == old(field) && newField == old(newField)
      ensures newRow == Merge(nonZeros)
      ensures score == old(score) + MergeGain(nonZeros)
    {
      var numNonZero := |nonZeros|;
      newRow := [];
      var skip := false;
      ghost var next := 0;  // the first tile the pass has not consumed yet
      ghost var merged, total := MergeFrom(nonZeros, 0), score + GainFrom(nonZeros, 0);
      for ii := 0 to |nonZeros|
        invariant field == old(field) && newField == old(newField)
        invariant next == (if skip then ii + 1 else ii) && next <= |nonZeros|
        invariant newRow + MergeFrom(nonZeros, next) == merged
        invariant score + GainFrom(nonZeros, next) == total
      {
        if skip {
          skip := false;
        } else if ii < numNonZero - 1 && nonZeros[ii] == nonZeros[ii + 1] {
          MergeProgress(nonZeros, newRow, ii, merged);
          newRow := newRow + [nonZeros[ii] * 2];
          score := score + nonZeros[ii] * 2;
          skip := true;
          next := ii + 2;
        } else {
          MergeProgress(nonZeros, newRow, ii, merged);
          newRow := newRow + [nonZeros[ii]];
          next := ii + 1;
        }
      }
      MergeFromSlice(nonZeros, 0);
      assert nonZeros[0..] == nonZeros;
    }

    /** `stack(direction, temp_field)`: every line of the field (of `tempField` when one is
        given) is stacked; the columns for UP and DOWN. The score grows by every merge in
        both cases; without `tempField` the result becomes `newField`, with it the result is
        returned. */
    method Stack(direction: int, tempField: array2?<int>) returns (stacked: array2?<int>)
      requires Valid()
      requires tempField != null ==> tempField.Length0 == frameSize && tempField.Length1 == frameSize
      modifies this
      ensures Valid() && field == old(field)
      ensures tempField == null ==> && stacked == null && newField != null && fresh(newField)
                                    && Snapshot(newField) == StackFn(old(Snapshot(field)), frameSize, direction)
                                    && score == old(score) + GainFn(old(Snapshot(field)), frameSize, direction)
      ensures tempField != null ==> && stacked != null && fresh(stacked) && newField == old(newField)
                                    && stacked.Length0 == frameSize && stacked.Length1 == frameSize
                                    && Snapshot(stacked) == StackFn(old(Snapshot(tempField)), frameSize, direction)
                                    && score == old(score) + GainFn(old(Snapshot(tempField)), frameSize, direction)
    {
      var n := frameSize;
      var src := if tempField == null then Snapshot(field) else Snapshot(tempField);
      var lines := if direction == UP || direction == DOWN then Transpose(src, n) else src;
      assert lines == Lines(src, n, direction);
      var result := StackLines(lines, direction == DOWN || direction == RIGHT);
      if direction == UP || direction == DOWN {
        result := TransposeArray(result);
      }
      if tempField != null {
        stacked := CopyGrid(result);
      } else {
        newField := CopyGrid(result);
        stacked := null;
      }
    }

    /** The loop of `stack` over the lines: each line is stacked into a new field. */
    method StackLines(lines: Grid, reverse: bool) returns (result: array2<int>)
      requires IsRect(lines, frameSize, frameSize)
      modifies this
      ensures field == old(field) && newField == old(newField)
      ensures fresh(result) && result.Length0 == frameSize && result.Length1 == frameSize
      ensures Snapshot(result) == StackRows(lines, frameSize, reverse)
      ensures score == old(score) + RowsGain(lines, reverse)
    {
      var n := frameSize;
      ghost var target := StackRows(lines, n, reverse);
      result := new int[n, n]((i, j) => 0);
      for index := 0 to n
        invariant field == old(field) && newField == old(newField)
        invariant forall i, j :: 0 <= i < index && 0 <= j < n ==> result[i, j] == target[i][j]
        invariant score == old(score) + RowsGain(lines[..index], reverse)
      {
        var newRow := StackRow(lines[index], reverse);
        assert newRow == target[index];
        SetRow(result, index, newRow);
        RowsGainStep(lines, index, reverse);
      }
      assert lines[..n] == lines;
      Extensionality(Snapshot(result), target, n, n);
    }

    /** `check_changes`: whether the last stack changed the field. */
    method CheckChanges() returns (changed: bool)
      requires Valid() && newField != null
      ensures changed <==> Snapshot(field) != Snapshot(newField)
    {
      changed := !(Snapshot(field) == Snapshot(newField));
    }

    /** `move`: stack; if nothing changed the move fails and the field stays; otherwise the
        stacked field is taken and one tile is spawned, which then always succeeds. */
    method Move(direction: int, position: nat, value: nat) returns (success: bool)
      requires Valid()
      modifies this
      ensures Valid()
      ensures success <==> StackFn(old(Snapshot(field)), frameSize, direction) != old(Snapshot(field))
      ensures newField != null && fresh(newField) && Snapshot(newField) == StackFn(old(Snapshot(field)), frameSize, direction)
      ensures score == old(score) + GainFn(old(Snapshot(field)), frameSize, direction)
      ensures !success ==> field == old(field) && score == old(score)
      ensures success ==> && fresh(field)
                          && Snapshot(field) == SpawnResult(StackFn(old(Snapshot(field)), frameSize, direction), 1, None,
                                                            baseNumber, percentDoubleBaseOnSpawn, [position], [value])
    {
      ghost var g := Snapshot(field);
      var _ := Stack(direction, null);
      var changed := CheckChanges();
      if !changed {
        UnchangedGain(g, frameSize, direction);
        return false;
      }
      ChangedHasEmpty(g, frameSize, direction);
      EmptyCellSpawns(StackFn(g, frameSize, direction), frameSize);
      success := TakeStacked(position, value);
    }

    /** The end of a changing `move`: the stacked field becomes the field, and one tile is
        spawned on it. */
    method TakeStacked(position: nat, value: nat) returns (success: bool)
      requires Valid() && newField != null && SpawnSucceeds(Snapshot(newField), 1)
      modifies this
      ensures Valid() && newField == old(newField) && score == old(score) && success
      ensures Snapshot(newField) == old(Snapshot(newField))
      ensures fresh(field)
      ensures Snapshot(field) == SpawnResult(Snapshot(newField), 1, None, baseNumber, percentDoubleBaseOnSpawn, [position], [value])
    {
      field := CopyGrid(newField);
      assert field != newField;
      var reported;
      success, reported := Spawn(1, None, [position], [value]);
    }

    /** `check_game_over`: the game is over when no direction changes the field. The
        directions are tried in order on copies of the field; the first one that changes it
        ends the probe, and its merges are added to the score (the unchanged ones score
        nothing). */
    method CheckGameOver() returns (over: bool)
      requires Valid()
      modifies this
      ensures Valid() && field == old(field) && newField == old(newField)
      ensures over <==> FirstChange(old(Snapshot(field)), frameSize, 0) == 4
      ensures score == old(score) + (if over then 0 else GainFn(old(Snapshot(field)), frameSize, FirstChange(old(Snapshot(field)), frameSize, 0)))
    {
      ghost var g := Snapshot(field);
      for ii := 0 to 4
        invariant Valid() && field == old(field) && newField == old(newField)
        invariant Snapshot(field) == g
        invariant FirstChange(g, frameSize, ii) == FirstChange(g, frameSize, 0)
        invariant score == old(score)
      {
        var changed := Probe(ii, g);
        if changed {
          return false;
        }
        UnchangedGain(g, frameSize, ii);
      }
      return true;
    }

    /** One round of `check_game_over`: a copy of the field is stacked in direction d and
        compared with the field. */
    method Probe(d: int, ghost g: Grid) returns (changed: bool)
      requires Valid() && Snapshot(field) == g
      modifies this
      ensures Valid() && field == old(field) && newField == old(newField) && Snapshot(field) == g
      ensures changed == Changes(g, frameSize, d)
      ensures score == old(score) + GainFn(g, frameSize, d)
    {
      var testField := CopyGrid(field);
      var newF := Stack(d, testField);
      changed := !(Snapshot(testField) == Snapshot(newF));
    }

    /** `copy`: a copy of the field. */
    method Copy() returns (c: array2<int>)
      requires Valid()
      ensures fresh(c) && c.Length0 == frameSize && c.Length1 == frameSize
      ensures Snapshot(c) == Snapshot(field)
    {
      c := CopyGrid(field);
    }
  }
}
