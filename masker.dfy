/** The mask of the Sudoku creator: a 9 x 9 grid of 0s and 1s, where 1 marks a cell whose
    digit is given to the player. Clues are added one random empty cell at a time; the
    random index is supplied by the caller. */
module SudokuMask {
  import opened Grids
  import opened Oracle

  /** Python's index into an axis of length 9: a negative index counts from the end. */
  function PyIndex(i: int): (k: int)
    requires -9 <= i < 9
    ensures 0 <= k < 9 && (k == i || k == i + 9)
  {
    if i < 0 then i + 9 else i
  }

  /** The number of clues (1 cells) of a mask. */
  ghost function Clues(m: Grid): nat {
    CountIn(m, 1, 1)
  }

  /** The number of cells still open (0 cells) in a mask. */
  ghost function Open(m: Grid): nat {
    CountIn(m, 0, 0)
  }

  /** The mask after `add_mask_entry` chose entry `pick` of the list of open cells. */
  ghost function AddEntry(m: Grid, pick: nat): (r: Grid)
    requires IsRect(m, 9, 9) && Open(m) > 0
    ensures IsRect(r, 9, 9)
  {
    ZeroCellsSpec(m);
    var p := ZeroCells(m)[Choice(|ZeroCells(m)|, pick)];
    UpdateRect(m, 9, 9, p.0, p.1, 1);
    Update(m, p.0, p.1, 1)
  }

  /** `add_mask_entry` turns exactly one open cell into a clue and changes nothing else;
      the mask stays binary, one clue is gained and one open cell lost. */
  lemma AddEntrySpec(m: Grid, pick: nat)
    requires IsRect(m, 9, 9) && IsBinary(m) && Open(m) > 0
    ensures exists i, j :: 0 <= i < 9 && 0 <= j < 9 && m[i][j] == 0 && AddEntry(m, pick) == Update(m, i, j, 1)
    ensures IsBinary(AddEntry(m, pick))
    ensures Clues(AddEntry(m, pick)) == Clues(m) + 1
    ensures Open(AddEntry(m, pick)) == Open(m) - 1
  {
    ZeroCellsSpec(m);
    var p := ZeroCells(m)[Choice(|ZeroCells(m)|, pick)];
    assert p in ZeroCells(m);
    CountInUpdate(m, p.0, p.1, 1, 1, 1);
    CountInUpdate(m, p.0, p.1, 1, 0, 0);
  }

  /** The mask after `add_mask_entry` was called once per pick. */
  ghost function AddEntries(m: Grid, picks: seq<nat>): (r: Grid)
    requires IsRect(m, 9, 9) && IsBinary(m) && Open(m) >= |picks|
    ensures IsRect(r, 9, 9)
    decreases |picks|
  {
    if |picks| == 0 then m
    else
      AddEntrySpec(m, picks[0]);
      AddEntries(AddEntry(m, picks[0]), picks[1..])
  }

  /** `generate_start_mask(k)` gains exactly k clues, keeps every earlier clue and keeps the
      mask binary. */
  lemma {:induction false} AddEntriesSpec(m: Grid, picks: seq<nat>)
    requires IsRect(m, 9, 9) && IsBinary(m) && Open(m) >= |picks|
    ensures IsBinary(AddEntries(m, picks))
    ensures Clues(AddEntries(m, picks)) == Clues(m) + |picks|
    ensures Open(AddEntries(m, picks)) == Open(m) - |picks|
    ensures forall i, j :: 0 <= i < 9 && 0 <= j < 9 && m[i][j] == 1 ==> AddEntries(m, picks)[i][j] == 1
    decreases |picks|
  {
    if |picks| > 0 {
      AddEntrySpec(m, picks[0]);
      var m1 := AddEntry(m, picks[0]);
      AddEntriesSpec(m1, picks[1..]);
      assert forall i, j :: 0 <= i < 9 && 0 <= j < 9 && m[i][j] == 1 ==> m1[i][j] == 1;
    }
  }

  /** `MaskCreator`: its mask starts with every cell open, and is kept binary. */
  class MaskCreator {
    const mask: array2<int>

    ghost predicate Valid()
      reads this, mask
    {
      mask.Length0 == 9 && mask.Length1 == 9 && IsBinary(Snapshot(mask))
    }

    constructor ()
      ensures Valid() && fresh(mask)
      ensures Snapshot(mask) == Zeros(9, 9)
    {
      mask := new int[9, 9]((i, j) => 0);
      new;
      Extensionality(Snapshot(mask), Zeros(9, 9), 9, 9);
    }

    /** `add_mask_entry`: the open cells are listed row by row, flattened to indices
        9 * row + column, one index is chosen, and the cell it stands for becomes a clue.
        The choice fails when no cell is open. */
    method AddMaskEntry(pick: nat)
      requires Valid() && Open(Snapshot(mask)) > 0
      modifies mask
      ensures Valid()
      ensures Snapshot(mask) == AddEntry(old(Snapshot(mask)), pick)
    {
      ghost var m := Snapshot(mask);
      var zeros := Argwhere(mask);
      ZeroCellsSpec(m);
      var indices := seq(|zeros|, (k: int) requires 0 <= k < |zeros| => 9 * zeros[k].0 + zeros[k].1);
      var k := Choice(|indices|, pick);
      var idx := indices[k];
      assert zeros[k] in ZeroCells(m);
      assert idx / 9 == zeros[k].0 && idx % 9 == zeros[k].1;
      Write(mask, idx / 9, idx % 9, 1);
      AddEntrySpec(m, pick);
    }

    /** `generate_start_mask`: one `add_mask_entry` per pick; the mask is not reset first. */
    method GenerateStartMask(startEntries: nat, picks: seq<nat>)
      requires Valid() && |picks| == startEntries && Open(Snapshot(mask)) >= startEntries
      modifies mask
      ensures Valid()
      ensures Snapshot(mask) == AddEntries(old(Snapshot(mask)), picks)
    {
      ghost var m := Snapshot(mask);
      for ii := 0 to startEntries
        invariant Valid()
        invariant Open(Snapshot(mask)) == Open(m) - ii
        invariant AddEntries(m, picks) == AddEntries(Snapshot(mask), picks[ii..])
      {
        ghost var before := Snapshot(mask);
        AddMaskEntry(picks[ii]);
        AddEntrySpec(before, picks[ii]);
        assert picks[ii..][1..] == picks[ii + 1..];
      }
    }

    /** `remove_mask_entry`: the cell (ii, jj) is opened again, and nothing else changes. */
    method RemoveMaskEntry(ii: int, jj: int)
      requires Valid() && -9 <= ii < 9 && -9 <= jj < 9
      modifies mask
      ensures Valid()
      ensures Snapshot(mask) == Update(old(Snapshot(mask)), PyIndex(ii), PyIndex(jj), 0)
    {
      Write(mask, PyIndex(ii), PyIndex(jj), 0);
    }
  }
}
