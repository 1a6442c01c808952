/** The mine count around a cell, n_mines_around.

    The source walks the 3x3 window centred on (x, y), clipped to the grid by
    taking max(0, x - 1) .. min(x + 2, width) as the column range and the same
    for rows, and counts the mined cells it meets. The centre is part of the
    window, so a mined cell counts itself. The window is clipped, so the count
    is defined for any coordinates, including ones outside the grid.
 */
module Adjacency {
  import opened Coords
  import opened CellStore
  import opened MinesweeperGrid

  function Max(a: int, b: int): int { if a < b then b else a }

  function Min(a: int, b: int): int { if a < b then a else b }

  /** 1 if (a, b) is a mined cell of the grid, 0 otherwise (also outside it). */
  function MineAt(g: Grid, a: int, b: int): nat {
    if CoordsAreValid(g, a, b) && At(g, a, b).hasMine then 1 else 0
  }

  /** Mines of column a over the rows lo .. hi - 1. */
  function ColumnMines(g: Grid, a: int, lo: int, hi: int): nat
    decreases hi - lo
  {
    if lo >= hi then 0 else MineAt(g, a, lo) + ColumnMines(g, a, lo + 1, hi)
  }

  /** Mines of columns alo .. ahi - 1 over the rows lo .. hi - 1. */
  function WindowMines(g: Grid, alo: int, ahi: int, lo: int, hi: int): nat
    decreases ahi - alo
  {
    if alo >= ahi then 0 else ColumnMines(g, alo, lo, hi) + WindowMines(g, alo + 1, ahi, lo, hi)
  }

  /** The count the source computes with its two loops over the clipped
      window; it never exceeds the nine cells of a 3x3 window. */
  function NMinesAround(g: Grid, x: int, y: int): (n: nat)
    ensures n <= 9
  {
    ClippedWindowCounts(g, x, y);
    WindowMines(g, Max(0, x - 1), Min(x + 2, g.width), Max(0, y - 1), Min(y + 2, g.height))
  }

  /** The eight cells around (x, y) that hold a mine: the count a player
      expects to read on a revealed cell. */
  function Neighbours8(g: Grid, x: int, y: int): nat {
    MineAt(g, x - 1, y - 1) + MineAt(g, x, y - 1) + MineAt(g, x + 1, y - 1) +
    MineAt(g, x - 1, y)                           + MineAt(g, x + 1, y) +
    MineAt(g, x - 1, y + 1) + MineAt(g, x, y + 1) + MineAt(g, x + 1, y + 1)
  }

  /** Rows outside the grid contribute nothing to a column. */
  lemma {:induction false} ColumnClip(g: Grid, a: int, lo: int, hi: int)
    ensures ColumnMines(g, a, lo, hi) == ColumnMines(g, a, Max(0, lo), Min(hi, g.height))
    decreases hi - lo
  {
    if lo < hi {
      ColumnClip(g, a, lo + 1, hi);
      if 0 <= lo < g.height {
        assert Max(0, lo + 1) == lo + 1;
      }
    }
  }

  /** A column outside the grid holds no mine. */
  lemma {:induction false} ColumnOutside(g: Grid, a: int, lo: int, hi: int)
    requires a < 0 || a >= g.width
    ensures ColumnMines(g, a, lo, hi) == 0
    decreases hi - lo
  {
    if lo < hi {
      ColumnOutside(g, a, lo + 1, hi);
    }
  }

  /** Columns outside the grid contribute nothing to a window. */
  lemma {:induction false} WindowClipColumns(g: Grid, alo: int, ahi: int, lo: int, hi: int)
    ensures WindowMines(g, alo, ahi, lo, hi) == WindowMines(g, Max(0, alo), Min(ahi, g.width), lo, hi)
    decreases ahi - alo
  {
    if alo < ahi {
      WindowClipColumns(g, alo + 1, ahi, lo, hi);
      if alo < 0 || alo >= g.width {
        ColumnOutside(g, alo, lo, hi);
      } else {
        assert Max(0, alo + 1) == alo + 1;
      }
    }
  }

  /** Rows outside the grid contribute nothing to a window. */
  lemma {:induction false} WindowClipRows(g: Grid, alo: int, ahi: int, lo: int, hi: int)
    ensures WindowMines(g, alo, ahi, lo, hi) == WindowMines(g, alo, ahi, Max(0, lo), Min(hi, g.height))
    decreases ahi - alo
  {
    if alo < ahi {
      WindowClipRows(g, alo + 1, ahi, lo, hi);
      ColumnClip(g, alo, lo, hi);
    }
  }

  /** A three-row column is the sum of its three cells. */
  lemma ColumnOfThree(g: Grid, a: int, y: int)
    ensures ColumnMines(g, a, y - 1, y + 2) == MineAt(g, a, y - 1) + MineAt(g, a, y) + MineAt(g, a, y + 1)
  {
    assert ColumnMines(g, a, y + 1, y + 2) == MineAt(g, a, y + 1);
    assert ColumnMines(g, a, y, y + 2) == MineAt(g, a, y) + MineAt(g, a, y + 1);
  }

  /** The window clipped to the grid holds the mines of the full 3x3 window
      centred on (x, y): its eight neighbours and the centre. */
  lemma ClippedWindowCounts(g: Grid, x: int, y: int)
    ensures WindowMines(g, Max(0, x - 1), Min(x + 2, g.width), Max(0, y - 1), Min(y + 2, g.height))
         == Neighbours8(g, x, y) + MineAt(g, x, y)
  {
    // Clip the full window's columns, then its rows: that is the source's window.
    WindowClipColumns(g, x - 1, x + 2, y - 1, y + 2);
    WindowClipRows(g, Max(0, x - 1), Min(x + 2, g.width), y - 1, y + 2);
    ColumnOfThree(g, x - 1, y);
    ColumnOfThree(g, x, y);
    ColumnOfThree(g, x + 1, y);
    assert WindowMines(g, x + 1, x + 2, y - 1, y + 2) == ColumnMines(g, x + 1, y - 1, y + 2);
    assert WindowMines(g, x, x + 2, y - 1, y + 2)
        == ColumnMines(g, x, y - 1, y + 2) + ColumnMines(g, x + 1, y - 1, y + 2);
  }

  /** n_mines_around counts the mined cells of the 3x3 window centred on
      (x, y) that lie inside the grid, the centre included: it is the
      eight-neighbour count plus one for a mined centre. */
  lemma NMinesAroundCountsWindow(g: Grid, x: int, y: int)
    ensures NMinesAround(g, x, y) == Neighbours8(g, x, y) + MineAt(g, x, y)
  {
    ClippedWindowCounts(g, x, y);
  }

  /** For a valid cell without a mine, n_mines_around is the eight-neighbour
      count; for a mined one it is one more. */
  lemma NMinesAroundCentre(g: Grid, x: int, y: int)
    requires CoordsAreValid(g, x, y)
    ensures !At(g, x, y).hasMine ==> NMinesAround(g, x, y) == Neighbours8(g, x, y)
    ensures At(g, x, y).hasMine ==> NMinesAround(g, x, y) == Neighbours8(g, x, y) + 1
  {
    NMinesAroundCountsWindow(g, x, y);
  }

  /** A zero count means no mine anywhere in the 3x3 window. */
  lemma ZeroCountClearsWindow(g: Grid, x: int, y: int, a: int, b: int)
    requires NMinesAround(g, x, y) == 0
    requires CoordsAreValid(g, a, b) && x - 1 <= a <= x + 1 && y - 1 <= b <= y + 1
    ensures !At(g, a, b).hasMine
  {
    NMinesAroundCountsWindow(g, x, y);
    assert MineAt(g, a, b) == 0;
  }

  /** The count depends on the mines only, not on visibility. */
  lemma NMinesAroundSameMines(g: Grid, r: Grid, x: int, y: int)
    requires r.width == g.width && r.height == g.height
    requires forall a, b :: CoordsAreValid(g, a, b) ==> At(r, a, b).hasMine == At(g, a, b).hasMine
    ensures NMinesAround(r, x, y) == NMinesAround(g, x, y)
  {
    NMinesAroundCountsWindow(g, x, y);
    NMinesAroundCountsWindow(r, x, y);
    assert forall a, b :: MineAt(r, a, b) == MineAt(g, a, b);
  }

  /** On a grid without mines every count is zero. */
  lemma NoMinesZeroCount(g: Grid, x: int, y: int)
    requires forall a, b :: CoordsAreValid(g, a, b) ==> !At(g, a, b).hasMine
    ensures NMinesAround(g, x, y) == 0
  {
    NMinesAroundCountsWindow(g, x, y);
  }

  /** A cell holding the only mine of the grid counts itself:
      n_mines_around there is 1, where the eight-neighbour count is 0. */
  lemma LoneMineCountsItself(g: Grid, x: int, y: int)
    requires CoordsAreValid(g, x, y) && At(g, x, y).hasMine
    requires forall a, b :: CoordsAreValid(g, a, b) && (a, b) != (x, y) ==> !At(g, a, b).hasMine
    ensures NMinesAround(g, x, y) == 1
    ensures Neighbours8(g, x, y) == 0
  {
    NMinesAroundCountsWindow(g, x, y);
    assert forall a, b :: (a, b) != (x, y) ==> MineAt(g, a, b) == 0;
  }
}
