/** Random mine placement, gen_random.

    The source starts from a fresh grid and, n_mines times, draws random
    coordinates, redrawing while its guard holds, then puts a mine there.
    Redrawing until the guard fails is the same as choosing, in one step, any
    coordinates the guard accepts; that choice is written `:|` here, so the
    model covers every sequence of draws the random generator could produce.

    The guard is meant to reject coordinates that are forbidden or already
    mined (Redraw). The source joins the two tests with `and` instead
    (RedrawAsWritten), which rejects only coordinates that are both.
 */
module Placement {
  import opened Counting
  import opened Coords
  import opened CellStore
  import opened MinesweeperGrid

  /** Coordinates the caller has not ruled out. */
  predicate Allowed(forbidden: seq<(int, int)>, x: int, y: int) {
    (x, y) !in forbidden
  }

  /** The intended redraw guard: forbidden, or already holding a mine. It
      accepts exactly the cells FreeCells counts, so every accepted draw uses
      up one of them. */
  predicate Redraw(g: Grid, forbidden: seq<(int, int)>, x: int, y: int): (redraw: bool)
    requires CoordsAreValid(g, x, y)
    ensures !redraw <==> FreeSlot(g.width, forbidden)(Index(g.width, g.height, x, y), At(g, x, y))
  {
    CoordOfIndex(g.width, g.height, x, y);
    !Allowed(forbidden, x, y) || At(g, x, y).hasMine
  }

  /** The guard as the source writes it: forbidden and already mined. It
      redraws only where the intended guard does, and with no forbidden
      coordinates it never redraws, so a mined cell can be drawn again. */
  predicate RedrawAsWritten(g: Grid, forbidden: seq<(int, int)>, x: int, y: int): (redraw: bool)
    requires CoordsAreValid(g, x, y)
    ensures redraw ==> Redraw(g, forbidden, x, y)
    ensures forbidden == [] ==> !redraw
  {
    !Allowed(forbidden, x, y) && At(g, x, y).hasMine
  }

  /** Position i of a width-wide grid is allowed and holds no mine. */
  function FreeSlot(width: nat, forbidden: seq<(int, int)>): (int, Cell) -> bool {
    (i: int, c: Cell) => !c.hasMine && (width == 0 || Allowed(forbidden, CoordOf(width, i).0, CoordOf(width, i).1))
  }

  /** Number of cells still open to a mine: allowed and mine-free. */
  function FreeCells(g: Grid, forbidden: seq<(int, int)>): nat {
    CountWhere(g.cells, FreeSlot(g.width, forbidden))
  }

  /** Number of valid coordinates not in the forbidden list. */
  function AllowedCells(width: nat, height: nat, forbidden: seq<(int, int)>): nat {
    FreeCells(New(width, height), forbidden)
  }

  /** With nothing forbidden every cell is allowed, so GenRandom's demand is
      the plain bound nMines <= width * height. */
  lemma AllowedCellsNoForbidden(width: nat, height: nat)
    ensures AllowedCells(width, height, []) == width * height
  {
    CountWhereFull(New(width, height).cells, FreeSlot(width, []));
  }

  /** Some valid coordinates are not forbidden. */
  ghost predicate HasAllowedCell(width: nat, height: nat, forbidden: seq<(int, int)>) {
    exists x, y :: InBounds(width, height, x, y) && Allowed(forbidden, x, y)
  }

  /** While a free cell remains, the intended guard accepts some coordinates. */
  lemma FreeCellExists(g: Grid, forbidden: seq<(int, int)>)
    requires FreeCells(g, forbidden) > 0
    ensures exists x, y :: CoordsAreValid(g, x, y) && !Redraw(g, forbidden, x, y)
  {
    CountWhereZero(g.cells, FreeSlot(g.width, forbidden));
    var i :| 0 <= i < |g.cells| && FreeSlot(g.width, forbidden)(i, g.cells[i]);
    IndexCoordOf(g.width, g.height, i);
    var (x, y) := CoordOf(g.width, i);
    assert At(g, x, y) == g.cells[i];
    assert !Redraw(g, forbidden, x, y);
  }

  /** A mine put where the intended guard accepts adds exactly one mine and
      uses up exactly one free cell. */
  lemma PlaceCounts(g: Grid, forbidden: seq<(int, int)>, x: int, y: int)
    requires CoordsAreValid(g, x, y) && !Redraw(g, forbidden, x, y)
    ensures CountMines(PutMine(g, x, y).value) == CountMines(g) + 1
    ensures FreeCells(PutMine(g, x, y).value, forbidden) + 1 == FreeCells(g, forbidden)
  {
    PutMineCount(g, x, y);
    var i := Index(g.width, g.height, x, y);
    CoordOfIndex(g.width, g.height, x, y);
    CountWhereUpdate(g.cells, FreeSlot(g.width, forbidden), i, Cell(true, At(g, x, y).visibility));
  }

  /** gen_random with the intended guard: exactly nMines mines, none on a
      forbidden cell, every cell hidden. The only demand on the caller is that
      enough cells are allowed; with no mine to place, any dimensions do. */
  method GenRandom(width: nat, height: nat, nMines: nat, forbidden: seq<(int, int)>) returns (g: Grid)
    requires nMines <= AllowedCells(width, height, forbidden)
    ensures g.width == width && g.height == height
    ensures CountMines(g) == nMines
    ensures forall x, y :: CoordsAreValid(g, x, y) && (x, y) in forbidden ==> !At(g, x, y).hasMine
    ensures forall x, y :: CoordsAreValid(g, x, y) ==> At(g, x, y).visibility == Hidden
  {
    g := New(width, height);
    NewGridCounts(width, height);
    var placed := 0;
    while placed < nMines
      invariant placed <= nMines
      invariant g.width == width && g.height == height
      invariant CountMines(g) == placed
      invariant FreeCells(g, forbidden) + placed == AllowedCells(width, height, forbidden)
      invariant forall x, y :: CoordsAreValid(g, x, y) && (x, y) in forbidden ==> !At(g, x, y).hasMine
      invariant forall x, y :: CoordsAreValid(g, x, y) ==> At(g, x, y).visibility == Hidden
      decreases nMines - placed
    {
      FreeCellExists(g, forbidden);
      var x, y :| CoordsAreValid(g, x, y) && !Redraw(g, forbidden, x, y);
      PlaceCounts(g, forbidden, x, y);
      g := PutMine(g, x, y).value;
      placed := placed + 1;
    }
  }

  /** gen_random with the guard as written. It still terminates when nMines
      fits in the grid or some cell is allowed, but it can only promise at
      most nMines mines. */
  method GenRandomAsWritten(width: nat, height: nat, nMines: nat, forbidden: seq<(int, int)>) returns (g: Grid)
    requires nMines <= width * height || HasAllowedCell(width, height, forbidden)
    ensures g.width == width && g.height == height
    ensures CountMines(g) <= nMines
    ensures forall x, y :: CoordsAreValid(g, x, y) ==> At(g, x, y).visibility == Hidden
  {
    g := New(width, height);
    NewGridCounts(width, height);
    var placed := 0;
    while placed < nMines
      invariant placed <= nMines
      invariant g.width == width && g.height == height
      invariant CountMines(g) <= placed
      invariant forall x, y :: CoordsAreValid(g, x, y) ==> At(g, x, y).visibility == Hidden
      decreases nMines - placed
    {
      if HasAllowedCell(width, height, forbidden) {
        var a, b :| InBounds(width, height, a, b) && Allowed(forbidden, a, b);
        assert !RedrawAsWritten(g, forbidden, a, b);
      } else {
        CountWhereFull(g.cells, MinedAt);
        var i :| 0 <= i < |g.cells| && !g.cells[i].hasMine;
        IndexCoordOf(g.width, g.height, i);
        var (a, b) := CoordOf(g.width, i);
        assert At(g, a, b) == g.cells[i];
        assert !RedrawAsWritten(g, forbidden, a, b);
      }
      var x, y :| CoordsAreValid(g, x, y) && !RedrawAsWritten(g, forbidden, x, y);
      PutMineCount(g, x, y);
      g := PutMine(g, x, y).value;
      placed := placed + 1;
    }
  }

  /** With the guard as written, on a 2-by-1 grid whose cell (0, 0) is
      forbidden, the first draw of (0, 0) is accepted and mined. */
  lemma AsWrittenGuardMinesForbiddenCell()
    ensures CoordsAreValid(New(2, 1), 0, 0)
    ensures Redraw(New(2, 1), [(0, 0)], 0, 0)
    ensures !RedrawAsWritten(New(2, 1), [(0, 0)], 0, 0)
    ensures At(PutMine(New(2, 1), 0, 0).value, 0, 0).hasMine
  {
    NewGridCounts(2, 1);
  }

  /** With the guard as written, on a 2-by-1 grid asked for 2 mines, drawing
      (1, 0) twice is accepted both times and leaves a single mine. */
  lemma AsWrittenGuardLosesAMine()
    ensures CoordsAreValid(New(2, 1), 1, 0)
    ensures CountMines(PutMine(New(2, 1), 1, 0).value) == 1
    ensures Redraw(PutMine(New(2, 1), 1, 0).value, [], 1, 0)
    ensures !RedrawAsWritten(PutMine(New(2, 1), 1, 0).value, [], 1, 0)
    ensures CountMines(PutMine(PutMine(New(2, 1), 1, 0).value, 1, 0).value) == 1
  {
    var g0 := New(2, 1);
    NewGridCounts(2, 1);
    PutMineCount(g0, 1, 0);
    var g1 := PutMine(g0, 1, 0).value;
    PutMineCount(g1, 1, 0);
  }
}
