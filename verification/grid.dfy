/** The latest revision's MinesweeperGrid.

    Its cells are immutable records. Every mutator builds a new cell from the
    old one, changing exactly one field, and stores it back at the same
    coordinates; here each mutator returns the new grid, or OutOfBounds for
    coordinates outside it.
 */
module MinesweeperGrid {
  import opened Counting
  import opened Coords
  import opened CellStore

  /** The three states of Cell.STATES. */
  datatype Visibility = Hidden | Flagged | Shown

  datatype Cell = Cell(hasMine: bool, visibility: Visibility)

  /** A grid of the latest revision. */
  type Grid = Sized<Cell>

  /** The cell every position starts as: no mine, hidden. */
  const Blank := Cell(false, Hidden)

  /** A fresh width-by-height grid. */
  function New(width: nat, height: nat): (g: Grid)
    ensures g.width == width && g.height == height
    ensures forall i :: 0 <= i < |g.cells| ==> g.cells[i] == Blank
  {
    Board(width, height, seq(width * height, _ => Blank))
  }

  /** The cell at (x, y) with its visibility replaced by v. */
  function WithVisibility(g: Grid, x: int, y: int, v: Visibility): (r: Grid)
    requires CoordsAreValid(g, x, y)
    ensures ChangesOnly(g, r, x, y)
    ensures At(r, x, y) == Cell(At(g, x, y).hasMine, v)
  {
    Update(g, x, y, Cell(At(g, x, y).hasMine, v))
  }

  function PutMine(g: Grid, x: int, y: int): (r: Result<Grid>)
    ensures r.Ok? <==> CoordsAreValid(g, x, y)
    ensures r.Ok? ==> ChangesOnly(g, r.value, x, y)
    ensures r.Ok? ==> At(r.value, x, y).hasMine
    ensures r.Ok? ==> At(r.value, x, y).visibility == At(g, x, y).visibility
  {
    if CoordsAreValid(g, x, y) then Ok(Update(g, x, y, Cell(true, At(g, x, y).visibility))) else OutOfBounds
  }

  function ShowCell(g: Grid, x: int, y: int): (r: Result<Grid>)
    ensures r.Ok? <==> CoordsAreValid(g, x, y)
    ensures r.Ok? ==> ChangesOnly(g, r.value, x, y)
    ensures r.Ok? ==> At(r.value, x, y).visibility == Shown
    ensures r.Ok? ==> At(r.value, x, y).hasMine == At(g, x, y).hasMine
  {
    if CoordsAreValid(g, x, y) then Ok(WithVisibility(g, x, y, Shown)) else OutOfBounds
  }

  function FlagCell(g: Grid, x: int, y: int): (r: Result<Grid>)
    ensures r.Ok? <==> CoordsAreValid(g, x, y)
    ensures r.Ok? ==> ChangesOnly(g, r.value, x, y)
    ensures r.Ok? ==> At(r.value, x, y).visibility == Flagged
    ensures r.Ok? ==> At(r.value, x, y).hasMine == At(g, x, y).hasMine
  {
    if CoordsAreValid(g, x, y) then Ok(WithVisibility(g, x, y, Flagged)) else OutOfBounds
  }

  function HideCell(g: Grid, x: int, y: int): (r: Result<Grid>)
    ensures r.Ok? <==> CoordsAreValid(g, x, y)
    ensures r.Ok? ==> ChangesOnly(g, r.value, x, y)
    ensures r.Ok? ==> At(r.value, x, y).visibility == Hidden
    ensures r.Ok? ==> At(r.value, x, y).hasMine == At(g, x, y).hasMine
  {
    if CoordsAreValid(g, x, y) then Ok(WithVisibility(g, x, y, Hidden)) else OutOfBounds
  }

  /** Each mutator, applied twice to the same cell, gives what it gives once. */
  lemma MutatorsIdempotent(g: Grid, x: int, y: int)
    requires CoordsAreValid(g, x, y)
    ensures PutMine(PutMine(g, x, y).value, x, y) == PutMine(g, x, y)
    ensures ShowCell(ShowCell(g, x, y).value, x, y) == ShowCell(g, x, y)
    ensures FlagCell(FlagCell(g, x, y).value, x, y) == FlagCell(g, x, y)
    ensures HideCell(HideCell(g, x, y).value, x, y) == HideCell(g, x, y)
  {
    UpdateUnchanged(PutMine(g, x, y).value, x, y);
    UpdateUnchanged(ShowCell(g, x, y).value, x, y);
    UpdateUnchanged(FlagCell(g, x, y).value, x, y);
    UpdateUnchanged(HideCell(g, x, y).value, x, y);
  }

  predicate MinedAt(i: int, c: Cell) { c.hasMine }

  predicate HiddenAt(i: int, c: Cell) { c.visibility == Hidden }

  predicate FlaggedAt(i: int, c: Cell) { c.visibility == Flagged }

  /** Number of mined cells: what get_n_mines is meant to return. */
  function CountMines(g: Grid): (n: nat)
    ensures n <= g.width * g.height
    ensures n == 0 <==> forall i :: 0 <= i < |g.cells| ==> !g.cells[i].hasMine
  {
    CountWhereZero(g.cells, MinedAt);
    CountWhere(g.cells, MinedAt)
  }

  function CountHidden(g: Grid): nat {
    CountWhere(g.cells, HiddenAt)
  }

  function CountFlagged(g: Grid): nat {
    CountWhere(g.cells, FlaggedAt)
  }

  /** A fresh grid has no mine and every cell hidden. */
  lemma NewGridCounts(width: nat, height: nat)
    ensures CountMines(New(width, height)) == 0
    ensures CountHidden(New(width, height)) == width * height
    ensures CountFlagged(New(width, height)) == 0
    ensures forall x, y :: CoordsAreValid(New(width, height), x, y) ==> At(New(width, height), x, y) == Blank
  {
    var g := New(width, height);
    CountWhereFull(g.cells, HiddenAt);
    CountWhereZero(g.cells, FlaggedAt);
  }

  /** Placing a mine adds one to the mine count unless the cell already held one. */
  lemma PutMineCount(g: Grid, x: int, y: int)
    requires CoordsAreValid(g, x, y)
    ensures CountMines(PutMine(g, x, y).value) == CountMines(g) + (if At(g, x, y).hasMine then 0 else 1)
    ensures CountHidden(PutMine(g, x, y).value) == CountHidden(g)
  {
    var i := Index(g.width, g.height, x, y);
    var c := Cell(true, At(g, x, y).visibility);
    CountWhereUpdate(g.cells, MinedAt, i, c);
    CountWhereUpdate(g.cells, HiddenAt, i, c);
  }

  /** Changing one cell's visibility keeps the mine count, and drops the
      hidden count by one exactly when a hidden cell stops being hidden. */
  lemma WithVisibilityCount(g: Grid, x: int, y: int, v: Visibility)
    requires CoordsAreValid(g, x, y)
    ensures CountMines(WithVisibility(g, x, y, v)) == CountMines(g)
    ensures CountHidden(WithVisibility(g, x, y, v)) + (if At(g, x, y).visibility == Hidden then 1 else 0)
         == CountHidden(g) + (if v == Hidden then 1 else 0)
  {
    var i := Index(g.width, g.height, x, y);
    var c := Cell(At(g, x, y).hasMine, v);
    CountWhereUpdate(g.cells, MinedAt, i, c);
    CountWhereUpdate(g.cells, HiddenAt, i, c);
  }
}
