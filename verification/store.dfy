/** The cell store both revisions of the grid class share.

    A grid is a width, a height and a flat row-major list of width * height
    cells. get_cell reads the cell at (x, y) and set_cell replaces it; here
    both fail with OutOfBounds for coordinates outside the grid. The store is
    generic in the cell type: the latest revision stores a record with an
    enum state, the earlier one a named pair with a string state.
 */
module CellStore {
  import opened Coords

  datatype Board<C> = Board(width: nat, height: nat, cells: seq<C>)

  /** A board whose cell list has exactly one cell per coordinate pair. */
  type Sized<C> = b: Board<C> | |b.cells| == b.width * b.height witness Board(0, 0, [])

  /** coords_are_valid: (x, y) lies inside the grid, and so addresses one of
      its stored cells. */
  predicate CoordsAreValid<C>(g: Sized<C>, x: int, y: int): (valid: bool)
    ensures valid <==> 0 <= x < g.width && 0 <= y < g.height
    ensures valid ==> Index(g.width, g.height, x, y) < |g.cells|
  {
    InBounds(g.width, g.height, x, y)
  }

  /** The cell at valid coordinates. */
  function At<C>(g: Sized<C>, x: int, y: int): C
    requires CoordsAreValid(g, x, y)
  {
    g.cells[Index(g.width, g.height, x, y)]
  }

  /** g and r have the same dimensions and agree everywhere except, possibly,
      at (x, y). */
  ghost predicate ChangesOnly<C>(g: Sized<C>, r: Sized<C>, x: int, y: int) {
    && r.width == g.width && r.height == g.height
    && forall a, b :: CoordsAreValid(g, a, b) && (a, b) != (x, y) ==> At(r, a, b) == At(g, a, b)
  }

  /** Stores c at valid coordinates (x, y). */
  function Update<C>(g: Sized<C>, x: int, y: int, c: C): (r: Sized<C>)
    requires CoordsAreValid(g, x, y)
    ensures ChangesOnly(g, r, x, y) && At(r, x, y) == c
  {
    UpdateFrame(g.cells, g.width, g.height, x, y, c);
    Board(g.width, g.height, g.cells[Index(g.width, g.height, x, y) := c])
  }

  function GetCell<C>(g: Sized<C>, x: int, y: int): (r: Result<C>)
    ensures r.Ok? <==> CoordsAreValid(g, x, y)
    ensures r.Ok? ==> r.value == At(g, x, y)
  {
    if CoordsAreValid(g, x, y) then Ok(At(g, x, y)) else OutOfBounds
  }

  function SetCell<C>(g: Sized<C>, x: int, y: int, c: C): (r: Result<Sized<C>>)
    ensures r.Ok? <==> CoordsAreValid(g, x, y)
    ensures r.Ok? ==> r.value.width == g.width && r.value.height == g.height
    ensures r.Ok? ==> GetCell(r.value, x, y) == Ok(c)
    ensures r.Ok? ==> forall a, b :: (a, b) != (x, y) ==> GetCell(r.value, a, b) == GetCell(g, a, b)
  {
    if CoordsAreValid(g, x, y) then Ok(Update(g, x, y, c)) else OutOfBounds
  }

  /** Storing back the cell already at (x, y) changes nothing. */
  lemma UpdateUnchanged<C>(g: Sized<C>, x: int, y: int)
    requires CoordsAreValid(g, x, y)
    ensures Update(g, x, y, At(g, x, y)) == g
  {
    var i := Index(g.width, g.height, x, y);
    assert g.cells[i := g.cells[i]] == g.cells;
  }
}
