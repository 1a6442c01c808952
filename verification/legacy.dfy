/** The earlier revision's Minesweeper_Grid.

    Same flat row-major cell list as the latest revision, but a cell is a
    named pair (has_bomb, state) whose state is a string: "hidden", "flagged"
    or "shown". Those three strings are the only states the constructor and
    the mutators ever write, so a grid built by them maps onto the latest
    revision's grid cell by cell (Abstract), and each mutator then does what
    its latest counterpart does.
 */
module LegacyGrid {
  import opened Counting
  import opened Coords
  import opened CellStore
  import Latest = MinesweeperGrid

  const HIDDEN: string := "hidden"
  const FLAGGED: string := "flagged"
  const SHOWN: string := "shown"

  datatype Cell = Cell(hasBomb: bool, state: string)

  type Grid = Sized<Cell>

  /** A fresh width-by-height grid: every cell bomb-free and hidden. */
  function New(width: nat, height: nat): (g: Grid)
    ensures g.width == width && g.height == height
    ensures forall i :: 0 <= i < |g.cells| ==> g.cells[i] == Cell(false, HIDDEN)
  {
    Board(width, height, seq(width * height, _ => Cell(false, HIDDEN)))
  }

  function PutBomb(g: Grid, x: int, y: int): (r: Result<Grid>)
    ensures r.Ok? <==> CoordsAreValid(g, x, y)
    ensures r.Ok? ==> ChangesOnly(g, r.value, x, y)
    ensures r.Ok? ==> At(r.value, x, y) == Cell(true, At(g, x, y).state)
  {
    if CoordsAreValid(g, x, y) then Ok(Update(g, x, y, Cell(true, At(g, x, y).state))) else OutOfBounds
  }

  /** The cell at (x, y) with its state replaced by s. */
  function WithState(g: Grid, x: int, y: int, s: string): (r: Grid)
    requires CoordsAreValid(g, x, y)
    ensures ChangesOnly(g, r, x, y)
    ensures At(r, x, y) == Cell(At(g, x, y).hasBomb, s)
  {
    Update(g, x, y, Cell(At(g, x, y).hasBomb, s))
  }

  function DiscoverCell(g: Grid, x: int, y: int): (r: Result<Grid>)
    ensures r.Ok? <==> CoordsAreValid(g, x, y)
    ensures r.Ok? ==> ChangesOnly(g, r.value, x, y)
    ensures r.Ok? ==> At(r.value, x, y) == Cell(At(g, x, y).hasBomb, SHOWN)
  {
    if CoordsAreValid(g, x, y) then Ok(WithState(g, x, y, SHOWN)) else OutOfBounds
  }

  function FlagCell(g: Grid, x: int, y: int): (r: Result<Grid>)
    ensures r.Ok? <==> CoordsAreValid(g, x, y)
    ensures r.Ok? ==> ChangesOnly(g, r.value, x, y)
    ensures r.Ok? ==> At(r.value, x, y) == Cell(At(g, x, y).hasBomb, FLAGGED)
  {
    if CoordsAreValid(g, x, y) then Ok(WithState(g, x, y, FLAGGED)) else OutOfBounds
  }

  function HideCell(g: Grid, x: int, y: int): (r: Result<Grid>)
    ensures r.Ok? <==> CoordsAreValid(g, x, y)
    ensures r.Ok? ==> ChangesOnly(g, r.value, x, y)
    ensures r.Ok? ==> At(r.value, x, y) == Cell(At(g, x, y).hasBomb, HIDDEN)
  {
    if CoordsAreValid(g, x, y) then Ok(WithState(g, x, y, HIDDEN)) else OutOfBounds
  }

  /** Each mutator, applied twice to the same cell, gives what it gives once. */
  lemma MutatorsIdempotent(g: Grid, x: int, y: int)
    requires CoordsAreValid(g, x, y)
    ensures PutBomb(PutBomb(g, x, y).value, x, y) == PutBomb(g, x, y)
    ensures DiscoverCell(DiscoverCell(g, x, y).value, x, y) == DiscoverCell(g, x, y)
    ensures FlagCell(FlagCell(g, x, y).value, x, y) == FlagCell(g, x, y)
    ensures HideCell(HideCell(g, x, y).value, x, y) == HideCell(g, x, y)
  {
    UpdateUnchanged(PutBomb(g, x, y).value, x, y);
    UpdateUnchanged(DiscoverCell(g, x, y).value, x, y);
    UpdateUnchanged(FlagCell(g, x, y).value, x, y);
    UpdateUnchanged(HideCell(g, x, y).value, x, y);
  }

  predicate BombedAt(i: int, c: Cell) { c.hasBomb }

  /** Number of bombed cells: at most one per cell, and zero exactly when
      no cell holds a bomb. */
  function CountBombs(g: Grid): (n: nat)
    ensures n <= g.width * g.height
    ensures n == 0 <==> forall i :: 0 <= i < |g.cells| ==> !g.cells[i].hasBomb
  {
    CountWhereZero(g.cells, BombedAt);
    CountWhere(g.cells, BombedAt)
  }

  /** Placing a bomb adds one bomb unless the cell already held one. */
  lemma PutBombCount(g: Grid, x: int, y: int)
    requires CoordsAreValid(g, x, y)
    ensures CountBombs(PutBomb(g, x, y).value) == CountBombs(g) + (if At(g, x, y).hasBomb then 0 else 1)
  {
    CountWhereUpdate(g.cells, BombedAt, Index(g.width, g.height, x, y), Cell(true, At(g, x, y).state));
  }

  predicate KnownState(s: string) {
    s == HIDDEN || s == FLAGGED || s == SHOWN
  }

  /** Every cell's state is one of the three strings the class writes. */
  ghost predicate StatesKnown(g: Grid) {
    forall i :: 0 <= i < |g.cells| ==> KnownState(g.cells[i].state)
  }

  function AbstractCell(c: Cell): Latest.Cell
    requires KnownState(c.state)
  {
    Latest.Cell(c.hasBomb,
      if c.state == HIDDEN then Latest.Hidden
      else if c.state == FLAGGED then Latest.Flagged
      else Latest.Shown)
  }

  /** The latest-revision grid a legacy grid stands for. */
  function Abstract(g: Grid): (r: Latest.Grid)
    requires StatesKnown(g)
    ensures r.width == g.width && r.height == g.height
    ensures forall i :: 0 <= i < |g.cells| ==> r.cells[i] == AbstractCell(g.cells[i])
  {
    Board(g.width, g.height, seq(|g.cells|, i requires 0 <= i < |g.cells| => AbstractCell(g.cells[i])))
  }

  /** Storing a cell commutes with the abstraction. */
  lemma AbstractUpdate(g: Grid, x: int, y: int, c: Cell)
    requires StatesKnown(g) && KnownState(c.state) && CoordsAreValid(g, x, y)
    ensures StatesKnown(Update(g, x, y, c))
    ensures Abstract(Update(g, x, y, c)) == Update(Abstract(g), x, y, AbstractCell(c))
  {
    var i := Index(g.width, g.height, x, y);
    var r := Update(g, x, y, c);
    assert r.cells == g.cells[i := c];
    assert Abstract(r).cells == Abstract(g).cells[i := AbstractCell(c)];
  }

  /** A fresh legacy grid is a fresh latest grid. */
  lemma NewRefines(width: nat, height: nat)
    ensures StatesKnown(New(width, height))
    ensures Abstract(New(width, height)) == Latest.New(width, height)
  {
    assert Abstract(New(width, height)).cells == Latest.New(width, height).cells;
  }

  /** put_bomb, discover_cell, flag_cell and hide_cell keep every state one
      of the three strings, and do what put_mine, show_cell, flag_cell and
      hide_cell of the latest revision do. */
  lemma MutatorsRefine(g: Grid, x: int, y: int)
    requires StatesKnown(g) && CoordsAreValid(g, x, y)
    ensures StatesKnown(PutBomb(g, x, y).value)
    ensures Abstract(PutBomb(g, x, y).value) == Latest.PutMine(Abstract(g), x, y).value
    ensures StatesKnown(DiscoverCell(g, x, y).value)
    ensures Abstract(DiscoverCell(g, x, y).value) == Latest.ShowCell(Abstract(g), x, y).value
    ensures StatesKnown(FlagCell(g, x, y).value)
    ensures Abstract(FlagCell(g, x, y).value) == Latest.FlagCell(Abstract(g), x, y).value
    ensures StatesKnown(HideCell(g, x, y).value)
    ensures Abstract(HideCell(g, x, y).value) == Latest.HideCell(Abstract(g), x, y).value
  {
    var c := At(g, x, y);
    assert At(Abstract(g), x, y) == AbstractCell(c);
    AbstractUpdate(g, x, y, Cell(true, c.state));
    AbstractUpdate(g, x, y, Cell(c.hasBomb, SHOWN));
    AbstractUpdate(g, x, y, Cell(c.hasBomb, FLAGGED));
    AbstractUpdate(g, x, y, Cell(c.hasBomb, HIDDEN));
  }

  /** The bomb count is the mine count of the abstract grid. */
  lemma CountBombsRefines(g: Grid)
    requires StatesKnown(g)
    ensures CountBombs(g) == Latest.CountMines(Abstract(g))
  {
    var r := Abstract(g);
    CountWhereMono(g.cells, BombedAt, r.cells, Latest.MinedAt);
    CountWhereMono(r.cells, Latest.MinedAt, g.cells, BombedAt);
  }

  /** gen_random of the earlier revision: its guard redraws on an already
      bombed cell, so it places exactly nBombs bombs and leaves every cell
      hidden. The only demand is that the bombs fit in the grid. */
  method GenRandom(width: nat, height: nat, nBombs: nat) returns (g: Grid)
    requires nBombs <= width * height
    ensures g.width == width && g.height == height
    ensures CountBombs(g) == nBombs
    ensures forall i :: 0 <= i < |g.cells| ==> g.cells[i].state == HIDDEN
  {
    g := New(width, height);
    CountWhereZero(g.cells, BombedAt);
    var placed := 0;
    while placed < nBombs
      invariant placed <= nBombs
      invariant g.width == width && g.height == height
      invariant CountBombs(g) == placed
      invariant forall i :: 0 <= i < |g.cells| ==> g.cells[i].state == HIDDEN
      decreases nBombs - placed
    {
      CountWhereFull(g.cells, BombedAt);
      var i :| 0 <= i < |g.cells| && !g.cells[i].hasBomb;
      IndexCoordOf(g.width, g.height, i);
      var (a, b) := CoordOf(g.width, i);
      assert !At(g, a, b).hasBomb;
      var x, y :| CoordsAreValid(g, x, y) && !At(g, x, y).hasBomb;
      PutBombCount(g, x, y);
      var next := PutBomb(g, x, y).value;
      assert next.cells == g.cells[Index(g.width, g.height, x, y) := Cell(true, At(g, x, y).state)];
      g := next;
      placed := placed + 1;
    }
  }
}
