/** The terminal predicates is_loss, is_win and ended.

    A game is lost once some mined cell is shown, and won when every cell is
    marked correctly: mined cells flagged, mine-free cells not flagged. Both
    are read over the whole cell list.
 */
module Terminal {
  import opened Counting
  import opened Coords
  import opened CellStore
  import opened MinesweeperGrid
  import opened FloodFill

  /** A mined cell flagged, or a mine-free cell not flagged. */
  predicate CorrectlyMarked(c: Cell) {
    (c.hasMine && c.visibility == Flagged) || (!c.hasMine && c.visibility != Flagged)
  }

  /** is_loss: some mined cell is shown. Read over the cell list, this is the
      same as some valid coordinates holding a shown mine. */
  predicate IsLoss(g: Grid): (lost: bool)
    ensures lost <==> exists x, y :: CoordsAreValid(g, x, y) && At(g, x, y).hasMine && At(g, x, y).visibility == Shown
  {
    LossAtCoords(g);
    exists i :: 0 <= i < |g.cells| && g.cells[i].hasMine && g.cells[i].visibility == Shown
  }

  /** is_win: every cell is correctly marked, that is every valid coordinate
      pair. A won grid is never lost: a shown mine is not flagged. */
  predicate IsWin(g: Grid): (won: bool)
    ensures won <==> forall x, y :: CoordsAreValid(g, x, y) ==> CorrectlyMarked(At(g, x, y))
    ensures won ==> !IsLoss(g)
  {
    WinAtCoords(g);
    forall i :: 0 <= i < |g.cells| ==> CorrectlyMarked(g.cells[i])
  }

  /** ended: the game is over, won or lost, and then exactly one of the two. */
  predicate Ended(g: Grid): (over: bool)
    ensures over <==> (IsWin(g) != IsLoss(g))
  {
    IsLoss(g) || IsWin(g)
  }

  /** A shown mine at some position is a shown mine at some coordinates, and
      back. */
  lemma LossAtCoords(g: Grid)
    ensures (exists i :: 0 <= i < |g.cells| && g.cells[i].hasMine && g.cells[i].visibility == Shown)
        <==> (exists x, y :: CoordsAreValid(g, x, y) && At(g, x, y).hasMine && At(g, x, y).visibility == Shown)
  {
    if exists i :: 0 <= i < |g.cells| && g.cells[i].hasMine && g.cells[i].visibility == Shown {
      var i :| 0 <= i < |g.cells| && g.cells[i].hasMine && g.cells[i].visibility == Shown;
      IndexCoordOf(g.width, g.height, i);
      var (a, b) := CoordOf(g.width, i);
      assert At(g, a, b) == g.cells[i];
    }
  }

  /** Every position correctly marked is every valid coordinate pair
      correctly marked. */
  lemma WinAtCoords(g: Grid)
    ensures (forall i :: 0 <= i < |g.cells| ==> CorrectlyMarked(g.cells[i]))
        <==> (forall x, y :: CoordsAreValid(g, x, y) ==> CorrectlyMarked(At(g, x, y)))
  {
    if forall x, y :: CoordsAreValid(g, x, y) ==> CorrectlyMarked(At(g, x, y)) {
      forall i | 0 <= i < |g.cells| ensures CorrectlyMarked(g.cells[i]) {
        IndexCoordOf(g.width, g.height, i);
        var (a, b) := CoordOf(g.width, i);
        assert At(g, a, b) == g.cells[i];
      }
    }
  }

  /** A grid without mines and without flags is already won, and so has
      ended; in particular a fresh grid with no mine is won. */
  lemma MineFreeUnflaggedWins(g: Grid)
    requires forall i :: 0 <= i < |g.cells| ==> !g.cells[i].hasMine && g.cells[i].visibility != Flagged
    ensures IsWin(g) && !IsLoss(g) && Ended(g)
  {}

  /** In a won grid the flags are exactly the mines, so there are as many
      flags as mines. */
  lemma WinFlagsEveryMine(g: Grid)
    requires IsWin(g)
    ensures CountFlagged(g) == CountMines(g)
  {
    assert forall i :: 0 <= i < |g.cells| ==> (FlaggedAt(i, g.cells[i]) <==> MinedAt(i, g.cells[i]));
    CountWhereMono(g.cells, FlaggedAt, g.cells, MinedAt);
    CountWhereMono(g.cells, MinedAt, g.cells, FlaggedAt);
  }

  /** Showing a mined cell loses the game. */
  lemma ShowMineLoses(g: Grid, x: int, y: int)
    requires CoordsAreValid(g, x, y) && At(g, x, y).hasMine
    ensures IsLoss(ShowCell(g, x, y).value) && !IsWin(ShowCell(g, x, y).value)
  {
    var r := ShowCell(g, x, y).value;
    var i := Index(g.width, g.height, x, y);
    assert r.cells[i] == At(r, x, y);
  }

  /** Flagging (x, y) wins exactly when (x, y) holds a mine and every other
      cell is already marked correctly. */
  lemma FlagCellWins(g: Grid, x: int, y: int)
    requires CoordsAreValid(g, x, y)
    ensures IsWin(FlagCell(g, x, y).value) <==>
      (At(g, x, y).hasMine &&
       forall j :: 0 <= j < |g.cells| && j != Index(g.width, g.height, x, y) ==> CorrectlyMarked(g.cells[j]))
  {
    var r := FlagCell(g, x, y).value;
    var i := Index(g.width, g.height, x, y);
    assert r.cells == g.cells[i := Cell(g.cells[i].hasMine, Flagged)];
    if IsWin(r) {
      assert CorrectlyMarked(r.cells[i]);
      forall j | 0 <= j < |g.cells| && j != i ensures CorrectlyMarked(g.cells[j]) {
        assert r.cells[j] == g.cells[j];
      }
    } else {
      var j :| 0 <= j < |r.cells| && !CorrectlyMarked(r.cells[j]);
      if j != i {
        assert r.cells[j] == g.cells[j];
      }
    }
  }

  /** clear_from on a mined cell loses the game. */
  lemma ClearFromMineLoses(g: Grid, x: int, y: int)
    requires CoordsAreValid(g, x, y) && At(g, x, y).hasMine
    ensures IsLoss(ClearFrom(g, x, y).value) && !IsWin(ClearFrom(g, x, y).value)
  {
    var r := ClearFrom(g, x, y).value;
    var i := Index(r.width, r.height, x, y);
    assert r.cells[i] == At(r, x, y);
  }

  /** clear_from never undoes a loss: a shown mine stays shown. */
  lemma ClearFromKeepsLoss(g: Grid, x: int, y: int)
    requires CoordsAreValid(g, x, y) && IsLoss(g)
    ensures IsLoss(ClearFrom(g, x, y).value)
  {
    var r := ClearFrom(g, x, y).value;
    var i :| 0 <= i < |g.cells| && g.cells[i].hasMine && g.cells[i].visibility == Shown;
    IndexCoordOf(g.width, g.height, i);
    var (a, b) := CoordOf(g.width, i);
    assert At(g, a, b) == g.cells[i];
    if (a, b) != (x, y) {
      assert RevealStep(At(g, a, b), At(r, a, b));
    }
    assert r.cells[i] == At(r, a, b);
  }
}
