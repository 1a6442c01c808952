/** The recursive reveal clear_from.

    clear_from(x, y) shows (x, y); when n_mines_around(x, y) is zero it visits
    the four orthogonal neighbours in the order right, left, below, above and
    recurses into each one that is inside the grid and still hidden at the
    moment it is visited. Clear is that recursion; Visit is its loop over the
    neighbours, from the k-th one on.

    Every recursive call starts on a hidden cell and shows it first, so the
    number of hidden cells strictly drops from one call to the next: that is
    the termination measure.
 */
module FloodFill {
  import opened Coords
  import opened CellStore
  import opened MinesweeperGrid
  import opened Adjacency

  /** (a, b) is one of the four cells sharing a side with (x, y). */
  predicate Orthogonal(x: int, y: int, a: int, b: int) {
    (a == x && (b == y - 1 || b == y + 1)) || (b == y && (a == x - 1 || a == x + 1))
  }

  /** The k-th neighbour clear_from visits: right, left, below, above. */
  function Neighbour(x: int, y: int, k: int): (p: (int, int))
    ensures 0 <= k < 4 ==> Orthogonal(x, y, p.0, p.1)
  {
    if k == 0 then (x + 1, y)
    else if k == 1 then (x - 1, y)
    else if k == 2 then (x, y + 1)
    else (x, y - 1)
  }

  /** `after` is `before`, or `before` was hidden and `after` is it shown. */
  predicate RevealStep(before: Cell, after: Cell) {
    after == before || (before.visibility == Hidden && after == Cell(before.hasMine, Shown))
  }

  /** The four visits cover the orthogonal neighbours of (x, y), each once. */
  lemma NeighboursEnumerateOrthogonal(x: int, y: int)
    ensures forall a, b :: Orthogonal(x, y, a, b) ==> exists k :: 0 <= k < 4 && Neighbour(x, y, k) == (a, b)
    ensures forall j, k :: 0 <= j < k < 4 ==> Neighbour(x, y, j) != Neighbour(x, y, k)
  {
    forall a, b | Orthogonal(x, y, a, b) ensures exists k :: 0 <= k < 4 && Neighbour(x, y, k) == (a, b) {
      if a == x + 1 { assert Neighbour(x, y, 0) == (a, b); }
      else if a == x - 1 { assert Neighbour(x, y, 1) == (a, b); }
      else if b == y + 1 { assert Neighbour(x, y, 2) == (a, b); }
      else { assert Neighbour(x, y, 3) == (a, b); }
    }
  }

  /** r is g with some hidden cells shown and nothing else changed. */
  ghost predicate OnlyReveals(g: Grid, r: Grid) {
    && r.width == g.width && r.height == g.height
    && forall a, b :: CoordsAreValid(g, a, b) ==> RevealStep(At(g, a, b), At(r, a, b))
  }

  predicate HiddenCell(g: Grid, p: (int, int)) {
    CoordsAreValid(g, p.0, p.1) && At(g, p.0, p.1).visibility == Hidden
  }

  /** None of the four orthogonal neighbours of (x, y) is hidden. */
  ghost predicate NoHiddenNeighbour(g: Grid, x: int, y: int) {
    forall k :: 0 <= k < 4 ==> !HiddenCell(g, Neighbour(x, y, k))
  }

  /** (a, b) is hidden in g and shown in r. */
  ghost predicate NewlyShown(g: Grid, r: Grid, a: int, b: int) {
    && CoordsAreValid(g, a, b) && CoordsAreValid(r, a, b)
    && At(g, a, b).visibility == Hidden && At(r, a, b).visibility == Shown
  }

  function Clear(g: Grid, x: int, y: int): (r: Grid)
    requires CoordsAreValid(g, x, y)
    ensures OnlyReveals(ShowCell(g, x, y).value, r)
    ensures CountHidden(r) <= CountHidden(ShowCell(g, x, y).value)
    decreases CountHidden(ShowCell(g, x, y).value), 1, 0
  {
    var shown := ShowCell(g, x, y).value;
    if NMinesAround(shown, x, y) == 0 then Visit(shown, x, y, 0) else shown
  }

  function Visit(g: Grid, x: int, y: int, k: nat): (r: Grid)
    requires k <= 4
    ensures OnlyReveals(g, r)
    ensures CountHidden(r) <= CountHidden(g)
    decreases CountHidden(g), 0, 4 - k
  {
    if k == 4 then g
    else
      var (a, b) := Neighbour(x, y, k);
      if CoordsAreValid(g, a, b) && At(g, a, b).visibility == Hidden then
        WithVisibilityCount(g, a, b, Shown);
        var next := Clear(g, a, b);
        var r := Visit(next, x, y, k + 1);
        ShowHiddenReveals(g, a, b);
        OnlyRevealsTrans(g, ShowCell(g, a, b).value, next);
        OnlyRevealsTrans(g, next, r);
        r
      else
        Visit(g, x, y, k + 1)
  }

  /** clear_from on the public surface: OutOfBounds outside the grid;
      otherwise (x, y) ends up shown with its mine untouched, every other cell
      is either unchanged or was hidden and is now shown, and a hidden start
      cell lowers the hidden count. */
  function ClearFrom(g: Grid, x: int, y: int): (r: Result<Grid>)
    ensures r.Ok? <==> CoordsAreValid(g, x, y)
    ensures r.Ok? ==> r.value.width == g.width && r.value.height == g.height
    ensures r.Ok? ==> At(r.value, x, y) == Cell(At(g, x, y).hasMine, Shown)
    ensures r.Ok? ==> forall a, b :: CoordsAreValid(g, a, b) && (a, b) != (x, y) ==>
                        RevealStep(At(g, a, b), At(r.value, a, b))
    ensures r.Ok? && At(g, x, y).visibility == Hidden ==> CountHidden(r.value) < CountHidden(g)
  {
    if CoordsAreValid(g, x, y) then
      WithVisibilityCount(g, x, y, Shown);
      Ok(Clear(g, x, y))
    else
      OutOfBounds
  }

  lemma OnlyRevealsTrans(g: Grid, s: Grid, r: Grid)
    requires OnlyReveals(g, s) && OnlyReveals(s, r)
    ensures OnlyReveals(g, r)
  {
    forall a, b | CoordsAreValid(g, a, b)
      ensures RevealStep(At(g, a, b), At(r, a, b))
    {
      assert RevealStep(At(g, a, b), At(s, a, b));
      assert RevealStep(At(s, a, b), At(r, a, b));
    }
  }

  /** Showing a hidden cell is a reveal step. */
  lemma ShowHiddenReveals(g: Grid, a: int, b: int)
    requires CoordsAreValid(g, a, b) && At(g, a, b).visibility == Hidden
    ensures OnlyReveals(g, ShowCell(g, a, b).value)
  {}

  /** Reveal steps keep every mine and so every count. */
  lemma OnlyRevealsKeepsCounts(g: Grid, r: Grid)
    requires OnlyReveals(g, r)
    ensures forall a, b :: CoordsAreValid(g, a, b) ==> At(r, a, b).hasMine == At(g, a, b).hasMine
    ensures forall a, b :: NMinesAround(r, a, b) == NMinesAround(g, a, b)
  {
    forall a, b ensures NMinesAround(r, a, b) == NMinesAround(g, a, b) {
      NMinesAroundSameMines(g, r, a, b);
    }
  }

  /** Showing one cell changes no count. */
  lemma ShowKeepsCounts(g: Grid, x: int, y: int)
    requires CoordsAreValid(g, x, y)
    ensures forall a, b :: NMinesAround(ShowCell(g, x, y).value, a, b) == NMinesAround(g, a, b)
  {
    var s := ShowCell(g, x, y).value;
    forall a, b ensures NMinesAround(s, a, b) == NMinesAround(g, a, b) {
      NMinesAroundSameMines(g, s, a, b);
    }
  }

  /** A hidden cell after reveal steps was hidden before them. */
  lemma NoHiddenNeighbourPersists(s: Grid, r: Grid, x: int, y: int)
    requires OnlyReveals(s, r) && NoHiddenNeighbour(s, x, y)
    ensures NoHiddenNeighbour(r, x, y)
  {
    forall k | 0 <= k < 4 ensures !HiddenCell(r, Neighbour(x, y, k)) {
      var p := Neighbour(x, y, k);
      if CoordsAreValid(s, p.0, p.1) {
        assert RevealStep(At(s, p.0, p.1), At(r, p.0, p.1));
      }
    }
  }

  /** Closure composes: if `next` reveals (a, b) and more from g with the
      closure properties, and r reveals more from `next` with them, then r
      has them relative to g. */
  lemma ComposeCloses(g: Grid, next: Grid, r: Grid, a: int, b: int)
    requires OnlyReveals(g, next) && OnlyReveals(next, r)
    requires NewlyShown(g, next, a, b) && !At(g, a, b).hasMine
    requires forall c, d :: NMinesAround(next, c, d) == NMinesAround(g, c, d)
    requires forall c, d :: NewlyShown(g, next, c, d) && NMinesAround(g, c, d) == 0 ==> NoHiddenNeighbour(next, c, d)
    requires forall c, d :: NewlyShown(g, next, c, d) && (c, d) != (a, b) ==> !At(g, c, d).hasMine
    requires forall c, d :: NewlyShown(next, r, c, d) && NMinesAround(next, c, d) == 0 ==> NoHiddenNeighbour(r, c, d)
    requires forall c, d :: NewlyShown(next, r, c, d) ==> !At(next, c, d).hasMine
    ensures forall c, d :: NewlyShown(g, r, c, d) && NMinesAround(g, c, d) == 0 ==> NoHiddenNeighbour(r, c, d)
    ensures forall c, d :: NewlyShown(g, r, c, d) ==> !At(g, c, d).hasMine
  {
    forall c, d | NewlyShown(g, r, c, d)
      ensures NMinesAround(g, c, d) == 0 ==> NoHiddenNeighbour(r, c, d)
      ensures !At(g, c, d).hasMine
    {
      assert RevealStep(At(g, c, d), At(next, c, d));
      if At(next, c, d).visibility == Hidden {
        assert NewlyShown(next, r, c, d);
      } else {
        assert NewlyShown(g, next, c, d);
        if NMinesAround(g, c, d) == 0 {
          NoHiddenNeighbourPersists(next, r, c, d);
        }
      }
    }
  }

  /** Every cell that Visit(g, x, y, k) reveals is mine-free, the neighbours
      k .. 3 of (x, y) are not hidden afterwards, and every revealed cell with
      a zero count keeps no hidden neighbour. */
  lemma {:induction false} VisitCloses(g: Grid, x: int, y: int, k: nat)
    requires k <= 4 && CoordsAreValid(g, x, y) && NMinesAround(g, x, y) == 0
    ensures forall j :: k <= j < 4 ==> !HiddenCell(Visit(g, x, y, k), Neighbour(x, y, j))
    ensures forall a, b :: NewlyShown(g, Visit(g, x, y, k), a, b) && NMinesAround(g, a, b) == 0 ==>
              NoHiddenNeighbour(Visit(g, x, y, k), a, b)
    ensures forall a, b :: NewlyShown(g, Visit(g, x, y, k), a, b) ==> !At(g, a, b).hasMine
    decreases CountHidden(g), 0, 4 - k
  {
    var r := Visit(g, x, y, k);
    if k < 4 {
      var (a, b) := Neighbour(x, y, k);
      if CoordsAreValid(g, a, b) && At(g, a, b).visibility == Hidden {
        WithVisibilityCount(g, a, b, Shown);
        var next := Clear(g, a, b);
        assert r == Visit(next, x, y, k + 1);
        ShowHiddenReveals(g, a, b);
        OnlyRevealsTrans(g, ShowCell(g, a, b).value, next);
        OnlyRevealsKeepsCounts(g, next);
        ClearCloses(g, a, b);
        VisitCloses(next, x, y, k + 1);
        ZeroCountClearsWindow(g, x, y, a, b);
        ComposeCloses(g, next, r, a, b);
      } else {
        VisitCloses(g, x, y, k + 1);
        if CoordsAreValid(g, a, b) {
          assert RevealStep(At(g, a, b), At(r, a, b));
        }
      }
    }
  }

  /** Reveal closure of clear_from: the start cell and every cell the call
      reveals, when its count is zero, keep no hidden orthogonal neighbour;
      and the only mined cell the call can reveal is the start cell. */
  lemma {:induction false} ClearCloses(g: Grid, x: int, y: int)
    requires CoordsAreValid(g, x, y)
    ensures forall a, b ::
              (CoordsAreValid(g, a, b) && ((a, b) == (x, y) || NewlyShown(g, Clear(g, x, y), a, b)) && NMinesAround(g, a, b) == 0)
              ==> NoHiddenNeighbour(Clear(g, x, y), a, b)
    ensures forall a, b :: NewlyShown(g, Clear(g, x, y), a, b) && (a, b) != (x, y) ==> !At(g, a, b).hasMine
    decreases CountHidden(ShowCell(g, x, y).value), 1, 0
  {
    var s := ShowCell(g, x, y).value;
    var r := Clear(g, x, y);
    ShowKeepsCounts(g, x, y);
    if NMinesAround(s, x, y) == 0 {
      assert r == Visit(s, x, y, 0);
      VisitCloses(s, x, y, 0);
      forall a, b | CoordsAreValid(g, a, b) && ((a, b) == (x, y) || NewlyShown(g, r, a, b)) && NMinesAround(g, a, b) == 0
        ensures NoHiddenNeighbour(r, a, b)
      {
        if (a, b) != (x, y) {
          assert NewlyShown(s, r, a, b);
        }
      }
      forall a, b | NewlyShown(g, r, a, b) && (a, b) != (x, y)
        ensures !At(g, a, b).hasMine
      {
        assert NewlyShown(s, r, a, b);
      }
    } else {
      assert r == s;
    }
  }

  /** A start whose count is not zero is shown and nothing else happens. */
  lemma NumberedStartShowsOnlyStart(g: Grid, x: int, y: int)
    requires CoordsAreValid(g, x, y) && NMinesAround(g, x, y) != 0
    ensures Clear(g, x, y) == ShowCell(g, x, y).value
  {
    ShowKeepsCounts(g, x, y);
  }

  /** (c, d) is a cell from which the reveal of r over g, started at (x, y),
      expands: the start or a cell it newly shows, with count zero. */
  ghost predicate Expands(g: Grid, r: Grid, x: int, y: int, c: int, d: int) {
    ((c, d) == (x, y) || NewlyShown(g, r, c, d)) && NMinesAround(g, c, d) == 0
  }

  /** (a, b) is the start, or is reached from it in at most n steps, each
      step going to an orthogonal neighbour of an expanding cell. */
  ghost predicate Reached(g: Grid, r: Grid, x: int, y: int, a: int, b: int, n: nat)
    decreases n
  {
    || (a, b) == (x, y)
    || (n > 0 && exists c, d :: Orthogonal(c, d, a, b) && Expands(g, r, x, y, c, d) && Reached(g, r, x, y, c, d, n - 1))
  }

  /** (a, b) is joined to the start by a path of expanding cells. */
  ghost predicate Connected(g: Grid, r: Grid, x: int, y: int, a: int, b: int) {
    exists n: nat :: Reached(g, r, x, y, a, b, n)
  }

  /** A path of the reveal rooted at (x1, y1) carries over to the reveal
      rooted at (x2, y2), when every cell expanding in the first expands in
      the second and (x1, y1) is itself joined to (x2, y2). */
  lemma {:induction false} ReachedCarries(g1: Grid, r1: Grid, x1: int, y1: int,
                                          g2: Grid, r2: Grid, x2: int, y2: int, a: int, b: int, n: nat)
    requires forall e, f :: Expands(g1, r1, x1, y1, e, f) ==> Expands(g2, r2, x2, y2, e, f)
    requires Connected(g2, r2, x2, y2, x1, y1)
    requires Reached(g1, r1, x1, y1, a, b, n)
    ensures Connected(g2, r2, x2, y2, a, b)
    decreases n
  {
    if (a, b) != (x1, y1) {
      var c, d :| Orthogonal(c, d, a, b) && Expands(g1, r1, x1, y1, c, d) && Reached(g1, r1, x1, y1, c, d, n - 1);
      ReachedCarries(g1, r1, x1, y1, g2, r2, x2, y2, c, d, n - 1);
      var m: nat :| Reached(g2, r2, x2, y2, c, d, m);
      assert Reached(g2, r2, x2, y2, a, b, m + 1);
    }
  }

  /** The start of a reveal is joined to itself. */
  lemma StartConnected(g: Grid, r: Grid, x: int, y: int)
    ensures Connected(g, r, x, y, x, y)
  {
    assert Reached(g, r, x, y, x, y, 0);
  }

  /** Containment composes: the reveal from one hidden neighbour (a, b) of a
      zero-count (x, y), then the reveal by the remaining neighbours, shows
      only cells joined to (x, y) by expanding cells. */
  lemma ComposeContained(g: Grid, next: Grid, r: Grid, x: int, y: int, a: int, b: int)
    requires OnlyReveals(g, next) && OnlyReveals(next, r)
    requires NewlyShown(g, next, a, b) && Orthogonal(x, y, a, b) && NMinesAround(g, x, y) == 0
    requires forall c, d :: NMinesAround(next, c, d) == NMinesAround(g, c, d)
    requires forall c, d :: NewlyShown(g, next, c, d) ==> Connected(g, next, a, b, c, d)
    requires forall c, d :: NewlyShown(next, r, c, d) ==> Connected(next, r, x, y, c, d)
    ensures forall c, d :: NewlyShown(g, r, c, d) ==> Connected(g, r, x, y, c, d)
  {
    assert RevealStep(At(next, a, b), At(r, a, b));
    assert NewlyShown(g, r, a, b);
    StartConnected(g, r, x, y);
    assert Reached(g, r, x, y, a, b, 1) by {
      assert Expands(g, r, x, y, x, y) && Reached(g, r, x, y, x, y, 0);
    }
    forall e, f | Expands(next, r, x, y, e, f) ensures Expands(g, r, x, y, e, f) {
      if (e, f) != (x, y) {
        assert RevealStep(At(g, e, f), At(next, e, f));
      }
    }
    forall e, f | Expands(g, next, a, b, e, f) ensures Expands(g, r, x, y, e, f) {
      if (e, f) != (a, b) {
        assert RevealStep(At(next, e, f), At(r, e, f));
      }
    }
    forall c, d | NewlyShown(g, r, c, d)
      ensures Connected(g, r, x, y, c, d)
    {
      assert RevealStep(At(g, c, d), At(next, c, d));
      if At(next, c, d).visibility == Hidden {
        assert NewlyShown(next, r, c, d);
        var n: nat :| Reached(next, r, x, y, c, d, n);
        ReachedCarries(next, r, x, y, g, r, x, y, c, d, n);
      } else {
        assert NewlyShown(g, next, c, d);
        var n: nat :| Reached(g, next, a, b, c, d, n);
        ReachedCarries(g, next, a, b, g, r, x, y, c, d, n);
      }
    }
  }

  /** Every cell Visit(g, x, y, k) shows is joined to the zero-count (x, y)
      by a path of zero-count cells the loop shows. */
  lemma {:induction false} VisitContained(g: Grid, x: int, y: int, k: nat)
    requires k <= 4 && CoordsAreValid(g, x, y) && NMinesAround(g, x, y) == 0
    ensures forall a, b :: NewlyShown(g, Visit(g, x, y, k), a, b) ==> Connected(g, Visit(g, x, y, k), x, y, a, b)
    decreases CountHidden(g), 0, 4 - k
  {
    var r := Visit(g, x, y, k);
    if k < 4 {
      var (a, b) := Neighbour(x, y, k);
      if CoordsAreValid(g, a, b) && At(g, a, b).visibility == Hidden {
        WithVisibilityCount(g, a, b, Shown);
        var next := Clear(g, a, b);
        assert r == Visit(next, x, y, k + 1);
        ShowHiddenReveals(g, a, b);
        OnlyRevealsTrans(g, ShowCell(g, a, b).value, next);
        OnlyRevealsKeepsCounts(g, next);
        ClearContained(g, a, b);
        VisitContained(next, x, y, k + 1);
        assert RevealStep(At(ShowCell(g, a, b).value, a, b), At(next, a, b));
        ComposeContained(g, next, r, x, y, a, b);
      } else {
        VisitContained(g, x, y, k + 1);
      }
    }
  }

  /** Containment of clear_from: every cell the call shows is joined to the
      start by a chain of orthogonal steps, each leaving the start or a cell
      the call shows, and each leaving a cell of count zero. A zero-count
      region cut off from the start by numbered cells stays hidden. */
  lemma {:induction false} ClearContained(g: Grid, x: int, y: int)
    requires CoordsAreValid(g, x, y)
    ensures forall a, b :: NewlyShown(g, Clear(g, x, y), a, b) ==> Connected(g, Clear(g, x, y), x, y, a, b)
    decreases CountHidden(ShowCell(g, x, y).value), 1, 0
  {
    var s := ShowCell(g, x, y).value;
    var r := Clear(g, x, y);
    ShowKeepsCounts(g, x, y);
    StartConnected(g, r, x, y);
    if NMinesAround(s, x, y) == 0 {
      assert r == Visit(s, x, y, 0);
      VisitContained(s, x, y, 0);
      forall e, f | Expands(s, r, x, y, e, f) ensures Expands(g, r, x, y, e, f) {
        if (e, f) != (x, y) {
          assert NewlyShown(g, r, e, f);
        }
      }
      forall a, b | NewlyShown(g, r, a, b) && (a, b) != (x, y)
        ensures Connected(g, r, x, y, a, b)
      {
        assert NewlyShown(s, r, a, b);
        var n: nat :| Reached(s, r, x, y, a, b, n);
        ReachedCarries(s, r, x, y, g, r, x, y, a, b, n);
      }
    } else {
      assert r == s;
    }
  }

  /** On a one-row grid, a path of the reveal from (x, 0) never passes a
      numbered cell at (x + 1, 0). */
  lemma {:induction false} RowPathStopsAtNumbered(g: Grid, r: Grid, x: int, a: int, b: int, n: nat)
    requires g.height == 1 && NMinesAround(g, x + 1, 0) != 0
    requires Reached(g, r, x, 0, a, b, n)
    ensures a <= x + 1
    decreases n
  {
    if (a, b) != (x, 0) {
      var c, d :| Orthogonal(c, d, a, b) && Expands(g, r, x, 0, c, d) && Reached(g, r, x, 0, c, d, n - 1);
      RowPathStopsAtNumbered(g, r, x, c, d, n - 1);
    }
  }

  /** clear_from on a one-row grid never reveals past a numbered cell to the
      right of the start: every cell beyond it keeps its state. */
  lemma NumberedCellBlocksRow(g: Grid, x: int)
    requires g.height == 1 && CoordsAreValid(g, x, 0) && NMinesAround(g, x + 1, 0) != 0
    ensures forall a :: x + 1 < a < g.width ==> At(Clear(g, x, 0), a, 0) == At(g, a, 0)
  {
    var s := ShowCell(g, x, 0).value;
    var r := Clear(g, x, 0);
    ClearContained(g, x, 0);
    forall a | x + 1 < a < g.width ensures At(r, a, 0) == At(g, a, 0) {
      assert RevealStep(At(s, a, 0), At(r, a, 0));
      if NewlyShown(g, r, a, 0) {
        var n: nat :| Reached(g, r, x, 0, a, 0, n);
        RowPathStopsAtNumbered(g, r, x, a, 0, n);
      }
    }
  }

  /** Shown cells have no hidden neighbour. */
  ghost predicate ShownClosed(r: Grid) {
    forall a, b :: CoordsAreValid(r, a, b) && At(r, a, b).visibility == Shown ==> NoHiddenNeighbour(r, a, b)
  }

  ghost predicate NoFlags(r: Grid) {
    forall a, b :: CoordsAreValid(r, a, b) ==> At(r, a, b).visibility != Flagged
  }

  /** In a flag-free grid whose shown cells have no hidden neighbour, one
      shown cell makes its whole row shown. */
  lemma {:induction false} SpreadAlongRow(r: Grid, x0: int, y: int, a: int)
    requires ShownClosed(r) && NoFlags(r)
    requires CoordsAreValid(r, x0, y) && At(r, x0, y).visibility == Shown
    requires 0 <= a < r.width
    ensures At(r, a, y).visibility == Shown
    decreases if a < x0 then x0 - a else a - x0
  {
    if a > x0 {
      SpreadAlongRow(r, x0, y, a - 1);
      assert !HiddenCell(r, Neighbour(a - 1, y, 0));
    } else if a < x0 {
      SpreadAlongRow(r, x0, y, a + 1);
      assert !HiddenCell(r, Neighbour(a + 1, y, 1));
    }
  }

  /** Likewise one shown cell makes its whole column shown. */
  lemma {:induction false} SpreadAlongColumn(r: Grid, x: int, y0: int, b: int)
    requires ShownClosed(r) && NoFlags(r)
    requires CoordsAreValid(r, x, y0) && At(r, x, y0).visibility == Shown
    requires 0 <= b < r.height
    ensures At(r, x, b).visibility == Shown
    decreases if b < y0 then y0 - b else b - y0
  {
    if b > y0 {
      SpreadAlongColumn(r, x, y0, b - 1);
      assert !HiddenCell(r, Neighbour(x, b - 1, 2));
    } else if b < y0 {
      SpreadAlongColumn(r, x, y0, b + 1);
      assert !HiddenCell(r, Neighbour(x, b + 1, 3));
    }
  }

  /** On a grid with no mine and every cell hidden, clear_from from any valid
      cell shows every cell. */
  lemma ClearRevealsMineFreeGrid(g: Grid, x: int, y: int)
    requires CoordsAreValid(g, x, y)
    requires forall a, b :: CoordsAreValid(g, a, b) ==> At(g, a, b) == Blank
    ensures forall a, b :: CoordsAreValid(g, a, b) ==> At(Clear(g, x, y), a, b) == Cell(false, Shown)
  {
    var s := ShowCell(g, x, y).value;
    var r := Clear(g, x, y);
    ClearCloses(g, x, y);
    OnlyRevealsKeepsCounts(s, r);
    forall a, b ensures NMinesAround(g, a, b) == 0 {
      NoMinesZeroCount(g, a, b);
    }
    forall a, b | CoordsAreValid(r, a, b)
      ensures At(r, a, b).visibility != Flagged && !At(r, a, b).hasMine
    {
      assert RevealStep(At(s, a, b), At(r, a, b));
    }
    forall a, b | CoordsAreValid(r, a, b) && At(r, a, b).visibility == Shown
      ensures NoHiddenNeighbour(r, a, b)
    {
      if (a, b) != (x, y) {
        assert NewlyShown(g, r, a, b);
      }
    }
    assert At(r, x, y).visibility == Shown by {
      assert RevealStep(At(s, x, y), At(r, x, y));
    }
    forall a, b | CoordsAreValid(g, a, b)
      ensures At(r, a, b) == Cell(false, Shown)
    {
      SpreadAlongRow(r, x, y, a);
      SpreadAlongColumn(r, a, y, b);
    }
  }
}
