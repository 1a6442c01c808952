/** Coordinates of a width-by-height grid and their row-major index.

    Both revisions of the grid store their cells in one flat list and address a
    cell (x, y) through an index computed from the coordinates. The intended
    layout is row-major with the row length, the width, as the stride; the
    source multiplies by the height instead (kept here as IndexAsWritten).
 */
module Coords {

  /** Outcome of an operation addressed by coordinates: a value, or the
      failure of an access outside the grid. */
  datatype Result<T> = Ok(value: T) | OutOfBounds

  /** (x, y) lies inside a width-by-height grid. */
  predicate InBounds(width: nat, height: nat, x: int, y: int) {
    0 <= x < width && 0 <= y < height
  }

  /** Row-major position of (x, y) in the flat cell list. */
  function Index(width: nat, height: nat, x: int, y: int): (i: nat)
    requires InBounds(width, height, x, y)
    ensures i < width * height
  {
    MulStep(y, height - 1, width);
    y * width + x
  }

  /** Coordinates of position i in the flat cell list. */
  function CoordOf(width: nat, i: int): (int, int)
    requires width > 0
  {
    (i % width, i / width)
  }

  lemma MulStep(a: int, b: int, w: nat)
    requires a <= b
    ensures a * w <= b * w
  {}

  /** Distinct valid coordinates never share an index. */
  lemma IndexInjective(width: nat, height: nat, x1: int, y1: int, x2: int, y2: int)
    requires InBounds(width, height, x1, y1) && InBounds(width, height, x2, y2)
    requires Index(width, height, x1, y1) == Index(width, height, x2, y2)
    ensures x1 == x2 && y1 == y2
  {
    if y1 < y2 {
      MulStep(y1 + 1, y2, width);
    } else if y2 < y1 {
      MulStep(y2 + 1, y1, width);
    }
  }

  /** Index then CoordOf gives back the coordinates. */
  lemma CoordOfIndex(width: nat, height: nat, x: int, y: int)
    requires InBounds(width, height, x, y)
    ensures CoordOf(width, Index(width, height, x, y)) == (x, y)
  {
    var i := Index(width, height, x, y);
    var (a, b) := CoordOf(width, i);
    assert InBounds(width, height, a, b) by {
      assert i == b * width + a;
      if b >= height {
        MulStep(height, b, width);
      }
      if b < 0 {
        MulStep(b, -1, width);
      }
    }
    assert Index(width, height, a, b) == i;
    IndexInjective(width, height, a, b, x, y);
  }

  /** CoordOf then Index gives back the position: every position of the flat
      list is the index of exactly one valid coordinate pair. */
  lemma IndexCoordOf(width: nat, height: nat, i: int)
    requires 0 <= i < width * height
    ensures width > 0
    ensures InBounds(width, height, CoordOf(width, i).0, CoordOf(width, i).1)
    ensures Index(width, height, CoordOf(width, i).0, CoordOf(width, i).1) == i
  {
    var (a, b) := CoordOf(width, i);
    assert i == b * width + a;
    if b >= height {
      MulStep(height, b, width);
    }
  }

  /** Writing one position of a flat list leaves every other valid coordinate
      reading what it read before. */
  lemma UpdateFrame<T>(s: seq<T>, width: nat, height: nat, x: int, y: int, v: T)
    requires |s| == width * height && InBounds(width, height, x, y)
    ensures forall a, b :: InBounds(width, height, a, b) && (a, b) != (x, y) ==>
      s[Index(width, height, x, y) := v][Index(width, height, a, b)] == s[Index(width, height, a, b)]
  {
    forall a, b | InBounds(width, height, a, b) && (a, b) != (x, y)
      ensures Index(width, height, a, b) != Index(width, height, x, y)
    {
      if Index(width, height, a, b) == Index(width, height, x, y) {
        IndexInjective(width, height, a, b, x, y);
      }
    }
  }

  /** The source's index expression, which strides by the height. */
  function IndexAsWritten(width: nat, height: nat, x: int, y: int): int {
    y * height + x
  }

  /** On a 3-wide, 2-high grid the source's index sends the distinct valid
      cells (0, 1) and (2, 0) to the same list position. */
  lemma IndexAsWrittenAliases()
    ensures InBounds(3, 2, 0, 1) && InBounds(3, 2, 2, 0)
    ensures IndexAsWritten(3, 2, 0, 1) == 2 && IndexAsWritten(3, 2, 2, 0) == 2
    ensures Index(3, 2, 0, 1) == 3 && Index(3, 2, 2, 0) == 2
  {
    assert Index(3, 2, 0, 1) == 1 * 3 + 0;
    assert Index(3, 2, 2, 0) == 0 * 3 + 2;
  }

  /** On a 2-wide, 3-high grid the source's index of the valid cell (1, 2)
      falls past the end of the six-cell list. */
  lemma IndexAsWrittenOverruns()
    ensures InBounds(2, 3, 1, 2)
    ensures IndexAsWritten(2, 3, 1, 2) == 7 >= 2 * 3
    ensures Index(2, 3, 1, 2) == 5
  {
    assert Index(2, 3, 1, 2) == 2 * 2 + 1;
  }

  /** On square grids, such as the 10-by-10 one the earlier revision's script
      plays, the source's index agrees with the row-major one. */
  lemma IndexAsWrittenSquare(size: nat, x: int, y: int)
    requires InBounds(size, size, x, y)
    ensures IndexAsWritten(size, size, x, y) == Index(size, size, x, y)
  {}
}
