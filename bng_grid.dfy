/** The 1 km British National Grid raster: conversion between grid indices
    and cell-centre coordinates in metres. Row 0 is the northern edge, so the
    row index grows southward. */
module BngGrid {
  import opened Numeric

  const X_MIN: real := -199500.0
  const X_MAX: real := 699500.0
  const Y_MIN: real := -199500.0
  const Y_MAX: real := 1249500.0
  const RESOLUTION: real := 1000.0

  /** The reference location, in grid metres. */
  const WOOLHAMPTON_X: int := 457000
  const WOOLHAMPTON_Y: int := 166000

  /** Easting of the centre of column `col`, an integer number of metres. */
  function CentreX(col: int): int { -199000 + 1000 * col }

  /** Northing of the centre of row `row`, an integer number of metres. */
  function CentreY(row: int): int { 1249000 - 1000 * row }

  /** `coord_to_index`: the (row, col) of the cell holding a point. */
  function CoordToIndex(x: real, y: real): (rc: (int, int))
    ensures X_MIN <= x ==> 0 <= rc.1
    ensures y <= Y_MAX ==> 0 <= rc.0
  {
    (Trunc((Y_MAX - y) / RESOLUTION), Trunc((x - X_MIN) / RESOLUTION))
  }

  /** `index_to_coord`: the centre of a cell. It is a whole number of metres,
      so `str(int(x))` of it loses nothing. */
  function IndexToCoord(row: int, col: int): (xy: (real, real))
    ensures xy == (CentreX(col) as real, CentreY(row) as real)
    ensures Trunc(xy.0) == CentreX(col) && Trunc(xy.1) == CentreY(row)
  {
    (X_MIN + (col as real + 0.5) * RESOLUTION, Y_MAX - (row as real + 0.5) * RESOLUTION)
  }

  /** Converting a cell's centre back to indices gives the same cell. */
  lemma IndexRoundTrip(row: int, col: int)
    requires 0 <= row && 0 <= col
    ensures CoordToIndex(IndexToCoord(row, col).0, IndexToCoord(row, col).1) == (row, col)
  {
  }

  /** Distinct cells have distinct centre keys. */
  lemma CentresInjective(r1: int, c1: int, r2: int, c2: int)
    requires (CentreX(c1), CentreY(r1)) == (CentreX(c2), CentreY(r2))
    ensures r1 == r2 && c1 == c2
  {
  }

  /** For a point east of the western edge and south of the northern edge,
      the centre of its cell is within half a cell on each axis. */
  lemma CellCentreNearPoint(x: real, y: real)
    requires X_MIN <= x && y <= Y_MAX
    ensures var rc := CoordToIndex(x, y);
            var c := IndexToCoord(rc.0, rc.1);
            -500.0 <= x - c.0 < 500.0 && -500.0 < y - c.1 <= 500.0
  {
  }

  /** Columns grow eastward and rows grow southward. */
  lemma IndexMonotone(x1: real, y1: real, x2: real, y2: real)
    ensures x1 <= x2 ==> CoordToIndex(x1, y1).1 <= CoordToIndex(x2, y2).1
    ensures y1 <= y2 ==> CoordToIndex(x2, y2).0 <= CoordToIndex(x1, y1).0
  {
    if x1 <= x2 {
      TruncMonotone((x1 - X_MIN) / RESOLUTION, (x2 - X_MIN) / RESOLUTION);
    }
    if y1 <= y2 {
      TruncMonotone((Y_MAX - y2) / RESOLUTION, (Y_MAX - y1) / RESOLUTION);
    }
  }

  /** Woolhampton lies in row 1083, column 656, whose centre is exactly the
      reference point. */
  lemma WoolhamptonCell()
    ensures CoordToIndex(WOOLHAMPTON_X as real, WOOLHAMPTON_Y as real) == (1083, 656)
    ensures IndexToCoord(1083, 656) == (WOOLHAMPTON_X as real, WOOLHAMPTON_Y as real)
  {
  }
}
