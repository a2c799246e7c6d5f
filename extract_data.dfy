/** The extraction step: each month's dense raster becomes a sparse grid keyed
    by cell-centre coordinates, Woolhampton's values are collected along the
    way, and the temperature scale is chosen. */
module ExtractData {
  import opened Wrappers
  import opened Numeric
  import opened BngGrid
  import opened Raster

  /** Row and column of the Woolhampton cell; `WoolhamptonCell` in `BngGrid`
      shows that they are what `coord_to_index` gives for its coordinates. */
  const WOOL_ROW: nat := 1083
  const WOOL_COL: nat := 656

  /** The column whose centre easting is `x`, when there is one. */
  function ColOfKey(x: int): int { (x + 199000) / 1000 }

  /** The row whose centre northing is `y`, when there is one. */
  function RowOfKey(y: int): int { (1249000 - y) / 1000 }

  lemma KeyInverse(row: int, col: int)
    ensures ColOfKey(CentreX(col)) == col && RowOfKey(CentreY(row)) == row
  {
    assert CentreX(col) + 199000 == 1000 * col;
    assert 1249000 - CentreY(row) == 1000 * row;
  }

  /** `(x, y)` is the centre key of a cell of an `h` by `w` raster. */
  predicate IsCellKey(x: int, y: int, h: nat, w: nat) {
    0 <= RowOfKey(y) < h && 0 <= ColOfKey(x) < w
    && CentreX(ColOfKey(x)) == x && CentreY(RowOfKey(y)) == y
  }

  /** Cells of row `row` before column `c` that hold a value. */
  function CountRow(row: seq<Option<real>>, c: nat): nat
    requires c <= |row|
  {
    if c == 0 then 0 else CountRow(row, c - 1) + (if row[c - 1].Some? then 1 else 0)
  }

  /** Cells of the first `r` rows that hold a value. */
  function CountRows(grid: Grid, r: nat): nat
    requires r <= |grid|
  {
    if r == 0 then 0 else CountRows(grid, r - 1) + CountRow(grid[r - 1], |grid[r - 1]|)
  }

  /** `non_nan_count` after the whole month. */
  function NonNanCount(grid: Grid): nat {
    CountRows(grid, |grid|)
  }

  /** `m` is the sparse form of `grid`: a cell holds a value exactly when its
      centre key is present, with that value, every stored key is the centre
      of a cell of the raster, and no column dictionary is empty. */
  ghost predicate IsMonthMap(grid: Grid, h: nat, w: nat, m: SparseGrid)
    requires IsRect(grid, h, w)
  {
    && (forall r, c :: 0 <= r < h && 0 <= c < w ==>
          (grid[r][c].Some? <==> HasCell(m, CentreX(c), CentreY(r))))
    && (forall r, c :: 0 <= r < h && 0 <= c < w && grid[r][c].Some? ==>
          m[CentreX(c)][CentreY(r)] == grid[r][c].value)
    && (forall x, y :: x in m && y in m[x] ==> IsCellKey(x, y, h, w))
    && (forall x :: x in m ==> |m[x]| > 0)
  }

  /** Cell (r, c) comes before cell (row, col) in row-major order. */
  predicate Before(r: int, c: int, row: int, col: int) {
    r < row || (r == row && c < col)
  }

  /** Cells before (row, col) hold a value exactly when their key is stored. */
  ghost predicate CellsStored(grid: Grid, h: nat, w: nat, m: SparseGrid, row: int, col: int)
    requires IsRect(grid, h, w)
  {
    forall r, c :: 0 <= r < h && 0 <= c < w && Before(r, c, row, col) ==>
      (grid[r][c].Some? <==> HasCell(m, CentreX(c), CentreY(r)))
  }

  /** Every stored key is the centre of a cell before (row, col), and holds
      that cell's value. */
  ghost predicate KeysVisited(grid: Grid, h: nat, w: nat, m: SparseGrid, row: int, col: int)
    requires IsRect(grid, h, w)
  {
    forall x, y :: x in m && y in m[x] ==>
      IsCellKey(x, y, h, w) && Before(RowOfKey(y), ColOfKey(x), row, col)
      && grid[RowOfKey(y)][ColOfKey(x)] == Some(m[x][y])
  }

  predicate NoEmptyColumn(m: SparseGrid) {
    forall x :: x in m ==> |m[x]| > 0
  }

  /** The loop invariant of the sparse conversion after the cells before
      (row, col) have been visited. */
  ghost predicate PartialMonthMap(grid: Grid, h: nat, w: nat, m: SparseGrid, row: int, col: int)
    requires IsRect(grid, h, w)
  {
    CellsStored(grid, h, w, m, row, col) && KeysVisited(grid, h, w, m, row, col) && NoEmptyColumn(m)
  }

  /** Stores `v` under `[x][y]`, creating the column dictionary on first use. */
  function Store(m: SparseGrid, x: int, y: int, v: real): (m': SparseGrid)
    ensures HasCell(m', x, y) && m'[x][y] == v
    ensures forall x', y' :: x' in m && y' in m[x'] && (x', y') != (x, y) ==> HasCell(m', x', y') && m'[x'][y'] == m[x'][y']
    ensures forall x', y' :: x' in m' && y' in m'[x'] ==> (x', y') == (x, y) || (x' in m && y' in m[x'])
  {
    var inner := if x in m then m[x] else map[];
    m[x := inner[y := v]]
  }

  lemma EntriesStore(m: SparseGrid, x: int, y: int, v: real)
    ensures Entries(Store(m, x, y, v)) == Entries(m) + {(x, y)}
  {
    var m' := Store(m, x, y, v);
    forall p | p in Entries(m')
      ensures p in Entries(m) + {(x, y)}
    {
      assert p.0 in m' && p.1 in m'[p.0];
    }
    forall p | p in Entries(m) + {(x, y)}
      ensures p in Entries(m')
    {
      if p != (x, y) { assert p.0 in m && p.1 in m[p.0]; }
    }
  }

  /** A cell not yet visited has no stored key. */
  lemma NotYetStored(grid: Grid, h: nat, w: nat, m: SparseGrid, row: nat, col: nat)
    requires IsRect(grid, h, w) && row < h && col < w
    requires KeysVisited(grid, h, w, m, row, col)
    ensures !HasCell(m, CentreX(col), CentreY(row))
  {
    KeyInverse(row, col);
  }

  lemma VisitEmptyCell(grid: Grid, h: nat, w: nat, m: SparseGrid, row: nat, col: nat)
    requires IsRect(grid, h, w) && row < h && col < w && grid[row][col].None?
    requires PartialMonthMap(grid, h, w, m, row, col)
    ensures PartialMonthMap(grid, h, w, m, row, col + 1)
  {
    NotYetStored(grid, h, w, m, row, col);
  }

  lemma VisitKeys(grid: Grid, h: nat, w: nat, m: SparseGrid, row: nat, col: nat)
    requires IsRect(grid, h, w) && row < h && col < w && grid[row][col].Some?
    requires KeysVisited(grid, h, w, m, row, col)
    ensures KeysVisited(grid, h, w, Store(m, CentreX(col), CentreY(row), grid[row][col].value), row, col + 1)
  {
    KeyInverse(row, col);
  }

  lemma VisitCells(grid: Grid, h: nat, w: nat, m: SparseGrid, row: nat, col: nat)
    requires IsRect(grid, h, w) && row < h && col < w && grid[row][col].Some?
    requires CellsStored(grid, h, w, m, row, col)
    ensures CellsStored(grid, h, w, Store(m, CentreX(col), CentreY(row), grid[row][col].value), row, col + 1)
  {
    var m' := Store(m, CentreX(col), CentreY(row), grid[row][col].value);
    forall r, c | 0 <= r < h && 0 <= c < w && Before(r, c, row, col + 1)
      ensures grid[r][c].Some? <==> HasCell(m', CentreX(c), CentreY(r))
    {
      if (r, c) != (row, col) {
        if HasCell(m', CentreX(c), CentreY(r)) && (CentreX(c), CentreY(r)) == (CentreX(col), CentreY(row)) {
          CentresInjective(r, c, row, col);
        }
      }
    }
  }

  /** Visiting a cell with a value keeps the invariant and adds one entry. */
  lemma VisitValueCell(grid: Grid, h: nat, w: nat, m: SparseGrid, row: nat, col: nat)
    requires IsRect(grid, h, w) && row < h && col < w && grid[row][col].Some?
    requires PartialMonthMap(grid, h, w, m, row, col)
    ensures var m' := Store(m, CentreX(col), CentreY(row), grid[row][col].value);
            PartialMonthMap(grid, h, w, m', row, col + 1) && |Entries(m')| == |Entries(m)| + 1
  {
    NotYetStored(grid, h, w, m, row, col);
    assert (CentreX(col), CentreY(row)) !in Entries(m);
    EntriesStore(m, CentreX(col), CentreY(row), grid[row][col].value);
    VisitKeys(grid, h, w, m, row, col);
    VisitCells(grid, h, w, m, row, col);
  }

  /** Finishing a row is the same as starting the next one. */
  lemma RowDone(grid: Grid, h: nat, w: nat, m: SparseGrid, row: nat)
    requires IsRect(grid, h, w) && row < h
    requires PartialMonthMap(grid, h, w, m, row, w)
    ensures PartialMonthMap(grid, h, w, m, row + 1, 0)
  {
    forall x, y | x in m && y in m[x]
      ensures Before(RowOfKey(y), ColOfKey(x), row + 1, 0)
    {
      assert IsCellKey(x, y, h, w);
    }
  }

  /** Once every cell is visited the invariant is the specification. */
  lemma AllVisited(grid: Grid, h: nat, w: nat, m: SparseGrid)
    requires IsRect(grid, h, w)
    requires PartialMonthMap(grid, h, w, m, h, 0)
    ensures IsMonthMap(grid, h, w, m)
  {
    forall r, c | 0 <= r < h && 0 <= c < w && grid[r][c].Some?
      ensures m[CentreX(c)][CentreY(r)] == grid[r][c].value
    {
      KeyInverse(r, c);
      assert HasCell(m, CentreX(c), CentreY(r));
    }
  }

  /** Stores the cells of one row that hold a value. */
  method StoreRow(grid: Grid, h: nat, w: nat, m0: SparseGrid, count0: nat, row: nat)
    returns (m: SparseGrid, count: nat)
    requires IsRect(grid, h, w) && row < h
    requires PartialMonthMap(grid, h, w, m0, row, 0)
    requires count0 == CountRows(grid, row) && |Entries(m0)| == count0
    ensures PartialMonthMap(grid, h, w, m, row + 1, 0)
    ensures count == CountRows(grid, row + 1) && |Entries(m)| == count
  {
    m, count := m0, count0;
    var col := 0;
    while col < w
      invariant 0 <= col <= w
      invariant PartialMonthMap(grid, h, w, m, row, col)
      invariant count == CountRows(grid, row) + CountRow(grid[row], col) && |Entries(m)| == count
    {
      m, count := StoreCell(grid, h, w, m, count, row, col);
      col := col + 1;
    }
    RowDone(grid, h, w, m, row);
  }

  /** One cell of the row: stored under the integer coordinates of its
      centre, and counted, when it holds a value; skipped when NaN. */
  method StoreCell(grid: Grid, h: nat, w: nat, m0: SparseGrid, count0: nat, row: nat, col: nat)
    returns (m: SparseGrid, count: nat)
    requires IsRect(grid, h, w) && row < h && col < w
    requires PartialMonthMap(grid, h, w, m0, row, col)
    requires count0 == CountRows(grid, row) + CountRow(grid[row], col) && |Entries(m0)| == count0
    ensures PartialMonthMap(grid, h, w, m, row, col + 1)
    ensures count == CountRows(grid, row) + CountRow(grid[row], col + 1) && |Entries(m)| == count
  {
    match grid[row][col] {
      case None =>
        VisitEmptyCell(grid, h, w, m0, row, col);
        m, count := m0, count0;
      case Some(v) =>
        VisitValueCell(grid, h, w, m0, row, col);
        var xy := IndexToCoord(row, col);
        m := Store(m0, Trunc(xy.0), Trunc(xy.1), v);
        count := count0 + 1;
    }
  }

  /** The sparse conversion of one month: the cells with a value are visited
      in row-major order (`np.where`), each is stored under the integer
      coordinates of its centre, and `non_nan_count` is incremented. The
      entry count equals the count of cells with a value. */
  method BuildMonthMap(grid: Grid, h: nat, w: nat) returns (m: SparseGrid, count: nat)
    requires IsRect(grid, h, w)
    ensures IsMonthMap(grid, h, w, m)
    ensures count == NonNanCount(grid) && |Entries(m)| == count
  {
    m, count := map[], 0;
    assert Entries(m) == {};
    var row := 0;
    while row < h
      invariant 0 <= row <= h
      invariant PartialMonthMap(grid, h, w, m, row, 0)
      invariant count == CountRows(grid, row) && |Entries(m)| == count
    {
      m, count := StoreRow(grid, h, w, m, count, row);
      row := row + 1;
    }
    AllVisited(grid, h, w, m);
  }

  /** The Woolhampton cell of one month. */
  function WoolhamptonValue(grid: Grid, h: nat, w: nat): Option<real>
    requires IsRect(grid, h, w) && WOOL_ROW < h && WOOL_COL < w
  {
    grid[WOOL_ROW][WOOL_COL]
  }

  /** The values collected by Woolhampton tracking over a run of months:
      the Woolhampton cell of each month, in order, skipping NaN. */
  function WoolhamptonSamples(months: seq<Grid>, h: nat, w: nat): (s: seq<real>)
    requires forall i :: 0 <= i < |months| ==> IsRect(months[i], h, w)
    requires WOOL_ROW < h && WOOL_COL < w
    ensures |s| <= |months|
    ensures forall v :: v in s ==> exists i :: 0 <= i < |months| && WoolhamptonValue(months[i], h, w) == Some(v)
  {
    if months == [] then []
    else
      var n := |months|;
      var rest := WoolhamptonSamples(months[..n - 1], h, w);
      assert forall v :: v in rest ==> exists i :: 0 <= i < n - 1 && WoolhamptonValue(months[i], h, w) == Some(v);
      match WoolhamptonValue(months[n - 1], h, w)
      case None => rest
      case Some(v) => rest + [v]
  }

  /** One year's file as `process_variable` meets it: not found by the glob,
      found but holding none of the variables it looks for (skipped), or
      opened with the time slices of its data variable. */
  datatype DataFile = NotFound | NoVariable | Opened(slices: seq<Grid>)

  /** What a run reads: the grids it converts, in order, the (year index,
      month number) each is written under, and whether it stopped on the
      `IndexError` of a file with fewer than twelve slices. */
  datatype Reading = Reading(months: seq<Grid>, slots: seq<(nat, nat)>, crashed: bool)

  /** Month `slot.1` of year `slot.0` is slice `slot.1 - 1` of that year's
      opened file, and that slice is `g`. */
  predicate SlotHolds(files: seq<DataFile>, slot: (nat, nat), g: Grid) {
    && slot.0 < |files| && files[slot.0].Opened?
    && 1 <= slot.1 <= 12 && slot.1 <= |files[slot.0].slices|
    && files[slot.0].slices[slot.1 - 1] == g
  }

  /** The reads of `for year in YEARS_TO_PROCESS: … for month_idx in
      range(12): data_var[month_idx]`: the first twelve slices of every
      opened file, in year order; a file with fewer slices gives up all of
      them and then stops the run, so no later year is read. */
  function ReadYears(files: seq<DataFile>): (r: Reading)
    ensures |r.slots| == |r.months|
    ensures forall k :: 0 <= k < |r.slots| ==> SlotHolds(files, r.slots[k], r.months[k])
  {
    if files == [] then Reading([], [], false)
    else
      var n := |files|;
      var pre := ReadYears(files[..n - 1]);
      assert forall k :: 0 <= k < |pre.slots| ==> SlotHolds(files[..n - 1], pre.slots[k], pre.months[k]);
      if pre.crashed then pre
      else
        match files[n - 1]
        case Opened(slices) =>
          var k := if |slices| < 12 then |slices| else 12;
          Reading(pre.months + slices[..k], pre.slots + seq(k, i => (n - 1, i + 1)), |slices| < 12)
        case _ => pre
  }

  /** The run stops exactly when some opened file has fewer than twelve
      slices. */
  lemma {:induction false} ReadYearsCrash(files: seq<DataFile>)
    ensures ReadYears(files).crashed <==>
            exists y :: 0 <= y < |files| && files[y].Opened? && |files[y].slices| < 12
  {
    if files != [] {
      var n := |files|;
      ReadYearsCrash(files[..n - 1]);
      if ReadYears(files[..n - 1]).crashed {
        var y :| 0 <= y < n - 1 && files[..n - 1][y].Opened? && |files[..n - 1][y].slices| < 12;
        assert files[y] == files[..n - 1][y];
      } else {
        forall y | 0 <= y < n - 1 && files[y].Opened?
          ensures |files[y].slices| >= 12
        {
          assert files[y] == files[..n - 1][y];
        }
      }
    }
  }

  /** Once the run has stopped, the later years change nothing. */
  lemma {:induction false} CrashStays(files: seq<DataFile>, y: nat)
    requires y <= |files| && ReadYears(files[..y]).crashed
    ensures ReadYears(files) == ReadYears(files[..y])
    decreases |files| - y
  {
    if y == |files| {
      assert files[..y] == files;
    } else {
      var n := |files|;
      assert files[..n - 1][..y] == files[..y];
      CrashStays(files[..n - 1], y);
    }
  }

  /** A run that does not stop writes all twelve months of every opened
      file. */
  lemma {:induction false} ReadYearsComplete(files: seq<DataFile>)
    ensures var r := ReadYears(files);
            !r.crashed ==> forall y, mo :: 0 <= y < |files| && files[y].Opened? && 1 <= mo <= 12 ==> (y, mo) in r.slots
  {
    if files != [] {
      var n := |files|;
      var pre, r := ReadYears(files[..n - 1]), ReadYears(files);
      ReadYearsComplete(files[..n - 1]);
      if !r.crashed {
        assert !pre.crashed;
        forall y, mo | 0 <= y < n && files[y].Opened? && 1 <= mo <= 12
          ensures (y, mo) in r.slots
        {
          if y < n - 1 {
            assert files[..n - 1][y] == files[y];
            assert (y, mo) in pre.slots;
          } else {
            assert r.slots[|pre.slots| + mo - 1] == (y, mo);
          }
        }
      }
    }
  }

  /** Slot `a` names an earlier year than `b`, or an earlier month of the
      same year. */
  predicate SlotBefore(a: (nat, nat), b: (nat, nat)) {
    a.0 < b.0 || (a.0 == b.0 && a.1 < b.1)
  }

  /** The months are written in year order, and in month order within a
      year. */
  lemma {:induction false} ReadYearsInOrder(files: seq<DataFile>)
    ensures forall i, j :: 0 <= i < j < |ReadYears(files).slots| ==>
              SlotBefore(ReadYears(files).slots[i], ReadYears(files).slots[j])
  {
    if files != [] {
      var n := |files|;
      var pre, r := ReadYears(files[..n - 1]), ReadYears(files);
      ReadYearsInOrder(files[..n - 1]);
      assert forall k :: 0 <= k < |pre.slots| ==> pre.slots[k].0 < n - 1 by {
        forall k | 0 <= k < |pre.slots| ensures pre.slots[k].0 < n - 1 {
          assert SlotHolds(files[..n - 1], pre.slots[k], pre.months[k]);
        }
      }
      if !pre.crashed && files[n - 1].Opened? {
        var p := |pre.slots|;
        assert forall i :: 0 <= i < p ==> r.slots[i] == pre.slots[i];
        assert forall i :: p <= i < |r.slots| ==> r.slots[i] == (n - 1, i - p + 1);
        forall i, j | 0 <= i < j < |r.slots|
          ensures SlotBefore(r.slots[i], r.slots[j])
        {
          if j < p {
            assert r.slots[i] == pre.slots[i] && r.slots[j] == pre.slots[j];
          } else if i < p {
            assert r.slots[i] == pre.slots[i];
          }
        }
      }
    }
  }

  /** The state of `process_variable` after converting `months`: one sparse
      map and one count per month, as `BuildMonthMap` states, and, when
      tracking, the Woolhampton values that are not NaN. */
  ghost predicate Converted(months: seq<Grid>, h: nat, w: nat, tracking: bool,
                            maps: seq<SparseGrid>, counts: seq<nat>, samples: seq<real>)
  {
    && (forall i :: 0 <= i < |months| ==> IsRect(months[i], h, w))
    && |maps| == |months| && |counts| == |months|
    && (forall i :: 0 <= i < |months| ==>
          IsMonthMap(months[i], h, w, maps[i]) && counts[i] == NonNanCount(months[i]) == |Entries(maps[i])|)
    && (tracking ==> WOOL_ROW < h && WOOL_COL < w && samples == WoolhamptonSamples(months, h, w))
    && (!tracking ==> samples == [])
  }

  /** The month loop over one opened file: months 0 to 11 are converted in
      order, and the read of a slice the file does not have raises
      `IndexError`. */
  method ProcessYear(slices: seq<Grid>, h: nat, w: nat, tracking: bool, ghost done: seq<Grid>,
                     maps0: seq<SparseGrid>, counts0: seq<nat>, samples0: seq<real>)
    returns (maps: seq<SparseGrid>, counts: seq<nat>, samples: seq<real>, crashed: bool)
    requires forall i :: 0 <= i < |slices| ==> IsRect(slices[i], h, w)
    requires tracking ==> WOOL_ROW < h && WOOL_COL < w
    requires Converted(done, h, w, tracking, maps0, counts0, samples0)
    ensures crashed <==> |slices| < 12
    ensures Converted(done + slices[..if |slices| < 12 then |slices| else 12], h, w, tracking, maps, counts, samples)
  {
    maps, counts, samples, crashed := maps0, counts0, samples0, false;
    var m := 0;
    assert done + slices[..0] == done;
    while m < 12 && !crashed
      invariant 0 <= m <= 12 && m <= |slices|
      invariant crashed ==> m == |slices| < 12
      invariant Converted(done + slices[..m], h, w, tracking, maps, counts, samples)
      decreases 12 - m, if crashed then 0 else 1
    {
      if m == |slices| {
        crashed := true;
      } else {
        ghost var read := done + slices[..m];
        assert read + [slices[m]] == done + slices[..m + 1];
        assert (read + [slices[m]])[..|read|] == read;
        if tracking {
          var v := WoolhamptonValue(slices[m], h, w);
          if v.Some? {
            samples := samples + [v.value];
          }
        }
        var g, count := BuildMonthMap(slices[m], h, w);
        maps, counts := maps + [g], counts + [count];
        m := m + 1;
      }
    }
  }

  /** `process_variable` over the files of the years processed, in order:
      every grid `ReadYears` reads is converted and written under its year
      and month, and the run stops where a short file raises. */
  method ProcessVariable(files: seq<DataFile>, h: nat, w: nat, tracking: bool)
    returns (maps: seq<SparseGrid>, counts: seq<nat>, written: seq<(nat, nat)>, samples: seq<real>, crashed: bool)
    requires forall y, i :: 0 <= y < |files| && files[y].Opened? && 0 <= i < |files[y].slices| ==>
               IsRect(files[y].slices[i], h, w)
    requires tracking ==> WOOL_ROW < h && WOOL_COL < w
    ensures crashed == ReadYears(files).crashed && written == ReadYears(files).slots
    ensures Converted(ReadYears(files).months, h, w, tracking, maps, counts, samples)
  {
    maps, counts, written, samples, crashed := [], [], [], [], false;
    var y := 0;
    assert files[..0] == [];
    while y < |files| && !crashed
      invariant 0 <= y <= |files|
      invariant crashed == ReadYears(files[..y]).crashed && written == ReadYears(files[..y]).slots
      invariant Converted(ReadYears(files[..y]).months, h, w, tracking, maps, counts, samples)
    {
      assert files[..y + 1][..y] == files[..y];
      assert files[..y + 1][y] == files[y];
      match files[y] {
        case Opened(slices) =>
          var k := if |slices| < 12 then |slices| else 12;
          maps, counts, samples, crashed :=
            ProcessYear(slices, h, w, tracking, ReadYears(files[..y]).months, maps, counts, samples);
          written := written + seq(k, i => (y, i + 1));
        case _ =>
      }
      y := y + 1;
    }
    if crashed {
      CrashStays(files, y);
    } else {
      assert files[..y] == files;
    }
  }

  /** The temperature block of the metadata: the observed Woolhampton range
      when there are samples, and the absolute scale. */
  datatype TemperatureScale = TemperatureScale(observed: Option<(real, real)>, scaleMin: int, scaleMax: int)

  /** The scale is -10 to 32 whether or not Woolhampton was observed; the
      observed range is the least and greatest sample. */
  function ChooseTemperatureScale(samples: seq<real>): (t: TemperatureScale)
    ensures t.scaleMin == -10 && t.scaleMax == 32
    ensures t.observed.None? <==> samples == []
    ensures t.observed.Some? ==> t.observed.value.0 in samples && t.observed.value.1 in samples
    ensures t.observed.Some? ==> forall i :: 0 <= i < |samples| ==>
              t.observed.value.0 <= samples[i] <= t.observed.value.1
  {
    if |samples| > 0 then TemperatureScale(Some((MinOf(samples), MaxOf(samples))), -10, 32)
    else TemperatureScale(None, -10, 32)
  }
}
