/** The decile-coloured temperature images: each valid cell is coloured by
    how many of nine percentile bounds its value exceeds, missing cells stay
    white, and the array is flipped so that north is up. Monthly arrays are
    collected across years for the averages. */
module ProcessTemperature {
  import opened Wrappers
  import opened Colours
  import opened Classify
  import opened Raster
  import ExtractData

  /** A pixel as matplotlib colours hold it: three components in [0, 1]. */
  datatype UnitRgb = UnitRgb(r: real, g: real, b: real)

  const WHITE: UnitRgb := UnitRgb(1.0, 1.0, 1.0)

  /** `mcolors.to_rgb` of a decoded colour: each component over 255. */
  function ToUnit(c: Rgb): (u: UnitRgb)
    requires c.Valid()
    ensures 0.0 <= u.r <= 1.0 && 0.0 <= u.g <= 1.0 && 0.0 <= u.b <= 1.0
  {
    UnitRgb(c.r as real / 255.0, c.g as real / 255.0, c.b as real / 255.0)
  }

  /** `(rgb_array * 255).astype('uint8')` of one pixel. */
  function ToBytes(u: UnitRgb): Rgb {
    Rgb((u.r * 255.0).Floor, (u.g * 255.0).Floor, (u.b * 255.0).Floor)
  }

  /** Saving gives back the palette colour exactly, and white as 255s. */
  lemma BytesRoundTrip(c: Rgb)
    requires c.Valid()
    ensures ToBytes(ToUnit(c)) == c
    ensures ToBytes(WHITE) == Rgb(255, 255, 255)
  {
    assert ToUnit(c).r * 255.0 == c.r as real;
    assert ToUnit(c).g * 255.0 == c.g as real;
    assert ToUnit(c).b * 255.0 == c.b as real;
  }

  /** The decile index the masked loop leaves in a valid cell: one more than
      the last position whose bound the value exceeds, or 0. */
  function DecileIndex(v: real, bounds: seq<real>): (k: nat)
    ensures k <= |bounds|
    ensures k > 0 ==> v > bounds[k - 1]
    ensures forall j :: k <= j < |bounds| ==> !(v > bounds[j])
  {
    if bounds == [] then 0
    else if v > bounds[|bounds| - 1] then |bounds|
    else DecileIndex(v, bounds[..|bounds| - 1])
  }

  /** With ascending bounds the index is the number of bounds strictly below
      the value. */
  lemma {:induction false} DecileIndexCounts(v: real, bounds: seq<real>)
    requires Sorted(bounds)
    ensures DecileIndex(v, bounds) == CountBelow(bounds, v)
  {
    if bounds != [] {
      var n := |bounds|;
      var init := bounds[..n - 1];
      CountBelowSnoc(init, bounds[n - 1], v);
      assert init + [bounds[n - 1]] == bounds;
      if v > bounds[n - 1] {
        AllBelow(init, bounds[n - 1], v);
      } else {
        DecileIndexCounts(v, init);
      }
    }
  }

  lemma {:induction false} CountBelowSnoc(s: seq<real>, x: real, t: real)
    ensures CountBelow(s + [x], t) == CountBelow(s, t) + (if x < t then 1 else 0)
  {
    if s == [] {
      assert CountBelow([x], t) == (if x < t then 1 else 0) + CountBelow([x][1..], t);
    } else {
      assert (s + [x])[1..] == s[1..] + [x];
      CountBelowSnoc(s[1..], x, t);
    }
  }

  /** Every entry of an ascending list lies below a value above its last
      element's successor. */
  lemma {:induction false} AllBelow(s: seq<real>, last: real, t: real)
    requires forall i :: 0 <= i < |s| ==> s[i] <= last
    requires last < t
    ensures CountBelow(s, t) == |s|
  {
    if s != [] {
      AllBelow(s[1..], last, t);
    }
  }

  /** A value equal to a bound stays in that bound's bin or below: the
      comparison is strict. */
  lemma EqualStaysLower(bounds: seq<real>, k: nat)
    requires Sorted(bounds) && k < |bounds|
    ensures DecileIndex(bounds[k], bounds) <= k
  {
    DecileIndexCounts(bounds[k], bounds);
    SortedCountBelow(bounds, k, bounds[k]);
  }

  /** The index a cell holds after the masked assignments for `bounds`; NaN
      cells keep 0. */
  function CellIndex(v: Option<real>, bounds: seq<real>): nat {
    match v
    case None => 0
    case Some(t) => DecileIndex(t, bounds)
  }

  /** The colour a cell receives before the flip. */
  function CellColour(v: Option<real>, bounds: seq<real>): (u: UnitRgb)
    requires |bounds| == 9
    ensures v.None? ==> u == WHITE
    ensures v.Some? ==> exists i :: 0 <= i < 10 && u == ToUnit(TEMP_COLORS[i])
  {
    match v
    case None => WHITE
    case Some(t) =>
      var i := DecileIndex(t, bounds);
      TempTablesAgree(i);
      ToUnit(TEMP_COLORS[i])
  }

  /** One masked assignment `color_idx[(temp > bound) & valid] = i + 1`. */
  method MarkAbove(idx: array2<int>, grid: Grid, bound: real, i: nat)
    requires IsRect(grid, idx.Length0, idx.Length1)
    modifies idx
    ensures forall r, c :: 0 <= r < idx.Length0 && 0 <= c < idx.Length1 ==>
              idx[r, c] == if grid[r][c].Some? && grid[r][c].value > bound then i + 1 else old(idx[r, c])
  {
    var row := 0;
    while row < idx.Length0
      invariant 0 <= row <= idx.Length0
      invariant forall r, c :: 0 <= r < idx.Length0 && 0 <= c < idx.Length1 ==>
                  idx[r, c] == if r < row && grid[r][c].Some? && grid[r][c].value > bound then i + 1 else old(idx[r, c])
    {
      var col := 0;
      while col < idx.Length1
        invariant 0 <= col <= idx.Length1
        invariant forall r, c :: 0 <= r < idx.Length0 && 0 <= c < idx.Length1 ==>
                    idx[r, c] == if (r < row || (r == row && c < col)) && grid[r][c].Some? && grid[r][c].value > bound
                                 then i + 1 else old(idx[r, c])
      {
        if grid[row][col].Some? && grid[row][col].value > bound {
          idx[row, col] := i + 1;
        }
        col := col + 1;
      }
      row := row + 1;
    }
  }

  /** The loop over the decile bounds: each cell ends with its decile index. */
  method DecileIndices(grid: Grid, h: nat, w: nat, bounds: seq<real>) returns (idx: array2<int>)
    requires IsRect(grid, h, w)
    ensures idx.Length0 == h && idx.Length1 == w
    ensures forall r, c :: 0 <= r < h && 0 <= c < w ==> idx[r, c] == CellIndex(grid[r][c], bounds)
  {
    idx := new int[h, w]((r, c) => 0);
    var k := 0;
    while k < |bounds|
      invariant 0 <= k <= |bounds|
      invariant forall r, c :: 0 <= r < h && 0 <= c < w ==> idx[r, c] == CellIndex(grid[r][c], bounds[..k])
    {
      assert bounds[..k + 1][..k] == bounds[..k];
      MarkAbove(idx, grid, bounds[k], k);
      k := k + 1;
    }
    assert bounds[..|bounds|] == bounds;
  }

  /** One colour pass `rgb_array[(color_idx == i) & valid] = to_rgb(colors[i])`. */
  method PaintIndex(rgb: array2<UnitRgb>, idx: array2<int>, grid: Grid, i: nat)
    requires i < 10
    requires idx.Length0 == rgb.Length0 && idx.Length1 == rgb.Length1 && IsRect(grid, rgb.Length0, rgb.Length1)
    modifies rgb
    ensures forall r, c :: 0 <= r < rgb.Length0 && 0 <= c < rgb.Length1 ==>
              rgb[r, c] == if idx[r, c] == i && grid[r][c].Some? then ToUnit(TEMP_COLORS[i]) else old(rgb[r, c])
  {
    TempTablesAgree(i);
    var colour := ToUnit(TEMP_COLORS[i]);
    var row := 0;
    while row < rgb.Length0
      invariant 0 <= row <= rgb.Length0
      invariant forall r, c :: 0 <= r < rgb.Length0 && 0 <= c < rgb.Length1 ==>
                  rgb[r, c] == if r < row && idx[r, c] == i && grid[r][c].Some? then colour else old(rgb[r, c])
    {
      PaintRow(rgb, idx, grid, i, colour, row);
      row := row + 1;
    }
  }

  method PaintRow(rgb: array2<UnitRgb>, idx: array2<int>, grid: Grid, i: nat, colour: UnitRgb, row: nat)
    requires idx.Length0 == rgb.Length0 && idx.Length1 == rgb.Length1 && IsRect(grid, rgb.Length0, rgb.Length1)
    requires row < rgb.Length0
    modifies rgb
    ensures forall r, c :: 0 <= r < rgb.Length0 && 0 <= c < rgb.Length1 ==>
              rgb[r, c] == if r == row && idx[r, c] == i && grid[r][c].Some? then colour else old(rgb[r, c])
  {
    var col := 0;
    while col < rgb.Length1
      invariant 0 <= col <= rgb.Length1
      invariant forall r, c :: 0 <= r < rgb.Length0 && 0 <= c < rgb.Length1 ==>
                  rgb[r, c] == if r == row && c < col && idx[r, c] == i && grid[r][c].Some? then colour else old(rgb[r, c])
    {
      if idx[row, col] == i && grid[row][col].Some? {
        rgb[row, col] := colour;
      }
      col := col + 1;
    }
  }

  /** The colour passes over all ten palette entries, starting from white. */
  method PaintAll(idx: array2<int>, grid: Grid, bounds: seq<real>) returns (rgb: array2<UnitRgb>)
    requires |bounds| == 9 && IsRect(grid, idx.Length0, idx.Length1)
    requires forall r, c :: 0 <= r < idx.Length0 && 0 <= c < idx.Length1 ==> idx[r, c] == CellIndex(grid[r][c], bounds)
    ensures rgb.Length0 == idx.Length0 && rgb.Length1 == idx.Length1
    ensures forall r, c :: 0 <= r < rgb.Length0 && 0 <= c < rgb.Length1 ==> rgb[r, c] == CellColour(grid[r][c], bounds)
  {
    rgb := new UnitRgb[idx.Length0, idx.Length1]((r, c) => WHITE);
    var i := 0;
    while i < 10
      invariant 0 <= i <= 10
      invariant forall r, c :: 0 <= r < rgb.Length0 && 0 <= c < rgb.Length1 ==>
                  rgb[r, c] == if idx[r, c] < i then CellColour(grid[r][c], bounds) else WHITE
    {
      PaintIndex(rgb, idx, grid, i);
      i := i + 1;
    }
  }

  /** `create_temp_rgb_array`: with no valid cell, an all-white array; else
      each valid cell gets the palette colour of its decile index, NaN cells
      stay white, and the rows are flipped so that output row `r` is input
      row `h - 1 - r`. Both paths agree with the per-cell colour. */
  method CreateTempRgbArray(grid: Grid, h: nat, w: nat, bounds: seq<real>) returns (rgb: array2<UnitRgb>)
    requires IsRect(grid, h, w) && |bounds| == 9
    ensures rgb.Length0 == h && rgb.Length1 == w
    ensures ExtractData.NonNanCount(grid) == 0 ==> forall r, c :: 0 <= r < h && 0 <= c < w ==> rgb[r, c] == WHITE
    ensures forall r, c :: 0 <= r < h && 0 <= c < w ==> rgb[r, c] == CellColour(grid[h - 1 - r][c], bounds)
  {
    if ExtractData.NonNanCount(grid) == 0 {
      NoValidCells(grid, h, w);
      rgb := new UnitRgb[h, w]((r, c) => WHITE);
      return;
    }
    var idx := DecileIndices(grid, h, w, bounds);
    var painted := PaintAll(idx, grid, bounds);
    rgb := FlipRows(painted);
  }

  lemma {:induction false} NoValidInRow(row: seq<Option<real>>, c: nat)
    requires c <= |row| && ExtractData.CountRow(row, c) == 0
    ensures forall j :: 0 <= j < c ==> row[j].None?
  {
    if c > 0 {
      NoValidInRow(row, c - 1);
    }
  }

  lemma {:induction false} NoValidInRows(grid: Grid, r: nat)
    requires r <= |grid| && ExtractData.CountRows(grid, r) == 0
    ensures forall i, j :: 0 <= i < r && 0 <= j < |grid[i]| ==> grid[i][j].None?
  {
    if r > 0 {
      NoValidInRows(grid, r - 1);
      NoValidInRow(grid[r - 1], |grid[r - 1]|);
    }
  }

  /** A grid with no valid value has only NaN cells. */
  lemma NoValidCells(grid: Grid, h: nat, w: nat)
    requires IsRect(grid, h, w) && ExtractData.NonNanCount(grid) == 0
    ensures forall r, c :: 0 <= r < h && 0 <= c < w ==> grid[r][c].None?
  {
    NoValidInRows(grid, h);
  }

  // ---------------------------------------------------------------------
  // Monthly averages

  /** A year's file as the collection loop meets it: not found, found but
      failing to open (the outer `except`), or opened with the monthly
      slices `isel(time=m)` can read; a slice past the end raises inside the
      per-month `try` and stores nothing. */
  datatype YearFile = NotFound | Unreadable | Opened(slices: seq<Grid>)

  /** The file supplies month `m`: it opened and has an `m`-th slice. */
  predicate Supplies(f: YearFile, m: nat) {
    f.Opened? && m < |f.slices|
  }

  /** The arrays stored for month `m`: that month of every year whose file
      supplies it, in year order. */
  function StoredForMonth(years: seq<YearFile>, m: nat): (s: seq<Grid>)
    ensures |s| <= |years|
  {
    if years == [] then []
    else
      var n := |years|;
      var earlier := StoredForMonth(years[..n - 1], m);
      if Supplies(years[n - 1], m) then earlier + [years[n - 1].slices[m]] else earlier
  }

  /** A month's list is empty exactly when no year's file supplies it. */
  lemma {:induction false} StoredEmptyIffNotSupplied(years: seq<YearFile>, m: nat)
    ensures StoredForMonth(years, m) == [] <==> forall y :: 0 <= y < |years| ==> !Supplies(years[y], m)
  {
    if years != [] {
      var n := |years|;
      StoredEmptyIffNotSupplied(years[..n - 1], m);
      assert forall y :: 0 <= y < n - 1 ==> years[..n - 1][y] == years[y];
    }
  }

  /** With complete files (twelve slices or more), a month's list is empty
      exactly when no year's file was found and opened. */
  lemma CompleteFilesStoreEveryMonth(years: seq<YearFile>, m: nat)
    requires m < 12
    requires forall y :: 0 <= y < |years| && years[y].Opened? ==> 12 <= |years[y].slices|
    ensures StoredForMonth(years, m) == [] <==> forall y :: 0 <= y < |years| ==> !years[y].Opened?
  {
    StoredEmptyIffNotSupplied(years, m);
  }

  /** The collection loop: twelve lists, each appended once per year whose
      file supplies that month. */
  method CollectMonthly(years: seq<YearFile>) returns (sums: seq<seq<Grid>>)
    ensures |sums| == 12
    ensures forall m :: 0 <= m < 12 ==> sums[m] == StoredForMonth(years, m)
  {
    sums := seq(12, _ => []);
    var y := 0;
    while y < |years|
      invariant 0 <= y <= |years|
      invariant |sums| == 12
      invariant forall m :: 0 <= m < 12 ==> sums[m] == StoredForMonth(years[..y], m)
    {
      assert years[..y + 1][..y] == years[..y];
      match years[y] {
        case NotFound =>
        case Unreadable =>
        case Opened(slices) =>
          var m := 0;
          var next := sums;
          while m < 12
            invariant 0 <= m <= 12 && |next| == 12
            invariant forall k :: 0 <= k < 12 ==>
                        next[k] == if k < m && k < |slices| then sums[k] + [slices[k]] else sums[k]
          {
            if m < |slices| {
              next := next[m := next[m] + [slices[m]]];
            }
            m := m + 1;
          }
          sums := next;
      }
      y := y + 1;
    }
    assert years[..|years|] == years;
  }

  /** The averaging loop's skip rule: the months, in order, whose list is not
      empty. */
  method MonthsToAverage(sums: seq<seq<Grid>>) returns (months: seq<nat>)
    requires |sums| == 12
    ensures forall m: nat :: m in months <==> m < 12 && sums[m] != []
    ensures forall i, j :: 0 <= i < j < |months| ==> months[i] < months[j]
  {
    months := [];
    var m := 0;
    while m < 12
      invariant 0 <= m <= 12
      invariant forall k: nat :: k in months <==> k < m && sums[k] != []
      invariant forall i, j :: 0 <= i < j < |months| ==> months[i] < months[j]
      invariant forall i :: 0 <= i < |months| ==> months[i] < m
    {
      if sums[m] != [] {
        months := months + [m];
      }
      m := m + 1;
    }
  }
}
