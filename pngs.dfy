/** The first web-map PNG generator: like the corrected one, but over fixed
    latitude/longitude bounds, with each row and column divided by the image
    size rather than by the size minus one, and with legacy thresholds. */
module Pngs {
  import opened Wrappers
  import opened PixelGeometry
  import opened Colours
  import opened Classify
  import opened Raster
  import opened SparseValues
  import ExtractData

  const LAT_MIN: real := 49.5
  const LAT_MAX: real := 61.0
  const LNG_MIN: real := -8.5
  const LNG_MAX: real := 2.0

  /** Latitude of a row: `LAT_MAX - (row / IMG_HEIGHT) * span`. */
  function RowLat(row: int): real {
    Descend(row, LAT_MAX, LAT_MIN, IMG_HEIGHT)
  }

  /** Longitude of a column: `LNG_MIN + (col / IMG_WIDTH) * span`. */
  function ColLng(col: int): real {
    Ascend(col, LNG_MIN, LNG_MAX, IMG_WIDTH)
  }

  /** Row 0 and column 0 sit on the northern and western bounds, but the
      last row stays strictly north of `LAT_MIN` and the last column
      strictly west of `LNG_MAX`: the southern and eastern bounds are only
      reached one pixel past the image. */
  lemma EdgesShortOfBounds()
    ensures RowLat(0) == LAT_MAX && ColLng(0) == LNG_MIN
    ensures RowLat(IMG_HEIGHT - 1) > LAT_MIN && RowLat(IMG_HEIGHT) == LAT_MIN
    ensures ColLng(IMG_WIDTH - 1) < LNG_MAX && ColLng(IMG_WIDTH) == LNG_MAX
  {
    InterpolationEnds(LAT_MAX, LAT_MIN, IMG_HEIGHT);
    InterpolationEnds(LNG_MAX, LNG_MIN, IMG_WIDTH);
    InterpolationStrict(IMG_HEIGHT - 1, IMG_HEIGHT, LAT_MIN, LAT_MAX, IMG_HEIGHT);
    InterpolationStrict(IMG_WIDTH - 1, IMG_WIDTH, LNG_MIN, LNG_MAX, IMG_WIDTH);
  }

  function Sample(toBng: Point -> Option<Point>): (int, int) -> Option<Point> {
    (r: int, c: int) => toBng(Point(ColLng(c), RowLat(r)))
  }

  /** A temperature image, or `None` when the month is missing or empty. */
  method GenerateTempImage(data: Option<SparseGrid>, toBng: Point -> Option<Point>)
    returns (img: Option<array2<Rgba>>)
    ensures img.None? <==> data.None? || data.value == map[]
    ensures img.Some? ==> img.value.Length0 == IMG_HEIGHT && img.value.Length1 == IMG_WIDTH
    ensures img.Some? ==> forall r, c :: 0 <= r < IMG_HEIGHT && 0 <= c < IMG_WIDTH ==>
              img.value[r, c] == TempPixel(Sample(toBng)(r, c), data.value)
  {
    if data.None? || data.value == map[] {
      return None;
    }
    var a := FillTemp(IMG_HEIGHT, IMG_WIDTH, Sample(toBng), data.value);
    img := Some(a);
  }

  /** What a rain/sunshine run ends in: skipped, stopped by an `IndexError`
      on an empty value list, or an image with the thresholds it used. */
  datatype RainSunOutcome =
    | Skipped
    | Crashed
    | Written(img: array2<Rgba>, rainT: Thresholds, sunT: Thresholds)

  /** A rain/sunshine image. Months missing or empty are skipped; a grid
      whose every column dictionary is empty passes that guard, leaves an
      empty value list and crashes on the threshold lookup; otherwise the
      thresholds are the legacy tertiles and each pixel is the bivariate
      colour of its cell when both grids hold it. */
  method GenerateRainSunImage(rain: Option<SparseGrid>, sun: Option<SparseGrid>, toBng: Point -> Option<Point>)
    returns (out: RainSunOutcome)
    ensures out.Skipped? <==> rain.None? || rain.value == map[] || sun.None? || sun.value == map[]
    ensures out.Crashed? <==> !out.Skipped? && (NoCells(rain.value) || NoCells(sun.value))
    ensures out.Written? ==> LegacyThresholdsOf(rain.value, out.rainT) && LegacyThresholdsOf(sun.value, out.sunT)
    ensures out.Written? ==> out.img.Length0 == IMG_HEIGHT && out.img.Length1 == IMG_WIDTH
    ensures out.Written? ==> forall r, c :: 0 <= r < IMG_HEIGHT && 0 <= c < IMG_WIDTH ==>
              out.img[r, c] == RainSunPixel(Sample(toBng)(r, c), rain.value, sun.value, out.rainT, out.sunT)
  {
    if rain.None? || rain.value == map[] || sun.None? || sun.value == map[] {
      return Skipped;
    }
    var rainT := LegacyThresholds(rain.value);
    var sunT := LegacyThresholds(sun.value);
    if rainT.None? || sunT.None? {
      return Crashed;
    }
    var a := FillRainSun(IMG_HEIGHT, IMG_WIDTH, Sample(toBng), rain.value, sun.value, rainT.value, sunT.value);
    out := Written(a, rainT.value, sunT.value);
  }

  /** `t` is the legacy tertile pair of some listing of the values of `m`. */
  ghost predicate LegacyThresholdsOf(m: SparseGrid, t: Thresholds) {
    exists vs, ks :: ListsEntries(m, vs, ks) && TertilesLegacy(vs) == Some(t)
  }

  /** The value list of one grid and the lookup of its two thresholds, which
      fails exactly when the grid holds no cell. */
  method LegacyThresholds(m: SparseGrid) returns (t: Option<Thresholds>)
    ensures t.None? <==> NoCells(m)
    ensures t.Some? ==> LegacyThresholdsOf(m, t.value)
  {
    var values, keys := FlattenValues(m);
    EmptyFlattening(m, values, keys);
    t := TertilesLegacy(values);
  }

  /** No column dictionary holds a cell. */
  predicate NoCells(m: SparseGrid) {
    forall x :: x in m ==> m[x] == map[]
  }

  /** A flattening is empty exactly when the grid holds no cell. */
  lemma EmptyFlattening(m: SparseGrid, values: seq<real>, keys: seq<(int, int)>)
    requires ListsEntries(m, values, keys)
    ensures values == [] <==> NoCells(m)
  {
    if values != [] {
      assert HasCell(m, keys[0].0, keys[0].1);
    } else {
      forall x | x in m ensures m[x] == map[] {
        assert forall y :: y in m[x] ==> (x, y) in Entries(m) && (x, y) in keys;
        assert m[x].Keys == {};
      }
    }
  }

  /** A grid written by the extraction step never crashes the threshold
      lookup: when its outer dictionary is not empty it holds a cell. */
  lemma ExtractedGridsDoNotCrash(m: SparseGrid, values: seq<real>, keys: seq<(int, int)>)
    requires ListsEntries(m, values, keys) && ExtractData.NoEmptyColumn(m) && m != map[]
    ensures values != [] && TertilesLegacy(values).Some?
  {
    HasMember(m.Keys);
    var x :| x in m.Keys;
    HasMember(m[x].Keys);
    var y :| y in m[x].Keys;
    assert (x, y) in keys;
  }

  /** A grid with one easting key and no northing under it. */
  const ONE_EMPTY_COLUMN: SparseGrid := map[0 := map[]]

  /** Such a grid passes the skip guard but flattens to nothing, so the
      threshold lookup fails. */
  lemma EmptyColumnCrashes(values: seq<real>, keys: seq<(int, int)>)
    requires ListsEntries(ONE_EMPTY_COLUMN, values, keys)
    ensures ONE_EMPTY_COLUMN != map[] && TertilesLegacy(values).None?
  {
    assert Entries(ONE_EMPTY_COLUMN) == {};
    EmptyFlattening(ONE_EMPTY_COLUMN, values, keys);
    assert 0 in ONE_EMPTY_COLUMN;
  }
}
