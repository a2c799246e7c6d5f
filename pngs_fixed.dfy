/** The corrected PNG generator for the web map: each output pixel is placed
    by linear interpolation in latitude and longitude between the bounds of
    the British National Grid extent, reprojected to a grid cell, and
    coloured from that cell. */
module PngsFixed {
  import opened Wrappers
  import opened PixelGeometry
  import opened Colours
  import opened Classify
  import opened Raster
  import opened SparseValues

  /** The geographic rectangle the image is stretched over. */
  datatype LatLngBounds = LatLngBounds(latMin: real, latMax: real, lngMin: real, lngMax: real)

  /** The south-west and north-east corners of the grid extent, in metres. */
  const BNG_SW: Point := Point(0.0, 0.0)
  const BNG_NE: Point := Point(700000.0, 1250000.0)

  /** The image bounds are the WGS84 images of the two grid corners
      (`toWgs` gives (lng, lat)). */
  function CornerBounds(toWgs: Point -> Point): LatLngBounds
  {
    LatLngBounds(toWgs(BNG_SW).y, toWgs(BNG_NE).y, toWgs(BNG_SW).x, toWgs(BNG_NE).x)
  }

  /** Latitude of a row: row 0 is the northern bound, the last row the
      southern one. */
  function RowLat(row: int, b: LatLngBounds): real {
    Descend(row, b.latMax, b.latMin, IMG_HEIGHT - 1)
  }

  /** Longitude of a column: column 0 is the western bound, the last column
      the eastern one. */
  function ColLng(col: int, b: LatLngBounds): real {
    Ascend(col, b.lngMin, b.lngMax, IMG_WIDTH - 1)
  }

  /** The first and last rows and columns land exactly on the bounds, and
      latitude falls strictly down the image and longitude rises strictly
      across it. */
  lemma EdgesOnBounds(b: LatLngBounds, r1: int, r2: int)
    requires b.latMin < b.latMax && b.lngMin < b.lngMax && r1 < r2
    ensures RowLat(0, b) == b.latMax && RowLat(IMG_HEIGHT - 1, b) == b.latMin
    ensures ColLng(0, b) == b.lngMin && ColLng(IMG_WIDTH - 1, b) == b.lngMax
    ensures RowLat(r1, b) > RowLat(r2, b) && ColLng(r1, b) < ColLng(r2, b)
  {
    InterpolationEnds(b.latMax, b.latMin, IMG_HEIGHT - 1);
    InterpolationEnds(b.lngMax, b.lngMin, IMG_WIDTH - 1);
    InterpolationStrict(r1, r2, b.latMin, b.latMax, IMG_HEIGHT - 1);
    InterpolationStrict(r1, r2, b.lngMin, b.lngMax, IMG_WIDTH - 1);
  }

  /** The grid point a pixel is looked up at: (lng, lat) reprojected by
      `toBng`, `None` when the transform raises. */
  function Sample(toBng: Point -> Option<Point>, b: LatLngBounds): (int, int) -> Option<Point> {
    (r: int, c: int) => toBng(Point(ColLng(c, b), RowLat(r, b)))
  }

  /** A temperature image, or `None` (skipped) when the month's data is
      missing or empty. Each pixel, placed between the WGS84 images of the
      grid corners, is the temperature colour of the cell its reprojected
      centre falls in, or transparent. */
  method GenerateTempImage(data: Option<SparseGrid>, toBng: Point -> Option<Point>, toWgs: Point -> Point)
    returns (img: Option<array2<Rgba>>)
    ensures img.None? <==> data.None? || data.value == map[]
    ensures img.Some? ==> img.value.Length0 == IMG_HEIGHT && img.value.Length1 == IMG_WIDTH
    ensures img.Some? ==> forall r, c :: 0 <= r < IMG_HEIGHT && 0 <= c < IMG_WIDTH ==>
              img.value[r, c] == TempPixel(Sample(toBng, CornerBounds(toWgs))(r, c), data.value)
  {
    if data.None? || data.value == map[] {
      return None;
    }
    var a := FillTemp(IMG_HEIGHT, IMG_WIDTH, Sample(toBng, CornerBounds(toWgs)), data.value);
    img := Some(a);
  }

  /** A rain/sunshine image, or `None` when either month is missing or empty.
      The thresholds are the by-rank tertiles of every value of each grid
      (0 and 0 when a grid holds no value); each pixel, placed between the
      WGS84 images of the grid corners, is the bivariate colour of its cell
      when both grids hold it, or transparent. */
  method GenerateRainSunImage(rain: Option<SparseGrid>, sun: Option<SparseGrid>,
                              toBng: Point -> Option<Point>, toWgs: Point -> Point)
    returns (img: Option<array2<Rgba>>, rainT: Thresholds, sunT: Thresholds)
    ensures img.None? <==> rain.None? || rain.value == map[] || sun.None? || sun.value == map[]
    ensures img.Some? ==> exists vs, ks :: ListsEntries(rain.value, vs, ks) && rainT == TertilesByRank(vs)
    ensures img.Some? ==> exists vs, ks :: ListsEntries(sun.value, vs, ks) && sunT == TertilesByRank(vs)
    ensures img.Some? ==> img.value.Length0 == IMG_HEIGHT && img.value.Length1 == IMG_WIDTH
    ensures img.Some? ==> forall r, c :: 0 <= r < IMG_HEIGHT && 0 <= c < IMG_WIDTH ==>
              img.value[r, c] == RainSunPixel(Sample(toBng, CornerBounds(toWgs))(r, c), rain.value, sun.value, rainT, sunT)
  {
    rainT, sunT := Thresholds(0.0, 0.0), Thresholds(0.0, 0.0);
    if rain.None? || rain.value == map[] || sun.None? || sun.value == map[] {
      return None, rainT, sunT;
    }
    var rainValues, rainKeys := FlattenValues(rain.value);
    var sunValues, sunKeys := FlattenValues(sun.value);
    rainT, sunT := TertilesByRank(rainValues), TertilesByRank(sunValues);
    var a := FillRainSun(IMG_HEIGHT, IMG_WIDTH, Sample(toBng, CornerBounds(toWgs)), rain.value, sun.value, rainT, sunT);
    img := Some(a);
  }
}
