/** The earlier Web Mercator PNG generator: the data extent is scanned but
    unused, pixels are placed by linear interpolation in Mercator metres
    over the fixed grid extent, and the rain/sunshine array is flipped
    vertically before saving while the temperature array is not. */
module PngsOldBroken {
  import opened Wrappers
  import opened Numeric
  import opened PixelGeometry
  import opened Colours
  import opened Classify
  import opened Raster
  import opened SparseValues
  import PngsFixed
  import Pngs

  /** The least and greatest easting and northing keys of a month. */
  datatype Extent = Extent(eMin: int, eMax: int, nMin: int, nMax: int)

  /** The keys of one column dictionary. */
  method ColumnKeys(col: map<int, real>) returns (ys: seq<int>)
    ensures forall y :: y in ys <==> y in col
  {
    var rest := col.Keys;
    ys := [];
    while rest != {}
      invariant rest <= col.Keys
      invariant forall y :: y in ys <==> y in col && y !in rest
      decreases |rest|
    {
      HasMember(rest);
      var y :| y in rest;
      ys := ys + [y];
      rest := rest - {y};
    }
  }

  /** The extent scan: every outer key goes to `eastings` once, every inner
      key to `northings`, and the extent is their minima and maxima. `min`
      of an empty list raises, modelled as `None`. */
  method ScanExtent(sample: SparseGrid) returns (eastings: seq<int>, northings: seq<int>, extent: Option<Extent>)
    ensures forall x :: x in eastings <==> x in sample
    ensures forall i, j :: 0 <= i < j < |eastings| ==> eastings[i] != eastings[j]
    ensures forall y :: y in northings <==> exists x :: HasCell(sample, x, y)
    ensures extent.None? <==> eastings == [] || northings == []
    ensures extent.Some? ==> extent.value.eMin in sample && extent.value.eMax in sample
    ensures extent.Some? ==> forall x :: x in sample ==> extent.value.eMin <= x <= extent.value.eMax
    ensures extent.Some? ==> exists x :: HasCell(sample, x, extent.value.nMin)
    ensures extent.Some? ==> exists x :: HasCell(sample, x, extent.value.nMax)
    ensures extent.Some? ==> forall x, y :: HasCell(sample, x, y) ==> extent.value.nMin <= y <= extent.value.nMax
  {
    var rest := sample.Keys;
    eastings, northings := [], [];
    while rest != {}
      invariant rest <= sample.Keys
      invariant forall x :: x in eastings <==> x in sample && x !in rest
      invariant forall i, j :: 0 <= i < j < |eastings| ==> eastings[i] != eastings[j]
      invariant forall y :: y in northings <==> exists x :: x !in rest && HasCell(sample, x, y)
      decreases |rest|
    {
      HasMember(rest);
      var x :| x in rest;
      eastings := eastings + [x];
      var ys := ColumnKeys(sample[x]);
      northings := northings + ys;
      rest := rest - {x};
    }
    if eastings == [] || northings == [] {
      return eastings, northings, None;
    }
    var eMin, eMax := MinInt(eastings), MaxInt(eastings);
    var nMin, nMax := MinInt(northings), MaxInt(northings);
    forall x, y | HasCell(sample, x, y)
      ensures nMin <= y <= nMax
    {
      assert y in northings;
    }
    forall x | x in sample
      ensures eMin <= x <= eMax
    {
      assert x in eastings;
    }
    extent := Some(Extent(eMin, eMax, nMin, nMax));
  }

  /** The Mercator rectangle the pixels are interpolated over. */
  datatype MercBounds = MercBounds(xMin: real, yMin: real, xMax: real, yMax: real)

  /** The image extent: the Mercator images of the two fixed grid corners.
      The scanned data extent plays no part in it. */
  function ImageExtent(bngToMerc: Point -> Point): MercBounds
  {
    var sw, ne := bngToMerc(PngsFixed.BNG_SW), bngToMerc(PngsFixed.BNG_NE);
    MercBounds(sw.x, sw.y, ne.x, ne.y)
  }

  /** The set-up step of the script: the sample month is scanned, which
      raises (`None`) when it holds no cell, and the image extent is then
      taken from the fixed corners, whatever the scan found. */
  method SetUpExtent(sample: SparseGrid, bngToMerc: Point -> Point) returns (mb: Option<MercBounds>)
    ensures mb.None? <==> Pngs.NoCells(sample)
    ensures mb.Some? ==> mb.value == ImageExtent(bngToMerc)
  {
    var eastings, northings, extent := ScanExtent(sample);
    if extent.None? {
      forall x | x in sample
        ensures sample[x] == map[]
      {
        assert x in eastings && northings == [];
        forall y | y in sample[x].Keys ensures y in northings {
          assert HasCell(sample, x, y);
        }
        assert sample[x].Keys == {};
      }
      return None;
    }
    var x :| HasCell(sample, x, extent.value.nMin);
    assert sample[x] != map[];
    mb := Some(ImageExtent(bngToMerc));
  }

  /** `merc_y_max - (row / IMG_HEIGHT) * (merc_y_max - merc_y_min)`. */
  function RowMercY(row: int, mb: MercBounds): real {
    Descend(row, mb.yMax, mb.yMin, IMG_HEIGHT)
  }

  /** `merc_x_min + (col / IMG_WIDTH) * (merc_x_max - merc_x_min)`. */
  function ColMercX(col: int, mb: MercBounds): real {
    Ascend(col, mb.xMin, mb.xMax, IMG_WIDTH)
  }

  /** Row 0 is the northern Mercator edge, `merc_y` falls strictly down the
      image, and the last row stays strictly north of the southern edge. */
  lemma MercRowsDescend(mb: MercBounds, r1: int, r2: int)
    requires mb.yMin < mb.yMax && r1 < r2
    ensures RowMercY(0, mb) == mb.yMax
    ensures RowMercY(r1, mb) > RowMercY(r2, mb)
    ensures RowMercY(IMG_HEIGHT - 1, mb) > mb.yMin
  {
    InterpolationEnds(mb.yMax, mb.yMin, IMG_HEIGHT);
    InterpolationStrict(r1, r2, mb.yMin, mb.yMax, IMG_HEIGHT);
    InterpolationStrict(IMG_HEIGHT - 1, IMG_HEIGHT, mb.yMin, mb.yMax, IMG_HEIGHT);
  }

  function Sample(mercToBng: Point -> Option<Point>, mb: MercBounds): (int, int) -> Option<Point> {
    (r: int, c: int) => mercToBng(Point(ColMercX(c, mb), RowMercY(r, mb)))
  }

  /** A temperature image, saved as computed: row 0 is the northern edge. */
  method GenerateTempImage(data: Option<SparseGrid>, mercToBng: Point -> Option<Point>, bngToMerc: Point -> Point)
    returns (img: Option<array2<Rgba>>)
    ensures img.None? <==> data.None? || data.value == map[]
    ensures img.Some? ==> img.value.Length0 == IMG_HEIGHT && img.value.Length1 == IMG_WIDTH
    ensures img.Some? ==> forall r, c :: 0 <= r < IMG_HEIGHT && 0 <= c < IMG_WIDTH ==>
              img.value[r, c] == TempPixel(Sample(mercToBng, ImageExtent(bngToMerc))(r, c), data.value)
  {
    if data.None? || data.value == map[] {
      return None;
    }
    var a := FillTemp(IMG_HEIGHT, IMG_WIDTH, Sample(mercToBng, ImageExtent(bngToMerc)), data.value);
    img := Some(a);
  }

  /** A rain/sunshine image as written: legacy thresholds, the same fill as
      the temperature image, then a vertical flip, so saved row `r` holds
      the pixel computed for row `IMG_HEIGHT - 1 - r`. */
  method GenerateRainSunImage(rain: Option<SparseGrid>, sun: Option<SparseGrid>,
                              mercToBng: Point -> Option<Point>, bngToMerc: Point -> Point)
    returns (out: Pngs.RainSunOutcome)
    ensures out.Skipped? <==> rain.None? || rain.value == map[] || sun.None? || sun.value == map[]
    ensures out.Crashed? <==> !out.Skipped? && (Pngs.NoCells(rain.value) || Pngs.NoCells(sun.value))
    ensures out.Written? ==> Pngs.LegacyThresholdsOf(rain.value, out.rainT) && Pngs.LegacyThresholdsOf(sun.value, out.sunT)
    ensures out.Written? ==> out.img.Length0 == IMG_HEIGHT && out.img.Length1 == IMG_WIDTH
    ensures out.Written? ==> forall r, c :: 0 <= r < IMG_HEIGHT && 0 <= c < IMG_WIDTH ==>
              out.img[r, c] == RainSunPixel(Sample(mercToBng, ImageExtent(bngToMerc))(IMG_HEIGHT - 1 - r, c), rain.value, sun.value, out.rainT, out.sunT)
  {
    if rain.None? || rain.value == map[] || sun.None? || sun.value == map[] {
      return Pngs.Skipped;
    }
    var rainT := Pngs.LegacyThresholds(rain.value);
    var sunT := Pngs.LegacyThresholds(sun.value);
    if rainT.None? || sunT.None? {
      return Pngs.Crashed;
    }
    var a := FillRainSun(IMG_HEIGHT, IMG_WIDTH, Sample(mercToBng, ImageExtent(bngToMerc)), rain.value, sun.value, rainT.value, sunT.value);
    var flipped := FlipRows(a);
    out := Pngs.Written(flipped, rainT.value, sunT.value);
  }

  /** The rain/sunshine image with the flip removed: row 0 is the northern
      edge, as in the temperature image. */
  method RainSunUnflipped(rain: Option<SparseGrid>, sun: Option<SparseGrid>,
                          mercToBng: Point -> Option<Point>, bngToMerc: Point -> Point)
    returns (out: Pngs.RainSunOutcome)
    ensures out.Skipped? <==> rain.None? || rain.value == map[] || sun.None? || sun.value == map[]
    ensures out.Crashed? <==> !out.Skipped? && (Pngs.NoCells(rain.value) || Pngs.NoCells(sun.value))
    ensures out.Written? ==> Pngs.LegacyThresholdsOf(rain.value, out.rainT) && Pngs.LegacyThresholdsOf(sun.value, out.sunT)
    ensures out.Written? ==> out.img.Length0 == IMG_HEIGHT && out.img.Length1 == IMG_WIDTH
    ensures out.Written? ==> forall r, c :: 0 <= r < IMG_HEIGHT && 0 <= c < IMG_WIDTH ==>
              out.img[r, c] == RainSunPixel(Sample(mercToBng, ImageExtent(bngToMerc))(r, c), rain.value, sun.value, out.rainT, out.sunT)
  {
    if rain.None? || rain.value == map[] || sun.None? || sun.value == map[] {
      return Pngs.Skipped;
    }
    var rainT := Pngs.LegacyThresholds(rain.value);
    var sunT := Pngs.LegacyThresholds(sun.value);
    if rainT.None? || sunT.None? {
      return Pngs.Crashed;
    }
    var a := FillRainSun(IMG_HEIGHT, IMG_WIDTH, Sample(mercToBng, ImageExtent(bngToMerc)), rain.value, sun.value, rainT.value, sunT.value);
    out := Pngs.Written(a, rainT.value, sunT.value);
  }

  /** In a saved rain/sunshine image, row 0 shows the pixels computed for
      the last row, whose Mercator northing lies below that of every other
      row, while row 0 of the temperature image is computed at the northern
      edge: the two layers are upside down relative to each other. */
  lemma RainSunUpsideDown(img: array2<Rgba>, mercToBng: Point -> Option<Point>, mb: MercBounds,
                          rain: SparseGrid, sun: SparseGrid, rainT: Thresholds, sunT: Thresholds)
    requires mb.yMin < mb.yMax
    requires img.Length0 == IMG_HEIGHT && img.Length1 == IMG_WIDTH
    requires forall r, c :: 0 <= r < IMG_HEIGHT && 0 <= c < IMG_WIDTH ==>
               img[r, c] == RainSunPixel(Sample(mercToBng, mb)(IMG_HEIGHT - 1 - r, c), rain, sun, rainT, sunT)
    ensures forall c :: 0 <= c < IMG_WIDTH ==>
              img[0, c] == RainSunPixel(mercToBng(Point(ColMercX(c, mb), RowMercY(IMG_HEIGHT - 1, mb))), rain, sun, rainT, sunT)
    ensures forall r :: 0 <= r < IMG_HEIGHT - 1 ==> RowMercY(IMG_HEIGHT - 1, mb) < RowMercY(r, mb)
    ensures RowMercY(0, mb) == mb.yMax
  {
    forall r | 0 <= r < IMG_HEIGHT - 1
      ensures RowMercY(IMG_HEIGHT - 1, mb) < RowMercY(r, mb)
    {
      MercRowsDescend(mb, r, IMG_HEIGHT - 1);
    }
    InterpolationEnds(mb.yMax, mb.yMin, IMG_HEIGHT);
  }

}
