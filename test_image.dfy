/** The first landmark test image: a landmark is reprojected to the grid,
    kept only inside the grid extent, reprojected again to Web Mercator and
    placed by the fraction of the Mercator extent it lies at. */
module TestImage {
  import opened Wrappers
  import opened Numeric
  import opened Colours
  import opened PixelGeometry
  import opened Landmarks
  import PngsFixed
  import PngsOldBroken

  /** The grid extent `0..700000 x 0..1250000` the landmark must fall in. */
  predicate InGrid(q: Point) {
    PngsFixed.BNG_SW.x <= q.x <= PngsFixed.BNG_NE.x && PngsFixed.BNG_SW.y <= q.y <= PngsFixed.BNG_NE.y
  }

  /** `int((merc_y_max - merc_y) / (merc_y_max - merc_y_min) * IMG_HEIGHT)`. */
  function RawRow(y: real, mb: PngsOldBroken.MercBounds): int
    requires mb.yMin != mb.yMax
  {
    StepIndex(mb.yMax - y, mb.yMax - mb.yMin, IMG_HEIGHT)
  }

  /** `int((merc_x - merc_x_min) / (merc_x_max - merc_x_min) * IMG_WIDTH)`. */
  function RawCol(x: real, mb: PngsOldBroken.MercBounds): int
    requires mb.xMin != mb.xMax
  {
    StepIndex(x - mb.xMin, mb.xMax - mb.xMin, IMG_WIDTH)
  }

  /** `toBng` takes (lng, lat) to grid metres, `None` for a non-finite
      result, which fails the extent check; `bngToMerc` takes grid metres to
      Web Mercator. A landmark outside the grid is skipped; a zero-width
      Mercator extent raises; otherwise the clamped pixel. */
  function Place(p: Landmark, toBng: Point -> Option<Point>, bngToMerc: Point -> Point): (pl: Placement)
    ensures pl.Outside? <==> toBng(Point(p.lng, p.lat)).None? || !InGrid(toBng(Point(p.lng, p.lat)).value)
    ensures pl.ZeroSpan? <==> !pl.Outside? && var mb := PngsOldBroken.ImageExtent(bngToMerc); mb.yMin == mb.yMax || mb.xMin == mb.xMax
    ensures pl.At? ==> 0 <= pl.row < IMG_HEIGHT && 0 <= pl.col < IMG_WIDTH
  {
    match toBng(Point(p.lng, p.lat))
    case None => Outside
    case Some(q) =>
      if !InGrid(q) then Outside
      else
        var m, mb := bngToMerc(q), PngsOldBroken.ImageExtent(bngToMerc);
        if mb.yMin == mb.yMax || mb.xMin == mb.xMax then ZeroSpan
        else At(ClampIndex(RawRow(m.y, mb), IMG_HEIGHT), ClampIndex(RawCol(m.x, mb), IMG_WIDTH))
  }

  function PlaceWith(toBng: Point -> Option<Point>, bngToMerc: Point -> Point): Landmark -> Placement {
    p => Place(p, toBng, bngToMerc)
  }

  /** Row 0 is the northern Mercator edge; a point further north never lands
      on a lower row; and within the extent the unclamped row runs from 0 to
      `IMG_HEIGHT`, the southern edge landing one past the last row, where
      the clamp puts it back. */
  lemma RowsFollowNorthing(mb: PngsOldBroken.MercBounds, y1: real, y2: real)
    requires mb.yMin < mb.yMax && y1 <= y2
    ensures RawRow(mb.yMax, mb) == 0
    ensures RawRow(mb.yMin, mb) == IMG_HEIGHT
    ensures RawRow(y2, mb) <= RawRow(y1, mb)
    ensures ClampIndex(RawRow(y2, mb), IMG_HEIGHT) <= ClampIndex(RawRow(y1, mb), IMG_HEIGHT)
    ensures mb.yMin <= y1 <= mb.yMax ==> 0 <= RawRow(y1, mb) <= IMG_HEIGHT
  {
    var span := mb.yMax - mb.yMin;
    assert span / span == 1.0;
    StepIndexMonotone(mb.yMax - y2, mb.yMax - y1, span, IMG_HEIGHT);
    if mb.yMin <= y1 <= mb.yMax {
      StepIndexBack(mb.yMax - y1, mb.yMax - mb.yMin, IMG_HEIGHT);
    }
  }

  /** Columns likewise: the western edge is column 0 and a point further
      east never lands on an earlier column. */
  lemma ColumnsFollowEasting(mb: PngsOldBroken.MercBounds, x1: real, x2: real)
    requires mb.xMin < mb.xMax && x1 <= x2
    ensures RawCol(mb.xMin, mb) == 0
    ensures RawCol(mb.xMax, mb) == IMG_WIDTH
    ensures ClampIndex(RawCol(x1, mb), IMG_WIDTH) <= ClampIndex(RawCol(x2, mb), IMG_WIDTH)
  {
    var span := mb.xMax - mb.xMin;
    assert span / span == 1.0;
    StepIndexMonotone(x1 - mb.xMin, x2 - mb.xMin, span, IMG_WIDTH);
  }

  /** The script: every landmark placed through the two transforms and
      stamped in list order onto a transparent image. */
  method GenerateTestImage(toBng: Point -> Option<Point>, bngToMerc: Point -> Point) returns (img: Option<array2<Rgba>>)
    ensures img.None? <==> exists i :: 0 <= i < |TEST_POINTS| && Place(TEST_POINTS[i], toBng, bngToMerc).ZeroSpan?
    ensures img.Some? ==> img.value.Length0 == IMG_HEIGHT && img.value.Length1 == IMG_WIDTH
    ensures img.Some? ==> forall r, c :: 0 <= r < IMG_HEIGHT && 0 <= c < IMG_WIDTH ==>
              img.value[r, c] == Painted(TEST_POINTS, PlaceWith(toBng, bngToMerc), r, c)
  {
    img := DrawLandmarks(TEST_POINTS, PlaceWith(toBng, bngToMerc));
  }
}
