/** The corrected landmark test image: a landmark is placed by linear
    interpolation in latitude and longitude between the WGS84 images of the
    grid corners, exactly as the corrected overlay places its pixels. */
module TestImageFixed {
  import opened Wrappers
  import opened Numeric
  import opened Colours
  import opened PixelGeometry
  import opened Landmarks
  import PngsFixed

  /** `LAT_MIN <= lat <= LAT_MAX and LNG_MIN <= lng <= LNG_MAX`. */
  predicate InBounds(p: Landmark, b: PngsFixed.LatLngBounds) {
    b.latMin <= p.lat <= b.latMax && b.lngMin <= p.lng <= b.lngMax
  }

  /** `int((LAT_MAX - lat) / (LAT_MAX - LAT_MIN) * (IMG_HEIGHT - 1))`. */
  function RawRow(lat: real, b: PngsFixed.LatLngBounds): int
    requires b.latMin != b.latMax
  {
    StepIndex(b.latMax - lat, b.latMax - b.latMin, IMG_HEIGHT - 1)
  }

  /** `int((lng - LNG_MIN) / (LNG_MAX - LNG_MIN) * (IMG_WIDTH - 1))`. */
  function RawCol(lng: real, b: PngsFixed.LatLngBounds): int
    requires b.lngMin != b.lngMax
  {
    StepIndex(lng - b.lngMin, b.lngMax - b.lngMin, IMG_WIDTH - 1)
  }

  /** A landmark outside the bounds is skipped; inside them, a zero-width
      span raises; otherwise the clamped pixel. */
  function Place(p: Landmark, b: PngsFixed.LatLngBounds): (pl: Placement)
    ensures pl.Outside? <==> !InBounds(p, b)
    ensures pl.ZeroSpan? <==> InBounds(p, b) && (b.latMin == b.latMax || b.lngMin == b.lngMax)
    ensures pl.At? ==> 0 <= pl.row < IMG_HEIGHT && 0 <= pl.col < IMG_WIDTH
  {
    if !InBounds(p, b) then Outside
    else if b.latMin == b.latMax || b.lngMin == b.lngMax then ZeroSpan
    else At(ClampIndex(RawRow(p.lat, b), IMG_HEIGHT), ClampIndex(RawCol(p.lng, b), IMG_WIDTH))
  }

  function PlaceIn(b: PngsFixed.LatLngBounds): Landmark -> Placement {
    p => Place(p, b)
  }

  /** For a landmark within the bounds the computed row and column already
      lie in the image, so the clamp changes nothing. */
  lemma RawWithinImage(p: Landmark, b: PngsFixed.LatLngBounds)
    requires InBounds(p, b) && b.latMin != b.latMax && b.lngMin != b.lngMax
    ensures 0 <= RawRow(p.lat, b) < IMG_HEIGHT && 0 <= RawCol(p.lng, b) < IMG_WIDTH
    ensures Place(p, b) == At(RawRow(p.lat, b), RawCol(p.lng, b))
  {
    StepIndexBack(b.latMax - p.lat, b.latMax - b.latMin, IMG_HEIGHT - 1);
    StepIndexBack(p.lng - b.lngMin, b.lngMax - b.lngMin, IMG_WIDTH - 1);
  }

  /** Converting the pixel back (`verify_lat`, `verify_lng`) lands at or
      north of the landmark by less than one row step, and at or west of it
      by less than one column step. */
  lemma BackConversion(p: Landmark, b: PngsFixed.LatLngBounds)
    requires InBounds(p, b) && b.latMin != b.latMax && b.lngMin != b.lngMax
    ensures Place(p, b).At?
    ensures var v := PngsFixed.RowLat(Place(p, b).row, b);
            p.lat <= v && v - p.lat < (b.latMax - b.latMin) / (IMG_HEIGHT - 1) as real
    ensures var v := PngsFixed.ColLng(Place(p, b).col, b);
            v <= p.lng && p.lng - v < (b.lngMax - b.lngMin) / (IMG_WIDTH - 1) as real
  {
    RawWithinImage(p, b);
    RowBack(p.lat, b);
    ColumnBack(p.lng, b);
  }

  /** `verify_lat` of the computed row, for a latitude within the bounds. */
  lemma RowBack(lat: real, b: PngsFixed.LatLngBounds)
    requires b.latMin <= lat <= b.latMax && b.latMin != b.latMax
    ensures var v := PngsFixed.RowLat(RawRow(lat, b), b);
            lat <= v && v - lat < (b.latMax - b.latMin) / (IMG_HEIGHT - 1) as real
  {
    StepIndexBack(b.latMax - lat, b.latMax - b.latMin, IMG_HEIGHT - 1);
  }

  /** `verify_lng` of the computed column, for a longitude within the bounds. */
  lemma ColumnBack(lng: real, b: PngsFixed.LatLngBounds)
    requires b.lngMin <= lng <= b.lngMax && b.lngMin != b.lngMax
    ensures var v := PngsFixed.ColLng(RawCol(lng, b), b);
            v <= lng && lng - v < (b.lngMax - b.lngMin) / (IMG_WIDTH - 1) as real
  {
    StepIndexBack(lng - b.lngMin, b.lngMax - b.lngMin, IMG_WIDTH - 1);
  }

  /** The script: bounds from the grid corners reprojected by `toWgs`, then
      the landmarks stamped in list order. */
  method GenerateTestImage(toWgs: Point -> Point) returns (img: Option<array2<Rgba>>)
    ensures var b := PngsFixed.CornerBounds(toWgs);
            img.None? <==> exists i :: 0 <= i < |TEST_POINTS| && Place(TEST_POINTS[i], b).ZeroSpan?
    ensures img.Some? ==> img.value.Length0 == IMG_HEIGHT && img.value.Length1 == IMG_WIDTH
    ensures img.Some? ==> forall r, c :: 0 <= r < IMG_HEIGHT && 0 <= c < IMG_WIDTH ==>
              img.value[r, c] == Painted(TEST_POINTS, PlaceIn(PngsFixed.CornerBounds(toWgs)), r, c)
  {
    var b := PngsFixed.CornerBounds(toWgs);
    img := DrawLandmarks(TEST_POINTS, PlaceIn(b));
  }
}
