/** The per-pixel loops shared by the image generators: filling an RGBA
    image from a sparse month grid through a reprojection, colouring a dense
    grid cell by cell, flipping rows, and stamping a disc. */
module Raster {
  import opened Wrappers
  import opened Colours
  import opened Classify
  import opened PixelGeometry

  /** A sparse month grid as the extraction writes it: easting key, then
      northing key, then value. Only cells with data are present. */
  type SparseGrid = map<int, map<int, real>>

  predicate HasCell(g: SparseGrid, x: int, y: int) {
    x in g && y in g[x]
  }

  /** All key pairs stored in a sparse grid. */
  ghost function Entries(m: SparseGrid): set<(int, int)> {
    set x, y | x in m && y in m[x] :: (x, y)
  }

  /** A dense month grid as read from the source data, row-major, `None`
      standing for NaN. */
  type Grid = seq<seq<Option<real>>>

  predicate IsRect(g: Grid, h: nat, w: nat) {
    |g| == h && forall i :: 0 <= i < h ==> |g[i]| == w
  }

  /** The cell key a reprojected point is looked up under. */
  function CellKey(p: Point): (k: (int, int))
    ensures k.0 % 1000 == 0 && k.1 % 1000 == 0
    ensures -500.0 <= k.0 as real - p.x <= 500.0 && -500.0 <= k.1 as real - p.y <= 500.0
  {
    (KmKey(p.x), KmKey(p.y))
  }

  /** What the temperature loop leaves in a pixel whose reprojection gave
      `sample` (`None`: the transform raised and `except: pass` left the
      pixel alone). */
  function TempPixel(sample: Option<Point>, data: SparseGrid): (p: Rgba)
    ensures p != TRANSPARENT <==> sample.Some? && HasCell(data, CellKey(sample.value).0, CellKey(sample.value).1)
    ensures p != TRANSPARENT ==> p.a == 255 && p == Opaque(ColorForTemp(data[CellKey(sample.value).0][CellKey(sample.value).1]))
  {
    match sample
    case None => TRANSPARENT
    case Some(pt) =>
      var k := CellKey(pt);
      if HasCell(data, k.0, k.1) then Opaque(ColorForTemp(data[k.0][k.1])) else TRANSPARENT
  }

  /** What the rain/sunshine loop leaves in a pixel: coloured only when both
      grids hold the cell. */
  function RainSunPixel(sample: Option<Point>, rain: SparseGrid, sun: SparseGrid,
                        rainT: Thresholds, sunT: Thresholds): (p: Rgba)
    ensures p != TRANSPARENT <==>
              sample.Some? && HasCell(rain, CellKey(sample.value).0, CellKey(sample.value).1)
              && HasCell(sun, CellKey(sample.value).0, CellKey(sample.value).1)
    ensures p != TRANSPARENT ==> p.a == 255
  {
    match sample
    case None => TRANSPARENT
    case Some(pt) =>
      var k := CellKey(pt);
      if HasCell(rain, k.0, k.1) && HasCell(sun, k.0, k.1) then
        Opaque(ColorForRainSun(rain[k.0][k.1], sun[k.0][k.1], rainT, sunT))
      else TRANSPARENT
  }

  /** A coloured rain/sunshine pixel shows one of the nine bivariate colours. */
  lemma RainSunPixelColours(sample: Option<Point>, rain: SparseGrid, sun: SparseGrid,
                            rainT: Thresholds, sunT: Thresholds)
    ensures var p := RainSunPixel(sample, rain, sun, rainT, sunT);
            p != TRANSPARENT ==> exists c :: c in BIVARIATE_COLORS.Values && p == Opaque(c)
  {
    if sample.Some? {
      var k := CellKey(sample.value);
      if HasCell(rain, k.0, k.1) && HasCell(sun, k.0, k.1) {
        var c := ColorForRainSun(rain[k.0][k.1], sun[k.0][k.1], rainT, sunT);
        assert RainSunPixel(sample, rain, sun, rainT, sunT) == Opaque(c);
      }
    }
  }

  /** The nested row/column loop of a temperature image: a fresh transparent
      image in which every pixel is set from its own sample and nothing else. */
  method FillTemp(h: nat, w: nat, sample: (int, int) -> Option<Point>, data: SparseGrid)
    returns (img: array2<Rgba>)
    ensures img.Length0 == h && img.Length1 == w
    ensures forall r, c :: 0 <= r < h && 0 <= c < w ==> img[r, c] == TempPixel(sample(r, c), data)
  {
    img := new Rgba[h, w]((r, c) => TRANSPARENT);
    var row := 0;
    while row < h
      invariant 0 <= row <= h
      invariant forall r, c :: 0 <= r < h && 0 <= c < w ==>
                  img[r, c] == if r < row then TempPixel(sample(r, c), data) else TRANSPARENT
    {
      FillTempRow(img, row, sample, data);
      row := row + 1;
    }
  }

  /** The inner column loop of a temperature image, over one row that is
      still all zero. */
  method FillTempRow(img: array2<Rgba>, row: int, sample: (int, int) -> Option<Point>, data: SparseGrid)
    requires 0 <= row < img.Length0
    requires forall c :: 0 <= c < img.Length1 ==> img[row, c] == TRANSPARENT
    modifies img
    ensures forall r, c :: 0 <= r < img.Length0 && 0 <= c < img.Length1 ==>
              img[r, c] == if r == row then TempPixel(sample(r, c), data) else old(img[r, c])
  {
    var col := 0;
    while col < img.Length1
      invariant 0 <= col <= img.Length1
      invariant forall r, c :: 0 <= r < img.Length0 && 0 <= c < img.Length1 ==>
                  img[r, c] == if r == row && c < col then TempPixel(sample(r, c), data) else old(img[r, c])
    {
      match sample(row, col) {
        case None =>
        case Some(pt) =>
          var k := CellKey(pt);
          if k.0 in data && k.1 in data[k.0] {
            img[row, col] := Opaque(ColorForTemp(data[k.0][k.1]));
          }
      }
      col := col + 1;
    }
  }

  /** The nested row/column loop of a rain/sunshine image. */
  method FillRainSun(h: nat, w: nat, sample: (int, int) -> Option<Point>,
                     rain: SparseGrid, sun: SparseGrid, rainT: Thresholds, sunT: Thresholds)
    returns (img: array2<Rgba>)
    ensures img.Length0 == h && img.Length1 == w
    ensures forall r, c :: 0 <= r < h && 0 <= c < w ==>
              img[r, c] == RainSunPixel(sample(r, c), rain, sun, rainT, sunT)
  {
    img := new Rgba[h, w]((r, c) => TRANSPARENT);
    var row := 0;
    while row < h
      invariant 0 <= row <= h
      invariant forall r, c :: 0 <= r < h && 0 <= c < w ==>
                  img[r, c] == if r < row then RainSunPixel(sample(r, c), rain, sun, rainT, sunT) else TRANSPARENT
    {
      FillRainSunRow(img, row, sample, rain, sun, rainT, sunT);
      row := row + 1;
    }
  }

  /** The inner column loop of a rain/sunshine image, over one row that is
      still all zero. */
  method FillRainSunRow(img: array2<Rgba>, row: int, sample: (int, int) -> Option<Point>,
                        rain: SparseGrid, sun: SparseGrid, rainT: Thresholds, sunT: Thresholds)
    requires 0 <= row < img.Length0
    requires forall c :: 0 <= c < img.Length1 ==> img[row, c] == TRANSPARENT
    modifies img
    ensures forall r, c :: 0 <= r < img.Length0 && 0 <= c < img.Length1 ==>
              img[r, c] == if r == row then RainSunPixel(sample(r, c), rain, sun, rainT, sunT) else old(img[r, c])
  {
    var col := 0;
    while col < img.Length1
      invariant 0 <= col <= img.Length1
      invariant forall r, c :: 0 <= r < img.Length0 && 0 <= c < img.Length1 ==>
                  img[r, c] == if r == row && c < col then RainSunPixel(sample(r, c), rain, sun, rainT, sunT)
                               else old(img[r, c])
    {
      match sample(row, col) {
        case None =>
        case Some(pt) =>
          var k := CellKey(pt);
          if k.0 in rain && k.1 in rain[k.0] && k.0 in sun && k.1 in sun[k.0] {
            img[row, col] := Opaque(ColorForRainSun(rain[k.0][k.1], sun[k.0][k.1], rainT, sunT));
          }
      }
      col := col + 1;
    }
  }

  /** What the dense loops leave in a cell: coloured where the value is not
      NaN, zero elsewhere. */
  function DensePixel(v: Option<real>, colour: real -> Rgb): (p: Rgba)
    ensures p != TRANSPARENT <==> v.Some?
  {
    match v
    case None => TRANSPARENT
    case Some(x) => Opaque(colour(x))
  }

  /** The `for i in range(rows): for j in range(cols)` loop over a dense
      grid: each non-NaN cell becomes `[r, g, b, 255]` of its colour. */
  method FillDense(grid: Grid, h: nat, w: nat, colour: real -> Rgb) returns (img: array2<Rgba>)
    requires IsRect(grid, h, w)
    ensures img.Length0 == h && img.Length1 == w
    ensures forall i, j :: 0 <= i < h && 0 <= j < w ==> img[i, j] == DensePixel(grid[i][j], colour)
  {
    img := new Rgba[h, w]((r, c) => TRANSPARENT);
    var i := 0;
    while i < h
      invariant 0 <= i <= h
      invariant forall r, c :: 0 <= r < h && 0 <= c < w ==>
                  img[r, c] == if r < i then DensePixel(grid[r][c], colour) else TRANSPARENT
    {
      var j := 0;
      while j < w
        invariant 0 <= j <= w
        invariant forall r, c :: 0 <= r < h && 0 <= c < w ==>
                    img[r, c] == if r < i || (r == i && c < j) then DensePixel(grid[r][c], colour) else TRANSPARENT
      {
        if grid[i][j].Some? {
          img[i, j] := Opaque(colour(grid[i][j].value));
        }
        j := j + 1;
      }
      i := i + 1;
    }
  }

  /** What the dense bivariate loops leave in a cell: coloured only where
      both values are present. */
  function DensePairPixel(rain: Option<real>, sun: Option<real>, rainT: Thresholds, sunT: Thresholds): (p: Rgba)
    ensures p != TRANSPARENT <==> rain.Some? && sun.Some?
    ensures p != TRANSPARENT ==> p == Opaque(ColorForRainSun(rain.value, sun.value, rainT, sunT))
  {
    if rain.Some? && sun.Some? then Opaque(ColorForRainSun(rain.value, sun.value, rainT, sunT))
    else TRANSPARENT
  }

  /** The dense bivariate loop over two co-registered grids. */
  method FillDensePair(rain: Grid, sun: Grid, h: nat, w: nat, rainT: Thresholds, sunT: Thresholds)
    returns (img: array2<Rgba>)
    requires IsRect(rain, h, w) && IsRect(sun, h, w)
    ensures img.Length0 == h && img.Length1 == w
    ensures forall i, j :: 0 <= i < h && 0 <= j < w ==>
              img[i, j] == DensePairPixel(rain[i][j], sun[i][j], rainT, sunT)
  {
    img := new Rgba[h, w]((r, c) => TRANSPARENT);
    var i := 0;
    while i < h
      invariant 0 <= i <= h
      invariant forall r, c :: 0 <= r < h && 0 <= c < w ==>
                  img[r, c] == if r < i then DensePairPixel(rain[r][c], sun[r][c], rainT, sunT) else TRANSPARENT
    {
      var j := 0;
      while j < w
        invariant 0 <= j <= w
        invariant forall r, c :: 0 <= r < h && 0 <= c < w ==>
                    img[r, c] == if r < i || (r == i && c < j)
                                 then DensePairPixel(rain[r][c], sun[r][c], rainT, sunT) else TRANSPARENT
      {
        if rain[i][j].Some? && sun[i][j].Some? {
          img[i, j] := Opaque(ColorForRainSun(rain[i][j].value, sun[i][j].value, rainT, sunT));
        }
        j := j + 1;
      }
      i := i + 1;
    }
  }

  /** `np.flipud`: row `r` of the result is row `h - 1 - r` of the input. */
  method FlipRows<T>(a: array2<T>) returns (b: array2<T>)
    ensures b.Length0 == a.Length0 && b.Length1 == a.Length1
    ensures forall r, c :: 0 <= r < b.Length0 && 0 <= c < b.Length1 ==> b[r, c] == a[a.Length0 - 1 - r, c]
  {
    var h, w := a.Length0, a.Length1;
    b := new T[h, w]((r, c) requires 0 <= r < h && 0 <= c < w reads a => a[h - 1 - r, c]);
  }

  /** Flipping twice gives back the original rows. */
  method FlipTwice<T>(a: array2<T>) returns (b: array2<T>)
    ensures b.Length0 == a.Length0 && b.Length1 == a.Length1
    ensures forall r, c :: 0 <= r < a.Length0 && 0 <= c < a.Length1 ==> b[r, c] == a[r, c]
  {
    var once := FlipRows(a);
    b := FlipRows(once);
  }

  // ---------------------------------------------------------------------
  // Disc stamping of the test images

  const STAMP_RADIUS: int := 50

  /** `dr*dr + dc*dc <= 50*50` for the offset of (r, c) from the centre. */
  function Sq(d: int): int { d * d }

  predicate InDisc(r: int, c: int, row: int, col: int) {
    Sq(r - row) + Sq(c - col) <= Sq(STAMP_RADIUS)
  }

  lemma SquareBound(d: int)
    requires Sq(d) <= Sq(STAMP_RADIUS)
    ensures -STAMP_RADIUS <= d <= STAMP_RADIUS
  {
  }

  /** Every in-image pixel of the disc of radius 50 has an offset the two
      `range(-50, 51)` loops visit. */
  lemma DiscWithinLoops(r: int, c: int, row: int, col: int)
    requires InDisc(r, c, row, col)
    ensures -STAMP_RADIUS <= r - row <= STAMP_RADIUS && -STAMP_RADIUS <= c - col <= STAMP_RADIUS
  {
    SquareBound(r - row);
    SquareBound(c - col);
  }

  /** One pass of the inner `dc` loop: the pixels of row `row + dr` that lie
      in the disc become `color + [255]`, all others are unchanged. */
  method StampRow(img: array2<Rgba>, row: int, col: int, dr: int, colour: Rgb)
    requires -STAMP_RADIUS <= dr <= STAMP_RADIUS
    modifies img
    ensures forall r, c :: 0 <= r < img.Length0 && 0 <= c < img.Length1 ==>
              img[r, c] == if r == row + dr && InDisc(r, c, row, col) then Opaque(colour) else old(img[r, c])
  {
    var dc := -STAMP_RADIUS;
    while dc <= STAMP_RADIUS
      invariant -STAMP_RADIUS <= dc <= STAMP_RADIUS + 1
      invariant forall r, c :: 0 <= r < img.Length0 && 0 <= c < img.Length1 ==>
                  img[r, c] == if r == row + dr && c - col < dc && InDisc(r, c, row, col)
                               then Opaque(colour) else old(img[r, c])
    {
      var r, c := row + dr, col + dc;
      assert InDisc(r, c, row, col) <==> Sq(dr) + Sq(dc) <= Sq(STAMP_RADIUS);
      if Sq(dr) + Sq(dc) <= Sq(STAMP_RADIUS) && 0 <= r < img.Length0 && 0 <= c < img.Length1 {
        img[r, c] := Opaque(colour);
      }
      dc := dc + 1;
    }
    DiscColumnsVisited(img.Length0, img.Length1, row, col);
  }

  /** Every in-image disc pixel lies left of column `col + 51`. */
  lemma DiscColumnsVisited(h: int, w: int, row: int, col: int)
    ensures forall r, c :: 0 <= r < h && 0 <= c < w && InDisc(r, c, row, col) ==> c - col < STAMP_RADIUS + 1
  {
    forall r, c | 0 <= r < h && 0 <= c < w && InDisc(r, c, row, col)
      ensures c - col < STAMP_RADIUS + 1
    {
      DiscWithinLoops(r, c, row, col);
    }
  }

  /** The `dr`/`dc` loops: every in-image pixel of the disc around
      (row, col) becomes `color + [255]`; every other pixel is unchanged. */
  method StampDisc(img: array2<Rgba>, row: int, col: int, colour: Rgb)
    modifies img
    ensures forall r, c :: 0 <= r < img.Length0 && 0 <= c < img.Length1 ==>
              img[r, c] == if InDisc(r, c, row, col) then Opaque(colour) else old(img[r, c])
  {
    var dr := -STAMP_RADIUS;
    while dr <= STAMP_RADIUS
      invariant -STAMP_RADIUS <= dr <= STAMP_RADIUS + 1
      invariant forall r, c :: 0 <= r < img.Length0 && 0 <= c < img.Length1 ==>
                  img[r, c] == if r - row < dr && InDisc(r, c, row, col) then Opaque(colour) else old(img[r, c])
    {
      StampRow(img, row, col, dr, colour);
      dr := dr + 1;
    }
    forall r, c | 0 <= r < img.Length0 && 0 <= c < img.Length1 && InDisc(r, c, row, col)
      ensures r - row < STAMP_RADIUS + 1
    {
      DiscWithinLoops(r, c, row, col);
    }
  }
}
