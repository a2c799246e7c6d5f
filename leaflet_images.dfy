/** The first overlay generator for the web map: a figure per month drawn
    from the dense grid, colours produced as hex strings and decoded inline
    from fixed character positions. Its grid conversions are those of
    `BngGrid`. */
module LeafletImages {
  import opened Wrappers
  import opened Numeric
  import opened Colours
  import opened Classify
  import opened Raster
  import opened PixelGeometry

  /** `temp_colormap`: the index has no `min` guard and still stays within
      the palette; the last entry is used only from 32 degrees up. */
  function TempColormap(t: real): (hex: string)
    ensures hex == TEMP_HEX[TempIndexUncapped(t)]
    ensures DecodeAtOne(hex) == Some(ColorForTemp(t))
  {
    var i := TempIndexUncapped(t);
    TempTablesAgree(i);
    TEMP_HEX[i]
  }

  /** The figure height: the given one, or `int(width * (rows / cols))`,
      which raises on a grid with no columns. */
  function DefaultHeight(width: int, height: Option<int>, rows: nat, cols: nat): (r: Option<int>)
    ensures height.Some? ==> r == height
    ensures height.None? ==> (r.None? <==> cols == 0)
    ensures height.None? && r.Some? && 0 <= width ==>
              r.value * cols <= width * rows < (r.value + 1) * cols
  {
    if height.Some? then height
    else if cols == 0 then None
    else
      HeightBound(width, rows, cols);
      Some(Trunc(width as real * (rows as real / cols as real)))
  }

  /** For a non-negative width the truncated height is the floor of
      `width * rows / cols`. */
  lemma HeightBound(width: int, rows: nat, cols: nat)
    requires 0 < cols
    ensures 0 <= width ==>
              var h := Trunc(width as real * (rows as real / cols as real));
              h * cols <= width * rows < (h + 1) * cols
  {
    if 0 <= width {
      var q := width as real * (rows as real / cols as real);
      assert q == (width * rows) as real / cols as real;
      FloorDivBound(width * rows, cols, Trunc(q));
    }
  }

  /** A quotient between `h` and `h + 1` bounds `n` between the multiples of
      `d`. */
  lemma FloorDivBound(n: int, d: int, h: int)
    requires 0 < d && 0 <= n
    requires h as real <= n as real / d as real < h as real + 1.0
    ensures h * d <= n < (h + 1) * d
  {
    var q, dr, hr := n as real / d as real, d as real, h as real;
    MulStrict(q, hr + 1.0, dr);
    calc {
      n as real;
      q * dr;
    <
      (hr + 1.0) * dr;
      ((h + 1) * d) as real;
    }
    if hr < q {
      MulStrict(hr, q, dr);
    }
    assert (h * d) as real == hr * dr;
  }

  /** What one cell becomes: zero when NaN, else the decoded colour of its
      hex string with alpha 255; `None` when the string does not decode,
      which raises and ends the image. */
  function CellPixel(v: Option<real>, colormap: real -> string): Option<Rgba> {
    match v
    case None => Some(TRANSPARENT)
    case Some(t) =>
      match DecodeAtOne(colormap(t))
      case None => None
      case Some(c) => Some(Opaque(c))
  }

  /** A drawn figure: the coloured array and the figure height in pixels. */
  datatype Figure = Figure(img: array2<Rgba>, height: int)

  /** `create_image_from_data`: the figure height first, which raises on a
      grid with no columns when no height is given; then the loop over every
      cell, which raises at the first colour string that does not decode. */
  method CreateImageFromData(data: Grid, h: nat, w: nat, colormap: real -> string, width: int, height: Option<int>)
    returns (fig: Option<Figure>)
    requires IsRect(data, h, w)
    ensures fig.Some? <==> DefaultHeight(width, height, h, w).Some? &&
                           forall i, j :: 0 <= i < h && 0 <= j < w ==> CellPixel(data[i][j], colormap).Some?
    ensures fig.Some? ==> Some(fig.value.height) == DefaultHeight(width, height, h, w)
    ensures fig.Some? ==> fig.value.img.Length0 == h && fig.value.img.Length1 == w
    ensures fig.Some? ==> forall i, j :: 0 <= i < h && 0 <= j < w ==>
              fig.value.img[i, j] == CellPixel(data[i][j], colormap).value
  {
    var figHeight := DefaultHeight(width, height, h, w);
    if figHeight.None? {
      return None;
    }
    var a := new Rgba[h, w]((r, c) => TRANSPARENT);
    var i := 0;
    while i < h
      invariant 0 <= i <= h
      invariant forall r, c :: 0 <= r < i && 0 <= c < w ==> CellPixel(data[r][c], colormap).Some?
      invariant forall r, c :: 0 <= r < h && 0 <= c < w ==>
                  a[r, c] == if r < i then CellPixel(data[r][c], colormap).value else TRANSPARENT
    {
      var ok := FillCellRow(a, i, data[i], colormap);
      if !ok {
        return None;
      }
      i := i + 1;
    }
    fig := Some(Figure(a, figHeight.value));
  }

  /** One row of `create_image_from_data`: each present cell gets its decoded
      colour; the row fails at the first colour that does not decode.
      Other rows are left alone. */
  method FillCellRow(a: array2<Rgba>, i: nat, cells: seq<Option<real>>, colormap: real -> string)
    returns (ok: bool)
    requires i < a.Length0 && |cells| == a.Length1
    requires forall c :: 0 <= c < a.Length1 ==> a[i, c] == TRANSPARENT
    modifies a
    ensures ok <==> forall c :: 0 <= c < |cells| ==> CellPixel(cells[c], colormap).Some?
    ensures ok ==> forall r, c :: 0 <= r < a.Length0 && 0 <= c < a.Length1 ==>
                     a[r, c] == if r == i then CellPixel(cells[c], colormap).value else old(a[r, c])
  {
    var j := 0;
    while j < |cells|
      invariant 0 <= j <= |cells|
      invariant forall c :: 0 <= c < j ==> CellPixel(cells[c], colormap).Some?
      invariant forall r, c :: 0 <= r < a.Length0 && 0 <= c < a.Length1 ==>
                  a[r, c] == if r == i && c < j then CellPixel(cells[c], colormap).value else old(a[r, c])
    {
      var pixel := CellPixel(cells[j], colormap);
      if pixel.None? {
        return false;
      }
      if cells[j].Some? {
        a[i, j] := pixel.value;
      }
      j := j + 1;
    }
    ok := true;
  }

  /** What a month's run ends in: skipped for want of a file, stopped by an
      exception, or a saved figure. */
  datatype Outcome = Skipped | Crashed | Saved(fig: Figure)

  /** `process_temperature`: skipped when no file matches; otherwise the
      figure is drawn 1200 pixels wide with the height left to
      `create_image_from_data`, so it raises exactly on a grid with no
      columns, and each non-NaN cell shows the palette colour of its
      temperature. */
  method ProcessTemperature(data: Option<Grid>, h: nat, w: nat) returns (out: Outcome)
    requires data.Some? ==> IsRect(data.value, h, w)
    ensures out.Skipped? <==> data.None?
    ensures out.Crashed? <==> data.Some? && w == 0
    ensures out.Saved? ==> out.fig.height * w <= 1200 * h < (out.fig.height + 1) * w
    ensures out.Saved? ==> out.fig.img.Length0 == h && out.fig.img.Length1 == w
    ensures out.Saved? ==> forall i, j :: 0 <= i < h && 0 <= j < w ==>
              out.fig.img[i, j] == if data.value[i][j].Some? then Opaque(ColorForTemp(data.value[i][j].value)) else TRANSPARENT
  {
    if data.None? {
      return Skipped;
    }
    var fig := CreateImageFromData(data.value, h, w, t => TempColormap(t), 1200, None);
    if fig.None? {
      return Crashed;
    }
    out := Saved(fig.value);
  }

  /** `BIVARIATE_COLORS[rain_level][sun_level]` decoded at positions 1, 3
      and 5: defined for every level pair, and the bivariate colour. */
  function NestedPairColour(rain: real, sun: real, rainT: Thresholds, sunT: Thresholds): (c: Rgb)
    ensures c == ColorForRainSun(rain, sun, rainT, sunT) && c.Valid()
  {
    var rl, sl := Level(rain, rainT.t33, rainT.t66), Level(sun, sunT.t33, sunT.t66);
    BivariateTablesTotal(rl, sl);
    BivariateTablesAgree(rl, sl);
    DecodeAtOne(BIVARIATE_NESTED[rl][sl]).value
  }

  /** `process_rain_sun`: skipped unless both files exist; otherwise a cell
      is coloured exactly when both values are present, and the figure
      height `int(12 * rows / cols)` then raises on a grid with no
      columns. */
  method ProcessRainSun(rain: Option<Grid>, sun: Option<Grid>, h: nat, w: nat, rainT: Thresholds, sunT: Thresholds)
    returns (out: Outcome)
    requires rain.Some? && sun.Some? ==> IsRect(rain.value, h, w) && IsRect(sun.value, h, w)
    ensures out.Skipped? <==> rain.None? || sun.None?
    ensures out.Crashed? <==> rain.Some? && sun.Some? && w == 0
    ensures out.Saved? ==> out.fig.height * w <= 12 * h < (out.fig.height + 1) * w
    ensures out.Saved? ==> out.fig.img.Length0 == h && out.fig.img.Length1 == w
    ensures out.Saved? ==> forall i, j :: 0 <= i < h && 0 <= j < w ==>
              out.fig.img[i, j] == if rain.value[i][j].Some? && sun.value[i][j].Some?
                                   then Opaque(NestedPairColour(rain.value[i][j].value, sun.value[i][j].value, rainT, sunT))
                                   else TRANSPARENT
  {
    if rain.None? || sun.None? {
      return Skipped;
    }
    var a := FillDensePair(rain.value, sun.value, h, w, rainT, sunT);
    if w == 0 {
      return Crashed;
    }
    var figHeight := Trunc((12 * h) as real / w as real);
    FloorDivBound(12 * h, w, figHeight);
    out := Saved(Figure(a, figHeight));
  }
}
