/** The overlay generator that colours the dense source grids directly: one
    output pixel per grid cell, colours decoded from hex strings, and the
    temperature index taken over ten equal-width bins. */
module OverlayImages {
  import opened Wrappers
  import opened Colours
  import opened Classify
  import opened Raster

  /** `hex_to_rgb(TEMP_COLORS[min(int(clamped * 10), 9)])`: the decoded hex
      string is the palette entry of the equal-width bin. */
  function TempColour(t: real): (c: Rgb)
    ensures c == TEMP_COLORS[TempIndexByLength(t)] && c.Valid()
    ensures HexToRgb(TEMP_HEX[TempIndexByLength(t)]) == Some(c)
  {
    var i := TempIndexByLength(t);
    TempTablesAgree(i);
    HexToRgb(TEMP_HEX[i]).value
  }

  /** `hex_to_rgb(BIVARIATE_COLORS[(rain_level, sun_level)])`: the decoded
      string is the bivariate colour of the level pair. */
  function PairColour(rain: real, sun: real, rainT: Thresholds, sunT: Thresholds): (c: Rgb)
    ensures c == ColorForRainSun(rain, sun, rainT, sunT) && c.Valid()
  {
    var rl, sl := Level(rain, rainT.t33, rainT.t66), Level(sun, sunT.t33, sunT.t66);
    BivariateTablesAgree(rl, sl);
    HexToRgb(BIVARIATE_HEX[(rl, sl)]).value
  }

  /** `process_temp`: nothing when no file matches the year; otherwise a
      zeroed RGBA array of the grid's shape in which each non-NaN cell gets
      its bin colour with alpha 255. */
  method ProcessTemp(data: Option<Grid>, h: nat, w: nat) returns (img: Option<array2<Rgba>>)
    requires data.Some? ==> IsRect(data.value, h, w)
    ensures img.None? <==> data.None?
    ensures img.Some? ==> img.value.Length0 == h && img.value.Length1 == w
    ensures img.Some? ==> forall i, j :: 0 <= i < h && 0 <= j < w ==>
              img.value[i, j] == if data.value[i][j].Some? then Opaque(TempColour(data.value[i][j].value)) else TRANSPARENT
  {
    if data.None? {
      return None;
    }
    var a := FillDense(data.value, h, w, t => TempColour(t));
    img := Some(a);
  }

  /** `process_rain_sun`: nothing unless both files exist; otherwise each
      cell where both values are present gets the decoded bivariate colour
      of its level pair, and every other cell stays zero. */
  method ProcessRainSun(rain: Option<Grid>, sun: Option<Grid>, h: nat, w: nat, rainT: Thresholds, sunT: Thresholds)
    returns (img: Option<array2<Rgba>>)
    requires rain.Some? && sun.Some? ==> IsRect(rain.value, h, w) && IsRect(sun.value, h, w)
    ensures img.None? <==> rain.None? || sun.None?
    ensures img.Some? ==> img.value.Length0 == h && img.value.Length1 == w
    ensures img.Some? ==> forall i, j :: 0 <= i < h && 0 <= j < w ==>
              img.value[i, j] == if rain.value[i][j].Some? && sun.value[i][j].Some?
                                 then Opaque(PairColour(rain.value[i][j].value, sun.value[i][j].value, rainT, sunT))
                                 else TRANSPARENT
  {
    if rain.None? || sun.None? {
      return None;
    }
    var a := FillDensePair(rain.value, sun.value, h, w, rainT, sunT);
    img := Some(a);
  }
}
