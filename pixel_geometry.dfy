/** Pixel geometry shared by the image generators: linear interpolation from
    a pixel's row or column to a coordinate, and the quantisation of a
    reprojected grid coordinate to a 1 km cell key. */
module PixelGeometry {
  import opened Numeric

  /** A pair of coordinates: (easting, northing), (lng, lat) or Mercator (x, y). */
  datatype Point = Point(x: real, y: real)

  /** Output image size of the three PNG generators and both test images. */
  const IMG_WIDTH: nat := 2000
  const IMG_HEIGHT: nat := 3000

  /** `hi - (i / steps) * (hi - lo)`: index 0 is `hi`, index `steps` is `lo`. */
  function Descend(i: int, hi: real, lo: real, steps: nat): real
    requires 0 < steps
  {
    hi - (i as real / steps as real) * (hi - lo)
  }

  /** `lo + (i / steps) * (hi - lo)`: index 0 is `lo`, index `steps` is `hi`. */
  function Ascend(i: int, lo: real, hi: real, steps: nat): real
    requires 0 < steps
  {
    lo + (i as real / steps as real) * (hi - lo)
  }

  lemma MulStrict(a: real, b: real, d: real)
    requires a < b && 0.0 < d
    ensures a * d < b * d
  {
  }

  /** Both interpolations hit their end values at 0 and at `steps`. */
  lemma InterpolationEnds(hi: real, lo: real, steps: nat)
    requires 0 < steps
    ensures Descend(0, hi, lo, steps) == hi && Descend(steps, hi, lo, steps) == lo
    ensures Ascend(0, lo, hi, steps) == lo && Ascend(steps, lo, hi, steps) == hi
  {
  }

  /** With `lo < hi`, `Descend` strictly decreases and `Ascend` strictly
      increases with the index, so every index below `steps` stays strictly
      on the near side of the far end value. */
  lemma InterpolationStrict(i1: int, i2: int, lo: real, hi: real, steps: nat)
    requires 0 < steps && lo < hi && i1 < i2
    ensures Descend(i1, hi, lo, steps) > Descend(i2, hi, lo, steps)
    ensures Ascend(i1, lo, hi, steps) < Ascend(i2, lo, hi, steps)
    ensures i1 < steps ==> Descend(i1, hi, lo, steps) > lo && Ascend(i1, lo, hi, steps) < hi
  {
    MulStrict(i1 as real / steps as real, i2 as real / steps as real, hi - lo);
    if i1 < steps {
      MulStrict(i1 as real / steps as real, 1.0, hi - lo);
    }
  }

  /** `int(round(v / 1000) * 1000)`: the nearest multiple of 1000, ties to an
      even number of kilometres. */
  function KmKey(v: real): (k: int)
    ensures k % 1000 == 0
    ensures -500.0 <= k as real - v <= 500.0
  {
    var q := RoundHalfEven(v / 1000.0);
    assert -0.5 <= q as real - v / 1000.0 <= 0.5;
    q * 1000
  }
}
