/** The landmark test images: four coloured discs stamped, in list order,
    onto a fully transparent image of the overlay's size, so that the
    overlay's placement can be checked against known places on the map.
    Both test generators share the landmark list and the stamping loop and
    differ only in how a landmark is placed on the image. */
module Landmarks {
  import opened Wrappers
  import opened Numeric
  import opened Colours
  import opened Raster
  import opened PixelGeometry

  /** A named test place (the name is only printed). */
  datatype Landmark = Landmark(lat: real, lng: real, colour: Rgb)

  /** Isle of Wight (red), London (yellow), Edinburgh (green) and Lizard
      Point (blue), in this order. */
  const TEST_POINTS: seq<Landmark> := [
    Landmark(50.7632, -1.2973, Rgb(255, 0, 0)),
    Landmark(51.5074, -0.1276, Rgb(255, 255, 0)),
    Landmark(55.9533, -3.1883, Rgb(0, 255, 0)),
    Landmark(49.9575, -5.2017, Rgb(0, 0, 255))
  ]

  /** Where a landmark lands: skipped as outside the bounds, a division by
      a zero-width span (which raises and ends the script), or a pixel. */
  datatype Placement = Outside | ZeroSpan | At(row: int, col: int)

  /** The disc stamped for `pl` covers pixel (r, c). */
  predicate Covers(pl: Placement, r: int, c: int) {
    pl.At? && InDisc(r, c, pl.row, pl.col)
  }

  /** Pixel (r, c) after the landmarks of `points` are stamped in order on a
      transparent image. */
  function Painted(points: seq<Landmark>, place: Landmark -> Placement, r: int, c: int): Rgba {
    if |points| == 0 then TRANSPARENT
    else
      var last := points[|points| - 1];
      if Covers(place(last), r, c) then Opaque(last.colour)
      else Painted(points[..|points| - 1], place, r, c)
  }

  /** Where discs overlap the later landmark wins: a pixel shows the colour
      of the last landmark whose disc covers it. */
  lemma {:induction false} PaintedIsLastCover(points: seq<Landmark>, place: Landmark -> Placement, r: int, c: int, i: int)
    requires 0 <= i < |points| && Covers(place(points[i]), r, c)
    requires forall j :: i < j < |points| ==> !Covers(place(points[j]), r, c)
    ensures Painted(points, place, r, c) == Opaque(points[i].colour)
  {
    if i < |points| - 1 {
      var prefix := points[..|points| - 1];
      assert forall j :: i < j < |prefix| ==> prefix[j] == points[j];
      PaintedIsLastCover(prefix, place, r, c, i);
    }
  }

  /** A pixel no disc covers stays `(0, 0, 0, 0)`. */
  lemma {:induction false} PaintedUncovered(points: seq<Landmark>, place: Landmark -> Placement, r: int, c: int)
    requires forall j :: 0 <= j < |points| ==> !Covers(place(points[j]), r, c)
    ensures Painted(points, place, r, c) == TRANSPARENT
  {
    if |points| > 0 {
      var prefix := points[..|points| - 1];
      assert forall j :: 0 <= j < |prefix| ==> prefix[j] == points[j];
      PaintedUncovered(prefix, place, r, c);
    }
  }

  /** The centre pixel of a placed landmark is always written: the last
      landmark that is placed shows its colour at its own centre. */
  lemma CentreOfLastShowsItsColour(points: seq<Landmark>, place: Landmark -> Placement)
    requires |points| > 0 && place(points[|points| - 1]).At?
    ensures var pl := place(points[|points| - 1]);
            Painted(points, place, pl.row, pl.col) == Opaque(points[|points| - 1].colour)
  {
    var pl := place(points[|points| - 1]);
    assert InDisc(pl.row, pl.col, pl.row, pl.col);
  }

  /** The loop over `test_points`: each landmark is placed, skipped when it
      lies outside, and stamped as a disc of radius 50 otherwise; the image
      is `None` when some landmark's placement divides by zero. */
  method DrawLandmarks(points: seq<Landmark>, place: Landmark -> Placement) returns (img: Option<array2<Rgba>>)
    ensures img.None? <==> exists i :: 0 <= i < |points| && place(points[i]).ZeroSpan?
    ensures img.Some? ==> img.value.Length0 == IMG_HEIGHT && img.value.Length1 == IMG_WIDTH
    ensures img.Some? ==> forall r, c :: 0 <= r < IMG_HEIGHT && 0 <= c < IMG_WIDTH ==>
              img.value[r, c] == Painted(points, place, r, c)
  {
    var a := new Rgba[IMG_HEIGHT, IMG_WIDTH]((r, c) => TRANSPARENT);
    var k := 0;
    while k < |points|
      invariant 0 <= k <= |points|
      invariant forall i :: 0 <= i < k ==> !place(points[i]).ZeroSpan?
      invariant forall r, c :: 0 <= r < IMG_HEIGHT && 0 <= c < IMG_WIDTH ==> a[r, c] == Painted(points[..k], place, r, c)
    {
      var pl := place(points[k]);
      if pl.ZeroSpan? {
        return None;
      }
      if pl.At? {
        StampDisc(a, pl.row, pl.col, points[k].colour);
      }
      assert points[..k + 1][..k] == points[..k];
      k := k + 1;
    }
    assert points[..k] == points;
    img := Some(a);
  }

  // ---------------------------------------------------------------------
  // Quantising a coordinate to a pixel index

  /** `int(t / span * k)`: the offset `t` from the reference edge as a
      fraction of the span, stretched over `k` pixel steps and truncated. */
  function StepIndex(t: real, span: real, k: nat): int
    requires span != 0.0
  {
    Trunc(t / span * k as real)
  }

  lemma MulLe(a: real, b: real, d: real)
    requires a <= b && 0.0 <= d
    ensures a * d <= b * d
  {
  }

  /** An offset within the span lands on an index in `[0, k]`, and going back
      from that index gives a coordinate at most one step short of `t`. */
  lemma StepIndexBack(t: real, span: real, k: nat)
    requires 0.0 < span && 0.0 <= t <= span && 0 < k
    ensures 0 <= StepIndex(t, span, k) <= k
    ensures (StepIndex(t, span, k) as real / k as real) * span <= t
    ensures t - (StepIndex(t, span, k) as real / k as real) * span < span / k as real
  {
    var kr, u := k as real, t / span;
    UnitFraction(t, span);
    ScaleUnit(u, kr);
    var i := StepIndex(t, span, k);
    assert i as real <= u * kr < i as real + 1.0;
    BackStep(u, kr, i as real, span);
  }

  /** The offset as a fraction of the span lies in `[0, 1]`. */
  lemma UnitFraction(t: real, span: real)
    requires 0.0 < span && 0.0 <= t <= span
    ensures 0.0 <= t / span <= 1.0 && (t / span) * span == t
  {
    MulLe(0.0, t, 1.0 / span);
    MulLe(t, span, 1.0 / span);
  }

  /** A fraction in `[0, 1]` stretched over `kr` steps lies in `[0, kr]`. */
  lemma ScaleUnit(u: real, kr: real)
    requires 0.0 <= u <= 1.0 && 0.0 < kr
    ensures 0.0 <= u * kr <= kr
  {
    MulLe(0.0, u, kr);
    MulLe(u, 1.0, kr);
  }

  /** Index `a` of the stretched fraction `u`, turned back into a fraction
      and scaled by the span, is at most one step of `span / kr` below it. */
  lemma BackStep(u: real, kr: real, a: real, span: real)
    requires 0.0 < kr && 0.0 < span && a <= u * kr < a + 1.0
    ensures (a / kr) * span <= u * span
    ensures u * span - (a / kr) * span < span / kr
  {
    var g := a / kr;
    assert g <= u by {
      MulLe(a, u * kr, 1.0 / kr);
      assert (u * kr) * (1.0 / kr) == u;
    }
    MulLe(g, u, span);
    assert u < g + 1.0 / kr by {
      MulStrict(u * kr, a + 1.0, 1.0 / kr);
      assert (u * kr) * (1.0 / kr) == u;
      assert (a + 1.0) * (1.0 / kr) == g + 1.0 / kr;
    }
    MulStrict(u, g + 1.0 / kr, span);
    assert (g + 1.0 / kr) * span == g * span + span / kr;
  }

  /** A larger offset never gives a smaller index. */
  lemma StepIndexMonotone(t1: real, t2: real, span: real, k: nat)
    requires 0.0 < span && t1 <= t2
    ensures StepIndex(t1, span, k) <= StepIndex(t2, span, k)
  {
    DivMono(t1, t2, span);
    MulLe(t1 / span, t2 / span, k as real);
    TruncMonotone(t1 / span * k as real, t2 / span * k as real);
  }

  /** Dividing by a positive span keeps the order. */
  lemma DivMono(a: real, b: real, d: real)
    requires a <= b && 0.0 < d
    ensures a / d <= b / d
  {
    MulLe(a, b, 1.0 / d);
    assert a / d == a * (1.0 / d);
    assert b / d == b * (1.0 / d);
  }
}
