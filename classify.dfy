/** Classification of values into colour classes: the fixed-scale
    temperature bins, the three-level rain/sunshine classes, and the tertile
    thresholds that the three levels are cut at. */
module Classify {
  import opened Numeric
  import opened Wrappers
  import opened Colours

  // ---------------------------------------------------------------------
  // Fixed temperature scale

  /** The absolute scale, in degrees Celsius, used for every month. */
  const TEMP_SCALE_MIN: real := -10.0
  const TEMP_SCALE_MAX: real := 32.0

  /** `max(0, min(1, (t - (-10)) / (32 - (-10))))`. */
  function ClampedPosition(t: real): (p: real)
    ensures 0.0 <= p <= 1.0
    ensures p == 0.0 <==> t <= TEMP_SCALE_MIN
    ensures p == 1.0 <==> TEMP_SCALE_MAX <= t
  {
    Clamp01((t - TEMP_SCALE_MIN) / (TEMP_SCALE_MAX - TEMP_SCALE_MIN))
  }

  lemma ClampedPositionMonotone(t1: real, t2: real)
    requires t1 <= t2
    ensures ClampedPosition(t1) <= ClampedPosition(t2)
  {
    Clamp01Monotone((t1 - TEMP_SCALE_MIN) / (TEMP_SCALE_MAX - TEMP_SCALE_MIN),
                    (t2 - TEMP_SCALE_MIN) / (TEMP_SCALE_MAX - TEMP_SCALE_MIN));
  }

  /** `min(int(clamped * (len(TEMP_COLORS) - 1)), len(TEMP_COLORS) - 1)`,
      the index used by the three PNG generators. */
  function TempIndexCapped(t: real): (idx: int)
    ensures 0 <= idx <= 9
    ensures t <= TEMP_SCALE_MIN ==> idx == 0
    ensures idx == 9 <==> TEMP_SCALE_MAX <= t
  {
    var k := Trunc(ClampedPosition(t) * 9.0);
    if k <= 9 then k else 9
  }

  /** `int(clamped * (len(TEMP_COLORS) - 1))` with no cap, as in the leaflet
      generator's colour map; the cap is never needed because the clamped
      position is at most 1. */
  function TempIndexUncapped(t: real): (idx: int)
    ensures 0 <= idx <= 9
    ensures t <= TEMP_SCALE_MIN ==> idx == 0
    ensures idx == 9 <==> TEMP_SCALE_MAX <= t
    ensures idx == TempIndexCapped(t)
  {
    Trunc(ClampedPosition(t) * 9.0)
  }

  /** `min(int(clamped * len(TEMP_COLORS)), len(TEMP_COLORS) - 1)`, the
      overlay generator's index: ten equal bins of 4.2 degrees. */
  function TempIndexByLength(t: real): (idx: int)
    ensures 0 <= idx <= 9
    ensures t <= TEMP_SCALE_MIN ==> idx == 0
    ensures TEMP_SCALE_MAX <= t ==> idx == 9
  {
    var k := Trunc(ClampedPosition(t) * 10.0);
    if k <= 9 then k else 9
  }

  /** Bin `k` of the overlay index holds exactly the temperatures from
      -10 + 4.2k up to -10 + 4.2(k+1); the first bin is open below and the
      last open above. */
  lemma TempIndexByLengthBins(t: real, k: int)
    requires 0 <= k <= 9
    ensures TempIndexByLength(t) == k <==>
              (k == 0 || -10.0 + 4.2 * k as real <= t) && (k == 9 || t < -10.0 + 4.2 * (k + 1) as real)
  {
    var p := ClampedPosition(t);
    if TEMP_SCALE_MIN < t < TEMP_SCALE_MAX {
      assert p == (t + 10.0) / 42.0;
      assert p * 10.0 == (t + 10.0) / 4.2;
    }
  }

  /** Warmer never gets a colder colour, for all three index forms. */
  lemma TempIndicesMonotone(t1: real, t2: real)
    requires t1 <= t2
    ensures TempIndexCapped(t1) <= TempIndexCapped(t2)
    ensures TempIndexUncapped(t1) <= TempIndexUncapped(t2)
    ensures TempIndexByLength(t1) <= TempIndexByLength(t2)
  {
    ClampedPositionMonotone(t1, t2);
    TruncMonotone(ClampedPosition(t1) * 9.0, ClampedPosition(t2) * 9.0);
    TruncMonotone(ClampedPosition(t1) * 10.0, ClampedPosition(t2) * 10.0);
  }

  /** `get_color_for_temp` of the PNG generators. */
  function ColorForTemp(t: real): (c: Rgb)
    ensures c in TEMP_COLORS && c.Valid()
    ensures t <= TEMP_SCALE_MIN ==> c == TEMP_COLORS[0]
    ensures TEMP_SCALE_MAX <= t ==> c == TEMP_COLORS[9]
  {
    TempTablesAgree(TempIndexCapped(t));
    TEMP_COLORS[TempIndexCapped(t)]
  }

  // ---------------------------------------------------------------------
  // Three-level classification

  /** `0 if v < lo else (1 if v < hi else 2)`: a value equal to a threshold
      goes to the higher class. */
  function Level(v: real, lo: real, hi: real): (l: int)
    ensures IsLevel(l)
    ensures l == 0 <==> v < lo
    ensures l == 2 <==> lo <= v && hi <= v
  {
    if v < lo then 0 else if v < hi then 1 else 2
  }

  /** With ordered thresholds the level never falls as the value grows, and
      each threshold itself belongs to the class above it. */
  lemma LevelMonotone(v1: real, v2: real, lo: real, hi: real)
    requires v1 <= v2
    ensures Level(v1, lo, hi) <= Level(v2, lo, hi)
    ensures lo < hi ==> Level(lo, lo, hi) == 1
    ensures Level(hi, lo, hi) == 2 || hi < lo
  {
  }

  /** The pair of cut points for one variable of one month. */
  datatype Thresholds = Thresholds(t33: real, t66: real)

  /** `get_color_for_rain_sun`: the table entry of the pair of levels. */
  function ColorForRainSun(rain: real, sun: real, rainT: Thresholds, sunT: Thresholds): (c: Rgb)
    ensures c in BIVARIATE_COLORS.Values && c.Valid()
    ensures c == BIVARIATE_COLORS[(Level(rain, rainT.t33, rainT.t66), Level(sun, sunT.t33, sunT.t66))]
  {
    var key := (Level(rain, rainT.t33, rainT.t66), Level(sun, sunT.t33, sunT.t66));
    BivariateTablesTotal(key.0, key.1);
    BIVARIATE_COLORS[key]
  }

  // ---------------------------------------------------------------------
  // Sorting (Python's list.sort) and tertile thresholds

  predicate Sorted(s: seq<real>) {
    forall i, j :: 0 <= i < j < |s| ==> s[i] <= s[j]
  }

  /** How many entries lie strictly below `t`. */
  function CountBelow(s: seq<real>, t: real): (n: nat)
    ensures n <= |s|
  {
    if s == [] then 0 else (if s[0] < t then 1 else 0) + CountBelow(s[1..], t)
  }

  /** How many entries lie at or below `t`. */
  function CountAtMost(s: seq<real>, t: real): (n: nat)
    ensures n <= |s|
  {
    if s == [] then 0 else (if s[0] <= t then 1 else 0) + CountAtMost(s[1..], t)
  }

  /** Inserts `x` before the first entry not below it. */
  function Insert(x: real, s: seq<real>): (r: seq<real>)
    requires Sorted(s)
    ensures Sorted(r) && multiset(r) == multiset(s) + multiset{x}
    ensures r[0] == x || (s != [] && r[0] == s[0])
  {
    if s == [] then [x]
    else if x <= s[0] then ConsSorted(x, s); [x] + s
    else
      var tail := Insert(x, s[1..]);
      assert s == [s[0]] + s[1..];
      ConsSorted(s[0], tail);
      [s[0]] + tail
  }

  /** A head no larger than the first entry of a sorted list keeps it sorted. */
  lemma ConsSorted(h: real, t: seq<real>)
    requires Sorted(t) && (t == [] || h <= t[0])
    ensures Sorted([h] + t)
  {
    var r := [h] + t;
    forall i, j | 0 <= i < j < |r| ensures r[i] <= r[j] {
      if i == 0 {
        assert r[j] == t[j - 1];
        assert t[0] <= t[j - 1];
      } else {
        assert r[i] == t[i - 1] && r[j] == t[j - 1];
      }
    }
  }

  /** The sorted list: ascending and a permutation of the input. */
  function Sort(s: seq<real>): (r: seq<real>)
    ensures Sorted(r) && multiset(r) == multiset(s) && |r| == |s|
  {
    if s == [] then []
    else
      assert s == [s[0]] + s[1..];
      Insert(s[0], Sort(s[1..]))
  }

  lemma {:induction false} InsertCountBelow(x: real, s: seq<real>, t: real)
    requires Sorted(s)
    ensures CountBelow(Insert(x, s), t) == CountBelow(s, t) + (if x < t then 1 else 0)
  {
    if s == [] {
      assert CountBelow([x], t) == (if x < t then 1 else 0) + CountBelow([x][1..], t);
    } else if x <= s[0] {
      assert ([x] + s)[1..] == s;
    } else {
      InsertCountBelow(x, s[1..], t);
      assert ([s[0]] + Insert(x, s[1..]))[1..] == Insert(x, s[1..]);
    }
  }

  /** Sorting does not change how many values lie below a threshold. */
  lemma {:induction false} SortCountBelow(s: seq<real>, t: real)
    ensures CountBelow(Sort(s), t) == CountBelow(s, t)
  {
    if s != [] {
      SortCountBelow(s[1..], t);
      InsertCountBelow(s[0], Sort(s[1..]), t);
    }
  }

  /** In a sorted list, fewer than `k + 1` entries lie below the `k`-th. */
  lemma {:induction false} SortedCountBelow(s: seq<real>, k: nat, t: real)
    requires Sorted(s) && k <= |s|
    requires k < |s| ==> t <= s[k]
    ensures CountBelow(s, t) <= k
  {
    if s != [] {
      if k == 0 {
        assert !(s[0] < t);
        SortedCountBelow(s[1..], 0, t);
      } else {
        SortedCountBelow(s[1..], k - 1, t);
      }
    }
  }

  lemma {:induction false} InsertCountAtMost(x: real, s: seq<real>, t: real)
    requires Sorted(s)
    ensures CountAtMost(Insert(x, s), t) == CountAtMost(s, t) + (if x <= t then 1 else 0)
  {
    if s == [] {
      assert CountAtMost([x], t) == (if x <= t then 1 else 0) + CountAtMost([x][1..], t);
    } else if x <= s[0] {
      assert ([x] + s)[1..] == s;
    } else {
      InsertCountAtMost(x, s[1..], t);
      assert ([s[0]] + Insert(x, s[1..]))[1..] == Insert(x, s[1..]);
    }
  }

  /** Sorting does not change how many values lie at or below a threshold. */
  lemma {:induction false} SortCountAtMost(s: seq<real>, t: real)
    ensures CountAtMost(Sort(s), t) == CountAtMost(s, t)
  {
    if s != [] {
      SortCountAtMost(s[1..], t);
      InsertCountAtMost(s[0], Sort(s[1..]), t);
    }
  }

  /** In a sorted list, the `k`-th entry and the `k` before it lie at or
      below any bound the `k`-th entry does not exceed. */
  lemma {:induction false} SortedCountAtMost(s: seq<real>, k: nat, t: real)
    requires Sorted(s) && k < |s| && s[k] <= t
    ensures k < CountAtMost(s, t)
  {
    assert s[0] <= s[k];
    if k > 0 {
      SortedCountAtMost(s[1..], k - 1, t);
    }
  }

  /** The `k`-th entry of a sorted permutation of `values` is pinned by its
      rank: at most `k` values lie below it and more than `k` at or below
      it. */
  lemma RankOfSorted(values: seq<real>, k: nat)
    requires k < |values|
    ensures var t := Sort(values)[k];
            CountBelow(values, t) <= k < CountAtMost(values, t)
  {
    var s := Sort(values);
    SortCountBelow(values, s[k]);
    SortCountAtMost(values, s[k]);
    SortedCountBelow(s, k, s[k]);
    SortedCountAtMost(s, k, s[k]);
  }

  /** The head of a sorted list is its least element. */
  lemma HeadIsLeast(a: seq<real>, y: real)
    requires Sorted(a) && a != [] && y in multiset(a)
    ensures a[0] <= y
  {
    assert y in a;
    var i :| 0 <= i < |a| && a[i] == y;
  }

  /** Two sorted lists with the same elements start alike, and their tails
      again have the same elements. */
  lemma SameHead(a: seq<real>, b: seq<real>)
    requires Sorted(a) && Sorted(b) && multiset(a) == multiset(b) && a != []
    ensures b != [] && a[0] == b[0]
    ensures Sorted(a[1..]) && Sorted(b[1..]) && multiset(a[1..]) == multiset(b[1..])
  {
    assert a[0] in multiset(b);
    assert b[0] in multiset(a);
    HeadIsLeast(a, b[0]);
    HeadIsLeast(b, a[0]);
    assert a == [a[0]] + a[1..];
    assert b == [b[0]] + b[1..];
    assert multiset(a[1..]) == multiset(a) - multiset{a[0]};
    assert multiset(b[1..]) == multiset(b) - multiset{b[0]};
  }

  /** Two ascending lists with the same elements are equal. */
  lemma {:induction false} SortedUnique(a: seq<real>, b: seq<real>)
    requires Sorted(a) && Sorted(b) && multiset(a) == multiset(b)
    ensures a == b
  {
    if a == [] {
      assert |b| == |multiset(b)| == 0;
    } else {
      SameHead(a, b);
      SortedUnique(a[1..], b[1..]);
      assert a == [a[0]] + a[1..];
      assert b == [b[0]] + b[1..];
    }
  }

  /** The order in which a list of values is built does not matter to
      either threshold choice: both sort it first. */
  lemma TertilesOrderIndependent(a: seq<real>, b: seq<real>)
    requires multiset(a) == multiset(b)
    ensures Sort(a) == Sort(b)
    ensures TertilesByRank(a) == TertilesByRank(b) && TertilesLegacy(a) == TertilesLegacy(b)
  {
    SortedUnique(Sort(a), Sort(b));
  }

  /** The thresholds of the fixed PNG generator: `sorted[n // 3]` and
      `sorted[(2 * n) // 3]`, or 0 and 0 for an empty list. The first is the
      value of rank `n // 3` and the second of rank `(2 * n) // 3`
      (`TertileRanks`). */
  function TertilesByRank(values: seq<real>): (t: Thresholds)
    ensures values == [] ==> t == Thresholds(0.0, 0.0)
    ensures values != [] ==> t.t33 in values && t.t66 in values && t.t33 <= t.t66
    ensures CountBelow(values, t.t33) <= |values| / 3
    ensures CountBelow(values, t.t66) <= (2 * |values|) / 3
  {
    var s := Sort(values);
    var n := |s|;
    if n == 0 then Thresholds(0.0, 0.0)
    else
      assert s[n / 3] in multiset(values) && s[(2 * n) / 3] in multiset(values);
      SortCountBelow(values, s[n / 3]);
      SortCountBelow(values, s[(2 * n) / 3]);
      SortedCountBelow(s, n / 3, s[n / 3]);
      SortedCountBelow(s, (2 * n) / 3, s[(2 * n) / 3]);
      Thresholds(s[n / 3], s[(2 * n) / 3])
  }

  /** `int(n * 0.33)`. */
  function Index33(n: nat): int { Trunc(n as real * 0.33) }

  /** `int(n * 0.66)`. */
  function Index66(n: nat): int { Trunc(n as real * 0.66) }

  /** For a non-empty list both legacy indices are in range and ordered. */
  lemma LegacyIndicesInRange(n: nat)
    requires 1 <= n
    ensures 0 <= Index33(n) <= Index66(n) < n
  {
    TruncMonotone(n as real * 0.33, n as real * 0.66);
  }

  /** The thresholds of the older generators, `sorted[int(n * 0.33)]` and
      `sorted[int(n * 0.66)]`, with no guard: an empty list raises
      `IndexError`, modelled as `None`. Otherwise the thresholds are the
      values of ranks `int(n * 0.33)` and `int(n * 0.66)` (`TertileRanks`). */
  function TertilesLegacy(values: seq<real>): (t: Option<Thresholds>)
    ensures t.None? <==> values == []
    ensures t.Some? ==> t.value.t33 in values && t.value.t66 in values && t.value.t33 <= t.value.t66
  {
    var s := Sort(values);
    var n := |s|;
    if n == 0 then None
    else
      LegacyIndicesInRange(n);
      assert s[Index33(n)] in multiset(values) && s[Index66(n)] in multiset(values);
      Some(Thresholds(s[Index33(n)], s[Index66(n)]))
  }

  /** Both threshold rules pick values by rank: at most `k` values lie
      strictly below the value of rank `k` and more than `k` at or below it,
      which pins it. The by-rank rule uses ranks `n // 3` and
      `(2 * n) // 3`, the legacy rule `int(n * 0.33)` and `int(n * 0.66)`. */
  lemma TertileRanks(values: seq<real>)
    requires values != []
    ensures var t, n := TertilesByRank(values), |values|;
            CountBelow(values, t.t33) <= n / 3 < CountAtMost(values, t.t33) &&
            CountBelow(values, t.t66) <= (2 * n) / 3 < CountAtMost(values, t.t66)
    ensures var t, n := TertilesLegacy(values), |values|;
            t.Some? &&
            CountBelow(values, t.value.t33) <= Index33(n) < CountAtMost(values, t.value.t33) &&
            CountBelow(values, t.value.t66) <= Index66(n) < CountAtMost(values, t.value.t66)
  {
    var n := |values|;
    LegacyIndicesInRange(n);
    RankOfSorted(values, n / 3);
    RankOfSorted(values, (2 * n) / 3);
    RankOfSorted(values, Index33(n));
    RankOfSorted(values, Index66(n));
  }
}
