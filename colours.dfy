/** The colour tables shared by the image generators and the decoding of
    `#rrggbb` strings (the RGB hexadecimal notation of section 5.2 of CSS
    Color Module Level 4). */
module Colours {
  import opened Wrappers

  datatype Rgb = Rgb(r: int, g: int, b: int) {
    /** Every component fits an unsigned byte. */
    predicate Valid() {
      0 <= r < 256 && 0 <= g < 256 && 0 <= b < 256
    }
  }

  /** One pixel of an RGBA `uint8` image array. */
  datatype Rgba = Rgba(r: int, g: int, b: int, a: int)

  /** The value of a cell of `np.zeros((h, w, 4), dtype=np.uint8)`. */
  const TRANSPARENT: Rgba := Rgba(0, 0, 0, 0)

  /** `[r, g, b, 255]`, the value every generator writes into a coloured pixel. */
  function Opaque(c: Rgb): (p: Rgba)
    ensures p.a == 255 && p != TRANSPARENT
  {
    Rgba(c.r, c.g, c.b, 255)
  }

  /** The ten temperature colours, cold to hot, as integer triples. */
  const TEMP_COLORS: seq<Rgb> := [
    Rgb(5, 48, 97), Rgb(33, 102, 172), Rgb(67, 147, 195), Rgb(146, 197, 222), Rgb(209, 229, 240),
    Rgb(253, 219, 199), Rgb(244, 165, 130), Rgb(214, 96, 77), Rgb(178, 24, 43), Rgb(103, 0, 31)
  ]

  /** The same ten colours as hexadecimal strings. */
  const TEMP_HEX: seq<string> := [
    "#053061", "#2166ac", "#4393c3", "#92c5de", "#d1e5f0",
    "#fddbc7", "#f4a582", "#d6604d", "#b2182b", "#67001f"
  ]

  /** The 3x3 bivariate table keyed by (rain level, sun level). */
  const BIVARIATE_COLORS: map<(int, int), Rgb> := map[
    (0, 0) := Rgb(243, 243, 243), (0, 1) := Rgb(243, 230, 179), (0, 2) := Rgb(243, 179, 0),
    (1, 0) := Rgb(180, 211, 225), (1, 1) := Rgb(179, 179, 179), (1, 2) := Rgb(179, 102, 0),
    (2, 0) := Rgb(80, 157, 194), (2, 1) := Rgb(55, 99, 135), (2, 2) := Rgb(0, 0, 0)
  ]

  /** The bivariate table with hexadecimal entries, keyed by the level pair. */
  const BIVARIATE_HEX: map<(int, int), string> := map[
    (0, 0) := "#f3f3f3", (0, 1) := "#f3e6b3", (0, 2) := "#f3b300",
    (1, 0) := "#b4d3e1", (1, 1) := "#b3b3b3", (1, 2) := "#b36600",
    (2, 0) := "#509dc2", (2, 1) := "#376387", (2, 2) := "#000000"
  ]

  /** The bivariate table as a dictionary of dictionaries, rain level first. */
  const BIVARIATE_NESTED: map<int, map<int, string>> := map[
    0 := map[0 := "#f3f3f3", 1 := "#f3e6b3", 2 := "#f3b300"],
    1 := map[0 := "#b4d3e1", 1 := "#b3b3b3", 2 := "#b36600"],
    2 := map[0 := "#509dc2", 1 := "#376387", 2 := "#000000"]
  ]

  predicate IsLevel(l: int) { 0 <= l <= 2 }

  /** Every pair of levels is a key of each form of the bivariate table. */
  lemma BivariateTablesTotal(rl: int, sl: int)
    requires IsLevel(rl) && IsLevel(sl)
    ensures (rl, sl) in BIVARIATE_COLORS && BIVARIATE_COLORS[(rl, sl)].Valid()
    ensures (rl, sl) in BIVARIATE_HEX
    ensures rl in BIVARIATE_NESTED && sl in BIVARIATE_NESTED[rl]
    ensures BIVARIATE_NESTED[rl][sl] == BIVARIATE_HEX[(rl, sl)]
  {
  }

  // ---------------------------------------------------------------------
  // Hexadecimal decoding

  /** The value of one hexadecimal digit, either case. */
  function HexDigit(c: char): (d: Option<int>)
    ensures d.Some? ==> 0 <= d.value < 16
  {
    if '0' <= c <= '9' then Some(c as int - '0' as int)
    else if 'a' <= c <= 'f' then Some(c as int - 'a' as int + 10)
    else if 'A' <= c <= 'F' then Some(c as int - 'A' as int + 10)
    else None
  }

  function Pow16(n: nat): (p: nat)
    ensures p >= 1
  {
    if n == 0 then 1 else 16 * Pow16(n - 1)
  }

  /** The value of a string of hexadecimal digits, most significant first. */
  function HexDigits(s: string): (v: Option<int>)
    ensures v.Some? ==> 0 <= v.value < Pow16(|s|)
  {
    if |s| == 0 then Some(0)
    else
      match (HexDigits(s[..|s| - 1]), HexDigit(s[|s| - 1]))
      case (Some(hi), Some(lo)) => Some(16 * hi + lo)
      case _ => None
  }

  /** `int(s, 16)` on a string of digits; `None` where Python raises
      `ValueError` (the empty string or a non-digit). */
  function ParseHex(s: string): (v: Option<int>)
    ensures v.Some? ==> |s| > 0 && 0 <= v.value < Pow16(|s|)
  {
    if |s| == 0 then None else HexDigits(s)
  }

  /** Python's `s[i:j]` for non-negative bounds: both are clipped to the length. */
  function Slice(s: string, i: nat, j: nat): (t: string)
    requires i <= j
    ensures |t| <= j - i
  {
    var lo := if i <= |s| then i else |s|;
    var hi := if j <= |s| then j else |s|;
    s[lo..hi]
  }

  /** `s.lstrip('#')`: every leading '#' removed. */
  function LStripHash(s: string): (t: string)
    ensures |t| <= |s|
    ensures t == [] || t[0] != '#'
    ensures t == s[|s| - |t|..]
    ensures forall i :: 0 <= i < |s| - |t| ==> s[i] == '#'
  {
    if |s| > 0 && s[0] == '#' then LStripHash(s[1..]) else s
  }

  /** The digit string is read exactly when every character is a
      hexadecimal digit. */
  lemma {:induction false} HexDigitsDefined(s: string)
    ensures HexDigits(s).Some? <==> forall i :: 0 <= i < |s| ==> HexDigit(s[i]).Some?
  {
    if |s| > 0 {
      var p := s[..|s| - 1];
      HexDigitsDefined(p);
      assert forall i :: 0 <= i < |p| ==> p[i] == s[i];
    }
  }

  /** `int(s, 16)` succeeds exactly on a non-empty string of hexadecimal
      digits; one or two digits read positionally, most significant first. */
  lemma ParseHexMeaning(s: string)
    ensures ParseHex(s).Some? <==> |s| > 0 && forall i :: 0 <= i < |s| ==> HexDigit(s[i]).Some?
    ensures |s| == 1 && ParseHex(s).Some? ==> ParseHex(s).value == HexDigit(s[0]).value
    ensures |s| == 2 && ParseHex(s).Some? ==>
              ParseHex(s).value == 16 * HexDigit(s[0]).value + HexDigit(s[1]).value
  {
    HexDigitsDefined(s);
    if 0 < |s| <= 2 {
      assert s[..|s| - 1][..0] == [];
      assert HexDigits(s[..|s| - 1][..0]) == Some(0);
      if |s| == 2 {
        assert s[..1][..0] == [];
      }
    }
  }

  /** Decodes one component: a slice of at most two characters. */
  function Component(s: string): (v: Option<int>)
    requires |s| <= 2
    ensures v.Some? ==> 0 <= v.value < 256
  {
    var p := ParseHex(s);
    if p.Some? then (assert Pow16(|s|) <= 256; p) else None
  }

  /** `hex_to_rgb`: strip the leading '#' characters and decode the pairs at
      offsets 0, 2 and 4; `None` where a pair raises `ValueError`. */
  function HexToRgb(s: string): (c: Option<Rgb>)
    ensures c.Some? ==> c.value.Valid()
  {
    var h := LStripHash(s);
    match (Component(Slice(h, 0, 2)), Component(Slice(h, 2, 4)), Component(Slice(h, 4, 6)))
    case (Some(r), Some(g), Some(b)) => Some(Rgb(r, g, b))
    case _ => None
  }

  /** The leaflet generator's inline decoding `int(color[1:3], 16)`,
      `int(color[3:5], 16)`, `int(color[5:7], 16)`. */
  function DecodeAtOne(s: string): (c: Option<Rgb>)
    ensures c.Some? ==> c.value.Valid()
  {
    match (Component(Slice(s, 1, 3)), Component(Slice(s, 3, 5)), Component(Slice(s, 5, 7)))
    case (Some(r), Some(g), Some(b)) => Some(Rgb(r, g, b))
    case _ => None
  }

  // ---------------------------------------------------------------------
  // Encoding, the partner of both decoders

  function DigitChar(d: int): (c: char)
    requires 0 <= d < 16
    ensures c != '#' && HexDigit(c) == Some(d)
  {
    if d < 10 then ('0' as int + d) as char else ('a' as int + d - 10) as char
  }

  /** `s` is a `#rrggbb` spelling of `c`: a '#' and then the two digits of
      each component, most significant first, in either case. */
  predicate Encodes(c: Rgb, s: string) {
    && |s| == 7 && s[0] == '#'
    && HexDigit(s[1]) == Some(c.r / 16) && HexDigit(s[2]) == Some(c.r % 16)
    && HexDigit(s[3]) == Some(c.g / 16) && HexDigit(s[4]) == Some(c.g % 16)
    && HexDigit(s[5]) == Some(c.b / 16) && HexDigit(s[6]) == Some(c.b % 16)
  }

  /** The lower-case `#rrggbb` form of a colour. */
  function ToHex(c: Rgb): (s: string)
    requires c.Valid()
    ensures Encodes(c, s)
  {
    ['#', DigitChar(c.r / 16), DigitChar(c.r % 16), DigitChar(c.g / 16), DigitChar(c.g % 16),
     DigitChar(c.b / 16), DigitChar(c.b % 16)]
  }

  /** Two digits spelling a byte parse to it. */
  lemma {:induction false} PairParses(s: string, v: int)
    requires 0 <= v < 256 && |s| == 2
    requires HexDigit(s[0]) == Some(v / 16) && HexDigit(s[1]) == Some(v % 16)
    ensures Component(s) == Some(v)
  {
    assert s[..1][..0] == [];
    assert HexDigits(s[..1][..0]) == Some(0);
    assert HexDigits(s[..1]) == Some(v / 16);
    assert HexDigits(s) == Some(16 * (v / 16) + v % 16);
  }

  /** The inline decoder reads any spelling of a colour back as that colour. */
  lemma {:induction false} DecodeAtOneEncoded(c: Rgb, s: string)
    requires c.Valid() && Encodes(c, s)
    ensures DecodeAtOne(s) == Some(c)
  {
    PairParses(s[1..3], c.r);
    PairParses(s[3..5], c.g);
    PairParses(s[5..7], c.b);
  }

  /** Both decoders read any spelling of a colour back as that colour. */
  lemma DecodeEncoded(c: Rgb, s: string)
    requires c.Valid() && Encodes(c, s)
    ensures HexToRgb(s) == Some(c)
    ensures DecodeAtOne(s) == Some(c)
  {
    DecodeAtOneEncoded(c, s);
    DecodersAgree(s);
  }

  /** Decoding the encoded form gives the colour back. */
  lemma HexRoundTrip(c: Rgb)
    requires c.Valid()
    ensures HexToRgb(ToHex(c)) == Some(c)
    ensures DecodeAtOne(ToHex(c)) == Some(c)
  {
    DecodeEncoded(c, ToHex(c));
  }

  /** On a seven-character `#rrggbb` string with a single '#', the two
      decoders read the same three pairs. */
  lemma DecodersAgree(s: string)
    requires |s| == 7 && s[0] == '#' && s[1] != '#'
    ensures DecodeAtOne(s) == HexToRgb(s)
  {
    assert LStripHash(s[1..]) == s[1..];
    assert LStripHash(s) == s[1..];
    assert Slice(s[1..], 0, 2) == Slice(s, 1, 3);
    assert Slice(s[1..], 2, 4) == Slice(s, 3, 5);
    assert Slice(s[1..], 4, 6) == Slice(s, 5, 7);
  }

  /** The hexadecimal temperature table is the integer table, entry by entry. */
  lemma TempTablesAgree(i: int)
    requires 0 <= i < |TEMP_COLORS|
    ensures |TEMP_HEX| == |TEMP_COLORS| == 10
    ensures TEMP_COLORS[i].Valid()
    ensures HexToRgb(TEMP_HEX[i]) == Some(TEMP_COLORS[i])
    ensures DecodeAtOne(TEMP_HEX[i]) == Some(TEMP_COLORS[i])
  {
    TempEncoded(i);
    DecodeEncoded(TEMP_COLORS[i], TEMP_HEX[i]);
  }

  lemma TempEncoded(i: int)
    requires 0 <= i < 10
    ensures TEMP_COLORS[i].Valid() && Encodes(TEMP_COLORS[i], TEMP_HEX[i])
  {
    if i == 0 { assert Encodes(Rgb(5, 48, 97), "#053061"); }
    else if i == 1 { assert Encodes(Rgb(33, 102, 172), "#2166ac"); }
    else if i == 2 { assert Encodes(Rgb(67, 147, 195), "#4393c3"); }
    else if i == 3 { assert Encodes(Rgb(146, 197, 222), "#92c5de"); }
    else if i == 4 { assert Encodes(Rgb(209, 229, 240), "#d1e5f0"); }
    else if i == 5 { assert Encodes(Rgb(253, 219, 199), "#fddbc7"); }
    else if i == 6 { assert Encodes(Rgb(244, 165, 130), "#f4a582"); }
    else if i == 7 { assert Encodes(Rgb(214, 96, 77), "#d6604d"); }
    else if i == 8 { assert Encodes(Rgb(178, 24, 43), "#b2182b"); }
    else { assert Encodes(Rgb(103, 0, 31), "#67001f"); }
  }

  /** The hexadecimal bivariate table is the integer table, entry by entry. */
  lemma BivariateTablesAgree(rl: int, sl: int)
    requires IsLevel(rl) && IsLevel(sl)
    ensures (rl, sl) in BIVARIATE_COLORS && (rl, sl) in BIVARIATE_HEX
    ensures HexToRgb(BIVARIATE_HEX[(rl, sl)]) == Some(BIVARIATE_COLORS[(rl, sl)])
    ensures DecodeAtOne(BIVARIATE_HEX[(rl, sl)]) == Some(BIVARIATE_COLORS[(rl, sl)])
  {
    BivariateTablesTotal(rl, sl);
    BivariateEncoded(rl, sl);
    DecodeEncoded(BIVARIATE_COLORS[(rl, sl)], BIVARIATE_HEX[(rl, sl)]);
  }

  lemma BivariateEncoded(rl: int, sl: int)
    requires IsLevel(rl) && IsLevel(sl)
    ensures (rl, sl) in BIVARIATE_COLORS && (rl, sl) in BIVARIATE_HEX
    ensures Encodes(BIVARIATE_COLORS[(rl, sl)], BIVARIATE_HEX[(rl, sl)])
  {
    BivariateTablesTotal(rl, sl);
    if rl == 0 { BivariateEncodedDry(sl); }
    else if rl == 1 { BivariateEncodedMiddle(sl); }
    else { BivariateEncodedWet(sl); }
  }

  lemma BivariateEncodedDry(sl: int)
    requires IsLevel(sl)
    ensures (0, sl) in BIVARIATE_COLORS && (0, sl) in BIVARIATE_HEX
    ensures Encodes(BIVARIATE_COLORS[(0, sl)], BIVARIATE_HEX[(0, sl)])
  {
    if sl == 0 { assert Encodes(Rgb(243, 243, 243), "#f3f3f3"); }
    else if sl == 1 { assert Encodes(Rgb(243, 230, 179), "#f3e6b3"); }
    else { assert Encodes(Rgb(243, 179, 0), "#f3b300"); }
  }

  lemma BivariateEncodedMiddle(sl: int)
    requires IsLevel(sl)
    ensures (1, sl) in BIVARIATE_COLORS && (1, sl) in BIVARIATE_HEX
    ensures Encodes(BIVARIATE_COLORS[(1, sl)], BIVARIATE_HEX[(1, sl)])
  {
    if sl == 0 { assert Encodes(Rgb(180, 211, 225), "#b4d3e1"); }
    else if sl == 1 { assert Encodes(Rgb(179, 179, 179), "#b3b3b3"); }
    else { assert Encodes(Rgb(179, 102, 0), "#b36600"); }
  }

  lemma BivariateEncodedWet(sl: int)
    requires IsLevel(sl)
    ensures (2, sl) in BIVARIATE_COLORS && (2, sl) in BIVARIATE_HEX
    ensures Encodes(BIVARIATE_COLORS[(2, sl)], BIVARIATE_HEX[(2, sl)])
  {
    if sl == 0 { assert Encodes(Rgb(80, 157, 194), "#509dc2"); }
    else if sl == 1 { assert Encodes(Rgb(55, 99, 135), "#376387"); }
    else { assert Encodes(Rgb(0, 0, 0), "#000000"); }
  }
}
