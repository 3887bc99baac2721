/**
 * The hand-written HSL conversions.
 *  - script.js and accessibility_checker.js: `hexToHsl` gives the hue in
 *    degrees [0, 360) and saturation and lightness in [0, 1]; `hslToHex` takes
 *    the hue in degrees and encodes upper case through `rgbToHex(rgb(...))`.
 *  - scripts/accessibility_checker.js: `hexToHsl` rounds the hue to whole
 *    degrees; `hslToHex` works on the hue as a fraction of a turn and encodes
 *    lower case through the object `rgbToHex`.
 * Arithmetic is on exact reals; `Math.round(x)` is `Floor(x + 0.5)`.
 */
module HslColor {
  import opened HexCodec
  import opened RealArith

  datatype Hsl = Hsl(h: real, s: real, l: real)

  /** Saturation and lightness in [0, 1] and a hue the conversions treat as
      one turn. */
  predicate ValidHsl(c: Hsl) {
    0.0 <= c.h < 360.0 && 0.0 <= c.s <= 1.0 && 0.0 <= c.l <= 1.0
  }

  /** `Math.round`: the nearest integer, halves upward. */
  function Round(x: real): (n: int)
    ensures x - 0.5 < n as real <= x + 0.5
  {
    (x + 0.5).Floor
  }

  /** A channel fraction in [0, 1] scaled to 0..255 and rounded stays a byte. */
  lemma RoundByte(x: real)
    requires 0.0 <= x <= 1.0
    ensures 0 <= Round(x * 255.0) <= 255
  {
  }

  /** JavaScript `x % 360` on numbers: truncating remainder, sign of `x`. */
  function Rem360(x: real): (r: real)
    ensures x >= 0.0 ==> 0.0 <= r < 360.0
    ensures 0.0 <= x < 360.0 ==> r == x
  {
    var q := x / 360.0;
    var t := if q >= 0.0 then q.Floor else -((-q).Floor);
    x - 360.0 * t as real
  }

  function Max3(a: real, b: real, c: real): real {
    if a >= b && a >= c then a else if b >= c then b else c
  }

  function Min3(a: real, b: real, c: real): real {
    if a <= b && a <= c then a else if b <= c then b else c
  }

  // ---------------------------------------------------------------------
  // script.js and accessibility_checker.js

  /** The hue in sextants, before any scaling: the three `switch (max)` arms
      share this shape in all three copies of `hexToHsl`. */
  function Sextant(r: real, g: real, b: real): (x: real)
    requires Max3(r, g, b) > Min3(r, g, b)
    ensures 0.0 <= x < 6.0
  {
    var mx, mn := Max3(r, g, b), Min3(r, g, b);
    var d := mx - mn;
    if mx == r then
      SextantArm(g - b, d);
      (g - b) / d + (if g < b then 6.0 else 0.0)
    else if mx == g then
      SextantArm(b - r, d);
      (b - r) / d + 2.0
    else
      SextantArm(r - g, d);
      (r - g) / d + 4.0
  }

  lemma SextantArm(a: real, d: real)
    requires d > 0.0 && -d <= a <= d
    ensures -1.0 <= a / d <= 1.0
    ensures a < 0.0 ==> a / d < 0.0
    ensures a >= 0.0 ==> a / d >= 0.0
  {
    Quotient(a, d);
  }

  /** Sign and size of a quotient by a positive number. */
  lemma Quotient(a: real, d: real)
    requires d > 0.0
    ensures a < 0.0 ==> a / d < 0.0
    ensures a >= 0.0 ==> a / d >= 0.0
    ensures a > 0.0 ==> a / d > 0.0
    ensures a <= d ==> a / d <= 1.0
    ensures -d <= a ==> -1.0 <= a / d
  {
    var x := a / d;
    assert a == x * d;
    assert d - a == (1.0 - x) * d;
    assert d + a == (1.0 + x) * d;
    if x < 0.0 { MulNegPos(x, d); }
    if x <= 0.0 && a > 0.0 { MulNegPos(x - 1.0, d); }
    if 1.0 - x < 0.0 { MulNegPos(1.0 - x, d); }
    if 1.0 + x < 0.0 { MulNegPos(1.0 + x, d); }
  }

  /** The saturation formula of all three copies. */
  function Saturation(mx: real, mn: real): (s: real)
    requires 0.0 <= mn < mx <= 1.0
    ensures 0.0 < s <= 1.0
  {
    var l := (mx + mn) / 2.0;
    var d := mx - mn;
    if l > 0.5 then
      Quotient(d, 2.0 - mx - mn);
      d / (2.0 - mx - mn)
    else
      Quotient(d, mx + mn);
      d / (mx + mn)
  }

  /** script.js and accessibility_checker.js `hexToHsl`. */
  function HexToHsl(hex: string): (hsl: Hsl)
    ensures ValidHsl(hsl)
    ensures var c := HexToRgb(hex); hsl.s == 0.0 <==> c.r == c.g == c.b
    ensures var c := HexToRgb(hex); c.r == c.g == c.b ==> hsl.h == 0.0 && hsl.l == c.r as real / 255.0
  {
    var c := HexToRgb(hex);
    var r, g, b := c.r as real / 255.0, c.g as real / 255.0, c.b as real / 255.0;
    var mx, mn := Max3(r, g, b), Min3(r, g, b);
    var l := (mx + mn) / 2.0;
    if mx == mn then Hsl(0.0, 0.0, l)
    else Hsl(Sextant(r, g, b) * 60.0, Saturation(mx, mn), l)
  }

  /** The inner `hue2rgb` of script.js and accessibility_checker.js, hue in
      degrees. */
  function Hue2Rgb(p: real, q: real, t: real): real {
    var t := Rem360(t + 360.0);
    if t < 60.0 then p + (q - p) * (t / 60.0)
    else if t < 180.0 then q
    else if t < 240.0 then p + (q - p) * ((240.0 - t) / 60.0)
    else p
  }

  function Q(s: real, l: real): real {
    if l < 0.5 then l * (1.0 + s) else l + s - l * s
  }

  /** `p` and `q` of the HSL algorithm lie in [0, 1] with `p <= q`. */
  lemma PQBounds(s: real, l: real)
    requires 0.0 <= s <= 1.0 && 0.0 <= l <= 1.0
    ensures 0.0 <= 2.0 * l - Q(s, l) <= Q(s, l) <= 1.0
  {
    if l < 0.5 {
      MulNonNeg(l, 1.0 - s);
      MulNonNeg(l, s);
      assert l * (1.0 - s) == l - l * s;
      assert Q(s, l) == l + l * s;
    } else {
      var t := s * (1.0 - l);
      MulNonNeg(1.0 - s, 1.0 - l);
      MulNonNeg(s, 1.0 - l);
      assert (1.0 - s) * (1.0 - l) == (1.0 - l) - t;
      assert Q(s, l) == l + t;
      assert 0.0 <= t <= 1.0 - l;
      assert Q(s, l) <= 1.0;
      assert 0.0 <= 2.0 * l - Q(s, l);
      assert 2.0 * l - Q(s, l) <= Q(s, l);
    }
  }

  lemma Hue2RgbBetween(p: real, q: real, t: real)
    requires 0.0 <= p <= q <= 1.0 && t >= -360.0
    ensures p <= Hue2Rgb(p, q, t) <= q
  {
    var t' := Rem360(t + 360.0);
    if t' < 60.0 {
      Interpolate(p, q, t' / 60.0, Hue2Rgb(p, q, t));
    } else if 180.0 <= t' < 240.0 {
      Interpolate(p, q, (240.0 - t') / 60.0, Hue2Rgb(p, q, t));
    }
  }

  /** A point `v` a fraction `f` of the way from `p` to `q` lies between them. */
  lemma Interpolate(p: real, q: real, f: real, v: real)
    requires p <= q && 0.0 <= f <= 1.0 && v == p + (q - p) * f
    ensures p <= v <= q
  {
    MulNonNeg(q - p, f);
    MulNonNeg(q - p, 1.0 - f);
    assert (q - p) * (1.0 - f) == (q - p) - (q - p) * f;
  }

  /** The three channels of `hslToHex`, scaled and rounded as the source does
      before encoding. */
  function HslToRgb(hsl: Hsl): (c: Rgb)
    ensures ValidHsl(hsl) ==> InGamut(c)
  {
    var (r, g, b) :=
      if hsl.s == 0.0 then (hsl.l, hsl.l, hsl.l)
      else
        var q := Q(hsl.s, hsl.l);
        var p := 2.0 * hsl.l - q;
        (Hue2Rgb(p, q, hsl.h + 120.0), Hue2Rgb(p, q, hsl.h), Hue2Rgb(p, q, hsl.h - 120.0));
    if ValidHsl(hsl) then
      ChannelRange(hsl);
      RoundByte(r);
      RoundByte(g);
      RoundByte(b);
      Rgb(Round(r * 255.0), Round(g * 255.0), Round(b * 255.0))
    else
      Rgb(Round(r * 255.0), Round(g * 255.0), Round(b * 255.0))
  }

  lemma ChannelRange(hsl: Hsl)
    requires ValidHsl(hsl)
    ensures hsl.s != 0.0 ==>
      var q := Q(hsl.s, hsl.l);
      var p := 2.0 * hsl.l - q;
      0.0 <= p <= q <= 1.0 &&
      p <= Hue2Rgb(p, q, hsl.h + 120.0) <= q &&
      p <= Hue2Rgb(p, q, hsl.h) <= q &&
      p <= Hue2Rgb(p, q, hsl.h - 120.0) <= q
  {
    if hsl.s != 0.0 {
      var q := Q(hsl.s, hsl.l);
      var p := 2.0 * hsl.l - q;
      PQBounds(hsl.s, hsl.l);
      Hue2RgbBetween(p, q, hsl.h + 120.0);
      Hue2RgbBetween(p, q, hsl.h);
      Hue2RgbBetween(p, q, hsl.h - 120.0);
    }
  }

  /** script.js and accessibility_checker.js `hslToHex`: for a valid HSL the
      result is the upper-case `rgbToHex` of the rounded channels, a valid
      `#RRGGBB` decoding to them; a saturation of 0 gives a grey of
      `round(l * 255)`. */
  function HslToHex(hsl: Hsl): (hex: string)
    ensures ValidHsl(hsl) ==> IsValidHex(hex) && HexToRgb(hex) == HslToRgb(hsl)
    ensures ValidHsl(hsl) ==> hex == RgbObjectToHex(HslToRgb(hsl))
    ensures hsl.s == 0.0 && 0.0 <= hsl.l <= 1.0 ==>
      var v := Round(hsl.l * 255.0); IsValidHex(hex) && HexToRgb(hex) == Rgb(v, v, v)
  {
    hide HslToRgb, EncodeRgb, HexToRgb;
    var c := HslToRgb(hsl);
    GreyToRgb(hsl.h, hsl.l);
    if InGamut(c) then
      EncodeInGamut(c);
      EncodeRgb(c)
    else
      EncodeRgb(c)
  }

  /** Saturation 0 gives the grey of the rounded lightness, whatever the hue. */
  lemma GreyToRgb(h: real, l: real)
    ensures var v := Round(l * 255.0); HslToRgb(Hsl(h, 0.0, l)) == Rgb(v, v, v)
    ensures 0.0 <= l <= 1.0 ==> InGamut(HslToRgb(Hsl(h, 0.0, l)))
  {
    if 0.0 <= l <= 1.0 {
      RoundByte(l);
    }
  }

  /** Every colour survives `hslToRgb(hexToHsl(hex))`: `hexToHsl` keeps the
      channel fractions exactly, and rounding `v / 255 * 255` gives `v` back. */
  lemma HslRoundTrip(hex: string)
    ensures HslToRgb(HexToHsl(hex)) == HexToRgb(hex)
  {
    hide Saturation, Sextant, Hue2Rgb, Q;
    var c := HexToRgb(hex);
    var r, g, b := c.r as real / 255.0, c.g as real / 255.0, c.b as real / 255.0;
    var mx, mn := Max3(r, g, b), Min3(r, g, b);
    var hsl := HexToHsl(hex);
    ByteFraction(c.r);
    ByteFraction(c.g);
    ByteFraction(c.b);
    if mx != mn {
      assert hsl == Hsl(Sextant(r, g, b) * 60.0, Saturation(mx, mn), (mx + mn) / 2.0);
      QOfSaturation(mx, mn);
      SextantChannels(r, g, b);
    }
  }

  /** `hslToHex(hexToHsl(hex))` is the upper-case encoding of the colour
      `hex` decodes to; a valid `hex` comes back as `#` plus its digits in
      upper case. */
  lemma HexHslRoundTrip(hex: string)
    ensures HslToHex(HexToHsl(hex)) == RgbObjectToHex(HexToRgb(hex))
    ensures IsValidHex(hex) ==> HslToHex(HexToHsl(hex)) == "#" + Upper(StripHash(hex))
  {
    hide HexToRgb, HexToHsl, HslToRgb, EncodeRgb, RgbObjectToHex, Upper, StripHash;
    HslRoundTrip(hex);
    EncodeInGamut(HexToRgb(hex));
    if IsValidHex(hex) {
      EncodeDecode(hex);
    }
  }

  /** A byte as a channel fraction scales back to itself. */
  lemma ByteFraction(v: int)
    ensures Round((v as real / 255.0) * 255.0) == v
  {
    assert (v as real / 255.0) * 255.0 == v as real;
  }

  /** `x % 360` for an `x` lying `k` whole turns up. */
  lemma Rem360Turns(x: real, k: int)
    requires 0 <= k && 360.0 * k as real <= x < 360.0 * (k + 1) as real
    ensures Rem360(x) == x - 360.0 * k as real
  {
    var q := x / 360.0;
    assert 360.0 * q == x;
    assert k as real <= q < (k + 1) as real;
    assert q.Floor == k;
    assert Rem360(x) == x - 360.0 * q.Floor as real;
  }

  /** `q` and `p` of `hslToHex`, computed from the saturation and lightness
      `hexToHsl` derives from a maximum and a minimum channel, are that maximum
      and that minimum, whichever branch of each formula is taken. */
  lemma QOfSaturation(mx: real, mn: real)
    requires 0.0 <= mn < mx <= 1.0
    ensures var q := Q(Saturation(mx, mn), (mx + mn) / 2.0); q == mx && 2.0 * ((mx + mn) / 2.0) - q == mn
  {
    var l := (mx + mn) / 2.0;
    var d := mx - mn;
    var s := Saturation(mx, mn);
    if l > 0.5 {
      assert s * (2.0 - mx - mn) == d;
      assert Q(s, l) == l + s * (1.0 - l);
      assert s * (1.0 - l) == s * (2.0 - mx - mn) / 2.0;
    } else {
      assert s * (mx + mn) == d;
      assert l * s == s * (mx + mn) / 2.0;
      if l == 0.5 {
        assert Q(s, l) == l + s - l * s;
      }
    }
  }

  /** The channels of a hue `h` that `hexToHsl` gives, as `hslToHex` reads
      them back: `hue2rgb` at h + 120, h and h - 120 with `p` the smallest
      and `q` the largest channel. */
  predicate ChannelsRecovered(r: real, g: real, b: real)
    requires Max3(r, g, b) > Min3(r, g, b)
  {
    var mx, mn, h := Max3(r, g, b), Min3(r, g, b), Sextant(r, g, b) * 60.0;
    Hue2Rgb(mn, mx, h + 120.0) == r && Hue2Rgb(mn, mx, h) == g && Hue2Rgb(mn, mx, h - 120.0) == b
  }

  /** Every chromatic colour lies in one of the six sextants, and in each the
      channels are recovered. */
  lemma SextantChannels(r: real, g: real, b: real)
    requires Max3(r, g, b) > Min3(r, g, b)
    ensures ChannelsRecovered(r, g, b)
  {
    hide ChannelsRecovered, Sextant, Hue2Rgb;
    var mx := Max3(r, g, b);
    if mx == r && g >= b {
      RedToYellow(r, g, b);
    } else if mx == r {
      MagentaToRed(r, g, b);
    } else if mx == g && b < r {
      YellowToGreen(r, g, b);
    } else if mx == g {
      GreenToCyan(r, g, b);
    } else if r < g {
      CyanToBlue(r, g, b);
    } else {
      BlueToMagenta(r, g, b);
    }
  }

  /** Hues 0 to 60 (red towards yellow): red largest, blue smallest. */
  lemma RedToYellow(r: real, g: real, b: real)
    requires r == Max3(r, g, b) > Min3(r, g, b) && g >= b
    ensures ChannelsRecovered(r, g, b)
  {
    hide Rem360;
    var d := r - b;
    var h := Sextant(r, g, b) * 60.0;
    var a := (g - b) / d;
    assert a * d == g - b;
    SextantArm(g - b, d);
    assert Min3(r, g, b) == b && Sextant(r, g, b) == a;
    Rem360Turns(h + 120.0 + 360.0, 1);
    Rem360Turns(h + 360.0, 1);
    Rem360Turns(h - 120.0 + 360.0, 0);
    assert d * (h / 60.0) == g - b;
  }

  /** Hues 300 to 360 (magenta towards red): red largest, green smallest. */
  lemma MagentaToRed(r: real, g: real, b: real)
    requires r == Max3(r, g, b) > Min3(r, g, b) && g < b
    ensures ChannelsRecovered(r, g, b)
  {
    hide Rem360;
    var d := r - g;
    var h := Sextant(r, g, b) * 60.0;
    var a := (g - b) / d;
    assert a * d == g - b;
    SextantArm(g - b, d);
    assert Min3(r, g, b) == g && Sextant(r, g, b) == a + 6.0;
    Rem360Turns(h + 120.0 + 360.0, 2);
    Rem360Turns(h + 360.0, 1);
    Rem360Turns(h - 120.0 + 360.0, 1);
    assert d * ((240.0 - (h - 120.0)) / 60.0) == b - g;
  }

  /** Hues 60 to 120 (yellow towards green): green largest, blue smallest. */
  lemma YellowToGreen(r: real, g: real, b: real)
    requires g == Max3(r, g, b) > Min3(r, g, b) && r != g && b < r
    ensures ChannelsRecovered(r, g, b)
  {
    hide Rem360;
    var d := g - b;
    var h := Sextant(r, g, b) * 60.0;
    var a := (b - r) / d;
    assert a * d == b - r;
    SextantArm(b - r, d);
    assert Min3(r, g, b) == b && Sextant(r, g, b) == a + 2.0;
    Rem360Turns(h + 120.0 + 360.0, 1);
    Rem360Turns(h + 360.0, 1);
    Rem360Turns(h - 120.0 + 360.0, 0);
    assert d * ((240.0 - (h + 120.0)) / 60.0) == r - b;
  }

  /** Hues 120 to 180 (green towards cyan): green largest, red smallest. */
  lemma GreenToCyan(r: real, g: real, b: real)
    requires g == Max3(r, g, b) > Min3(r, g, b) && r != g && b >= r
    ensures ChannelsRecovered(r, g, b)
  {
    hide Rem360;
    var d := g - r;
    var h := Sextant(r, g, b) * 60.0;
    var a := (b - r) / d;
    assert a * d == b - r;
    SextantArm(b - r, d);
    assert Min3(r, g, b) == r && Sextant(r, g, b) == a + 2.0;
    Rem360Turns(h + 120.0 + 360.0, 1);
    Rem360Turns(h + 360.0, 1);
    Rem360Turns(h - 120.0 + 360.0, 1);
    assert d * ((h - 120.0) / 60.0) == b - r;
  }

  /** Hues 180 to 240 (cyan towards blue): blue largest, red smallest. */
  lemma CyanToBlue(r: real, g: real, b: real)
    requires b == Max3(r, g, b) > Min3(r, g, b) && r != b && g != b && r < g
    ensures ChannelsRecovered(r, g, b)
  {
    hide Rem360;
    var d := b - r;
    var h := Sextant(r, g, b) * 60.0;
    var a := (r - g) / d;
    assert a * d == r - g;
    SextantArm(r - g, d);
    assert Min3(r, g, b) == r && Sextant(r, g, b) == a + 4.0;
    Rem360Turns(h + 120.0 + 360.0, 1);
    Rem360Turns(h + 360.0, 1);
    Rem360Turns(h - 120.0 + 360.0, 1);
    assert d * ((240.0 - h) / 60.0) == g - r;
  }

  /** Hues 240 to 300 (blue towards magenta): blue largest, green smallest. */
  lemma BlueToMagenta(r: real, g: real, b: real)
    requires b == Max3(r, g, b) > Min3(r, g, b) && r != b && g != b && r >= g
    ensures ChannelsRecovered(r, g, b)
  {
    hide Rem360;
    var d := b - g;
    var h := Sextant(r, g, b) * 60.0;
    var a := (r - g) / d;
    assert a * d == r - g;
    SextantArm(r - g, d);
    assert Min3(r, g, b) == g && Sextant(r, g, b) == a + 4.0;
    if a >= 1.0 {
      MulNonNeg(a - 1.0, d);
    }
    Rem360Turns(h + 120.0 + 360.0, 2);
    Rem360Turns(h + 360.0, 1);
    Rem360Turns(h - 120.0 + 360.0, 1);
    assert d * ((h - 240.0) / 60.0) == r - g;
  }

  /** Pure red is hue 0, full saturation, half lightness. */
  lemma RedToHsl()
    ensures HexToHsl("#FF0000") == Hsl(0.0, 1.0, 0.5)
  {
    hide HexToRgb;
    var hex := "#FF0000";
    assert IsValidHex(hex);
    HexToRgbOfValid(hex);
    assert HexToRgb(hex) == Rgb(255, 0, 0);
  }

  /** Rotating pure red by 180 degrees, as `generateComplementary` does, gives cyan. */
  lemma ComplementOfRed()
    ensures HslToHex(Hsl(Rem360(HexToHsl("#FF0000").h + 180.0), 1.0, 0.5)) == "#00FFFF"
  {
    hide HexToHsl, HslToRgb, EncodeRgb, RgbObjectToHex;
    RedToHsl();
    assert Rem360(0.0 + 180.0) == 180.0;
    CyanChannels();
    var c := Rgb(0, 255, 255);
    EncodeInGamut(c);
    assert HslToHex(Hsl(180.0, 1.0, 0.5)) == EncodeRgb(c);
    CyanHex();
  }

  lemma CyanHex()
    ensures RgbObjectToHex(Rgb(0, 255, 255)) == "#00FFFF"
  {
    UpperDigits(Rgb(0, 255, 255));
  }

  /** Hue 180 at full saturation and half lightness is cyan. */
  lemma CyanChannels()
    ensures HslToRgb(Hsl(180.0, 1.0, 0.5)) == Rgb(0, 255, 255)
  {
    assert Q(1.0, 0.5) == 1.0;
    assert Rem360(300.0 + 360.0) == 300.0;
    assert Rem360(180.0 + 360.0) == 180.0;
    assert Rem360(60.0 + 360.0) == 60.0;
  }

  // ---------------------------------------------------------------------
  // scripts/accessibility_checker.js

  /** scripts/accessibility_checker.js `hexToHsl`: the sextant over 6 as a
      fraction of a turn, then `Math.round(h * 360)` whole degrees. */
  function HexToHslRounded(hex: string): (hsl: Hsl)
    ensures 0.0 <= hsl.h <= 360.0 && hsl.h == hsl.h.Floor as real
    ensures 0.0 <= hsl.s <= 1.0 && 0.0 <= hsl.l <= 1.0
    ensures var c := HexToRgbSliced(hex); hsl.s == 0.0 <==> c.r == c.g == c.b
    ensures var c := HexToRgbSliced(hex); c.r == c.g == c.b ==> hsl.h == 0.0 && hsl.l == c.r as real / 255.0
  {
    hide HexToRgbSliced, Sextant, Saturation, Round;
    var c := HexToRgbSliced(hex);
    var r, g, b := c.r as real / 255.0, c.g as real / 255.0, c.b as real / 255.0;
    var mx, mn := Max3(r, g, b), Min3(r, g, b);
    var l := (mx + mn) / 2.0;
    if mx == mn then
      RoundedHue(0.0);
      Hsl(Round(0.0 * 360.0) as real, 0.0, l)
    else
      var h := Sextant(r, g, b) / 6.0;
      RoundedHue(h);
      Hsl(Round(h * 360.0) as real, Saturation(mx, mn), l)
  }

  /** A hue fraction in [0, 1) rounds to whole degrees in [0, 360]. */
  lemma RoundedHue(h: real)
    requires 0.0 <= h < 1.0
    ensures 0 <= Round(h * 360.0) <= 360
    ensures h == 0.0 ==> Round(h * 360.0) == 0
  {
  }

  /** The inner `hue2rgb` of scripts/accessibility_checker.js, hue as a
      fraction of a turn. */
  function Hue2RgbFraction(p: real, q: real, t: real): real {
    var t := if t < 0.0 then t + 1.0 else t;
    var t := if t > 1.0 then t - 1.0 else t;
    if t < 1.0 / 6.0 then p + (q - p) * 6.0 * t
    else if t < 1.0 / 2.0 then q
    else if t < 2.0 / 3.0 then p + (q - p) * (2.0 / 3.0 - t) * 6.0
    else p
  }

  lemma Hue2RgbFractionBetween(p: real, q: real, t: real)
    requires 0.0 <= p <= q <= 1.0 && -1.0 / 3.0 <= t <= 4.0 / 3.0
    ensures p <= Hue2RgbFraction(p, q, t) <= q
  {
    var t1 := if t < 0.0 then t + 1.0 else t;
    var t2 := if t1 > 1.0 then t1 - 1.0 else t1;
    assert 0.0 <= t2 <= 1.0;
    if t2 < 1.0 / 6.0 {
      assert (q - p) * 6.0 * t2 == (q - p) * (6.0 * t2);
      Interpolate(p, q, 6.0 * t2, Hue2RgbFraction(p, q, t));
    } else if 1.0 / 2.0 <= t2 < 2.0 / 3.0 {
      assert (q - p) * (2.0 / 3.0 - t2) * 6.0 == (q - p) * ((2.0 / 3.0 - t2) * 6.0);
      Interpolate(p, q, (2.0 / 3.0 - t2) * 6.0, Hue2RgbFraction(p, q, t));
    }
  }

  function HslToRgbFraction(hsl: Hsl): (c: Rgb)
    ensures 0.0 <= hsl.h <= 360.0 && 0.0 <= hsl.s <= 1.0 && 0.0 <= hsl.l <= 1.0 ==> InGamut(c)
  {
    var (r, g, b) :=
      if hsl.s == 0.0 then (hsl.l, hsl.l, hsl.l)
      else
        var q := Q(hsl.s, hsl.l);
        var p := 2.0 * hsl.l - q;
        (Hue2RgbFraction(p, q, hsl.h / 360.0 + 1.0 / 3.0),
         Hue2RgbFraction(p, q, hsl.h / 360.0),
         Hue2RgbFraction(p, q, hsl.h / 360.0 - 1.0 / 3.0));
    if 0.0 <= hsl.h <= 360.0 && 0.0 <= hsl.s <= 1.0 && 0.0 <= hsl.l <= 1.0 then
      FractionChannelRange(hsl);
      RoundByte(r);
      RoundByte(g);
      RoundByte(b);
      Rgb(Round(r * 255.0), Round(g * 255.0), Round(b * 255.0))
    else
      Rgb(Round(r * 255.0), Round(g * 255.0), Round(b * 255.0))
  }

  lemma FractionChannelRange(hsl: Hsl)
    requires 0.0 <= hsl.h <= 360.0 && 0.0 <= hsl.s <= 1.0 && 0.0 <= hsl.l <= 1.0
    ensures hsl.s != 0.0 ==>
      var q := Q(hsl.s, hsl.l);
      var p := 2.0 * hsl.l - q;
      0.0 <= p <= q <= 1.0 &&
      p <= Hue2RgbFraction(p, q, hsl.h / 360.0 + 1.0 / 3.0) <= q &&
      p <= Hue2RgbFraction(p, q, hsl.h / 360.0) <= q &&
      p <= Hue2RgbFraction(p, q, hsl.h / 360.0 - 1.0 / 3.0) <= q
  {
    if hsl.s != 0.0 {
      PQBounds(hsl.s, hsl.l);
      var q := Q(hsl.s, hsl.l);
      var p := 2.0 * hsl.l - q;
      Hue2RgbFractionBetween(p, q, hsl.h / 360.0 + 1.0 / 3.0);
      Hue2RgbFractionBetween(p, q, hsl.h / 360.0);
      Hue2RgbFractionBetween(p, q, hsl.h / 360.0 - 1.0 / 3.0);
    }
  }

  /** scripts/accessibility_checker.js `hslToHex`: lower case; in range it
      decodes to the rounded channels, and saturation 0 gives a grey of
      `round(l * 255)`. */
  function HslToHexFraction(hsl: Hsl): (hex: string)
    ensures 0.0 <= hsl.h <= 360.0 && 0.0 <= hsl.s <= 1.0 && 0.0 <= hsl.l <= 1.0 ==>
      |hex| == 7 && hex[0] == '#' && AllLowerHex(hex[1..]) && HexToRgbSliced(hex) == HslToRgbFraction(hsl)
    ensures hsl.s == 0.0 && 0.0 <= hsl.l <= 1.0 ==>
      var v := Round(hsl.l * 255.0); HexToRgbSliced(hex) == Rgb(v, v, v)
  {
    hide HslToRgbFraction, RgbToHexLower, HexToRgbSliced;
    var c := HslToRgbFraction(hsl);
    GreyFraction(hsl.h, hsl.l);
    if InGamut(c) then
      LowerHexShape(c);
      DecodeEncode(c);
      RgbToHexLower(c)
    else
      RgbToHexLower(c)
  }

  /** scripts/accessibility_checker.js `suggestAccessibleColor(bgColor)`: the
      background's hue and saturation with lightness 0.2 on a light background
      (l > 0.5) and 0.8 otherwise; the text colour plays no part. */
  function SuggestFixedLightness(bg: string): (hex: string)
    ensures |hex| == 7 && hex[0] == '#' && AllLowerHex(hex[1..])
    ensures var b := HexToHslRounded(bg); var t := HslToRgbFraction(Hsl(b.h, b.s, if b.l > 0.5 then 0.2 else 0.8));
      HexToRgbSliced(hex) == t
  {
    var b := HexToHslRounded(bg);
    HslToHexFraction(Hsl(b.h, b.s, if b.l > 0.5 then 0.2 else 0.8))
  }

  /** Saturation 0 gives the grey of the rounded lightness, whatever the hue. */
  lemma GreyFraction(h: real, l: real)
    ensures var v := Round(l * 255.0); HslToRgbFraction(Hsl(h, 0.0, l)) == Rgb(v, v, v)
    ensures 0.0 <= l <= 1.0 ==> InGamut(HslToRgbFraction(Hsl(h, 0.0, l)))
  {
    if 0.0 <= l <= 1.0 {
      RoundByte(l);
    }
  }

  lemma GreyHexes()
    ensures RgbToHexLower(Rgb(51, 51, 51)) == "#333333"
    ensures RgbToHexLower(Rgb(204, 204, 204)) == "#cccccc"
  {
    LowerDigits(Rgb(51, 51, 51));
    LowerDigits(Rgb(204, 204, 204));
  }

  /** On a grey background the fixed-lightness suggestion is `#333333` for a
      light background and `#cccccc` for a dark one. */
  lemma SuggestFixedOnGrey(bg: string)
    requires var c := HexToRgbSliced(bg); c.r == c.g == c.b
    ensures var c := HexToRgbSliced(bg);
      SuggestFixedLightness(bg) == if c.r as real / 255.0 > 0.5 then "#333333" else "#cccccc"
  {
    var b := HexToHslRounded(bg);
    var l := if b.l > 0.5 then 0.2 else 0.8;
    GreyFraction(b.h, l);
    assert Round(l * 255.0) == if b.l > 0.5 then 51 else 204;
    GreyHexes();
  }
}
