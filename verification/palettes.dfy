/**
 * Palette assembly, as in script.js, scripts/index.js and scripts/palette.js.
 *
 * `generateMonochromatic` is the eight-step brightness ladder. The harmony
 * generators turn the hue of the base colour, push the turned colours into a
 * list, append chosen shades of chosen members and keep the first eight.
 * script.js converts with its own `hexToHsl`/`hslToHex`; scripts/index.js and
 * scripts/palette.js with the `tinycolor` library. Both conversions are the
 * parameters `toHsl` and `fromHsl` here, and the script.js pair is
 * `HslColor.HexToHsl` and `HslColor.HslToHex`.
 */
module Palettes {
  import opened HexCodec
  import opened Brightness
  import opened HslColor
  import opened RandomPalette
  import opened Seqs

  // ---------------------------------------------------------------------
  // The monochromatic ladder

  /** The eight colours `generateMonochromatic` produces, darkest first. */
  function Monochromatic(hex: string): seq<string> {
    seq(8, k requires 0 <= k < 8 => Shade(hex, k))
  }

  /** `generateMonochromatic(hex)` (script.js, scripts/index.js and
      scripts/palette.js): the loop `i = -4 .. 3` pushes
      `adjustBrightness(hex, i * 25)` and `slice(0, 8)` keeps all of them. */
  method GenerateMonochromatic(hex: string) returns (colors: seq<string>)
    ensures colors == Monochromatic(hex)
    ensures |colors| == 8 && forall k :: 0 <= k < 8 ==> colors[k] == AdjustBrightness(hex, (k - 4) * 25)
  {
    hide AdjustBrightness, Shade, Monochromatic;
    MonochromaticEntries(hex);
    colors := [];
    var i := -4;
    while i <= 3
      invariant -4 <= i <= 4
      invariant colors == Monochromatic(hex)[..i + 4]
    {
      var adjustedColor := AdjustBrightness(hex, i * 25);
      PrefixStep(Monochromatic(hex), i + 4);
      colors := colors + [adjustedColor];
      i := i + 1;
    }
    PrefixAll(Monochromatic(hex));
    colors := colors[..8];
  }

  lemma MonochromaticEntries(hex: string)
    ensures var ladder := Monochromatic(hex);
      |ladder| == 8 && forall k :: 0 <= k < 8 ==> ladder[k] == AdjustBrightness(hex, (k - 4) * 25)
  {
    hide AdjustBrightness;
  }

  /** Every rung of the ladder is a valid `#RRGGBB` holding the clamped
      channels of its delta, every channel is non-decreasing from rung to
      rung, and the rungs before rung 4 are no lighter than the base colour,
      which rung 4 reproduces. */
  lemma MonochromaticLadder(hex: string)
    ensures var ladder := Monochromatic(hex);
      |ladder| == 8 &&
      (forall k :: 0 <= k < 8 ==>
        IsValidHex(ladder[k]) && HexToRgb(ladder[k]) == Adjusted(HexToRgb(hex), (k - 4) * 25))
    ensures var ladder := Monochromatic(hex);
      forall j, k :: 0 <= j <= k < 8 ==>
        var a, b := HexToRgb(ladder[j]), HexToRgb(ladder[k]);
        a.r <= b.r && a.g <= b.g && a.b <= b.b
    ensures var ladder, c := Monochromatic(hex), HexToRgb(hex);
      HexToRgb(ladder[4]) == c &&
      forall k :: 0 <= k < 4 ==>
        var a := HexToRgb(ladder[k]);
        a.r <= c.r && a.g <= c.g && a.b <= c.b
  {
    hide AdjustBrightness, HexToRgb;
    var ladder := Monochromatic(hex);
    forall j, k | 0 <= j <= k < 8
      ensures var a, b := HexToRgb(ladder[j]), HexToRgb(ladder[k]);
        a.r <= b.r && a.g <= b.g && a.b <= b.b
    {
      ShadeMonotone(hex, j, k);
    }
  }

  /** The slices of the ladder the harmony generators take. */
  lemma LadderSlices(hex: string)
    ensures var ladder := Monochromatic(hex);
      |ladder| == 8 && ladder[1] == Shade(hex, 1) &&
      ladder[1..3] == [Shade(hex, 1), Shade(hex, 2)] &&
      ladder[1..4] == [Shade(hex, 1), Shade(hex, 2), Shade(hex, 3)]
  {
    hide Shade;
  }

  // ---------------------------------------------------------------------
  // Hue turns and the harmony layouts

  /** `{ h: (hsl.h + deg) % 360, s: hsl.s, l: hsl.l }`. */
  function Rotate(hsl: Hsl, deg: real): (turned: Hsl)
    ensures turned.s == hsl.s && turned.l == hsl.l
    ensures hsl.h + deg >= 0.0 ==> 0.0 <= turned.h < 360.0
    ensures 0.0 <= hsl.h + deg < 360.0 ==> turned.h == hsl.h + deg
  {
    Hsl(Rem360(hsl.h + deg), hsl.s, hsl.l)
  }

  /** The base colour with its hue turned by `deg` degrees. */
  function Turned(toHsl: string -> Hsl, fromHsl: Hsl -> string, hex: string, deg: real): string {
    fromHsl(Rotate(toHsl(hex), deg))
  }

  /** `keep` entries of a list, as `slice(0, keep)` does: fewer when the list
      is shorter. */
  function Slice(s: seq<string>, keep: nat): (r: seq<string>)
    ensures |r| == if |s| < keep then |s| else keep
    ensures forall k :: 0 <= k < |r| ==> r[k] == s[k]
    ensures |s| <= keep ==> r == s
  {
    if |s| <= keep then s else s[..keep]
  }

  /** Three key colours, shades 1 and 2 of the first two and shade 1 of the
      third: the layout of the analogous, split-complementary and triadic
      palettes. */
  function ThreeHueLayout(c0: string, c1: string, c2: string): seq<string> {
    [c0, c1, c2, Shade(c0, 1), Shade(c0, 2), Shade(c1, 1), Shade(c1, 2), Shade(c2, 1)]
  }

  function Analogous(toHsl: string -> Hsl, fromHsl: Hsl -> string, hex: string): seq<string> {
    ThreeHueLayout(Turned(toHsl, fromHsl, hex, 330.0), Turned(toHsl, fromHsl, hex, 360.0),
                   Turned(toHsl, fromHsl, hex, 390.0))
  }

  /** The seven entries of the script.js and scripts/index.js complementary
      palette: the base, its complement, shades 1 and 2 of the base and shades
      1 to 3 of the complement. */
  function Complementary(toHsl: string -> Hsl, fromHsl: Hsl -> string, hex: string): seq<string> {
    var c := Turned(toHsl, fromHsl, hex, 180.0);
    [hex, c, Shade(hex, 1), Shade(hex, 2), Shade(c, 1), Shade(c, 2), Shade(c, 3)]
  }

  function SplitComplementary(toHsl: string -> Hsl, fromHsl: Hsl -> string, hex: string): seq<string> {
    ThreeHueLayout(hex, Turned(toHsl, fromHsl, hex, 150.0), Turned(toHsl, fromHsl, hex, 210.0))
  }

  function Triadic(toHsl: string -> Hsl, fromHsl: Hsl -> string, hex: string): seq<string> {
    ThreeHueLayout(Turned(toHsl, fromHsl, hex, 0.0), Turned(toHsl, fromHsl, hex, 120.0),
                   Turned(toHsl, fromHsl, hex, 240.0))
  }

  /** The four key colours and shades 1 and 2 of the first two; the shade of
      the third is cut off by `slice(0, 8)`. */
  function Tetradic(toHsl: string -> Hsl, fromHsl: Hsl -> string, hex: string): seq<string> {
    var c0, c1 := Turned(toHsl, fromHsl, hex, 0.0), Turned(toHsl, fromHsl, hex, 90.0);
    var c2, c3 := Turned(toHsl, fromHsl, hex, 180.0), Turned(toHsl, fromHsl, hex, 270.0);
    [c0, c1, c2, c3, Shade(c0, 1), Shade(c0, 2), Shade(c1, 1), Shade(c1, 2)]
  }

  /** The three-hue layout is the key colours followed by the shades
      `concat` and `push` append. */
  lemma AppendShades(s: seq<string>, c0: string, c1: string, c2: string)
    requires s == [c0, c1, c2]
    ensures s + [Shade(c0, 1), Shade(c0, 2)] + [Shade(c1, 1), Shade(c1, 2)] + [Shade(c2, 1)] ==
      ThreeHueLayout(c0, c1, c2)
  {
    hide Shade;
    Cat3221(c0, c1, c2, Shade(c0, 1), Shade(c0, 2), Shade(c1, 1), Shade(c1, 2), Shade(c2, 1));
  }

  /** The tetradic nine-entry list, whose first eight are the layout. */
  lemma AppendFourShades(s: seq<string>, c0: string, c1: string, c2: string, c3: string)
    requires s == [c0, c1, c2, c3]
    ensures var built := s + [Shade(c0, 1), Shade(c0, 2)] + [Shade(c1, 1), Shade(c1, 2)] + [Shade(c2, 1)];
      |built| == 9 && built[..8] == [c0, c1, c2, c3, Shade(c0, 1), Shade(c0, 2), Shade(c1, 1), Shade(c1, 2)]
  {
    hide Shade;
    Cat4221(c0, c1, c2, c3, Shade(c0, 1), Shade(c0, 2), Shade(c1, 1), Shade(c1, 2), Shade(c2, 1));
  }

  /** `generateAnalogous(hex)`: hues `(h + i * 30 + 360) % 360` for
      `i = -1 .. 1`, then two shades of the first two and one of the third. */
  method GenerateAnalogous(toHsl: string -> Hsl, fromHsl: Hsl -> string, hex: string)
    returns (colors: seq<string>)
    ensures colors == Analogous(toHsl, fromHsl, hex) && |colors| == 8
  {
    hide Shade, Rem360, Monochromatic, Slice, AdjustBrightness;
    colors := [];
    var hsl := toHsl(hex);
    var i := -1;
    while i <= 1
      invariant -1 <= i <= 2 && |colors| == i + 1
      invariant forall k :: 0 <= k < |colors| ==> colors[k] == Turned(toHsl, fromHsl, hex, (30 * k + 330) as real)
    {
      var newHue := Rem360(hsl.h + (i * 30) as real + 360.0);
      colors := colors + [fromHsl(Hsl(newHue, hsl.s, hsl.l))];
      i := i + 1;
    }
    var c0, c1, c2 := colors[0], colors[1], colors[2];
    Elements3(colors);
    AppendShades(colors, c0, c1, c2);
    var shades0 := GenerateMonochromatic(colors[0]);
    LadderSlices(c0);
    colors := colors + shades0[1..3];
    var shades1 := GenerateMonochromatic(colors[1]);
    LadderSlices(c1);
    colors := colors + shades1[1..3];
    var shades2 := GenerateMonochromatic(colors[2]);
    LadderSlices(c2);
    colors := colors + [shades2[1]];
    colors := Slice(colors, 8);
  }

  /** script.js and scripts/index.js `generateComplementary(hex)`: the base
      and its complement (hue `+ 180`), shades 1-2 of the base and 1-3 of the
      complement. Only seven colours: `slice(0, 8)` has nothing to cut. */
  method GenerateComplementary(toHsl: string -> Hsl, fromHsl: Hsl -> string, hex: string)
    returns (colors: seq<string>)
    ensures colors == Complementary(toHsl, fromHsl, hex) && |colors| == 7
  {
    hide Shade, Rem360, Monochromatic, Slice, AdjustBrightness;
    var hsl := toHsl(hex);
    var complementHue := Rem360(hsl.h + 180.0);
    var complementColor := fromHsl(Hsl(complementHue, hsl.s, hsl.l));
    assert complementColor == Turned(toHsl, fromHsl, hex, 180.0);
    colors := [hex, complementColor];
    var shades := GenerateMonochromatic(hex);
    LadderSlices(hex);
    colors := colors + shades[1..3];
    var complementShades := GenerateMonochromatic(complementColor);
    LadderSlices(complementColor);
    colors := colors + complementShades[1..4];
    Cat223(hex, complementColor, Shade(hex, 1), Shade(hex, 2),
      Shade(complementColor, 1), Shade(complementColor, 2), Shade(complementColor, 3));
    colors := Slice(colors, 8);
  }

  /** The colour `generateComplementary` pads with is rung 2 of the ladder. */
  lemma ExtraShade(hex: string)
    ensures AdjustBrightness(hex, -50) == Shade(hex, 2)
  {
  }

  lemma ComplementaryEntries(toHsl: string -> Hsl, fromHsl: Hsl -> string, hex: string)
    ensures var p := Complementary(toHsl, fromHsl, hex); p[0] == hex && p[3] == Shade(hex, 2)
  {
    hide Shade;
  }

  /** scripts/palette.js `generateComplementary(hex)`: the same seven colours,
      built by the same statements as the script.js copy, followed, because seven is fewer than eight, by `adjustBrightness(hex,
      -50)`. That extra entry is shade 2 of the base again, so the palette
      always repeats its fourth colour in eighth place. */
  method GenerateComplementaryPadded(toHsl: string -> Hsl, fromHsl: Hsl -> string, hex: string)
    returns (colors: seq<string>)
    ensures colors == Complementary(toHsl, fromHsl, hex) + [AdjustBrightness(hex, -50)]
    ensures |colors| == 8 && colors[0] == hex && colors[7] == colors[3]
  {
    hide AdjustBrightness, Shade, Complementary, Slice;
    colors := GenerateComplementary(toHsl, fromHsl, hex);
    ExtraShade(hex);
    ComplementaryEntries(toHsl, fromHsl, hex);
    if |colors| < 8 {
      colors := colors + [AdjustBrightness(hex, -50)];
    }
    colors := Slice(colors, 8);
  }

  /** `generateSplitComplementary(hex)`: the base unchanged, the hues
      `+ 150` and `+ 210`, then the three-hue shades. */
  method GenerateSplitComplementary(toHsl: string -> Hsl, fromHsl: Hsl -> string, hex: string)
    returns (colors: seq<string>)
    ensures colors == SplitComplementary(toHsl, fromHsl, hex) && |colors| == 8 && colors[0] == hex
  {
    hide Shade, Rem360, Monochromatic, Slice, AdjustBrightness;
    var hsl := toHsl(hex);
    var hue1 := Rem360(hsl.h + 150.0);
    var hue2 := Rem360(hsl.h + 210.0);
    var color1 := fromHsl(Hsl(hue1, hsl.s, hsl.l));
    var color2 := fromHsl(Hsl(hue2, hsl.s, hsl.l));
    assert color1 == Turned(toHsl, fromHsl, hex, 150.0);
    assert color2 == Turned(toHsl, fromHsl, hex, 210.0);
    colors := [hex, color1, color2];
    AppendShades(colors, hex, color1, color2);
    var shades := GenerateMonochromatic(hex);
    LadderSlices(hex);
    colors := colors + shades[1..3];
    var shades1 := GenerateMonochromatic(color1);
    LadderSlices(color1);
    colors := colors + shades1[1..3];
    var shades2 := GenerateMonochromatic(color2);
    LadderSlices(color2);
    colors := colors + [shades2[1]];
    colors := Slice(colors, 8);
  }

  /** `generateTriadic(hex)`: hues `(h + i * 120) % 360` for `i = 0 .. 2`,
      then the three-hue shades. */
  method GenerateTriadic(toHsl: string -> Hsl, fromHsl: Hsl -> string, hex: string)
    returns (colors: seq<string>)
    ensures colors == Triadic(toHsl, fromHsl, hex) && |colors| == 8
  {
    hide Shade, Rem360, Monochromatic, Slice, AdjustBrightness;
    colors := [];
    var hsl := toHsl(hex);
    var i := 0;
    while i < 3
      invariant 0 <= i <= 3 && |colors| == i
      invariant forall k :: 0 <= k < |colors| ==> colors[k] == Turned(toHsl, fromHsl, hex, (120 * k) as real)
    {
      var newHue := Rem360(hsl.h + (i * 120) as real);
      colors := colors + [fromHsl(Hsl(newHue, hsl.s, hsl.l))];
      i := i + 1;
    }
    var c0, c1, c2 := colors[0], colors[1], colors[2];
    Elements3(colors);
    AppendShades(colors, c0, c1, c2);
    var shades0 := GenerateMonochromatic(colors[0]);
    LadderSlices(c0);
    colors := colors + shades0[1..3];
    var shades1 := GenerateMonochromatic(colors[1]);
    LadderSlices(c1);
    colors := colors + shades1[1..3];
    var shades2 := GenerateMonochromatic(colors[2]);
    LadderSlices(c2);
    colors := colors + [shades2[1]];
    colors := Slice(colors, 8);
  }

  /** `generateTetradic(hex)`: hues `(h + i * 90) % 360` for `i = 0 .. 3`
      and five shades make nine colours, and `slice(0, 8)` drops the last,
      the shade of the third hue. */
  method GenerateTetradic(toHsl: string -> Hsl, fromHsl: Hsl -> string, hex: string)
    returns (colors: seq<string>)
    ensures colors == Tetradic(toHsl, fromHsl, hex) && |colors| == 8
  {
    hide Shade, Rem360, Monochromatic, Slice, AdjustBrightness;
    colors := [];
    var hsl := toHsl(hex);
    var i := 0;
    while i < 4
      invariant 0 <= i <= 4 && |colors| == i
      invariant forall k :: 0 <= k < |colors| ==> colors[k] == Turned(toHsl, fromHsl, hex, (90 * k) as real)
    {
      var newHue := Rem360(hsl.h + (i * 90) as real);
      colors := colors + [fromHsl(Hsl(newHue, hsl.s, hsl.l))];
      i := i + 1;
    }
    var c0, c1, c2, c3 := colors[0], colors[1], colors[2], colors[3];
    Elements4(colors);
    AppendFourShades(colors, c0, c1, c2, c3);
    var shades0 := GenerateMonochromatic(colors[0]);
    LadderSlices(c0);
    colors := colors + shades0[1..3];
    var shades1 := GenerateMonochromatic(colors[1]);
    LadderSlices(c1);
    colors := colors + shades1[1..3];
    var shades2 := GenerateMonochromatic(colors[2]);
    LadderSlices(c2);
    colors := colors + [shades2[1]];
    colors := Slice(colors, 8);
  }

  // ---------------------------------------------------------------------
  // Properties of the hue turns

  /** A sum in the second turn wraps once. */
  lemma Rem360SecondTurn(x: real)
    requires 360.0 <= x < 720.0
    ensures Rem360(x) == x - 360.0
  {
    assert 1.0 <= x / 360.0 < 2.0;
    assert (x / 360.0).Floor == 1;
  }

  /** The complement of the complement is the original colour: two turns of
      180 degrees bring every valid hue back to itself. */
  lemma ComplementTwice(hsl: Hsl)
    requires ValidHsl(hsl)
    ensures Rotate(Rotate(hsl, 180.0), 180.0) == hsl
  {
    if hsl.h < 180.0 {
      Rem360SecondTurn(hsl.h + 360.0);
    } else {
      Rem360SecondTurn(hsl.h + 180.0);
    }
  }

  /** With the script.js conversions a grey has no hue to turn: every turn
      of a grey gives back the same grey, re-encoded. */
  lemma GreyTurn(hex: string, deg: real)
    requires var c := HexToRgb(hex); c.r == c.g == c.b
    ensures var t := Turned(HexToHsl, HslToHex, hex, deg);
      t == EncodeRgb(HexToRgb(hex)) && IsValidHex(t) && HexToRgb(t) == HexToRgb(hex)
  {
    hide HexToRgb, HslToRgb, EncodeRgb, Rem360;
    var c := HexToRgb(hex);
    var hsl := HexToHsl(hex);
    assert hsl.l * 255.0 == c.r as real;
    assert Round(hsl.l * 255.0) == c.r;
    var turned := Rotate(hsl, deg);
    assert turned == Hsl(turned.h, 0.0, hsl.l);
    GreyToRgb(turned.h, hsl.l);
    assert HslToRgb(turned) == c;
  }

  /** So the analogous, triadic and tetradic palettes of a grey start with
      the same colour three or four times. */
  lemma GreyHarmonies(hex: string)
    requires var c := HexToRgb(hex); c.r == c.g == c.b
    ensures var g := EncodeRgb(HexToRgb(hex));
      Analogous(HexToHsl, HslToHex, hex)[..3] == [g, g, g] &&
      Triadic(HexToHsl, HslToHex, hex)[..3] == [g, g, g] &&
      Tetradic(HexToHsl, HslToHex, hex)[..4] == [g, g, g, g]
  {
    hide Turned, Shade, EncodeRgb, HexToRgb;
    GreyTurn(hex, 330.0);
    GreyTurn(hex, 360.0);
    GreyTurn(hex, 390.0);
    GreyTurn(hex, 0.0);
    GreyTurn(hex, 90.0);
    GreyTurn(hex, 120.0);
    GreyTurn(hex, 180.0);
    GreyTurn(hex, 240.0);
    GreyTurn(hex, 270.0);
  }

  // ---------------------------------------------------------------------
  // The PowerPoint theme

  /** `adjustmentValues` of `generatePowerPointTheme`. */
  const PowerPointDeltas: seq<int> := [-100, -66, -33, 0, 33, 66]

  /** `maxIterations`: the bound on the passes of the do/while. */
  const MaxIterations: nat := 10

  /** The six theme colours, darkest first. */
  function PowerPointTheme(baseColor: string): seq<string> {
    seq(6, i requires 0 <= i < 6 => AdjustBrightness(baseColor, PowerPointDeltas[i]))
  }

  /** The do/while of `generatePowerPointTheme`: it recomputes the same
      adjustment until `isAccessible` accepts it or ten passes have run. */
  method AdjustUntilAccessible(isAccessible: string -> bool, baseColor: string, delta: int)
    returns (monochromaticColor: string, iterations: nat)
    ensures monochromaticColor == AdjustBrightness(baseColor, delta)
    ensures iterations == if isAccessible(monochromaticColor) then 1 else MaxIterations
  {
    hide AdjustBrightness;
    monochromaticColor := AdjustBrightness(baseColor, delta);
    iterations := 1;
    while !isAccessible(monochromaticColor) && iterations < MaxIterations
      invariant 1 <= iterations <= MaxIterations
      invariant monochromaticColor == AdjustBrightness(baseColor, delta)
      invariant iterations > 1 ==> !isAccessible(monochromaticColor)
      decreases MaxIterations - iterations
    {
      monochromaticColor := AdjustBrightness(baseColor, delta);
      iterations := iterations + 1;
    }
  }

  /** How many passes the do/while makes for each theme entry. */
  function ThemeAttempts(isAccessible: string -> bool, baseColor: string): seq<nat> {
    seq(6, i requires 0 <= i < 6 => if isAccessible(PowerPointTheme(baseColor)[i]) then 1 else MaxIterations)
  }

  /** `generatePowerPointTheme()` of script.js, scripts/index.js and
      scripts/palette.js, with `colorPicker.value` as `baseColor` and the
      file's `isAccessible` as a parameter. The do/while recomputes the same
      colour on every pass, so the theme is the six adjustments whatever
      `isAccessible` says; `attempts` reports how many passes each entry
      took: one when the colour is accepted, otherwise all ten. */
  method GeneratePowerPointTheme(isAccessible: string -> bool, baseColor: string)
    returns (colors: seq<string>, attempts: seq<nat>)
    ensures colors == PowerPointTheme(baseColor) && attempts == ThemeAttempts(isAccessible, baseColor)
    ensures |colors| == 6 && forall i :: 0 <= i < 6 ==> colors[i] == AdjustBrightness(baseColor, PowerPointDeltas[i])
    ensures |attempts| == 6 && forall i :: 0 <= i < 6 ==>
      attempts[i] == if isAccessible(colors[i]) then 1 else MaxIterations
  {
    hide AdjustBrightness, PowerPointTheme, ThemeAttempts;
    ThemeEntries(isAccessible, baseColor);
    colors := [];
    attempts := [];
    var i := 0;
    while i < 6
      invariant 0 <= i <= 6
      invariant colors == PowerPointTheme(baseColor)[..i]
      invariant attempts == ThemeAttempts(isAccessible, baseColor)[..i]
    {
      var monochromaticColor, iterations := AdjustUntilAccessible(isAccessible, baseColor, PowerPointDeltas[i]);
      PrefixStep(PowerPointTheme(baseColor), i);
      PrefixStep(ThemeAttempts(isAccessible, baseColor), i);
      colors := colors + [monochromaticColor];
      attempts := attempts + [iterations];
      i := i + 1;
    }
    PrefixAll(PowerPointTheme(baseColor));
    PrefixAll(ThemeAttempts(isAccessible, baseColor));
  }

  lemma ThemeEntries(isAccessible: string -> bool, baseColor: string)
    ensures var theme, attempts := PowerPointTheme(baseColor), ThemeAttempts(isAccessible, baseColor);
      |theme| == 6 && |attempts| == 6 &&
      forall i :: 0 <= i < 6 ==>
        theme[i] == AdjustBrightness(baseColor, PowerPointDeltas[i]) &&
        attempts[i] == (if isAccessible(theme[i]) then 1 else MaxIterations)
  {
    hide AdjustBrightness;
  }

  /** The theme is a ladder: six valid `#RRGGBB` colours whose channels never
      decrease from one entry to the next, entry 3 being the base colour
      re-encoded. */
  lemma PowerPointLadder(baseColor: string)
    ensures var theme := PowerPointTheme(baseColor);
      |theme| == 6 && HexToRgb(theme[3]) == HexToRgb(baseColor) &&
      forall i :: 0 <= i < 6 ==> IsValidHex(theme[i])
    ensures var theme := PowerPointTheme(baseColor);
      forall i, j :: 0 <= i <= j < 6 ==>
        var a, b := HexToRgb(theme[i]), HexToRgb(theme[j]);
        a.r <= b.r && a.g <= b.g && a.b <= b.b
  {
    hide AdjustBrightness, HexToRgb;
    var theme := PowerPointTheme(baseColor);
    forall i, j | 0 <= i <= j < 6
      ensures var a, b := HexToRgb(theme[i]), HexToRgb(theme[j]);
        a.r <= b.r && a.g <= b.g && a.b <= b.b
    {
      AdjustMonotone(baseColor, PowerPointDeltas[i], PowerPointDeltas[j]);
    }
  }

  // ---------------------------------------------------------------------
  // Dispatch

  /** The tags `generatePalette` recognises in scripts/index.js. */
  const PaletteTypes: set<string> :=
    {"monochromatic", "analogous", "complementary", "splitComplementary", "triadic", "tetradic", "powerpointTheme"}

  /** scripts/index.js `generatePalette(hex, paletteType)` (and the switch of
      script.js `generatePalettes`, where `pickerValue` is `hex`): each tag
      selects its generator, `'powerpointTheme'` builds from the picker value,
      and any other tag falls back to the monochromatic ladder. */
  method GeneratePalette(toHsl: string -> Hsl, fromHsl: Hsl -> string, isAccessible: string -> bool,
                         pickerValue: string, hex: string, paletteType: string)
    returns (colors: seq<string>)
    ensures paletteType == "analogous" ==> colors == Analogous(toHsl, fromHsl, hex)
    ensures paletteType == "complementary" ==> colors == Complementary(toHsl, fromHsl, hex)
    ensures paletteType == "splitComplementary" ==> colors == SplitComplementary(toHsl, fromHsl, hex)
    ensures paletteType == "triadic" ==> colors == Triadic(toHsl, fromHsl, hex)
    ensures paletteType == "tetradic" ==> colors == Tetradic(toHsl, fromHsl, hex)
    ensures paletteType == "powerpointTheme" ==> colors == PowerPointTheme(pickerValue)
    ensures paletteType == "monochromatic" || paletteType !in PaletteTypes ==> colors == Monochromatic(hex)
  {
    hide Analogous, Complementary, SplitComplementary, Triadic, Tetradic, PowerPointTheme, Monochromatic;
    if paletteType == "monochromatic" {
      colors := GenerateMonochromatic(hex);
    } else if paletteType == "analogous" {
      colors := GenerateAnalogous(toHsl, fromHsl, hex);
    } else if paletteType == "complementary" {
      colors := GenerateComplementary(toHsl, fromHsl, hex);
    } else if paletteType == "splitComplementary" {
      colors := GenerateSplitComplementary(toHsl, fromHsl, hex);
    } else if paletteType == "triadic" {
      colors := GenerateTriadic(toHsl, fromHsl, hex);
    } else if paletteType == "tetradic" {
      colors := GenerateTetradic(toHsl, fromHsl, hex);
    } else if paletteType == "powerpointTheme" {
      var attempts;
      colors, attempts := GeneratePowerPointTheme(isAccessible, pickerValue);
    } else {
      colors := GenerateMonochromatic(hex);
    }
  }

  /** scripts/palette.js `generatePalette(hex, paletteType)`: the same
      switch, with the padded complementary palette and the extra tag
      `'random'`, whose palette is the first distinct colours drawn from the
      stream `candidates`, in the order of their first draws. */
  method GeneratePaletteWithRandom(toHsl: string -> Hsl, fromHsl: Hsl -> string, isAccessible: string -> bool,
                                   pickerValue: string, candidates: seq<string>, hex: string, paletteType: string)
    returns (colors: seq<string>)
    ensures paletteType == "analogous" ==> colors == Analogous(toHsl, fromHsl, hex)
    ensures paletteType == "complementary" ==>
      colors == Complementary(toHsl, fromHsl, hex) + [AdjustBrightness(hex, -50)]
    ensures paletteType == "splitComplementary" ==> colors == SplitComplementary(toHsl, fromHsl, hex)
    ensures paletteType == "triadic" ==> colors == Triadic(toHsl, fromHsl, hex)
    ensures paletteType == "tetradic" ==> colors == Tetradic(toHsl, fromHsl, hex)
    ensures paletteType == "powerpointTheme" ==> colors == PowerPointTheme(pickerValue)
    ensures paletteType == "random" ==>
      Distinct(colors) && |colors| <= 8 && (forall c :: c in colors ==> c in candidates) &&
      (|colors| < 8 ==> forall c :: c in candidates ==> c in colors) &&
      FirstDrawn(candidates, colors)
    ensures paletteType == "monochromatic" || (paletteType !in PaletteTypes && paletteType != "random") ==>
      colors == Monochromatic(hex)
  {
    hide Analogous, Complementary, SplitComplementary, Triadic, Tetradic, PowerPointTheme, Monochromatic, AdjustBrightness;
    if paletteType == "monochromatic" {
      colors := GenerateMonochromatic(hex);
    } else if paletteType == "analogous" {
      colors := GenerateAnalogous(toHsl, fromHsl, hex);
    } else if paletteType == "complementary" {
      colors := GenerateComplementaryPadded(toHsl, fromHsl, hex);
    } else if paletteType == "splitComplementary" {
      colors := GenerateSplitComplementary(toHsl, fromHsl, hex);
    } else if paletteType == "triadic" {
      colors := GenerateTriadic(toHsl, fromHsl, hex);
    } else if paletteType == "tetradic" {
      colors := GenerateTetradic(toHsl, fromHsl, hex);
    } else if paletteType == "powerpointTheme" {
      var attempts;
      colors, attempts := GeneratePowerPointTheme(isAccessible, pickerValue);
    } else if paletteType == "random" {
      colors := GenerateRandomPalette(candidates);
    } else {
      colors := GenerateMonochromatic(hex);
    }
  }
}
