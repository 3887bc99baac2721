/**
 * `adjustBrightness`: one signed delta added to every channel, each result
 * clamped to 0..255, then re-encoded as upper-case `#RRGGBB`. script.js and
 * scripts/index.js encode through the `rgb(...)` string form of `rgbToHex`,
 * scripts/palette.js through its object form; the two agree.
 */
module Brightness {
  import opened HexCodec

  /** `Math.min(Math.max(v, 0), 255)`. */
  function Clamp(v: int): (c: int)
    ensures 0 <= c <= 255
  {
    if v < 0 then 0 else if v > 255 then 255 else v
  }

  /** The channel map inside `adjustBrightness`. */
  function Adjusted(c: Rgb, percent: int): (a: Rgb)
    ensures InGamut(a)
  {
    Rgb(Clamp(c.r + percent), Clamp(c.g + percent), Clamp(c.b + percent))
  }

  /** script.js and scripts/index.js `adjustBrightness(hex, percent)`: the
      result is always a valid `#RRGGBB` that decodes to the clamped
      channels, whatever the input string was, and it is the upper-case
      `rgbToHex` of those channels. */
  function AdjustBrightness(hex: string, percent: int): (out: string)
    ensures IsValidHex(out) && |out| == 7 && out[0] == '#'
    ensures HexToRgb(out) == Adjusted(HexToRgb(hex), percent)
    ensures out == RgbObjectToHex(Adjusted(HexToRgb(hex), percent))
  {
    hide EncodeRgb, HexToRgb;
    var a := Adjusted(HexToRgb(hex), percent);
    EncodeInGamut(a);
    EncodeRgb(a)
  }

  /** scripts/palette.js `adjustBrightness`: the same clamping, encoded by the
      object form of `rgbToHex`; it produces the same string as the other two
      copies. */
  function AdjustBrightnessObject(hex: string, percent: int): (out: string)
    ensures out == AdjustBrightness(hex, percent)
  {
    var a := Adjusted(HexToRgb(hex), percent);
    assert Rgb(Abs(a.r), Abs(a.g), Abs(a.b)) == a;
    RgbObjectToHex(a)
  }

  /** Entry `k` (0..7) of the monochromatic ladder: delta `(k - 4) * 25`, so
      -100, -75, ..., 75. */
  function Shade(hex: string, k: int): string {
    AdjustBrightness(hex, (k - 4) * 25)
  }

  /** A zero delta re-encodes a valid hex in upper case with a `#`. */
  lemma AdjustZero(hex: string)
    requires IsValidHex(hex)
    ensures AdjustBrightness(hex, 0) == "#" + Upper(StripHash(hex))
  {
    var c := HexToRgb(hex);
    assert Adjusted(c, 0) == c;
    EncodeDecode(hex);
  }

  lemma ClampMonotone(u: int, v: int)
    requires u <= v
    ensures Clamp(u) <= Clamp(v)
  {
  }

  /** A larger delta never darkens any channel. */
  lemma AdjustMonotone(hex: string, p1: int, p2: int)
    requires p1 <= p2
    ensures var a1, a2 := HexToRgb(AdjustBrightness(hex, p1)), HexToRgb(AdjustBrightness(hex, p2));
      a1.r <= a2.r && a1.g <= a2.g && a1.b <= a2.b
  {
    hide *;
    AdjustedMonotone(HexToRgb(hex), p1, p2);
  }

  lemma AdjustedMonotone(c: Rgb, p1: int, p2: int)
    requires p1 <= p2
    ensures var a1, a2 := Adjusted(c, p1), Adjusted(c, p2);
      a1.r <= a2.r && a1.g <= a2.g && a1.b <= a2.b
  {
    ClampMonotone(c.r + p1, c.r + p2);
    ClampMonotone(c.g + p1, c.g + p2);
    ClampMonotone(c.b + p1, c.b + p2);
  }

  /** Along the monochromatic ladder each channel is non-decreasing. */
  lemma ShadeMonotone(hex: string, j: int, k: int)
    requires j <= k
    ensures var a1, a2 := HexToRgb(Shade(hex, j)), HexToRgb(Shade(hex, k));
      a1.r <= a2.r && a1.g <= a2.g && a1.b <= a2.b
  {
    AdjustMonotone(hex, (j - 4) * 25, (k - 4) * 25);
  }

  lemma WhiteAndBlack()
    ensures RgbObjectToHex(Rgb(255, 255, 255)) == "#FFFFFF"
    ensures RgbObjectToHex(Rgb(0, 0, 0)) == "#000000"
  {
    LowerDigits(Rgb(255, 255, 255));
    LowerDigits(Rgb(0, 0, 0));
  }

  /** A delta of at least 255 saturates every colour to white, one of at most
      -255 to black. */
  lemma AdjustSaturates(hex: string, percent: int)
    ensures percent >= 255 ==> AdjustBrightness(hex, percent) == "#FFFFFF"
    ensures percent <= -255 ==> AdjustBrightness(hex, percent) == "#000000"
  {
    hide RgbObjectToHex, HexToRgb;
    var a := Adjusted(HexToRgb(hex), percent);
    assert AdjustBrightness(hex, percent) == RgbObjectToHex(a) by {
      assert Rgb(Abs(a.r), Abs(a.g), Abs(a.b)) == a;
    }
    WhiteAndBlack();
    if percent >= 255 {
      assert a == Rgb(255, 255, 255);
    } else if percent <= -255 {
      assert a == Rgb(0, 0, 0);
    }
  }
}
