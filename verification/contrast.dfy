/**
 * WCAG 2.0 relative luminance and contrast ratio, as every copy of
 * `calculateLuminance` / `calculateContrast` computes them.
 *
 * The sRGB transfer `Math.pow((n + 0.055) / 1.055, 2.4)` has no exact
 * counterpart over the reals here, so it is a parameter `gamma`; all the model
 * knows of it is the pair of bounds `x^3 <= x^2.4 <= x^2` on [0, 1], which
 * the real power satisfies.
 */
module Contrast {
  import opened HexCodec
  import opened RealArith

  /** What the model takes as given of `pow(x, 2.4)` on [0, 1]. */
  ghost predicate GammaBounds(gamma: real -> real) {
    forall x {:trigger InUnit(x)} :: InUnit(x) ==> x * x * x <= gamma(x) <= x * x
  }

  predicate InUnit(x: real) {
    0.0 <= x <= 1.0
  }

  /** The WCAG 2.0 pass mark for normal text (Success Criterion 1.4.3). */
  const AA: real := 4.5

  /** One channel fraction through the piecewise sRGB transfer. */
  function Linearize(gamma: real -> real, n: real): (v: real)
    requires GammaBounds(gamma)
    ensures 0.0 <= n <= 1.0 ==> 0.0 <= v <= 1.0
    ensures n <= 0.03928 ==> v == n / 12.92
  {
    if n <= 0.03928 then n / 12.92
    else
      var x := (n + 0.055) / 1.055;
      if n <= 1.0 then
        UnitPowers(x);
        assert InUnit(x);
        gamma(x)
      else
        gamma(x)
  }

  lemma UnitPowers(x: real)
    requires 0.0 <= x <= 1.0
    ensures 0.0 <= x * x * x && x * x <= 1.0
  {
    assert 0.0 <= x * x <= x by {
      MulBetween(x, x);
    }
    MulBetween(x * x, x);
  }

  /** Relative luminance of a colour whose channels are 0..255:
      `0.2126 R + 0.7152 G + 0.0722 B` over linearised channels. It is always
      in [0, 1]. (scripts/image_ext.js `calculateLuminance`, and the channel
      step of the hex-string copies.) */
  function Luminance(gamma: real -> real, c: Rgb): (l: real)
    requires GammaBounds(gamma)
    ensures InGamut(c) ==> 0.0 <= l <= 1.0
  {
    0.2126 * Linearize(gamma, c.r as real / 255.0)
      + 0.7152 * Linearize(gamma, c.g as real / 255.0)
      + 0.0722 * Linearize(gamma, c.b as real / 255.0)
  }

  /** `(max(L1, L2) + 0.05) / (min(L1, L2) + 0.05)`: at least 1, at most 21
      for luminances in [0, 1], and a pass exactly when the lighter
      luminance plus 0.05 is at least 4.5 times the darker plus 0.05. */
  function ContrastRatio(l1: real, l2: real): (r: real)
    requires 0.0 <= l1 && 0.0 <= l2
    ensures 1.0 <= r
    ensures l1 <= 1.0 && l2 <= 1.0 ==> r <= 21.0
    ensures r >= AA <==> (if l1 >= l2 then l1 + 0.05 >= AA * (l2 + 0.05) else l2 + 0.05 >= AA * (l1 + 0.05))
  {
    var hi, lo := if l1 >= l2 then l1 else l2, if l1 >= l2 then l2 else l1;
    RatioQuotient(hi + 0.05, lo + 0.05);
    (hi + 0.05) / (lo + 0.05)
  }

  /** How a quotient of positives compares with 1, 21 and 4.5. */
  lemma RatioQuotient(a: real, d: real)
    requires 0.0 < d <= a
    ensures 1.0 <= a / d
    ensures a == d ==> a / d == 1.0
    ensures a <= 21.0 * d ==> a / d <= 21.0
    ensures a / d >= AA <==> a >= AA * d
  {
    Compare(a, d, 1.0);
    Compare(a, d, 21.0);
    Compare(a, d, AA);
  }

  /** Dividing by a positive number keeps the order with any bound `k`. */
  lemma Compare(a: real, d: real, k: real)
    requires 0.0 < d
    ensures a / d >= k <==> a >= k * d
    ensures a / d <= k <==> a <= k * d
  {
    var q := a / d;
    assert a - k * d == (q - k) * d;
    if q < k {
      MulNegPos(q - k, d);
    } else if q > k {
      MulNegPos(k - q, d);
    }
  }

  /** script.js `calculateLuminance` and accessibility_checker.js
      `calculateLuminance`: the colour is parsed by `hexToRgbArray`. */
  function CalculateLuminance(gamma: real -> real, hex: string): (l: real)
    requires GammaBounds(gamma)
    ensures 0.0 <= l <= 1.0
  {
    Luminance(gamma, HexToRgb(hex))
  }

  /** script.js and accessibility_checker.js `calculateContrast`. */
  function CalculateContrast(gamma: real -> real, color1: string, color2: string): (r: real)
    requires GammaBounds(gamma)
    ensures 1.0 <= r <= 21.0
  {
    ContrastRatio(CalculateLuminance(gamma, color1), CalculateLuminance(gamma, color2))
  }

  /** scripts/accessibility_checker.js `calculateContrast`: the same ratio,
      with the colours parsed by its `hexToRgb`, which drops the first
      character unconditionally. */
  function CalculateContrastSliced(gamma: real -> real, color1: string, color2: string): (r: real)
    requires GammaBounds(gamma)
    ensures 1.0 <= r <= 21.0
  {
    ContrastRatio(Luminance(gamma, HexToRgbSliced(color1)), Luminance(gamma, HexToRgbSliced(color2)))
  }

  /** With a leading `#` on both colours the two parsers agree, and so do the
      two contrast functions. */
  lemma SlicedAgrees(gamma: real -> real, color1: string, color2: string)
    requires GammaBounds(gamma)
    requires |color1| > 0 && color1[0] == '#' && |color2| > 0 && color2[0] == '#'
    ensures CalculateContrastSliced(gamma, color1, color2) == CalculateContrast(gamma, color1, color2)
  {
    assert HexToRgbSliced(color1) == HexToRgb(color1);
    assert HexToRgbSliced(color2) == HexToRgb(color2);
  }

  /** scripts/image_ext.js `calculateContrastRatio` on two sampled pixels. */
  function CalculateContrastRatio(gamma: real -> real, color1: Rgb, color2: Rgb): (r: real)
    requires GammaBounds(gamma) && InGamut(color1) && InGamut(color2)
    ensures 1.0 <= r <= 21.0
  {
    ContrastRatio(Luminance(gamma, color1), Luminance(gamma, color2))
  }

  /** Swapping the luminances leaves the ratio unchanged; equal luminances
      give exactly 1. */
  lemma RatioSymmetric(l1: real, l2: real)
    requires 0.0 <= l1 && 0.0 <= l2
    ensures ContrastRatio(l1, l2) == ContrastRatio(l2, l1)
    ensures l1 == l2 ==> ContrastRatio(l1, l2) == 1.0
  {
    if l1 == l2 {
      RatioQuotient(l1 + 0.05, l1 + 0.05);
    }
  }

  /** The contrast ratio does not depend on the order of the two colours. */
  lemma ContrastSymmetric(gamma: real -> real, a: string, b: string, p: Rgb, q: Rgb)
    requires GammaBounds(gamma) && InGamut(p) && InGamut(q)
    ensures CalculateContrast(gamma, a, b) == CalculateContrast(gamma, b, a)
    ensures CalculateContrastSliced(gamma, a, b) == CalculateContrastSliced(gamma, b, a)
    ensures CalculateContrastRatio(gamma, p, q) == CalculateContrastRatio(gamma, q, p)
  {
    RatioSymmetric(CalculateLuminance(gamma, a), CalculateLuminance(gamma, b));
    RatioSymmetric(Luminance(gamma, HexToRgbSliced(a)), Luminance(gamma, HexToRgbSliced(b)));
    RatioSymmetric(Luminance(gamma, p), Luminance(gamma, q));
  }

  /** A colour has contrast exactly 1 with itself. */
  lemma ContrastSelf(gamma: real -> real, a: string)
    requires GammaBounds(gamma)
    ensures CalculateContrast(gamma, a, a) == 1.0
  {
    RatioSymmetric(CalculateLuminance(gamma, a), CalculateLuminance(gamma, a));
  }

  /** A grey's luminance is its linearised fraction: the three weights sum to 1. */
  lemma GreyLuminance(gamma: real -> real, v: int)
    requires GammaBounds(gamma)
    ensures Luminance(gamma, Rgb(v, v, v)) == Linearize(gamma, v as real / 255.0)
  {
  }

  /** Black has luminance 0 and white luminance 1. */
  lemma BlackAndWhite(gamma: real -> real)
    requires GammaBounds(gamma)
    ensures Luminance(gamma, Rgb(0, 0, 0)) == 0.0
    ensures Luminance(gamma, Rgb(255, 255, 255)) == 1.0
  {
    GreyLuminance(gamma, 255);
    assert (1.0 + 0.055) / 1.055 == 1.0;
    assert InUnit(1.0);
  }

  lemma ParseBlackAndWhite()
    ensures HexToRgb("#000000") == HexToRgbSliced("#000000") == Rgb(0, 0, 0)
    ensures HexToRgb("#ffffff") == HexToRgbSliced("#ffffff") == Rgb(255, 255, 255)
    ensures HexToRgb("#FFFFFF") == Rgb(255, 255, 255)
  {
    hide HexToRgb, HexToRgbSliced;
    assert IsValidHex("#000000") && IsValidHex("#ffffff") && IsValidHex("#FFFFFF");
    HexToRgbOfValid("#000000");
    HexToRgbOfValid("#ffffff");
    HexToRgbOfValid("#FFFFFF");
  }

  /** Black on white is the largest possible ratio, 21:1. */
  lemma BlackOnWhite(gamma: real -> real)
    requires GammaBounds(gamma)
    ensures CalculateContrast(gamma, "#000000", "#ffffff") == 21.0
    ensures CalculateContrastSliced(gamma, "#000000", "#ffffff") == 21.0
  {
    hide Luminance, HexToRgb, HexToRgbSliced;
    BlackAndWhite(gamma);
    ParseBlackAndWhite();
  }

  /** script.js `isAccessible`: contrast against `#ffffff` of at least 4.5. */
  function IsAccessible(gamma: real -> real, color: string): (ok: bool)
    requires GammaBounds(gamma)
    ensures ok <==> CalculateLuminance(gamma, color) <= 11.0 / 60.0
  {
    hide CalculateLuminance, ContrastRatio;
    WhiteLuminance(gamma);
    AgainstWhite(CalculateLuminance(gamma, color));
    CalculateContrast(gamma, color, "#ffffff") >= AA
  }

  lemma WhiteLuminance(gamma: real -> real)
    requires GammaBounds(gamma)
    ensures CalculateLuminance(gamma, "#ffffff") == 1.0
  {
    hide Luminance, HexToRgb;
    BlackAndWhite(gamma);
    ParseBlackAndWhite();
  }

  /** Against luminance 1 the ratio reaches 4.5 exactly up to luminance
      11/60: `1.05 >= 4.5 * (l + 0.05)`. */
  lemma AgainstWhite(l: real)
    requires 0.0 <= l <= 1.0
    ensures ContrastRatio(l, 1.0) >= AA <==> l <= 11.0 / 60.0
  {
  }

  /** Black passes against white. */
  lemma BlackIsAccessible(gamma: real -> real)
    requires GammaBounds(gamma)
    ensures IsAccessible(gamma, "#000000")
  {
    BlackOnWhite(gamma);
  }

  /** The outcome of scripts/accessibility_checker.js `checkContrast`: the
      colours actually compared, their ratio and whether it passes. */
  datatype Verdict = Verdict(bg: string, text: string, ratio: real, passes: bool)

  /** scripts/accessibility_checker.js `checkContrast`: an empty background
      reads as `#000000`, an empty text colour as `#ffffff`; the check passes
      exactly when the ratio is at least 4.5. */
  function CheckContrastDefaults(gamma: real -> real, bgInput: string, textInput: string): (v: Verdict)
    requires GammaBounds(gamma)
    ensures v.bg == (if bgInput == "" then "#000000" else bgInput)
    ensures v.text == (if textInput == "" then "#ffffff" else textInput)
    ensures v.ratio == CalculateContrastSliced(gamma, v.bg, v.text)
    ensures v.passes <==> v.ratio >= AA
  {
    var bg := if bgInput == "" then "#000000" else bgInput;
    var text := if textInput == "" then "#ffffff" else textInput;
    var ratio := CalculateContrastSliced(gamma, bg, text);
    Verdict(bg, text, ratio, ratio >= AA)
  }

  /** With both inputs empty the defaults are black on white, which passes
      at 21:1. */
  lemma EmptyInputsPass(gamma: real -> real)
    requires GammaBounds(gamma)
    ensures CheckContrastDefaults(gamma, "", "").passes
    ensures CheckContrastDefaults(gamma, "", "").ratio == 21.0
  {
    BlackOnWhite(gamma);
  }
}
