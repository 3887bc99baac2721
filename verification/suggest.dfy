/**
 * The accessible-colour suggestion of script.js and accessibility_checker.js
 * (the two copies are identical): while the text colour fails 4.5:1 against
 * the background, move its HSL lightness 0.05 towards the middle and
 * re-encode it, stopping early only if the lightness reaches 0 or 1.
 *
 * The loop as written need not terminate: the direction is chosen afresh
 * from each re-rounded colour, so a colour can bounce between two greys
 * forever (`SuggestionCycles`). `SuggestAccessibleColor` therefore carries a
 * fuel bound and states only what holds of every run; the corrected loop
 * `SuggestAccessibleColorBounded` fixes the direction once and tracks the
 * unrounded lightness, and it stops within 20 nudges.
 */
module Suggest {
  import opened Wrappers
  import opened HexCodec
  import opened HslColor
  import opened Contrast
  import opened RealArith

  /** `hsl.l > 0.5 ? hsl.l - 0.05 : hsl.l + 0.05`: any lightness in [0, 1]
      lands in [0.05, 0.95], so the loop's `l <= 0 || l >= 1` test never
      fires. */
  function NudgeLightness(l: real): (m: real)
    ensures 0.0 <= l <= 1.0 ==> 0.05 <= m <= 0.95
    ensures l > 0.5 ==> m < l
    ensures l <= 0.5 ==> m > l
  {
    if l > 0.5 then l - 0.05 else l + 0.05
  }

  /** One pass of the loop body: to HSL, nudge the lightness, back to hex. */
  function Nudge(hex: string): string {
    var hsl := HexToHsl(hex);
    HslToHex(Hsl(hsl.h, hsl.s, NudgeLightness(hsl.l)))
  }

  /** `n` applications of `f` to `x`. */
  function Iterate<T>(f: T -> T, x: T, n: nat): T {
    if n == 0 then x else f(Iterate(f, x, n - 1))
  }

  /** The colour after `n` passes of the loop body. */
  function NudgeIter(text: string, n: nat): string {
    Iterate(Nudge, text, n)
  }

  /** Each element of `run` is `f` of the one before it. */
  ghost predicate Chain<T>(f: T -> T, run: seq<T>) {
    forall k :: 0 <= k < |run| - 1 ==> run[k + 1] == f(run[k])
  }

  lemma ChainExtend<T>(f: T -> T, run: seq<T>, y: T)
    requires run != [] && Chain(f, run) && y == f(run[|run| - 1])
    ensures Chain(f, run + [y])
  {
  }

  /** A chain starting at `x` lists the iterates of `f` from `x`. */
  lemma {:induction false} ChainIterates<T>(f: T -> T, run: seq<T>, k: nat)
    requires Chain(f, run) && k < |run|
    ensures run[k] == Iterate(f, run[0], k)
  {
    if k > 0 {
      ChainIterates(f, run, k - 1);
    }
  }

  /** A chain whose elements before the last all fail `passes`: its last
      element is the iterate of that index, and every earlier iterate fails. */
  lemma ChainRun<T>(f: T -> T, passes: T -> bool, run: seq<T>)
    requires run != [] && Chain(f, run)
    requires forall k :: 0 <= k < |run| - 1 ==> !passes(run[k])
    ensures run[|run| - 1] == Iterate(f, run[0], |run| - 1)
    ensures forall k :: 0 <= k < |run| - 1 ==> !passes(Iterate(f, run[0], k))
  {
    ChainIterates(f, run, |run| - 1);
    forall k | 0 <= k < |run| - 1 ensures !passes(Iterate(f, run[0], k)) {
      ChainIterates(f, run, k);
    }
  }

  /** The body of the loop: the colour converted to HSL, its lightness
      nudged, and the result converted back; also returns the new lightness,
      which is strictly between 0 and 1. */
  method NudgeOnce(hex: string) returns (out: string, lightness: real)
    ensures out == Nudge(hex)
    ensures 0.05 <= lightness <= 0.95
  {
    var hsl := HexToHsl(hex);
    hsl := hsl.(l := NudgeLightness(hsl.l));
    out := HslToHex(hsl);
    lightness := hsl.l;
  }

  /** script.js and accessibility_checker.js `suggestAccessibleColor`, with
      `calculateContrast` as the parameter `contrast`, run for at most `fuel`
      passes. The result is the colour after `steps` passes; every earlier
      colour failed 4.5:1; if the loop stopped before running out of fuel the
      result passes; a colour that already passes comes back unchanged. */
  method SuggestAccessibleColor(contrast: (string, string) -> real, bgColor: string, textColor: string, fuel: nat)
    returns (suggestedColor: string, steps: nat)
    ensures steps <= fuel
    ensures suggestedColor == NudgeIter(textColor, steps)
    ensures forall k :: 0 <= k < steps ==> contrast(bgColor, NudgeIter(textColor, k)) < AA
    ensures steps < fuel ==> contrast(bgColor, suggestedColor) >= AA
    ensures contrast(bgColor, textColor) >= AA ==> suggestedColor == textColor && steps == 0
  {
    hide Nudge;
    suggestedColor := textColor;
    var ratio := contrast(bgColor, suggestedColor);
    steps := 0;
    ghost var run := [textColor];
    ghost var passes := s => contrast(bgColor, s) >= AA;
    while ratio < AA && steps < fuel
      invariant steps <= fuel && |run| == steps + 1
      invariant run[0] == textColor && run[steps] == suggestedColor && Chain(Nudge, run)
      invariant ratio == contrast(bgColor, suggestedColor)
      invariant forall k :: 0 <= k < steps ==> !passes(run[k])
      invariant steps > 0 ==> contrast(bgColor, textColor) < AA
      decreases fuel - steps
    {
      var lightness;
      suggestedColor, lightness := NudgeOnce(suggestedColor);
      ChainExtend(Nudge, run, suggestedColor);
      run := run + [suggestedColor];
      ratio := contrast(bgColor, suggestedColor);
      steps := steps + 1;
      if lightness <= 0.0 || lightness >= 1.0 {
        assert false;
        break;
      }
    }
    ChainRun(Nudge, passes, run);
  }

  // ---------------------------------------------------------------------
  // The grey cycle

  /** Nudging a grey gives the grey of the rounded nudged lightness. */
  lemma GreyNudge(hex: string, v: int)
    requires HexToRgb(hex) == Rgb(v, v, v)
    ensures var w := Round(NudgeLightness(v as real / 255.0) * 255.0);
      HexToRgb(Nudge(hex)) == Rgb(w, w, w)
  {
    hide HexToHsl, HslToHex, HexToRgb, NudgeLightness, Round;
    var hsl := HexToHsl(hex);
    assert hsl.s == 0.0 && hsl.l == v as real / 255.0;
  }

  /** `#808080` (128) nudges to `#737373` (115) and back. */
  lemma GreyBounce(hex: string)
    ensures HexToRgb(hex) == Rgb(128, 128, 128) ==> HexToRgb(Nudge(hex)) == Rgb(115, 115, 115)
    ensures HexToRgb(hex) == Rgb(115, 115, 115) ==> HexToRgb(Nudge(hex)) == Rgb(128, 128, 128)
  {
    hide Nudge, HexToRgb, NudgeLightness, Round;
    NudgedGreys();
    if HexToRgb(hex) == Rgb(128, 128, 128) {
      GreyNudge(hex, 128);
    } else if HexToRgb(hex) == Rgb(115, 115, 115) {
      GreyNudge(hex, 115);
    }
  }

  /** Lightness 128/255 is above one half and moves down to 115/255 after
      rounding; 115/255 is below and moves up to 128/255. */
  lemma NudgedGreys()
    ensures Round(NudgeLightness(128.0 / 255.0) * 255.0) == 115
    ensures Round(NudgeLightness(115.0 / 255.0) * 255.0) == 128
  {
  }

  lemma ParseGreys()
    ensures HexToRgb("#808080") == Rgb(128, 128, 128)
    ensures HexToRgb("#777777") == Rgb(119, 119, 119)
  {
    assert IsValidHex("#808080") && IsValidHex("#777777");
    HexToRgbOfValid("#808080");
    HexToRgbOfValid("#777777");
  }

  lemma {:induction false} IterateTwoCycle<T, U>(f: T -> T, g: T -> U, a: U, b: U, x: T, n: nat)
    requires forall y :: g(y) == a ==> g(f(y)) == b
    requires forall y :: g(y) == b ==> g(f(y)) == a
    requires g(x) == a
    ensures g(Iterate(f, x, n)) == if n % 2 == 0 then a else b
  {
    if n > 0 {
      IterateTwoCycle(f, g, a, b, x, n - 1);
    }
  }

  /** Starting from a 128 grey such as `#808080` the loop alternates between
      128 and 115 grey. */
  lemma NudgeIterAlternates(text: string, n: nat)
    requires HexToRgb(text) == Rgb(128, 128, 128)
    ensures HexToRgb(NudgeIter(text, n)) == if n % 2 == 0 then Rgb(128, 128, 128) else Rgb(115, 115, 115)
  {
    forall y ensures HexToRgb(y) == Rgb(128, 128, 128) ==> HexToRgb(Nudge(y)) == Rgb(115, 115, 115) {
      GreyBounce(y);
    }
    forall y ensures HexToRgb(y) == Rgb(115, 115, 115) ==> HexToRgb(Nudge(y)) == Rgb(128, 128, 128) {
      GreyBounce(y);
    }
    IterateTwoCycle(Nudge, HexToRgb, Rgb(128, 128, 128), Rgb(115, 115, 115), text, n);
  }

  lemma CubeMonotone(a: real, x: real)
    requires 0.0 <= a <= x
    ensures a * a <= x * x && a * a * a <= x * x * x
  {
    MulNonNeg(x - a, x + a);
    assert x * x - a * a == (x - a) * (x + a);
    MulNonNeg(x * x - a * a, x);
    MulNonNeg(a * a, x - a);
    assert x * x * x - a * a * a == (x * x - a * a) * x + a * a * (x - a);
  }

  /** Greys from 115 to 128 have luminance between 0.1 and 0.3. */
  lemma GreyLuminanceBand(gamma: real -> real, v: int)
    requires GammaBounds(gamma) && 115 <= v <= 128
    ensures 0.1 <= Luminance(gamma, Rgb(v, v, v)) <= 0.3
  {
    GreyLuminance(gamma, v);
    var n := v as real / 255.0;
    var x := (n + 0.055) / 1.055;
    assert 0.47 <= x <= 0.53;
    CubeMonotone(0.47, x);
    CubeMonotone(x, 0.53);
    assert InUnit(x);
  }

  /** Luminances between 0.1 and 0.3 never reach 4.5:1. */
  lemma BandFails(l1: real, l2: real)
    requires 0.1 <= l1 <= 0.3 && 0.1 <= l2 <= 0.3
    ensures ContrastRatio(l1, l2) < AA
  {
  }

  /** On background `#777777`, text `#808080` and every colour the loop
      moves it to fails 4.5:1, so the loop never ends. */
  lemma SuggestionCycles(gamma: real -> real, n: nat)
    requires GammaBounds(gamma)
    ensures CalculateContrast(gamma, "#777777", NudgeIter("#808080", n)) < AA
  {
    ParseGreys();
    NudgeIterAlternates("#808080", n);
    var w := if n % 2 == 0 then 128 else 115;
    GreyLuminanceBand(gamma, 119);
    GreyLuminanceBand(gamma, w);
    BandFails(Luminance(gamma, Rgb(119, 119, 119)), Luminance(gamma, Rgb(w, w, w)));
  }

  // ---------------------------------------------------------------------
  // The corrected loop

  /** The lightness after `k` nudges of `delta` from `l0`, kept in [0, 1]. */
  function LightnessAfter(l0: real, delta: real, k: nat): (l: real)
    ensures 0.0 <= l <= 1.0
  {
    Clamp01(l0 + delta * k as real)
  }

  /** A lightness kept in [0, 1]: below 0 it is 0, above 1 it is 1. */
  function Clamp01(x: real): (l: real)
    ensures 0.0 <= l <= 1.0
    ensures 0.0 <= x <= 1.0 ==> l == x
    ensures x < 0.0 ==> l == 0.0
    ensures x > 1.0 ==> l == 1.0
  {
    if x < 0.0 then 0.0 else if x > 1.0 then 1.0 else x
  }

  /** The direction the corrected loop moves the lightness, chosen once from
      the text colour: darker from a light colour, lighter otherwise. */
  function Direction(l: real): (delta: real)
    ensures delta == 0.05 || delta == -0.05
    ensures delta < 0.0 <==> l > 0.5
  {
    if l > 0.5 then -0.05 else 0.05
  }

  /** The colour the corrected loop tries after `k` passes: the text colour's
      hue and saturation with the lightness moved `k` steps. */
  function Candidate(textColor: string, k: nat): string {
    var hsl := HexToHsl(textColor);
    HslToHex(Hsl(hsl.h, hsl.s, LightnessAfter(hsl.l, Direction(hsl.l), k)))
  }

  /** No candidate from 1 to `n` has more contrast than `bound`. */
  predicate NoneAbove(gamma: real -> real, bgColor: string, textColor: string, n: nat, bound: real)
    requires GammaBounds(gamma)
  {
    forall k :: 1 <= k <= n ==> CalculateContrast(gamma, bgColor, Candidate(textColor, k)) <= bound
  }

  /** Every candidate from 1 up to but not including `n` fails 4.5:1. */
  predicate FailBefore(gamma: real -> real, bgColor: string, textColor: string, n: nat)
    requires GammaBounds(gamma)
  {
    forall k :: 1 <= k < n ==> CalculateContrast(gamma, bgColor, Candidate(textColor, k)) < AA
  }

  /** The corrected suggestion: the direction is chosen once from the text
      colour's lightness and the lightness is carried unrounded between
      passes, so each pass moves it 0.05 further the same way until the
      colour passes or the lightness reaches 0 or 1, within 20 passes. It
      returns the best colour seen (the text colour, or candidate `chosen`),
      so the suggestion never has less contrast than the text colour or any
      candidate tried; every candidate before the last failed, so a passing
      suggestion is the first candidate that passes; and a suggestion that
      still fails means no candidate in that direction passes at all. */
  method SuggestAccessibleColorBounded(gamma: real -> real, bgColor: string, textColor: string)
    returns (suggestedColor: string, chosen: nat, steps: nat)
    requires GammaBounds(gamma)
    ensures chosen <= steps <= 20
    ensures suggestedColor == if chosen == 0 then textColor else Candidate(textColor, chosen)
    ensures CalculateContrast(gamma, bgColor, suggestedColor) >= CalculateContrast(gamma, bgColor, textColor)
    ensures NoneAbove(gamma, bgColor, textColor, steps, CalculateContrast(gamma, bgColor, suggestedColor))
    ensures FailBefore(gamma, bgColor, textColor, steps)
    ensures CalculateContrast(gamma, bgColor, suggestedColor) >= AA ==> chosen == steps
    ensures CalculateContrast(gamma, bgColor, suggestedColor) < AA ==>
      forall k :: 1 <= k ==> CalculateContrast(gamma, bgColor, Candidate(textColor, k)) < AA
    ensures CalculateContrast(gamma, bgColor, textColor) >= AA ==> suggestedColor == textColor && steps == 0
  {
    hide HexToHsl, HslToHex, CalculateContrast, Candidate, LightnessAfter, Clamp01, Direction, NoneAbove, FailBefore;
    var hsl := HexToHsl(textColor);
    var delta := Direction(hsl.l);
    var lightness := hsl.l;
    var current := textColor;
    var contrast := CalculateContrast(gamma, bgColor, current);
    var best := contrast;
    suggestedColor, chosen, steps := textColor, 0, 0;
    var atLimit := false;
    NothingTried(gamma, bgColor, textColor, best);
    LightnessStep(hsl.l, delta, 0);
    while contrast < AA && !atLimit
      invariant chosen <= steps <= 20
      invariant lightness == LightnessAfter(hsl.l, delta, steps)
      invariant steps > 0 ==> current == Candidate(textColor, steps)
      invariant steps == 0 ==> current == textColor
      invariant contrast == CalculateContrast(gamma, bgColor, current) <= best
      invariant suggestedColor == (if chosen == 0 then textColor else Candidate(textColor, chosen))
      invariant best == CalculateContrast(gamma, bgColor, suggestedColor) >= CalculateContrast(gamma, bgColor, textColor)
      invariant NoneAbove(gamma, bgColor, textColor, steps, best)
      invariant FailBefore(gamma, bgColor, textColor, steps)
      invariant best >= AA ==> chosen == steps
      invariant atLimit ==> steps > 0 && (lightness == 0.0 || lightness == 1.0)
      invariant steps == 20 ==> atLimit
      invariant CalculateContrast(gamma, bgColor, textColor) >= AA ==> steps == 0
      decreases 20 - steps
    {
      var previousBest, previousSteps := best, steps;
      FailBeforeStep(gamma, bgColor, textColor, steps);
      LightnessStep(hsl.l, delta, steps);
      lightness := Clamp01(lightness + delta);
      steps := steps + 1;
      current, contrast := TryLightness(gamma, bgColor, textColor, hsl, lightness, steps);
      if contrast > best {
        suggestedColor, chosen, best := current, steps, contrast;
      }
      NoneAboveStep(gamma, bgColor, textColor, previousSteps, steps, previousBest, best);
      atLimit := lightness <= 0.0 || lightness >= 1.0;
      LightnessLimit(hsl.l, delta, steps);
    }
    if best < AA {
      NoneAboveAtLimit(gamma, bgColor, textColor, steps, best);
    }
  }

  /** When the lightness has reached its limit after `n` passes, the
      candidates after `n` repeat candidate `n`; so if none up to `n` passes,
      none passes at all. */
  lemma NoneAboveAtLimit(gamma: real -> real, bgColor: string, textColor: string, n: nat, bound: real)
    requires GammaBounds(gamma) && NoneAbove(gamma, bgColor, textColor, n, bound) && bound < AA && n >= 1
    requires var l := HexToHsl(textColor).l; var m := LightnessAfter(l, Direction(l), n); m == 0.0 || m == 1.0
    ensures forall k :: 1 <= k ==> CalculateContrast(gamma, bgColor, Candidate(textColor, k)) < AA
  {
    hide HexToHsl, HslToHex, CalculateContrast, LightnessAfter, Direction;
    var l := HexToHsl(textColor).l;
    forall k: nat | 1 <= k ensures CalculateContrast(gamma, bgColor, Candidate(textColor, k)) < AA {
      if k > n {
        LightnessStays(l, Direction(l), n, k);
        assert Candidate(textColor, k) == Candidate(textColor, n);
      }
    }
  }

  /** One pass of the corrected loop: the text colour's hue and saturation
      at the lightness reached after `k` passes, which is candidate `k`, and
      its contrast on the background. */
  method TryLightness(gamma: real -> real, bgColor: string, textColor: string, hsl: Hsl, lightness: real, k: nat)
    returns (color: string, contrast: real)
    requires GammaBounds(gamma) && hsl == HexToHsl(textColor)
    requires lightness == LightnessAfter(hsl.l, Direction(hsl.l), k)
    ensures color == Candidate(textColor, k)
    ensures contrast == CalculateContrast(gamma, bgColor, color)
  {
    hide HexToHsl, HslToHex, CalculateContrast, LightnessAfter, Direction;
    color := HslToHex(Hsl(hsl.h, hsl.s, lightness));
    contrast := CalculateContrast(gamma, bgColor, color);
  }

  /** Extending `NoneAbove` by one candidate, with a bound that can only grow. */
  lemma NoneAboveStep(gamma: real -> real, bgColor: string, textColor: string, n: nat, m: nat, bound: real, bound': real)
    requires GammaBounds(gamma) && NoneAbove(gamma, bgColor, textColor, n, bound) && bound <= bound' && m == n + 1
    requires CalculateContrast(gamma, bgColor, Candidate(textColor, m)) <= bound'
    ensures NoneAbove(gamma, bgColor, textColor, m, bound')
  {
    hide Candidate, CalculateContrast;
  }

  /** Before the first pass both properties hold of the empty run. */
  lemma NothingTried(gamma: real -> real, bgColor: string, textColor: string, bound: real)
    requires GammaBounds(gamma)
    ensures NoneAbove(gamma, bgColor, textColor, 0, bound)
    ensures FailBefore(gamma, bgColor, textColor, 0) && FailBefore(gamma, bgColor, textColor, 1)
  {
  }

  /** Extending `FailBefore` past a candidate that fails. */
  lemma FailBeforeStep(gamma: real -> real, bgColor: string, textColor: string, n: nat)
    requires GammaBounds(gamma) && FailBefore(gamma, bgColor, textColor, n)
    requires n >= 1 ==> CalculateContrast(gamma, bgColor, Candidate(textColor, n)) < AA
    ensures FailBefore(gamma, bgColor, textColor, n + 1)
  {
    hide Candidate, CalculateContrast;
  }

  /** Once the lightness has reached 0 or 1 it stays there. */
  lemma LightnessStays(l0: real, delta: real, s: nat, k: nat)
    requires 0.0 <= l0 <= 1.0 && (delta == 0.05 || delta == -0.05)
    requires delta < 0.0 ==> l0 > 0.5
    requires 1 <= s <= k && (LightnessAfter(l0, delta, s) == 0.0 || LightnessAfter(l0, delta, s) == 1.0)
    ensures LightnessAfter(l0, delta, k) == LightnessAfter(l0, delta, s)
  {
  }

  /** Clamping after each step is the same as clamping the total move. */
  lemma LightnessStep(l0: real, delta: real, k: nat)
    requires 0.0 <= l0 <= 1.0 && (delta == 0.05 || delta == -0.05)
    requires delta < 0.0 ==> l0 > 0.5
    ensures LightnessAfter(l0, delta, 0) == l0
    ensures LightnessAfter(l0, delta, k + 1) == Clamp01(LightnessAfter(l0, delta, k) + delta)
  {
  }

  /** Twenty steps of 0.05 from anywhere in [0, 1] reach the limit. */
  lemma LightnessLimit(l0: real, delta: real, k: nat)
    requires 0.0 <= l0 <= 1.0 && (delta == 0.05 || delta == -0.05)
    ensures k >= 20 ==> LightnessAfter(l0, delta, k) == (if delta < 0.0 then 0.0 else 1.0)
  {
  }

  /** script.js and accessibility_checker.js `checkContrast`: the ratio of
      text on background, a pass exactly when it is at least 4.5, and on a
      failure the suggestion of the corrected loop: it has at least the
      text's contrast; if it passes it is the first passing candidate, within
      20, and if it fails no candidate in that direction passes. */
  method CheckContrast(gamma: real -> real, bgColor: string, textColor: string)
    returns (contrastRatio: real, passes: bool, suggestion: Option<string>)
    requires GammaBounds(gamma)
    ensures contrastRatio == CalculateContrast(gamma, bgColor, textColor)
    ensures passes <==> contrastRatio >= AA
    ensures passes <==> suggestion == None
    ensures suggestion.Some? ==> CalculateContrast(gamma, bgColor, suggestion.value) >= contrastRatio
    ensures suggestion.Some? && CalculateContrast(gamma, bgColor, suggestion.value) >= AA ==>
      exists k :: 1 <= k <= 20 && suggestion.value == Candidate(textColor, k) && FailBefore(gamma, bgColor, textColor, k)
    ensures suggestion.Some? && CalculateContrast(gamma, bgColor, suggestion.value) < AA ==>
      forall k :: 1 <= k ==> CalculateContrast(gamma, bgColor, Candidate(textColor, k)) < AA
  {
    contrastRatio := CalculateContrast(gamma, bgColor, textColor);
    passes := contrastRatio >= AA;
    if passes {
      suggestion := None;
    } else {
      var suggestedColor, chosen, _ := SuggestAccessibleColorBounded(gamma, bgColor, textColor);
      suggestion := Some(suggestedColor);
    }
  }
}
