# DigiSwatch colour core in Dafny

DigiSwatch is a browser palette tool. This project models its colour core
and proves properties of that model. The core covers these parts:

- Hex colour parsing and encoding: `hexToRgbArray`, `hexToRgbObject`,
  `isValidHex`, `rgbToHex` in its string and object forms,
  `hexToRgbString` and `colorToString`.
- The HSL conversions `hexToHsl` and `hslToHex`, in both copies.
- `adjustBrightness` and the palette generators: monochromatic, analogous,
  complementary, split-complementary, triadic, tetradic, the PowerPoint
  theme and the random palette, with the `generatePalette` dispatch.
- The WCAG luminance and contrast ratio, `isAccessible`, contrast sorting,
  the all-pairs contrast report and the highest-contrast search.
- The contrast checker and its colour suggestion.
- The CSS and text exports, the SVG padding step and the usage counter.
- The image eye droppers and their counter.

Modules, one per file:

| file | module | what it holds |
|---|---|---|
| `wrappers.dfy` | `Wrappers` | `Option` |
| `real_arith.dfy` | `RealArith` | three facts about real products |
| `seqs.dfy` | `Seqs` | sequence identities the palette proofs use |
| `hex_codec.dfy` | `HexCodec` | `parseInt(…, 16)`, shifts and masks, `toString(16)`, the `rgb(…)` string and the `/\d+/g` reader, and the round trips |
| `brightness.dfy` | `Brightness` | `adjustBrightness` and its monotonicity |
| `hsl.dfy` | `HslColor` | both `hexToHsl`/`hslToHex` pairs |
| `contrast.dfy` | `Contrast` | luminance, contrast ratio, `isAccessible`, the defaulted `checkContrast` |
| `contrast_sort.dfy` | `ContrastSort` | `sortColorsByContrast` as a stable sort |
| `contrast_pairs.dfy` | `ContrastPairs` | `findAllContrastPairs` and the highest-contrast pair |
| `suggest.dfy` | `Suggest` | `suggestAccessibleColor` as written, its cycle, and a corrected loop |
| `random_palette.dfy` | `RandomPalette` | `getRandomColor` and `generateRandomPalette` |
| `palettes.dfy` | `Palettes` | the generators and the dispatch |
| `exports.dfy` | `Exports` | CSS and text exports, SVG padding, usage tracking |
| `droppers.dfy` | `Droppers` | the eye-dropper list and counter |

Several parts of the model are parameters rather than definitions:

- `Math.pow(x, 2.4)` in the luminance is a parameter `gamma`. It is
  constrained only by `x³ ≤ gamma(x) ≤ x²` on [0, 1], which holds of
  x^2.4. That bound is enough to prove the 1–21 range of the ratio,
  black-on-white = 21, and the suggestion cycle.
- The HSL conversions of scripts/index.js and scripts/palette.js come from
  the tinycolor library. The generators therefore take `toHsl`/`fromHsl` as
  parameters. script.js's own conversions are one instance, and several
  lemmas are stated for that instance.
- `isAccessible` is a parameter of the PowerPoint theme. In scripts/index.js
  and scripts/palette.js it always answers true. In script.js it is the
  contrast test `Contrast.IsAccessible`.
- Random draws and the pixels sampled from the canvas are inputs.

Behaviour of the code worth knowing:

- The decoders never reject a malformed colour. `parseInt` reads the longest
  hex prefix, an unparsable colour becomes `NaN`, and the shifts turn that
  into 0. `HexToRgb` is total and always in gamut; `IsValidHex` is the only
  check.
- The script.js and scripts/index.js `generateComplementary` return 7
  colours. Only scripts/palette.js pads the list to 8.
- The PowerPoint theme's do/while recomputes the same colour up to ten
  times, so each theme colour is exactly `adjustBrightness(base, delta)`.
- `suggestAccessibleColor` need not return at all: see Findings.

## Model

| member | source | states |
|---|---|---|
| HexCodec.HexDigitValue | script.js:1156 | a hex digit's value is below 16 |
| HexCodec.HexDigitChar | script.js:1137-1138 | the digit `toString(16)` writes is a lower-case hex digit with that value |
| HexCodec.DigitChar | script.js:1147 | a decimal digit character has its value |
| HexCodec.LeadingHex | script.js:1156 | `parseInt` reads the longest prefix of hex digits: all of it hex, and the next character is not |
| HexCodec.LeadingDigits | script.js:1132 | a `\d+` run is maximal; it is non-empty when the text starts with a digit |
| HexCodec.DigitRuns | script.js:1132 | `match(/\d+/g).map(Number)`: no more runs than characters, none in a text without digits; `RgbStringRuns` reads the three numbers back from the `rgb()` template |
| HexCodec.Channels | script.js:1157 | `(num >> 16) & 255`, `(num >> 8) & 255`, `num & 255` are always bytes |
| HexCodec.ExpandShorthand | script.js:1153-1155 | a 3-character colour doubles each character, and any other length is unchanged |
| HexCodec.HexToRgb | script.js:1151-1158 | `hexToRgbArray`/`hexToRgbObject` always yield an in-gamut colour |
| HexCodec.HexToRgbSliced | scripts/accessibility_checker.js:56-61 | `hex.slice(1)` decoding is in gamut and agrees with `hexToRgbArray` when the colour starts with `#` |
| HexCodec.NatToHex | script.js:1137 | `toString(16)` is non-empty, one digit exactly below 16, at most two below 256 |
| HexCodec.IntToHex | script.js:1137 | `x.toString(16)`, with a sign for a negative `x`; `NatToHexValue` states that the digits read back as `x` |
| HexCodec.Pad2 | script.js:1138 | a one-digit string gets a leading '0', others pass through; `PairDigits` states that a byte becomes exactly two digits |
| HexCodec.HexPair | script.js:1137-1138 | `toString(16)` then the padding; `PairDigits` and `PairOfDigits` state that a byte's pair is two digits that read back to it |
| HexCodec.NatToDec | script.js:1147 | `String(x)` is non-empty, all digits, and reads back as `x` |
| HexCodec.HexToRgbString | script.js:1145-1148 | the text is the `rgb(r, g, b)` template of the decoded channels, and its digit runs are those channels, in order |
| HexCodec.RgbString | script.js:1147 | the `rgb(${r}, ${g}, ${b})` template; `RgbStringRuns` states that its digit runs are the magnitudes of r, g and b |
| HexCodec.RgbToHex | script.js:1131-1142 | `rgbToHex` fails (the `null.map` TypeError) exactly when the text holds no digits |
| HexCodec.ClampRound | scripts/image_ext.js:418 | the clamp of `colorToString` gives 0..255 |
| HexCodec.ColorToString | scripts/image_ext.js:417-421 | `#` and six lower-case digits that decode (via `slice(1)`) to the rounded, clamped channels |
| HexCodec.NatToHexValue | script.js:1137 | `toString(16)` writes lower-case hex digits whose value is the number |
| HexCodec.SixDigitValue | script.js:1156 | six hex digits are the three pairs, big-endian |
| HexCodec.ParseSixDigits | script.js:1156 | `parseInt` of six hex digits is their value |
| HexCodec.ParseIntHex | script.js:1156 | `parseInt(c, 16)`: sign, optional `0x`, longest hex prefix, NaN as 0; `ParseSixDigits` states that six hex digits parse to their value |
| HexCodec.ChannelsOfPairs | script.js:1157 | shifting and masking splits `65536x + 256y + z` back into `x, y, z` |
| HexCodec.HexToRgbOfValid | script.js:1121-1123 | for a colour `isValidHex` accepts, each channel is its digit pair |
| HexCodec.IsValidHex | script.js:1121-1123 | `/^#?[A-Fa-f0-9]{6}$/`: six hex digits with an optional `#`; `HexToRgbOfValid` states that each channel of an accepted colour is its digit pair |
| HexCodec.HexToRgbShorthand | script.js:1153-1157 | for a 3-digit colour, each channel is its digit doubled |
| HexCodec.SkipNonDigits | script.js:1132 | `/\d+/g` skips text without digits |
| HexCodec.LeadingDigitsOfRun | script.js:1132 | a digit run followed by a non-digit ends there |
| HexCodec.TakeRun | script.js:1132 | a digit run then a non-digit contributes exactly its value |
| HexCodec.TakeSignedRun | script.js:1132 | a signed number contributes only its magnitude, since the `-` is skipped |
| HexCodec.RgbStringRuns | script.js:1147 | reading `rgb(r, g, b)` back gives the magnitudes of r, g, b |
| HexCodec.RgbToHexOfRgbString | script.js:1131-1142 | `rgbToHex(rgb(r, g, b))` succeeds and gives the encoding of the three magnitudes |
| HexCodec.HexPairsOfThree | script.js:1135-1140 | three numbers encode to three padded pairs |
| HexCodec.PairDigits | script.js:1137-1138 | an in-gamut channel is written as exactly two digits, high nibble first |
| HexCodec.LowerDigits | scripts/accessibility_checker.js:64-66 | the lower-case encoding of an in-gamut colour is `#` and the six nibble digits |
| HexCodec.UpperCharOfHex | script.js:1141 | `toUpperCase` keeps a hex digit's value |
| HexCodec.LowerCharOfHex | scripts/accessibility_checker.js:65 | writing a lower-case digit's value gives the digit back |
| HexCodec.UpperDigits | scripts/palette.js:133-143 | the upper-case encoding of an in-gamut colour is `#` and the six nibble digits in upper case |
| HexCodec.PairOfDigits | script.js:1137-1141 | the two digits written for a channel read back as the channel, in either case |
| HexCodec.DecodeSeven | script.js:1151-1158 | `#` and six hex digits are valid and decode pair by pair with both decoders |
| HexCodec.LowerHexShape | scripts/accessibility_checker.js:64-66 | the lower-case encoding is `#` and six lower-case digits |
| HexCodec.EncodeInGamut | script.js:1131-1148 | for an in-gamut colour, `rgbToHex(rgb(...))` equals the object encoding, is valid, and decodes back |
| HexCodec.EncodeRgb | script.js:1131-1142 | `rgbToHex(rgb(...))`; `EncodeInGamut` states that in gamut it is the object encoding and decodes back, and `EncodeDecode` that it inverts the decoder on valid colours |
| HexCodec.ObjectHexValid | scripts/palette.js:133-143 | the object encoding of an in-gamut colour is a valid `#RRGGBB` |
| HexCodec.RgbObjectToHex | scripts/palette.js:133-143 | the upper-case encoding; `ObjectHexValid` and `UpperDigits` state that it is a valid `#RRGGBB` of the six nibble digits, and `ObjectEncodeDecode` that it inverts the decoder |
| HexCodec.DecodeEncode | scripts/accessibility_checker.js:56-66 | decode after encode is the identity on in-gamut colours, for both encoders and both decoders |
| HexCodec.EncodeDecode | script.js:1131-1158 | encode after decode of a valid colour is `#` plus its digits in upper case, through all three encoding routes |
| HexCodec.ObjectEncodeDecode | scripts/palette.js:123-143 | the object encoder after the decoder gives `#` plus the digits in upper case |
| HexCodec.LowerRoundTrip | scripts/accessibility_checker.js:56-66 | on a lower-case `#rrggbb`, encode after decode gives the colour back |
| HexCodec.RgbToHexLower | scripts/accessibility_checker.js:64-66 | lower-case `#` and three padded pairs; `LowerRoundTrip` states that it inverts the decoder on lower-case `#rrggbb` |
| Brightness.Clamp | script.js:1239 | the clamp lies in 0..255 |
| Brightness.Adjusted | script.js:1238-1241 | the adjusted channels are in gamut |
| Brightness.AdjustBrightness | script.js:1236-1243 | the result is a valid `#RRGGBB` whose channels are the clamped sums of the decoded channels and the delta, spelled as the upper-case `rgbToHex` of those channels |
| Brightness.AdjustBrightnessObject | scripts/palette.js:113-120 | the object-encoding copy returns the same colour as the string route |
| Brightness.AdjustZero | script.js:1236-1243 | delta 0 re-encodes a valid colour as `#` plus its digits in upper case |
| Brightness.ClampMonotone | script.js:1239 | the clamp is monotone |
| Brightness.AdjustMonotone | script.js:1236-1243 | a larger delta never darkens any channel |
| Brightness.AdjustedMonotone | script.js:1238-1241 | the channel map is monotone in the delta |
| Brightness.ShadeMonotone | script.js:994-1001 | along the monochromatic ladder every channel is non-decreasing |
| Brightness.Shade | script.js:996-999 | rung `k` of the ladder, delta `(k − 4) · 25`; `ShadeMonotone` states that its channels never decrease with `k` |
| Brightness.WhiteAndBlack | scripts/palette.js:133-143 | white and black encode as `#FFFFFF` and `#000000` |
| Brightness.AdjustSaturates | script.js:1236-1243 | a delta ≥ 255 gives `#FFFFFF` and one ≤ −255 gives `#000000`, whatever the input |
| HslColor.Round | script.js:1218 | `Math.round` is within half of its argument |
| HslColor.RoundByte | script.js:1218 | a fraction in [0, 1] scaled by 255 rounds to a byte |
| HslColor.Rem360 | script.js:1204 | JavaScript `% 360` of a non-negative number lies in [0, 360) and leaves [0, 360) unchanged |
| HslColor.Sextant | script.js:1178-1188 | the hue arms give a sextant in [0, 6) |
| HslColor.Saturation | script.js:1177 | a chromatic colour's saturation is in (0, 1] |
| HslColor.HexToHsl | script.js:1161-1192 | the HSL is valid; saturation is 0 exactly for greys, which have hue 0 and lightness channel/255 (its inverse property is `HslRoundTrip`) |
| HslColor.PQBounds | script.js:1211-1212 | `p` and `q` lie in [0, 1] with `p ≤ q` |
| HslColor.Hue2RgbBetween | script.js:1203-1209 | `hue2rgb` lies between `p` and `q` |
| HslColor.Hue2Rgb | script.js:1203-1209 | `hue2rgb` in degrees; `Hue2RgbBetween` bounds it by `p` and `q`, and `SextantChannels` shows it recovers each channel from the hue `hexToHsl` gives |
| HslColor.HslToRgb | script.js:1195-1219 | a valid HSL gives in-gamut channels (it undoes `hexToHsl`: `HslRoundTrip`) |
| HslColor.ChannelRange | script.js:1211-1215 | for a chromatic valid HSL, 0 ≤ p ≤ q ≤ 1 and each unrounded channel lies in [p, q] |
| HslColor.HslToHex | script.js:1195-1219 | a valid HSL gives the upper-case `rgbToHex` of its rounded channels, a valid hex decoding to them; saturation 0 gives the grey of the rounded lightness |
| HslColor.GreyToRgb | script.js:1200-1201 | saturation 0 gives the grey of the rounded lightness, whatever the hue |
| HslColor.HslRoundTrip | script.js:1161-1219 | for every input, `hexToHsl` followed by the channels of `hslToHex` gives back exactly the decoded colour |
| HslColor.HexHslRoundTrip | script.js:1161-1219 | `hslToHex(hexToHsl(hex))` is the upper-case encoding of the decoded colour; a valid hex comes back as `#` plus its digits in upper case |
| HslColor.ByteFraction | script.js:1163-1165 | a byte divided by 255 and rounded back after scaling by 255 is itself |
| HslColor.Rem360Turns | script.js:1204 | `% 360` of a number `k` whole turns up subtracts those `k` turns |
| HslColor.QOfSaturation | script.js:1177 | `q` and `p` built from the saturation and lightness of a chromatic colour are its largest and smallest channel |
| HslColor.SextantChannels | script.js:1178-1188 | in every sextant of a chromatic colour, `hue2rgb` at h + 120, h and h − 120 with `p` = min and `q` = max gives back red, green and blue |
| HslColor.RedToYellow | script.js:1180-1181 | hues 0–60 (red largest, blue smallest): the three channels come back |
| HslColor.MagentaToRed | script.js:1180-1181 | hues 300–360 (red largest, green smallest): the three channels come back |
| HslColor.YellowToGreen | script.js:1183-1184 | hues 60–120 (green largest, blue smallest): the three channels come back |
| HslColor.GreenToCyan | script.js:1183-1184 | hues 120–180 (green largest, red smallest): the three channels come back |
| HslColor.CyanToBlue | script.js:1186-1187 | hues 180–240 (blue largest, red smallest): the three channels come back |
| HslColor.BlueToMagenta | script.js:1186-1187 | hues 240–300 (blue largest, green smallest): the three channels come back |
| HslColor.RedToHsl | script.js:1161-1192 | `#FF0000` is hue 0, saturation 1, lightness 0.5 |
| HslColor.ComplementOfRed | script.js:1023-1027 | the complement of pure red is `#00FFFF` |
| HslColor.CyanHex | script.js:1131-1142 | cyan encodes as `#00FFFF` |
| HslColor.CyanChannels | script.js:1195-1219 | hue 180 at full saturation and half lightness is (0, 255, 255) |
| HslColor.HexToHslRounded | scripts/accessibility_checker.js:69-87 | the hue is a whole number of degrees in [0, 360], s and l are in [0, 1], and greys have s = 0, h = 0, l = channel/255 |
| HslColor.RoundedHue | scripts/accessibility_checker.js:86 | a hue fraction in [0, 1) rounds to 0..360 degrees |
| HslColor.Hue2RgbFractionBetween | scripts/accessibility_checker.js:95-102 | the fractional `hue2rgb` lies between `p` and `q` |
| HslColor.Hue2RgbFraction | scripts/accessibility_checker.js:95-102 | `hue2rgb` on a fraction of a turn; `Hue2RgbFractionBetween` bounds it by `p` and `q` |
| HslColor.HslToRgbFraction | scripts/accessibility_checker.js:90-111 | in-range inputs give in-gamut channels |
| HslColor.FractionChannelRange | scripts/accessibility_checker.js:103-110 | for a chromatic in-range HSL, 0 ≤ p ≤ q ≤ 1 and each unrounded channel lies in [p, q] |
| HslColor.HslToHexFraction | scripts/accessibility_checker.js:90-111 | in range, `#` and six lower-case digits decoding to the channels; greys give the rounded lightness |
| HslColor.SuggestFixedLightness | scripts/accessibility_checker.js:46-51 | the suggestion is `#` and six lower-case digits, decoding to the background's hue and saturation at lightness 0.2 or 0.8 |
| HslColor.GreyFraction | scripts/accessibility_checker.js:93 | saturation 0 gives the grey of the rounded lightness |
| HslColor.GreyHexes | scripts/accessibility_checker.js:64-66 | greys 51 and 204 encode as `#333333` and `#cccccc` |
| HslColor.SuggestFixedOnGrey | scripts/accessibility_checker.js:46-51 | on a grey background the suggestion is `#333333` for light greys and `#cccccc` for dark ones |
| Contrast.Linearize | script.js:1247-1250 | the sRGB transfer maps [0, 1] into [0, 1] and is the linear piece at or below 0.03928 |
| Contrast.Luminance | script.js:1246-1252 | an in-gamut colour's luminance lies in [0, 1] |
| Contrast.ContrastRatio | script.js:1255-1261 | the ratio is at least 1, at most 21 for luminances in [0, 1], and reaches 4.5 exactly when brighter + 0.05 ≥ 4.5 × (darker + 0.05) |
| Contrast.RatioQuotient | script.js:1260 | a quotient of positives with a ≥ d is ≥ 1, is 1 when equal, and is ≤ 21 when a ≤ 21d |
| Contrast.CalculateLuminance | script.js:1246-1252 | `calculateLuminance` lies in [0, 1] for every string |
| Contrast.CalculateContrast | script.js:1255-1261 | `calculateContrast` lies in [1, 21] for every pair of strings |
| Contrast.CalculateContrastSliced | scripts/accessibility_checker.js:114-125 | the `slice(1)` copy also lies in [1, 21] |
| Contrast.SlicedAgrees | scripts/accessibility_checker.js:114-125 | with a leading `#` on both colours, the two copies give the same ratio |
| Contrast.CalculateContrastRatio | scripts/image_ext.js:445-458 | the ratio of two sampled pixels lies in [1, 21] |
| Contrast.RatioSymmetric | script.js:1258-1260 | the ratio is symmetric, and equal luminances give 1 |
| Contrast.ContrastSymmetric | script.js:1255-1261 | all three contrast functions are symmetric in their two colours |
| Contrast.ContrastSelf | script.js:1255-1261 | a colour has contrast exactly 1 with itself |
| Contrast.GreyLuminance | script.js:1251 | a grey's luminance is its linearised fraction (the weights sum to 1) |
| Contrast.BlackAndWhite | script.js:1246-1252 | black has luminance 0 and white 1 |
| Contrast.ParseBlackAndWhite | script.js:1151-1158 | `#000000`, `#ffffff` and `#FFFFFF` decode to black and white with both decoders |
| Contrast.BlackOnWhite | script.js:1255-1261 | black on white is exactly 21, in both copies |
| Contrast.IsAccessible | script.js:1274-1278 | a colour passes against `#ffffff` exactly when its luminance is at most 11/60 |
| Contrast.WhiteLuminance | script.js:1246-1252 | `#ffffff` has luminance 1 |
| Contrast.AgainstWhite | script.js:1277 | against luminance 1 the ratio reaches 4.5 exactly up to luminance 11/60 |
| Contrast.BlackIsAccessible | script.js:1274-1278 | black passes |
| Contrast.CheckContrastDefaults | scripts/accessibility_checker.js:27-43 | empty inputs default to `#000000`/`#ffffff`; the verdict passes exactly when the ratio of the defaulted pair is ≥ 4.5 |
| Contrast.EmptyInputsPass | scripts/accessibility_checker.js:28-29 | with both inputs empty, the ratio is 21 and passes |
| ContrastSort.InsertPermutes | script.js:1265 | insertion adds exactly one copy of the element |
| ContrastSort.SortedTail | script.js:1265-1269 | the tail of a descending list is descending |
| ContrastSort.InsertSorted | script.js:1265-1269 | insertion keeps the list descending, and the head is the new element or the old head |
| ContrastSort.WithKeyCons | script.js:1265-1269 | filtering by key distributes over a prepended element |
| ContrastSort.InsertWithKey | script.js:1265-1269 | insertion puts the element first among those of its own key |
| ContrastSort.SortPermutes | script.js:1265 | the sorted list is a permutation of the input |
| ContrastSort.SortSorted | script.js:1265-1269 | the sorted list has non-increasing keys |
| ContrastSort.SortStable | script.js:1265-1269 | for each key, the colours keep their input order (as `Array.prototype.sort` guarantees) |
| ContrastSort.SortDesc | script.js:1265-1269 | insertion by decreasing key; `SortPermutes`, `SortSorted` and `SortStable` state that it permutes, orders and keeps ties in input order |
| ContrastSort.SortColorsByContrast | script.js:1264-1271 | `sortColorsByContrast` is a permutation, is ordered by decreasing contrast with the first colour, and is stable |
| ContrastSort.LastHasRatioOne | script.js:1264-1271 | the sorted palette keeps its length and its last colour has contrast exactly 1 with the first input colour |
| ContrastPairs.MakePair | scripts/image_ext.js:433-438 | an entry holds both colours, their ratio, and a pass flag true exactly when the ratio is ≥ 4.5 |
| ContrastPairs.PairIndices | scripts/image_ext.js:427-429 | every listed position pair is `a < b < n` |
| ContrastPairs.PairIndicesCount | scripts/image_ext.js:427-429 | the nested loops visit `n(n−1)/2` pairs |
| ContrastPairs.PairIndicesMembers | scripts/image_ext.js:427-429 | a pair is visited exactly when `a < b < n` |
| ContrastPairs.PairIndicesOrdered | scripts/image_ext.js:427-429 | pairs are visited in strictly increasing lexicographic order |
| ContrastPairs.FindAllContrastPairs | scripts/image_ext.js:423-443 | one entry per pair `i < j` in loop order, `n(n−1)/2` entries, each for its two colours with the 4.5 pass flag |
| ContrastPairs.AllPairsListed | scripts/image_ext.js:423-443 | every pair `i < j` of the colours appears in the report |
| ContrastPairs.ContrastAtLeastOne | script.js:1255-1261 | every `calculateContrast` value is at least 1 |
| ContrastPairs.HighestContrastPair | script.js:560-574 | fewer than 2 colours keep the defaults and 0; otherwise the chosen pair has the maximum ratio, and it is the first such pair in loop order |
| Suggest.NudgeLightness | script.js:696 | the nudged lightness stays in [0.05, 0.95] and moves towards the middle |
| Suggest.NudgeOnce | script.js:695-697 | one pass of the loop body gives the nudged colour and a lightness in [0.05, 0.95] |
| Suggest.SuggestAccessibleColor | script.js:689-707 | the result is the colour after `steps` passes, every earlier colour failed 4.5, stopping early means passing, and a passing colour comes back unchanged |
| Suggest.GreyNudge | script.js:695-697 | a grey nudges to the grey of the rounded nudged lightness |
| Suggest.Nudge | script.js:695-697 | one pass of the loop body; `GreyNudge` and `GreyBounce` state what it does to greys, and `NudgeIterAlternates` the resulting cycle |
| Suggest.GreyBounce | script.js:695-697 | grey 128 nudges to grey 115 and back |
| Suggest.NudgedGreys | script.js:696 | the rounded lightness goes 128 → 115 → 128 |
| Suggest.ParseGreys | script.js:1151-1158 | `#808080` and `#777777` decode to greys 128 and 119 |
| Suggest.NudgeIterAlternates | script.js:693-704 | from grey 128 the loop alternates between greys 128 and 115 forever |
| Suggest.GreyLuminanceBand | script.js:1246-1252 | greys 115..128 have luminance in [0.1, 0.3] |
| Suggest.BandFails | script.js:1255-1261 | two luminances in [0.1, 0.3] never reach 4.5:1 |
| Suggest.SuggestionCycles | script.js:689-707 | on background `#777777`, text `#808080` and every colour the loop reaches fail 4.5, so the loop never ends |
| Suggest.LightnessAfter | script.js:696-703 | the tracked lightness stays in [0, 1] |
| Suggest.Clamp01 | script.js:701-703 | a lightness below 0 becomes 0, above 1 becomes 1, and one in [0, 1] is kept |
| Suggest.Direction | script.js:696 | the corrected loop moves by 0.05, darker exactly when the text colour's lightness is above one half |
| Suggest.SuggestAccessibleColorBounded | script.js:689-707 | the corrected loop stops within 20 passes and returns the text colour or the candidate with the most contrast seen, never less than the text colour's; every candidate before the last failed, so a passing result is the first passing candidate; a failing result means no candidate in that direction passes; a passing colour comes back unchanged |
| Suggest.TryLightness | script.js:696-698 | one pass of the corrected loop re-encodes candidate `k` and measures its contrast |
| Suggest.NothingTried | script.js:690-691 | before the first pass no candidate bounds or fails anything |
| Suggest.NoneAboveStep | script.js:698 | the best contrast so far stays an upper bound when the next candidate is measured |
| Suggest.FailBeforeStep | script.js:693 | a candidate the loop continues past failed 4.5 |
| Suggest.LightnessStays | script.js:701-703 | a lightness that reached 0 or 1 stays there |
| Suggest.NoneAboveAtLimit | script.js:701-703 | once the lightness is at its limit, failing candidates so far mean every candidate fails |
| Suggest.LightnessStep | script.js:696 | clamping after each step is clamping the total move |
| Suggest.LightnessLimit | script.js:701-703 | twenty or more steps of 0.05 reach the limit in their direction |
| Suggest.CheckContrast | script.js:662-686 | the ratio is `calculateContrast`, it passes exactly at ≥ 4.5, and there is a suggestion exactly when it fails; the suggestion has at least the text's contrast, is the first passing candidate when it passes, and when it fails no candidate in its direction passes |
| RandomPalette.LetterValue | script.js:1282-1285 | the letter drawn for `d` is the hex digit of value `d` |
| RandomPalette.Letters | script.js:1282 | the alphabet `0123456789ABCDEF`; `LetterValue` states that the letter at `d` is the hex digit of value `d` |
| RandomPalette.GetRandomColor | script.js:1281-1288 | `#` and one drawn letter per draw, a valid hex whose channels are the draws read in pairs |
| RandomPalette.DrawnColorDecodes | script.js:1281-1288 | a `#` and six drawn letters decode to the draws read in pairs |
| RandomPalette.DistinctCard | scripts/palette.js:283-285 | a list without repeats has as many elements as its set |
| RandomPalette.GenerateRandomPalette | scripts/palette.js:277-290 | no repeats, at most 8 colours; exactly the colours of some prefix of the draws, ordered by their first draws; all candidates present if short |
| RandomPalette.DrawOrder | scripts/palette.js:280-287 | colours pushed at increasing draws, each not drawn before, are in the order of their first draws |
| RandomPalette.SameOrderEqual | scripts/palette.js:277-290 | two lists of drawn colours with the same members, both in first-draw order, are equal |
| RandomPalette.FirstDrawnUnique | scripts/palette.js:277-290 | the contract of `GenerateRandomPalette` determines the palette: two palettes meeting it are equal |
| RandomPalette.FullWhenEnough | scripts/palette.js:280 | given at least 8 different candidates, the palette has 8 colours |
| Palettes.GenerateMonochromatic | script.js:994-1001 | eight colours, entry `k` being `adjustBrightness(hex, (k − 4) · 25)` |
| Palettes.MonochromaticEntries | script.js:996-999 | entry `k` of the ladder is the shade of delta `(k − 4) · 25` |
| Palettes.MonochromaticLadder | script.js:994-1001 | every rung is a valid hex holding the clamped channels, channels never decrease along the ladder, rung 4 decodes to the base colour, and rungs 0..3 are no lighter |
| Palettes.Monochromatic | script.js:994-1001 | the eight shades, darkest first; `MonochromaticEntries` and `MonochromaticLadder` state each rung and the ladder's order |
| Palettes.LadderSlices | script.js:1015-1017 | `[1]`, `slice(1, 3)` and `slice(1, 4)` are shades 1, 1–2 and 1–3 |
| Palettes.Slice | script.js:1019 | `slice(0, keep)` keeps `min(len, keep)` entries, as a prefix, and leaves short lists unchanged |
| Palettes.AppendShades | script.js:1015-1017 | the key colours followed by their shade slices are the three-hue layout |
| Palettes.AppendFourShades | script.js:1085-1087 | the tetradic nine-entry list's first eight are the layout |
| Palettes.GenerateAnalogous | script.js:1004-1020 | eight colours: hues −30, 0, +30 and shades 1–2, 1–2, 1 of them |
| Palettes.Analogous | script.js:1004-1020 | hues −30, 0, +30 in the three-hue layout; `GenerateAnalogous` builds it and `GreyHarmonies` shows a grey keeps all three keys |
| Palettes.GenerateComplementary | script.js:1023-1035 | seven colours: the base, its 180° complement, base shades 1–2 and complement shades 1–3 |
| Palettes.ExtraShade | scripts/palette.js:190-192 | the padding colour `adjustBrightness(hex, −50)` is rung 2 of the ladder |
| Palettes.ComplementaryEntries | script.js:1023-1035 | the complementary list starts with the base colour and holds its shade 2 at position 3 |
| Palettes.Complementary | script.js:1023-1035 | the base, its complement and their shades, seven in all; `ComplementaryEntries` states the first entry and the base's shade 2 |
| Palettes.GenerateComplementaryPadded | scripts/palette.js:175-195 | the seven colours plus `adjustBrightness(hex, −50)`, eight in all; the padding repeats entry 3 |
| Palettes.GenerateSplitComplementary | script.js:1038-1055 | eight colours: the base unchanged, hues +150 and +210, and their shade slices |
| Palettes.SplitComplementary | script.js:1038-1055 | the base and hues +150, +210 in the three-hue layout; `GenerateSplitComplementary` builds it |
| Palettes.GenerateTriadic | script.js:1058-1073 | eight colours: hues 0, 120, 240 and their shade slices |
| Palettes.Triadic | script.js:1058-1073 | hues 0, 120, 240 in the three-hue layout; `GenerateTriadic` builds it and `GreyHarmonies` shows a grey keeps all three keys |
| Palettes.GenerateTetradic | script.js:1076-1091 | eight colours: hues 0, 90, 180, 270 and shades of the first three, cut to eight |
| Palettes.Tetradic | script.js:1076-1091 | hues 0, 90, 180, 270 and shades of the first two; `GenerateTetradic` builds it and `GreyHarmonies` shows a grey keeps all four keys |
| Palettes.Rem360SecondTurn | script.js:1025 | a hue sum in [360, 720) wraps once |
| Palettes.ComplementTwice | script.js:1025-1026 | the complement of the complement is the original HSL |
| Palettes.Rotate | script.js:1004-1091 | the `(h + d) % 360` hue turn keeps saturation and lightness, lands in [0, 360) for a non-negative sum and is the sum itself below 360 |
| Palettes.GreyTurn | script.js:1161-1219 | with script.js's conversions, turning a grey's hue gives the grey back, as a valid colour |
| Palettes.GreyHarmonies | script.js:1004-1091 | the key colours of a grey's analogous, triadic and tetradic palettes are all that grey |
| Palettes.AdjustUntilAccessible | script.js:1103-1108 | the do/while returns `adjustBrightness(base, delta)` after 1 pass if that passes, else after 10 |
| Palettes.GeneratePowerPointTheme | script.js:1094-1114 | six colours, entry `i` being `adjustBrightness(base, [−100, −66, −33, 0, 33, 66][i])`, with the pass count of each |
| Palettes.ThemeEntries | script.js:1100-1111 | the theme entries and pass counts, element by element |
| Palettes.PowerPointLadder | script.js:1094-1114 | the six theme colours are valid, entry 3 decodes to the base, and channels never decrease |
| Palettes.PowerPointTheme | script.js:1094-1114 | the six adjusted colours; `ThemeEntries` and `PowerPointLadder` state each entry, validity, entry 3 as the base and the order |
| Palettes.PowerPointDeltas | script.js:1100 | the six brightness steps −100, −66, −33, 0, 33, 66; `PowerPointLadder` states the ordered ladder they give |
| Palettes.GeneratePalette | scripts/index.js:535-554 | each tag gives its generator's palette; `monochromatic` and unknown tags give the monochromatic ladder |
| Palettes.GeneratePaletteWithRandom | scripts/palette.js:451-472 | as above with the padded complementary; `random` gives a palette without repeats, at most 8 colours, made of the first distinct draws in the order first drawn, which `FirstDrawnUnique` shows determines it |
| Exports.Lines | script.js:943 | `split('\n')` gives at least one piece |
| Exports.LinesOfPiece | script.js:943 | a piece without breaks is one line; followed by a break, it is the first line |
| Exports.TextRoundTrip | script.js:943 | splitting the joined palette at line breaks gives the palette back |
| Exports.JoinLines | script.js:943 | `join('\n')`; `TextRoundTrip` states that splitting at line breaks gives the list back |
| Exports.ExportPaletteAsText | scripts/index.js:798-801 | the text export of a non-empty palette whose colours hold no line break reads back as the palette |
| Exports.ExportAsText | script.js:940-945 | nothing exactly for an empty palette; otherwise, when no colour holds a line break, the text reads back as the palette |
| Exports.CssDeclarationsStep | script.js:924-926 | one more pass appends one declaration and its line break |
| Exports.DeclarationsSplit | script.js:924-926 | the declarations of a list are those of a prefix, then those of the rest |
| Exports.DeclarationLine | script.js:925 | the appended line is one declaration and a line break |
| Exports.CssDeclaration | script.js:925 | the `  --color-N: c;` line, numbered from 1; `DeclarationOneLine` states that it is one line and `DeclarationListAt` that line `i` holds colour `i` |
| Exports.ExportPaletteAsCss | scripts/index.js:782-789 | the CSS is `:root {`, one numbered declaration per colour, then `}` |
| Exports.ExportAsCss | script.js:920-929 | nothing exactly for an empty palette; otherwise the style sheet |
| Exports.DeclarationList | script.js:924-926 | one declaration per colour |
| Exports.DeclarationOneLine | script.js:925 | a declaration of a colour without breaks has no breaks |
| Exports.DeclarationLines | script.js:924-927 | the declarations and `}` split into one line each |
| Exports.CssLines | script.js:920-929 | when no colour holds a line break, the style sheet has `n + 2` lines: `:root {`, the declaration `--color-(k+1): colour;` for each colour `k`, then `}` |
| Exports.CssText | script.js:920-929 | the `:root` style sheet; `CssLines` states its lines one by one |
| Exports.DeclarationListAt | script.js:924-926 | line `k` of the list declares colour `k` with number `start + k + 1` |
| Exports.PadColors | scripts/index.js:615-618 | the padded list has `max(8, n)` entries, keeps the input as prefix and fills with `#FFFFFF` |
| Exports.TrackedCounts | script.js:961-963 | each colour's count goes up by its number of occurrences, and the keys gain exactly the palette's colours |
| Exports.Tracked | script.js:961-963 | the table after counting each palette colour once more; `TrackedCounts` states the new counts and keys |
| Exports.TrackedStep | script.js:962 | counting the first colour then the rest is counting the whole palette |
| Exports.UsageStore.constructor | script.js:960 | the table starts as the stored table |
| Exports.UsageStore.TrackPaletteUsage | script.js:957-965 | an empty palette changes nothing; otherwise each count rises by the colour's occurrences and the keys gain exactly the palette's colours |
| Droppers.DropperOver | scripts/image_ext.js:151-155 | a dropper's colour is `#` and six digits that decode back to the sampled pixel |
| Droppers.DropperPanel.constructor | scripts/image_ext.js:22-24 | no droppers, counter 5 |
| Droppers.DropperPanel.ClearPreviousElements | scripts/image_ext.js:272-277 | all droppers go; the counter is unchanged; a valid panel stays valid |
| Droppers.DropperPanel.InitializeEyeDroppers | scripts/image_ext.js:111-157 | the droppers are exactly one per sampled pixel, in order |
| Droppers.DropperPanel.LoadImage | scripts/image_ext.js:98-103 | after an image loads there are five droppers over the five pixels and the counter is 5 |
| Droppers.DropperPanel.AddDropper | scripts/image_ext.js:32-38 | below 7 the counter rises by one and a dropper is pushed; at 7 nothing changes; the counter stays in 0..7 and at least the dropper count |
| Droppers.DropperPanel.RemoveLastDropper | scripts/image_ext.js:220-226 | the last dropper is popped and returned, the rest unchanged; an empty list gives nothing; the panel stays valid |
| Droppers.DropperPanel.RemoveDropper | scripts/image_ext.js:39-45 | above 0 the counter falls by one and the last dropper (if any) goes; at 0 nothing changes; the invariant holds |

## Left out

- `Math.pow(x, 2.4)` is the parameter `gamma`, bounded by `x³ ≤ gamma(x) ≤ x²`. The exact powers and floating-point rounding of every real computation are not modelled; reals are exact.
- `parseInt` leading whitespace and precision loss beyond 2^53 are not modelled.
- HexCodec.ExpandShorthand: a Dafny `string` is a sequence of Unicode scalar values, while JavaScript's `length` and `split('')` count UTF-16 code units. A colour holding a character outside the Basic Multilingual Plane (in `#a😀` the part after `#` is two characters here but three code units in JavaScript, so JavaScript expands it as a shorthand and this model does not) is measured and split differently. The same holds for every length test and index in the decoders and `isValidHex`.
- tinycolor (`hexToHsl`/`hslToHex` of scripts/index.js and scripts/palette.js, the luminance sort of `generateSVGPattern`) is a foreign library. The conversions are parameters; the sort is not modelled, only the padding after it.
- `Math.random()` is replaced by its draws (`GetRandomColor`) and the stream of colours `getRandomColor` yields (`GenerateRandomPalette`).
- RandomPalette.GenerateRandomPalette: the source loops until 8 distinct colours are found; the model stops when the finite candidate stream runs out, and `FullWhenEnough` states when that gives 8.
- RandomPalette.GenerateRandomPalette: `isAccessible` is the placeholder that always answers true in scripts/palette.js, so it is left out of the loop.
- The DOM, `localStorage`, `JSON.parse`/`JSON.stringify`, file downloads, `toFixed(2)`, translations, SVG and image export, the colour-blindness simulation and the adjustment sliders are I/O or presentation.
- The `isValidRgb` regex and the palette analytics display are not used by the modelled core.
- scripts/palette.js `hexToRgbString` calls a missing helper, so it is not part of this model.
- ContrastPairs.HighestContrastPair takes `calculateContrast` as a parameter that is at least 1; `ContrastAtLeastOne` discharges that for the real one.
- Suggest.CheckContrast: calls the corrected loop `SuggestAccessibleColorBounded` where the source calls `suggestAccessibleColor` as written, which need not return (see Findings); what the as-written loop gives is stated by `SuggestAccessibleColor`.
- Suggest.SuggestAccessibleColor: runs for at most `fuel` passes because the loop as written need not terminate (see Findings). Its `break` on a lightness of 0 or 1 can never fire, since `NudgeLightness` keeps the lightness in [0.05, 0.95].
- Palettes.GeneratePowerPointTheme also returns the pass count of each do/while. The count is not a result in the source, only what its loop observably does.
- Droppers.DropperPanel: a dropper is its colour; its random position, drag handling and DOM element are not modelled. Before the first image the counter (5) exceeds the number of droppers (0), so the invariant is only `|droppers| ≤ counter`.
- Droppers.DropperPanel.AddDropper: the random position of `createRandomDropper` is replaced by the sampled pixel passed in.

## Findings

| source | as written | input that shows it | evidently intended | confidence | as-written member | corrected member |
|---|---|---|---|---|---|---|
| script.js:689-707 (same in accessibility_checker.js:75-93) | the nudge direction is chosen afresh from each re-rounded colour, and the `break` on lightness 0 or 1 is unreachable | background `#777777`, text `#808080`: grey 128 nudges to grey 115 and back, and every colour on the way fails 4.5:1, so the loop never returns | keep moving the lightness the same way until the colour passes or the lightness reaches 0 or 1, and return the colour with the most contrast seen, so the suggestion is never worse than the text colour | high (proved for every `pow` with `x³ ≤ pow ≤ x²`); not executed | Suggest.SuggestionCycles, Suggest.SuggestAccessibleColor | Suggest.SuggestAccessibleColorBounded |
