/**
 * The colour text codecs every script carries a copy of:
 *  - the hex parser (`hexToRgbArray` / `hexToRgbObject` in script.js,
 *    accessibility_checker.js, scripts/index.js and scripts/palette.js, and the
 *    `slice(1)` variant `hexToRgb` in scripts/accessibility_checker.js);
 *  - the `rgb(r, g, b)` template (`hexToRgbString`) and the string form of
 *    `rgbToHex`, which re-reads the decimal numbers out of such a string;
 *  - the `#rrggbb` encoders, upper case (script.js, scripts/palette.js) and
 *    lower case (scripts/accessibility_checker.js, scripts/image_ext.js).
 */
module HexCodec {
  import opened Wrappers

  /** A colour as three integer channels. The decoders always produce
      channels in 0..255; the encoders are also handed rounded HSL results,
      which nothing clamps. */
  datatype Rgb = Rgb(r: int, g: int, b: int)

  predicate InGamut(c: Rgb) {
    0 <= c.r <= 255 && 0 <= c.g <= 255 && 0 <= c.b <= 255
  }

  function Abs(x: int): nat { if x < 0 then -x else x }

  // ---------------------------------------------------------------------
  // Characters

  predicate IsDigit(ch: char) { '0' <= ch <= '9' }

  predicate IsHexDigit(ch: char) { '0' <= ch <= '9' || 'a' <= ch <= 'f' || 'A' <= ch <= 'F' }

  /** The digits `Number.prototype.toString(16)` writes. */
  predicate IsLowerHexDigit(ch: char) { '0' <= ch <= '9' || 'a' <= ch <= 'f' }

  predicate AllDigits(s: string) { forall i :: 0 <= i < |s| ==> IsDigit(s[i]) }

  predicate AllHex(s: string) { forall i :: 0 <= i < |s| ==> IsHexDigit(s[i]) }

  predicate AllLowerHex(s: string) { forall i :: 0 <= i < |s| ==> IsLowerHexDigit(s[i]) }

  function HexDigitValue(ch: char): (v: nat)
    requires IsHexDigit(ch)
    ensures v < 16
  {
    if '0' <= ch <= '9' then ch as int - '0' as int
    else if 'a' <= ch <= 'f' then ch as int - 'a' as int + 10
    else ch as int - 'A' as int + 10
  }

  function HexDigitChar(v: nat): (ch: char)
    requires v < 16
    ensures IsLowerHexDigit(ch) && IsHexDigit(ch) && HexDigitValue(ch) == v
  {
    if v < 10 then ('0' as int + v) as char else ('a' as int + v - 10) as char
  }

  function DigitChar(v: nat): (ch: char)
    requires v < 10
    ensures IsDigit(ch) && ch as int - '0' as int == v
  {
    ('0' as int + v) as char
  }

  /** `toUpperCase` on ASCII, which is all a colour string holds. */
  function UpperChar(ch: char): char {
    if 'a' <= ch <= 'z' then (ch as int - 32) as char else ch
  }

  function Upper(s: string): string {
    seq(|s|, i requires 0 <= i < |s| => UpperChar(s[i]))
  }

  // ---------------------------------------------------------------------
  // Numbers read out of text

  /** The value of a string of hex digits, most significant first. */
  function HexValue(d: string): nat
    requires AllHex(d)
  {
    if d == [] then 0 else 16 * HexValue(d[..|d| - 1]) + HexDigitValue(d[|d| - 1])
  }

  /** The value of a string of decimal digits, as `Number` reads it. */
  function DecValue(d: string): nat
    requires AllDigits(d)
  {
    if d == [] then 0 else 10 * DecValue(d[..|d| - 1]) + (d[|d| - 1] as int - '0' as int)
  }

  function LeadingHex(s: string): (n: nat)
    ensures n <= |s| && AllHex(s[..n]) && (n < |s| ==> !IsHexDigit(s[n]))
  {
    if s == [] || !IsHexDigit(s[0]) then 0
    else
      var m := LeadingHex(s[1..]);
      assert s[..m + 1] == [s[0]] + s[1..][..m];
      m + 1
  }

  function LeadingDigits(s: string): (n: nat)
    ensures n <= |s| && AllDigits(s[..n]) && (n < |s| ==> !IsDigit(s[n]))
    ensures |s| > 0 && IsDigit(s[0]) ==> n >= 1
  {
    if s == [] || !IsDigit(s[0]) then 0
    else
      var m := LeadingDigits(s[1..]);
      assert s[..m + 1] == [s[0]] + s[1..][..m];
      m + 1
  }

  /** `parseInt(c, 16)` as the shifts then see it: an optional sign, an
      optional `0x`, then the longest run of hex digits; no digits at all is
      NaN, which the shifts read as 0. */
  function ParseIntHex(c: string): int {
    var negative := |c| > 0 && c[0] == '-';
    var unsigned := if |c| > 0 && (c[0] == '-' || c[0] == '+') then c[1..] else c;
    var body :=
      if |unsigned| >= 2 && unsigned[0] == '0' && (unsigned[1] == 'x' || unsigned[1] == 'X')
      then unsigned[2..] else unsigned;
    var v: int := HexValue(body[..LeadingHex(body)]);
    if negative then -v else v
  }

  /** `[(num >> 16) & 255, (num >> 8) & 255, num & 255]`. The shifts are floor
      divisions and `& 255` the non-negative remainder; both agree with the
      32-bit truncation for every integer. */
  function Channels(num: int): (c: Rgb)
    ensures InGamut(c)
  {
    Rgb((num / 65536) % 256, (num / 256) % 256, num % 256)
  }

  function StripHash(hex: string): string {
    if |hex| > 0 && hex[0] == '#' then hex[1..] else hex
  }

  /** `c.split('').map((char) => char + char).join('')` when `c.length === 3`. */
  function ExpandShorthand(c: string): (e: string)
    ensures |c| == 3 ==> e == [c[0], c[0], c[1], c[1], c[2], c[2]]
    ensures |c| != 3 ==> e == c
  {
    if |c| == 3 then [c[0], c[0], c[1], c[1], c[2], c[2]] else c
  }

  /** `hexToRgbArray` / `hexToRgbObject`: drop a leading `#` if there is one,
      expand a 3-character shorthand, parse base 16, split big-endian. */
  function HexToRgb(hex: string): (c: Rgb)
    ensures InGamut(c)
  {
    Channels(ParseIntHex(ExpandShorthand(StripHash(hex))))
  }

  /** scripts/accessibility_checker.js `hexToRgb`: drops the first character
      whatever it is (`hex.slice(1)`). */
  function HexToRgbSliced(hex: string): (c: Rgb)
    ensures InGamut(c)
    ensures |hex| > 0 && hex[0] == '#' ==> c == HexToRgb(hex)
  {
    Channels(ParseIntHex(ExpandShorthand(if |hex| > 0 then hex[1..] else hex)))
  }

  /** script.js `isValidHex`: `/^#?[A-Fa-f0-9]{6}$/`. */
  predicate IsValidHex(hex: string) {
    (|hex| == 6 && AllHex(hex)) || (|hex| == 7 && hex[0] == '#' && AllHex(hex[1..]))
  }

  // ---------------------------------------------------------------------
  // Numbers written as text

  /** `x.toString(16)` for a non-negative integer. */
  function NatToHex(x: nat): (s: string)
    ensures 1 <= |s|
    ensures x < 16 <==> |s| == 1
    ensures x < 256 ==> |s| <= 2
    decreases x
  {
    if x < 16 then [HexDigitChar(x)] else NatToHex(x / 16) + [HexDigitChar(x % 16)]
  }

  /** `x.toString(16)` for any integer: a minus sign, then the magnitude. */
  function IntToHex(x: int): string {
    if x < 0 then "-" + NatToHex(-x) else NatToHex(x)
  }

  /** `hex.length === 1 ? '0' + hex : hex`; on the non-empty strings
      `toString` yields this is also `padStart(2, '0')`. */
  function Pad2(h: string): string {
    if |h| == 1 then "0" + h else h
  }

  function HexPair(x: int): string {
    Pad2(IntToHex(x))
  }

  /** scripts/accessibility_checker.js `rgbToHex({ r, g, b })`: lower case. */
  function RgbToHexLower(c: Rgb): string {
    "#" + HexPair(c.r) + HexPair(c.g) + HexPair(c.b)
  }

  /** scripts/palette.js `rgbToHex(rgb)` on an `{r, g, b}` object: upper case. */
  function RgbObjectToHex(c: Rgb): string {
    Upper(RgbToHexLower(c))
  }

  /** `String(x)` for a non-negative integer. */
  function NatToDec(x: nat): (s: string)
    ensures 1 <= |s| && AllDigits(s) && DecValue(s) == x
    decreases x
  {
    if x < 10 then [DigitChar(x)]
    else
      var s := NatToDec(x / 10) + [DigitChar(x % 10)];
      assert s[..|s| - 1] == NatToDec(x / 10);
      s
  }

  function Sign(x: int): string { if x < 0 then "-" else "" }

  function IntToDec(x: int): string { Sign(x) + NatToDec(Abs(x)) }

  /** The template `rgb(${r}, ${g}, ${b})`, which is what `rgb.join(', ')`
      inside `rgb(...)` produces too. */
  function RgbString(c: Rgb): string {
    "rgb(" + IntToDec(c.r) + ", " + IntToDec(c.g) + ", " + IntToDec(c.b) + ")"
  }

  /** script.js `hexToRgbString`. */
  function HexToRgbString(hex: string): (s: string)
    ensures var c := HexToRgb(hex); s == RgbString(c) && DigitRuns(s) == [c.r, c.g, c.b]
  {
    RgbStringRuns(HexToRgb(hex));
    RgbString(HexToRgb(hex))
  }

  /** `s.match(/\d+/g).map(Number)`: the maximal runs of decimal digits, as
      numbers, in order. */
  function DigitRuns(s: string): (runs: seq<nat>)
    ensures |runs| <= |s|
    ensures (forall i :: 0 <= i < |s| ==> !IsDigit(s[i])) ==> runs == []
    decreases |s|
  {
    if s == [] then []
    else if !IsDigit(s[0]) then DigitRuns(s[1..])
    else
      var n := LeadingDigits(s);
      [DecValue(s[..n])] + DigitRuns(s[n..])
  }

  function HexPairs(xs: seq<nat>): string {
    if xs == [] then "" else HexPair(xs[0]) + HexPairs(xs[1..])
  }

  /** script.js / accessibility_checker.js / scripts/index.js `rgbToHex(rgb)`:
      each decimal number found in the string becomes a zero-padded hex pair,
      and the whole is upper-cased. `match` finds nothing in a string without
      digits and returns null, on which `.map` throws: `None`. */
  function RgbToHex(rgb: string): (hex: Option<string>)
    ensures hex.None? <==> DigitRuns(rgb) == []
  {
    var xs := DigitRuns(rgb);
    if xs == [] then None else Some(Upper("#" + HexPairs(xs)))
  }

  /** The step `rgbToHex(\`rgb(${r}, ${g}, ${b})\`)` that adjustBrightness and
      hslToHex end with, computed as the object encoder on the magnitudes
      (`RgbToHexOfRgbString` shows the two agree: the regex drops a minus
      sign). */
  function EncodeRgb(c: Rgb): string {
    RgbObjectToHex(Rgb(Abs(c.r), Abs(c.g), Abs(c.b)))
  }

  /** scripts/image_ext.js `colorToString`: round, clamp to 0..255, lower-case pairs. */
  function ClampRound(v: real): (c: int)
    ensures 0 <= c <= 255
  {
    var n := (v + 0.5).Floor;
    if n < 0 then 0 else if n > 255 then 255 else n
  }

  function ColorToString(r: real, g: real, b: real): (s: string)
    ensures |s| == 7 && s[0] == '#' && AllLowerHex(s[1..])
    ensures HexToRgbSliced(s) == Rgb(ClampRound(r), ClampRound(g), ClampRound(b))
  {
    var c := Rgb(ClampRound(r), ClampRound(g), ClampRound(b));
    LowerHexShape(c);
    DecodeEncode(c);
    RgbToHexLower(c)
  }

  // ---------------------------------------------------------------------
  // Lemmas: parsing

  /** `toString(16)` writes lower-case digits whose value is the number. */
  lemma {:induction false} NatToHexValue(x: nat)
    ensures AllLowerHex(NatToHex(x)) && AllHex(NatToHex(x)) && HexValue(NatToHex(x)) == x
    decreases x
  {
    var s := NatToHex(x);
    if x >= 16 {
      NatToHexValue(x / 16);
      assert s[..|s| - 1] == NatToHex(x / 16);
    }
  }

  lemma LeadingHexAll(s: string)
    requires AllHex(s)
    ensures LeadingHex(s) == |s|
  {
    if s != [] {
      LeadingHexAll(s[1..]);
    }
  }

  /** Six hex digits read as one number are the three pairs, big-endian. */
  lemma SixDigitValue(d: string)
    requires |d| == 6 && AllHex(d)
    ensures HexValue(d) == 65536 * PairValue(d[0], d[1]) + 256 * PairValue(d[2], d[3]) + PairValue(d[4], d[5])
  {
    assert d[..5][..4] == d[..4];
    assert d[..4][..3] == d[..3];
    assert d[..3][..2] == d[..2];
    assert d[..2][..1] == d[..1];
    assert d[..1][..0] == [];
    assert HexValue(d[..1]) == HexDigitValue(d[0]);
    assert HexValue(d[..2]) == PairValue(d[0], d[1]);
    assert HexValue(d[..3]) == 16 * PairValue(d[0], d[1]) + HexDigitValue(d[2]);
    assert HexValue(d[..4]) == 256 * PairValue(d[0], d[1]) + PairValue(d[2], d[3]);
    assert HexValue(d[..5]) == 4096 * PairValue(d[0], d[1]) + 16 * PairValue(d[2], d[3]) + HexDigitValue(d[4]);
  }

  lemma ParseSixDigits(d: string)
    requires |d| == 6 && AllHex(d)
    ensures ParseIntHex(d) == HexValue(d)
  {
    LeadingHexAll(d);
    assert d[..6] == d;
  }

  lemma ChannelsOfPairs(x: int, y: int, z: int)
    requires 0 <= x < 256 && 0 <= y < 256 && 0 <= z < 256
    ensures Channels(65536 * x + 256 * y + z) == Rgb(x, y, z)
  {
    var n := 65536 * x + 256 * y + z;
    assert n / 65536 == x;
    assert n / 256 == 256 * x + y;
    assert (256 * x + y) % 256 == y;
    assert n % 256 == z;
  }

  function PairValue(a: char, b: char): nat
    requires IsHexDigit(a) && IsHexDigit(b)
  {
    16 * HexDigitValue(a) + HexDigitValue(b)
  }

  /** For a six-digit colour with or without `#`, the channels are the digit
      pairs 1-2, 3-4 and 5-6. */
  lemma HexToRgbOfValid(hex: string)
    requires IsValidHex(hex)
    ensures var d := StripHash(hex);
      |d| == 6 && AllHex(d) &&
      HexToRgb(hex) == Rgb(PairValue(d[0], d[1]), PairValue(d[2], d[3]), PairValue(d[4], d[5]))
  {
    hide ParseIntHex, HexValue, Channels, LeadingHex;
    var d := StripHash(hex);
    if |hex| == 6 {
      assert IsHexDigit(hex[0]);
      assert d == hex;
    } else {
      assert d == hex[1..];
    }
    ParseSixDigits(d);
    SixDigitValue(d);
    ChannelsOfPairs(PairValue(d[0], d[1]), PairValue(d[2], d[3]), PairValue(d[4], d[5]));
  }

  /** A three-digit shorthand is expanded by doubling each digit, so each
      channel is 17 times its digit. */
  lemma HexToRgbShorthand(hex: string)
    requires (|hex| == 3 && AllHex(hex)) || (|hex| == 4 && hex[0] == '#' && AllHex(hex[1..]))
    ensures var d := StripHash(hex);
      |d| == 3 && AllHex(d) &&
      HexToRgb(hex) == Rgb(17 * HexDigitValue(d[0]), 17 * HexDigitValue(d[1]), 17 * HexDigitValue(d[2]))
  {
    hide ParseIntHex, HexValue, Channels, LeadingHex;
    var d := StripHash(hex);
    if |hex| == 3 {
      assert IsHexDigit(hex[0]);
      assert d == hex;
    } else {
      assert d == hex[1..];
    }
    var e := ExpandShorthand(d);
    assert e == [d[0], d[0], d[1], d[1], d[2], d[2]];
    assert AllHex(e);
    ParseSixDigits(e);
    SixDigitValue(e);
    ChannelsOfPairs(PairValue(e[0], e[1]), PairValue(e[2], e[3]), PairValue(e[4], e[5]));
  }

  // ---------------------------------------------------------------------
  // Lemmas: the `rgb(...)` string

  lemma {:induction false} SkipNonDigits(p: string, s: string)
    requires forall i :: 0 <= i < |p| ==> !IsDigit(p[i])
    ensures DigitRuns(p + s) == DigitRuns(s)
    decreases |p|
  {
    if p != [] {
      assert (p + s)[1..] == p[1..] + s;
      SkipNonDigits(p[1..], s);
    } else {
      assert p + s == s;
    }
  }

  lemma {:induction false} LeadingDigitsOfRun(d: string, s: string)
    requires AllDigits(d)
    requires s == [] || !IsDigit(s[0])
    ensures LeadingDigits(d + s) == |d|
    decreases |d|
  {
    if d == [] {
      assert d + s == s;
    } else {
      assert (d + s)[1..] == d[1..] + s;
      LeadingDigitsOfRun(d[1..], s);
    }
  }

  lemma TakeRun(d: string, s: string)
    requires 1 <= |d| && AllDigits(d)
    requires s == [] || !IsDigit(s[0])
    ensures DigitRuns(d + s) == [DecValue(d)] + DigitRuns(s)
  {
    LeadingDigitsOfRun(d, s);
    assert (d + s)[..|d|] == d;
    assert (d + s)[|d|..] == s;
  }

  /** One signed number between text without digits and text that does not
      start with a digit contributes its magnitude. */
  lemma TakeSignedRun(pre: string, x: int, rest: string)
    requires forall i :: 0 <= i < |pre| ==> !IsDigit(pre[i])
    requires rest == [] || !IsDigit(rest[0])
    ensures DigitRuns(pre + IntToDec(x) + rest) == [Abs(x)] + DigitRuns(rest)
  {
    hide DigitRuns, NatToDec, LeadingDigits, DecValue;
    var p := pre + Sign(x);
    var d := NatToDec(Abs(x));
    assert pre + IntToDec(x) + rest == p + (d + rest);
    assert forall i :: 0 <= i < |p| ==> !IsDigit(p[i]);
    SkipNonDigits(p, d + rest);
    TakeRun(d, rest);
  }

  /** Reading the numbers back out of `rgb(r, g, b)` gives the magnitudes
      of r, g and b: the pattern `\d+` does not see a minus sign. */
  lemma RgbStringRuns(c: Rgb)
    ensures DigitRuns(RgbString(c)) == [Abs(c.r), Abs(c.g), Abs(c.b)]
  {
    var r2 := ")";
    var r1 := ", " + IntToDec(c.b) + r2;
    var r0 := ", " + IntToDec(c.g) + r1;
    assert RgbString(c) == "rgb(" + IntToDec(c.r) + r0;
    assert DigitRuns(r2) == [] by {
      assert r2[1..] == [];
    }
    TakeSignedRun(", ", c.b, r2);
    TakeSignedRun(", ", c.g, r1);
    TakeSignedRun("rgb(", c.r, r0);
  }

  /** Writing a colour into `rgb(r, g, b)` and reading it back with
      `rgbToHex` gives the object encoding of the channel magnitudes. */
  lemma RgbToHexOfRgbString(c: Rgb)
    ensures RgbToHex(RgbString(c)) == Some(EncodeRgb(c))
  {
    hide RgbString, DigitRuns, HexPairs, HexPair, Upper;
    RgbStringRuns(c);
    var m := Rgb(Abs(c.r), Abs(c.g), Abs(c.b));
    HexPairsOfThree(m.r, m.g, m.b);
    assert "#" + HexPairs([m.r, m.g, m.b]) == RgbToHexLower(m);
  }

  lemma HexPairsOfThree(x: nat, y: nat, z: nat)
    ensures HexPairs([x, y, z]) == HexPair(x) + HexPair(y) + HexPair(z)
  {
    var xs := [x, y, z];
    assert xs[1..][1..][1..] == [];
    assert HexPairs(xs[1..][1..]) == HexPair(z) + "";
    assert HexPairs(xs[1..]) == HexPair(y) + HexPairs(xs[1..][1..]);
  }

  // ---------------------------------------------------------------------
  // Lemmas: round trips

  /** An in-gamut channel is written as exactly two lower-case digits, high
      nibble first: `toString(16)` plus the zero pad. */
  lemma PairDigits(x: int)
    requires 0 <= x <= 255
    ensures HexPair(x) == [HexDigitChar(x / 16), HexDigitChar(x % 16)]
  {
    if x < 16 {
      assert NatToHex(x) == [HexDigitChar(x)];
      assert HexDigitChar(0) == '0';
    } else {
      assert NatToHex(x / 16) == [HexDigitChar(x / 16)];
    }
  }

  /** The seven characters of an in-gamut lower-case encoding. */
  lemma LowerDigits(c: Rgb)
    requires InGamut(c)
    ensures RgbToHexLower(c) ==
      ['#', HexDigitChar(c.r / 16), HexDigitChar(c.r % 16), HexDigitChar(c.g / 16),
       HexDigitChar(c.g % 16), HexDigitChar(c.b / 16), HexDigitChar(c.b % 16)]
  {
    var pr, pg, pb := HexPair(c.r), HexPair(c.g), HexPair(c.b);
    assert RgbToHexLower(c) == "#" + pr + pg + pb;
    PairDigits(c.r);
    PairDigits(c.g);
    PairDigits(c.b);
    assert |pr| == 2 && |pg| == 2 && |pb| == 2;
  }

  lemma PairNibbles(a: char, b: char)
    requires IsHexDigit(a) && IsHexDigit(b)
    ensures PairValue(a, b) / 16 == HexDigitValue(a) && PairValue(a, b) % 16 == HexDigitValue(b)
  {
  }

  lemma UpperCharOfHex(ch: char)
    requires IsHexDigit(ch)
    ensures IsHexDigit(UpperChar(ch)) && HexDigitValue(UpperChar(ch)) == HexDigitValue(ch)
    ensures UpperChar(HexDigitChar(HexDigitValue(ch))) == UpperChar(ch)
  {
  }

  lemma LowerCharOfHex(ch: char)
    requires IsLowerHexDigit(ch)
    ensures HexDigitChar(HexDigitValue(ch)) == ch
  {
  }

  /** The seven characters of an in-gamut upper-case encoding. */
  lemma UpperDigits(c: Rgb)
    requires InGamut(c)
    ensures RgbObjectToHex(c) ==
      ['#', UpperChar(HexDigitChar(c.r / 16)), UpperChar(HexDigitChar(c.r % 16)),
       UpperChar(HexDigitChar(c.g / 16)), UpperChar(HexDigitChar(c.g % 16)),
       UpperChar(HexDigitChar(c.b / 16)), UpperChar(HexDigitChar(c.b % 16))]
  {
    LowerDigits(c);
  }

  /** The two digits written for an in-gamut channel, in either case, read
      back as the channel. */
  lemma PairOfDigits(x: int)
    requires 0 <= x <= 255
    ensures PairValue(HexDigitChar(x / 16), HexDigitChar(x % 16)) == x
    ensures IsHexDigit(UpperChar(HexDigitChar(x / 16))) && IsHexDigit(UpperChar(HexDigitChar(x % 16)))
    ensures PairValue(UpperChar(HexDigitChar(x / 16)), UpperChar(HexDigitChar(x % 16))) == x
  {
    UpperCharOfHex(HexDigitChar(x / 16));
    UpperCharOfHex(HexDigitChar(x % 16));
  }

  /** A `#` and six hex digits decode pair by pair, with both decoders. */
  lemma DecodeSeven(hex: string, c: Rgb)
    requires |hex| == 7 && hex[0] == '#'
    requires forall i :: 1 <= i < 7 ==> IsHexDigit(hex[i])
    requires PairValue(hex[1], hex[2]) == c.r && PairValue(hex[3], hex[4]) == c.g
      && PairValue(hex[5], hex[6]) == c.b
    ensures IsValidHex(hex) && HexToRgb(hex) == c && HexToRgbSliced(hex) == c
  {
    assert forall j :: 0 <= j < 6 ==> hex[1..][j] == hex[j + 1];
    HexToRgbOfValid(hex);
  }

  /** The lower-case encoding of an in-gamut colour is `#` and six lower-case
      digits. */
  lemma LowerHexShape(c: Rgb)
    requires InGamut(c)
    ensures var hex := RgbToHexLower(c); |hex| == 7 && hex[0] == '#' && AllLowerHex(hex[1..])
  {
    hide RgbToHexLower;
    LowerDigits(c);
    var hex := RgbToHexLower(c);
    assert forall j :: 0 <= j < 6 ==> hex[1..][j] == hex[j + 1];
  }

  /** On an in-gamut colour `rgbToHex(rgb(...))` is the object encoding: a
      valid `#RRGGBB` that decodes back to the colour. */
  lemma EncodeInGamut(c: Rgb)
    requires InGamut(c)
    ensures EncodeRgb(c) == RgbObjectToHex(c)
    ensures IsValidHex(EncodeRgb(c)) && |EncodeRgb(c)| == 7 && EncodeRgb(c)[0] == '#'
    ensures HexToRgb(EncodeRgb(c)) == c
  {
    hide RgbObjectToHex, HexToRgb;
    assert Rgb(Abs(c.r), Abs(c.g), Abs(c.b)) == c;
    ObjectHexValid(c);
    DecodeEncode(c);
  }

  /** The upper-case encoding of an in-gamut colour is a valid `#RRGGBB`. */
  lemma ObjectHexValid(c: Rgb)
    requires InGamut(c)
    ensures IsValidHex(RgbObjectToHex(c)) && |RgbObjectToHex(c)| == 7 && RgbObjectToHex(c)[0] == '#'
  {
    DecodeEncode(c);
  }

  /** Decoding an encoded in-gamut colour gives it back, through both
      encoders and both decoders. */
  lemma DecodeEncode(c: Rgb)
    requires InGamut(c)
    ensures IsValidHex(RgbToHexLower(c)) && IsValidHex(RgbObjectToHex(c))
    ensures HexToRgb(RgbToHexLower(c)) == c
    ensures HexToRgbSliced(RgbToHexLower(c)) == c
    ensures HexToRgb(RgbObjectToHex(c)) == c
  {
    hide RgbToHexLower, RgbObjectToHex, HexToRgb, HexToRgbSliced;
    LowerDigits(c);
    UpperDigits(c);
    PairOfDigits(c.r);
    PairOfDigits(c.g);
    PairOfDigits(c.b);
    DecodeSeven(RgbToHexLower(c), c);
    DecodeSeven(RgbObjectToHex(c), c);
  }

  lemma UpperSix(d: string)
    requires |d| == 6
    ensures "#" + Upper(d) ==
      ['#', UpperChar(d[0]), UpperChar(d[1]), UpperChar(d[2]), UpperChar(d[3]), UpperChar(d[4]), UpperChar(d[5])]
  {
  }

  /** Parse then encode upper case: `#` plus the digits in upper case, with
      or without the `#` in the input, through the object encoder and through
      the `rgb(...)` string. */
  lemma EncodeDecode(hex: string)
    requires IsValidHex(hex)
    ensures RgbObjectToHex(HexToRgb(hex)) == "#" + Upper(StripHash(hex))
    ensures EncodeRgb(HexToRgb(hex)) == "#" + Upper(StripHash(hex))
    ensures RgbToHex(HexToRgbString(hex)) == Some("#" + Upper(StripHash(hex)))
  {
    hide RgbObjectToHex, HexToRgb, RgbToHex, RgbString, Upper, StripHash;
    ObjectEncodeDecode(hex);
    RgbToHexOfRgbString(HexToRgb(hex));
  }

  lemma ObjectEncodeDecode(hex: string)
    requires IsValidHex(hex)
    ensures RgbObjectToHex(HexToRgb(hex)) == "#" + Upper(StripHash(hex))
  {
    hide RgbObjectToHex, HexToRgb, Upper, StripHash;
    HexToRgbOfValid(hex);
    var d := StripHash(hex);
    var c := HexToRgb(hex);
    PairNibbles(d[0], d[1]);
    PairNibbles(d[2], d[3]);
    PairNibbles(d[4], d[5]);
    UpperDigits(c);
    UpperSix(d);
    forall i | 0 <= i < 6 ensures UpperChar(HexDigitChar(HexDigitValue(d[i]))) == UpperChar(d[i]) {
      UpperCharOfHex(d[i]);
    }
  }

  /** The lower-case encoder inverts the `slice(1)` decoder on lower-case
      `#rrggbb`. */
  lemma LowerRoundTrip(hex: string)
    requires |hex| == 7 && hex[0] == '#' && AllLowerHex(hex[1..])
    ensures RgbToHexLower(HexToRgbSliced(hex)) == hex
  {
    hide RgbToHexLower, HexToRgb, HexToRgbSliced;
    var d := hex[1..];
    assert AllHex(d) by {
      forall j | 0 <= j < 6 ensures IsHexDigit(d[j]) {
        assert IsLowerHexDigit(d[j]);
      }
    }
    HexToRgbOfValid(hex);
    var c := HexToRgbSliced(hex);
    LowerDigits(c);
    PairNibbles(d[0], d[1]);
    PairNibbles(d[2], d[3]);
    PairNibbles(d[4], d[5]);
    forall i | 0 <= i < 6 ensures HexDigitChar(HexDigitValue(d[i])) == d[i] {
      assert IsLowerHexDigit(d[i]);
      LowerCharOfHex(d[i]);
    }
    assert hex == ['#', d[0], d[1], d[2], d[3], d[4], d[5]];
  }
}
