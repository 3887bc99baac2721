/**
 * The text exports of a palette (script.js `exportAsCSS` and `exportAsText`,
 * scripts/index.js `exportPaletteAsCSS` and `exportPaletteAsText`), the
 * padding of scripts/index.js `generateSVGPattern`, and the usage table of
 * script.js `trackPaletteUsage`. The download and the `localStorage` read and
 * write around them are not modelled: the exports return the text they would
 * download, and the usage table is an object holding the stored map.
 */
module Exports {
  import opened Wrappers
  import opened HexCodec

  // ---------------------------------------------------------------------
  // Splitting text into lines

  predicate NoNewline(s: string) {
    forall k :: 0 <= k < |s| ==> s[k] != '\n'
  }

  /** `s.split('\n')`: the pieces between line breaks, one more than there
      are breaks. */
  function Lines(s: string): (parts: seq<string>)
    ensures |parts| >= 1
    decreases |s|
  {
    if s == [] then [""]
    else
      var rest := Lines(s[1..]);
      if s[0] == '\n' then [""] + rest else [[s[0]] + rest[0]] + rest[1..]
  }

  /** A piece without breaks is one line; followed by a break, it is the
      first line of whatever comes after. */
  lemma {:induction false} LinesOfPiece(p: string, t: string)
    requires NoNewline(p)
    ensures Lines(p) == [p]
    ensures Lines(p + "\n" + t) == [p] + Lines(t)
    decreases |p|
  {
    if p != [] {
      assert (p + "\n" + t)[1..] == p[1..] + "\n" + t;
      assert NoNewline(p[1..]);
      LinesOfPiece(p[1..], t);
      assert [p[0]] + p[1..] == p;
    } else {
      assert p + "\n" + t == "\n" + t;
    }
  }

  // ---------------------------------------------------------------------
  // Plain text

  /** `colors.join('\n')`. */
  function JoinLines(colors: seq<string>): string {
    if colors == [] then ""
    else if |colors| == 1 then colors[0]
    else colors[0] + "\n" + JoinLines(colors[1..])
  }

  /** The text export reads back: splitting the joined text at line breaks
      gives the palette again, provided it is not empty and no colour holds
      a line break (the empty palette joins to "", which splits to one empty
      line). */
  lemma {:induction false} TextRoundTrip(colors: seq<string>)
    requires colors != [] && forall k :: 0 <= k < |colors| ==> NoNewline(colors[k])
    ensures Lines(JoinLines(colors)) == colors
  {
    LinesOfPiece(colors[0], "");
    if |colors| > 1 {
      TextRoundTrip(colors[1..]);
      LinesOfPiece(colors[0], JoinLines(colors[1..]));
      assert colors == [colors[0]] + colors[1..];
    }
  }

  /** scripts/index.js `exportPaletteAsText`: the joined palette. */
  function ExportPaletteAsText(currentPalette: seq<string>): (textContent: string)
    ensures currentPalette != [] && (forall k :: 0 <= k < |currentPalette| ==> NoNewline(currentPalette[k])) ==>
      Lines(textContent) == currentPalette
  {
    if currentPalette != [] && forall k :: 0 <= k < |currentPalette| ==> NoNewline(currentPalette[k]) then
      TextRoundTrip(currentPalette);
      JoinLines(currentPalette)
    else
      JoinLines(currentPalette)
  }

  /** script.js `exportAsText`: nothing for an empty palette, otherwise the
      joined palette, one colour per line. */
  function ExportAsText(currentColors: seq<string>): (text: Option<string>)
    ensures text.None? <==> currentColors == []
    ensures text.Some? && (forall k :: 0 <= k < |currentColors| ==> NoNewline(currentColors[k])) ==>
      Lines(text.value) == currentColors
  {
    if currentColors == [] then None else Some(ExportPaletteAsText(currentColors))
  }

  // ---------------------------------------------------------------------
  // CSS custom properties

  /** One declaration, numbered from 1, without its line break. */
  function CssDeclaration(index: nat, color: string): string {
    "  --color-" + NatToDec(index + 1) + ": " + color + ";"
  }

  /** The declarations of `colors`, numbered from `start + 1`, each ended by
      a line break. */
  function CssDeclarations(colors: seq<string>, start: nat): string
    decreases |colors|
  {
    if colors == [] then "" else CssDeclaration(start, colors[0]) + "\n" + CssDeclarations(colors[1..], start + 1)
  }

  /** The style sheet both CSS exports build. */
  function CssText(colors: seq<string>): string {
    ":root {\n" + CssDeclarations(colors, 0) + "}"
  }

  lemma CssDeclarationsStep(colors: seq<string>, i: nat)
    requires i < |colors|
    ensures CssDeclarations(colors[..i + 1], 0) ==
      CssDeclarations(colors[..i], 0) + CssDeclaration(i, colors[i]) + "\n"
  {
    hide CssDeclaration;
    DeclarationsSplit(colors[..i + 1], i, 0);
    assert colors[..i + 1][..i] == colors[..i];
    assert colors[..i + 1][i..] == [colors[i]];
  }

  /** The declarations of a list are those of a prefix followed by those of
      the rest, numbered on. */
  lemma {:induction false} DeclarationsSplit(colors: seq<string>, n: nat, start: nat)
    requires n <= |colors|
    ensures CssDeclarations(colors, start) ==
      CssDeclarations(colors[..n], start) + CssDeclarations(colors[n..], start + n)
    decreases n
  {
    hide CssDeclaration;
    if n > 0 {
      DeclarationsSplit(colors[1..], n - 1, start + 1);
      assert colors[1..][..n - 1] == colors[..n][1..];
      assert colors[1..][n - 1..] == colors[n..];
    }
  }

  /** The line the loop appends is one declaration and its line break. */
  lemma DeclarationLine(index: nat, color: string)
    ensures "  --color-" + NatToDec(index + 1) + ": " + color + ";\n" == CssDeclaration(index, color) + "\n"
  {
  }

  /** scripts/index.js `exportPaletteAsCSS`: `:root {`, then one
      `--color-k` line per colour in palette order, then `}`. */
  method ExportPaletteAsCss(currentPalette: seq<string>) returns (cssContent: string)
    ensures cssContent == CssText(currentPalette)
  {
    hide CssDeclaration;
    cssContent := ":root {\n";
    var index := 0;
    while index < |currentPalette|
      invariant 0 <= index <= |currentPalette|
      invariant cssContent == ":root {\n" + CssDeclarations(currentPalette[..index], 0)
    {
      var color := currentPalette[index];
      CssDeclarationsStep(currentPalette, index);
      DeclarationLine(index, color);
      cssContent := cssContent + ("  --color-" + NatToDec(index + 1) + ": " + color + ";\n");
      index := index + 1;
    }
    cssContent := cssContent + "}";
    assert currentPalette[..|currentPalette|] == currentPalette;
  }

  /** script.js `exportAsCSS`: nothing for an empty palette, otherwise the
      same style sheet, built by the same `forEach`. */
  method ExportAsCss(currentColors: seq<string>) returns (css: Option<string>)
    ensures css.None? <==> currentColors == []
    ensures css.Some? ==> css.value == CssText(currentColors)
  {
    if currentColors == [] {
      return None;
    }
    var text := ExportPaletteAsCss(currentColors);
    css := Some(text);
  }

  /** The declaration lines of `colors`, numbered from `start + 1`. */
  function DeclarationList(colors: seq<string>, start: nat): (decls: seq<string>)
    ensures |decls| == |colors|
    decreases |colors|
  {
    if colors == [] then [] else [CssDeclaration(start, colors[0])] + DeclarationList(colors[1..], start + 1)
  }

  lemma DeclarationOneLine(index: nat, color: string)
    requires NoNewline(color)
    ensures NoNewline(CssDeclaration(index, color))
  {
    var d := NatToDec(index + 1);
    assert forall k :: 0 <= k < |d| ==> IsDigit(d[k]);
  }

  lemma {:induction false} DeclarationLines(colors: seq<string>, start: nat)
    requires forall k :: 0 <= k < |colors| ==> NoNewline(colors[k])
    ensures Lines(CssDeclarations(colors, start) + "}") == DeclarationList(colors, start) + ["}"]
    decreases |colors|
  {
    hide CssDeclaration;
    if colors == [] {
      LinesOfPiece("}", "");
    } else {
      var decl := CssDeclaration(start, colors[0]);
      var rest := CssDeclarations(colors[1..], start + 1);
      DeclarationOneLine(start, colors[0]);
      DeclarationLines(colors[1..], start + 1);
      LinesOfPiece(decl, rest + "}");
      assert decl + "\n" + rest + "}" == decl + "\n" + (rest + "}");
    }
  }

  /** The style sheet reads back line by line: `:root {`, the declaration of
      each colour in palette order numbered from 1, and `}`, provided no
      colour holds a line break. */
  lemma CssLines(colors: seq<string>)
    requires forall k :: 0 <= k < |colors| ==> NoNewline(colors[k])
    ensures var lines := Lines(CssText(colors));
      |lines| == |colors| + 2 && lines[0] == ":root {" && lines[|lines| - 1] == "}" &&
      forall k :: 0 <= k < |colors| ==> lines[k + 1] == "  --color-" + NatToDec(k + 1) + ": " + colors[k] + ";"
  {
    hide CssDeclarations, DeclarationList, Lines;
    DeclarationLines(colors, 0);
    LinesOfPiece(":root {", CssDeclarations(colors, 0) + "}");
    assert CssText(colors) == ":root {" + "\n" + (CssDeclarations(colors, 0) + "}");
    DeclarationListAt(colors, 0);
    var lines := Lines(CssText(colors));
    forall k | 0 <= k < |colors|
      ensures lines[k + 1] == "  --color-" + NatToDec(k + 1) + ": " + colors[k] + ";"
    {
      assert lines[k + 1] == DeclarationList(colors, 0)[k];
    }
  }

  lemma {:induction false} DeclarationListAt(colors: seq<string>, start: nat)
    ensures forall k :: 0 <= k < |colors| ==> DeclarationList(colors, start)[k] == CssDeclaration(start + k, colors[k])
    decreases |colors|
  {
    hide CssDeclaration;
    if colors != [] {
      DeclarationListAt(colors[1..], start + 1);
    }
  }

  // ---------------------------------------------------------------------
  // SVG pattern colours

  /** The default colour `generateSVGPattern` pads with. */
  const DefaultColor: string := "#FFFFFF"

  /** The padding loop of scripts/index.js `generateSVGPattern`, on the
      already sorted copy: `#FFFFFF` is pushed until there are eight colours.
      The colours present stay, in order, and only the default is added. */
  method PadColors(sortedColors: seq<string>) returns (padded: seq<string>)
    ensures |padded| == if |sortedColors| < 8 then 8 else |sortedColors|
    ensures padded[..|sortedColors|] == sortedColors
    ensures forall k :: |sortedColors| <= k < |padded| ==> padded[k] == DefaultColor
  {
    padded := sortedColors;
    while |padded| < 8
      invariant |sortedColors| <= |padded| <= if |sortedColors| < 8 then 8 else |sortedColors|
      invariant padded[..|sortedColors|] == sortedColors
      invariant forall k :: |sortedColors| <= k < |padded| ==> padded[k] == DefaultColor
      decreases 8 - |padded|
    {
      padded := padded + [DefaultColor];
    }
  }

  // ---------------------------------------------------------------------
  // Usage statistics

  /** The count a table holds for a colour, absent keys counting 0 as
      `usageData[color] || 0` does. */
  function CountOf(usage: map<string, nat>, color: string): nat {
    if color in usage then usage[color] else 0
  }

  /** The table after counting every colour of `palette` once more. */
  function Tracked(usage: map<string, nat>, palette: seq<string>): map<string, nat>
    decreases |palette|
  {
    if palette == [] then usage
    else Tracked(usage[palette[0] := CountOf(usage, palette[0]) + 1], palette[1..])
  }

  /** Counting a palette raises each colour's count by the number of times
      it occurs in the palette, adds exactly the new colours as keys, and
      leaves every other entry as it was. */
  lemma {:induction false} TrackedCounts(usage: map<string, nat>, palette: seq<string>)
    ensures forall color :: CountOf(Tracked(usage, palette), color) == CountOf(usage, color) + multiset(palette)[color]
    ensures Tracked(usage, palette).Keys == usage.Keys + set c | c in palette
    decreases |palette|
  {
    if palette != [] {
      var next := usage[palette[0] := CountOf(usage, palette[0]) + 1];
      TrackedCounts(next, palette[1..]);
      TrackedStep(usage, palette, next);
    }
  }

  lemma TrackedStep(usage: map<string, nat>, palette: seq<string>, next: map<string, nat>)
    requires palette != [] && next == usage[palette[0] := CountOf(usage, palette[0]) + 1]
    ensures forall color ::
      CountOf(next, color) + multiset(palette[1..])[color] == CountOf(usage, color) + multiset(palette)[color]
    ensures next.Keys + (set c | c in palette[1..]) == usage.Keys + set c | c in palette
  {
    assert palette == [palette[0]] + palette[1..];
    assert multiset(palette) == multiset{palette[0]} + multiset(palette[1..]);
    assert (set c | c in palette) == {palette[0]} + set c | c in palette[1..];
  }

  /** The `paletteUsage` table kept in `localStorage`. */
  class UsageStore {
    var usageData: map<string, nat>

    constructor(stored: map<string, nat>)
      ensures usageData == stored
    {
      usageData := stored;
    }

    /** script.js `trackPaletteUsage(palette)`: for an empty palette nothing
        is written; otherwise each colour's count goes up by one per
        occurrence, in palette order. */
    method TrackPaletteUsage(palette: seq<string>)
      modifies this
      ensures usageData == Tracked(old(usageData), palette)
      ensures palette == [] ==> usageData == old(usageData)
      ensures forall color :: CountOf(usageData, color) == CountOf(old(usageData), color) + multiset(palette)[color]
      ensures usageData.Keys == old(usageData).Keys + set c | c in palette
    {
      if palette == [] {
        TrackedCounts(usageData, palette);
        return;
      }
      var i := 0;
      while i < |palette|
        invariant 0 <= i <= |palette|
        invariant Tracked(usageData, palette[i..]) == Tracked(old(usageData), palette)
      {
        var color := palette[i];
        assert palette[i..][1..] == palette[i + 1..];
        usageData := usageData[color := CountOf(usageData, color) + 1];
        i := i + 1;
      }
      TrackedCounts(old(usageData), palette);
    }
  }
}
