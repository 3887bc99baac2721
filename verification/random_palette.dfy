/**
 * The random palette of scripts/palette.js: `getRandomColor` and the loop of
 * `generateRandomPalette`. Each call of `Math.random()` is replaced by the
 * value it produced, passed in.
 */
module RandomPalette {
  import opened HexCodec

  /** The alphabet `getRandomColor` draws its six digits from. */
  const Letters: string := "0123456789ABCDEF"

  /** A draw `Math.floor(Math.random() * 16)` picks the digit of its own value. */
  lemma LetterValue(d: nat)
    requires d < 16
    ensures IsHexDigit(Letters[d]) && HexDigitValue(Letters[d]) == d
  {
  }

  /** scripts/palette.js and script.js `getRandomColor`, with the six draws
      `Math.floor(Math.random() * 16)` as `draws`. The result is `#` and six
      upper-case digits, one per draw in order, so it is a valid hex colour
      whose channels are the draws read in pairs. */
  method GetRandomColor(draws: seq<nat>) returns (color: string)
    requires |draws| == 6 && forall i :: 0 <= i < 6 ==> draws[i] < 16
    ensures |color| == 7 && color[0] == '#'
    ensures forall i :: 1 <= i < 7 ==> color[i] == Letters[draws[i - 1]]
    ensures IsValidHex(color)
    ensures HexToRgb(color) == Rgb(16 * draws[0] + draws[1], 16 * draws[2] + draws[3], 16 * draws[4] + draws[5])
  {
    color := "#";
    var i := 0;
    while i < 6
      invariant 0 <= i <= 6 && |color| == i + 1 && color[0] == '#'
      invariant forall k :: 1 <= k <= i ==> color[k] == Letters[draws[k - 1]]
    {
      color := color + [Letters[draws[i]]];
      i := i + 1;
    }
    DrawnColorDecodes(color, draws);
  }

  /** `#` and six drawn letters decode to the draws read in pairs. */
  lemma DrawnColorDecodes(color: string, draws: seq<nat>)
    requires |draws| == 6 && forall i :: 0 <= i < 6 ==> draws[i] < 16
    requires |color| == 7 && color[0] == '#'
    requires forall i :: 1 <= i < 7 ==> color[i] == Letters[draws[i - 1]]
    ensures IsValidHex(color)
    ensures HexToRgb(color) == Rgb(16 * draws[0] + draws[1], 16 * draws[2] + draws[3], 16 * draws[4] + draws[5])
  {
    hide HexToRgb;
    forall k | 0 <= k < 6 ensures IsHexDigit(color[k + 1]) && HexDigitValue(color[k + 1]) == draws[k] {
      LetterValue(draws[k]);
    }
    assert forall j :: 0 <= j < 6 ==> color[1..][j] == color[j + 1];
    HexToRgbOfValid(color);
  }

  predicate Distinct(s: seq<string>) {
    forall i, j :: 0 <= i < j < |s| ==> s[i] != s[j]
  }

  /** A list without repeats has as many elements as its set. */
  lemma {:induction false} DistinctCard(s: seq<string>)
    requires Distinct(s)
    ensures |set x | x in s| == |s|
  {
    if s != [] {
      var t := s[..|s| - 1];
      assert Distinct(t);
      DistinctCard(t);
      var last := s[|s| - 1];
      assert last !in t;
      assert (set x | x in s) == (set x | x in t) + {last};
    }
  }

  /** The position of the first draw of `x`. */
  function FirstIndex(candidates: seq<string>, x: string): (k: nat)
    requires x in candidates
    ensures k < |candidates| && candidates[k] == x
    ensures forall m :: 0 <= m < k ==> candidates[m] != x
  {
    if candidates[0] == x then 0 else 1 + FirstIndex(candidates[1..], x)
  }

  /** Every colour of `s` was drawn, and `s` lists them in the order of their
      first draws. */
  predicate InDrawOrder(candidates: seq<string>, s: seq<string>) {
    (forall c :: c in s ==> c in candidates) &&
    (forall i, j :: 0 <= i < j < |s| ==>
       FirstIndex(candidates, s[i]) < FirstIndex(candidates, s[j]))
  }

  /** `palette` holds exactly the colours of the first `used` draws for some
      `used`, in the order of their first draws. */
  predicate FirstDrawn(candidates: seq<string>, palette: seq<string>) {
    (exists used :: 0 <= used <= |candidates| &&
       (forall m :: 0 <= m < used ==> candidates[m] in palette) &&
       (forall c :: c in palette ==> c in candidates[..used])) &&
    InDrawOrder(candidates, palette)
  }

  /** scripts/palette.js `generateRandomPalette`, with the colours
      `getRandomColor` returns as the stream `candidates` and `isAccessible`
      always true: a candidate is kept unless the palette already holds it,
      until the palette has 8 colours. The palette has no repeats and at
      most 8 colours; it is the colours of a prefix of the draws, in the
      order they were first drawn; and if it is short then every candidate
      is in it. */
  method GenerateRandomPalette(candidates: seq<string>) returns (palette: seq<string>)
    ensures Distinct(palette) && |palette| <= 8
    ensures forall c :: c in palette ==> c in candidates
    ensures |palette| < 8 ==> forall c :: c in candidates ==> c in palette
    ensures FirstDrawn(candidates, palette)
  {
    palette := [];
    ghost var at: seq<nat> := [];
    var next := 0;
    while |palette| < 8 && next < |candidates|
      invariant 0 <= next <= |candidates|
      invariant Distinct(palette) && |palette| <= 8
      invariant |at| == |palette|
      invariant forall k :: 0 <= k < |at| ==> at[k] < next && candidates[at[k]] == palette[k]
      invariant forall k, m :: 0 <= k < |at| && 0 <= m < at[k] ==> candidates[m] != palette[k]
      invariant forall k, k' :: 0 <= k < k' < |at| ==> at[k] < at[k']
      invariant forall m :: 0 <= m < next ==> candidates[m] in palette
    {
      var randomColor := candidates[next];
      if randomColor !in palette {
        palette := palette + [randomColor];
        at := at + [next];
      }
      next := next + 1;
    }
    hide FirstIndex;
    forall c | c in palette
      ensures c in candidates[..next]
    {
      var k :| 0 <= k < |palette| && palette[k] == c;
      assert candidates[..next][at[k]] == c;
    }
    DrawOrder(candidates, palette, at);
    assert 0 <= next <= |candidates| &&
      (forall m :: 0 <= m < next ==> candidates[m] in palette) &&
      (forall c :: c in palette ==> c in candidates[..next]);
  }

  /** Colours found at increasing positions, each not drawn earlier, are in
      the order of their first draws. */
  lemma DrawOrder(candidates: seq<string>, palette: seq<string>, at: seq<nat>)
    requires |at| == |palette|
    requires forall k :: 0 <= k < |at| ==> at[k] < |candidates| && candidates[at[k]] == palette[k]
    requires forall k, m :: 0 <= k < |at| && 0 <= m < at[k] ==> candidates[m] != palette[k]
    requires forall k, k' :: 0 <= k < k' < |at| ==> at[k] < at[k']
    ensures InDrawOrder(candidates, palette)
  {
    forall k | 0 <= k < |palette|
      ensures FirstIndex(candidates, palette[k]) == at[k]
    {
    }
  }

  lemma SubsetCard(a: set<string>, b: set<string>)
    requires a <= b
    ensures |a| <= |b|
  {
    assert b == a + (b - a);
  }

  /** In a list ordered by first draws, the head was drawn first. */
  lemma HeadFirst(candidates: seq<string>, s: seq<string>, c: string)
    requires InDrawOrder(candidates, s) && c in s
    ensures s[0] in candidates && c in candidates
    ensures FirstIndex(candidates, s[0]) <= FirstIndex(candidates, c)
  {
    var k :| 0 <= k < |s| && s[k] == c;
    if k > 0 {
      assert FirstIndex(candidates, s[0]) < FirstIndex(candidates, s[k]);
    }
  }

  /** The tail of a list in draw order is in draw order and does not hold
      the head again. */
  lemma OrderTail(candidates: seq<string>, s: seq<string>)
    requires InDrawOrder(candidates, s) && s != []
    ensures InDrawOrder(candidates, s[1..])
    ensures forall c :: c in s <==> c == s[0] || c in s[1..]
    ensures s[0] !in s[1..]
  {
    hide FirstIndex;
    assert s == [s[0]] + s[1..];
  }

  /** Two lists of drawn colours with the same members, each in the order of
      first draws, are the same list. */
  lemma {:induction false} SameOrderEqual(candidates: seq<string>, p: seq<string>, q: seq<string>)
    requires InDrawOrder(candidates, p) && InDrawOrder(candidates, q)
    requires forall c :: c in p <==> c in q
    ensures p == q
    decreases |p|
  {
    hide InDrawOrder;
    if p == [] {
      assert forall k :: 0 <= k < |q| ==> q[k] in p;
    } else {
      assert q != [] by { assert p[0] in q; }
      HeadFirst(candidates, p, q[0]);
      HeadFirst(candidates, q, p[0]);
      assert p[0] == candidates[FirstIndex(candidates, p[0])] == q[0];
      OrderTail(candidates, p);
      OrderTail(candidates, q);
      SameOrderEqual(candidates, p[1..], q[1..]);
      assert p == [p[0]] + p[1..] && q == [q[0]] + q[1..];
    }
  }

  /** The contract of `GenerateRandomPalette` pins its result: two palettes
      that both meet it are equal. */
  lemma FirstDrawnUnique(candidates: seq<string>, p: seq<string>, q: seq<string>)
    requires Distinct(p) && |p| <= 8 && (|p| < 8 ==> forall c :: c in candidates ==> c in p)
    requires Distinct(q) && |q| <= 8 && (|q| < 8 ==> forall c :: c in candidates ==> c in q)
    requires FirstDrawn(candidates, p) && FirstDrawn(candidates, q)
    ensures p == q
  {
    hide FirstIndex;
    var u :| 0 <= u <= |candidates| && (forall m :: 0 <= m < u ==> candidates[m] in p) &&
      (forall c :: c in p ==> c in candidates[..u]);
    var v :| 0 <= v <= |candidates| && (forall m :: 0 <= m < v ==> candidates[m] in q) &&
      (forall c :: c in q ==> c in candidates[..v]);
    if u <= v {
      SameMembers(candidates, p, q, u, v);
    } else {
      SameMembers(candidates, q, p, v, u);
    }
    SameOrderEqual(candidates, p, q);
  }

  /** The palette of the shorter prefix is inside the other, and both are
      capped or complete, so they have the same members. */
  lemma SameMembers(candidates: seq<string>, p: seq<string>, q: seq<string>, u: nat, v: nat)
    requires Distinct(p) && |p| <= 8 && (|p| < 8 ==> forall c :: c in candidates ==> c in p)
    requires Distinct(q) && |q| <= 8 && (|q| < 8 ==> forall c :: c in candidates ==> c in q)
    requires forall c :: c in q ==> c in candidates
    requires u <= |candidates| && forall c :: c in p ==> c in candidates[..u]
    requires u <= v <= |candidates| && forall m :: 0 <= m < v ==> candidates[m] in q
    ensures forall c :: c in p <==> c in q
  {
    forall c | c in p
      ensures c in q
    {
      var m :| 0 <= m < u && candidates[..u][m] == c;
      assert candidates[m] in q;
    }
    if |p| == 8 {
      var sp := set c | c in p;
      var sq := set c | c in q;
      DistinctCard(p);
      DistinctCard(q);
      assert sq == sp + (sq - sp);
      assert sq == sp;
      forall c | c in q
        ensures c in p
      {
        assert c in sq;
      }
    }
  }

  /** Given at least 8 different candidates the palette is full. */
  lemma FullWhenEnough(candidates: seq<string>, palette: seq<string>)
    requires Distinct(palette) && |palette| <= 8
    requires |palette| < 8 ==> forall c :: c in candidates ==> c in palette
    requires |set c | c in candidates| >= 8
    ensures |palette| == 8
  {
    if |palette| < 8 {
      DistinctCard(palette);
      SubsetCard(set c | c in candidates, set c | c in palette);
      assert false;
    }
  }
}
