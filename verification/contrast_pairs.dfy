/**
 * Searches over every unordered pair of a palette: scripts/image_ext.js
 * `findAllContrastPairs`, which lists each pair with its ratio and pass flag,
 * and the loop at the top of script.js `updateHarmonyVisualizer`, which keeps
 * the pair of highest contrast.
 */
module ContrastPairs {
  import opened HexCodec
  import opened Contrast

  /** One entry of `findAllContrastPairs`. */
  datatype ContrastPair = ContrastPair(color1: Rgb, color2: Rgb, contrastRatio: real, passes: bool)

  predicate AllInGamut(colors: seq<Rgb>) {
    forall k :: 0 <= k < |colors| ==> InGamut(colors[k])
  }

  /** The entry pushed for one pair: the pass flag is the 4.5 threshold. */
  function MakePair(gamma: real -> real, color1: Rgb, color2: Rgb): (p: ContrastPair)
    requires GammaBounds(gamma) && InGamut(color1) && InGamut(color2)
    ensures p.color1 == color1 && p.color2 == color2
    ensures p.passes <==> p.contrastRatio >= AA
    ensures p.contrastRatio == CalculateContrastRatio(gamma, color1, color2)
  {
    var r := CalculateContrastRatio(gamma, color1, color2);
    ContrastPair(color1, color2, r, r >= AA)
  }

  /** Row `i` of the enumeration: `(i, j)` for `j` from `i + 1` up to `hi - 1`. */
  function RowSpan(i: nat, hi: nat): seq<(nat, nat)>
    requires i < hi
  {
    seq(hi - i - 1, k requires 0 <= k < hi - i - 1 => (i, i + 1 + k))
  }

  /** Rows `0 .. i - 1` of the pairs of `n` items, in loop order. Every
      position is a genuine pair `a < b < n` from one of those rows. */
  function PairIndices(n: nat, i: nat): (p: seq<(nat, nat)>)
    requires i <= n
    ensures forall k :: 0 <= k < |p| ==> p[k].0 < i && p[k].0 < p[k].1 < n
  {
    if i == 0 then [] else PairIndices(n, i - 1) + RowSpan(i - 1, n)
  }

  predicate LexLess(x: (nat, nat), y: (nat, nat)) {
    x.0 < y.0 || (x.0 == y.0 && x.1 < y.1)
  }

  /** Each position comes strictly before every later one. */
  predicate StrictlyOrdered(p: seq<(nat, nat)>) {
    forall k, k' :: 0 <= k < k' < |p| ==> LexLess(p[k], p[k'])
  }

  /** The first `i` rows hold `i * (2n - i - 1) / 2` pairs. */
  lemma {:induction false} PairIndicesCount(n: nat, i: nat)
    requires i <= n
    ensures 2 * |PairIndices(n, i)| == i * (2 * n - i - 1)
  {
    if i > 0 {
      PairIndicesCount(n, i - 1);
      assert |RowSpan(i - 1, n)| == n - i;
    }
  }

  /** A pair of positions is listed exactly when `a < i` and `a < b < n`. */
  lemma {:induction false} PairIndicesMembers(n: nat, i: nat, a: nat, b: nat)
    requires i <= n
    ensures (a, b) in PairIndices(n, i) <==> a < i && a < b < n
  {
    if i > 0 {
      PairIndicesMembers(n, i - 1, a, b);
      var row := RowSpan(i - 1, n);
      if a == i - 1 && a < b < n {
        assert row[b - i] == (a, b);
      }
    }
  }

  /** Positions appear in strictly increasing lexicographic order. */
  lemma {:induction false} PairIndicesOrdered(n: nat, i: nat)
    requires i <= n
    ensures StrictlyOrdered(PairIndices(n, i))
  {
    if i > 0 {
      PairIndicesOrdered(n, i - 1);
      var front, row := PairIndices(n, i - 1), RowSpan(i - 1, n);
      var p := front + row;
      forall k, k' | 0 <= k < k' < |p|
        ensures LexLess(p[k], p[k'])
      {
        if k' < |front| {
          assert p[k] == front[k] && p[k'] == front[k'];
          assert LexLess(front[k], front[k']);
        } else if k < |front| {
          assert p[k] == front[k] && front[k].0 < i - 1;
          assert p[k'] == row[k' - |front|] == (i - 1, i + k' - |front|);
        } else {
          assert p[k] == row[k - |front|] == (i - 1, i + k - |front|);
          assert p[k'] == row[k' - |front|] == (i - 1, i + k' - |front|);
        }
      }
    }
  }

  /** The entries for a list of positions, in that order. */
  function PairsAt(gamma: real -> real, colors: seq<Rgb>, idx: seq<(nat, nat)>): seq<ContrastPair>
    requires GammaBounds(gamma) && AllInGamut(colors)
    requires forall k :: 0 <= k < |idx| ==> idx[k].0 < |colors| && idx[k].1 < |colors|
  {
    seq(|idx|, k requires 0 <= k < |idx| => MakePair(gamma, colors[idx[k].0], colors[idx[k].1]))
  }

  /** scripts/image_ext.js `findAllContrastPairs`: the nested loops push one
      entry per pair `i < j` in lexicographic order. The result has
      `n(n-1)/2` entries, entry `k` compares the colours at the `k`-th pair of
      positions, and each flag is the 4.5 threshold on its ratio. */
  method FindAllContrastPairs(gamma: real -> real, colors: seq<Rgb>) returns (contrastPairs: seq<ContrastPair>)
    requires GammaBounds(gamma) && AllInGamut(colors)
    ensures contrastPairs == PairsAt(gamma, colors, PairIndices(|colors|, |colors|))
    ensures 2 * |contrastPairs| == |colors| * (|colors| - 1)
    ensures forall k :: 0 <= k < |contrastPairs| ==>
      (contrastPairs[k].passes <==> contrastPairs[k].contrastRatio >= AA)
  {
    hide CalculateContrastRatio;
    var n := |colors|;
    contrastPairs := [];
    var i := 0;
    while i < n
      invariant 0 <= i <= n
      invariant contrastPairs == PairsAt(gamma, colors, PairIndices(n, i))
    {
      var j := i + 1;
      while j < n
        invariant i + 1 <= j <= n
        invariant contrastPairs == PairsAt(gamma, colors, PairIndices(n, i) + RowSpan(i, j))
      {
        var color1 := colors[i];
        var color2 := colors[j];
        var contrastRatio := CalculateContrastRatio(gamma, color1, color2);
        contrastPairs := contrastPairs + [ContrastPair(color1, color2, contrastRatio, contrastRatio >= AA)];
        assert PairIndices(n, i) + RowSpan(i, j + 1) == (PairIndices(n, i) + RowSpan(i, j)) + [(i, j)];
        j := j + 1;
      }
      assert PairIndices(n, i + 1) == PairIndices(n, i) + RowSpan(i, n);
      i := i + 1;
    }
    PairIndicesCount(n, n);
  }

  /** Every listed entry compares two distinct positions `i < j`, and every
      such pair is listed, exactly once and in lexicographic order. */
  lemma AllPairsListed(gamma: real -> real, colors: seq<Rgb>, i: nat, j: nat)
    requires GammaBounds(gamma) && AllInGamut(colors)
    requires i < j < |colors|
    ensures var idx := PairIndices(|colors|, |colors|);
      exists k :: 0 <= k < |idx| && idx[k] == (i, j) &&
        PairsAt(gamma, colors, idx)[k] == MakePair(gamma, colors[i], colors[j])
  {
    var idx := PairIndices(|colors|, |colors|);
    PairIndicesMembers(|colors|, |colors|, i, j);
    var k :| 0 <= k < |idx| && idx[k] == (i, j);
  }

  // ---------------------------------------------------------------------
  // script.js `updateHarmonyVisualizer`

  /** The ratio of the pair at positions `a`, `b` of a palette. */
  function PairContrast(contrast: (string, string) -> real, colors: seq<string>, a: nat, b: nat): real
    requires a < |colors| && b < |colors|
  {
    contrast(colors[a], colors[b])
  }

  /** Pair `a < b < n` comes before `(i, j)` in loop order. */
  predicate Seen(n: nat, i: nat, j: nat, a: nat, b: nat) {
    a < b < n && (a < i || (a == i && b < j))
  }

  /** Every ratio `calculateContrast` produces is at least 1, which is what
      the search below relies on. */
  lemma ContrastAtLeastOne(gamma: real -> real)
    requires GammaBounds(gamma)
    ensures forall x, y :: 1.0 <= CalculateContrast(gamma, x, y)
  {
  }

  /** The highest-contrast search of script.js `updateHarmonyVisualizer`,
      with `calculateContrast` as the parameter `contrast`: starting from
      positions 0 and 1 and a maximum of 0, each pair `i < j` whose ratio
      beats the maximum strictly replaces it. With at least two colours the
      chosen pair has the highest ratio of all pairs, and it is the first such
      pair in loop order. */
  method HighestContrastPair(contrast: (string, string) -> real, colors: seq<string>)
    returns (best1: nat, best2: nat, maxContrast: real)
    requires forall x, y :: 1.0 <= contrast(x, y)
    ensures |colors| < 2 ==> best1 == 0 && best2 == 1 && maxContrast == 0.0
    ensures |colors| >= 2 ==>
      best1 < best2 < |colors| && maxContrast == PairContrast(contrast, colors, best1, best2)
    ensures forall a, b :: 0 <= a < b < |colors| ==> PairContrast(contrast, colors, a, b) <= maxContrast
    ensures forall a, b :: 0 <= a < b < |colors| && LexLess((a, b), (best1, best2)) ==>
      PairContrast(contrast, colors, a, b) < maxContrast
  {
    var n := |colors|;
    maxContrast := 0.0;
    best1, best2 := 0, 1;
    var i := 0;
    while i < n
      invariant 0 <= i <= n
      invariant (maxContrast == 0.0 && best1 == 0 && best2 == 1) ||
        (Seen(n, i, i + 1, best1, best2) && maxContrast == PairContrast(contrast, colors, best1, best2))
      invariant forall a, b :: Seen(n, i, i + 1, a, b) ==> PairContrast(contrast, colors, a, b) <= maxContrast
      invariant forall a, b :: Seen(n, i, i + 1, a, b) && LexLess((a, b), (best1, best2)) ==>
        PairContrast(contrast, colors, a, b) < maxContrast
    {
      var j := i + 1;
      while j < n
        invariant i + 1 <= j <= n
        invariant (maxContrast == 0.0 && best1 == 0 && best2 == 1) ||
          (Seen(n, i, j, best1, best2) && maxContrast == PairContrast(contrast, colors, best1, best2))
        invariant forall a, b :: Seen(n, i, j, a, b) ==> PairContrast(contrast, colors, a, b) <= maxContrast
        invariant forall a, b :: Seen(n, i, j, a, b) && LexLess((a, b), (best1, best2)) ==>
          PairContrast(contrast, colors, a, b) < maxContrast
      {
        var ratio := contrast(colors[i], colors[j]);
        if ratio > maxContrast {
          maxContrast := ratio;
          best1, best2 := i, j;
        }
        j := j + 1;
      }
      i := i + 1;
    }
    if n >= 2 {
      assert Seen(n, n, n + 1, 0, 1);
    }
  }
}
