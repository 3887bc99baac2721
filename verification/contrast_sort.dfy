/**
 * script.js `sortColorsByContrast`: a copy of the palette sorted by
 * decreasing contrast with its first colour. `Array.prototype.sort` is
 * stable, so colours of equal contrast keep their relative order; the model
 * is the stable insertion sort on that key, and its result is characterised
 * completely: a permutation, in non-increasing key order, and for every key
 * value the colours with that key in their original order.
 */
module ContrastSort {
  import opened Contrast

  predicate SortedDesc(key: string -> real, s: seq<string>) {
    forall i, j :: 0 <= i < j < |s| ==> key(s[i]) >= key(s[j])
  }

  /** The colours of `s` whose key is `v`, in their order in `s`. */
  function WithKey(key: string -> real, v: real, s: seq<string>): seq<string> {
    if s == [] then [] else (if key(s[0]) == v then [s[0]] else []) + WithKey(key, v, s[1..])
  }

  /** Places `x` before the first colour whose key is not above its own. */
  function Insert(key: string -> real, x: string, s: seq<string>): seq<string> {
    if s == [] || key(x) >= key(s[0]) then [x] + s else [s[0]] + Insert(key, x, s[1..])
  }

  /** Stable sort by decreasing key: the first colour is inserted into the
      sorted rest. */
  function SortDesc(key: string -> real, s: seq<string>): seq<string> {
    if s == [] then [] else Insert(key, s[0], SortDesc(key, s[1..]))
  }

  lemma {:induction false} InsertPermutes(key: string -> real, x: string, s: seq<string>)
    ensures multiset(Insert(key, x, s)) == multiset(s) + multiset{x}
  {
    if s != [] && key(x) < key(s[0]) {
      InsertPermutes(key, x, s[1..]);
      assert s == [s[0]] + s[1..];
    }
  }

  lemma SortedTail(key: string -> real, s: seq<string>)
    requires SortedDesc(key, s) && s != []
    ensures SortedDesc(key, s[1..])
  {
    forall i, j | 0 <= i < j < |s[1..]|
      ensures key(s[1..][i]) >= key(s[1..][j])
    {
      assert s[1..][i] == s[i + 1] && s[1..][j] == s[j + 1];
    }
  }

  lemma {:induction false} InsertSorted(key: string -> real, x: string, s: seq<string>)
    requires SortedDesc(key, s)
    ensures var r := Insert(key, x, s); SortedDesc(key, r) && r != [] && (r[0] == x || r[0] == s[0])
  {
    if s != [] && key(x) < key(s[0]) {
      SortedTail(key, s);
      InsertSorted(key, x, s[1..]);
      var t := Insert(key, x, s[1..]);
      var r := [s[0]] + t;
      assert key(s[0]) >= key(t[0]) by {
        if t[0] != x {
          assert t[0] == s[1];
        }
      }
      forall i, j | 0 <= i < j < |r|
        ensures key(r[i]) >= key(r[j])
      {
        assert r[j] == t[j - 1];
        if i == 0 {
          if j > 1 {
            assert key(t[0]) >= key(t[j - 1]);
          }
        } else {
          assert r[i] == t[i - 1];
        }
      }
    }
  }

  lemma WithKeyCons(key: string -> real, v: real, y: string, t: seq<string>)
    ensures WithKey(key, v, [y] + t) == (if key(y) == v then [y] else []) + WithKey(key, v, t)
  {
    assert ([y] + t)[1..] == t;
  }

  /** Inserting `x` adds it, at the front, to the colours of its own key
      and leaves every other key's colours unchanged. */
  lemma {:induction false} InsertWithKey(key: string -> real, v: real, x: string, s: seq<string>)
    requires SortedDesc(key, s)
    ensures WithKey(key, v, Insert(key, x, s)) ==
      (if key(x) == v then [x] else []) + WithKey(key, v, s)
  {
    if s != [] && key(x) < key(s[0]) {
      SortedTail(key, s);
      InsertWithKey(key, v, x, s[1..]);
      var own := if key(x) == v then [x] else [];
      var head := if key(s[0]) == v then [s[0]] else [];
      var rest := WithKey(key, v, s[1..]);
      WithKeyCons(key, v, s[0], Insert(key, x, s[1..]));
      WithKeyCons(key, v, s[0], s[1..]);
      assert s == [s[0]] + s[1..];
      assert own == [] || head == [];
      assert head + (own + rest) == own + (head + rest);
    } else {
      WithKeyCons(key, v, x, s);
    }
  }

  /** The sorted list is a permutation of the input. */
  lemma {:induction false} SortPermutes(key: string -> real, s: seq<string>)
    ensures multiset(SortDesc(key, s)) == multiset(s)
  {
    if s != [] {
      SortPermutes(key, s[1..]);
      InsertPermutes(key, s[0], SortDesc(key, s[1..]));
      assert s == [s[0]] + s[1..];
    }
  }

  /** The sorted list has non-increasing keys. */
  lemma {:induction false} SortSorted(key: string -> real, s: seq<string>)
    ensures SortedDesc(key, SortDesc(key, s))
  {
    if s != [] {
      SortSorted(key, s[1..]);
      InsertSorted(key, s[0], SortDesc(key, s[1..]));
    }
  }

  /** Stability: for each key value, the colours with that key appear in the
      same order as in the input. */
  lemma {:induction false} SortStable(key: string -> real, v: real, s: seq<string>)
    ensures WithKey(key, v, SortDesc(key, s)) == WithKey(key, v, s)
  {
    if s != [] {
      SortStable(key, v, s[1..]);
      SortSorted(key, s[1..]);
      InsertWithKey(key, v, s[0], SortDesc(key, s[1..]));
    }
  }

  /** The sort key of `sortColorsByContrast`: contrast with the first colour. */
  function ContrastKey(gamma: real -> real, pivot: string): string -> real
    requires GammaBounds(gamma)
  {
    x => CalculateContrast(gamma, x, pivot)
  }

  /** script.js `sortColorsByContrast(colors)`: the palette ordered by
      decreasing contrast with `colors[0]`, ties in input order. It is a
      permutation of the palette, its ratios never increase along the list,
      and colours of equal ratio keep their input order. */
  function SortColorsByContrast(gamma: real -> real, colors: seq<string>): (sorted: seq<string>)
    requires GammaBounds(gamma)
    ensures multiset(sorted) == multiset(colors)
    ensures colors != [] ==> SortedDesc(ContrastKey(gamma, colors[0]), sorted)
    ensures colors != [] ==> forall v ::
      WithKey(ContrastKey(gamma, colors[0]), v, sorted) == WithKey(ContrastKey(gamma, colors[0]), v, colors)
  {
    if colors == [] then []
    else
      var key := ContrastKey(gamma, colors[0]);
      SortPermutes(key, colors);
      SortSorted(key, colors);
      forall v ensures WithKey(key, v, SortDesc(key, colors)) == WithKey(key, v, colors) {
        SortStable(key, v, colors);
      }
      SortDesc(key, colors)
  }

  /** The last colour of a sorted non-empty palette has contrast exactly 1
      with the first input colour: the first colour itself has ratio 1, the
      least possible, so nothing after it can be lower. */
  lemma LastHasRatioOne(gamma: real -> real, colors: seq<string>)
    requires GammaBounds(gamma) && colors != []
    ensures var sorted := SortColorsByContrast(gamma, colors);
      |sorted| == |colors| && CalculateContrast(gamma, sorted[|sorted| - 1], colors[0]) == 1.0
  {
    hide CalculateContrast, SortColorsByContrast;
    var sorted := SortColorsByContrast(gamma, colors);
    assert |sorted| == |multiset(sorted)| == |multiset(colors)| == |colors|;
    assert colors[0] in multiset(sorted);
    var k :| 0 <= k < |sorted| && sorted[k] == colors[0];
    ContrastSelf(gamma, colors[0]);
    var key := ContrastKey(gamma, colors[0]);
    if k < |sorted| - 1 {
      assert key(sorted[k]) >= key(sorted[|sorted| - 1]);
    }
  }
}
