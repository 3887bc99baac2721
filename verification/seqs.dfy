/**
 * Sequence identities the palette proofs use: the concatenations the
 * generators perform, written element by element, and the prefixes of a
 * sequence. They model nothing of the program themselves; they spare the
 * solver the extensionality steps.
 */
module Seqs {

  /** Concatenations of short lists, as the harmony generators build them. */
  lemma Cat223<T>(a0: T, a1: T, b0: T, b1: T, c0: T, c1: T, c2: T)
    ensures [a0, a1] + [b0, b1] + [c0, c1, c2] == [a0, a1, b0, b1, c0, c1, c2]
  {
  }

  lemma Cat3221<T>(a0: T, a1: T, a2: T, b0: T, b1: T, c0: T, c1: T, d0: T)
    ensures [a0, a1, a2] + [b0, b1] + [c0, c1] + [d0] == [a0, a1, a2, b0, b1, c0, c1, d0]
  {
  }

  lemma Cat4221<T>(a0: T, a1: T, a2: T, a3: T, b0: T, b1: T, c0: T, c1: T, d0: T)
    ensures var s := [a0, a1, a2, a3] + [b0, b1] + [c0, c1] + [d0];
      |s| == 9 && s[..8] == [a0, a1, a2, a3, b0, b1, c0, c1]
  {
  }

  /** A short sequence is the display of its elements. */
  lemma Elements3<T>(s: seq<T>)
    requires |s| == 3
    ensures s == [s[0], s[1], s[2]]
  {
  }

  lemma Elements4<T>(s: seq<T>)
    requires |s| == 4
    ensures s == [s[0], s[1], s[2], s[3]]
  {
  }

  /** Prefixes grow one element at a time and end at the whole sequence. */
  lemma PrefixStep<T>(s: seq<T>, i: nat)
    requires i < |s|
    ensures s[..i + 1] == s[..i] + [s[i]]
  {
  }

  lemma PrefixAll<T>(s: seq<T>)
    ensures s[..|s|] == s
  {
  }
}
