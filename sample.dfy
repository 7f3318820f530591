/**
 * word2vec/sample.go: a training sample is a word with the words before and after it in
 * its sentence, and `Trim` narrows that context to a given number of neighbours per side.
 */
module Samples {

  /** `Sample`: the words leading up to the word, the word, and the words following it. */
  datatype Sample = Sample(left: seq<string>, word: string, right: seq<string>)

  function Min(a: int, b: int): int {
    if a < b then a else b
  }

  /**
   * `AllSamples`: one sample per position of `words`, whose context is the rest of the slice
   * split at that position.
   */
  method AllSamples(words: seq<string>) returns (res: seq<Sample>)
    ensures |res| == |words|
    ensures forall i :: 0 <= i < |words| ==>
              res[i].word == words[i] && |res[i].left| == i &&
              res[i].left + [res[i].word] + res[i].right == words
  {
    var a := new Sample[|words|];
    for i := 0 to |words|
      invariant forall k :: 0 <= k < i ==> a[k] == Sample(words[..k], words[k], words[k + 1..])
    {
      a[i] := Sample(words[..i], words[i], words[i + 1..]);
    }
    res := a[..];
    forall i | 0 <= i < |words| ensures res[i].left + [res[i].word] + res[i].right == words {
      assert words == words[..i] + [words[i]] + words[i + 1..];
    }
  }

  /**
   * `Sample.Trim`: a copy of the sample keeping at most `max` words per side, those nearest
   * the word: the end of `left` and the start of `right`. A negative `max` makes the source
   * slice out of range, so it is excluded.
   */
  function Trim(s: Sample, max: nat): (r: Sample)
    ensures r.word == s.word
    ensures |r.left| == Min(|s.left|, max) && |r.right| == Min(|s.right|, max)
    ensures r.left == s.left[|s.left| - |r.left|..]
    ensures r.right == s.right[..|r.right|]
  {
    var left := if |s.left| > max then s.left[|s.left| - max..] else s.left;
    var right := if |s.right| > max then s.right[..max] else s.right;
    Sample(left, s.word, right)
  }

  /** A side already within `max` words is kept whole; a sample within bounds is unchanged. */
  lemma TrimWithin(s: Sample, max: nat)
    ensures |s.left| <= max ==> Trim(s, max).left == s.left
    ensures |s.right| <= max ==> Trim(s, max).right == s.right
    ensures |s.left| <= max && |s.right| <= max ==> Trim(s, max) == s
  {
  }

  /**
   * Trimming twice trims to the smaller bound; in particular trimming is idempotent:
   * `s.Trim(m).Trim(m) == s.Trim(m)`.
   */
  lemma TrimTwice(s: Sample, m1: nat, m2: nat)
    ensures Trim(Trim(s, m1), m2) == Trim(s, Min(m1, m2))
    ensures Trim(Trim(s, m1), m1) == Trim(s, m1)
  {
    var t, u, v := Trim(s, m1), Trim(Trim(s, m1), m2), Trim(s, Min(m1, m2));
    SuffixOfSuffix(s.left, |t.left|, |u.left|);
    PrefixOfPrefix(s.right, |t.right|, |u.right|);
    assert u.left == v.left && u.right == v.right;
  }

  /** The last k2 elements of the last k1 elements are the last k2 elements. */
  lemma SuffixOfSuffix<T>(a: seq<T>, k1: nat, k2: nat)
    requires k2 <= k1 <= |a|
    ensures a[|a| - k1..][k1 - k2..] == a[|a| - k2..]
  {
  }

  /** The first k2 elements of the first k1 elements are the first k2 elements. */
  lemma PrefixOfPrefix<T>(a: seq<T>, k1: nat, k2: nat)
    requires k2 <= k1 <= |a|
    ensures a[..k1][..k2] == a[..k2]
  {
  }
}
