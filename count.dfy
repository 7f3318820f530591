/**
 * count.go: token frequency counting over a stream of tokens, and selection of the `n` most
 * frequent tokens. The channel the source reads from is a sequence here, and the order in
 * which Go happens to iterate the count map is a parameter `order`.
 */
module TokenCounting {
  import Sorting

  type TokenCounts = map<string, int>

  /** How often each token of `stream` occurs in it. */
  function Occurrences(stream: seq<string>): (m: TokenCounts)
    ensures forall tok :: tok in m <==> tok in stream
  {
    map tok | tok in stream :: multiset(stream)[tok]
  }

  /** `CountTokens`: the count map of the stream, built by one increment per token. */
  method CountTokens(stream: seq<string>) returns (counts: TokenCounts)
    ensures counts == Occurrences(stream)
    ensures forall tok :: tok in counts ==> counts[tok] > 0
  {
    counts := map[];
    for i := 0 to |stream|
      invariant forall tok :: tok in counts <==> tok in stream[..i]
      invariant forall tok :: tok in counts ==> counts[tok] == multiset(stream[..i])[tok] > 0
    {
      var tok := stream[i];
      assert stream[..i + 1] == stream[..i] + [tok];
      counts := counts[tok := (if tok in counts then counts[tok] else 0) + 1];
    }
    assert stream[..|stream|] == stream;
  }

  /**
   * What `MostCommon(n)` promises: `min(n, number of tokens)` different tokens of the map,
   * none of them less frequent than any token left out.
   */
  ghost predicate IsMostCommon(t: TokenCounts, n: nat, r: seq<string>) {
    && Sorting.Distinct(r)
    && (forall tok :: tok in r ==> tok in t)
    && |r| == (if |t| <= n then |t| else n)
    && (forall a, b :: a in r && b in t && b !in r ==> t[a] >= t[b])
  }

  /** The order `VoodooSort` puts the parallel slices in: larger counts first. */
  function ByCountDescending(a: (string, int), b: (string, int)): bool {
    a.1 > b.1
  }

  /**
   * `MostCommon`: every token, in map order, when there are at most `n`; otherwise the
   * first `n` after sorting the (token, count) pairs by descending count. Ties are broken
   * by the sort the model uses; the source leaves them unspecified.
   */
  method MostCommon(t: TokenCounts, n: nat, order: seq<string>) returns (r: seq<string>)
    requires Sorting.Distinct(order) && forall tok :: tok in order <==> tok in t
    ensures IsMostCommon(t, n, r)
    ensures |t| <= n ==> r == order && forall tok :: tok in r <==> tok in t
  {
    var counts: seq<int> := [];
    var tokens: seq<string> := [];
    for i := 0 to |order|
      invariant tokens == order[..i] && |counts| == i
      invariant forall k :: 0 <= k < i ==> counts[k] == t[order[k]]
    {
      tokens := tokens + [order[i]];
      counts := counts + [t[order[i]]];
    }
    assert tokens == order;
    ListingSize(t, order);
    if |tokens| <= n {
      return tokens;
    }
    var pairs := seq(|tokens|, k requires 0 <= k < |tokens| => (tokens[k], counts[k]));
    var sorted := Sorting.Sort(pairs, ByCountDescending);
    tokens := TokensOf(sorted);
    r := tokens[..n];
    SortedPairs(t, order, pairs);
    TopOfSorted(t, sorted, n, r);
  }

  /** A listing of the map's tokens without repetition is as long as the map. */
  lemma ListingSize(t: TokenCounts, order: seq<string>)
    requires Sorting.Distinct(order) && forall tok :: tok in order <==> tok in t
    ensures |order| == |t|
  {
    Sorting.DistinctCardinality(order);
    assert (set x | x in order) == t.Keys;
  }

  /** The token half of a sequence of (token, count) pairs. */
  function TokensOf(ps: seq<(string, int)>): (ts: seq<string>)
    ensures |ts| == |ps| && forall k :: 0 <= k < |ps| ==> ts[k] == ps[k].0
  {
    seq(|ps|, k requires 0 <= k < |ps| => ps[k].0)
  }

  /**
   * Sorting the map's (token, count) pairs by descending count lists every token once,
   * with its count, and the counts do not increase.
   */
  lemma SortedPairs(t: TokenCounts, order: seq<string>, pairs: seq<(string, int)>)
    requires Sorting.Distinct(order) && forall tok :: tok in order <==> tok in t
    requires |pairs| == |order| && forall k :: 0 <= k < |order| ==> pairs[k] == (order[k], t[order[k]])
    ensures var sorted := Sorting.Sort(pairs, ByCountDescending);
      && (forall i :: 0 <= i < |sorted| ==> sorted[i].0 in t && sorted[i].1 == t[sorted[i].0])
      && Sorting.Distinct(TokensOf(sorted))
      && (forall i, j :: 0 <= i < j < |sorted| ==> sorted[i].1 >= sorted[j].1)
      && (forall tok :: tok in t ==> tok in TokensOf(sorted))
  {
    var sorted := Sorting.Sort(pairs, ByCountDescending);
    PairsDistinct(t, order, pairs);
    Sorting.PermutationDistinct(pairs, sorted);
    PermutedPairs(t, pairs, sorted);
    assert Sorting.StrictWeakOrder(ByCountDescending);
    Sorting.SortSorted(pairs, ByCountDescending);
    Descending(sorted);
    var ts := TokensOf(sorted);
    forall i, j | 0 <= i < j < |ts| ensures ts[i] != ts[j] {
      assert sorted[i] != sorted[j];
    }
    CoversKeys(t, order, pairs, sorted);
  }

  /** Every token of the map is among the tokens of a permutation of its pairs. */
  lemma CoversKeys(t: TokenCounts, order: seq<string>, pairs: seq<(string, int)>, sorted: seq<(string, int)>)
    requires forall tok :: tok in t ==> tok in order
    requires |pairs| == |order| && forall k :: 0 <= k < |order| ==> pairs[k].0 == order[k]
    requires multiset(sorted) == multiset(pairs)
    ensures forall tok :: tok in t ==> tok in TokensOf(sorted)
  {
    forall tok | tok in t ensures tok in TokensOf(sorted) {
      var k :| 0 <= k < |order| && order[k] == tok;
      assert pairs[k] in multiset(sorted);
      var j := IndexOf(pairs[k], sorted);
      assert TokensOf(sorted)[j] == tok;
    }
  }

  /** The first `n` tokens of the sorted pairs are a valid answer of `MostCommon(n)`. */
  lemma TopOfSorted(t: TokenCounts, sorted: seq<(string, int)>, n: nat, r: seq<string>)
    requires forall i :: 0 <= i < |sorted| ==> sorted[i].0 in t && sorted[i].1 == t[sorted[i].0]
    requires Sorting.Distinct(TokensOf(sorted))
    requires forall i, j :: 0 <= i < j < |sorted| ==> sorted[i].1 >= sorted[j].1
    requires forall tok :: tok in t ==> tok in TokensOf(sorted)
    requires n < |t| == |sorted| && r == TokensOf(sorted)[..n]
    ensures IsMostCommon(t, n, r)
  {
    var ts := TokensOf(sorted);
    forall a, b | a in r && b in t && b !in r ensures t[a] >= t[b] {
      var i :| 0 <= i < n && r[i] == a;
      var j :| 0 <= j < |ts| && ts[j] == b;
      assert ts[i] == a;
    }
  }

  /** Where a pair of a permutation of `pairs` sits in `sorted`. */
  lemma IndexOf(p: (string, int), sorted: seq<(string, int)>) returns (j: nat)
    requires p in sorted
    ensures j < |sorted| && sorted[j] == p
  {
    j :| 0 <= j < |sorted| && sorted[j] == p;
  }

  /** The (token, count) pairs of a map listed without repetition hold no two equal pairs. */
  lemma PairsDistinct(t: TokenCounts, order: seq<string>, pairs: seq<(string, int)>)
    requires Sorting.Distinct(order) && forall tok :: tok in order ==> tok in t
    requires |pairs| == |order| && forall k :: 0 <= k < |order| ==> pairs[k] == (order[k], t[order[k]])
    ensures Sorting.Distinct(pairs)
  {
    forall i, j | 0 <= i < j < |pairs| ensures pairs[i] != pairs[j] {
      assert pairs[i].0 == order[i] && pairs[j].0 == order[j];
    }
  }

  /** Each element of a permutation of the pairs is a token of the map with its count. */
  lemma PermutedPairs(t: TokenCounts, pairs: seq<(string, int)>, sorted: seq<(string, int)>)
    requires forall k :: 0 <= k < |pairs| ==> pairs[k].0 in t && pairs[k].1 == t[pairs[k].0]
    requires multiset(sorted) == multiset(pairs)
    ensures forall i :: 0 <= i < |sorted| ==> sorted[i].0 in t && sorted[i].1 == t[sorted[i].0]
  {
    forall i | 0 <= i < |sorted| ensures sorted[i].0 in t && sorted[i].1 == t[sorted[i].0] {
      assert sorted[i] in multiset(pairs);
      var k :| 0 <= k < |pairs| && pairs[k] == sorted[i];
    }
  }

  /** Sorted by `ByCountDescending`, the counts do not increase. */
  lemma Descending(sorted: seq<(string, int)>)
    requires Sorting.SortedBy(sorted, ByCountDescending)
    ensures forall i, j :: 0 <= i < j < |sorted| ==> sorted[i].1 >= sorted[j].1
  {
    forall i, j | 0 <= i < j < |sorted| ensures sorted[i].1 >= sorted[j].1 {
      assert !ByCountDescending(sorted[j], sorted[i]);
    }
  }

  /** The token stream of the count test. */
  const ExampleStream: seq<string> := ["c", "a", "a", "b", "b", "a", "c", "d", "c"]

  /** The counts of the stream of the count test: a:3, b:2, c:3, d:1. */
  lemma ExampleOccurrences()
    ensures Occurrences(ExampleStream).Keys == {"a", "b", "c", "d"}
    ensures IsExampleCounts(Occurrences(ExampleStream))
  {
    var m := Occurrences(ExampleStream);
    assert m.Keys == {"a", "b", "c", "d"};
    assert m["a"] == 3 && m["b"] == 2 && m["c"] == 3 && m["d"] == 1;
  }

  /** The count map a:3, b:2, c:3, d:1. */
  ghost predicate IsExampleCounts(t: TokenCounts) {
    && t.Keys == {"a", "b", "c", "d"}
    && t["a"] == 3 && t["b"] == 2 && t["c"] == 3 && t["d"] == 1
  }

  /**
   * The count test: for the stream c, a, a, b, b, a, c, d, c, every valid answer of
   * `MostCommon(2)` holds exactly a and c, whatever the map order.
   */
  lemma MostCommonExample(r: seq<string>)
    requires IsMostCommon(Occurrences(ExampleStream), 2, r)
    ensures forall tok :: tok in r <==> tok == "a" || tok == "c"
  {
    ExampleOccurrences();
    TopTwoOfExample(Occurrences(ExampleStream), r);
  }

  /** With counts a:3, b:2, c:3, d:1 the two most common tokens are a and c. */
  lemma TopTwoOfExample(t: TokenCounts, r: seq<string>)
    requires IsExampleCounts(t) && IsMostCommon(t, 2, r)
    ensures forall tok :: tok in r <==> tok == "a" || tok == "c"
  {
    assert |r| == 2 && r[0] != r[1] && r[0] in t && r[1] in t;
    assert (t[r[0]] >= 3 && t[r[1]] >= 3) || "a" in r;
    assert (t[r[0]] >= 3 && t[r[1]] >= 3) || "c" in r;
  }
}
