/**
 * word2vec/skip_gram.go: the word -> row index map of a skip-gram model, and the inputs of
 * one training iteration (the sample, its radius, the context words and their paths) with
 * the random draws as parameters.
 */
module SkipGrams {
  import Lex
  import Sorting
  import Hierarchies
  import Samples

  // ---------------------------------------------------------------------------------------
  // wordToIndex

  /** The number of words of `keys` sorting before `w`: its row in sorted order. */
  ghost function Rank(keys: set<string>, w: string): nat {
    |set v | v in keys && Lex.Less(v, w)|
  }

  /** `m` maps every word of `keys`, and nothing else, to its rank. */
  ghost predicate IsRankMap(keys: set<string>, m: map<string, int>) {
    && (forall w :: w in m <==> w in keys)
    && (forall w :: w in m ==> m[w] == Rank(keys, w))
  }

  /** In a strictly sorted listing of `keys`, position `i` holds the word of rank `i`. */
  lemma RankAt(keys: set<string>, sorted: seq<string>, i: nat)
    requires Sorting.StrictlySortedBy(sorted, Lex.Less)
    requires forall w :: w in sorted <==> w in keys
    requires i < |sorted|
    ensures Rank(keys, sorted[i]) == i
  {
    Lex.LessIsStrictTotalOrder();
    var below := set v | v in keys && Lex.Less(v, sorted[i]);
    forall v ensures v in below <==> v in sorted[..i] {
      if v in keys {
        var j :| 0 <= j < |sorted| && sorted[j] == v;
        if j > i {
          assert Lex.Less(sorted[i], sorted[j]);
        }
        if j < i {
          assert sorted[..i][j] == v;
        }
      }
    }
    assert Sorting.Distinct(sorted[..i]);
    Sorting.DistinctCardinality(sorted[..i]);
    assert below == set v | v in sorted[..i];
  }

  /** Sorting words that are all different orders them strictly (`sort.Strings`). */
  lemma SortStrings(words: seq<string>)
    requires Sorting.Distinct(words)
    ensures Sorting.StrictlySortedBy(Sorting.Sort(words, Lex.Less), Lex.Less)
    ensures forall w :: w in Sorting.Sort(words, Lex.Less) <==> w in words
  {
    var sorted := Sorting.Sort(words, Lex.Less);
    Lex.LessIsStrictTotalOrder();
    Sorting.SortSorted(words, Lex.Less);
    Sorting.PermutationDistinct(words, sorted);
    Sorting.SortedDistinctIsStrict(sorted, Lex.Less);
    assert forall w :: w in sorted <==> w in multiset(words);
  }

  /** The words of `keys` in strictly increasing order. */
  lemma SortedListing(keys: set<string>) returns (sorted: seq<string>)
    ensures Sorting.StrictlySortedBy(sorted, Lex.Less)
    ensures forall w :: w in sorted <==> w in keys
    ensures |sorted| == |keys|
  {
    var listed := Listing(keys);
    sorted := Sorting.Sort(listed, Lex.Less);
    SortStrings(listed);
  }

  /** Some listing of a set, each element once. */
  lemma {:induction false} Listing(keys: set<string>) returns (q: seq<string>)
    ensures Sorting.Distinct(q) && |q| == |keys|
    ensures forall w :: w in q <==> w in keys
    decreases keys
  {
    if keys == {} {
      q := [];
    } else {
      var w :| w in keys;
      var rest := Listing(keys - {w});
      q := rest + [w];
    }
  }

  /** A rank map numbers the words 0 .. k - 1, one to one. */
  lemma RankMapBijection(keys: set<string>, m: map<string, int>)
    requires IsRankMap(keys, m)
    ensures forall w :: w in m ==> 0 <= m[w] < |keys|
    ensures forall w1, w2 :: w1 in m && w2 in m && m[w1] == m[w2] ==> w1 == w2
    ensures forall i :: 0 <= i < |keys| ==> i in m.Values
  {
    var sorted := SortedListing(keys);
    forall w | w in m ensures exists j :: 0 <= j < |sorted| && sorted[j] == w && m[w] == j {
      var j :| 0 <= j < |sorted| && sorted[j] == w;
      RankAt(keys, sorted, j);
    }
    forall i | 0 <= i < |keys| ensures i in m.Values {
      RankAt(keys, sorted, i);
      assert sorted[i] in m;
    }
  }

  /** There is one rank map per set of words: the one `NewEmbed` builds is `wordToIndex`'s. */
  lemma RankMapUnique(keys: set<string>, m1: map<string, int>, m2: map<string, int>)
    requires IsRankMap(keys, m1) && IsRankMap(keys, m2)
    ensures m1 == m2
  {
  }

  /** Mapping the word at position `index` to `index` extends a rank map of the prefix. */
  lemma RankMapStep(keys: set<string>, sorted: seq<string>, index: nat, res: map<string, int>,
                    next: map<string, int>)
    requires Sorting.StrictlySortedBy(sorted, Lex.Less)
    requires forall w :: w in sorted <==> w in keys
    requires index < |sorted|
    requires forall w :: w in res <==> w in sorted[..index]
    requires forall w :: w in res ==> res[w] == Rank(keys, w)
    requires next == res[sorted[index] := index]
    ensures forall w :: w in next <==> w in sorted[..index + 1]
    ensures forall w :: w in next ==> next[w] == Rank(keys, w)
  {
    RankAt(keys, sorted, index);
    assert sorted[..index + 1] == sorted[..index] + [sorted[index]];
  }

  /**
   * `SkipGram.wordToIndex`: list the hierarchy's words (in map order), sort them, and map
   * each to its position.
   */
  method WordToIndex(h: Hierarchies.Hierarchy) returns (res: map<string, int>)
    ensures IsRankMap(h.Keys, res)
  {
    var words: seq<string> := [];
    var rest := h.Keys;
    while rest != {}
      invariant rest <= h.Keys && Sorting.Distinct(words)
      invariant forall w :: w in words <==> w in h && w !in rest
      decreases rest
    {
      var x :| x in rest;
      words := words + [x];
      rest := rest - {x};
    }
    var sorted := Sorting.Sort(words, Lex.Less);
    SortStrings(words);
    res := map[];
    for index := 0 to |sorted|
      invariant forall w :: w in res <==> w in sorted[..index]
      invariant forall w :: w in res ==> res[w] == Rank(h.Keys, w)
    {
      RankMapStep(h.Keys, sorted, index, res, res[sorted[index] := index]);
      res := res[sorted[index] := index];
    }
    assert sorted[..|sorted|] == sorted;
  }

  // ---------------------------------------------------------------------------------------
  // One training iteration

  /** The context radii of the word2vec paper, documented as the defaults for 0 settings. */
  const DefaultMinDist := 1
  const DefaultMaxDist := 5

  /**
   * The radius as the code computes it, `rand.Intn(MaxDist-MinDist+1) + MinDist`, for the
   * draw `draw` of `rand.Intn`; the defaults are never consulted.
   */
  function RadiusAsWritten(minDist: int, maxDist: int, draw: int): (radius: int)
    requires 0 <= draw < maxDist - minDist + 1
    ensures minDist <= radius <= maxDist
  {
    draw + minDist
  }

  /**
   * With `MinDist` and `MaxDist` left at 0, which the documentation says selects the
   * defaults, the radius as written is always 0 and every trimmed sample has no context.
   */
  lemma ZeroSettingsGiveNoContext(s: Samples.Sample, draw: int)
    requires 0 <= draw < 1
    ensures RadiusAsWritten(0, 0, draw) == 0
    ensures Samples.Trim(s, RadiusAsWritten(0, 0, draw)).left == []
    ensures Samples.Trim(s, RadiusAsWritten(0, 0, draw)).right == []
  {
  }

  /** The distances in effect: a setting of 0 selects its default. */
  function EffectiveDistances(minDist: int, maxDist: int): (d: (int, int))
    ensures d.0 == (if minDist == 0 then DefaultMinDist else minDist)
    ensures d.1 == (if maxDist == 0 then DefaultMaxDist else maxDist)
  {
    (if minDist == 0 then DefaultMinDist else minDist, if maxDist == 0 then DefaultMaxDist else maxDist)
  }

  /** The radius with the documented defaults applied, for the draw `draw` of `rand.Intn`. */
  function Radius(minDist: int, maxDist: int, draw: int): (radius: int)
    requires 0 <= draw < EffectiveDistances(minDist, maxDist).1 - EffectiveDistances(minDist, maxDist).0 + 1
    ensures EffectiveDistances(minDist, maxDist).0 <= radius <= EffectiveDistances(minDist, maxDist).1
  {
    var (lo, _) := EffectiveDistances(minDist, maxDist);
    draw + lo
  }

  /**
   * With both settings at 0 the radius lies in the paper's range 1 .. 5, so a word with
   * neighbours keeps at least its nearest one on each side that has any.
   */
  lemma DefaultRadius(s: Samples.Sample, draw: int)
    requires 0 <= draw < DefaultMaxDist - DefaultMinDist + 1
    ensures 1 <= Radius(0, 0, draw) <= 5
    ensures s.left != [] ==> Samples.Trim(s, Radius(0, 0, draw)).left != []
    ensures s.right != [] ==> Samples.Trim(s, Radius(0, 0, draw)).right != []
  {
  }

  /** What one iteration feeds the network: the input word's row, the context, its paths. */
  datatype StepInput = StepInput(input: map<int, real>, context: seq<string>, paths: seq<seq<int>>)

  /**
   * What one iteration feeds the network for the drawn sample `s` and context radius
   * `radius`: the input is the one-hot row of the sample's word (a word missing from `w2i`
   * reads as row 0, as a Go map read does), the context is the last `radius` left words
   * then the first `radius` right words, in order, and each context word comes with its
   * hierarchy path.
   */
  ghost predicate IsStepFor(h: Hierarchies.Hierarchy, w2i: map<string, int>, s: Samples.Sample,
                            radius: nat, st: StepInput)
  {
    var left := Samples.Min(|s.left|, radius);
    var right := Samples.Min(|s.right|, radius);
    && st.input == map[(if s.word in w2i then w2i[s.word] else 0) := 1.0]
    && st.context == s.left[|s.left| - left..] + s.right[..right]
    && |st.paths| == |st.context|
    && forall i :: 0 <= i < |st.context| ==>
         st.paths[i] == (if st.context[i] in h then h[st.context[i]] else [])
  }

  /** The body of one iteration once the sample and the radius are drawn. */
  method StepWithRadius(h: Hierarchies.Hierarchy, w2i: map<string, int>, s: Samples.Sample, radius: nat)
    returns (st: StepInput)
    ensures IsStepFor(h, w2i, s, radius, st)
  {
    var sample := Samples.Trim(s, radius);
    var index := if sample.word in w2i then w2i[sample.word] else 0;
    var input := map[index := 1.0];
    var allWords := sample.left + sample.right;
    var paths := Hierarchies.Paths(h, allWords);
    st := StepInput(input, allWords, paths);
  }

  /**
   * One iteration of `SkipGram.Train` up to the network step, as written: draw a sample
   * and a radius (`sampleDraw` and `radiusDraw` are the two `rand.Intn` results), with the
   * radius `Intn(MaxDist-MinDist+1) + MinDist` taken from the fields as they are, then trim
   * the sample and build the input, the context and its paths.
   */
  method TrainStep(h: Hierarchies.Hierarchy, w2i: map<string, int>, samples: seq<Samples.Sample>,
                   minDist: int, maxDist: int, sampleDraw: int, radiusDraw: int) returns (st: StepInput)
    requires 0 <= sampleDraw < |samples|
    requires 0 <= radiusDraw < maxDist - minDist + 1
    requires 0 <= radiusDraw + minDist
    ensures IsStepFor(h, w2i, samples[sampleDraw], RadiusAsWritten(minDist, maxDist, radiusDraw), st)
  {
    var sample := samples[sampleDraw];
    var radius := RadiusAsWritten(minDist, maxDist, radiusDraw);
    st := StepWithRadius(h, w2i, sample, radius);
  }

  /** The same iteration with zero settings replaced by the documented defaults. */
  method TrainStepWithDefaults(h: Hierarchies.Hierarchy, w2i: map<string, int>, samples: seq<Samples.Sample>,
                               minDist: int, maxDist: int, sampleDraw: int, radiusDraw: int) returns (st: StepInput)
    requires 0 <= sampleDraw < |samples|
    requires 0 <= EffectiveDistances(minDist, maxDist).0
    requires 0 <= radiusDraw < EffectiveDistances(minDist, maxDist).1 - EffectiveDistances(minDist, maxDist).0 + 1
    ensures IsStepFor(h, w2i, samples[sampleDraw], Radius(minDist, maxDist, radiusDraw), st)
  {
    var sample := samples[sampleDraw];
    var radius := Radius(minDist, maxDist, radiusDraw);
    st := StepWithRadius(h, w2i, sample, radius);
  }

  /** As written, with both settings at 0 every iteration trains on an empty context. */
  lemma ZeroSettingsStepHasNoContext(h: Hierarchies.Hierarchy, w2i: map<string, int>, s: Samples.Sample,
                                     draw: int, st: StepInput)
    requires 0 <= draw < 1
    requires IsStepFor(h, w2i, s, RadiusAsWritten(0, 0, draw), st)
    ensures st.context == [] && st.paths == []
  {
  }

  /**
   * With the defaults applied, an iteration with both settings at 0 keeps the nearest
   * neighbour on each side that has one.
   */
  lemma DefaultStepKeepsNeighbours(h: Hierarchies.Hierarchy, w2i: map<string, int>, s: Samples.Sample,
                                   draw: int, st: StepInput)
    requires 0 <= draw < DefaultMaxDist - DefaultMinDist + 1
    requires IsStepFor(h, w2i, s, Radius(0, 0, draw), st)
    ensures s.left != [] ==> s.left[|s.left| - 1] in st.context
    ensures s.right != [] ==> s.right[0] in st.context
  {
    var radius := Radius(0, 0, draw);
    var left := Samples.Min(|s.left|, radius);
    var right := Samples.Min(|s.right|, radius);
    var l, r := s.left[|s.left| - left..], s.right[..right];
    assert st.context == l + r;
    if s.left != [] {
      assert l[left - 1] == s.left[|s.left| - 1];
      assert st.context[left - 1] == s.left[|s.left| - 1];
    }
    if s.right != [] {
      assert st.context[left] == s.right[0];
    }
  }
}
