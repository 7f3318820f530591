/**
 * word2vec/embed.go: an `Embed` holds the encoder matrix as one flat vector of rows and
 * the word -> row map; looking a word up falls back to a default word, and the row is the
 * slice of the flat vector at `cols * idx`.
 */
module Embeds {
  import opened Wrappers
  import Hierarchies
  import SkipGrams

  /** `Embed`: the flat matrix (row-major, one row per word) and the row of each word. */
  datatype Embed = Embed(matrix: seq<real>, wordToIndex: map<string, int>)

  /**
   * `NewEmbed`: the rows are taken to be in sorted word order, so the map gives each word
   * of the hierarchy its rank, which is the map `wordToIndex` gives the skip-gram trainer.
   */
  method NewEmbed(mat: seq<real>, h: Hierarchies.Hierarchy) returns (e: Embed)
    ensures e.matrix == mat
    ensures SkipGrams.IsRankMap(h.Keys, e.wordToIndex)
  {
    var m := SkipGrams.WordToIndex(h);
    e := Embed(mat, m);
  }

  /** The row the lookup uses: the word's own, else the default word's, else none. */
  function RowIndex(e: Embed, word: string, defaultWord: string): (r: Option<int>)
    ensures word in e.wordToIndex ==> r == Some(e.wordToIndex[word])
    ensures word !in e.wordToIndex && defaultWord in e.wordToIndex ==> r == Some(e.wordToIndex[defaultWord])
    ensures r.None? <==> word !in e.wordToIndex && defaultWord !in e.wordToIndex
  {
    if word in e.wordToIndex then Some(e.wordToIndex[word])
    else if defaultWord in e.wordToIndex then Some(e.wordToIndex[defaultWord])
    else None
  }

  /**
   * `SetSlice(-start, matrix)` on a fresh zero vector of length `cols`: entry k is the
   * matrix entry `start + k` where there is one, and 0 elsewhere.
   */
  function Window(matrix: seq<real>, start: int, cols: nat): (v: seq<real>)
    ensures |v| == cols
    ensures 0 <= start && start + cols <= |matrix| ==> v == matrix[start..start + cols]
  {
    seq(cols, k requires 0 <= k < cols => if 0 <= start + k < |matrix| then matrix[start + k] else 0.0)
  }

  /** The result of a lookup: the row's start offset in the flat matrix and the row itself. */
  datatype Row = Row(start: int, vector: seq<real>)

  /**
   * `Embed.Embed`: nil when neither word has a row; otherwise `cols = len(matrix) /
   * len(wordToIndex)` and the row starting at `cols * idx`. The division cannot be by zero:
   * a row was found, so the map is not empty.
   */
  function Lookup(e: Embed, word: string, defaultWord: string): (r: Option<Row>)
    ensures r.None? <==> RowIndex(e, word, defaultWord).None?
    ensures r.Some? ==>
              && |e.wordToIndex| > 0
              && r.value.start == (|e.matrix| / |e.wordToIndex|) * RowIndex(e, word, defaultWord).value
              && |r.value.vector| == |e.matrix| / |e.wordToIndex|
  {
    match RowIndex(e, word, defaultWord)
    case None => None
    case Some(idx) =>
      assert (if word in e.wordToIndex then word else defaultWord) in e.wordToIndex;
      var cols := |e.matrix| / |e.wordToIndex|;
      var start := cols * idx;
      Some(Row(start, Window(e.matrix, start, cols)))
  }

  /**
   * For an `Embed` from `NewEmbed` whose matrix has k rows of equal length, a lookup that
   * finds a row reads exactly that row of the matrix, inside its bounds.
   */
  lemma LookupInBounds(e: Embed, keys: set<string>, word: string, defaultWord: string)
    requires SkipGrams.IsRankMap(keys, e.wordToIndex)
    requires |keys| > 0 && |e.matrix| % |keys| == 0
    ensures Lookup(e, word, defaultWord).Some? ==>
              var cols := |e.matrix| / |keys|;
              var row := Lookup(e, word, defaultWord).value;
              && 0 <= row.start && row.start + cols <= |e.matrix|
              && row.vector == e.matrix[row.start..row.start + cols]
  {
    SkipGrams.RankMapBijection(keys, e.wordToIndex);
    assert |e.wordToIndex| == |e.wordToIndex.Keys| == |keys| by {
      assert e.wordToIndex.Keys == keys;
    }
    var r := RowIndex(e, word, defaultWord);
    if r.Some? {
      var cols := |e.matrix| / |keys|;
      assert 0 <= r.value < |keys|;
      ExactDivision(|e.matrix|, |keys|);
      RowFits(cols, |keys|, r.value);
    }
  }

  lemma ExactDivision(len: nat, k: nat)
    requires k > 0 && len % k == 0
    ensures 0 <= len / k && len / k * k == len
  {
  }

  /** Row `idx` of `k` rows of `cols` entries each ends inside the matrix. */
  lemma {:induction false} RowFits(cols: nat, k: nat, idx: nat)
    requires idx < k
    ensures 0 <= cols * idx && cols * idx + cols <= cols * k
    decreases k
  {
    assert cols * k == cols * (k - 1) + cols;
    if idx + 1 < k {
      RowFits(cols, k - 1, idx);
    }
  }

  /**
   * The example of a 10-entry matrix for the five words a .. e: "foo" has no row, so the
   * default "c" (row 2) is used, whose two entries are 4 and 5.
   */
  lemma LookupExample(matrix: seq<real>)
    requires |matrix| == 10
    ensures var e := Embed(matrix, map["a" := 0, "b" := 1, "c" := 2, "d" := 3, "e" := 4]);
            Lookup(e, "foo", "c") == Some(Row(4, matrix[4..6]))
  {
    var e := Embed(matrix, map["a" := 0, "b" := 1, "c" := 2, "d" := 3, "e" := 4]);
    assert |e.wordToIndex| == 5;
  }
}
