/**
 * glove/cooccurrence.go: the co-occurrence counter. For every position `i` of a document
 * and every earlier position `j` inside the window, it adds a weight to the matrix entries
 * (id_i, id_j) and (id_j, id_i). The float32 weights are modelled as reals.
 */
module Cooccurrence {
  import Sparse
  import TokenSets

  /** Whether the pair of positions j < i is counted: always when the window is 0, else
   *  when it is at most `window` apart (a negative window counts nothing). */
  predicate Counted(i: int, j: int, window: int) {
    0 <= j < i && (j >= i - window || window == 0)
  }

  /** The weight of a counted pair: 1, or 1/(i-j) when distant words weigh less. */
  function Weight(i: int, j: int, weightWords: bool): (w: real)
    requires j < i
    ensures 0.0 < w <= 1.0
  {
    if weightWords then 1.0 / ((i - j) as real) else 1.0
  }

  /** What one symmetric update with weight `w` for IDs `a`, `b` adds to entry (r, c). */
  function PairHit(a: int, b: int, w: real, r: int, c: int): real {
    (if r == a && c == b then w else 0.0) + (if r == b && c == a then w else 0.0)
  }

  /** Two read-modify-write updates, of (a, b) and then of (b, a), add the pair's hits. */
  lemma PairUpdates(s0: Sparse.Contents, s1: Sparse.Contents, s2: Sparse.Contents, a: int, b: int, w: real, v1: real, v2: real)
    requires v1 == Sparse.Entry(s0, a, b) + w && v2 == Sparse.Entry(s1, b, a) + w
    requires forall r, c :: Sparse.Entry(s1, r, c) == if r == a && c == b then v1 else Sparse.Entry(s0, r, c)
    requires forall r, c :: Sparse.Entry(s2, r, c) == if r == b && c == a then v2 else Sparse.Entry(s1, r, c)
    ensures forall r, c :: Sparse.Entry(s2, r, c) == Sparse.Entry(s0, r, c) + PairHit(a, b, w, r, c)
  {
  }

  /** What the pairs (i, j) with lo <= j < i add to entry (r, c). */
  function InnerSum(ids: seq<int>, i: nat, lo: nat, window: int, weightWords: bool, r: int, c: int): real
    requires lo <= i < |ids|
    decreases i - lo
  {
    if lo == i then 0.0
    else
      (if Counted(i, lo, window) then PairHit(ids[i], ids[lo], Weight(i, lo, weightWords), r, c) else 0.0)
      + InnerSum(ids, i, lo + 1, window, weightWords, r, c)
  }

  /** What the counted pairs among the first `n` positions add to entry (r, c). */
  function Delta(ids: seq<int>, n: nat, window: int, weightWords: bool, r: int, c: int): real
    requires n <= |ids|
  {
    if n == 0 then 0.0
    else Delta(ids, n - 1, window, weightWords, r, c) + InnerSum(ids, n - 1, 0, window, weightWords, r, c)
  }

  /** The IDs `Tokens.IDs(document)` gives. */
  function DocumentIDs(tokens: seq<string>, document: seq<string>): (ids: seq<int>)
    ensures |ids| == |document|
    ensures forall k :: 0 <= k < |ids| ==> 0 <= ids[k] <= |tokens|
  {
    seq(|document|, k requires 0 <= k < |document| => TokenSets.ID(tokens, document[k]))
  }

  class CooccurCounter {
    const tokens: seq<string>
    const matrix: Sparse.SparseMatrix
    const window: int
    const weightWords: bool

    /** The matrix has a row for every token ID, the placeholder `len(Tokens)` included. */
    ghost predicate Valid()
      reads this, matrix.rows
    {
      matrix.Valid() && |matrix.rows| >= |tokens| + 1
    }

    constructor (tokens: seq<string>, matrix: Sparse.SparseMatrix, window: int, weightWords: bool)
      requires matrix.Valid() && |matrix.rows| >= |tokens| + 1
      ensures Valid()
      ensures this.tokens == tokens && this.matrix == matrix
      ensures this.window == window && this.weightWords == weightWords
    {
      this.tokens, this.matrix, this.window, this.weightWords := tokens, matrix, window, weightWords;
    }

    /** The two read-modify-write updates of one pair: entry by entry, the matrix gains the pair's hits. */
    method AddPair(id1: int, id2: int, w: real)
      requires Valid() && 0 <= id1 < |matrix.rows| && 0 <= id2 < |matrix.rows|
      modifies matrix.rows
      ensures Valid()
      ensures forall r, c :: Sparse.Entry(matrix.Snapshot(), r, c) == Sparse.Entry(old(matrix.Snapshot()), r, c) + PairHit(id1, id2, w, r, c)
    {
      ghost var s0 := matrix.Snapshot();
      matrix.GetIsEntry();
      var v1 := matrix.Get(id1, id2) + w;
      assert v1 == Sparse.Entry(s0, id1, id2) + w;
      matrix.Set(id1, id2, v1);
      ghost var s1 := matrix.Snapshot();
      matrix.GetIsEntry();
      var v2 := matrix.Get(id2, id1) + w;
      assert v2 == Sparse.Entry(s1, id2, id1) + w;
      matrix.Set(id2, id1, v2);
      PairUpdates(s0, s1, matrix.Snapshot(), id1, id2, w, v1, v2);
    }

    /**
     * `Add`: every entry grows by what the counted pairs of the document add to it
     * (`DeltaSymmetric`, `DeltaOutsideIDs`, `DeltaCountsPairs` and `ShortDocument` say what
     * that is).
     */
    method Add(document: seq<string>)
      requires Valid()
      modifies matrix.rows
      ensures Valid()
      ensures forall r, c :: 0 <= r < |matrix.rows| ==>
                matrix.Get(r, c)
                == old(matrix.Get(r, c)) + Delta(DocumentIDs(tokens, document), |document|, window, weightWords, r, c)
    {
      ghost var start := matrix.Snapshot();
      matrix.GetIsEntry();
      var ids := TokenSets.IDs(tokens, document);
      assert ids == DocumentIDs(tokens, document);
      for i := 0 to |document|
        invariant Valid()
        invariant forall r, c :: Sparse.Entry(matrix.Snapshot(), r, c) == Sparse.Entry(start, r, c) + Delta(ids, i, window, weightWords, r, c)
      {
        AddPosition(ids, i);
      }
      matrix.GetIsEntry();
    }

    /** One pass of the inner loop: the pairs (i, j) for j = i - 1 down to the window's edge. */
    method AddPosition(ids: seq<int>, i: nat)
      requires Valid() && i < |ids|
      requires forall k :: 0 <= k < |ids| ==> 0 <= ids[k] < |matrix.rows|
      modifies matrix.rows
      ensures Valid()
      ensures forall r, c :: Sparse.Entry(matrix.Snapshot(), r, c)
                             == Sparse.Entry(old(matrix.Snapshot()), r, c) + InnerSum(ids, i, 0, window, weightWords, r, c)
    {
      ghost var start := matrix.Snapshot();
      var j := i - 1;
      assert forall r, c :: InnerSum(ids, i, i, window, weightWords, r, c) == 0.0;
      while j >= 0 && (j >= i - window || window == 0)
        invariant -1 <= j < i
        invariant Valid()
        invariant forall r, c :: Sparse.Entry(matrix.Snapshot(), r, c)
                                 == Sparse.Entry(start, r, c) + InnerSum(ids, i, j + 1, window, weightWords, r, c)
      {
        var w := 1.0;
        if weightWords {
          w := 1.0 / ((i - j) as real);
        }
        ghost var before := matrix.Snapshot();
        AddPair(ids[i], ids[j], w);
        PositionStep(start, before, matrix.Snapshot(), ids, i, j, window, weightWords, w);
        j := j - 1;
      }
      PositionDone(start, matrix.Snapshot(), ids, i, j + 1, window, weightWords);
    }
  }

  /** One pass of the inner loop of `Add`: the pair (i, j) joins the pairs after it. */
  lemma PositionStep(s0: Sparse.Contents, s1: Sparse.Contents, s2: Sparse.Contents, ids: seq<int>, i: nat, j: nat,
                     window: int, weightWords: bool, w: real)
    requires j < i < |ids| && Counted(i, j, window) && w == Weight(i, j, weightWords)
    requires forall r, c :: Sparse.Entry(s1, r, c) == Sparse.Entry(s0, r, c) + InnerSum(ids, i, j + 1, window, weightWords, r, c)
    requires forall r, c :: Sparse.Entry(s2, r, c) == Sparse.Entry(s1, r, c) + PairHit(ids[i], ids[j], w, r, c)
    ensures forall r, c :: Sparse.Entry(s2, r, c) == Sparse.Entry(s0, r, c) + InnerSum(ids, i, j, window, weightWords, r, c)
  {
    InnerStep(ids, i, j, window, weightWords);
  }

  /** The inner loop stops at the first pair the window excludes: no earlier pair counts. */
  lemma PositionDone(s0: Sparse.Contents, s1: Sparse.Contents, ids: seq<int>, i: nat, lo: nat, window: int, weightWords: bool)
    requires lo <= i < |ids|
    requires lo > 0 ==> !Counted(i, lo - 1, window)
    requires forall r, c :: Sparse.Entry(s1, r, c) == Sparse.Entry(s0, r, c) + InnerSum(ids, i, lo, window, weightWords, r, c)
    ensures forall r, c :: Sparse.Entry(s1, r, c) == Sparse.Entry(s0, r, c) + InnerSum(ids, i, 0, window, weightWords, r, c)
  {
    forall r, c {
      SkipUncounted(ids, i, lo, window, weightWords, r, c);
    }
  }

  /** A counted pair adds its hits in front of the pairs after it. */
  lemma InnerStep(ids: seq<int>, i: nat, j: nat, window: int, weightWords: bool)
    requires j < i < |ids| && Counted(i, j, window)
    ensures forall r, c :: InnerSum(ids, i, j, window, weightWords, r, c)
                           == PairHit(ids[i], ids[j], Weight(i, j, weightWords), r, c)
                              + InnerSum(ids, i, j + 1, window, weightWords, r, c)
  {
  }

  /** Positions below the first one the window excludes are all excluded as well. */
  lemma {:induction false} SkipUncounted(ids: seq<int>, i: nat, lo: nat, window: int, weightWords: bool, r: int, c: int)
    requires lo <= i < |ids|
    requires lo > 0 ==> !Counted(i, lo - 1, window)
    ensures InnerSum(ids, i, 0, window, weightWords, r, c) == InnerSum(ids, i, lo, window, weightWords, r, c)
    decreases lo
  {
    if lo > 0 {
      assert !Counted(i, lo - 2, window);
      SkipUncounted(ids, i, lo - 1, window, weightWords, r, c);
    }
  }

  /** Every pair adds the same to (r, c) as to (c, r). */
  lemma {:induction false} DeltaSymmetric(ids: seq<int>, n: nat, window: int, weightWords: bool, r: int, c: int)
    requires n <= |ids|
    ensures Delta(ids, n, window, weightWords, r, c) == Delta(ids, n, window, weightWords, c, r)
  {
    if n > 0 {
      DeltaSymmetric(ids, n - 1, window, weightWords, r, c);
      InnerSymmetric(ids, n - 1, 0, window, weightWords, r, c);
    }
  }

  lemma {:induction false} InnerSymmetric(ids: seq<int>, i: nat, lo: nat, window: int, weightWords: bool, r: int, c: int)
    requires lo <= i < |ids|
    ensures InnerSum(ids, i, lo, window, weightWords, r, c) == InnerSum(ids, i, lo, window, weightWords, c, r)
    decreases i - lo
  {
    if lo < i {
      InnerSymmetric(ids, i, lo + 1, window, weightWords, r, c);
    }
  }

  /**
   * Only entries whose row and column are both IDs of the document change, so the row
   * `len(Tokens)` and its column change only for documents with unknown tokens.
   */
  lemma {:induction false} DeltaOutsideIDs(ids: seq<int>, n: nat, window: int, weightWords: bool, r: int, c: int)
    requires n <= |ids|
    requires r !in ids[..n] || c !in ids[..n]
    ensures Delta(ids, n, window, weightWords, r, c) == 0.0
  {
    if n > 0 {
      assert ids[..n - 1] == ids[..n][..n - 1];
      DeltaOutsideIDs(ids, n - 1, window, weightWords, r, c);
      InnerOutsideIDs(ids, n - 1, 0, window, weightWords, r, c);
    }
  }

  lemma {:induction false} InnerOutsideIDs(ids: seq<int>, i: nat, lo: nat, window: int, weightWords: bool, r: int, c: int)
    requires lo <= i < |ids|
    requires r !in ids[..i + 1] || c !in ids[..i + 1]
    ensures InnerSum(ids, i, lo, window, weightWords, r, c) == 0.0
    decreases i - lo
  {
    if lo < i {
      assert ids[i] == ids[..i + 1][i] && ids[lo] == ids[..i + 1][lo];
      InnerOutsideIDs(ids, i, lo + 1, window, weightWords, r, c);
    }
  }

  /** Positions i, j hold the IDs a and b, in either order. */
  predicate Matches(ids: seq<int>, i: int, j: int, a: int, b: int)
    requires 0 <= j < |ids| && 0 <= i < |ids|
  {
    (ids[i] == a && ids[j] == b) || (ids[i] == b && ids[j] == a)
  }

  /** The counted pairs among the first `n` positions whose IDs are a and b. */
  ghost function PairSet(ids: seq<int>, n: nat, window: int, a: int, b: int): set<(int, int)>
    requires n <= |ids|
  {
    set i: int, j: int | 0 <= j < i < n && Counted(i, j, window) && Matches(ids, i, j, a, b) :: (i, j)
  }

  /** The counted pairs (i, j) with lo <= j whose IDs are a and b. */
  ghost function RowSet(ids: seq<int>, i: nat, lo: nat, window: int, a: int, b: int): set<(int, int)>
    requires i < |ids|
  {
    set j: int | lo <= j < i && Counted(i, j, window) && Matches(ids, i, j, a, b) :: (i, j)
  }

  /** How much one matching pair adds to (a, b): both updates hit a diagonal entry. */
  function Multiplicity(a: int, b: int): real {
    if a == b then 2.0 else 1.0
  }

  /**
   * The brute-force count: without distance weighting, entry (a, b) grows by the number of
   * counted position pairs whose IDs are {a, b}, and a diagonal entry by twice that.
   */
  lemma {:induction false} DeltaCountsPairs(ids: seq<int>, n: nat, window: int, a: int, b: int)
    requires n <= |ids|
    ensures Delta(ids, n, window, false, a, b) == Multiplicity(a, b) * (|PairSet(ids, n, window, a, b)| as real)
  {
    if n == 0 {
      assert PairSet(ids, n, window, a, b) == {};
    } else {
      var before := PairSet(ids, n - 1, window, a, b);
      var row := RowSet(ids, n - 1, 0, window, a, b);
      assert PairSet(ids, n, window, a, b) == before + row;
      assert before * row == {};
      DeltaCountsPairs(ids, n - 1, window, a, b);
      InnerCountsPairs(ids, n - 1, 0, window, a, b);
    }
  }

  lemma {:induction false} InnerCountsPairs(ids: seq<int>, i: nat, lo: nat, window: int, a: int, b: int)
    requires lo <= i < |ids|
    ensures InnerSum(ids, i, lo, window, false, a, b) == Multiplicity(a, b) * (|RowSet(ids, i, lo, window, a, b)| as real)
    decreases i - lo
  {
    if lo == i {
      assert RowSet(ids, i, lo, window, a, b) == {};
    } else {
      var rest := RowSet(ids, i, lo + 1, window, a, b);
      InnerCountsPairs(ids, i, lo + 1, window, a, b);
      assert (i, lo) !in rest;
      if Counted(i, lo, window) && Matches(ids, i, lo, a, b) {
        assert RowSet(ids, i, lo, window, a, b) == rest + {(i, lo)};
      } else {
        assert RowSet(ids, i, lo, window, a, b) == rest;
      }
    }
  }

  // ---------------------------------------------------------------------------------------
  // The sum of all entries

  /** The sum of f(r, c) over the columns c < cols of row r. */
  function RowSum(f: (int, int) -> real, r: int, cols: nat): real {
    if cols == 0 then 0.0 else RowSum(f, r, cols - 1) + f(r, cols - 1)
  }

  /** The sum of f(r, c) over the rows r < rows and the columns c < cols. */
  function GridSum(f: (int, int) -> real, rows: nat, cols: nat): real {
    if rows == 0 then 0.0 else GridSum(f, rows - 1, cols) + RowSum(f, rows - 1, cols)
  }

  lemma {:induction false} RowSumAdd(f: (int, int) -> real, g: (int, int) -> real, h: (int, int) -> real, r: int, cols: nat)
    requires forall r, c :: h(r, c) == f(r, c) + g(r, c)
    ensures RowSum(h, r, cols) == RowSum(f, r, cols) + RowSum(g, r, cols)
  {
    if cols > 0 {
      RowSumAdd(f, g, h, r, cols - 1);
    }
  }

  /** Summing over the grid is linear. */
  lemma {:induction false} GridSumAdd(f: (int, int) -> real, g: (int, int) -> real, h: (int, int) -> real, rows: nat, cols: nat)
    requires forall r, c :: h(r, c) == f(r, c) + g(r, c)
    ensures GridSum(h, rows, cols) == GridSum(f, rows, cols) + GridSum(g, rows, cols)
  {
    if rows > 0 {
      GridSumAdd(f, g, h, rows - 1, cols);
      RowSumAdd(f, g, h, rows - 1, cols);
    }
  }

  lemma {:induction false} RowSumPair(f: (int, int) -> real, a: int, b: int, w: real, r: int, cols: nat)
    requires forall r, c :: f(r, c) == PairHit(a, b, w, r, c)
    ensures RowSum(f, r, cols) == (if r == a && 0 <= b < cols then w else 0.0) + (if r == b && 0 <= a < cols then w else 0.0)
  {
    if cols > 0 {
      RowSumPair(f, a, b, w, r, cols - 1);
      assert f(r, cols - 1) == PairHit(a, b, w, r, cols - 1);
    }
  }

  /** One symmetric update adds its weight to exactly two entries of the grid, or twice to one. */
  lemma {:induction false} GridSumPair(f: (int, int) -> real, a: int, b: int, w: real, rows: nat, cols: nat)
    requires forall r, c :: f(r, c) == PairHit(a, b, w, r, c)
    ensures GridSum(f, rows, cols) == (if 0 <= a < rows && 0 <= b < cols then w else 0.0)
                                      + (if 0 <= b < rows && 0 <= a < cols then w else 0.0)
  {
    if rows > 0 {
      GridSumPair(f, a, b, w, rows - 1, cols);
      RowSumPair(f, a, b, w, rows - 1, cols);
    }
  }

  /** The counted pairs of positions among the first `n`. */
  ghost function CountedSet(n: nat, window: int): set<(int, int)> {
    set i: int, j: int | 0 <= j < i < n && Counted(i, j, window) :: (i, j)
  }

  /** The counted pairs (i, j) with lo <= j. */
  ghost function CountedRow(i: nat, lo: nat, window: int): set<(int, int)> {
    set j: int | lo <= j < i && Counted(i, j, window) :: (i, j)
  }

  lemma {:induction false} InnerTotal(ids: seq<int>, i: nat, lo: nat, window: int, bound: nat, h: (int, int) -> real)
    requires lo <= i < |ids|
    requires forall k :: 0 <= k <= i ==> 0 <= ids[k] < bound
    requires forall r, c :: h(r, c) == InnerSum(ids, i, lo, window, false, r, c)
    ensures GridSum(h, bound, bound) == 2.0 * (|CountedRow(i, lo, window)| as real)
    decreases i - lo
  {
    if lo == i {
      assert CountedRow(i, lo, window) == {};
      GridSumPair(h, 0, 0, 0.0, bound, bound);
    } else {
      var w := if Counted(i, lo, window) then 1.0 else 0.0;
      var p := (r, c) => PairHit(ids[i], ids[lo], w, r, c);
      var rest := (r, c) => InnerSum(ids, i, lo + 1, window, false, r, c);
      GridSumAdd(p, rest, h, bound, bound);
      GridSumPair(p, ids[i], ids[lo], w, bound, bound);
      InnerTotal(ids, i, lo + 1, window, bound, rest);
      CountedRowStep(i, lo, window);
    }
  }

  /** The counted pairs (i, j) with lo <= j: (i, lo) if it counts, and those with lo < j. */
  lemma CountedRowStep(i: nat, lo: nat, window: int)
    requires lo < i
    ensures |CountedRow(i, lo, window)| == |CountedRow(i, lo + 1, window)| + if Counted(i, lo, window) then 1 else 0
  {
    var tail := CountedRow(i, lo + 1, window);
    assert (i, lo) !in tail;
    if Counted(i, lo, window) {
      assert CountedRow(i, lo, window) == tail + {(i, lo)};
    } else {
      assert CountedRow(i, lo, window) == tail;
    }
  }

  lemma {:induction false} DeltaTotalOf(ids: seq<int>, n: nat, window: int, bound: nat, f: (int, int) -> real)
    requires n <= |ids|
    requires forall k :: 0 <= k < n ==> 0 <= ids[k] < bound
    requires forall r, c :: f(r, c) == Delta(ids, n, window, false, r, c)
    ensures GridSum(f, bound, bound) == 2.0 * (|CountedSet(n, window)| as real)
  {
    if n == 0 {
      assert CountedSet(n, window) == {};
      GridSumPair(f, 0, 0, 0.0, bound, bound);
    } else {
      var before := (r, c) => Delta(ids, n - 1, window, false, r, c);
      var row := (r, c) => InnerSum(ids, n - 1, 0, window, false, r, c);
      GridSumAdd(before, row, f, bound, bound);
      DeltaTotalOf(ids, n - 1, window, bound, before);
      InnerTotal(ids, n - 1, 0, window, bound, row);
      CountedSetStep(n, window);
    }
  }

  /** The counted pairs among n positions: those among n - 1 and those ending at n - 1. */
  lemma CountedSetStep(n: nat, window: int)
    requires n > 0
    ensures |CountedSet(n, window)| == |CountedSet(n - 1, window)| + |CountedRow(n - 1, 0, window)|
  {
    assert CountedSet(n, window) == CountedSet(n - 1, window) + CountedRow(n - 1, 0, window);
    assert CountedSet(n - 1, window) * CountedRow(n - 1, 0, window) == {};
  }

  /**
   * Without distance weighting, a document whose IDs are all below `bound` adds twice the
   * number of counted position pairs to the sum of the entries of the bound x bound matrix:
   * each pair adds 1 to (id_i, id_j) and 1 to (id_j, id_i).
   */
  lemma DeltaTotal(ids: seq<int>, window: int, bound: nat)
    requires forall k :: 0 <= k < |ids| ==> 0 <= ids[k] < bound
    ensures GridSum((r, c) => Delta(ids, |ids|, window, false, r, c), bound, bound)
            == 2.0 * (|CountedSet(|ids|, window)| as real)
  {
    DeltaTotalOf(ids, |ids|, window, bound, (r, c) => Delta(ids, |ids|, window, false, r, c));
  }

  /** A document of fewer than two tokens has no pair, so it adds nothing. */
  lemma ShortDocument(ids: seq<int>, window: int, weightWords: bool, r: int, c: int)
    requires |ids| <= 1
    ensures Delta(ids, |ids|, window, weightWords, r, c) == 0.0
  {
    if |ids| == 1 {
      assert Delta(ids, 0, window, weightWords, r, c) == 0.0;
    }
  }
}
