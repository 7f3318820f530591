/**
 * glove/random.go: the prefix-sum entry picker. It records, for every row, how many
 * entries are stored in that row and all rows before it, and maps an offset in
 * [0, numEntries) to a stored (row, column) position by binary search over those sums.
 * The random offset (`gen.Intn(numEntries)`) is a parameter of `Pick`.
 */
module EntryPicker {
  import Search
  import Layouts
  import Sparse

  class RandomEntryPicker {
    const matrix: Sparse.SparseMatrix
    var offsetsPerRow: seq<int>
    var numEntries: int

    /** The picker agrees with its matrix; it is stale once the matrix is changed. */
    ghost predicate Valid()
      reads this, matrix.rows
    {
      && matrix.Valid()
      && offsetsPerRow == Layouts.PrefixSums(matrix.Layout())
      && numEntries == Layouts.Count(matrix.Layout())
    }

    /**
     * `newRandomEntryPicker`: `offsetsPerRow[i]` is the number of entries of rows 0..i, and
     * `numEntries` the number of entries of the whole matrix.
     */
    constructor (s: Sparse.SparseMatrix)
      requires s.Valid()
      ensures matrix == s && Valid()
      ensures |offsetsPerRow| == |s.rows| && numEntries == Layouts.Count(s.Layout())
      ensures forall i, j :: 0 <= i <= j < |offsetsPerRow| ==> offsetsPerRow[i] <= offsetsPerRow[j]
      ensures |s.rows| > 0 ==> offsetsPerRow[|s.rows| - 1] == numEntries
    {
      ghost var l := s.Layout();
      var offsets: seq<int> := [];
      var n := 0;
      while |offsets| < |s.rows|
        invariant Layouts.RunningSums(l, offsets)
        invariant n == Layouts.Count(l[..|offsets|])
      {
        Layouts.RunningSumsStep(l, offsets, n);
        n := n + |s.rows[|offsets|].indices|;
        offsets := offsets + [n];
      }
      assert l[..|offsets|] == l;
      Layouts.RunningSumsComplete(l, offsets);
      assert s.Valid() && s.Layout() == l;
      matrix, offsetsPerRow, numEntries := s, offsets, n;
    }

    /** `rowForOffset`: the first row whose cumulative count exceeds `off`. */
    function RowForOffset(off: int): (r: nat)
      reads this
      ensures r <= |offsetsPerRow|
      ensures r < |offsetsPerRow| ==> offsetsPerRow[r] > off
      ensures 0 < r ==> offsetsPerRow[r - 1] <= off
      ensures Search.NonDecreasing(offsetsPerRow) ==> forall k :: 0 <= k < r ==> offsetsPerRow[k] <= off
    {
      var offsets := offsetsPerRow;
      var r := Search.Search(|offsets|, (x: nat) => x < |offsets| && offsets[x] > off);
      assert Search.NonDecreasing(offsets) ==> forall k :: 0 <= k < r ==> offsets[k] <= off by {
        if Search.NonDecreasing(offsets) {
          forall k | 0 <= k < r ensures offsets[k] <= off {
            assert offsets[k] <= offsets[r - 1];
          }
        }
      }
      r
    }

    /**
     * `Pick` with the drawn offset as a parameter: the position `offset` places in
     * row-major storage order, the same position `SparseMatrix.RandomEntry(offset)` gives.
     * The row is a real, non-empty row and the column one of its stored indices.
     */
    function Pick(offset: int): (p: (int, int))
      reads this, matrix.rows
      requires Valid() && 0 <= offset < numEntries
      ensures 0 <= p.0 < |matrix.rows| && p.1 in matrix.rows[p.0].indices
      ensures p == Layouts.Flatten(matrix.Layout())[offset]
    {
      var row := RowForOffset(offset);
      Layouts.OffsetInRow(matrix.Layout(), offset, row);
      var rowObj := matrix.rows[row];
      var rowStart := offsetsPerRow[row] - |rowObj.indices|;
      Layouts.LocateOffset(matrix.Layout(), offset, row, rowObj.indices, rowStart);
      (row, rowObj.indices[offset - rowStart])
    }

    /**
     * Offsets and stored positions correspond one to one, so a uniform offset picks every
     * stored position with the same chance, whatever values are stored there.
     */
    lemma PickIsBijection()
      requires Valid()
      ensures forall o1, o2 :: 0 <= o1 < o2 < numEntries ==> Pick(o1) != Pick(o2)
      ensures forall p :: p in Layouts.Stored(matrix.Layout()) <==> exists o :: 0 <= o < numEntries && Pick(o) == p
    {
      var l := matrix.Layout();
      Sparse.ValidLayout(matrix);
      Layouts.OffsetsBijection(l);
      forall p | p in Layouts.Stored(l) ensures exists o :: 0 <= o < numEntries && Pick(o) == p {
        var o :| 0 <= o < |Layouts.Flatten(l)| && Layouts.Flatten(l)[o] == p;
        assert Pick(o) == p;
      }
    }
  }
}
