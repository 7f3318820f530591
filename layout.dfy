/**
 * The storage layout of a sparse matrix, seen as the list of each row's stored column
 * indices. These are the specification functions for `SparseMatrix.NumEntries`,
 * `SparseMatrix.RandomEntry` and the prefix-sum entry picker: the number of stored
 * entries, their row-major storage order, and the cumulative per-row counts.
 */
module Layouts {
  import Sorting

  /** Each row's stored indices are strictly increasing, as `SparseVector` keeps them. */
  predicate RowsStrictlyIncreasing(rows: seq<seq<int>>) {
    forall r, i, j :: 0 <= r < |rows| && 0 <= i < j < |rows[r]| ==> rows[r][i] < rows[r][j]
  }

  /** The number of stored entries: the sum of the row lengths. */
  function Count(rows: seq<seq<int>>): nat
  {
    if rows == [] then 0 else Count(rows[..|rows| - 1]) + |rows[|rows| - 1]|
  }

  /** The stored positions of row `r`, in storage order. */
  function RowPositions(r: int, row: seq<int>): (ps: seq<(int, int)>)
    ensures |ps| == |row|
    ensures forall k :: 0 <= k < |row| ==> ps[k] == (r, row[k])
  {
    seq(|row|, k requires 0 <= k < |row| => (r, row[k]))
  }

  /** All stored positions in row-major storage order: the idx-th entry is `Flatten(rows)[idx]`. */
  function Flatten(rows: seq<seq<int>>): (f: seq<(int, int)>)
    ensures |f| == Count(rows)
  {
    if rows == [] then []
    else Flatten(rows[..|rows| - 1]) + RowPositions(|rows| - 1, rows[|rows| - 1])
  }

  /** The set of stored (row, column) positions. */
  ghost function Stored(rows: seq<seq<int>>): set<(int, int)>
  {
    set r, c | 0 <= r < |rows| && c in rows[r] :: (r, c)
  }

  /** `offsetsPerRow`: entry `i` is the number of entries stored in rows 0..i. */
  function PrefixSums(rows: seq<seq<int>>): (ps: seq<nat>)
    ensures |ps| == |rows|
    ensures forall i :: 0 <= i < |rows| ==> ps[i] == Count(rows[..i + 1])
  {
    seq(|rows|, i requires 0 <= i < |rows| => Count(rows[..i + 1]))
  }

  /** Counting one more row adds that row's length. */
  lemma CountStep(rows: seq<seq<int>>, i: nat)
    requires i < |rows|
    ensures Count(rows[..i + 1]) == Count(rows[..i]) + |rows[i]|
  {
    assert rows[..i + 1][..i] == rows[..i];
  }

  /** `sums` holds the running counts of the first `|sums|` rows. */
  ghost predicate RunningSums(rows: seq<seq<int>>, sums: seq<int>)
  {
    |sums| <= |rows| && forall k :: 0 <= k < |sums| ==> sums[k] == Count(rows[..k + 1])
  }

  /** Appending the next running count keeps the running sums. */
  lemma RunningSumsStep(rows: seq<seq<int>>, sums: seq<int>, n: int)
    requires RunningSums(rows, sums) && |sums| < |rows|
    requires n == Count(rows[..|sums|])
    ensures n + |rows[|sums|]| == Count(rows[..|sums| + 1])
    ensures RunningSums(rows, sums + [n + |rows[|sums|]|])
  {
    CountStep(rows, |sums|);
  }

  /** Running sums of all rows are the prefix sums, and they never decrease. */
  lemma RunningSumsComplete(rows: seq<seq<int>>, sums: seq<int>)
    requires RunningSums(rows, sums) && |sums| == |rows|
    ensures sums == PrefixSums(rows)
    ensures forall i, j :: 0 <= i <= j < |sums| ==> sums[i] <= sums[j]
  {
    PrefixSumsMonotone(rows);
  }

  /** The count of a prefix grows with the prefix. */
  lemma {:induction false} CountPrefixMonotone(rows: seq<seq<int>>, i: nat, j: nat)
    requires i <= j <= |rows|
    ensures Count(rows[..i]) <= Count(rows[..j])
    decreases j - i
  {
    if i < j {
      CountPrefixMonotone(rows, i, j - 1);
      CountStep(rows, j - 1);
    }
  }

  /** The cumulative counts never decrease, so `sort.Search` may bisect them. */
  lemma PrefixSumsMonotone(rows: seq<seq<int>>)
    ensures forall i, j :: 0 <= i <= j < |rows| ==> PrefixSums(rows)[i] <= PrefixSums(rows)[j]
  {
    forall i, j | 0 <= i <= j < |rows| ensures PrefixSums(rows)[i] <= PrefixSums(rows)[j] {
      CountPrefixMonotone(rows, i + 1, j + 1);
    }
  }

  /** Replacing one row changes the count by the difference of the two lengths. */
  lemma {:induction false} CountUpdate(rows: seq<seq<int>>, r: nat, row: seq<int>)
    requires r < |rows|
    ensures Count(rows[r := row]) == Count(rows) - |rows[r]| + |row|
    decreases |rows|
  {
    var n := |rows|;
    var updated := rows[r := row];
    if r < n - 1 {
      assert updated[..n - 1] == rows[..n - 1][r := row];
      CountUpdate(rows[..n - 1], r, row);
    } else {
      assert updated[..n - 1] == rows[..n - 1];
    }
  }

  /** Replacing row `r` by one that also holds `c` adds position (r, c) and nothing else. */
  lemma StoredUpdate(rows: seq<seq<int>>, r: nat, row: seq<int>, c: int)
    requires r < |rows|
    requires forall j :: j in row <==> j in rows[r] || j == c
    ensures Stored(rows[r := row]) == Stored(rows) + {(r, c)}
  {
    var after := rows[r := row];
    forall p ensures p in Stored(after) <==> p in Stored(rows) + {(r, c)} {
      var (x, y) := p;
      if 0 <= x < |rows| && y in after[x] {
        assert p in Stored(after);
      }
      if 0 <= x < |rows| && y in rows[x] {
        assert p in Stored(rows);
        assert y in after[x];
      }
      if p == (r, c) {
        assert c in after[r];
      }
    }
  }

  /**
   * The offset -> position correspondence: an offset that falls inside row `r`'s share of
   * the count picks column `rows[r][offset - Count(rows[..r])]` of that row.
   */
  lemma {:induction false} FlattenAt(rows: seq<seq<int>>, offset: int, r: nat)
    requires r < |rows|
    requires Count(rows[..r]) <= offset < Count(rows[..r]) + |rows[r]|
    ensures 0 <= offset < |Flatten(rows)|
    ensures Flatten(rows)[offset] == (r, rows[r][offset - Count(rows[..r])])
    decreases |rows|
  {
    var n := |rows|;
    var init := rows[..n - 1];
    if r == n - 1 {
      assert rows[..r] == init;
    } else {
      assert init[..r] == rows[..r];
      FlattenAt(init, offset, r);
      CountPrefixMonotone(rows, r + 1, n - 1);
      CountStep(rows, r);
      assert rows[..n - 1] == init;
    }
  }

  /**
   * What the binary search over the prefix sums finds: the row `r` where `offset`'s
   * cumulative count is first exceeded is a real row, `offset` falls inside that row's share
   * of the count, and so that row is not empty.
   */
  lemma PrefixSearch(rows: seq<seq<int>>, offset: int, r: nat)
    requires 0 <= offset < Count(rows)
    requires r <= |rows|
    requires r < |rows| ==> PrefixSums(rows)[r] > offset
    requires 0 < r ==> PrefixSums(rows)[r - 1] <= offset
    ensures r < |rows|
    ensures Count(rows[..r]) <= offset < Count(rows[..r]) + |rows[r]|
    ensures |rows[r]| > 0
  {
    assert rows[..|rows|] == rows;
    if r < |rows| { CountStep(rows, r); }
  }

  /**
   * The binary search's row, read back: `offset` lies in row `r`, at column index
   * `offset - rowStart` where `rowStart` is the prefix sum of `r` less the row's length.
   */
  lemma OffsetInRow(rows: seq<seq<int>>, offset: int, r: nat)
    requires 0 <= offset < Count(rows)
    requires r <= |rows|
    requires r < |rows| ==> PrefixSums(rows)[r] > offset
    requires 0 < r ==> PrefixSums(rows)[r - 1] <= offset
    ensures r < |rows|
    ensures 0 <= offset - (PrefixSums(rows)[r] - |rows[r]|) < |rows[r]|
  {
    PrefixSearch(rows, offset, r);
    CountStep(rows, r);
  }

  /**
   * The position storage order puts at `offset`, read from the row `r` the search found:
   * `row` is that row's column list and `start` the number of entries before it.
   */
  lemma LocateOffset(rows: seq<seq<int>>, offset: int, r: nat, row: seq<int>, start: int)
    requires r < |rows| && rows[r] == row
    requires start == PrefixSums(rows)[r] - |row|
    requires 0 <= offset - start < |row|
    ensures 0 <= offset < |Flatten(rows)|
    ensures Flatten(rows)[offset] == (r, row[offset - start])
  {
    CountStep(rows, r);
    FlattenAt(rows, offset, r);
  }

  /** Exactly the stored positions appear in the storage order. */
  lemma {:induction false} FlattenMembers(rows: seq<seq<int>>)
    ensures forall r, c :: (r, c) in Flatten(rows) <==> 0 <= r < |rows| && c in rows[r]
    decreases |rows|
  {
    if rows != [] {
      var n := |rows|;
      var init := rows[..n - 1];
      FlattenMembers(init);
      var last := RowPositions(n - 1, rows[n - 1]);
      forall r, c ensures (r, c) in Flatten(rows) <==> 0 <= r < n && c in rows[r] {
        if (r, c) in last {
          var k :| 0 <= k < |last| && last[k] == (r, c);
        }
        if r == n - 1 && c in rows[r] {
          var k :| 0 <= k < |rows[r]| && rows[r][k] == c;
          assert last[k] == (r, c);
        }
        if 0 <= r < n - 1 {
          assert init[r] == rows[r];
        }
      }
    }
  }

  /** No stored position appears twice in the storage order. */
  lemma {:induction false} FlattenDistinct(rows: seq<seq<int>>)
    requires RowsStrictlyIncreasing(rows)
    ensures forall i, j :: 0 <= i < j < |Flatten(rows)| ==> Flatten(rows)[i] != Flatten(rows)[j]
    decreases |rows|
  {
    if rows != [] {
      var n := |rows|;
      var init := rows[..n - 1];
      var f := Flatten(rows);
      var head := Flatten(init);
      var last := RowPositions(n - 1, rows[n - 1]);
      FlattenDistinct(init);
      FlattenMembers(init);
      forall i, j | 0 <= i < j < |f| ensures f[i] != f[j] {
        if j >= |head| {
          if i >= |head| {
            assert f[i] == last[i - |head|] && f[j] == last[j - |head|];
          } else {
            assert f[i] == head[i] && f[i] in head;
            assert f[j] == last[j - |head|];
          }
        } else {
          assert f[i] == head[i] && f[j] == head[j];
        }
      }
    }
  }

  /**
   * `NumEntries` counts distinct positions: the number of stored entries equals the number
   * of stored (row, column) positions.
   */
  lemma CountIsStoredPositions(rows: seq<seq<int>>)
    requires RowsStrictlyIncreasing(rows)
    ensures |Stored(rows)| == Count(rows)
  {
    FlattenIsStored(rows);
    FlattenDistinct(rows);
    Sorting.DistinctCardinality(Flatten(rows));
    assert Stored(rows) == set p | p in Flatten(rows);
  }

  lemma FlattenIsStored(rows: seq<seq<int>>)
    ensures forall p :: p in Flatten(rows) <==> p in Stored(rows)
  {
    FlattenMembers(rows);
    forall p ensures p in Flatten(rows) <==> p in Stored(rows) {
      var (r, c) := p;
      assert (r, c) in Flatten(rows) <==> 0 <= r < |rows| && c in rows[r];
      if 0 <= r < |rows| && c in rows[r] {
        assert (r, c) in Stored(rows);
      }
    }
  }

  /** The offset <-> stored position correspondence is a bijection onto `Stored(rows)`. */
  lemma OffsetsBijection(rows: seq<seq<int>>)
    requires RowsStrictlyIncreasing(rows)
    ensures |Flatten(rows)| == Count(rows)
    ensures forall p :: p in Flatten(rows) <==> p in Stored(rows)
    ensures forall i, j :: 0 <= i < j < |Flatten(rows)| ==> Flatten(rows)[i] != Flatten(rows)[j]
  {
    FlattenIsStored(rows);
    FlattenDistinct(rows);
  }
}
