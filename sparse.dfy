/**
 * glove/sparse.go: the sparse co-occurrence storage. A `SparseVector` keeps its stored
 * indices strictly increasing with a parallel list of values; a `SparseMatrix` is a fixed
 * list of distinct row vectors. Values are `real` (the Go code uses float32).
 */
module Sparse {
  import Search
  import Layouts

  predicate StrictlyIncreasing(ix: seq<int>) {
    forall i, j :: 0 <= i < j < |ix| ==> ix[i] < ix[j]
  }

  /**
   * The value stored for index `i` in the parallel lists `ix` and `vs`, found by binary
   * search as `SparseVector.Get` does: the value at `i`'s position, or 0 when `i` is absent.
   */
  function Lookup(ix: seq<int>, vs: seq<real>, i: int): (v: real)
    requires |ix| == |vs| && StrictlyIncreasing(ix)
    ensures forall k :: 0 <= k < |ix| && ix[k] == i ==> v == vs[k]
    ensures i !in ix ==> v == 0.0
  {
    var idx := Search.SearchInts(ix, i);
    if idx == |ix| || ix[idx] != i then 0.0 else vs[idx]
  }

  /** The element at position `k` after inserting `x` at position `p`. */
  lemma InsertedAt<T>(s: seq<T>, p: nat, x: T, k: nat)
    requires p <= |s| && k <= |s|
    ensures |s[..p] + [x] + s[p..]| == |s| + 1
    ensures (s[..p] + [x] + s[p..])[k] == if k < p then s[k] else if k == p then x else s[k - 1]
  {
  }

  /** Inserting an index between its smaller and larger neighbours keeps the order strict. */
  lemma InsertIncreasing(ix: seq<int>, p: nat, i: int)
    requires StrictlyIncreasing(ix) && p <= |ix|
    requires forall k :: 0 <= k < p ==> ix[k] < i
    requires forall k :: p <= k < |ix| ==> ix[k] > i
    ensures StrictlyIncreasing(ix[..p] + [i] + ix[p..])
    ensures forall j :: j in ix[..p] + [i] + ix[p..] <==> j in ix || j == i
  {
    var ix' := ix[..p] + [i] + ix[p..];
    forall a, b | 0 <= a < b < |ix'| ensures ix'[a] < ix'[b] {
      InsertedAt(ix, p, i, a);
      InsertedAt(ix, p, i, b);
    }
    forall j ensures j in ix' <==> j in ix || j == i {
      if j in ix {
        var q :| 0 <= q < |ix| && ix[q] == j;
        InsertedAt(ix, p, i, if q < p then q else q + 1);
      }
      if j in ix' {
        var q :| 0 <= q < |ix'| && ix'[q] == j;
        InsertedAt(ix, p, i, q);
      }
      InsertedAt(ix, p, i, p);
    }
  }

  /** After inserting (i, v) at its sorted place, `i` reads `v` and every other index as before. */
  lemma InsertLookup(ix: seq<int>, vs: seq<real>, p: nat, i: int, v: real, j: int)
    requires |ix| == |vs| && StrictlyIncreasing(ix) && p <= |ix|
    requires StrictlyIncreasing(ix[..p] + [i] + ix[p..])
    requires forall j :: j in ix[..p] + [i] + ix[p..] <==> j in ix || j == i
    requires i !in ix
    ensures Lookup(ix[..p] + [i] + ix[p..], vs[..p] + [v] + vs[p..], j) == if j == i then v else Lookup(ix, vs, j)
  {
    var ix', vs' := ix[..p] + [i] + ix[p..], vs[..p] + [v] + vs[p..];
    InsertedAt(vs, p, v, 0);
    if j == i {
      InsertedAt(ix, p, i, p);
      InsertedAt(vs, p, v, p);
      assert ix'[p] == i && vs'[p] == v;
    } else if j in ix {
      var q :| 0 <= q < |ix| && ix[q] == j;
      var q' := if q < p then q else q + 1;
      InsertedAt(ix, p, i, q');
      InsertedAt(vs, p, v, q');
      assert ix'[q'] == j && vs'[q'] == vs[q];
      assert Lookup(ix, vs, j) == vs[q];
    } else {
      assert j !in ix';
    }
  }

  /** Overwriting the value at a stored position changes only that index's value. */
  lemma OverwriteLookup(ix: seq<int>, vs: seq<real>, p: nat, v: real, j: int)
    requires |ix| == |vs| && StrictlyIncreasing(ix) && p < |ix|
    ensures Lookup(ix, vs[p := v], j) == if j == ix[p] then v else Lookup(ix, vs, j)
  {
    if j in ix {
      var q :| 0 <= q < |ix| && ix[q] == j;
    }
  }

  /**
   * `ix'`, `vs'` are `ix`, `vs` after writing `v` at index `i`: still strictly increasing and
   * parallel, `i` reads `v`, every other index reads as before, `i` is stored, and one entry
   * was added exactly when `i` was not stored.
   */
  ghost predicate Updated(ix: seq<int>, vs: seq<real>, i: int, v: real, ix': seq<int>, vs': seq<real>)
    requires |ix| == |vs| && StrictlyIncreasing(ix)
  {
    && |ix'| == |vs'| && StrictlyIncreasing(ix')
    && (forall j :: Lookup(ix', vs', j) == if j == i then v else Lookup(ix, vs, j))
    && (forall j :: j in ix' <==> j in ix || j == i)
    && |ix'| == |ix| + (if i in ix then 0 else 1)
  }

  /** Inserting (i, v) at its sorted place `p` is such a write. */
  lemma InsertEffects(ix: seq<int>, vs: seq<real>, p: nat, i: int, v: real, ix': seq<int>, vs': seq<real>)
    requires |ix| == |vs| && StrictlyIncreasing(ix) && p <= |ix|
    requires forall k :: 0 <= k < p ==> ix[k] < i
    requires forall k :: p <= k < |ix| ==> ix[k] >= i
    requires p == |ix| || ix[p] != i
    requires ix' == ix[..p] + [i] + ix[p..] && vs' == vs[..p] + [v] + vs[p..]
    ensures Updated(ix, vs, i, v, ix', vs')
  {
    forall k | p < k < |ix| ensures ix[k] > i {
      assert ix[p] < ix[k];
    }
    InsertIncreasing(ix, p, i);
    InsertedAt(vs, p, v, 0);
    forall j ensures Lookup(ix', vs', j) == if j == i then v else Lookup(ix, vs, j) {
      InsertLookup(ix, vs, p, i, v, j);
    }
  }

  /** Overwriting the value at the position `p` that stores `i` is such a write. */
  lemma OverwriteEffects(ix: seq<int>, vs: seq<real>, p: nat, i: int, v: real)
    requires |ix| == |vs| && StrictlyIncreasing(ix) && p < |ix| && ix[p] == i
    ensures Updated(ix, vs, i, v, ix, vs[p := v])
  {
    forall j ensures Lookup(ix, vs[p := v], j) == if j == i then v else Lookup(ix, vs, j) {
      OverwriteLookup(ix, vs, p, v, j);
    }
  }

  class SparseVector {
    /** The logical length, zeros included. The Go code never checks indices against it. */
    var len: int
    var indices: seq<int>
    var values: seq<real>

    ghost predicate Valid()
      reads this
    {
      |indices| == |values| && StrictlyIncreasing(indices)
    }

    /** A vector of logical length `n` with nothing stored (`&SparseVector{Len: n}`). */
    constructor (n: int)
      ensures Valid() && len == n && indices == [] && values == []
    {
      len, indices, values := n, [], [];
    }

    /** `Get`: the stored value at `i`, or 0 when `i` is not stored. */
    function Get(i: int): (v: real)
      reads this
      requires Valid()
      ensures forall k :: 0 <= k < |indices| && indices[k] == i ==> v == values[k]
      ensures i !in indices ==> v == 0.0
    {
      Lookup(indices, values, i)
    }

    /**
     * `Set`: a binary search, then an append at the end, a shift-insert in the middle, or
     * an overwrite. Afterwards `i` reads `v`, every other index reads as before, and `i` is
     * stored; one entry is added exactly when `i` was not stored, even when `v` is 0.
     */
    method Set(i: int, v: real)
      requires Valid()
      modifies this
      ensures Valid() && len == old(len)
      ensures forall j :: Get(j) == if j == i then v else old(Get(j))
      ensures forall j :: j in indices <==> j in old(indices) || j == i
      ensures |indices| == old(|indices|) + (if i in old(indices) then 0 else 1)
    {
      var idx := Search.SearchInts(indices, i);
      var ix, vs;
      if idx == |indices| {
        ix, vs := indices + [i], values + [v];
        assert ix == indices[..idx] + [i] + indices[idx..] && vs == values[..idx] + [v] + values[idx..];
        InsertEffects(indices, values, idx, i, v, ix, vs);
      } else if indices[idx] != i {
        // append one slot, then copy the tail one place right and write the new entry
        ix, vs := indices[..idx] + [i] + indices[idx..], values[..idx] + [v] + values[idx..];
        InsertEffects(indices, values, idx, i, v, ix, vs);
      } else {
        ix, vs := indices, values[idx := v];
        OverwriteEffects(indices, values, idx, i, v);
      }
      indices, values := ix, vs;
    }
  }

  /** A matrix's contents, row by row: each row's index and value lists. */
  type Contents = seq<(seq<int>, seq<real>)>

  /** The value the contents hold for entry (r, c), read as `SparseVector.Get` reads it; 0 outside the rows. */
  function Entry(cs: Contents, r: int, c: int): real
  {
    if 0 <= r < |cs| && |cs[r].0| == |cs[r].1| && StrictlyIncreasing(cs[r].0) then Lookup(cs[r].0, cs[r].1, c) else 0.0
  }

  /** Replacing row `row` by one that reads `v` at `col` and as before elsewhere changes entry (row, col) only. */
  lemma EntryUpdate(cs: Contents, row: nat, col: int, v: real, ix: seq<int>, vs: seq<real>)
    requires row < |cs| && |cs[row].0| == |cs[row].1| && StrictlyIncreasing(cs[row].0)
    requires |ix| == |vs| && StrictlyIncreasing(ix)
    requires forall j :: Lookup(ix, vs, j) == if j == col then v else Lookup(cs[row].0, cs[row].1, j)
    ensures forall r, c :: Entry(cs[row := (ix, vs)], r, c) == if r == row && c == col then v else Entry(cs, r, c)
  {
    var after := cs[row := (ix, vs)];
    forall r, c ensures Entry(after, r, c) == if r == row && c == col then v else Entry(cs, r, c) {
      if r == row {
        assert after[r] == (ix, vs);
        assert Entry(after, r, c) == Lookup(ix, vs, c);
      } else if 0 <= r < |cs| {
        assert after[r] == cs[r];
      }
    }
  }

  class SparseMatrix {
    const rows: seq<SparseVector>

    ghost predicate Valid()
      reads rows
    {
      && (forall r, s :: 0 <= r < s < |rows| ==> rows[r] != rows[s])
      && (forall r :: 0 <= r < |rows| ==> rows[r].Valid())
    }

    /** Each row's stored column indices, in storage order. */
    ghost function Layout(): (l: seq<seq<int>>)
      reads rows
      ensures |l| == |rows|
      ensures forall r :: 0 <= r < |rows| ==> l[r] == rows[r].indices
    {
      seq(|rows|, r reads rows requires 0 <= r < |rows| => rows[r].indices)
    }

    /** The rows' index and value lists. */
    ghost function Snapshot(): (cs: Contents)
      reads rows
      ensures |cs| == |rows|
      ensures forall r :: 0 <= r < |rows| ==> cs[r] == (rows[r].indices, rows[r].values)
    {
      seq(|rows|, r reads rows requires 0 <= r < |rows| => (rows[r].indices, rows[r].values))
    }

    /** Every entry `Get` reads is the one the contents hold. */
    lemma GetIsEntry()
      requires Valid()
      ensures forall r, c :: 0 <= r < |rows| ==> Get(r, c) == Entry(Snapshot(), r, c)
    {
    }

    /** `NewSparseMatrix(numRows, cols)`: `numRows` fresh empty rows of length `cols`. */
    constructor (numRows: nat, cols: int)
      ensures Valid() && |rows| == numRows
      ensures forall r :: 0 <= r < numRows ==> fresh(rows[r]) && rows[r].len == cols
      ensures forall r :: 0 <= r < numRows ==> rows[r].indices == [] && rows[r].values == []
    {
      var rs: seq<SparseVector> := [];
      while |rs| < numRows
        invariant |rs| <= numRows
        invariant forall r :: 0 <= r < |rs| ==> fresh(rs[r]) && rs[r].Valid()
        invariant forall r :: 0 <= r < |rs| ==> rs[r].len == cols && rs[r].indices == [] && rs[r].values == []
        invariant forall r, s :: 0 <= r < s < |rs| ==> rs[r] != rs[s]
      {
        var v := new SparseVector(cols);
        rs := rs + [v];
      }
      rows := rs;
    }

    /** `Get`: reads the entry from the addressed row. */
    function Get(row: int, col: int): (v: real)
      reads rows
      requires Valid() && 0 <= row < |rows|
      ensures forall k :: 0 <= k < |rows[row].indices| && rows[row].indices[k] == col ==> v == rows[row].values[k]
      ensures col !in rows[row].indices ==> v == 0.0
    {
      rows[row].Get(col)
    }

    /**
     * `Set`: writes one entry of the addressed row. Afterwards the entry reads `v`, every
     * other entry reads as before, and the stored positions gain (row, col).
     */
    method Set(row: int, col: int, v: real)
      requires Valid() && 0 <= row < |rows|
      modifies rows[row]
      ensures Valid()
      ensures forall r :: 0 <= r < |rows| ==> rows[r].len == old(rows[r].len)
      ensures Layouts.Stored(Layout()) == Layouts.Stored(old(Layout())) + {(row, col)}
      ensures Layouts.Count(Layout()) == Layouts.Count(old(Layout())) + (if (row, col) in Layouts.Stored(old(Layout())) then 0 else 1)
      ensures forall r, c :: Entry(Snapshot(), r, c) == if r == row && c == col then v else Entry(old(Snapshot()), r, c)
    {
      ghost var before := Layout();
      ghost var contents := Snapshot();
      rows[row].Set(col, v);
      assert Snapshot() == contents[row := (rows[row].indices, rows[row].values)];
      forall j ensures Lookup(rows[row].indices, rows[row].values, j)
                       == if j == col then v else Lookup(contents[row].0, contents[row].1, j) {
        assert rows[row].Get(j) == if j == col then v else old(rows[row].Get(j));
      }
      EntryUpdate(contents, row, col, v, rows[row].indices, rows[row].values);
      assert Layout() == before[row := rows[row].indices];
      Layouts.CountUpdate(before, row, rows[row].indices);
      Layouts.StoredUpdate(before, row, rows[row].indices, col);
    }

    /** `NumEntries`: the number of stored entries, which is the number of stored positions. */
    method NumEntries() returns (n: nat)
      requires Valid()
      ensures n == Layouts.Count(Layout())
      ensures n == |Layouts.Stored(Layout())|
    {
      ghost var l := Layout();
      n := 0;
      var i := 0;
      while i < |rows|
        invariant 0 <= i <= |rows|
        invariant n == Layouts.Count(l[..i])
      {
        Layouts.CountStep(l, i);
        n := n + |rows[i].indices|;
        i := i + 1;
      }
      assert l[..i] == l;
      Layouts.CountIsStoredPositions(l);
    }

    /**
     * `RandomEntry` with its draw `idx` (from `rand.Intn(NumEntries())`) as a parameter:
     * (0, 0) when nothing is stored, otherwise the idx-th stored position in row-major
     * storage order, which is a stored position.
     */
    method RandomEntry(idx: int) returns (row: int, col: int)
      requires Valid()
      requires Layouts.Count(Layout()) > 0 ==> 0 <= idx < Layouts.Count(Layout())
      ensures Layouts.Count(Layout()) == 0 ==> row == 0 && col == 0
      ensures Layouts.Count(Layout()) > 0 ==> (row, col) == Layouts.Flatten(Layout())[idx]
      ensures Layouts.Count(Layout()) > 0 ==> (row, col) in Layouts.Stored(Layout())
    {
      ghost var l := Layout();
      assert l[..|l|] == l;
      var numEntries := NumEntries();
      if numEntries == 0 {
        return 0, 0;
      }
      Layouts.FlattenIsStored(l);
      var rest := idx;
      var i := 0;
      while i < |rows|
        invariant 0 <= i <= |rows|
        invariant rest == idx - Layouts.Count(l[..i]) && rest >= 0
      {
        Layouts.CountStep(l, i);
        if rest < |rows[i].indices| {
          Layouts.FlattenAt(l, idx, i);
          return i, rows[i].indices[rest];
        }
        rest := rest - |rows[i].indices|;
        i := i + 1;
      }
      assert false;
    }
  }

  /** The matrix's stored indices satisfy the layout's row invariant. */
  lemma ValidLayout(m: SparseMatrix)
    requires m.Valid()
    ensures Layouts.RowsStrictlyIncreasing(m.Layout())
  {
  }
}
