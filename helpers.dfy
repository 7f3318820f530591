/**
 * word2vec/helpers.go: turning signed path entries into node indices, and the sorted list
 * of the distinct node indices a batch of paths goes through.
 */
module PathHelpers {
  import Sorting
  import Hierarchies

  /** `pathElementNodeIndex`: entries `k` and `-k` both stand for node `k`, at index k - 1. */
  function PathElementNodeIndex(pathElement: int): int {
    if pathElement > 0 then pathElement - 1 else -pathElement - 1
  }

  /**
   * Turning right (`k`) or left (`-k`) at node `k` names the same node, every non-zero entry
   * names a node index, and node `k`'s index is k - 1, so different nodes have different
   * indices.
   */
  lemma NodeIndexOfEntry(x: int)
    ensures x != 0 ==> PathElementNodeIndex(x) == Hierarchies.Abs(x) - 1 >= 0
    ensures PathElementNodeIndex(-x) == PathElementNodeIndex(x) || x == 0
    ensures forall y :: y != 0 && x != 0 && PathElementNodeIndex(y) == PathElementNodeIndex(x) ==>
              y == x || y == -x
  {
  }

  predicate IntLess(a: int, b: int) {
    a < b
  }

  lemma IntLessIsStrictTotalOrder()
    ensures Sorting.StrictTotalOrder(IntLess) && Sorting.StrictWeakOrder(IntLess)
  {
    Sorting.TotalIsWeak(IntLess);
  }

  /** The node indices of the entries of the paths before path `i` and of the first `j` of path `i`. */
  ghost function VisitedIndices(p: seq<seq<int>>, i: int, j: int): set<int> {
    set a, b | 0 <= a < |p| && 0 <= b < |p[a]| && (a < i || (a == i && b < j)) ::
      PathElementNodeIndex(p[a][b])
  }

  /** The node index of every entry of every path. */
  ghost function NodeIndices(p: seq<seq<int>>): set<int> {
    set a, b | 0 <= a < |p| && 0 <= b < |p[a]| :: PathElementNodeIndex(p[a][b])
  }

  lemma VisitEntry(p: seq<seq<int>>, i: nat, j: nat)
    requires i < |p| && j < |p[i]|
    ensures VisitedIndices(p, i, j + 1) == VisitedIndices(p, i, j) + {PathElementNodeIndex(p[i][j])}
  {
    var x := PathElementNodeIndex(p[i][j]);
    assert x in VisitedIndices(p, i, j + 1);
  }

  lemma NextPath(p: seq<seq<int>>, i: nat)
    requires i < |p|
    ensures VisitedIndices(p, i, |p[i]|) == VisitedIndices(p, i + 1, 0)
  {
  }

  lemma AllVisited(p: seq<seq<int>>)
    ensures VisitedIndices(p, |p|, 0) == NodeIndices(p)
  {
  }

  /**
   * `sortedNodesInPaths`: collect the node index of every entry, skipping indices already
   * seen, then sort. The result is strictly increasing and holds exactly the node indices
   * of the paths' entries.
   */
  method SortedNodesInPaths(p: seq<seq<int>>) returns (all: seq<int>)
    ensures Sorting.StrictlySortedBy(all, IntLess)
    ensures forall x :: x in all <==> x in NodeIndices(p)
  {
    var seen: map<int, bool> := map[];
    all := [];
    for i := 0 to |p|
      invariant Sorting.Distinct(all)
      invariant forall x :: x in seen <==> x in all
      invariant forall x :: x in seen ==> seen[x]
      invariant forall x :: x in all <==> x in VisitedIndices(p, i, 0)
    {
      var path := p[i];
      for j := 0 to |path|
        invariant Sorting.Distinct(all)
        invariant forall x :: x in seen <==> x in all
        invariant forall x :: x in seen ==> seen[x]
        invariant forall x :: x in all <==> x in VisitedIndices(p, i, j)
      {
        var idx := PathElementNodeIndex(path[j]);
        VisitEntry(p, i, j);
        if !(idx in seen && seen[idx]) {
          seen := seen[idx := true];
          all := all + [idx];
        }
      }
      NextPath(p, i);
    }
    AllVisited(p);
    ghost var collected := all;
    all := Sorting.Sort(all, IntLess);
    IntLessIsStrictTotalOrder();
    Sorting.SortSorted(collected, IntLess);
    Sorting.PermutationDistinct(collected, all);
    Sorting.SortedDistinctIsStrict(all, IntLess);
    assert forall x :: x in all <==> x in multiset(collected);
  }

  /**
   * For paths read from a hierarchy `BuildHierarchy` made for k words, every node index lies
   * in [0, k - 1), which is [0, NumNodes()).
   */
  lemma BuiltIndicesInRange(words: map<string, real>, order: seq<string>, p: seq<seq<int>>)
    requires Hierarchies.IsOrder(words, order)
    requires Hierarchies.HierarchyOf(words, order).Ok?
    requires forall i :: 0 <= i < |p| ==>
               p[i] == [] || exists w :: w in Hierarchies.HierarchyOf(words, order).value &&
                                         p[i] == Hierarchies.HierarchyOf(words, order).value[w]
    ensures Hierarchies.IsMaxAbs(Hierarchies.HierarchyOf(words, order).value, |words| - 1)
    ensures forall x :: x in NodeIndices(p) ==> 0 <= x < |words| - 1
  {
    var h := Hierarchies.HierarchyOf(words, order).value;
    Hierarchies.HierarchyProperties(words, order);
    PathIndicesInRange(h, |words|, p);
  }

  /** Paths whose entries are non-zero and below `n` in absolute value visit indices below n - 1. */
  lemma PathIndicesInRange(h: Hierarchies.Hierarchy, n: int, p: seq<seq<int>>)
    requires forall w, k :: w in h && 0 <= k < |h[w]| ==> 1 <= Hierarchies.Abs(h[w][k]) < n
    requires forall i :: 0 <= i < |p| ==> p[i] == [] || exists w :: w in h && p[i] == h[w]
    ensures forall x :: x in NodeIndices(p) ==> 0 <= x < n - 1
  {
    forall x | x in NodeIndices(p) ensures 0 <= x < n - 1 {
      var a, b :| 0 <= a < |p| && 0 <= b < |p[a]| && PathElementNodeIndex(p[a][b]) == x;
      var w :| w in h && p[a] == h[w];
      assert 1 <= Hierarchies.Abs(h[w][b]) < n;
    }
  }
}
