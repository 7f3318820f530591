/**
 * Binary search as Go's `sort.Search` performs it, and the two searches built on it
 * (`sort.SearchInts`, `sort.SearchStrings`) that the sparse vectors, the token set and the
 * entry picker use.
 */
module Search {
  import Lex
  import Sorting

  /** `f` is false on a prefix of [0, n) and true on the rest. */
  predicate Monotone(n: nat, f: nat -> bool) {
    forall i, j :: 0 <= i <= j < n && f(i) ==> f(j)
  }

  /**
   * `sort.Search(n, f)`: the index where `f` first holds. Whatever `f` is, the result is in
   * [0, n], `f` holds there (unless it is `n`) and fails just before it; when `f` is
   * monotone it is the smallest index in [0, n) where `f` holds, or `n` if there is none.
   */
  function Search(n: nat, f: nat -> bool): (r: nat)
    ensures r <= n
    ensures r < n ==> f(r)
    ensures 0 < r ==> !f(r - 1)
    ensures Monotone(n, f) ==> (forall k :: 0 <= k < r ==> !f(k)) && (forall k :: r <= k < n ==> f(k))
  {
    SearchBetween(0, n, n, f)
  }

  /** One halving step of the search loop: the answer lies in [lo, hi]. */
  function SearchBetween(lo: nat, hi: nat, n: nat, f: nat -> bool): (r: nat)
    requires lo <= hi <= n
    requires 0 < lo ==> !f(lo - 1)
    requires hi < n ==> f(hi)
    ensures lo <= r <= hi
    ensures r < n ==> f(r)
    ensures 0 < r ==> !f(r - 1)
    decreases hi - lo
  {
    if lo < hi then
      var h := (lo + hi) / 2;
      if !f(h) then SearchBetween(h + 1, hi, n, f) else SearchBetween(lo, h, n, f)
    else
      lo
  }

  predicate NonDecreasing(a: seq<int>) {
    forall i, j :: 0 <= i < j < |a| ==> a[i] <= a[j]
  }

  /** `sort.SearchInts(a, x)`: the first position of a sorted `a` holding a value >= x. */
  function SearchInts(a: seq<int>, x: int): (r: nat)
    requires NonDecreasing(a)
    ensures r <= |a|
    ensures forall k :: 0 <= k < r ==> a[k] < x
    ensures forall k :: r <= k < |a| ==> a[k] >= x
  {
    Search(|a|, (k: nat) => k < |a| && a[k] >= x)
  }

  /** `sort.SearchStrings(a, x)`: the first position holding a string not below `x`. */
  function SearchStrings(a: seq<string>, x: string): (r: nat)
    ensures r <= |a|
    ensures r < |a| ==> !Lex.Less(a[r], x)
    ensures 0 < r ==> Lex.Less(a[r - 1], x)
    ensures Sorting.SortedBy(a, Lex.Less) ==> (forall k :: 0 <= k < r ==> Lex.Less(a[k], x))
  {
    var f := (k: nat) => k < |a| && !Lex.Less(a[k], x);
    assert Sorting.SortedBy(a, Lex.Less) ==> Monotone(|a|, f) by {
      if Sorting.SortedBy(a, Lex.Less) {
        forall i, j | 0 <= i <= j < |a| && f(i) ensures f(j) {
          if Lex.Less(a[j], x) {
            if i < j { Lex.LessNotAbove(a[i], a[j], x); }
          }
        }
      }
    }
    var r := Search(|a|, f);
    assert Sorting.SortedBy(a, Lex.Less) ==> forall k :: 0 <= k < r ==> Lex.Less(a[k], x) by {
      if Sorting.SortedBy(a, Lex.Less) {
        forall k | 0 <= k < r ensures Lex.Less(a[k], x) { assert !f(k); }
      }
    }
    r
  }
}
