/**
 * word2vec/hierarchy.go: the Huffman tree over word frequencies and the hierarchy it
 * encodes. Internal nodes are numbered from 1 in preorder; a word's path lists the nodes
 * from the root down, negated where the path turns left. The splay tree the source uses as
 * a priority queue is a sequence kept sorted by the order `treeValue.Compare` implements.
 */
module Hierarchies {
  import opened Wrappers
  import Lex
  import Sorting

  /** `huffmanNode`: a leaf holds a word, an internal node two children. */
  datatype Node = Leaf(word: string) | Branch(left: Node, right: Node)

  /** `treeValue`: a subtree with its total probability. */
  datatype Value = Value(node: Node, prob: real)

  /** `Hierarchy`: each word's signed path of node numbers. */
  type Hierarchy = map<string, seq<int>>

  /** The word of the leftmost leaf, the tie breaker of `Compare`. */
  function Leftmost(n: Node): string {
    match n
    case Leaf(w) => w
    case Branch(l, _) => Leftmost(l)
  }

  /** The words at the leaves, left to right. */
  function LeafWords(n: Node): (ws: seq<string>)
    ensures |ws| > 0 && ws[0] == Leftmost(n)
  {
    match n
    case Leaf(w) => [w]
    case Branch(l, r) => LeafWords(l) + LeafWords(r)
  }

  /** The number of internal nodes. */
  function Internal(n: Node): nat {
    match n
    case Leaf(_) => 0
    case Branch(l, r) => 1 + Internal(l) + Internal(r)
  }

  /** A tree with k leaves has k - 1 internal nodes. */
  lemma {:induction false} LeafCount(n: Node)
    ensures |LeafWords(n)| == Internal(n) + 1
  {
    match n
    case Leaf(_) =>
    case Branch(l, r) =>
      LeafCount(l);
      LeafCount(r);
  }

  // ---------------------------------------------------------------------------------------
  // The queue order

  /** The order `Compare` implements: by probability, ties broken by the leftmost word. */
  predicate Before(a: Value, b: Value) {
    a.prob < b.prob || (a.prob == b.prob && Lex.Less(Leftmost(a.node), Leftmost(b.node)))
  }

  /**
   * `treeValue.Compare`: 0 for the identical value, otherwise -1 or 1 by `Before`; it
   * panics for two different values with the same probability and leftmost word.
   */
  function Compare(t: Value, v: Value): (r: Result<int>)
    ensures r == Ok(0) <==> t == v
    ensures r == Ok(-1) <==> t != v && Before(t, v)
    ensures r == Ok(1) <==> t != v && Before(v, t)
    ensures r.Panic? <==> t != v && t.prob == v.prob && Leftmost(t.node) == Leftmost(v.node)
  {
    Lex.LessIrreflexive(Leftmost(t.node));
    Lex.LessTotal(Leftmost(t.node), Leftmost(v.node));
    LessAsymmetric(Leftmost(t.node), Leftmost(v.node));
    if t == v then Ok(0)
    else if t.prob < v.prob then Ok(-1)
    else if t.prob > v.prob then Ok(1)
    else if Lex.Less(Leftmost(t.node), Leftmost(v.node)) then Ok(-1)
    else if Lex.Less(Leftmost(v.node), Leftmost(t.node)) then Ok(1)
    else Panic("should not equal")
  }

  lemma LessAsymmetric(a: string, b: string)
    ensures !(Lex.Less(a, b) && Lex.Less(b, a))
  {
    if Lex.Less(a, b) && Lex.Less(b, a) {
      Lex.LessTransitive(a, b, a);
      Lex.LessIrreflexive(a);
    }
  }

  /** `Compare` is antisymmetric: swapping the operands negates a non-panicking result. */
  lemma CompareAntisymmetric(t: Value, v: Value)
    ensures Compare(t, v).Ok? <==> Compare(v, t).Ok?
    ensures Compare(t, v).Ok? ==> Compare(v, t).value == -Compare(t, v).value
  {
    LessAsymmetric(Leftmost(t.node), Leftmost(v.node));
  }

  /** `Before` is a strict weak order, so a sequence sorted by it is a valid queue. */
  lemma BeforeIsStrictWeakOrder()
    ensures Sorting.StrictWeakOrder(Before) && Sorting.StrictPartialOrder(Before)
  {
    Lex.LessIsStrictTotalOrder();
    forall a, b | Before(a, b) ensures !Before(b, a) {
      LessAsymmetric(Leftmost(a.node), Leftmost(b.node));
    }
    forall a, b, c | !Before(a, b) && !Before(b, c) ensures !Before(a, c) {
      Lex.LessTotal(Leftmost(a.node), Leftmost(b.node));
      Lex.LessTotal(Leftmost(b.node), Leftmost(c.node));
    }
  }

  // ---------------------------------------------------------------------------------------
  // buildHuffman

  /** `popMinProb`: the first value of the queue and the rest, or nothing for an empty queue. */
  function PopMinProb(q: seq<Value>): (r: Option<(Value, seq<Value>)>)
    ensures r.None? <==> q == []
    ensures r.Some? ==> |r.value.1| == |q| - 1 && multiset(q) == multiset{r.value.0} + multiset(r.value.1)
    ensures r.Some? && Sorting.SortedBy(q, Before) ==>
              Sorting.SortedBy(r.value.1, Before) && forall v :: v in r.value.1 ==> !Before(v, r.value.0)
  {
    if q == [] then None
    else
      assert q == [q[0]] + q[1..];
      Some((q[0], q[1..]))
  }

  /** The node merging the two smallest values: the second-smallest goes left. */
  function Merge(min1: Value, min2: Value): Value {
    Value(Branch(min2.node, min1.node), min1.prob + min2.prob)
  }

  /** The tree the merging loop ends with, starting from the queue `q`. */
  function HuffmanFrom(q: seq<Value>): Result<Node>
    decreases |q|
  {
    match PopMinProb(q)
    case None => Panic("no nodes")
    case Some((min1, rest1)) =>
      match PopMinProb(rest1)
      case None => Ok(min1.node)
      case Some((min2, rest2)) => HuffmanFrom(Sorting.Insert(Merge(min1, min2), rest2, Before))
  }

  /**
   * One iteration of the merging loop on a sorted queue of two or more values: the two
   * values popped are the smallest, the second-smallest becomes the left child and the
   * smallest the right one, their probabilities add up, and the queue stays sorted with one
   * value fewer, so the loop ends.
   */
  lemma MergeStep(q: seq<Value>)
    requires |q| >= 2 && Sorting.SortedBy(q, Before)
    ensures forall v :: v in q[2..] ==> !Before(v, q[0]) && !Before(v, q[1])
    ensures Merge(q[0], q[1]).node == Branch(q[1].node, q[0].node)
    ensures Merge(q[0], q[1]).prob == q[0].prob + q[1].prob
    ensures var next := Sorting.Insert(Merge(q[0], q[1]), q[2..], Before);
            && |next| == |q| - 1
            && Sorting.SortedBy(next, Before)
            && ForestWords(next) == ForestWords(q)
            && HuffmanFrom(q) == HuffmanFrom(next)
  {
    var merged := Merge(q[0], q[1]);
    ForestPermutation(Sorting.Insert(merged, q[2..], Before), [merged] + q[2..]);
    assert ([merged] + q[2..])[1..] == q[2..];
    assert q[1..][1..] == q[2..];
    BeforeIsStrictWeakOrder();
    Sorting.InsertSorted(Merge(q[0], q[1]), q[2..], Before);
    assert q[1..][1..] == q[2..];
    RestNotBefore(q);
  }

  /** In a sorted queue nothing after the first two values sorts before either of them. */
  lemma RestNotBefore(q: seq<Value>)
    requires |q| >= 2 && Sorting.SortedBy(q, Before)
    ensures forall v :: v in q[2..] ==> !Before(v, q[0]) && !Before(v, q[1])
  {
    forall v | v in q[2..] ensures !Before(v, q[0]) && !Before(v, q[1]) {
      var k :| 0 <= k < |q[2..]| && q[2..][k] == v;
      assert q[k + 2] == v;
    }
  }

  /** One leaf per word of `ws`, with its probability. */
  function LeafValues(words: map<string, real>, ws: seq<string>): (vs: seq<Value>)
    requires forall w :: w in ws ==> w in words
    ensures |vs| == |ws| && forall k :: 0 <= k < |ws| ==> vs[k] == Value(Leaf(ws[k]), words[ws[k]])
  {
    seq(|ws|, k requires 0 <= k < |ws| => Value(Leaf(ws[k]), words[ws[k]]))
  }

  /** The queue after inserting the leaves in the map's iteration order `order`. */
  function InitialQueue(words: map<string, real>, order: seq<string>): seq<Value>
    requires forall w :: w in order ==> w in words
  {
    Sorting.Sort(LeafValues(words, order), Before)
  }

  /** The words and their iteration order: every word of the map once. */
  ghost predicate IsOrder(words: map<string, real>, order: seq<string>) {
    Sorting.Distinct(order) && forall w :: w in order <==> w in words
  }

  /** The first loop of `buildHuffman`: `tree.Insert` of every leaf, in map order. */
  method InsertLeaves(words: map<string, real>, order: seq<string>) returns (queue: seq<Value>)
    requires IsOrder(words, order)
    ensures queue == InitialQueue(words, order)
  {
    ghost var leaves := LeafValues(words, order);
    queue := [];
    for i := 0 to |order|
      invariant queue == Sorting.Sort(leaves[..i], Before)
    {
      Sorting.SortPrefixStep(leaves, i, Before);
      queue := Sorting.Insert(Value(Leaf(order[i]), words[order[i]]), queue, Before);
    }
    assert leaves[..|order|] == leaves;
  }

  /**
   * `buildHuffman`, with the map's iteration order as a parameter: insert every leaf, then
   * pop the two smallest values and push their merge until one value is left. It panics
   * for an empty map.
   */
  method BuildHuffman(words: map<string, real>, order: seq<string>) returns (r: Result<Node>)
    requires IsOrder(words, order)
    ensures r == HuffmanFrom(InitialQueue(words, order))
  {
    var queue := InsertLeaves(words, order);
    while true
      invariant HuffmanFrom(queue) == HuffmanFrom(InitialQueue(words, order))
      decreases |queue|
    {
      var p1 := PopMinProb(queue);
      if p1.None? {
        return Panic("no nodes");
      }
      var (min1, rest1) := p1.value;
      var p2 := PopMinProb(rest1);
      if p2.None? {
        return Ok(min1.node);
      }
      var (min2, rest2) := p2.value;
      queue := Sorting.Insert(Merge(min1, min2), rest2, Before);
    }
  }

  // ---------------------------------------------------------------------------------------
  // What the Huffman tree holds

  /** The words at the leaves of every tree of a queue. */
  function ForestWords(q: seq<Value>): multiset<string>
  {
    if q == [] then multiset{} else multiset(LeafWords(q[0].node)) + ForestWords(q[1..])
  }

  lemma {:induction false} ForestAppend(a: seq<Value>, b: seq<Value>)
    ensures ForestWords(a + b) == ForestWords(a) + ForestWords(b)
    decreases |a|
  {
    if a == [] {
      assert a + b == b;
    } else {
      assert (a + b)[1..] == a[1..] + b;
      ForestAppend(a[1..], b);
    }
  }

  /** Taking one tree out of a queue takes its words out of the queue's words. */
  lemma ForestRemove(b: seq<Value>, k: nat)
    requires k < |b|
    ensures ForestWords(b) == multiset(LeafWords(b[k].node)) + ForestWords(b[..k] + b[k + 1..])
  {
    var front, back := b[..k], b[k + 1..];
    var tail := [b[k]] + back;
    assert b == front + tail;
    assert tail[1..] == back;
    ForestAppend(front, tail);
    ForestAppend(front, back);
  }

  /** The words of a queue do not depend on the order of its trees. */
  lemma {:induction false} ForestPermutation(a: seq<Value>, b: seq<Value>)
    requires multiset(a) == multiset(b)
    ensures ForestWords(a) == ForestWords(b)
    decreases |a|
  {
    if a == [] {
      assert |multiset(b)| == 0;
    } else {
      assert a[0] in multiset(b);
      var k :| 0 <= k < |b| && b[k] == a[0];
      var rest := b[..k] + b[k + 1..];
      Sorting.RemoveAt(b, k);
      assert a == [a[0]] + a[1..];
      assert multiset(rest) == multiset(b) - multiset{a[0]};
      assert multiset(a[1..]) == multiset(a) - multiset{a[0]};
      ForestRemove(b, k);
      ForestPermutation(a[1..], rest);
    }
  }

  /** The leaves built from `ws` hold exactly the words of `ws`. */
  lemma {:induction false} LeafValuesForest(words: map<string, real>, ws: seq<string>)
    requires forall w :: w in ws ==> w in words
    ensures ForestWords(LeafValues(words, ws)) == multiset(ws)
    decreases |ws|
  {
    if ws != [] {
      assert LeafValues(words, ws)[1..] == LeafValues(words, ws[1..]);
      LeafValuesForest(words, ws[1..]);
      assert ws == [ws[0]] + ws[1..];
    }
  }

  /**
   * The merging loop ends with a tree for a non-empty queue, and that tree has exactly the
   * leaves of the queue's trees: merging never loses or duplicates a word.
   */
  lemma {:induction false} HuffmanWords(q: seq<Value>)
    requires q != []
    ensures HuffmanFrom(q).Ok?
    ensures multiset(LeafWords(HuffmanFrom(q).value)) == ForestWords(q)
    decreases |q|
  {
    var rest1 := q[1..];
    if rest1 != [] {
      var merged := Merge(q[0], rest1[0]);
      var next := Sorting.Insert(merged, rest1[1..], Before);
      ForestPermutation(next, [merged] + rest1[1..]);
      assert ([merged] + rest1[1..])[1..] == rest1[1..];
      HuffmanWords(next);
    }
  }

  /**
   * `buildHuffman` panics exactly for an empty map; otherwise its tree has every word at
   * exactly one leaf, and so |words| - 1 internal nodes.
   */
  lemma HuffmanTree(words: map<string, real>, order: seq<string>)
    requires IsOrder(words, order)
    ensures HuffmanFrom(InitialQueue(words, order)).Panic? <==> |words| == 0
    ensures HuffmanFrom(InitialQueue(words, order)).Ok? ==>
              var n := HuffmanFrom(InitialQueue(words, order)).value;
              && multiset(LeafWords(n)) == multiset(order)
              && Sorting.Distinct(LeafWords(n))
              && (forall w :: w in LeafWords(n) <==> w in words)
              && Internal(n) == |words| - 1
  {
    var q := InitialQueue(words, order);
    Sorting.DistinctCardinality(order);
    assert (set w | w in order) == words.Keys;
    if order == [] {
      assert q == [];
    } else {
      assert |q| == |order|;
      HuffmanWords(q);
      LeafValuesForest(words, order);
      ForestPermutation(q, LeafValues(words, order));
      var n := HuffmanFrom(q).value;
      Sorting.PermutationDistinct(order, LeafWords(n));
      LeafCount(n);
      forall w ensures w in LeafWords(n) <==> w in words {
        assert w in LeafWords(n) <==> w in multiset(order);
      }
    }
  }

  // ---------------------------------------------------------------------------------------
  // The map's iteration order does not matter

  /** `v` is the leaf of a word of `words`, with that word's probability. */
  predicate IsLeafOf(words: map<string, real>, v: Value) {
    v.node.Leaf? && v.node.word in words && v.prob == words[v.node.word]
  }

  /**
   * The queue of leaves is strictly ordered by `Compare` (no two leaves tie, so `Compare`
   * never panics on them) and holds one leaf per word.
   */
  lemma InitialQueueStrict(words: map<string, real>, order: seq<string>)
    requires IsOrder(words, order)
    ensures Sorting.StrictlySortedBy(InitialQueue(words, order), Before)
    ensures forall v :: v in InitialQueue(words, order) <==> IsLeafOf(words, v)
  {
    var leaves := LeafValues(words, order);
    var q := InitialQueue(words, order);
    BeforeIsStrictWeakOrder();
    Sorting.SortSorted(leaves, Before);
    assert Sorting.Distinct(leaves) by {
      forall i, j | 0 <= i < j < |leaves| ensures leaves[i] != leaves[j] {
        assert order[i] != order[j];
      }
    }
    Sorting.PermutationDistinct(leaves, q);
    forall v ensures v in q <==> IsLeafOf(words, v) {
      assert v in q <==> v in multiset(leaves);
      if IsLeafOf(words, v) {
        var k :| 0 <= k < |order| && order[k] == v.node.word;
        assert leaves[k] == v;
      }
    }
    forall i, j | 0 <= i < j < |q| ensures Before(q[i], q[j]) {
      assert q[i] in q && q[j] in q;
      Lex.LessTotal(q[i].node.word, q[j].node.word);
    }
  }

  /** The queue of leaves, and so the whole result, is the same for every iteration order. */
  lemma InitialQueueUnique(words: map<string, real>, order1: seq<string>, order2: seq<string>)
    requires IsOrder(words, order1) && IsOrder(words, order2)
    ensures InitialQueue(words, order1) == InitialQueue(words, order2)
  {
    InitialQueueStrict(words, order1);
    InitialQueueStrict(words, order2);
    BeforeIsStrictWeakOrder();
    Sorting.StrictlySortedUnique(InitialQueue(words, order1), InitialQueue(words, order2), Before);
  }

  // ---------------------------------------------------------------------------------------
  // Numbering the nodes: PutInHierarchy

  function Abs(x: int): nat {
    if x < 0 then -x else x
  }

  /**
   * The paths `PutInHierarchy` records for the leaves under `n`, reached by `path`, when the
   * next free node number is `idx`, with the next free number afterwards. Internal nodes are
   * numbered in preorder; the left child is reached by `-id`, the right one by `id`.
   */
  function Assign(n: Node, path: seq<int>, idx: int): (Hierarchy, int)
  {
    match n
    case Leaf(w) => (map[w := path], idx)
    case Branch(l, r) =>
      var (m1, i1) := Assign(l, path + [-idx], idx + 1);
      var (m2, i2) := Assign(r, path + [idx], i1);
      (m1 + m2, i2)
  }

  /** Map union, where the right operand wins, is associative. */
  lemma UnionAssociative<K, V>(a: map<K, V>, b: map<K, V>, c: map<K, V>)
    ensures a + b + c == a + (b + c)
  {
  }

  /** `p` is a prefix of `q`. */
  predicate IsPrefix(p: seq<int>, q: seq<int>) {
    |p| <= |q| && q[..|p|] == p
  }

  /** The node numbers grow strictly along a path. */
  predicate Climbs(p: seq<int>) {
    forall i, j :: 0 <= i < j < |p| ==> Abs(p[i]) < Abs(p[j])
  }

  /** No word's path is a prefix of another word's path. */
  predicate PrefixFree(h: Hierarchy) {
    forall w1, w2 :: w1 in h && w2 in h && w1 != w2 ==> !IsPrefix(h[w1], h[w2])
  }

  /** `m` is the largest node number on any path, or 0 when there is none. */
  predicate IsMaxAbs(h: Hierarchy, m: int) {
    && 0 <= m
    && (forall w, k :: w in h && 0 <= k < |h[w]| ==> Abs(h[w][k]) <= m)
    && (m == 0 || exists w, k :: w in h && 0 <= k < |h[w]| && Abs(h[w][k]) == m)
  }

  /** A subtree uses one number per internal node. */
  lemma {:induction false} AssignNext(n: Node, path: seq<int>, idx: int)
    ensures Assign(n, path, idx).1 == idx + Internal(n)
  {
    match n
    case Leaf(_) =>
    case Branch(l, r) =>
      AssignNext(l, path + [-idx], idx + 1);
      AssignNext(r, path + [idx], idx + 1 + Internal(l));
  }

  /** Exactly the words at the leaves get a path. */
  lemma {:induction false} AssignKeys(n: Node, path: seq<int>, idx: int)
    ensures forall w :: w in Assign(n, path, idx).0 <==> w in LeafWords(n)
  {
    match n
    case Leaf(_) =>
    case Branch(l, r) =>
      var i1 := Assign(l, path + [-idx], idx + 1).1;
      AssignKeys(l, path + [-idx], idx + 1);
      AssignKeys(r, path + [idx], i1);
  }

  /** Every recorded path extends the path to the subtree, strictly below an internal node. */
  lemma {:induction false} AssignPrefix(n: Node, path: seq<int>, idx: int)
    ensures forall w :: w in Assign(n, path, idx).0 ==>
              var p := Assign(n, path, idx).0[w];
              IsPrefix(path, p) && (n.Branch? ==> |path| < |p|)
  {
    match n
    case Leaf(_) =>
    case Branch(l, r) =>
      var i1 := Assign(l, path + [-idx], idx + 1).1;
      AssignPrefix(l, path + [-idx], idx + 1);
      AssignPrefix(r, path + [idx], i1);
      var h := Assign(n, path, idx).0;
      forall w | w in h ensures IsPrefix(path, h[w]) && |path| < |h[w]| {
        var ext := if w in Assign(r, path + [idx], i1).0 then path + [idx] else path + [-idx];
        assert IsPrefix(ext, h[w]);
        assert h[w][..|path|] == ext[..|path|];
      }
  }

  /**
   * Below a path that climbs through numbers smaller than `idx`, every recorded path climbs,
   * and its new entries are the numbers `idx` up to the next free number, excluded.
   */
  lemma {:induction false} AssignBounds(n: Node, path: seq<int>, idx: int)
    requires 1 <= idx && Climbs(path)
    requires forall k :: 0 <= k < |path| ==> Abs(path[k]) < idx
    ensures forall w :: w in Assign(n, path, idx).0 ==>
              var p := Assign(n, path, idx).0[w];
              Climbs(p) && forall k :: |path| <= k < |p| ==> idx <= Abs(p[k]) < Assign(n, path, idx).1
  {
    match n
    case Leaf(_) =>
    case Branch(l, r) =>
      var i1 := Assign(l, path + [-idx], idx + 1).1;
      var next := Assign(n, path, idx).1;
      AssignNext(l, path + [-idx], idx + 1);
      AssignNext(r, path + [idx], i1);
      AssignPrefix(l, path + [-idx], idx + 1);
      AssignPrefix(r, path + [idx], i1);
      AssignBounds(l, path + [-idx], idx + 1);
      AssignBounds(r, path + [idx], i1);
      var h := Assign(n, path, idx).0;
      forall w | w in h
        ensures Climbs(h[w]) && forall k :: |path| <= k < |h[w]| ==> idx <= Abs(h[w][k]) < next
      {
        var p := h[w];
        var ext := if w in Assign(r, path + [idx], i1).0 then path + [idx] else path + [-idx];
        assert IsPrefix(ext, p);
        assert p[|path|] == ext[|path|];
      }
  }

  /** Different words get paths none of which is a prefix of another. */
  lemma {:induction false} AssignPrefixFree(n: Node, path: seq<int>, idx: int)
    requires 1 <= idx
    ensures PrefixFree(Assign(n, path, idx).0)
  {
    match n
    case Leaf(_) =>
    case Branch(l, r) =>
      var (m1, i1) := Assign(l, path + [-idx], idx + 1);
      AssignNext(l, path + [-idx], idx + 1);
      AssignPrefix(l, path + [-idx], idx + 1);
      AssignPrefix(r, path + [idx], i1);
      AssignPrefixFree(l, path + [-idx], idx + 1);
      AssignPrefixFree(r, path + [idx], i1);
      MergePrefixFree(m1, Assign(r, path + [idx], i1).0, path, idx);
  }

  /** Joining the maps of the two subtrees keeps paths apart: they part at the node `idx`. */
  lemma MergePrefixFree(m1: Hierarchy, m2: Hierarchy, path: seq<int>, idx: int)
    requires 1 <= idx && PrefixFree(m1) && PrefixFree(m2)
    requires forall w :: w in m1 ==> IsPrefix(path + [-idx], m1[w])
    requires forall w :: w in m2 ==> IsPrefix(path + [idx], m2[w])
    ensures PrefixFree(m1 + m2)
  {
    var h := m1 + m2;
    forall w1, w2 | w1 in h && w2 in h && w1 != w2 ensures !IsPrefix(h[w1], h[w2]) {
      var p1 := if w1 in m2 then path + [idx] else path + [-idx];
      var p2 := if w2 in m2 then path + [idx] else path + [-idx];
      assert IsPrefix(p1, h[w1]) && IsPrefix(p2, h[w2]);
      assert h[w1][|path|] == p1[|path|] && h[w2][|path|] == p2[|path|];
    }
  }

  /**
   * Below an internal node, the last number given out is on some recorded path, provided
   * no word is at two leaves (a later leaf of the same word would hide it).
   */
  lemma {:induction false} AssignMax(n: Node, path: seq<int>, idx: int)
    requires 1 <= idx && n.Branch? && Sorting.Distinct(LeafWords(n))
    ensures exists w, k :: w in Assign(n, path, idx).0 && 0 <= k < |Assign(n, path, idx).0[w]| &&
                           Abs(Assign(n, path, idx).0[w][k]) == Assign(n, path, idx).1 - 1
  {
    var l, r := n.left, n.right;
    var (m1, i1) := Assign(l, path + [-idx], idx + 1);
    var m2 := Assign(r, path + [idx], i1).0;
    var h := Assign(n, path, idx).0;
    assert h == m1 + m2;
    DistinctHalves(LeafWords(l), LeafWords(r));
    AssignNext(l, path + [-idx], idx + 1);
    if r.Branch? {
      AssignMax(r, path + [idx], i1);
      var w, k :| w in m2 && 0 <= k < |m2[w]| && Abs(m2[w][k]) == Assign(r, path + [idx], i1).1 - 1;
      assert h[w] == m2[w];
    } else if l.Leaf? {
      assert h[r.word] == path + [idx];
      assert Abs(h[r.word][|path|]) == idx;
    } else {
      AssignMax(l, path + [-idx], idx + 1);
      var w, k :| w in m1 && 0 <= k < |m1[w]| && Abs(m1[w][k]) == i1 - 1;
      AssignKeys(l, path + [-idx], idx + 1);
      assert w in LeafWords(l) && LeafWords(r) == [r.word];
      assert h[w] == m1[w];
    }
  }

  /** The two halves of a sequence without repetitions have none and share no element. */
  lemma DistinctHalves(a: seq<string>, b: seq<string>)
    requires Sorting.Distinct(a + b)
    ensures Sorting.Distinct(a) && Sorting.Distinct(b)
    ensures forall w :: w in a ==> w !in b
  {
    forall i, j | 0 <= i < j < |a| ensures a[i] != a[j] {
      assert (a + b)[i] == a[i] && (a + b)[j] == a[j];
    }
    forall i, j | 0 <= i < j < |b| ensures b[i] != b[j] {
      assert (a + b)[|a| + i] == b[i] && (a + b)[|a| + j] == b[j];
    }
    forall i, j | 0 <= i < |a| && 0 <= j < |b| ensures a[i] != b[j] {
      assert (a + b)[i] == a[i] && (a + b)[|a| + j] == b[j];
    }
  }

  /**
   * The state `PutInHierarchy` threads through its recursion: the hierarchy being filled
   * and the counter `nodeIdx` holding the next free node number.
   */
  class HierarchyBuilder {
    var hier: Hierarchy
    var nodeIdx: int

    constructor()
      ensures hier == map[] && nodeIdx == 1
    {
      hier := map[];
      nodeIdx := 1;
    }

    /**
     * `huffmanNode.PutInHierarchy`: a leaf records a copy of `path`; an internal node takes
     * the next number `id`, then visits its left child with `-id` appended to the path and
     * its right child with `id`.
     */
    method PutInHierarchy(n: Node, path: seq<int>)
      modifies this
      ensures hier == old(hier) + Assign(n, path, old(nodeIdx)).0
      ensures nodeIdx == Assign(n, path, old(nodeIdx)).1
      decreases n
    {
      match n
      case Leaf(w) =>
        hier := hier[w := path];
      case Branch(l, r) =>
        ghost var before := hier;
        var id := nodeIdx;
        nodeIdx := nodeIdx + 1;
        PutInHierarchy(l, path + [-id]);
        PutInHierarchy(r, path + [id]);
        ghost var (m1, i1) := Assign(l, path + [-id], id + 1);
        ghost var m2 := Assign(r, path + [id], i1).0;
        assert hier == before + m1 + m2;
        UnionAssociative(before, m1, m2);
    }
  }

  /** The hierarchy `BuildHierarchy` returns: the Huffman tree numbered from 1, from the root. */
  function HierarchyOf(words: map<string, real>, order: seq<string>): Result<Hierarchy>
    requires forall w :: w in order ==> w in words
  {
    match HuffmanFrom(InitialQueue(words, order))
    case Panic(e) => Panic(e)
    case Ok(n) => Ok(Assign(n, [], 1).0)
  }

  /** `HierarchyOf` in terms of the tree the merging loop ends with. */
  lemma HierarchyOfTree(words: map<string, real>, order: seq<string>, node: Result<Node>)
    requires IsOrder(words, order) && node == HuffmanFrom(InitialQueue(words, order))
    ensures node.Panic? ==> HierarchyOf(words, order) == Panic(node.reason)
    ensures node.Ok? ==> HierarchyOf(words, order) == Ok(Assign(node.value, [], 1).0)
  {
  }

  lemma EmptyUnion<K, V>(m: map<K, V>)
    ensures map[] + m == m
  {
  }

  /** `BuildHierarchy`: build the Huffman tree, then number it with a fresh builder. */
  method BuildHierarchy(words: map<string, real>, order: seq<string>) returns (r: Result<Hierarchy>)
    requires IsOrder(words, order)
    ensures r == HierarchyOf(words, order)
  {
    var node := BuildHuffman(words, order);
    HierarchyOfTree(words, order, node);
    if node.Panic? {
      return Panic(node.reason);
    }
    var builder := new HierarchyBuilder();
    builder.PutInHierarchy(node.value, []);
    EmptyUnion(Assign(node.value, [], 1).0);
    r := Ok(builder.hier);
  }

  /**
   * What `BuildHierarchy` promises: it panics exactly for an empty map; otherwise every word
   * and nothing else has a path, a single word's path is empty, paths climb through the node
   * numbers 1 .. |words| - 1, no path is a prefix of another, and the largest number used is
   * |words| - 1.
   */
  lemma HierarchyProperties(words: map<string, real>, order: seq<string>)
    requires IsOrder(words, order)
    ensures HierarchyOf(words, order).Panic? <==> |words| == 0
    ensures HierarchyOf(words, order).Ok? ==>
              var h := HierarchyOf(words, order).value;
              && (forall w :: w in h <==> w in words)
              && PrefixFree(h)
              && IsMaxAbs(h, |words| - 1)
              && (forall w :: w in h ==> Climbs(h[w]))
              && (forall w, k :: w in h && 0 <= k < |h[w]| ==> 1 <= Abs(h[w][k]) < |words|)
              && (|words| == 1 ==> forall w :: w in h ==> h[w] == [])
  {
    HuffmanTree(words, order);
    if |words| > 0 {
      var n := HuffmanFrom(InitialQueue(words, order)).value;
      NumberingProperties(n, |words|);
    }
  }

  /** What numbering a tree with `count` distinct leaves from the root, starting at 1, gives. */
  lemma NumberingProperties(n: Node, count: int)
    requires Sorting.Distinct(LeafWords(n)) && Internal(n) == count - 1
    ensures var h := Assign(n, [], 1).0;
            && (forall w :: w in h <==> w in LeafWords(n))
            && PrefixFree(h)
            && IsMaxAbs(h, count - 1)
            && (forall w :: w in h ==> Climbs(h[w]))
            && (forall w, k :: w in h && 0 <= k < |h[w]| ==> 1 <= Abs(h[w][k]) < count)
            && (count == 1 ==> forall w :: w in h ==> h[w] == [])
  {
    AssignKeys(n, [], 1);
    AssignNext(n, [], 1);
    AssignBounds(n, [], 1);
    AssignPrefixFree(n, [], 1);
    if n.Branch? {
      AssignMax(n, [], 1);
    }
  }

  /** The hierarchy is the same whatever order the map is iterated in. */
  lemma HierarchyOrderIndependent(words: map<string, real>, order1: seq<string>, order2: seq<string>)
    requires IsOrder(words, order1) && IsOrder(words, order2)
    ensures HierarchyOf(words, order1) == HierarchyOf(words, order2)
  {
    InitialQueueUnique(words, order1, order2);
  }

  // ---------------------------------------------------------------------------------------
  // Reading a hierarchy

  /** `Hierarchy.NumNodes`: the largest absolute entry of any path, 0 when there is none. */
  method NumNodes(h: Hierarchy) returns (max: int)
    ensures IsMaxAbs(h, max)
  {
    max := 0;
    var rest := h.Keys;
    ghost var witnessWord: string, witnessIdx: int := "", 0;
    while rest != {}
      invariant rest <= h.Keys && 0 <= max
      invariant forall w, k :: w in h && w !in rest && 0 <= k < |h[w]| ==> Abs(h[w][k]) <= max
      invariant max == 0 || (witnessWord in h && 0 <= witnessIdx < |h[witnessWord]| &&
                             Abs(h[witnessWord][witnessIdx]) == max)
      decreases rest
    {
      var w :| w in rest;
      var x := h[w];
      for i := 0 to |x|
        invariant 0 <= max
        invariant forall v, k :: v in h && v !in rest && 0 <= k < |h[v]| ==> Abs(h[v][k]) <= max
        invariant forall k :: 0 <= k < i ==> Abs(x[k]) <= max
        invariant max == 0 || (witnessWord in h && 0 <= witnessIdx < |h[witnessWord]| &&
                               Abs(h[witnessWord][witnessIdx]) == max)
      {
        var k := x[i];
        if k < 0 {
          k := k * -1;
        }
        if k > max {
          max := k;
          witnessWord, witnessIdx := w, i;
        }
      }
      rest := rest - {w};
    }
  }

  /** The largest entry is determined by the hierarchy, so `NumNodes` has one possible answer. */
  lemma MaxAbsUnique(h: Hierarchy, a: int, b: int)
    requires IsMaxAbs(h, a) && IsMaxAbs(h, b)
    ensures a == b
  {
  }

  /** `Hierarchy.Paths`: each word's path in order, the empty path for a word not in `h`. */
  method Paths(h: Hierarchy, words: seq<string>) returns (res: seq<seq<int>>)
    ensures |res| == |words|
    ensures forall i :: 0 <= i < |words| ==> res[i] == (if words[i] in h then h[words[i]] else [])
  {
    res := [];
    for i := 0 to |words|
      invariant |res| == i
      invariant forall j :: 0 <= j < i ==> res[j] == (if words[j] in h then h[words[j]] else [])
    {
      var p := if words[i] in h then h[words[i]] else [];
      res := res + [p];
    }
  }

  // ---------------------------------------------------------------------------------------
  // The worked example

  /** Four words whose probabilities give a degenerate (comb-shaped) Huffman tree. */
  function ExampleWords(): map<string, real> {
    map["a" := 0.501, "b" := 0.25, "c" := 0.125, "d" := 0.124]
  }

  /** The example's leaves, in increasing probability. */
  function ExampleLeaves(): seq<Value> {
    [Value(Leaf("d"), 0.124), Value(Leaf("c"), 0.125), Value(Leaf("b"), 0.25), Value(Leaf("a"), 0.501)]
  }

  /** Whatever the iteration order, the example's queue starts as its leaves by probability. */
  lemma ExampleQueue(order: seq<string>)
    requires IsOrder(ExampleWords(), order)
    ensures InitialQueue(ExampleWords(), order) == ExampleLeaves()
  {
    InitialQueueStrict(ExampleWords(), order);
    ExampleLeavesAreLeaves();
    BeforeIsStrictWeakOrder();
    Sorting.StrictlySortedUnique(InitialQueue(ExampleWords(), order), ExampleLeaves(), Before);
  }

  lemma ExampleLeavesAreLeaves()
    ensures Sorting.StrictlySortedBy(ExampleLeaves(), Before)
    ensures forall v :: v in ExampleLeaves() <==> IsLeafOf(ExampleWords(), v)
  {
    forall v | IsLeafOf(ExampleWords(), v) ensures v in ExampleLeaves() {
      assert v.node.word in {"a", "b", "c", "d"};
    }
  }

  /** The three merges of the example: "c" with "d", then "b" with that, then "a" with that. */
  lemma ExampleMerges()
    ensures HuffmanFrom(ExampleLeaves()) ==
            Ok(Branch(Leaf("a"), Branch(Leaf("b"), Branch(Leaf("c"), Leaf("d")))))
  {
    var cd := Value(Branch(Leaf("c"), Leaf("d")), 0.249);
    var bcd := Value(Branch(Leaf("b"), cd.node), 0.499);
    var a := Value(Leaf("a"), 0.501);
    assert HuffmanFrom(ExampleLeaves()) == HuffmanFrom([cd, Value(Leaf("b"), 0.25), a]);
    assert HuffmanFrom([cd, Value(Leaf("b"), 0.25), a]) == HuffmanFrom([bcd, a]);
    assert HuffmanFrom([bcd, a]) == HuffmanFrom([Merge(bcd, a)]);
  }

  /** The numbering of the example's tree. */
  lemma ExampleNumbering()
    ensures Assign(Branch(Leaf("a"), Branch(Leaf("b"), Branch(Leaf("c"), Leaf("d")))), [], 1).0 ==
            map["a" := [-1], "b" := [1, -2], "c" := [1, 2, -3], "d" := [1, 2, 3]]
  {
    var cd := Assign(Branch(Leaf("c"), Leaf("d")), [1, 2], 3);
    ExampleNumberingCD();
    var bcd := Assign(Branch(Leaf("b"), Branch(Leaf("c"), Leaf("d"))), [1], 2);
    assert [1] + [-2] == [1, -2] && [1] + [2] == [1, 2];
    assert bcd.0 == map["b" := [1, -2]] + cd.0;
    assert [] + [1] == [1] && [] + [-1] == [-1];
  }

  lemma ExampleNumberingCD()
    ensures Assign(Branch(Leaf("c"), Leaf("d")), [1, 2], 3) ==
            (map["c" := [1, 2, -3]] + map["d" := [1, 2, 3]], 4)
  {
    assert [1, 2] + [-3] == [1, 2, -3] && [1, 2] + [3] == [1, 2, 3];
  }

  /**
   * The expected hierarchy of the four-word example, for every iteration order of the map:
   * a:[-1], b:[1,-2], c:[1,2,-3], d:[1,2,3].
   */
  lemma ExampleHierarchy(order: seq<string>)
    requires IsOrder(ExampleWords(), order)
    ensures HierarchyOf(ExampleWords(), order) ==
            Ok(map["a" := [-1], "b" := [1, -2], "c" := [1, 2, -3], "d" := [1, 2, 3]])
  {
    ExampleQueue(order);
    ExampleMerges();
    ExampleNumbering();
  }

  // ---------------------------------------------------------------------------------------
  // `Compare` never panics on the queue

  /** No word is at two leaves of the queue's trees. */
  ghost predicate NoRepeatedWord(q: seq<Value>) {
    forall w :: ForestWords(q)[w] <= 1
  }

  /**
   * In a queue where no word is at two leaves, values at different positions have different
   * leftmost words, so `Compare` on them never reaches its panic. The initial queue is such
   * a queue (`InitialNoRepeatedWord`) and a merge keeps the words (`MergeKeepsNoRepeatedWord`),
   * so no comparison the loop makes panics (`BuildNeverPanics`).
   */
  lemma CompareNeverPanics(q: seq<Value>, i: nat, j: nat)
    requires NoRepeatedWord(q) && i < |q| && j < |q| && i != j
    ensures Leftmost(q[i].node) != Leftmost(q[j].node)
    ensures Compare(q[i], q[j]).Ok?
  {
    var w := Leftmost(q[i].node);
    var rest := q[..i] + q[i + 1..];
    ForestRemove(q, i);
    var j' := if j < i then j else j - 1;
    assert rest[j'] == q[j];
    ForestRemove(rest, j');
    var w2 := Leftmost(q[j].node);
    assert w in multiset(LeafWords(q[i].node)) && w2 in multiset(LeafWords(q[j].node));
    assert ForestWords(q)[w2] >= multiset(LeafWords(q[i].node))[w2] + multiset(LeafWords(q[j].node))[w2];
  }

  /** A merge keeps the words of the queue, so it keeps each at one leaf at most. */
  lemma MergeKeepsNoRepeatedWord(q: seq<Value>)
    requires |q| >= 2 && NoRepeatedWord(q)
    ensures NoRepeatedWord(Sorting.Insert(Merge(q[0], q[1]), q[2..], Before))
  {
    var merged := Merge(q[0], q[1]);
    var next := Sorting.Insert(merged, q[2..], Before);
    ForestPermutation(next, [merged] + q[2..]);
    assert ([merged] + q[2..])[1..] == q[2..];
    assert q[1..][1..] == q[2..];
    assert ForestWords(next) == ForestWords(q);
  }

  /**
   * The queues the merging loop of `buildHuffman` goes through, starting from `q`: the
   * loop stops at a queue of at most one value, from which `HuffmanFrom` gives the tree.
   */
  ghost function LoopQueues(q: seq<Value>): (qs: seq<seq<Value>>)
    ensures |qs| >= 1 && qs[0] == q && |qs| == if |q| < 2 then 1 else |q|
    ensures |qs[|qs| - 1]| <= 1 && HuffmanFrom(qs[|qs| - 1]) == HuffmanFrom(q)
    decreases |q|
  {
    if |q| < 2 then [q]
    else [q] + LoopQueues(Sorting.Insert(Merge(q[0], q[1]), q[2..], Before))
  }

  /** Every queue the loop reaches from a queue without a repeated word has none either. */
  lemma {:induction false} LoopKeepsNoRepeatedWord(q: seq<Value>)
    requires NoRepeatedWord(q)
    ensures forall k :: 0 <= k < |LoopQueues(q)| ==> NoRepeatedWord(LoopQueues(q)[k])
    decreases |q|
  {
    if |q| >= 2 {
      var next := Sorting.Insert(Merge(q[0], q[1]), q[2..], Before);
      MergeKeepsNoRepeatedWord(q);
      LoopKeepsNoRepeatedWord(next);
      assert LoopQueues(q) == [q] + LoopQueues(next);
    }
  }

  /**
   * No comparison `buildHuffman` makes panics: in every queue the merging loop reaches from
   * the initial queue, two values at different positions compare without a panic.
   */
  lemma BuildNeverPanics(words: map<string, real>, order: seq<string>)
    requires IsOrder(words, order)
    ensures var qs := LoopQueues(InitialQueue(words, order));
            forall k, i, j :: 0 <= k < |qs| && 0 <= i < |qs[k]| && 0 <= j < |qs[k]| && i != j ==>
              Compare(qs[k][i], qs[k][j]).Ok?
  {
    var qs := LoopQueues(InitialQueue(words, order));
    InitialNoRepeatedWord(words, order);
    LoopKeepsNoRepeatedWord(InitialQueue(words, order));
    forall k, i, j | 0 <= k < |qs| && 0 <= i < |qs[k]| && 0 <= j < |qs[k]| && i != j
      ensures Compare(qs[k][i], qs[k][j]).Ok?
    {
      CompareNeverPanics(qs[k], i, j);
    }
  }

  /** The leaves of the initial queue hold each word once. */
  lemma InitialNoRepeatedWord(words: map<string, real>, order: seq<string>)
    requires IsOrder(words, order)
    ensures NoRepeatedWord(InitialQueue(words, order))
  {
    LeafValuesForest(words, order);
    ForestPermutation(InitialQueue(words, order), LeafValues(words, order));
    forall w ensures ForestWords(InitialQueue(words, order))[w] <= 1 {
      Sorting.DistinctOnce(order, w);
    }
  }
}
