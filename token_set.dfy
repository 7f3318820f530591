/**
 * token_set.go: a `TokenSet` is a sorted list of tokens whose positions are the token IDs;
 * the ID `len(t)` stands for every token outside the set.
 */
module TokenSets {
  import Lex
  import Search
  import Sorting

  type TokenSet = seq<string>

  /** The sorted, duplicate-free lists the type is documented to hold. */
  predicate WellFormed(t: TokenSet) {
    Sorting.StrictlySortedBy(t, Lex.Less)
  }

  /**
   * `ID`: the position binary search finds for `token`, replaced by the placeholder
   * `len(t)` when the token found there is a different one. A result below `len(t)` always
   * names `token` itself; an absent token always gets the placeholder; in a sorted list a
   * present token gets its (first) position.
   */
  function ID(t: TokenSet, token: string): (r: nat)
    ensures r <= |t|
    ensures r < |t| ==> t[r] == token
    ensures token !in t ==> r == |t|
    ensures Sorting.SortedBy(t, Lex.Less) && token in t ==> r < |t| && forall k :: 0 <= k < r ==> t[k] != token
  {
    var idx := Search.SearchStrings(t, token);
    assert Sorting.SortedBy(t, Lex.Less) && token in t ==> idx < |t| && t[idx] == token by {
      if Sorting.SortedBy(t, Lex.Less) && token in t {
        var p :| 0 <= p < |t| && t[p] == token;
        Lex.LessIrreflexive(token);
        assert p >= idx;
        Lex.LessTotal(t[idx], token);
      }
    }
    assert Sorting.SortedBy(t, Lex.Less) ==> forall k :: 0 <= k < idx ==> t[k] != token by {
      forall k | Sorting.SortedBy(t, Lex.Less) && 0 <= k < idx ensures t[k] != token {
        Lex.LessIrreflexive(t[k]);
      }
    }
    if idx < |t| && t[idx] != token then |t| else idx
  }

  /** `IDs`: the ID of every token, in order. */
  method IDs(t: TokenSet, tokens: seq<string>) returns (res: seq<int>)
    ensures |res| == |tokens|
    ensures forall i :: 0 <= i < |tokens| ==> res[i] == ID(t, tokens[i])
  {
    var a := new int[|tokens|];
    for i := 0 to |tokens|
      invariant forall k :: 0 <= k < i ==> a[k] == ID(t, tokens[k])
    {
      a[i] := ID(t, tokens[i]);
    }
    res := a[..];
  }

  /** `Token`: the token with a given ID, or `""` for the placeholder and any larger ID. */
  function Token(t: TokenSet, id: int): (s: string)
    requires 0 <= id
    ensures id < |t| ==> s == t[id]
    ensures |t| <= id ==> s == ""
  {
    if id >= |t| then "" else t[id]
  }

  /**
   * In a well-formed set, tokens and IDs below `len(t)` translate into each other:
   * `Token(ID(tok)) == tok` for every member and `ID(Token(i)) == i` for every real ID.
   */
  lemma RoundTrip(t: TokenSet)
    requires WellFormed(t)
    ensures forall tok :: tok in t ==> ID(t, tok) < |t| && Token(t, ID(t, tok)) == tok
    ensures forall i :: 0 <= i < |t| ==> ID(t, Token(t, i)) == i
  {
    Lex.LessIsStrictTotalOrder();
    assert Sorting.SortedBy(t, Lex.Less);
  }
}
