/**
 * tokenizer.go: whitespace splitting, optional lower-casing, and the three punctuation
 * policies. The Unicode character classes the source takes from the `unicode` package and
 * `strings.ToLower` are parameters (`Classes`), so every result holds for any choice of them.
 */
module Tokenizing {
  import opened Wrappers

  /** The character classes of the `unicode` package and the case mapping of `strings.ToLower`. */
  datatype Classes = Classes(isSpace: char -> bool, isPunct: char -> bool, toLower: char -> char)

  /** `PunctuationMode`: separate, drop, or include punctuation. */
  const SeparatePunctuation := 0
  const DropPunctuation := 1
  const IncludePunctuation := 2

  predicate KnownMode(m: int) {
    m == SeparatePunctuation || m == DropPunctuation || m == IncludePunctuation
  }

  /** The `Tokenizer` struct: its zero value separates punctuation and lower-cases. */
  datatype Tokenizer = Tokenizer(punctuationMode: int, preserveCase: bool)

  /** Concatenation of a list of strings. */
  function Concat(ss: seq<string>): string
  {
    if ss == [] then "" else ss[0] + Concat(ss[1..])
  }

  lemma {:induction false} ConcatAppend(a: seq<string>, b: seq<string>)
    ensures Concat(a + b) == Concat(a) + Concat(b)
    decreases |a|
  {
    if a == [] {
      assert a + b == b;
    } else {
      assert (a + b)[0] == a[0] && (a + b)[1..] == a[1..] + b;
      ConcatAppend(a[1..], b);
    }
  }

  predicate NoPunct(s: string, isPunct: char -> bool) {
    forall k :: 0 <= k < |s| ==> !isPunct(s[k])
  }

  predicate NoSpace(s: string, isSpace: char -> bool) {
    forall k :: 0 <= k < |s| ==> !isSpace(s[k])
  }

  // ---------------------------------------------------------------------------------------
  // strings.Fields

  /** Splitting `s` with a partial field `cur` in hand. */
  function SplitFields(s: string, cur: string, isSpace: char -> bool): (fs: seq<string>)
    requires NoSpace(cur, isSpace)
    ensures forall i :: 0 <= i < |fs| ==> fs[i] != "" && NoSpace(fs[i], isSpace)
    decreases |s|
  {
    if s == [] then
      (if cur == "" then [] else [cur])
    else if isSpace(s[0]) then
      (if cur == "" then [] else [cur]) + SplitFields(s[1..], "", isSpace)
    else
      SplitFields(s[1..], cur + [s[0]], isSpace)
  }

  /** `strings.Fields`: the maximal runs of non-space characters, in order. */
  function Fields(s: string, isSpace: char -> bool): (fs: seq<string>)
    ensures forall i :: 0 <= i < |fs| ==> fs[i] != "" && NoSpace(fs[i], isSpace)
  {
    SplitFields(s, "", isSpace)
  }

  /** A run without white space joins the partial field: it is one field, or nothing if empty. */
  lemma {:induction false} SplitFieldsRun(w: string, cur: string, isSpace: char -> bool)
    requires NoSpace(cur, isSpace) && NoSpace(w, isSpace)
    ensures SplitFields(w, cur, isSpace) == if cur + w == "" then [] else [cur + w]
    decreases |w|
  {
    if w == [] {
      assert cur + w == cur;
    } else {
      assert cur + w == (cur + [w[0]]) + w[1..];
      assert !isSpace(w[0]);
      SplitFieldsRun(w[1..], cur + [w[0]], isSpace);
    }
  }

  /** A non-empty string without white space is a single field. */
  lemma FieldsOfRun(w: string, isSpace: char -> bool)
    requires w != "" && NoSpace(w, isSpace)
    ensures Fields(w, isSpace) == [w]
  {
    SplitFieldsRun(w, "", isSpace);
    assert "" + w == w;
  }

  /** A white-space character ends the partial field; splitting resumes after it. */
  lemma {:induction false} SplitFieldsAtSpace(a: string, c: char, b: string, cur: string, isSpace: char -> bool)
    requires NoSpace(cur, isSpace) && isSpace(c)
    ensures SplitFields(a + [c] + b, cur, isSpace) == SplitFields(a, cur, isSpace) + SplitFields(b, "", isSpace)
    decreases |a|
  {
    var s := a + [c] + b;
    if a == [] {
      assert s == [c] + b && s[1..] == b;
    } else {
      assert s[0] == a[0] && s[1..] == a[1..] + [c] + b;
      if isSpace(a[0]) {
        SplitFieldsAtSpace(a[1..], c, b, "", isSpace);
      } else {
        SplitFieldsAtSpace(a[1..], c, b, cur + [a[0]], isSpace);
      }
    }
  }

  /**
   * The fields of two strings joined by a white-space character are the fields of each.
   * With `FieldsOfRun` and `Fields("") == []` this fixes `Fields` on every input: fields
   * end exactly at white space.
   */
  lemma FieldsAtSpace(a: string, c: char, b: string, isSpace: char -> bool)
    requires isSpace(c)
    ensures Fields(a + [c] + b, isSpace) == Fields(a, isSpace) + Fields(b, isSpace)
  {
    SplitFieldsAtSpace(a, c, b, "", isSpace);
  }

  /** Splitting drops exactly the space characters. */
  lemma {:induction false} SplitFieldsKeepsText(s: string, cur: string, isSpace: char -> bool)
    requires NoSpace(cur, isSpace)
    ensures Concat(SplitFields(s, cur, isSpace)) == cur + RemoveSpace(s, isSpace)
    decreases |s|
  {
    if s == [] {
      assert cur + [] == cur;
    } else if isSpace(s[0]) {
      var head: seq<string> := if cur == "" then [] else [cur];
      SplitFieldsKeepsText(s[1..], "", isSpace);
      ConcatAppend(head, SplitFields(s[1..], "", isSpace));
      assert Concat(head) == cur;
    } else {
      SplitFieldsKeepsText(s[1..], cur + [s[0]], isSpace);
    }
  }

  /** The non-space characters of `s`, in order. */
  function RemoveSpace(s: string, isSpace: char -> bool): (r: string)
    ensures NoSpace(r, isSpace)
    decreases |s|
  {
    if s == [] then "" else (if isSpace(s[0]) then "" else [s[0]]) + RemoveSpace(s[1..], isSpace)
  }

  /** A string with no non-space character has no fields, and one with any has some. */
  lemma {:induction false} FieldsEmpty(s: string, cur: string, isSpace: char -> bool)
    requires NoSpace(cur, isSpace)
    ensures SplitFields(s, cur, isSpace) == [] <==> cur == "" && RemoveSpace(s, isSpace) == ""
    decreases |s|
  {
    if s != [] {
      if isSpace(s[0]) {
        FieldsEmpty(s[1..], "", isSpace);
      } else {
        FieldsEmpty(s[1..], cur + [s[0]], isSpace);
      }
    }
  }

  // ---------------------------------------------------------------------------------------
  // handlePunctuation

  /**
   * The tokens `SeparatePunctuation` produces from `s` when the punctuation-free run `cur`
   * precedes it: each punctuation character alone, and the runs between them.
   */
  function RunsFrom(s: string, cur: string, isPunct: char -> bool): seq<string>
    decreases |s|
  {
    if s == [] then
      (if cur == "" then [] else [cur])
    else if isPunct(s[0]) then
      (if cur == "" then [] else [cur]) + [[s[0]]] + RunsFrom(s[1..], "", isPunct)
    else
      RunsFrom(s[1..], cur + [s[0]], isPunct)
  }

  function Runs(s: string, isPunct: char -> bool): seq<string> {
    RunsFrom(s, "", isPunct)
  }

  /** What a `SeparatePunctuation` token is: one punctuation character, or a run without any. */
  predicate RunToken(tok: string, isPunct: char -> bool) {
    tok != "" && ((|tok| == 1 && isPunct(tok[0])) || NoPunct(tok, isPunct))
  }

  /**
   * The tokens put back together give the field; each is one punctuation character or a
   * non-empty punctuation-free run; and no two runs are adjacent, so every run is maximal.
   */
  lemma RunsProperties(field: string, isPunct: char -> bool)
    ensures var ts := Runs(field, isPunct);
      && Concat(ts) == field
      && (forall i :: 0 <= i < |ts| ==> RunToken(ts[i], isPunct))
      && Maximal(ts, isPunct)
  {
    RunsConcat(field, "", isPunct);
    RunsTokens(field, "", isPunct);
    RunsMaximal(field, "", isPunct);
  }

  lemma {:induction false} RunsConcat(s: string, cur: string, isPunct: char -> bool)
    ensures Concat(RunsFrom(s, cur, isPunct)) == cur + s
    decreases |s|
  {
    if s == [] {
      assert cur + s == cur;
    } else if isPunct(s[0]) {
      var head: seq<string> := if cur == "" then [] else [cur];
      RunsConcat(s[1..], "", isPunct);
      ConcatAppend(head + [[s[0]]], RunsFrom(s[1..], "", isPunct));
      ConcatAppend(head, [[s[0]]]);
      assert Concat([[s[0]]]) == [s[0]];
      assert s == [s[0]] + s[1..];
    } else {
      RunsConcat(s[1..], cur + [s[0]], isPunct);
      assert cur + [s[0]] + s[1..] == cur + s;
    }
  }

  lemma {:induction false} RunsTokens(s: string, cur: string, isPunct: char -> bool)
    requires NoPunct(cur, isPunct)
    ensures forall i :: 0 <= i < |RunsFrom(s, cur, isPunct)| ==> RunToken(RunsFrom(s, cur, isPunct)[i], isPunct)
    decreases |s|
  {
    if s != [] {
      if isPunct(s[0]) {
        RunsTokens(s[1..], "", isPunct);
      } else {
        RunsTokens(s[1..], cur + [s[0]], isPunct);
      }
    }
  }

  /** Two neighbouring tokens are never both punctuation-free. */
  predicate Maximal(ts: seq<string>, isPunct: char -> bool) {
    forall i :: 0 < i < |ts| ==> !(NoPunct(ts[i - 1], isPunct) && NoPunct(ts[i], isPunct))
  }

  lemma {:induction false} RunsMaximal(s: string, cur: string, isPunct: char -> bool)
    ensures Maximal(RunsFrom(s, cur, isPunct), isPunct)
    decreases |s|
  {
    if s != [] {
      if isPunct(s[0]) {
        var head: seq<string> := if cur == "" then [] else [cur];
        var tail := RunsFrom(s[1..], "", isPunct);
        RunsMaximal(s[1..], "", isPunct);
        var ts := head + [[s[0]]] + tail;
        assert !NoPunct([s[0]], isPunct) by { assert [s[0]][0] == s[0]; }
        forall i | 0 < i < |ts| ensures !(NoPunct(ts[i - 1], isPunct) && NoPunct(ts[i], isPunct)) {
          if i <= |head| {
            assert ts[i] == [s[0]];
          } else if i == |head| + 1 {
            assert ts[i - 1] == [s[0]];
          } else {
            assert ts[i - 1] == tail[i - |head| - 2] && ts[i] == tail[i - |head| - 1];
          }
        }
        assert RunsFrom(s, cur, isPunct) == ts;
      } else {
        assert RunsFrom(s, cur, isPunct) == RunsFrom(s[1..], cur + [s[0]], isPunct);
        RunsMaximal(s[1..], cur + [s[0]], isPunct);
      }
    }
  }

  /** The non-punctuation characters of `s`, in order: the one token `DropPunctuation` gives. */
  function RemovePunct(s: string, isPunct: char -> bool): (r: string)
    ensures NoPunct(r, isPunct) && |r| <= |s|
    ensures NoPunct(s, isPunct) ==> r == s
    ensures |s| == 1 ==> r == if isPunct(s[0]) then "" else s
    decreases |s|
  {
    if s == [] then ""
    else
      assert NoPunct(s, isPunct) ==> NoPunct(s[1..], isPunct);
      (if isPunct(s[0]) then "" else [s[0]]) + RemovePunct(s[1..], isPunct)
  }

  /** Dropping punctuation from a field is dropping it from each piece: it keeps the order. */
  lemma {:induction false} RemovePunctAppend(a: string, b: string, isPunct: char -> bool)
    ensures RemovePunct(a + b, isPunct) == RemovePunct(a, isPunct) + RemovePunct(b, isPunct)
    decreases |a|
  {
    if a == [] {
      assert a + b == b;
    } else {
      assert (a + b)[0] == a[0] && (a + b)[1..] == a[1..] + b;
      RemovePunctAppend(a[1..], b, isPunct);
    }
  }

  /** What `handlePunctuation` returns for a known mode. */
  function Handled(m: int, field: string, isPunct: char -> bool): seq<string>
    requires KnownMode(m)
  {
    if m == SeparatePunctuation then Runs(field, isPunct)
    else if m == DropPunctuation then [RemovePunct(field, isPunct)]
    else [field]
  }

  /** The `SeparatePunctuation` case: the loop that flushes `cur` at each punctuation character. */
  method SeparatePunct(field: string, isPunct: char -> bool) returns (res: seq<string>)
    ensures res == Runs(field, isPunct)
  {
    res := [];
    var cur := "";
    for i := 0 to |field|
      invariant res + RunsFrom(field[i..], cur, isPunct) == Runs(field, isPunct)
    {
      var ch := field[i];
      assert field[i..] == [ch] + field[i + 1..];
      if isPunct(ch) {
        if cur != "" {
          res := res + [cur];
        }
        res := res + [[ch]];
        cur := "";
      } else {
        cur := cur + [ch];
      }
    }
    if cur != "" {
      res := res + [cur];
    }
  }

  /** The `DropPunctuation` case: the loop that keeps the other characters. */
  method DropPunct(field: string, isPunct: char -> bool) returns (res: string)
    ensures res == RemovePunct(field, isPunct)
  {
    res := "";
    for i := 0 to |field|
      invariant res == RemovePunct(field[..i], isPunct)
    {
      var ch := field[i];
      assert field[..i + 1] == field[..i] + [ch];
      RemovePunctAppend(field[..i], [ch], isPunct);
      if !isPunct(ch) {
        res := res + [ch];
      }
    }
    assert field[..|field|] == field;
  }

  /** `handlePunctuation`: the tokens of one field under mode `m`; an unknown mode panics. */
  method HandlePunctuation(m: int, field: string, isPunct: char -> bool) returns (r: Result<seq<string>>)
    ensures r.Ok? <==> KnownMode(m)
    ensures r.Ok? ==> r.value == Handled(m, field, isPunct)
  {
    if m == SeparatePunctuation {
      var res := SeparatePunct(field, isPunct);
      return Ok(res);
    } else if m == DropPunctuation {
      var res := DropPunct(field, isPunct);
      return Ok([res]);
    } else if m == IncludePunctuation {
      return Ok([field]);
    }
    return Panic("unknown punctuation mode");
  }

  // ---------------------------------------------------------------------------------------
  // Tokenize

  /** A field as the punctuation policy sees it: lower-cased unless case is preserved. */
  function Prepared(t: Tokenizer, field: string, u: Classes): (f: string)
    ensures |f| == |field|
  {
    if t.preserveCase then field else seq(|field|, k requires 0 <= k < |field| => u.toLower(field[k]))
  }

  /** The tokens of `fields`, one field after the other. */
  function TokensOfFields(t: Tokenizer, fields: seq<string>, u: Classes): seq<string>
    requires KnownMode(t.punctuationMode)
  {
    if fields == [] then []
    else
      TokensOfFields(t, fields[..|fields| - 1], u)
      + Handled(t.punctuationMode, Prepared(t, fields[|fields| - 1], u), u.isPunct)
  }

  /** The tokens of one more field follow the tokens of the fields before it. */
  lemma TokensStep(t: Tokenizer, fields: seq<string>, i: nat, u: Classes)
    requires KnownMode(t.punctuationMode) && i < |fields|
    ensures TokensOfFields(t, fields[..i + 1], u)
            == TokensOfFields(t, fields[..i], u) + Handled(t.punctuationMode, Prepared(t, fields[i], u), u.isPunct)
  {
    assert fields[..i + 1][..i] == fields[..i];
  }

  /**
   * `Tokenize`: the tokens of every whitespace-separated field, in order. It panics exactly
   * when the mode is unknown and there is a field to handle.
   */
  method Tokenize(t: Tokenizer, s: string, u: Classes) returns (r: Result<seq<string>>)
    ensures r.Panic? <==> !KnownMode(t.punctuationMode) && RemoveSpace(s, u.isSpace) != ""
    ensures r.Ok? ==> KnownMode(t.punctuationMode) || r.value == []
    ensures r.Ok? && KnownMode(t.punctuationMode) ==> r.value == TokensOfFields(t, Fields(s, u.isSpace), u)
  {
    var fields := Fields(s, u.isSpace);
    FieldsEmpty(s, "", u.isSpace);
    var res: seq<string> := [];
    for i := 0 to |fields|
      invariant KnownMode(t.punctuationMode) ==> res == TokensOfFields(t, fields[..i], u)
      invariant !KnownMode(t.punctuationMode) ==> i == 0 && res == []
    {
      var field := fields[i];
      if !t.preserveCase {
        field := Prepared(t, field, u);
      }
      var handled := HandlePunctuation(t.punctuationMode, field, u.isPunct);
      if handled.Panic? {
        return Panic(handled.reason);
      }
      assert field == Prepared(t, fields[i], u);
      TokensStep(t, fields, i, u);
      res := res + handled.value;
    }
    assert fields[..|fields|] == fields;
    return Ok(res);
  }

  /**
   * Every token of a separated tokenization is one punctuation character or a non-empty
   * run free of punctuation and of white space.
   */
  lemma {:induction false} SeparatedTokens(t: Tokenizer, fields: seq<string>, u: Classes)
    requires t.punctuationMode == SeparatePunctuation
    ensures forall tok :: tok in TokensOfFields(t, fields, u) ==> RunToken(tok, u.isPunct)
    decreases |fields|
  {
    if fields != [] {
      SeparatedTokens(t, fields[..|fields| - 1], u);
      RunsProperties(Prepared(t, fields[|fields| - 1], u), u.isPunct);
    }
  }
}
