/**
 * String helpers (StringUtil.java): `copyPartialInnerMatches(what, where)`
 * keeps, in order, the strings of `where` that contain `what`. Lists are
 * values here, so the input list cannot be changed by the call.
 */
module StringUtil {

  /** `what` occurs in `s` starting at index `i`. */
  ghost predicate OccursAt(s: string, what: string, i: int)
  {
    0 <= i && i + |what| <= |s| && s[i..i + |what|] == what
  }

  /** An occurrence in the tail of `s` is an occurrence in `s`, one index later. */
  lemma OccursInTail(s: string, what: string)
    requires |s| > 0
    ensures forall j :: OccursAt(s[1..], what, j) ==> OccursAt(s, what, j + 1)
    ensures forall i :: 1 <= i && OccursAt(s, what, i) ==> OccursAt(s[1..], what, i - 1)
  {
  }

  /** `s.contains(what)`: `what` occurs somewhere in `s`; the empty string
      occurs in every string. */
  function Contains(s: string, what: string): (b: bool)
    ensures b <==> exists i :: OccursAt(s, what, i)
    decreases |s|
  {
    if |s| < |what| then false
    else if s[..|what|] == what then assert OccursAt(s, what, 0); true
    else OccursInTail(s, what); Contains(s[1..], what)
  }

  /** `copyPartialInnerMatches(what, where)`. */
  function CopyPartialInnerMatches(what: string, where: seq<string>): (r: seq<string>)
    ensures |r| <= |where|
    ensures forall i :: 0 <= i < |r| ==> Contains(r[i], what)
    ensures forall i :: 0 <= i < |where| && Contains(where[i], what) ==> where[i] in r
  {
    if where == [] then []
    else
      var rest := CopyPartialInnerMatches(what, where[1..]);
      assert forall i :: 1 <= i < |where| ==> where[i] == where[1..][i - 1];
      if Contains(where[0], what) then [where[0]] + rest else rest
  }

  /** `idx` picks out `sub` from `s` at strictly increasing indices. */
  ghost predicate Embedding(idx: seq<int>, sub: seq<string>, s: seq<string>)
  {
    && |idx| == |sub|
    && (forall i :: 0 <= i < |idx| ==> 0 <= idx[i] < |s| && s[idx[i]] == sub[i])
    && (forall i, j :: 0 <= i < j < |idx| ==> idx[i] < idx[j])
  }

  /** `sub` is `s` with some entries dropped and the rest kept in order. */
  ghost predicate IsSubsequence(sub: seq<string>, s: seq<string>)
  {
    exists idx :: Embedding(idx, sub, s)
  }

  /** An embedding into the tail of `s` is, one index later, an embedding
      into `s`, and it still is with index 0 in front for `s[0]`. */
  lemma EmbeddingInTail(idx: seq<int>, sub: seq<string>, s: seq<string>) returns (shifted: seq<int>)
    requires |s| > 0 && Embedding(idx, sub, s[1..])
    ensures Embedding(shifted, sub, s)
    ensures Embedding([0] + shifted, [s[0]] + sub, s)
  {
    shifted := seq(|idx|, k requires 0 <= k < |idx| => idx[k] + 1);
    forall k | 0 <= k < |shifted|
      ensures 0 <= shifted[k] < |s| && s[shifted[k]] == sub[k]
    {
      assert s[idx[k] + 1] == s[1..][idx[k]];
    }
    var longer := [0] + shifted;
    forall k | 0 < k < |longer|
      ensures longer[k] == shifted[k - 1] && ([s[0]] + sub)[k] == sub[k - 1]
    {
    }
  }

  /** The matches keep their order in `where`. */
  lemma {:induction false} MatchesAreSubsequence(what: string, where: seq<string>)
    ensures IsSubsequence(CopyPartialInnerMatches(what, where), where)
  {
    var r := CopyPartialInnerMatches(what, where);
    if where == [] {
      assert Embedding([], r, where);
    } else {
      var rest := CopyPartialInnerMatches(what, where[1..]);
      MatchesAreSubsequence(what, where[1..]);
      var idx :| Embedding(idx, rest, where[1..]);
      var shifted := EmbeddingInTail(idx, rest, where);
      if Contains(where[0], what) {
        assert Embedding([0] + shifted, r, where);
      } else {
        assert Embedding(shifted, r, where);
      }
    }
  }

  /** A string occurs among the matches as often as in `where` when it contains
      `what`, and not at all otherwise. */
  lemma {:induction false} MatchesCount(what: string, where: seq<string>, s: string)
    ensures multiset(CopyPartialInnerMatches(what, where))[s]
      == if Contains(s, what) then multiset(where)[s] else 0
  {
    if where != [] {
      MatchesCount(what, where[1..], s);
      assert where == [where[0]] + where[1..];
    }
  }

  /** Nothing is dropped exactly when every string matches, and then the
      result is `where` itself. */
  lemma {:induction false} AllMatchKeepsAll(what: string, where: seq<string>)
    ensures |CopyPartialInnerMatches(what, where)| == |where|
      <==> forall i :: 0 <= i < |where| ==> Contains(where[i], what)
    ensures (forall i :: 0 <= i < |where| ==> Contains(where[i], what))
      ==> CopyPartialInnerMatches(what, where) == where
  {
    if where != [] {
      AllMatchKeepsAll(what, where[1..]);
      assert forall i :: 1 <= i < |where| ==> where[i] == where[1..][i - 1];
      if forall i :: 0 <= i < |where| ==> Contains(where[i], what) {
        assert forall i :: 0 <= i < |where[1..]| ==> Contains(where[1..][i], what);
        assert where == [where[0]] + where[1..];
      }
    }
  }

  /** Every string contains the empty string, so filtering by it keeps everything. */
  lemma EmptyPatternKeepsAll(where: seq<string>)
    ensures CopyPartialInnerMatches("", where) == where
  {
  }
}
