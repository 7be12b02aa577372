/** Facts about sequences that several modules of the model rely on. */
module Sequences {

  /** `a` is `b` with some elements dropped: the same elements in the same relative order. */
  ghost predicate IsSubsequence<T>(a: seq<T>, b: seq<T>)
    decreases |b|
  {
    if a == [] then true
    else if b == [] then false
    else (a[0] == b[0] && IsSubsequence(a[1..], b[1..])) || IsSubsequence(a, b[1..])
  }

  /** No value occurs twice. */
  predicate Distinct<T(==)>(s: seq<T>) {
    forall i, j :: 0 <= i < j < |s| ==> s[i] != s[j]
  }

  /** The set of the elements of `s` (JavaScript's `new Set(s)`). */
  function Elements<T(==,!new)>(s: seq<T>): (r: set<T>)
    ensures forall x :: x in r <==> x in s
    ensures |r| <= |s|
  {
    if s == [] then {} else
      var rest := Elements(s[1..]);
      assert forall x :: x in s <==> x == s[0] || x in s[1..];
      {s[0]} + rest
  }

  /** `new Set(s).size === s.length` holds exactly when `s` has no duplicates. */
  lemma {:induction false} ElementsSizeIffDistinct<T(!new)>(s: seq<T>)
    ensures |Elements(s)| == |s| <==> Distinct(s)
  {
    if s != [] {
      var rest := Elements(s[1..]);
      ElementsSizeIffDistinct(s[1..]);
      DistinctCons(s);
      assert Elements(s) == {s[0]} + rest;
      if s[0] in s[1..] {
        assert Elements(s) == rest;
      } else {
        assert |Elements(s)| == |rest| + 1;
      }
    }
  }

  /** A non-empty sequence has no duplicates exactly when its head is not repeated and its tail has none. */
  lemma DistinctCons<T>(s: seq<T>)
    requires s != []
    ensures Distinct(s) <==> s[0] !in s[1..] && Distinct(s[1..])
  {
    if s[0] in s[1..] {
      var k :| 0 <= k < |s[1..]| && s[1..][k] == s[0];
      assert s[0] == s[k + 1];
    }
    if !Distinct(s[1..]) {
      var i, j :| 0 <= i < j < |s[1..]| && s[1..][i] == s[1..][j];
      assert s[i + 1] == s[j + 1];
    }
    if s[0] !in s[1..] && Distinct(s[1..]) {
      forall i, j | 0 <= i < j < |s| ensures s[i] != s[j] {
        if i == 0 { assert s[j] == s[1..][j - 1]; }
        else { assert s[i] == s[1..][i - 1] && s[j] == s[1..][j - 1]; }
      }
    }
  }

  /** `s.filter(keep)`: the elements `keep` accepts, in their order. */
  function Filter<T>(s: seq<T>, keep: T -> bool): (r: seq<T>)
    ensures |r| <= |s|
    ensures forall i :: 0 <= i < |r| ==> keep(r[i]) && r[i] in s
    ensures forall x :: x in s && keep(x) ==> x in r
    ensures |r| == |s| <==> forall i :: 0 <= i < |s| ==> keep(s[i])
    ensures |r| == |s| ==> r == s
  {
    if s == [] then []
    else
      var tail := s[1..];
      var rest := Filter(tail, keep);
      assert forall i :: 1 <= i < |s| ==> s[i] == tail[i - 1];
      if keep(s[0]) then
        var r := [s[0]] + rest;
        assert forall i :: 1 <= i < |r| ==> r[i] == rest[i - 1];
        r
      else
        rest
  }

  /** Every sequence is a subsequence of itself. */
  lemma {:induction false} SubsequenceReflexive<T>(s: seq<T>)
    ensures IsSubsequence(s, s)
  {
    if s != [] {
      SubsequenceReflexive(s[1..]);
    }
  }
}
