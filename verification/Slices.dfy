/** Finding one sequence inside another. */
module Slices {

  /** The part of s from i on starts with t. */
  ghost predicate HasAt<T>(s: seq<T>, i: nat, t: seq<T>) {
    i + |t| <= |s| && s[i..i + |t|] == t
  }

  lemma HasAtConcat<T>(s: seq<T>, i: nat, a: seq<T>, b: seq<T>)
    requires HasAt(s, i, a + b)
    ensures HasAt(s, i, a) && HasAt(s, i + |a|, b)
  {
    var w := s[i..i + |a + b|];
    assert w[..|a|] == a && w[|a|..] == b;
    assert s[i..i + |a|] == w[..|a|];
    assert s[i + |a|..i + |a| + |b|] == w[|a|..];
  }

  lemma HasAtHead<T>(s: seq<T>, i: nat, x: T)
    requires HasAt(s, i, [x])
    ensures i < |s| && s[i] == x
  {
    assert s[i..i + 1][0] == s[i];
  }

  lemma HasAtWhole<T>(s: seq<T>)
    ensures HasAt(s, 0, s)
  {
    assert s[0..|s|] == s;
  }

  lemma HasAtAll<T>(s: seq<T>, i: nat, t: seq<T>)
    requires HasAt(s, i, t)
    ensures i + |t| <= |s| && forall k :: i <= k < i + |t| ==> s[k] == t[k - i]
  {
    forall k | i <= k < i + |t|
      ensures s[k] == t[k - i]
    {
      assert s[i..i + |t|][k - i] == s[k];
    }
  }

  lemma HasAtSlice<T>(s: seq<T>, i: nat, t: seq<T>)
    requires HasAt(s, i, t)
    ensures i + |t| <= |s| && s[i..i + |t|] == t
  {
  }
}
