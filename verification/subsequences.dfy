/**
 Order-preserving sub-sequences: the vocabulary used to say that a filtered
 answer list keeps the order of the list it was taken from.
 */
module Subsequences {

  /** True iff `s` can be obtained from `t` by deleting elements, keeping order. */
  ghost predicate IsSubsequence<T>(s: seq<T>, t: seq<T>)
    decreases |t|
  {
    || s == []
    || (&& t != []
        && ((s[0] == t[0] && IsSubsequence(s[1..], t[1..])) || IsSubsequence(s, t[1..])))
  }

  /** Deleting elements never adds occurrences of any value. */
  lemma {:induction false} SubsequenceMultiset<T>(s: seq<T>, t: seq<T>)
    requires IsSubsequence(s, t)
    ensures multiset(s) <= multiset(t)
    ensures |s| <= |t|
    decreases |t|
  {
    if s == [] {
    } else {
      assert t == [t[0]] + t[1..];
      if s[0] == t[0] && IsSubsequence(s[1..], t[1..]) {
        SubsequenceMultiset(s[1..], t[1..]);
        assert s == [s[0]] + s[1..];
      } else {
        SubsequenceMultiset(s, t[1..]);
      }
    }
  }
}
