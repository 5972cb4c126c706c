/** What several components share: optional values, and sequences without repetition. */
module Basics {

  datatype Option<+T> = None | Some(value: T)

  predicate Distinct<T(==)>(s: seq<T>) {
    forall i, j :: 0 <= i < j < |s| ==> s[i] != s[j]
  }

  /**
   A sequence without repetition is no longer than a set that holds its elements, and as long if it holds no others.
   */
  lemma {:induction false} DistinctWithin<T>(s: seq<T>, all: set<T>)
    requires Distinct(s) && forall x :: x in s ==> x in all
    ensures |s| <= |all|
    ensures (forall x :: x in all ==> x in s) ==> |s| == |all|
    decreases |s|
  {
    if s != [] {
      var n := |s| - 1;
      var rest, last := s[..n], s[n];
      forall x | x in rest
        ensures x in all - {last}
      {
        assert x in s;
      }
      DistinctWithin(rest, all - {last});
      if forall x :: x in all ==> x in s {
        forall x | x in all - {last}
          ensures x in rest
        {}
      }
    }
  }
}
