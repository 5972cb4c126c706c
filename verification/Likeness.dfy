/** What the similarity of paths measures: nearer segments score higher, and nothing else outweighs them. */
module Likeness {
  import opened EditDistance
  import opened Similarity

  /** The edits one segment needs to become the other, as a part of the longer one. */
  function Unlikeness(s: string, t: string): real
    requires s != "" || t != ""
  {
    Distance(s, t) as real / Longer(s, t) as real
  }

  lemma SegmentIsUnlikeness(s: string, t: string)
    requires s != "" || t != ""
    ensures SegmentSimilarity(s, t) == 1.0 - Unlikeness(s, t)
    ensures Unlikeness(s, t) > 0.0 <==> s != t
    ensures 0.0 <= Unlikeness(s, t) <= 1.0
  {
    hide Distance;
    ZeroOnlyOnEqual(s, t);
    SegmentFacts(s, t);
    if s == t {
      assert Distance(s, t) as real / Longer(s, t) as real == 0.0;
    }
  }

  // ---------------------------------------------------------------- one segment nearer

  /** b and c have the segments of a counted alike, and differ from each other at i only. */
  ghost predicate DifferAt(a: seq<string>, b: seq<string>, c: seq<string>, i: nat) {
    && |a| == |b| == |c| && i < |a|
    && (forall k :: 0 <= k < |a| && k != i ==> b[k] == c[k])
    && a[i] != "" && b[i] != "" && c[i] != ""
  }

  lemma {:induction false} TotalsDiffer(a: seq<string>, b: seq<string>, c: seq<string>, i: nat, n: nat)
    requires DifferAt(a, b, c, i) && n <= |a|
    ensures TotalSimilarity(a, c, n) - TotalSimilarity(a, b, n)
         == if i < n then SegmentSimilarity(a[i], c[i]) - SegmentSimilarity(a[i], b[i]) else 0.0
  {
    hide SegmentSimilarity;
    if n > 0 {
      TotalsDiffer(a, b, c, i, n - 1);
    }
  }

  lemma MoreThanPart(x: real, y: real, n: real)
    requires x < y && n > 0.0
    ensures x / n < y / n
  {}

  /** With the other segments alike, the nearer segment gives the higher score. */
  lemma NearerScoresHigher(a: seq<string>, b: seq<string>, c: seq<string>, i: nat)
    requires DifferAt(a, b, c, i) && Unlikeness(a[i], b[i]) > Unlikeness(a[i], c[i])
    ensures Score(a, b) < Score(a, c)
  {
    hide TotalSimilarity, SegmentSimilarity, Unlikeness;
    var n := |a|;
    TotalsDiffer(a, b, c, i, n);
    SegmentIsUnlikeness(a[i], b[i]);
    SegmentIsUnlikeness(a[i], c[i]);
    MoreThanPart(TotalSimilarity(a, b, n), TotalSimilarity(a, c, n), n as real);
    assert BothNonEmpty(a, b, i) && a[i] != b[i];
    PrefixBonusFacts(a, c);
  }

  /** Lifted to paths. */
  lemma NearerPathIsMoreSimilar(target: string, far: string, near: string, i: nat)
    requires DifferAt(Segments(target), Segments(far), Segments(near), i)
    requires Unlikeness(Segments(target)[i], Segments(far)[i]) > Unlikeness(Segments(target)[i], Segments(near)[i])
    ensures RouteSimilarity(target, far) < RouteSimilarity(target, near)
  {
    hide Score, Segments, Unlikeness;
    NearerScoresHigher(Segments(target), Segments(far), Segments(near), i);
    ScoreFacts(Segments(target), Segments(far));
    ScoreFacts(Segments(target), Segments(near));
    SegmentIsUnlikeness(Segments(target)[i], Segments(far)[i]);
    SegmentIsUnlikeness(Segments(target)[i], Segments(near)[i]);
  }

  /** The farther of two such routes is never the best one. */
  lemma NearerRouteWins(target: string, routes: seq<string>, minimum: real, best: nat, far: string, near: string,
                        i: nat)
    requires IsBest(target, routes, minimum, best) && near in routes
    requires DifferAt(Segments(target), Segments(far), Segments(near), i)
    requires Unlikeness(Segments(target)[i], Segments(far)[i]) > Unlikeness(Segments(target)[i], Segments(near)[i])
    ensures routes[best] != far
  {
    hide RouteSimilarity, Segments, Unlikeness;
    NearerPathIsMoreSimilar(target, far, near, i);
    var k :| 0 <= k < |routes| && routes[k] == near;
  }

  // ---------------------------------------------------------------- the weights

  lemma {:induction false} TotalOfEqual(a: seq<string>, b: seq<string>, n: nat)
    requires n <= Fewer(a, b) && forall k :: 0 <= k < n ==> a[k] == b[k]
    ensures TotalSimilarity(a, b, n) == n as real
  {
    hide Distance;
    if n > 0 {
      TotalOfEqual(a, b, n - 1);
    }
  }

  lemma {:induction false} TotalOfUnlike(a: seq<string>, b: seq<string>, n: nat)
    requires n <= Fewer(a, b) && forall k :: 0 <= k < n ==> (a[k] != "" || b[k] != "") && Unlikeness(a[k], b[k]) == 1.0
    ensures TotalSimilarity(a, b, n) == 0.0
  {
    hide SegmentSimilarity, Unlikeness;
    if n > 0 {
      TotalOfUnlike(a, b, n - 1);
      SegmentIsUnlikeness(a[n - 1], b[n - 1]);
    }
  }

  lemma {:induction false} AllCommon(a: seq<string>, b: seq<string>, n: nat)
    requires n <= Fewer(a, b) && forall k :: 0 <= k < n ==> BothNonEmpty(a, b, k)
    ensures NonEmptyCommon(a, b, n) == n
  {
    if n > 0 {
      AllCommon(a, b, n - 1);
    }
  }

  /** A path and a longer one that starts with all of its segments: three quarters of the part they share. */
  lemma PrefixScore(a: seq<string>, b: seq<string>)
    requires a != [] && a < b && forall k :: 0 <= k < |a| ==> a[k] != ""
    ensures Score(a, b) == 0.75 * (|a| as real / |b| as real)
  {
    TotalOfEqual(a, b, |a|);
    AllCommon(a, b, |a|);
    assert SamePrefix(a, b, |a|);
  }

  /** Segments that have nothing in common leave the bonus for equal counts. */
  lemma UnlikeScore(a: seq<string>, b: seq<string>)
    requires a != [] && b != []
    requires forall k :: 0 <= k < Fewer(a, b) ==> BothNonEmpty(a, b, k) && Unlikeness(a[k], b[k]) == 1.0
    ensures Score(a, b) == if |a| == |b| then 0.2 else 0.0
  {
    hide Unlikeness, TotalSimilarity;
    TotalOfUnlike(a, b, Fewer(a, b));
    SegmentIsUnlikeness(a[0], b[0]);
    assert BothNonEmpty(a, b, 0) && a[0] != b[0];
  }

  /** One segment of n with nothing in common: the others count for 0.6. */
  lemma OneUnlikeScore(a: seq<string>, b: seq<string>, i: nat)
    requires DifferAt(a, b, a, i) && Unlikeness(a[i], b[i]) == 1.0
    ensures Score(a, b) == 0.2 + 0.6 * ((|a| - 1) as real / |a| as real)
  {
    hide Unlikeness, TotalSimilarity;
    var n := |a|;
    TotalsDiffer(a, b, a, i, n);
    TotalOfEqual(a, a, n);
    SegmentIsUnlikeness(a[i], b[i]);
    SegmentIsUnlikeness(a[i], a[i]);
    assert BothNonEmpty(a, b, i) && a[i] != b[i];
  }
}
