/** Path similarity: segments compared by edit distance, with bonuses for equal counts and common prefixes. */
module Similarity {
  import opened EditDistance
  import opened PathText

  const CLIP: nat := 255
  const MAX_SEGMENTS: nat := 64

  // ---------------------------------------------------------------- segments of a path

  /** Cuts s at its first cuts '/' characters; the last segment keeps whatever follows. */
  function Split(s: string, cuts: nat): (segments: seq<string>)
    ensures 1 <= |segments| <= cuts + 1
    decreases cuts
  {
    var i := FirstSlash(s);
    if cuts == 0 || i == |s| then [s] else [s[..i]] + Split(s[i + 1..], cuts - 1)
  }

  function Segments(path: string): (segments: seq<string>)
    ensures 1 <= |segments| <= MAX_SEGMENTS
  {
    Split(ClipTo(path, CLIP), MAX_SEGMENTS - 1)
  }

  // ---------------------------------------------------------------- the score

  function SegmentSimilarity(s: string, t: string): real {
    if s == t then 1.0
    else
      assert |s| > 0 || |t| > 0;
      1.0 - Distance(s, t) as real / Longer(s, t) as real
  }

  function Longer(s: string, t: string): nat {
    if |s| > |t| then |s| else |t|
  }

  function Fewer(a: seq<string>, b: seq<string>): nat {
    if |a| < |b| then |a| else |b|
  }

  function More(a: seq<string>, b: seq<string>): nat {
    if |a| > |b| then |a| else |b|
  }

  function TotalSimilarity(a: seq<string>, b: seq<string>, n: nat): real
    requires n <= Fewer(a, b)
  {
    if n == 0 then 0.0 else TotalSimilarity(a, b, n - 1) + SegmentSimilarity(a[n - 1], b[n - 1])
  }

  predicate BothNonEmpty(a: seq<string>, b: seq<string>, i: nat)
    requires i < Fewer(a, b)
  {
    a[i] != "" && b[i] != ""
  }

  function NonEmptyCommon(a: seq<string>, b: seq<string>, n: nat): (count: nat)
    requires n <= Fewer(a, b)
    ensures count <= n
  {
    if n == 0 then 0 else NonEmptyCommon(a, b, n - 1) + if BothNonEmpty(a, b, n - 1) then 1 else 0
  }

  ghost predicate SamePrefix(a: seq<string>, b: seq<string>, n: nat)
    requires n <= Fewer(a, b)
  {
    forall i :: 0 <= i < n && BothNonEmpty(a, b, i) ==> a[i] == b[i]
  }

  ghost function PrefixBonus(a: seq<string>, b: seq<string>): real
    requires a != [] && b != []
  {
    var common := NonEmptyCommon(a, b, Fewer(a, b));
    if SamePrefix(a, b, Fewer(a, b)) && common > 0 then 0.15 * (common as real / More(a, b) as real) else 0.0
  }

  ghost function Score(a: seq<string>, b: seq<string>): real
    requires a != [] && b != []
  {
    var average := TotalSimilarity(a, b, Fewer(a, b)) / More(a, b) as real;
    var countBonus := if |a| == |b| then 0.2 else 0.0;
    average * 0.6 + countBonus + PrefixBonus(a, b)
  }

  ghost function RouteSimilarity(path1: string, path2: string): real {
    if path1 == path2 then 1.0
    else
      var score := Score(Segments(path1), Segments(path2));
      if score > 1.0 then 1.0 else score
  }

  // ---------------------------------------------------------------- symmetric, in [0, 1], 1 only on equal paths

  lemma SegmentFacts(s: string, t: string)
    ensures 0.0 <= SegmentSimilarity(s, t) <= 1.0
    ensures SegmentSimilarity(s, t) == SegmentSimilarity(t, s)
    ensures SegmentSimilarity(s, t) == 1.0 <==> s == t
  {
    hide Distance;
    Bounds(s, t);
    Symmetric(s, t);
    ZeroOnlyOnEqual(s, t);
    if s != t {
      FractionIsSmall(Distance(s, t) as real, Longer(s, t) as real);
    }
  }

  lemma FractionIsSmall(part: real, whole: real)
    requires 0.0 <= part <= whole && whole > 0.0
    ensures 0.0 <= part / whole <= 1.0 && (part > 0.0 ==> part / whole > 0.0)
  {}

  lemma {:induction false} TotalFacts(a: seq<string>, b: seq<string>, n: nat)
    requires n <= Fewer(a, b)
    ensures 0.0 <= TotalSimilarity(a, b, n) <= n as real
    ensures TotalSimilarity(a, b, n) == TotalSimilarity(b, a, n)
  {
    hide SegmentSimilarity;
    if n > 0 {
      TotalFacts(a, b, n - 1);
      SegmentFacts(a[n - 1], b[n - 1]);
    }
  }

  lemma {:induction false} CommonSymmetric(a: seq<string>, b: seq<string>, n: nat)
    requires n <= Fewer(a, b)
    ensures NonEmptyCommon(a, b, n) == NonEmptyCommon(b, a, n)
  {
    if n > 0 {
      CommonSymmetric(a, b, n - 1);
    }
  }

  lemma PrefixBonusFacts(a: seq<string>, b: seq<string>)
    requires a != [] && b != []
    ensures 0.0 <= PrefixBonus(a, b) <= 0.15
    ensures PrefixBonus(a, b) == PrefixBonus(b, a)
  {
    var n := Fewer(a, b);
    CommonSymmetric(a, b, n);
    assert SamePrefix(a, b, n) <==> SamePrefix(b, a, n) by {
      assert forall i | 0 <= i < n :: BothNonEmpty(a, b, i) == BothNonEmpty(b, a, i);
    }
    FractionIsSmall(NonEmptyCommon(a, b, n) as real, More(a, b) as real);
  }

  lemma ScoreFacts(a: seq<string>, b: seq<string>)
    requires a != [] && b != []
    ensures 0.0 <= Score(a, b) <= 0.95
    ensures Score(a, b) == Score(b, a)
  {
    hide PrefixBonus, TotalSimilarity;
    var n := Fewer(a, b);
    TotalFacts(a, b, n);
    PrefixBonusFacts(a, b);
    FractionIsSmall(TotalSimilarity(a, b, n), More(a, b) as real);
  }

  /** Similarity is symmetric, lies in [0, 1], is 1 exactly on equal paths and at most 0.95 on others. */
  lemma SimilarityIsAScore(path1: string, path2: string)
    ensures RouteSimilarity(path1, path2) == RouteSimilarity(path2, path1)
    ensures 0.0 <= RouteSimilarity(path1, path2) <= 1.0
    ensures RouteSimilarity(path1, path2) == 1.0 <==> path1 == path2
    ensures path1 != path2 ==> RouteSimilarity(path1, path2) <= 0.95
  {
    hide Score, Segments;
    ScoreFacts(Segments(path1), Segments(path2));
  }

  // ---------------------------------------------------------------- in-place splitting

  /** Each segment is held at its start, before position limit. */
  ghost predicate AllHeld(buffer: seq<char>, starts: seq<nat>, segments: seq<string>, limit: nat) {
    && |segments| <= |starts|
    && forall k :: 0 <= k < |segments| ==> HoldsAt(buffer, starts[k], segments[k]) && starts[k] + |segments[k]| < limit
  }

  /** Cutting at p, behind every segment so far, adds the segment that ends there. */
  lemma CutHolds(buffer: seq<char>, starts: seq<nat>, done: seq<string>, p: nat)
    requires |done| + 1 < |starts| && starts[|done|] <= p < |buffer|
    requires AllHeld(buffer, starts, done, starts[|done|])
    requires '\0' !in buffer[starts[|done|]..p]
    ensures AllHeld(buffer[p := '\0'], starts[|done| + 1 := p + 1], done + [buffer[starts[|done|]..p]], p + 1)
  {
    var buffer', starts' := buffer[p := '\0'], starts[|done| + 1 := p + 1];
    var segments := done + [buffer[starts[|done|]..p]];
    forall k | 0 <= k < |segments|
      ensures HoldsAt(buffer', starts'[k], segments[k]) && starts'[k] + |segments[k]| < p + 1
    {
      assert buffer'[starts'[k]..starts'[k] + |segments[k]|] == buffer[starts[k]..starts[k] + |segments[k]|];
    }
  }

  lemma LastHolds(buffer: seq<char>, starts: seq<nat>, done: seq<string>, end: nat)
    requires |done| < |starts| && starts[|done|] <= end < |buffer| && buffer[end] == '\0'
    requires AllHeld(buffer, starts, done, starts[|done|])
    requires '\0' !in buffer[starts[|done|]..end]
    ensures AllHeld(buffer, starts, done + [buffer[starts[|done|]..end]], |buffer|)
  {}

  lemma SegmentIsRead(buffer: seq<char>, starts: seq<nat>, segments: seq<string>, k: nat)
    requires AllHeld(buffer, starts, segments, |buffer|) && k < |segments|
    ensures k < |starts| && starts[k] <= |buffer| && TextAt(buffer, starts[k]) == segments[k]
  {
    HeldIsRead(buffer, starts[k], segments[k]);
  }

  lemma NextCut(rest: string, i: nat, cuts: nat)
    requires i < |rest| && '/' !in rest[..i] && rest[i] == '/' && cuts > 0
    ensures Split(rest, cuts) == [rest[..i]] + Split(rest[i + 1..], cuts - 1)
  {
    hide Split;
    FirstSlashAt(rest, i);
    SplitAtFirst(rest, cuts);
  }

  lemma SplitAtFirst(s: string, cuts: nat)
    ensures var i := FirstSlash(s);
            Split(s, cuts) == if cuts == 0 || i == |s| then [s] else [s[..i]] + Split(s[i + 1..], cuts - 1)
  {}

  /** Replaces the first 63 slashes by NULs and records where each segment starts. */
  method SplitInPlace(tmp: array<char>, starts: array<nat>, ghost text: string) returns (count: nat)
    requires |text| < tmp.Length && tmp[..|text|] == text && tmp[|text|] == '\0' && '\0' !in text
    requires starts.Length == MAX_SEGMENTS
    modifies tmp, starts
    ensures count == |Split(text, MAX_SEGMENTS - 1)|
    ensures AllHeld(tmp[..], starts[..], Split(text, MAX_SEGMENTS - 1), tmp.Length)
  {
    hide Split, AllHeld, HoldsAt, FirstSlash;
    starts[0] := 0;
    var idx: nat, p: nat := 0, 0;
    ghost var done: seq<string> := [];
    assert text[0..] == text && tmp[..][0..|text|] == text;
    NoneHeld(tmp[..], starts[..]);
    while tmp[p] != '\0'
      invariant idx < MAX_SEGMENTS && |done| == idx && p <= |text|
      invariant starts[idx] <= p && '/' !in text[starts[idx]..p]
      invariant tmp[..][starts[idx]..|text|] == text[starts[idx]..] && tmp[|text|] == '\0'
      invariant Split(text, MAX_SEGMENTS - 1) == done + Split(text[starts[idx]..], MAX_SEGMENTS - 1 - idx)
      invariant AllHeld(tmp[..], starts[..], done, starts[idx])
      decreases |text| - p
    {
      ghost var from := starts[idx];
      ghost var buffer, begins := tmp[..], starts[..];
      SlicesAt(buffer, text, from, p);
      if tmp[p] == '/' {
        if idx >= MAX_SEGMENTS - 1 {
          break;
        }
        NextCut(text[from..], p - from, MAX_SEGMENTS - 1 - idx);
        CutHolds(buffer, begins, done, p);
        tmp[p] := '\0';
        idx := idx + 1;
        starts[idx] := p + 1;
        done := done + [text[from..p]];
        ghost var next: nat := p + 1;
        assert tmp[..] == buffer[p := '\0'] && starts[..] == begins[idx := next];
      }
      p := p + 1;
    }
    count := idx + 1;
    LastSegment(text[starts[idx]..], p - starts[idx], MAX_SEGMENTS - 1 - idx);
    LastHolds(tmp[..], starts[..], done, |text|);
  }

  lemma NoneHeld(buffer: seq<char>, starts: seq<nat>)
    ensures AllHeld(buffer, starts, [], 0)
  {}

  /** Nothing more is cut off when the cuts or the slashes have run out. */
  lemma LastSegment(rest: string, i: nat, cuts: nat)
    requires i <= |rest| && '/' !in rest[..i] && (cuts == 0 || i == |rest|)
    ensures Split(rest, cuts) == [rest]
  {
    if cuts > 0 {
      FirstSlashAt(rest, i);
    }
  }

  // ---------------------------------------------------------------- the score, as computed

  method SimilarityOfSegments(s1: string, s2: string) returns (similarity: real)
    ensures similarity == SegmentSimilarity(s1, s2)
  {
    if s1 == s2 {
      return 1.0;
    }
    var dist := Levenshtein(s1, s2);
    var maxLen := if |s1| > |s2| then |s1| else |s2|;
    return 1.0 - dist as real / maxLen as real;
  }

  method PrefixScore(tmp1: array<char>, tmp2: array<char>, starts1: array<nat>, starts2: array<nat>,
      minSegs: nat, maxSegs: nat, ghost a: seq<string>, ghost b: seq<string>)
    returns (bonus: real)
    requires a != [] && b != [] && minSegs == Fewer(a, b) && maxSegs == More(a, b)
    requires AllHeld(tmp1[..], starts1[..], a, tmp1.Length) && AllHeld(tmp2[..], starts2[..], b, tmp2.Length)
    ensures bonus == PrefixBonus(a, b)
  {
    hide AllHeld, TextAt;
    var samePrefix, nonEmptyCommon := true, 0;
    for i := 0 to minSegs
      invariant samePrefix && SamePrefix(a, b, i) && nonEmptyCommon == NonEmptyCommon(a, b, i)
    {
      SegmentIsRead(tmp1[..], starts1[..], a, i);
      SegmentIsRead(tmp2[..], starts2[..], b, i);
      var s1, s2 := TextAt(tmp1[..], starts1[i]), TextAt(tmp2[..], starts2[i]);
      if |s1| > 0 && |s2| > 0 {
        nonEmptyCommon := nonEmptyCommon + 1;
        if s1 != s2 {
          samePrefix := false;
          assert BothNonEmpty(a, b, i) && a[i] != b[i];
          break;
        }
      }
    }
    bonus := 0.0;
    if samePrefix && nonEmptyCommon > 0 {
      bonus := 0.15 * (nonEmptyCommon as real / maxSegs as real);
    }
  }

  method RouteScore(path1: string, path2: string) returns (score: real)
    requires '\0' !in path1 && '\0' !in path2
    ensures score == RouteSimilarity(path1, path2)
  {
    hide Split, PrefixBonus, AllHeld, HoldsAt, TotalSimilarity;
    if path1 == path2 {
      return 1.0;
    }
    var tmp1 := CopyClipped(path1, CLIP);
    var tmp2 := CopyClipped(path2, CLIP);
    var starts1, starts2 := new nat[MAX_SEGMENTS], new nat[MAX_SEGMENTS];
    var seg1Count := SplitInPlace(tmp1, starts1, ClipTo(path1, CLIP));
    var seg2Count := SplitInPlace(tmp2, starts2, ClipTo(path2, CLIP));
    ghost var a, b := Segments(path1), Segments(path2);
    var minSegs := if seg1Count < seg2Count then seg1Count else seg2Count;
    var maxSegs := if seg1Count > seg2Count then seg1Count else seg2Count;
    var countBonus := if seg1Count == seg2Count then 0.2 else 0.0;
    var prefixBonus := PrefixScore(tmp1, tmp2, starts1, starts2, minSegs, maxSegs, a, b);
    var total := SegmentTotal(tmp1, tmp2, starts1, starts2, minSegs, a, b);
    var average := total / maxSegs as real;
    score := average * 0.6 + countBonus + prefixBonus;
    if score > 1.0 {
      score := 1.0;
    }
  }

  method SegmentTotal(tmp1: array<char>, tmp2: array<char>, starts1: array<nat>, starts2: array<nat>,
      minSegs: nat, ghost a: seq<string>, ghost b: seq<string>)
    returns (total: real)
    requires minSegs == Fewer(a, b)
    requires AllHeld(tmp1[..], starts1[..], a, tmp1.Length) && AllHeld(tmp2[..], starts2[..], b, tmp2.Length)
    ensures total == TotalSimilarity(a, b, minSegs)
  {
    hide AllHeld, TextAt, SegmentSimilarity;
    total := 0.0;
    for i := 0 to minSegs
      invariant total == TotalSimilarity(a, b, i)
    {
      SegmentIsRead(tmp1[..], starts1[..], a, i);
      SegmentIsRead(tmp2[..], starts2[..], b, i);
      var similarity := SimilarityOfSegments(TextAt(tmp1[..], starts1[i]), TextAt(tmp2[..], starts2[i]));
      total := total + similarity;
    }
  }

  // ---------------------------------------------------------------- the best route

  /** best is the first route with the highest score that is positive and at least the minimum. */
  ghost predicate IsBest(target: string, routes: seq<string>, minimum: real, best: nat) {
    && best < |routes|
    && var score := RouteSimilarity(target, routes[best]);
    && score >= minimum && score > 0.0
    && (forall k :: 0 <= k < best ==>
          RouteSimilarity(target, routes[k]) < score)
    && (forall k :: best < k < |routes| ==> RouteSimilarity(target, routes[k]) <= score)
  }

  ghost predicate TooLow(target: string, routes: seq<string>, minimum: real, n: nat)
    requires n <= |routes|
  {
    forall k :: 0 <= k < n ==> RouteSimilarity(target, routes[k]) < minimum || RouteSimilarity(target, routes[k]) <= 0.0
  }

  /** Returns the length of routes when no route qualifies. */
  method FindBestRoute(target: string, routes: seq<string>, minimum: real) returns (best: nat)
    requires '\0' !in target && forall k :: 0 <= k < |routes| ==> '\0' !in routes[k]
    ensures best <= |routes|
    ensures best < |routes| ==> IsBest(target, routes, minimum, best)
    ensures best == |routes| ==> TooLow(target, routes, minimum, |routes|)
  {
    hide RouteSimilarity;
    best := |routes|;
    var bestScore := 0.0;
    for i := 0 to |routes|
      invariant best == |routes| || best < i
      invariant best == |routes| ==> bestScore == 0.0 && TooLow(target, routes, minimum, i)
      invariant best < |routes| ==> IsBest(target, routes[..i], minimum, best)
      invariant best < |routes| ==> bestScore == RouteSimilarity(target, routes[best])
    {
      var score := RouteScore(target, routes[i]);
      if score >= minimum && score > bestScore {
        bestScore := score;
        best := i;
      }
    }
    assert routes[..|routes|] == routes;
  }

  /** A registered route always finds itself, and then only itself. */
  lemma ExactRouteWins(target: string, routes: seq<string>, minimum: real, best: nat)
    requires IsBest(target, routes, minimum, best)
    ensures target in routes ==> routes[best] == target
  {
    hide RouteSimilarity;
    if target in routes {
      var k :| 0 <= k < |routes| && routes[k] == target;
      SimilarityIsAScore(target, target);
      SimilarityIsAScore(target, routes[best]);
    }
  }

  lemma ExactRouteIsFound(target: string, routes: seq<string>, minimum: real)
    requires TooLow(target, routes, minimum, |routes|) && minimum <= 1.0
    ensures target !in routes
  {
    hide RouteSimilarity;
    if target in routes {
      var k :| 0 <= k < |routes| && routes[k] == target;
      SimilarityIsAScore(target, target);
    }
  }
}
