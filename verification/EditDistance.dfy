/** Levenshtein distance: the two-row loop, the recurrence, and the least number of single-character edits. */
module EditDistance {

  // ---------------------------------------------------------------- reference: edit scripts

  /** One character inserted, deleted or replaced, anywhere. */
  datatype Edit = Insert(at: nat, c: char) | Delete(at: nat) | Replace(at: nat, c: char)

  predicate Applies(e: Edit, s: string) {
    if e.Insert? then e.at <= |s| else e.at < |s|
  }

  function Apply(e: Edit, s: string): string
    requires Applies(e, s)
  {
    match e
    case Insert(at, c) => s[..at] + [c] + s[at..]
    case Delete(at) => s[..at] + s[at + 1..]
    case Replace(at, c) => s[..at] + [c] + s[at + 1..]
  }

  /** script, applied edit by edit, turns s into t. */
  predicate Turns(script: seq<Edit>, s: string, t: string) {
    if script == [] then s == t
    else Applies(script[0], s) && Turns(script[1..], Apply(script[0], s), t)
  }

  // ---------------------------------------------------------------- the recurrence

  function Min(a: int, b: int): int {
    if b < a then b else a
  }

  function Cost(a: char, b: char): int {
    if a == b then 0 else 1
  }

  /** Distance of two strings by their last characters. */
  function Distance(s: string, t: string): (d: nat)
    decreases |s| + |t|
  {
    if s == "" then |t|
    else if t == "" then |s|
    else
      var m, n := |s| - 1, |t| - 1;
      Min(Min(Distance(s, t[..n]) + 1, Distance(s[..m], t) + 1), Distance(s[..m], t[..n]) + Cost(s[m], t[n]))
  }

  // ---------------------------------------------------------------- the two-row loop

  /** curr or prev after row i: distances of the first i characters to every prefix of s2. */
  ghost predicate Row(row: seq<int>, s1: string, s2: string, i: nat, upTo: nat) {
    && i <= |s1| && upTo <= |s2| + 1 <= |row|
    && forall j :: 0 <= j < upTo ==> row[j] == Distance(s1[..i], s2[..j])
  }

  method Levenshtein(s1: string, s2: string) returns (distance: nat)
    ensures distance == Distance(s1, s2)
  {
    var len1, len2 := |s1|, |s2|;
    if len1 == 0 {
      return len2;
    }
    if len2 == 0 {
      return len1;
    }
    var prev, curr := new int[len2 + 1], new int[len2 + 1];
    for j := 0 to len2 + 1
      invariant forall k :: 0 <= k < j ==> prev[k] == k
    {
      prev[j] := j;
    }
    var i := 1;
    assert Row(prev[..], s1, s2, 0, len2 + 1);
    while i <= len1
      invariant 1 <= i <= len1 + 1 && prev.Length == curr.Length == len2 + 1 && prev != curr
      invariant fresh(prev) && fresh(curr)
      invariant Row(prev[..], s1, s2, i - 1, len2 + 1)
    {
      FillRow(prev, curr, s1, s2, i);
      prev, curr := curr, prev;
      i := i + 1;
    }
    assert s1[..len1] == s1 && s2[..len2] == s2;
    assert prev[..][len2] == prev[len2];
    return prev[len2];
  }

  /** The inner loop: row i from row i - 1. */
  method FillRow(prev: array<int>, curr: array<int>, s1: string, s2: string, i: nat)
    requires 1 <= i <= |s1| && prev.Length == curr.Length == |s2| + 1 && prev != curr
    requires Row(prev[..], s1, s2, i - 1, |s2| + 1)
    modifies curr
    ensures Row(curr[..], s1, s2, i, |s2| + 1)
  {
    hide Distance;
    curr[0] := i;
    EmptyPrefix(s1[..i]);
    assert s2[..0] == "";
    var j := 1;
    while j <= |s2|
      invariant 1 <= j <= |s2| + 1
      invariant Row(curr[..], s1, s2, i, j)
    {
      var cost := if s1[i - 1] == s2[j - 1] then 0 else 1;
      Recurrence(s1, s2, i, j);
      assert prev[..][j] == prev[j] && prev[..][j - 1] == prev[j - 1] && curr[..][j - 1] == curr[j - 1];
      curr[j] := curr[j - 1] + 1;
      var insert := prev[j] + 1;
      if insert < curr[j] {
        curr[j] := insert;
      }
      var replace := prev[j - 1] + cost;
      if replace < curr[j] {
        curr[j] := replace;
      }
      j := j + 1;
    }
  }

  lemma Recurrence(s1: string, s2: string, i: nat, j: nat)
    requires 1 <= i <= |s1| && 1 <= j <= |s2|
    ensures Distance(s1[..i], s2[..j])
         == Min(Min(Distance(s1[..i], s2[..j - 1]) + 1, Distance(s1[..i - 1], s2[..j]) + 1),
                Distance(s1[..i - 1], s2[..j - 1]) + Cost(s1[i - 1], s2[j - 1]))
  {
    hide Distance;
    var s, t := s1[..i], s2[..j];
    assert s[..i - 1] == s1[..i - 1] && t[..j - 1] == s2[..j - 1];
    ByLastCharacters(s, t);
  }

  lemma ByLastCharacters(s: string, t: string)
    requires s != "" && t != ""
    ensures var s', t' := s[..|s| - 1], t[..|t| - 1];
            Distance(s, t) == Min(Min(Distance(s, t') + 1, Distance(s', t) + 1),
                                  Distance(s', t') + Cost(s[|s| - 1], t[|t| - 1]))
  {}

  lemma EmptyPrefix(s: string)
    ensures Distance(s, "") == |s| && Distance("", s) == |s|
  {}

  // ---------------------------------------------------------------- a metric

  lemma {:induction false} Symmetric(s: string, t: string)
    ensures Distance(s, t) == Distance(t, s)
    decreases |s| + |t|
  {
    if s != "" && t != "" {
      var s', t' := s[..|s| - 1], t[..|t| - 1];
      Symmetric(s, t');
      Symmetric(s', t);
      Symmetric(s', t');
    }
  }

  lemma {:induction false} ZeroOnlyOnEqual(s: string, t: string)
    ensures Distance(s, t) == 0 <==> s == t
    decreases |s| + |t|
  {
    if s != "" && t != "" {
      var s', t' := s[..|s| - 1], t[..|t| - 1];
      ZeroOnlyOnEqual(s', t');
      assert s == s' + [s[|s| - 1]] && t == t' + [t[|t| - 1]];
    }
  }

  /** Between the difference of the lengths and the longer length. */
  lemma {:induction false} Bounds(s: string, t: string)
    ensures |s| - |t| <= Distance(s, t) && |t| - |s| <= Distance(s, t)
    ensures Distance(s, t) <= |s| || Distance(s, t) <= |t|
    decreases |s| + |t|
  {
    if s != "" && t != "" {
      var s', t' := s[..|s| - 1], t[..|t| - 1];
      Bounds(s, t');
      Bounds(s', t);
      Bounds(s', t');
    }
  }

  lemma {:induction false} Triangle(a: string, b: string, c: string)
    ensures Distance(a, c) <= Distance(a, b) + Distance(b, c)
    decreases |a| + |b| + |c|
  {
    if a == "" || b == "" || c == "" {
      Bounds(a, b);
      Bounds(b, c);
      Bounds(a, c);
    } else {
      var a', b', c' := a[..|a| - 1], b[..|b| - 1], c[..|c| - 1];
      Triangle(a', b, c);
      Triangle(a, b, c');
      Triangle(a, b', c);
      Triangle(a', b', c);
      Triangle(a, b', c');
      Triangle(a', b', c');
      Triangle(a', b, c');
    }
  }

  // ---------------------------------------------------------------- the least number of edits

  lemma {:induction false} CommonSuffix(s: string, t: string, suffix: string)
    ensures Distance(s + suffix, t + suffix) <= Distance(s, t)
    decreases |suffix|
  {
    hide Distance;
    if suffix == "" {
      assert s + suffix == s && t + suffix == t;
    } else {
      var n := |suffix| - 1;
      CommonSuffix(s, t, suffix[..n]);
      var a, b := s + suffix, t + suffix;
      assert a[..|a| - 1] == s + suffix[..n] && b[..|b| - 1] == t + suffix[..n];
      ByLastCharacters(a, b);
    }
  }

  lemma OneEditApart(e: Edit, s: string)
    requires Applies(e, s)
    ensures Distance(s, Apply(e, s)) <= 1
  {
    hide Distance;
    var p := s[..e.at];
    ZeroOnlyOnEqual(p, p);
    if e.Insert? {
      var q := p + [e.c];
      assert q[..|q| - 1] == p;
      LastAdded(p, q);
      CommonSuffix(p, q, s[e.at..]);
      assert s == p + s[e.at..];
    } else {
      var q := s[..e.at + 1];
      assert q[..|q| - 1] == p && s == q + s[e.at + 1..];
      if e.Delete? {
        LastAdded(p, q);
        Symmetric(p, q);
        CommonSuffix(q, p, s[e.at + 1..]);
      } else {
        var r := p + [e.c];
        assert r[..|r| - 1] == p;
        ByLastCharacters(q, r);
        CommonSuffix(q, r, s[e.at + 1..]);
      }
    }
  }

  lemma LastAdded(p: string, q: string)
    requires q != "" && q[..|q| - 1] == p
    ensures Distance(p, q) <= 1
  {
    hide Distance;
    ZeroOnlyOnEqual(p, p);
    EmptyPrefix(q);
    if p != "" {
      ByLastCharacters(p, q);
    }
  }

  /** No script is shorter than the distance. */
  lemma {:induction false} ScriptsAreLong(script: seq<Edit>, s: string, t: string)
    requires Turns(script, s, t)
    ensures Distance(s, t) <= |script|
  {
    hide Distance;
    if script == [] {
      ZeroOnlyOnEqual(s, t);
    } else {
      var next := Apply(script[0], s);
      OneEditApart(script[0], s);
      ScriptsAreLong(script[1..], next, t);
      Triangle(s, next, t);
    }
  }

  lemma TurnsCons(e: Edit, rest: seq<Edit>, s: string, next: string, t: string)
    requires Applies(e, s) && Apply(e, s) == next && Turns(rest, next, t)
    ensures Turns([e] + rest, s, t)
  {
    hide Apply, Applies;
    var script := [e] + rest;
    assert script[0] == e && script[1..] == rest;
  }

  lemma {:induction false} TurnsConcat(a: seq<Edit>, b: seq<Edit>, s: string, mid: string, t: string)
    requires Turns(a, s, mid) && Turns(b, mid, t)
    ensures Turns(a + b, s, t)
    decreases |a|
  {
    hide Apply, Applies;
    if a == [] {
      assert a + b == b;
    } else {
      var next := Apply(a[0], s);
      TurnsConcat(a[1..], b, next, mid, t);
      TurnsCons(a[0], a[1..] + b, s, next, t);
      assert a + b == [a[0]] + (a[1..] + b);
    }
  }

  lemma ApplyWithSuffix(e: Edit, s: string, suffix: string)
    requires Applies(e, s)
    ensures Applies(e, s + suffix) && Apply(e, s + suffix) == Apply(e, s) + suffix
  {
    var t := s + suffix;
    assert t[..e.at] == s[..e.at];
    if e.Insert? {
      assert t[e.at..] == s[e.at..] + suffix;
      Regroup(s[..e.at] + [e.c], s[e.at..], suffix);
    } else {
      assert t[e.at + 1..] == s[e.at + 1..] + suffix;
      if e.Delete? {
        Regroup(s[..e.at], s[e.at + 1..], suffix);
      } else {
        Regroup(s[..e.at] + [e.c], s[e.at + 1..], suffix);
      }
    }
  }

  lemma Regroup(a: string, b: string, c: string)
    ensures a + (b + c) == (a + b) + c
  {}

  /** A script leaves what follows alone. */
  lemma {:induction false} TurnsWithSuffix(script: seq<Edit>, s: string, t: string, suffix: string)
    requires Turns(script, s, t)
    ensures Turns(script, s + suffix, t + suffix)
  {
    if script != [] {
      hide Apply, Applies;
      ApplyWithSuffix(script[0], s, suffix);
      TurnsWithSuffix(script[1..], Apply(script[0], s), t, suffix);
    }
  }

  lemma OneTurn(e: Edit, s: string, t: string)
    requires Applies(e, s) && Apply(e, s) == t
    ensures Turns([e], s, t)
  {
    hide Apply, Applies;
    var none: seq<Edit> := [];
    assert Turns(none, t, t);
    TurnsCons(e, none, s, t, t);
    assert [e] + none == [e];
  }

  lemma ApplyLast(p: string, c: char)
    ensures Applies(Insert(|p|, c), p) && Apply(Insert(|p|, c), p) == p + [c]
    ensures Applies(Delete(|p|), p + [c]) && Apply(Delete(|p|), p + [c]) == p
  {
    var q := p + [c];
    assert p[..|p|] == p && p[|p|..] == "";
    assert q[..|p|] == p && q[|p| + 1..] == "";
  }

  lemma TakeLast(q: string)
    requires q != ""
    ensures q == q[..|q| - 1] + [q[|q| - 1]]
  {}

  /** Adding or removing the last character. */
  lemma LastTurns(p: string, q: string)
    requires q != "" && q[..|q| - 1] == p
    ensures Turns([Insert(|p|, q[|p|])], p, q) && Turns([Delete(|p|)], q, p)
  {
    hide Turns, Apply, Applies;
    TakeLast(q);
    var c := q[|p|];
    ApplyLast(p, c);
    OneTurn(Insert(|p|, c), p, q);
    OneTurn(Delete(|p|), q, p);
  }

  lemma NoEdits(s: string)
    ensures Turns([], s, s)
  {}

  /** Some script is as short as the distance. */
  lemma {:induction false} ShortestScript(s: string, t: string) returns (script: seq<Edit>)
    ensures Turns(script, s, t) && |script| == Distance(s, t)
    decreases |s| + |t|
  {
    hide Distance, Turns;
    EmptyPrefix(s);
    EmptyPrefix(t);
    if s == "" && t == "" {
      NoEdits(s);
      return [];
    }
    if s != "" && t != "" {
      ByLastCharacters(s, t);
    }
    if t != "" && (s == "" || Distance(s, t) == Distance(s, t[..|t| - 1]) + 1) {
      var t' := t[..|t| - 1];
      EmptyPrefix(t');
      script := ShortestScript(s, t');
      LastTurns(t', t);
      TurnsConcat(script, [Insert(|t'|, t[|t'|])], s, t', t);
      script := script + [Insert(|t'|, t[|t'|])];
    } else if s != "" && (t == "" || Distance(s, t) == Distance(s[..|s| - 1], t) + 1) {
      var s' := s[..|s| - 1];
      EmptyPrefix(s');
      script := ShortestScript(s', t);
      LastTurns(s', s);
      TurnsConcat([Delete(|s'|)], script, s, s', t);
      script := [Delete(|s'|)] + script;
    } else {
      var s', t' := s[..|s| - 1], t[..|t| - 1];
      var x, y := s[|s'|], t[|t'|];
      script := ShortestScript(s', t');
      TurnsWithSuffix(script, s', t', [x]);
      assert s == s' + [x] && t == t' + [y];
      if x != y {
        var e := Replace(|t'|, y);
        OneTurn(e, t' + [x], t);
        TurnsConcat(script, [e], s, t' + [x], t);
        script := script + [e];
      }
    }
  }

  /** The distance is the least number of edits that turn one string into the other. */
  lemma DistanceIsMinimum(s: string, t: string)
    ensures exists script :: Turns(script, s, t) && |script| == Distance(s, t)
    ensures forall script :: Turns(script, s, t) ==> |script| >= Distance(s, t)
  {
    var shortest := ShortestScript(s, t);
    forall script | Turns(script, s, t)
      ensures |script| >= Distance(s, t)
    {
      ScriptsAreLong(script, s, t);
    }
  }
}
