/** Route patterns with '*' and '**': the one-pass matcher against backtracking semantics. */
module Glob {

  // ---------------------------------------------------------------- reference semantics

  /** '*' and a '**' that is not last stand for any run without '/'; a last '**' stands for anything. */
  ghost predicate Matches(pattern: string, path: string)
    decreases |pattern|, 0
  {
    if pattern == "" then path == ""
    else if pattern[0] != '*' then path != "" && path[0] == pattern[0] && Matches(pattern[1..], path[1..])
    else if pattern == "**" then true
    else RunThen(AfterStar(pattern), path)
  }

  ghost predicate RunThen(pattern: string, path: string)
    decreases |pattern|, 1
  {
    exists k :: IsRun(path, k) && Matches(pattern, path[k..])
  }

  predicate IsRun(path: string, k: int) {
    0 <= k <= |path| && '/' !in path[..k]
  }

  /** What follows the '*' or '**' at the front. */
  function AfterStar(pattern: string): (rest: string)
    requires pattern != "" && pattern[0] == '*'
    ensures |rest| < |pattern|
  {
    if |pattern| > 1 && pattern[1] == '*' then pattern[2..] else pattern[1..]
  }

  // ---------------------------------------------------------------- the matcher

  /** Length of the longest run without '/'. */
  function Run(path: string): (k: nat)
    ensures IsRun(path, k) && (k < |path| ==> path[k] == '/')
  {
    if path == "" || path[0] == '/' then 0
    else
      var k := Run(path[1..]);
      assert path[..1 + k] == [path[0]] + path[1..][..k];
      1 + k
  }

  predicate AllStars(pattern: string) {
    pattern == "" || (pattern[0] == '*' && AllStars(pattern[1..]))
  }

  /** One pass: every star takes the longest run. */
  predicate Greedy(pattern: string, path: string)
    decreases |pattern|
  {
    if pattern == "" || path == "" then path == "" && AllStars(pattern)
    else if pattern[0] != '*' then path[0] == pattern[0] && Greedy(pattern[1..], path[1..])
    else if pattern == "**" then true
    else Greedy(AfterStar(pattern), path[Run(path)..])
  }

  predicate Accepts(pattern: string, path: string) {
    pattern == path || Greedy(pattern, path)
  }

  method RouteMatches(pattern: string, path: string) returns (matches: bool)
    ensures matches == Accepts(pattern, path)
    ensures matches ==> Matches(pattern, path)
    ensures StarsEndSegments(pattern) ==> matches == Matches(pattern, path)
  {
    hide Matches, StarsEndSegments, AfterStar, AllStars;
    Sound(pattern, path);
    if StarsEndSegments(pattern) {
      CompleteWhen(pattern, path);
    }
    if pattern == path {
      return true;
    }
    var p: nat, q: nat := 0, 0;
    assert pattern[0..] == pattern && path[0..] == path;
    while p < |pattern| && q < |path|
      invariant p <= |pattern| && q <= |path|
      invariant Greedy(pattern, path) == Greedy(pattern[p..], path[q..])
      decreases |pattern| - p
    {
      GreedyStep(pattern, path, p, q);
      if pattern[p] == '*' {
        p := p + 1;
        if p < |pattern| && pattern[p] == '*' {
          p := p + 1;
          if p == |pattern| {
            return true;
          }
        }
        q := SkipRun(path, q);
      } else if pattern[p] == path[q] {
        p, q := p + 1, q + 1;
      } else {
        return false;
      }
    }
    p := SkipStars(pattern, p, path[q..]);
    matches := p == |pattern| && q == |path|;
  }

  method SkipRun(path: string, start: nat) returns (q: nat)
    requires start <= |path|
    ensures q == start + Run(path[start..])
  {
    q := start;
    while q < |path| && path[q] != '/'
      invariant start <= q <= |path| && start + Run(path[start..]) == q + Run(path[q..])
    {
      assert path[q..][1..] == path[q + 1..];
      q := q + 1;
    }
  }

  /** The loop over trailing stars, entered with the pattern or the path exhausted. */
  method SkipStars(pattern: string, start: nat, ghost rest: string) returns (p: nat)
    requires start <= |pattern| && (start == |pattern| || rest == "")
    ensures start <= p <= |pattern|
    ensures (p == |pattern| && rest == "") == Greedy(pattern[start..], rest)
  {
    p := start;
    while p < |pattern| && pattern[p] == '*'
      invariant start <= p <= |pattern| && AllStars(pattern[start..]) == AllStars(pattern[p..])
    {
      assert pattern[p..][1..] == pattern[p + 1..];
      p := p + 1;
    }
  }

  /** One round of the loop, with p and q still inside their strings. */
  lemma GreedyStep(pattern: string, path: string, p: nat, q: nat)
    requires p < |pattern| && q < |path|
    ensures pattern[p] != '*' ==>
              Greedy(pattern[p..], path[q..]) == (path[q] == pattern[p] && Greedy(pattern[p + 1..], path[q + 1..]))
    ensures var two := p + 1 < |pattern| && pattern[p + 1] == '*';
            var after := if two then p + 2 else p + 1;
            var last := two && after == |pattern|;
            pattern[p] == '*' ==>
              Greedy(pattern[p..], path[q..]) == (last || Greedy(pattern[after..], path[q + Run(path[q..])..]))
  {
    hide AllStars, Run;
    var pat, text := pattern[p..], path[q..];
    assert pat[1..] == pattern[p + 1..] && text[1..] == path[q + 1..];
    assert text[Run(text)..] == path[q + Run(text)..];
    if pattern[p] == '*' {
      if p + 1 < |pattern| && pattern[p + 1] == '*' {
        assert pat[2..] == pattern[p + 2..];
        assert pat == "**" <==> p + 2 == |pattern|;
      }
    }
  }

  // ---------------------------------------------------------------- sound for every pattern

  lemma {:induction false} StarsMatchNothing(pattern: string)
    requires AllStars(pattern)
    ensures Matches(pattern, "")
    decreases |pattern|
  {
    if pattern != "" && pattern != "**" {
      StarsMatchNothing(AfterStar(pattern));
      TakeNothing(pattern, "");
    }
  }

  lemma TakeRun(pattern: string, path: string, k: nat)
    requires IsRun(path, k) && Matches(pattern, path[k..])
    ensures RunThen(pattern, path)
  {}

  lemma {:induction false} GreedyIsSound(pattern: string, path: string)
    requires Greedy(pattern, path)
    ensures Matches(pattern, path)
    decreases |pattern|
  {
    if pattern == "" || path == "" {
      StarsMatchNothing(pattern);
    } else if pattern[0] != '*' {
      GreedyIsSound(pattern[1..], path[1..]);
    } else if pattern != "**" {
      GreedyIsSound(AfterStar(pattern), path[Run(path)..]);
      TakeRun(AfterStar(pattern), path, Run(path));
    }
  }

  /** Read as a pattern, every string matches itself. */
  lemma {:induction false} MatchesItself(pattern: string)
    ensures Matches(pattern, pattern)
    decreases |pattern|
  {
    if pattern != "" && pattern != "**" {
      if pattern[0] != '*' {
        MatchesItself(pattern[1..]);
      } else {
        var rest := AfterStar(pattern);
        MatchesItself(rest);
        TakeRun(rest, pattern, |pattern| - |rest|);
      }
    }
  }

  lemma Sound(pattern: string, path: string)
    ensures Accepts(pattern, path) ==> Matches(pattern, path)
  {
    if pattern == path {
      MatchesItself(pattern);
    } else if Greedy(pattern, path) {
      GreedyIsSound(pattern, path);
    }
  }

  // ---------------------------------------------------------------- complete exactly when stars end segments

  /** Every '*' is followed by '*', by '/' or by nothing. */
  predicate StarsEndSegments(pattern: string) {
    forall i :: 0 <= i < |pattern| && pattern[i] == '*' ==>
      i + 1 == |pattern| || pattern[i + 1] == '*' || pattern[i + 1] == '/'
  }

  lemma SuffixEndsSegments(pattern: string, n: nat)
    requires n <= |pattern| && StarsEndSegments(pattern)
    ensures StarsEndSegments(pattern[n..])
  {
    forall i | 0 <= i < |pattern[n..]| && pattern[n..][i] == '*'
      ensures i + 1 == |pattern[n..]| || pattern[n..][i + 1] == '*' || pattern[n..][i + 1] == '/'
    {
      assert pattern[n + i] == '*';
    }
  }

  lemma {:induction false} OnlyStarsMatchNothing(pattern: string)
    requires Matches(pattern, "")
    ensures AllStars(pattern)
    decreases |pattern|
  {
    if pattern != "" && pattern != "**" {
      OnlyStarsMatchNothing(AfterStar(pattern));
    }
  }

  /** If a star may take some run, what follows it may start after the longest run. */
  lemma {:induction false} LongestRunWorks(pattern: string, path: string, k: nat)
    requires StarsEndSegments(pattern) && (pattern == "" || pattern[0] == '*' || pattern[0] == '/')
    requires IsRun(path, k) && Matches(pattern, path[k..])
    ensures Matches(pattern, path[Run(path)..])
    decreases |pattern|
  {
    hide Matches, Run, StarsEndSegments;
    var r := Run(path);
    RunsEndBefore(path, k);
    if k < r {
      var rest := path[k..];
      assert rest[0] == path[..r][k];
      NeedsStar(pattern, rest);
      if pattern != "**" {
        var next := AfterStar(pattern);
        var j := TakenRun(pattern, rest);
        assert path[..k + j] == path[..k] + rest[..j] && rest[j..] == path[k + j..];
        AfterStarEndsSegments(pattern);
        LongestRunWorks(next, path, k + j);
        TakeNothing(pattern, path[r..]);
      } else {
        AnythingMatches(path[r..]);
      }
    }
  }

  lemma NeedsStar(pattern: string, path: string)
    requires Matches(pattern, path) && path != "" && path[0] != '/'
    requires pattern == "" || pattern[0] == '*' || pattern[0] == '/'
    ensures pattern != "" && pattern[0] == '*'
  {}

  lemma TakenRun(pattern: string, path: string) returns (j: nat)
    requires pattern != "" && pattern[0] == '*' && pattern != "**" && Matches(pattern, path)
    ensures IsRun(path, j) && Matches(AfterStar(pattern), path[j..])
  {
    j :| IsRun(path, j) && Matches(AfterStar(pattern), path[j..]);
  }

  lemma TakeNothing(pattern: string, path: string)
    requires pattern != "" && pattern[0] == '*' && pattern != "**" && Matches(AfterStar(pattern), path)
    ensures Matches(pattern, path)
  {
    assert path[0..] == path;
    TakeRun(AfterStar(pattern), path, 0);
  }

  lemma AnythingMatches(path: string)
    ensures Matches("**", path)
  {}

  lemma RunsEndBefore(path: string, k: nat)
    requires IsRun(path, k)
    ensures k <= Run(path)
  {
    forall j | 0 <= j < k
      ensures path[j] != '/'
    {
      assert path[..k][j] == path[j];
    }
  }

  lemma AfterStarEndsSegments(pattern: string)
    requires StarsEndSegments(pattern) && pattern != "" && pattern[0] == '*'
    ensures var next := AfterStar(pattern);
            StarsEndSegments(next) && (next == "" || next[0] == '*' || next[0] == '/')
  {
    SuffixEndsSegments(pattern, |pattern| - |AfterStar(pattern)|);
    if |pattern| > 1 && pattern[1] == '*' {
      assert pattern[1] == '*';
    } else {
      assert pattern[0] == '*';
    }
  }

  lemma {:induction false} GreedyIsComplete(pattern: string, path: string)
    requires StarsEndSegments(pattern) && Matches(pattern, path)
    ensures Greedy(pattern, path)
    decreases |pattern|
  {
    if pattern == "" || path == "" {
      OnlyStarsMatchNothing(pattern);
    } else if pattern[0] != '*' {
      SuffixEndsSegments(pattern, 1);
      GreedyIsComplete(pattern[1..], path[1..]);
    } else if pattern != "**" {
      var next := AfterStar(pattern);
      AfterStarEndsSegments(pattern);
      var k := TakenRun(pattern, path);
      LongestRunWorks(next, path, k);
      GreedyIsComplete(next, path[Run(path)..]);
    }
  }

  lemma CompleteWhen(pattern: string, path: string)
    requires StarsEndSegments(pattern)
    ensures Accepts(pattern, path) == Matches(pattern, path)
  {
    Sound(pattern, path);
    if Matches(pattern, path) {
      GreedyIsComplete(pattern, path);
    }
  }

  // ---------------------------------------------------------------- the path that other patterns miss

  function WithoutStars(pattern: string): (path: string)
    ensures '*' !in path
  {
    if pattern == "" then ""
    else if pattern[0] == '*' then WithoutStars(pattern[1..])
    else [pattern[0]] + WithoutStars(pattern[1..])
  }

  lemma WithoutFirstStars(pattern: string)
    requires pattern != "" && pattern[0] == '*'
    ensures WithoutStars(pattern) == WithoutStars(AfterStar(pattern))
  {
    var rest := pattern[1..];
    if rest != "" && rest[0] == '*' {
      assert rest[1..] == pattern[2..];
    }
  }

  /** The first character that is not a star exists and is not '/'. */
  predicate NextIsPlain(pattern: string) {
    pattern != "" && if pattern[0] == '*' then NextIsPlain(pattern[1..]) else pattern[0] != '/'
  }

  lemma {:induction false} MatchesWithoutStars(pattern: string)
    ensures Matches(pattern, WithoutStars(pattern))
    decreases |pattern|
  {
    if pattern != "" && pattern != "**" {
      if pattern[0] != '*' {
        MatchesWithoutStars(pattern[1..]);
      } else {
        var rest := AfterStar(pattern);
        MatchesWithoutStars(rest);
        WithoutFirstStars(pattern);
        TakeNothing(pattern, WithoutStars(pattern));
      }
    }
  }

  /** At a '/' or at the end, a plain character still to be matched fails. */
  lemma {:induction false} Stuck(pattern: string, path: string)
    requires NextIsPlain(pattern) && (path == "" || path[0] == '/')
    ensures !Greedy(pattern, path)
    decreases |pattern|
  {
    if path == "" {
      PlainIsNotStars(pattern);
    } else if pattern[0] == '*' {
      Stuck(AfterStar(pattern), path);
    }
  }

  lemma {:induction false} PlainIsNotStars(pattern: string)
    requires NextIsPlain(pattern)
    ensures !AllStars(pattern)
  {
    if pattern[0] == '*' {
      PlainIsNotStars(pattern[1..]);
    }
  }

  /** Without its stars, a pattern that starts with a '/' or with stars before one starts with '/'. */
  lemma {:induction false} FirstWithoutStars(pattern: string)
    ensures NextIsPlain(pattern) || WithoutStars(pattern) == "" || WithoutStars(pattern)[0] == '/'
    ensures WithoutStars(pattern) == "" ==> AllStars(pattern)
  {
    if pattern != "" && pattern[0] == '*' {
      FirstWithoutStars(pattern[1..]);
    }
  }

  lemma {:induction false} StarsEndThemselves(pattern: string)
    requires AllStars(pattern)
    ensures StarsEndSegments(pattern)
  {
    if pattern != "" {
      StarsEndThemselves(pattern[1..]);
      ConsEndsSegments(pattern);
    }
  }

  lemma ConsEndsSegments(pattern: string)
    requires pattern != "" && StarsEndSegments(pattern[1..])
    requires pattern[0] == '*' ==> |pattern| == 1 || pattern[1] == '*' || pattern[1] == '/'
    ensures StarsEndSegments(pattern)
  {
    forall i | 0 <= i < |pattern| && pattern[i] == '*'
      ensures i + 1 == |pattern| || pattern[i + 1] == '*' || pattern[i + 1] == '/'
    {
      if i > 0 {
        assert pattern[1..][i - 1] == '*';
      }
    }
  }

  lemma {:induction false} GreedyMisses(pattern: string)
    requires !StarsEndSegments(pattern)
    ensures !Greedy(pattern, WithoutStars(pattern))
    decreases |pattern|
  {
    var path := WithoutStars(pattern);
    FirstWithoutStars(pattern);
    if path == "" {
      StarsEndThemselves(pattern);
    } else if pattern[0] != '*' {
      if StarsEndSegments(pattern[1..]) {
        ConsEndsSegments(pattern);
      } else {
        GreedyMisses(pattern[1..]);
        assert path[1..] == WithoutStars(pattern[1..]);
      }
    } else {
      var rest := AfterStar(pattern);
      WithoutFirstStars(pattern);
      FirstWithoutStars(rest);
      if NextIsPlain(rest) {
        Stuck(rest, path[Run(path)..]);
      } else {
        assert path[Run(path)..] == path;
        RestStillFails(pattern);
        GreedyMisses(rest);
      }
    }
  }

  lemma RestStillFails(pattern: string)
    requires pattern != "" && pattern[0] == '*' && !StarsEndSegments(pattern) && !NextIsPlain(AfterStar(pattern))
    ensures !StarsEndSegments(AfterStar(pattern))
  {
    if StarsEndSegments(AfterStar(pattern)) {
      if |pattern| > 1 && pattern[1] == '*' {
        assert pattern[1..][1..] == pattern[2..];
        ConsEndsSegments(pattern[1..]);
      }
      ConsEndsSegments(pattern);
    }
  }

  /** The matcher agrees with the full semantics on every path exactly when every run of stars ends its segment. */
  lemma CompleteExactlyWhen(pattern: string)
    ensures (forall path :: Accepts(pattern, path) == Matches(pattern, path)) <==> StarsEndSegments(pattern)
  {
    if StarsEndSegments(pattern) {
      forall path
        ensures Accepts(pattern, path) == Matches(pattern, path)
      {
        CompleteWhen(pattern, path);
      }
    } else {
      var missed := WithoutStars(pattern);
      MatchesWithoutStars(pattern);
      GreedyMisses(pattern);
      assert missed != pattern by {
        var i :| 0 <= i < |pattern| && pattern[i] == '*';
      }
      assert Accepts(pattern, missed) != Matches(pattern, missed);
    }
  }
}
