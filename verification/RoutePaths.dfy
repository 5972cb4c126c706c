/** Routes as text and as lists of segments. */
module RoutePaths {
  import opened PathText

  type Path = seq<string>

  const PATH_CLIP: nat := 511

  predicate GoodSegment(s: string) {
    s != "" && '/' !in s && '\0' !in s
  }

  predicate Good(p: Path) {
    forall i :: 0 <= i < |p| ==> GoodSegment(p[i])
  }

  /** Segments between slashes, without the empty ones. */
  function Parts(s: string): (p: Path)
    decreases |s|
  {
    if s == "" then []
    else
      var i := FirstSlash(s);
      (if i > 0 then [s[..i]] else []) + if i < |s| then Parts(s[i + 1..]) else []
  }

  /** What a buffer of 512 bytes keeps of s. */
  function Clip(s: string): (r: string)
    ensures |r| <= PATH_CLIP
  {
    ClipTo(s, PATH_CLIP)
  }

  /** The route as text: every segment behind a slash. */
  function Join(p: Path): string {
    if p == [] then "" else Join(p[..|p| - 1]) + "/" + p[|p| - 1]
  }

  /** The text built while descending, clipped to the buffer at every level. */
  function ClippedText(p: Path): string {
    if p == [] then "" else Clip(ClippedText(p[..|p| - 1]) + "/" + p[|p| - 1])
  }

  // ---------------------------------------------------------------- round trip

  lemma {:induction false} PartsAreGood(s: string)
    requires '\0' !in s
    ensures Good(Parts(s))
    decreases |s|
  {
    if s != "" {
      hide FirstSlash;
      var i := FirstSlash(s);
      var first := if i > 0 then [s[..i]] else [];
      var later := if i < |s| then Parts(s[i + 1..]) else [];
      if i < |s| {
        PartsAreGood(s[i + 1..]);
      }
      assert Good(first) && Good(later);
      assert Parts(s) == first + later;
    }
  }

  lemma {:induction false} JoinFront(a: string, rest: Path)
    ensures Join([a] + rest) == "/" + a + Join(rest)
    decreases |rest|
  {
    var p := [a] + rest;
    if rest == [] {
      assert p[..0] == [] && Join(p) == Join(p[..0]) + "/" + a;
    } else {
      var n := |rest| - 1;
      assert p[..|p| - 1] == [a] + rest[..n];
      JoinFront(a, rest[..n]);
      assert ("/" + a + Join(rest[..n])) + "/" + rest[n] == "/" + a + (Join(rest[..n]) + "/" + rest[n]);
    }
  }

  lemma PartsAfterSlash(s: string)
    ensures Parts("/" + s) == Parts(s)
  {
    var t := "/" + s;
    assert FirstSlash(t) == 0 && t[1..] == s;
  }

  lemma PartsOfSegment(a: string, rest: string)
    requires a != "" && '/' !in a && (rest == "" || rest[0] == '/')
    ensures Parts(a + rest) == [a] + Parts(rest)
  {
    var s := a + rest;
    assert s[..|a|] == a;
    FirstSlashAt(s, |a|);
    if rest != "" {
      assert s[|a| + 1..] == rest[1..] && rest == "/" + rest[1..];
      PartsAfterSlash(rest[1..]);
    }
  }

  lemma PartsCut(s: string, i: nat)
    requires i < |s| && s[i] == '/' && '/' !in s[..i]
    ensures Parts(s) == (if i > 0 then [s[..i]] else []) + Parts(s[i + 1..])
  {
    FirstSlashAt(s, i);
  }

  lemma PartsWhole(s: string)
    requires '/' !in s
    ensures Parts(s) == if s == "" then [] else [s]
  {
    if s != "" {
      assert s[..|s|] == s;
      FirstSlashAt(s, |s|);
    }
  }

  /** Every slash separates, wherever it stands, and what is between two of them is one segment or nothing. */
  lemma {:induction false} PartsAtSlash(a: string, b: string)
    ensures Parts(a + "/" + b) == Parts(a) + Parts(b)
    ensures '/' !in a ==> Parts(a) == if a == "" then [] else [a]
    decreases |a|
  {
    hide Parts;
    var s, i := a + "/" + b, FirstSlash(a);
    if i < |a| {
      assert s[..i] == a[..i] && s[i + 1..] == a[i + 1..] + "/" + b && a[i] in a;
      PartsCut(s, i);
      PartsCut(a, i);
      PartsAtSlash(a[i + 1..], b);
    } else {
      assert a[..i] == a && s[..i] == a && s[i + 1..] == b;
      PartsCut(s, i);
      PartsWhole(a);
    }
  }

  /** Splitting undoes joining. */
  lemma {:induction false} PartsOfJoin(p: Path)
    requires Good(p)
    ensures Parts(Join(p)) == p
    decreases |p|
  {
    if p != [] {
      hide Join, Parts;
      var a, rest := p[0], p[1..];
      assert p == [a] + rest;
      JoinFront(a, rest);
      JoinStart(rest);
      PartsOfJoin(rest);
      assert "/" + (a + Join(rest)) == "/" + a + Join(rest);
      PartsAfterSlash(a + Join(rest));
      PartsOfSegment(a, Join(rest));
    }
  }

  lemma JoinStart(p: Path)
    ensures Join(p) == "" || Join(p)[0] == '/'
  {
    if p != [] {
      JoinFront(p[0], p[1..]);
      assert p == [p[0]] + p[1..];
    }
  }

  lemma JoinIsInjective(p: Path, q: Path)
    requires Good(p) && Good(q) && Join(p) == Join(q)
    ensures p == q
  {
    PartsOfJoin(p);
    PartsOfJoin(q);
  }

  lemma {:induction false} TextThatFits(p: Path)
    requires |Join(p)| <= PATH_CLIP
    ensures ClippedText(p) == Join(p)
  {
    if p != [] {
      TextThatFits(p[..|p| - 1]);
    }
  }
}
