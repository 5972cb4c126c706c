/** The route tree as a value: what adding a route and collecting all routes mean. */
module Trie {
  import opened Basics
  import opened RoutePaths

  const MAX_CHILDREN: nat := 32
  const SEGMENT_SIZE: nat := 128
  const MAX_ROUTES: nat := 256

  /** The child segments of every node, in order of creation, and the nodes at which a route ends. */
  datatype Trie = Trie(kids: map<Path, seq<string>>, leaves: set<Path>)

  const EMPTY: Trie := Trie(map[[] := []], {})

  // ---------------------------------------------------------------- invariant

  predicate Fits(p: Path) {
    Good(p) && forall i :: 0 <= i < |p| ==> |p[i]| < SEGMENT_SIZE
  }

  function Parent(p: Path): Path
    requires p != []
  {
    p[..|p| - 1]
  }

  ghost predicate NodeOk(t: Trie, p: Path)
    requires p in t.kids
  {
    && Fits(p) && Distinct(t.kids[p]) && |t.kids[p]| <= MAX_CHILDREN
    && (p != [] ==> Parent(p) in t.kids)
    && forall s :: s in t.kids[p] <==> p + [s] in t.kids
  }

  ghost predicate Tree(t: Trie) {
    && [] in t.kids && t.leaves <= t.kids.Keys
    && forall p :: p in t.kids ==> NodeOk(t, p)
  }

  predicate IsPrefix(p: Path, q: Path) {
    |p| <= |q| && q[..|p|] == p
  }

  /** Every node lies on the way to a route of the set. */
  ghost predicate Covered(t: Trie, routes: set<Path>) {
    forall p :: p in t.kids ==> p == [] || exists q :: q in routes && IsPrefix(p, q)
  }

  // ---------------------------------------------------------------- adding a route

  function WithChild(t: Trie, p: Path, s: string): Trie
    requires p in t.kids
  {
    Trie(t.kids[p := t.kids[p] + [s]][p + [s] := []], t.leaves)
  }

  function Extend(t: Trie, p: Path, s: string): Trie
    requires p in t.kids
  {
    if s in t.kids[p] then t else WithChild(t, p, s)
  }

  /** From node p downwards, creating what is missing. */
  ghost function Grow(t: Trie, p: Path, rest: Path): Trie
    requires Tree(t) && p in t.kids && Fits(p + rest) && CanGrow(t, p, rest)
    decreases |rest|
  {
    if rest == [] then Trie(t.kids, t.leaves + {p})
    else
      ExtendKeeps(t, p, rest);
      Grow(Extend(t, p, rest[0]), p + [rest[0]], rest[1..])
  }

  /** No node on the way needs a child beyond its 32nd. */
  ghost predicate CanGrow(t: Trie, p: Path, rest: Path)
    requires p in t.kids
    decreases |rest|
  {
    rest == [] ||
    (&& (rest[0] in t.kids[p] || |t.kids[p]| < MAX_CHILDREN)
     && p + [rest[0]] in Extend(t, p, rest[0]).kids
     && CanGrow(Extend(t, p, rest[0]), p + [rest[0]], rest[1..]))
  }

  lemma ExtendKeeps(t: Trie, p: Path, rest: Path)
    requires Tree(t) && p in t.kids && rest != [] && Fits(p + rest)
    requires rest[0] in t.kids[p] || |t.kids[p]| < MAX_CHILDREN
    ensures Tree(Extend(t, p, rest[0])) && p + [rest[0]] in Extend(t, p, rest[0]).kids
    ensures (p + [rest[0]]) + rest[1..] == p + rest
  {
    var s := rest[0];
    assert (p + [s]) + rest[1..] == p + rest;
    assert NodeOk(t, p);
    if s !in t.kids[p] {
      NewChild(t, p, s) by {
        FitsPrefix(p + rest, |p| + 1);
        assert (p + rest)[..|p| + 1] == p + [s];
      }
    }
  }

  lemma FitsPrefix(p: Path, n: nat)
    requires Fits(p) && n <= |p|
    ensures Fits(p[..n])
  {}

  lemma ParentIsNode(t: Trie, p: Path)
    requires Tree(t) && p != []
    ensures p in t.kids ==> Parent(p) in t.kids
  {
    if p in t.kids {
      assert NodeOk(t, p);
    }
  }

  lemma NewChild(t: Trie, p: Path, s: string)
    requires Tree(t) && p in t.kids && s !in t.kids[p] && |t.kids[p]| < MAX_CHILDREN && Fits(p + [s])
    ensures Tree(WithChild(t, p, s))
  {
    hide Fits, Distinct;
    var t' := WithChild(t, p, s);
    assert NodeOk(t, p) && p + [s] !in t.kids;
    assert Parent(p + [s]) == p;
    MoreDistinct(t.kids[p], s);
    forall q | q in t'.kids
      ensures NodeOk(t', q)
    {
      forall x
        ensures x in t'.kids[q] <==> q + [x] in t'.kids
      {
        ChildOfNew(t, p, s, q, x);
      }
      if q != p + [s] {
        assert NodeOk(t, q);
      } else {
        NoneDistinct<string>();
      }
    }
  }

  lemma NoneDistinct<T>()
    ensures Distinct<T>([])
  {}

  lemma MoreDistinct<T>(a: seq<T>, x: T)
    requires Distinct(a) && x !in a
    ensures Distinct(a + [x])
  {
    forall i | 0 <= i < |a|
      ensures a[i] != x
    {
      assert a[i] in a;
    }
  }

  lemma KidsAreNodes(t: Trie, q: Path, x: string)
    requires Tree(t) && q in t.kids
    ensures x in t.kids[q] <==> q + [x] in t.kids
  {
    assert NodeOk(t, q);
  }

  lemma ParentOf(q: Path, x: string)
    ensures q + [x] != [] && Parent(q + [x]) == q && (q + [x])[|q|] == x
  {}

  lemma ChildOfNew(t: Trie, p: Path, s: string, q: Path, x: string)
    requires Tree(t) && p in t.kids && p + [s] !in t.kids && (q in t.kids || q == p + [s])
    ensures x in WithChild(t, p, s).kids[q] <==> q + [x] in WithChild(t, p, s).kids
  {
    hide Tree, Parent;
    ParentOf(p, s);
    ParentOf(q, x);
    if q == p + [s] {
      ParentIsNode(t, q + [x]);
    } else {
      KidsAreNodes(t, q, x);
    }
  }

  lemma GrowStep(t: Trie, p: Path, rest: Path)
    requires Tree(t) && p in t.kids && Fits(p + rest) && CanGrow(t, p, rest) && rest != []
    ensures rest[0] in t.kids[p] || |t.kids[p]| < MAX_CHILDREN
    ensures var t', p' := Extend(t, p, rest[0]), p + [rest[0]];
            && Tree(t') && p' in t'.kids && p' + rest[1..] == p + rest && CanGrow(t', p', rest[1..])
            && Grow(t, p, rest) == Grow(t', p', rest[1..])
  {
    ExtendKeeps(t, p, rest);
  }

  lemma GrowEnds(t: Trie, p: Path)
    requires Tree(t) && p in t.kids && Fits(p + []) && CanGrow(t, p, [])
    ensures p + [] == p && Grow(t, p, []) == Trie(t.kids, t.leaves + {p})
  {
    assert p + [] == p;
  }

  lemma {:induction false} GrowIsTree(t: Trie, p: Path, rest: Path)
    requires Tree(t) && p in t.kids && Fits(p + rest) && CanGrow(t, p, rest)
    ensures Tree(Grow(t, p, rest)) && Grow(t, p, rest).leaves == t.leaves + {p + rest}
    decreases |rest|
  {
    hide Tree;
    if rest == [] {
      assert p + rest == p;
      LeafKeeps(t, p);
    } else {
      ExtendKeeps(t, p, rest);
      GrowIsTree(Extend(t, p, rest[0]), p + [rest[0]], rest[1..]);
    }
  }

  lemma LeafKeeps(t: Trie, p: Path)
    requires Tree(t) && p in t.kids
    ensures Tree(Trie(t.kids, t.leaves + {p}))
  {
    var t' := Trie(t.kids, t.leaves + {p});
    forall q | q in t'.kids
      ensures NodeOk(t', q)
    {
      assert NodeOk(t, q);
    }
  }

  lemma {:induction false} GrowStaysCovered(t: Trie, p: Path, rest: Path, routes: set<Path>)
    requires Tree(t) && p in t.kids && Fits(p + rest) && CanGrow(t, p, rest)
    requires Covered(t, routes) && p + rest in routes
    ensures Covered(Grow(t, p, rest), routes)
    decreases |rest|
  {
    hide Tree;
    if rest != [] {
      ExtendKeeps(t, p, rest);
      ExtendStaysCovered(t, p, rest, routes);
      GrowStaysCovered(Extend(t, p, rest[0]), p + [rest[0]], rest[1..], routes);
    }
  }

  lemma ExtendStaysCovered(t: Trie, p: Path, rest: Path, routes: set<Path>)
    requires p in t.kids && rest != [] && Covered(t, routes) && p + rest in routes
    ensures Covered(Extend(t, p, rest[0]), routes)
  {
    var child := p + [rest[0]];
    assert (p + rest)[..|child|] == child;
    assert IsPrefix(child, p + rest);
  }

  // ---------------------------------------------------------------- when there is room

  /** The segments that may follow p on the way to a route of the set. */
  function Nexts(routes: set<Path>, p: Path): set<string> {
    set q | q in routes && |p| < |q| && q[..|p|] == p :: q[|p|]
  }

  ghost predicate NarrowEnough(routes: set<Path>) {
    forall p :: |Nexts(routes, p)| <= MAX_CHILDREN
  }

  lemma {:induction false} RoomToGrow(t: Trie, p: Path, rest: Path, routes: set<Path>)
    requires Tree(t) && p in t.kids && Fits(p + rest)
    requires Covered(t, routes) && p + rest in routes && NarrowEnough(routes)
    ensures CanGrow(t, p, rest)
    decreases |rest|
  {
    if rest != [] {
      hide Tree, Covered, NarrowEnough, Nexts, Fits;
      RoomForChild(t, p, rest, routes);
      ExtendKeeps(t, p, rest);
      ExtendStaysCovered(t, p, rest, routes);
      RoomToGrow(Extend(t, p, rest[0]), p + [rest[0]], rest[1..], routes);
    }
  }

  lemma RoomForChild(t: Trie, p: Path, rest: Path, routes: set<Path>)
    requires Tree(t) && p in t.kids && rest != []
    requires Covered(t, routes) && p + rest in routes && NarrowEnough(routes)
    ensures rest[0] in t.kids[p] || |t.kids[p]| < MAX_CHILDREN
  {
    var kids := t.kids[p];
    assert NodeOk(t, p);
    if rest[0] !in kids {
      var all := kids + [rest[0]];
      forall i | 0 <= i < |all|
        ensures all[i] in Nexts(routes, p)
      {
        if i < |kids| {
          var child := p + [kids[i]];
          assert kids[i] in kids && child in t.kids;
          var q :| q in routes && IsPrefix(child, q);
          assert q[..|p|] == q[..|child|][..|p|] == p && q[|p|] == q[..|child|][|p|];
        } else {
          assert (p + rest)[..|p|] == p && (p + rest)[|p|] == rest[0];
        }
      }
      DistinctWithin(all, Nexts(routes, p));
    }
  }

  // ---------------------------------------------------------------- collecting routes

  /** The nodes under p. */
  function Below(t: Trie, p: Path): set<Path> {
    set q | q in t.kids && |p| < |q| && q[..|p|] == p
  }

  lemma ChildIsBelow(t: Trie, p: Path, i: nat)
    requires Tree(t) && p in t.kids && i < |t.kids[p]|
    ensures p + [t.kids[p][i]] in t.kids && Below(t, p + [t.kids[p][i]]) < Below(t, p)
  {
    var child := p + [t.kids[p][i]];
    assert NodeOk(t, p) && t.kids[p][i] in t.kids[p];
    assert child[..|p|] == p && child in Below(t, p) && child !in Below(t, child);
    forall q | q in Below(t, child)
      ensures q in Below(t, p)
    {
      assert q[..|p|] == q[..|child|][..|p|];
    }
  }

  /** Depth first, a node before its children; the root itself is no route. */
  ghost function Preorder(t: Trie, p: Path): seq<Path>
    requires Tree(t) && p in t.kids
    decreases Below(t, p), 1, 0
  {
    (if p in t.leaves && p != [] then [p] else []) + UnderChildren(t, p, |t.kids[p]|)
  }

  ghost function UnderChildren(t: Trie, p: Path, n: nat): seq<Path>
    requires Tree(t) && p in t.kids && n <= |t.kids[p]|
    decreases Below(t, p), 0, n
  {
    if n == 0 then []
    else
      ChildIsBelow(t, p, n - 1);
      UnderChildren(t, p, n - 1) + Preorder(t, p + [t.kids[p][n - 1]])
  }

  /** Exactly the routes under p, each once. */
  ghost predicate Lists(found: seq<Path>, t: Trie, p: Path) {
    && Distinct(found)
    && forall q :: q in found <==> q in t.leaves && q != [] && IsPrefix(p, q)
  }

  lemma {:induction false} PreorderLists(t: Trie, p: Path)
    requires Tree(t) && p in t.kids
    ensures Lists(Preorder(t, p), t, p)
    decreases Below(t, p), 1, 0
  {
    hide Tree;
    var found, n := UnderChildren(t, p, |t.kids[p]|), |t.kids[p]|;
    ChildrenList(t, p, n);
    forall q | q in t.leaves && IsPrefix(p, q) && q != p
      ensures q in found
    {
      NextIsChild(t, p, q);
    }
    if p in t.leaves && p != [] {
      assert Preorder(t, p) == [p] + found;
      assert p !in found;
    } else {
      assert Preorder(t, p) == found;
    }
  }

  /** The first step from p towards a route below it is one of p's children. */
  lemma NextIsChild(t: Trie, p: Path, q: Path)
    requires Tree(t) && p in t.kids && q in t.leaves && IsPrefix(p, q) && q != p
    ensures exists i :: 0 <= i < |t.kids[p]| && IsPrefix(p + [t.kids[p][i]], q)
  {
    assert q[..|q|] == q;
    PrefixIsNode(t, q, |p| + 1);
    var s := q[|p|];
    assert q[..|p| + 1] == p + [s];
    assert NodeOk(t, p) && s in t.kids[p];
    var i :| 0 <= i < |t.kids[p]| && t.kids[p][i] == s;
    assert IsPrefix(p + [t.kids[p][i]], q);
  }

  lemma {:induction false} PrefixIsNode(t: Trie, q: Path, n: nat)
    requires Tree(t) && q in t.kids && n <= |q|
    ensures q[..n] in t.kids
    decreases |q|
  {
    if n == |q| {
      assert q[..n] == q;
    } else {
      assert NodeOk(t, q);
      PrefixIsNode(t, Parent(q), n);
      assert Parent(q)[..n] == q[..n];
    }
  }

  ghost predicate UnderSome(t: Trie, p: Path, n: nat, q: Path)
    requires p in t.kids && n <= |t.kids[p]|
  {
    exists i :: 0 <= i < n && IsPrefix(p + [t.kids[p][i]], q)
  }

  /** Exactly the routes under the first n children of p, each once. */
  ghost predicate ListsUnder(found: seq<Path>, t: Trie, p: Path, n: nat)
    requires p in t.kids && n <= |t.kids[p]|
  {
    && Distinct(found)
    && (forall q :: q in found <==> q in t.leaves && UnderSome(t, p, n, q))
    && forall q :: q in found ==> q != [] && q != p && IsPrefix(p, q)
  }

  /** Two children on the way to the same node are the same child. */
  lemma OneChild(t: Trie, p: Path, i: nat, j: nat, q: Path)
    requires Tree(t) && p in t.kids && i < |t.kids[p]| && j < |t.kids[p]|
    requires IsPrefix(p + [t.kids[p][i]], q) && IsPrefix(p + [t.kids[p][j]], q)
    ensures i == j
  {
    assert NodeOk(t, p);
    assert (p + [t.kids[p][i]])[|p|] == t.kids[p][i] && (p + [t.kids[p][j]])[|p|] == t.kids[p][j];
  }

  lemma DistinctConcat<T>(a: seq<T>, b: seq<T>)
    requires Distinct(a) && Distinct(b) && forall x :: x in a ==> x !in b
    ensures Distinct(a + b)
  {
    forall i, j | 0 <= i < j < |a + b|
      ensures (a + b)[i] != (a + b)[j]
    {
      if i < |a| <= j {
        assert a[i] in a && b[j - |a|] in b;
      }
    }
  }

  lemma ChildIsUnder(p: Path, s: string, q: Path)
    requires IsPrefix(p + [s], q)
    ensures q != [] && q != p && IsPrefix(p, q)
  {
    assert q[..|p|] == q[..|p| + 1][..|p|] == p;
  }

  lemma {:induction false} ChildrenList(t: Trie, p: Path, n: nat)
    requires Tree(t) && p in t.kids && n <= |t.kids[p]|
    ensures ListsUnder(UnderChildren(t, p, n), t, p, n)
    decreases Below(t, p), 0, n
  {
    hide Tree, Lists, Below, IsPrefix;
    if n == 0 {
    } else {
      hide ListsUnder, Preorder;
      var s := t.kids[p][n - 1];
      ChildIsBelow(t, p, n - 1);
      var left, right := UnderChildren(t, p, n - 1), Preorder(t, p + [s]);
      ChildrenList(t, p, n - 1);
      PreorderLists(t, p + [s]);
      JoinLists(t, p, n, left, right);
    }
  }

  lemma JoinLists(t: Trie, p: Path, n: nat, left: seq<Path>, right: seq<Path>)
    requires Tree(t) && p in t.kids && 0 < n <= |t.kids[p]| && ListsUnder(left, t, p, n - 1)
    requires p + [t.kids[p][n - 1]] in t.kids && Lists(right, t, p + [t.kids[p][n - 1]])
    ensures ListsUnder(left + right, t, p, n)
  {
    hide Tree, Distinct, IsPrefix;
    var s := t.kids[p][n - 1];
    forall q | q in left
      ensures q !in right
    {
      var i :| 0 <= i < n - 1 && IsPrefix(p + [t.kids[p][i]], q);
      if IsPrefix(p + [s], q) {
        OneChild(t, p, i, n - 1, q);
      }
    }
    forall q | q in right
      ensures UnderSome(t, p, n, q) && q != [] && q != p && IsPrefix(p, q)
    {
      ChildIsUnder(p, s, q);
    }
    forall q | q in t.leaves && UnderSome(t, p, n, q)
      ensures q in left + right
    {
      var i :| 0 <= i < n && IsPrefix(p + [t.kids[p][i]], q);
      if i == n - 1 {
        ChildIsUnder(p, s, q);
        assert q in right;
      } else {
        assert UnderSome(t, p, n - 1, q);
      }
    }
    DistinctConcat(left, right);
  }

  // ---------------------------------------------------------------- any list of paths

  /** The segments the builder works with: the path is first copied into 512 bytes. */
  function RouteOf(path: string): Path {
    Parts(Clip(path))
  }

  function RouteSet(paths: seq<string>): set<Path> {
    set i | 0 <= i < |paths| :: RouteOf(paths[i])
  }

  /** At most 32 ways on from any prefix, and segments of at most 127 characters. */
  ghost predicate Manageable(paths: seq<string>) {
    && NarrowEnough(RouteSet(paths))
    && forall i :: 0 <= i < |paths| ==> Fits(RouteOf(paths[i]))
  }

  /** The tree after adding the first n paths. */
  ghost function AfterAdding(paths: seq<string>, n: nat): (t: Trie)
    requires n <= |paths| && Manageable(paths)
    ensures Tree(t) && Covered(t, RouteSet(paths)) && t.leaves == RouteSet(paths[..n])
  {
    if n == 0 then
      EmptyTree(RouteSet(paths));
      EMPTY
    else
      var before := AfterAdding(paths, n - 1);
      var route := RouteOf(paths[n - 1]);
      OneMore(before, paths, n);
      Grow(before, [], route)
  }

  lemma NextAdding(paths: seq<string>, n: nat)
    requires 0 < n <= |paths| && Manageable(paths)
    ensures var before, route := AfterAdding(paths, n - 1), RouteOf(paths[n - 1]);
            && Fits(route) && [] + route == route && CanGrow(before, [], route)
            && AfterAdding(paths, n) == Grow(before, [], route)
  {
    hide Grow, CanGrow, Tree;
    OneMore(AfterAdding(paths, n - 1), paths, n);
  }

  lemma EmptyTree(routes: set<Path>)
    ensures Tree(EMPTY) && Covered(EMPTY, routes)
  {
    assert NodeOk(EMPTY, []) by {
      forall s: string
        ensures [] + [s] !in EMPTY.kids
      {
        assert |[] + [s]| == 1;
      }
    }
  }

  lemma OneMore(before: Trie, paths: seq<string>, n: nat)
    requires 0 < n <= |paths| && Manageable(paths)
    requires Tree(before) && Covered(before, RouteSet(paths)) && before.leaves == RouteSet(paths[..n - 1])
    ensures var route := RouteOf(paths[n - 1]);
            [] + route == route && CanGrow(before, [], route) && Tree(Grow(before, [], route))
            && Covered(Grow(before, [], route), RouteSet(paths))
            && Grow(before, [], route).leaves == RouteSet(paths[..n])
  {
    hide NodeOk, Covered, NarrowEnough, Fits, Grow, CanGrow;
    var route := RouteOf(paths[n - 1]);
    assert [] + route == route && route in RouteSet(paths);
    RoomToGrow(before, [], route, RouteSet(paths));
    GrowIsTree(before, [], route);
    GrowStaysCovered(before, [], route, RouteSet(paths));
    MoreRoutes(paths, n);
  }

  lemma MoreRoutes(paths: seq<string>, n: nat)
    requires 0 < n <= |paths|
    ensures RouteSet(paths[..n]) == RouteSet(paths[..n - 1]) + {RouteOf(paths[n - 1])}
  {
    hide RouteOf;
    var more, fewer := paths[..n], paths[..n - 1];
    forall i | 0 <= i < n - 1
      ensures RouteOf(paths[i]) in RouteSet(fewer)
    {
      assert fewer[i] == paths[i];
    }
    forall i | 0 <= i < n
      ensures RouteOf(paths[i]) in RouteSet(more)
    {
      assert more[i] == paths[i];
    }
  }

  function Texts(found: seq<Path>): (texts: seq<string>)
    ensures |texts| == |found| && forall i :: 0 <= i < |found| ==> texts[i] == ClippedText(found[i])
  {
    if found == [] then [] else Texts(found[..|found| - 1]) + [ClippedText(found[|found| - 1])]
  }

  function FirstOnes<T>(s: seq<T>, max: nat): seq<T> {
    if |s| <= max then s else s[..max]
  }

  lemma OneText(p: Path)
    ensures Texts([]) == [] && Texts([p]) == [ClippedText(p)]
  {
    assert [p][..0] == [];
  }

  lemma {:induction false} MoreTexts(found: seq<string>, a: seq<Path>, b: seq<Path>)
    ensures found + Texts(a + b) == (found + Texts(a)) + Texts(b)
  {
    assert Texts(a + b) == Texts(a) + Texts(b);
  }

  lemma FirstOnesAppend<T>(a: seq<T>, b: seq<T>, max: nat)
    ensures FirstOnes(FirstOnes(a, max) + b, max) == FirstOnes(a + b, max)
  {}

  lemma AlreadyFull<T>(a: seq<T>, b: seq<T>, max: nat)
    requires |a| == max
    ensures FirstOnes(a + b, max) == a
  {}

  lemma NotYetFull<T>(a: seq<T>, max: nat)
    requires |a| <= max
    ensures FirstOnes(a, max) == a
  {}

  lemma PreorderStarts(t: Trie, p: Path)
    requires Tree(t) && p in t.kids
    ensures UnderChildren(t, p, 0) == []
    ensures Preorder(t, p) == (if p in t.leaves && p != [] then [p] else []) + UnderChildren(t, p, |t.kids[p]|)
  {}

  lemma OneMoreChild(t: Trie, p: Path, i: nat, start: seq<Path>)
    requires Tree(t) && p in t.kids && i < |t.kids[p]| && p + [t.kids[p][i]] in t.kids
    ensures start + UnderChildren(t, p, i + 1) == (start + UnderChildren(t, p, i)) + Preorder(t, p + [t.kids[p][i]])
  {
    hide Tree, Preorder;
  }

  ghost function Collected(t: Trie): seq<string>
    requires Tree(t)
  {
    FirstOnes(Texts(Preorder(t, [])), MAX_ROUTES)
  }

  /** text is that of an added path other than the root. */
  ghost predicate IsAddedText(text: string, paths: seq<string>) {
    exists i :: 0 <= i < |paths| && RouteOf(paths[i]) != [] && text == Join(RouteOf(paths[i]))
  }

  lemma {:induction false} TextsAreDistinct(found: seq<Path>)
    requires Distinct(found)
    requires forall i :: 0 <= i < |found| ==> Good(found[i]) && |Join(found[i])| <= PATH_CLIP
    ensures Distinct(Texts(found))
    ensures forall i :: 0 <= i < |found| ==> Texts(found)[i] == Join(found[i])
  {
    hide Join, ClippedText, Texts, Good;
    var texts := Texts(found);
    forall i | 0 <= i < |found|
      ensures texts[i] == Join(found[i])
    {
      TextThatFits(found[i]);
    }
    forall i, j | 0 <= i < j < |texts|
      ensures texts[i] != texts[j]
    {
      if texts[i] == texts[j] {
        JoinIsInjective(found[i], found[j]);
      }
    }
  }

  /**
   * After adding any manageable list of paths whose texts fit the buffer, collecting gives each route other than the
   * root exactly once, as text, up to the limit of 256.
   */
  lemma CollectedAreTheAdded(paths: seq<string>)
    requires Manageable(paths)
    requires forall i :: 0 <= i < |paths| ==> |Join(RouteOf(paths[i]))| <= PATH_CLIP
    ensures var routes := Collected(AfterAdding(paths, |paths|));
            var all := RouteSet(paths) - {[]};
            && Distinct(routes)
            && |routes| == (if |all| <= MAX_ROUTES then |all| else MAX_ROUTES)
            && (forall text :: text in routes ==> IsAddedText(text, paths))
            && (|all| <= MAX_ROUTES ==> forall text :: IsAddedText(text, paths) ==> text in routes)
  {
    hide Tree, Covered, Manageable, RouteOf, Grow, Preorder, Join, ClippedText, Texts, Good;
    var t := AfterAdding(paths, |paths|);
    assert paths[..|paths|] == paths;
    var found := RootListed(t);
    DistinctWithin(found, RouteSet(paths) - {[]});
    forall i | 0 <= i < |found|
      ensures Good(found[i]) && |Join(found[i])| <= PATH_CLIP && IsAddedText(Join(found[i]), paths)
    {
      assert found[i] in found;
      var k :| 0 <= k < |paths| && RouteOf(paths[k]) == found[i];
      ManageableFits(paths, k);
    }
    TextsAreDistinct(found);
    var texts := Texts(found);
    forall text | IsAddedText(text, paths)
      ensures text in texts
    {
      var i :| 0 <= i < |paths| && RouteOf(paths[i]) != [] && text == Join(RouteOf(paths[i]));
      assert RouteOf(paths[i]) in RouteSet(paths);
      assert RouteOf(paths[i]) in found;
      var k :| 0 <= k < |found| && found[k] == RouteOf(paths[i]);
      assert texts[k] == text;
    }
  }

  lemma ManageableFits(paths: seq<string>, i: nat)
    requires Manageable(paths) && i < |paths|
    ensures Good(RouteOf(paths[i]))
  {}

  lemma RootListed(t: Trie) returns (found: seq<Path>)
    requires Tree(t)
    ensures [] in t.kids && found == Preorder(t, []) && Distinct(found)
    ensures forall q :: q in found <==> q in t.leaves - {[]}
  {
    found := Preorder(t, []);
    PreorderLists(t, []);
    forall q: Path
      ensures IsPrefix([], q)
    {
    }
  }

  lemma {:induction false} CleanText(p: Path)
    requires Good(p)
    ensures '\0' !in ClippedText(p)
  {
    if p != [] {
      CleanText(p[..|p| - 1]);
      assert GoodSegment(p[|p| - 1]);
    }
  }

  lemma CollectedAreClean(t: Trie)
    requires Tree(t)
    ensures forall i :: 0 <= i < |Collected(t)| ==> '\0' !in Collected(t)[i]
  {
    var found := RootListed(t);
    forall i | 0 <= i < |found|
      ensures '\0' !in Texts(found)[i]
    {
      assert found[i] in found && NodeOk(t, found[i]);
      CleanText(found[i]);
    }
  }
}
