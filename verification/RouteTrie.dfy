/** The route matcher as a linked tree of nodes, tied to the tree as a value. */
module RouteTrie {
  import opened PathText
  import opened RoutePaths
  import T = Trie
  import Similarity

  class Node {
    const segment: string
    ghost const path: Path
    var isLeaf: bool
    var children: seq<Node>

    constructor (segment: string, ghost path: Path)
      ensures this.segment == ClipTo(segment, T.SEGMENT_SIZE - 1) && this.path == path && !isLeaf && children == []
    {
      this.segment := ClipTo(segment, T.SEGMENT_SIZE - 1);
      this.path := path;
      isLeaf := false;
      children := [];
    }
  }

  ghost predicate ChildAt(byPath: map<Path, Node>, child: Node, p: Path) {
    p in byPath && byPath[p] == child
  }

  /** What the node of p carries: its last segment, its leaf mark and its children, in order. */
  ghost predicate Links(t: T.Trie, byPath: map<Path, Node>, p: Path,
      path: Path, segment: string, isLeaf: bool, children: seq<Node>)
    requires p in t.kids
  {
    && path == p && segment == (if p == [] then "" else p[|p| - 1])
    && (isLeaf <==> p in t.leaves)
    && |children| == |t.kids[p]|
    && forall i :: 0 <= i < |children| ==> ChildAt(byPath, children[i], p + [t.kids[p][i]])
  }

  ghost predicate LinkedIn(t: T.Trie, byPath: map<Path, Node>, p: Path)
    requires p in t.kids && p in byPath
    reads byPath[p]
  {
    Links(t, byPath, p, byPath[p].path, byPath[p].segment, byPath[p].isLeaf, byPath[p].children)
  }

  ghost predicate AllLinked(t: T.Trie, byPath: map<Path, Node>, nodes: set<Node>)
    requires byPath.Keys == t.kids.Keys
    reads nodes
  {
    forall p :: p in byPath ==> byPath[p] in nodes && LinkedIn(t, byPath, p)
  }

  /** Adding nodes elsewhere does not matter. */
  lemma StillLinks(t: T.Trie, m: map<Path, Node>, t': T.Trie, m': map<Path, Node>, p: Path,
      path: Path, segment: string, isLeaf: bool, children: seq<Node>)
    requires p in t.kids && p in t'.kids && Links(t, m, p, path, segment, isLeaf, children)
    requires t'.kids[p] == t.kids[p] && (p in t'.leaves <==> p in t.leaves)
    requires forall q :: q in m ==> q in m' && m'[q] == m[q]
    ensures Links(t', m', p, path, segment, isLeaf, children)
  {
    forall i | 0 <= i < |children|
      ensures ChildAt(m', children[i], p + [t'.kids[p][i]])
    {
      assert ChildAt(m, children[i], p + [t.kids[p][i]]);
    }
  }

  lemma LinksMore(t: T.Trie, m: map<Path, Node>, t': T.Trie, m': map<Path, Node>, p: Path,
      path: Path, segment: string, isLeaf: bool, children: seq<Node>, child: Node)
    requires p in t.kids && p in t'.kids && Links(t, m, p, path, segment, isLeaf, children)
    requires t'.kids[p] == t.kids[p] + [child.segment] && (p in t'.leaves <==> p in t.leaves)
    requires ChildAt(m', child, p + [child.segment])
    requires forall q :: q in m ==> q in m' && m'[q] == m[q]
    ensures Links(t', m', p, path, segment, isLeaf, children + [child])
  {
    forall i | 0 <= i < |children|
      ensures ChildAt(m', children[i], p + [t'.kids[p][i]])
    {
      assert ChildAt(m, children[i], p + [t.kids[p][i]]);
    }
  }

  lemma NewLinks(t: T.Trie, m: map<Path, Node>, p: Path, segment: string)
    requires p in t.kids && p != [] && p[|p| - 1] == segment && p !in t.leaves && t.kids[p] == []
    ensures Links(t, m, p, p, segment, false, [])
  {}

  class RouteMatcher {
    const root: Node
    var routeCount: nat
    ghost var trie: T.Trie
    ghost var byPath: map<Path, Node>
    ghost var nodes: set<Node>

    ghost predicate Valid()
      reads this, nodes
    {
      && T.Tree(trie) && byPath.Keys == trie.kids.Keys && byPath[[]] == root
      && AllLinked(trie, byPath, nodes)
    }

    constructor ()
      ensures Valid() && trie == T.EMPTY && routeCount == 0 && fresh(nodes)
    {
      root := new Node("", []);
      routeCount := 0;
      trie := T.EMPTY;
      new;
      byPath := map[[] := root];
      nodes := {root};
      T.EmptyTree({});
    }

    // -------------------------------------------------------------- adding

    /** The child of current with this segment, or none. */
    method FindChild(current: Node, segment: string, ghost p: Path) returns (child: Node?)
      requires Valid() && p in byPath && current == byPath[p]
      ensures child == null <==> segment !in trie.kids[p]
      ensures child != null ==> ChildAt(byPath, child, p + [segment])
    {
      hide T.Tree;
      assert LinkedIn(trie, byPath, p);
      for i := 0 to |current.children|
        invariant segment !in trie.kids[p][..i]
      {
        var c := current.children[i];
        assert ChildAt(byPath, c, p + [trie.kids[p][i]]);
        assert LinkedIn(trie, byPath, p + [trie.kids[p][i]]);
        if c.segment == segment {
          return c;
        }
        assert trie.kids[p][..i + 1] == trie.kids[p][..i] + [trie.kids[p][i]];
      }
      assert trie.kids[p][..|current.children|] == trie.kids[p];
      return null;
    }

    /** One step down, creating the child if it is missing. */
    method ChildFor(current: Node, segment: string, ghost p: Path, ghost rest: Path) returns (child: Node)
      requires Valid() && p in byPath && current == byPath[p]
      requires rest != [] && rest[0] == segment && T.Fits(p + rest)
      requires segment in trie.kids[p] || |trie.kids[p]| < T.MAX_CHILDREN
      modifies this`trie, this`byPath, this`nodes, current
      ensures Valid() && trie == T.Extend(old(trie), p, segment)
      ensures ChildAt(byPath, child, p + [segment])
      ensures fresh(nodes - old(nodes))
    {
      hide T.Tree, T.Extend, Links, T.Fits;
      T.ExtendKeeps(trie, p, rest);
      ExtendMeans(trie, p, segment);
      var found := FindChild(current, segment, p);
      if found != null {
        return found;
      }
      FitsInNode(p, rest);
      child := new Node(segment, p + [segment]);
      Attach(current, child, p);
    }

    lemma FitsInNode(p: Path, rest: Path)
      requires rest != [] && T.Fits(p + rest)
      ensures ClipTo(rest[0], T.SEGMENT_SIZE - 1) == rest[0]
    {
      assert (p + rest)[|p|] == rest[0];
    }

    lemma ExtendMeans(t: T.Trie, p: Path, s: string)
      requires p in t.kids
      ensures s in t.kids[p] ==> T.Extend(t, p, s) == t
    {}

    lemma ExtendAdds(t: T.Trie, p: Path, s: string)
      requires p in t.kids && s !in t.kids[p] && p + [s] !in t.kids
      ensures var t' := T.Extend(t, p, s);
              && t'.kids.Keys == t.kids.Keys + {p + [s]} && t'.leaves == t.leaves
              && t'.kids[p + [s]] == [] && t'.kids[p] == t.kids[p] + [s]
              && forall q :: q in t.kids && q != p ==> t'.kids[q] == t.kids[q]
    {}

    method Attach(current: Node, child: Node, ghost p: Path)
      requires Valid() && p in byPath && current == byPath[p] && child !in nodes
      requires child.path == p + [child.segment] && !child.isLeaf && child.children == []
      requires child.segment !in trie.kids[p] && T.Tree(T.Extend(trie, p, child.segment))
      modifies this`trie, this`byPath, this`nodes, current
      ensures Valid() && trie == T.Extend(old(trie), p, child.segment)
      ensures byPath == old(byPath)[p + [child.segment] := child] && nodes == old(nodes) + {child}
    {
      hide T.Tree, T.Extend, LinkedIn, AllLinked;
      BeforeAttach(p, child.segment);
      ghost var t, m, children := trie, byPath, current.children;
      current.children := current.children + [child];
      byPath := byPath[child.path := child];
      nodes := nodes + {child};
      trie := T.Extend(trie, p, child.segment);
      assert forall q :: q in m && q != p ==> LinkedIn(t, m, q);
      AttachLinks(t, m, current, children, child, p);
    }

    lemma BeforeAttach(p: Path, s: string)
      requires Valid() && p in byPath && s !in trie.kids[p]
      ensures p + [s] !in byPath && p + [s] !in trie.leaves && byPath[p] in nodes
      ensures Links(trie, byPath, p, byPath[p].path, byPath[p].segment, byPath[p].isLeaf, byPath[p].children)
      ensures forall q :: q in byPath ==> byPath[q] in nodes && LinkedIn(trie, byPath, q)
      ensures forall q :: q in byPath && q != p ==> byPath[q] != byPath[p]
    {
      hide T.Tree;
      KeyIsNew(p, s);
      OnePathEach();
      assert LinkedIn(trie, byPath, p);
    }

    lemma AttachLinks(t: T.Trie, m: map<Path, Node>, current: Node, children: seq<Node>, child: Node, p: Path)
      requires m.Keys == t.kids.Keys && p in m && m[p] == current && child.segment !in t.kids[p]
      requires child.path == p + [child.segment] && !child.isLeaf && child.children == []
      requires child.path !in m && child.path !in t.leaves && current.children == children + [child]
      requires trie == T.Extend(t, p, child.segment) && byPath == m[child.path := child] && child in nodes
      requires Links(t, m, p, current.path, current.segment, current.isLeaf, children)
      requires forall q :: q in m ==> m[q] in nodes && (q != p ==> LinkedIn(t, m, q))
      ensures byPath.Keys == trie.kids.Keys && AllLinked(trie, byPath, nodes)
    {
      ExtendAdds(t, p, child.segment);
      hide T.Extend, Links;
      forall q | q in byPath
        ensures LinkedIn(trie, byPath, q)
      {
        var n := byPath[q];
        if q == p {
          LinksMore(t, m, trie, byPath, p, n.path, n.segment, n.isLeaf, children, child);
        } else if q != child.path {
          StillLinks(t, m, trie, byPath, q, n.path, n.segment, n.isLeaf, n.children);
        } else {
          NewLinks(trie, byPath, q, child.segment);
        }
      }
    }

    lemma OnePathEach()
      requires Valid()
      ensures forall q :: q in byPath ==> byPath[q].path == q
    {
      forall q | q in byPath
        ensures byPath[q].path == q
      {
        assert LinkedIn(trie, byPath, q);
      }
    }

    lemma KeyIsNew(p: Path, s: string)
      requires Valid() && p in byPath && s !in trie.kids[p]
      ensures p + [s] !in trie.kids && p + [s] !in byPath && p + [s] !in trie.leaves
    {
      assert T.NodeOk(trie, p);
    }

    method MarkLeaf(current: Node, ghost p: Path)
      requires Valid() && p in byPath && current == byPath[p]
      modifies this`trie, current
      ensures Valid() && trie == T.Trie(old(trie).kids, old(trie).leaves + {p})
    {
      hide LinkedIn, Links, AllLinked;
      AllPlaced();
      OnePathEach();
      T.LeafKeeps(trie, p);
      Unfold(p);
      ghost var t, was := trie, current.isLeaf;
      current.isLeaf := true;
      trie := T.Trie(trie.kids, trie.leaves + {p});
      assert forall q :: q in byPath && q != p ==> LinkedIn(t, byPath, q);
      LeafLinks(t, current, p, was);
    }

    lemma AllPlaced()
      requires Valid()
      ensures forall q :: q in byPath ==> byPath[q] in nodes && LinkedIn(trie, byPath, q)
    {}

    lemma Unfold(p: Path)
      requires p in byPath && p in trie.kids && LinkedIn(trie, byPath, p)
      ensures Links(trie, byPath, p, byPath[p].path, byPath[p].segment, byPath[p].isLeaf, byPath[p].children)
    {}

    lemma LeafLinks(t: T.Trie, current: Node, p: Path, was: bool)
      requires byPath.Keys == t.kids.Keys && p in byPath && byPath[p] == current && current.isLeaf
      requires trie == T.Trie(t.kids, t.leaves + {p})
      requires Links(t, byPath, p, current.path, current.segment, was, current.children)
      requires forall q :: q in byPath ==> byPath[q] in nodes && (q != p ==> LinkedIn(t, byPath, q))
      ensures AllLinked(trie, byPath, nodes)
    {
      forall q | q in byPath && q != p
        ensures LinkedIn(trie, byPath, q)
      {
        var n := byPath[q];
        StillLinks(t, byPath, trie, byPath, q, n.path, n.segment, n.isLeaf, n.children);
      }
    }

    /** Cuts off one segment, possibly empty; next is where to go on if there was a slash. */
    method NextSegment(tmp: array<char>, at: nat, ghost text: string) returns (name: string, more: bool, next: nat)
      requires |text| < tmp.Length && at < |text| && '\0' !in text
      requires tmp[..][at..|text|] == text[at..] && tmp[|text|] == '\0'
      modifies tmp
      ensures more ==> at < next <= |text| && tmp[..][next..|text|] == text[next..]
      ensures tmp[|text|] == '\0'
      ensures Parts(text[at..]) == (if name != "" then [name] else []) + (if more then Parts(text[next..]) else [])
    {
      hide HoldsAt, TextAt, FirstSlash;
      ghost var left := text[at..];
      PartsStep(left);
      more, next := CutSegment(tmp, at, text);
      HeldIsRead(tmp[..], at, left[..FirstSlash(left)]);
      name := TextAt(tmp[..], at);
      if more {
        assert left[FirstSlash(left) + 1..] == text[next..];
      }
    }

    /** Walks the segments of the path from the root, creating what is missing, and marks where it ends. */
    method AddSegmentToTree(path: string)
      requires Valid() && '\0' !in path && T.Fits(T.RouteOf(path)) && T.CanGrow(trie, [], T.RouteOf(path))
      modifies this`trie, this`byPath, this`nodes, nodes
      ensures Valid() && [] + T.RouteOf(path) == T.RouteOf(path)
      ensures trie == T.Grow(old(trie), [], T.RouteOf(path))
      ensures fresh(nodes - old(nodes))
    {
      hide T.Tree, T.Fits, T.CanGrow, T.Grow, AllLinked, Parts, T.Extend;
      var current := root;
      var tmp := CopyClipped(path, PATH_CLIP);
      ghost var text := Clip(path);
      ghost var p: Path, rest := [], Parts(text);
      assert tmp[..][0..|text|] == text == text[0..] && '\0' !in text;
      assert p + rest == rest;
      RootIsNode();
      var segment: nat, more := 0, true;
      while more && tmp[segment] != '\0'
        invariant Valid() && fresh(nodes - old(nodes)) && p in byPath && current == byPath[p] && current in nodes
        invariant more ==> segment <= |text| && tmp[..][segment..|text|] == text[segment..]
                           && rest == Parts(text[segment..])
        invariant tmp[|text|] == '\0' && (!more ==> rest == [])
        invariant T.Fits(p + rest) && T.CanGrow(trie, p, rest)
        invariant T.Grow(trie, p, rest) == T.Grow(old(trie), [], T.RouteOf(path))
        decreases if more then |text| + 1 - segment else 0
      {
        var name: string;
        name, more, segment := NextSegment(tmp, segment, text);
        if name != "" {
          T.GrowStep(trie, p, rest);
          current := ChildFor(current, name, p, rest);
          p, rest := p + [name], rest[1..];
          NodeIsThere(p);
        }
      }
      if more {
        NothingLeft(tmp[..], text, segment);
        NoParts();
      }
      assert rest == [];
      T.GrowEnds(trie, p);
      MarkLeaf(current, p);
    }

    lemma NothingLeft(buffer: seq<char>, text: string, at: nat)
      requires |text| < |buffer| && at <= |text| && '\0' !in text
      requires buffer[at..|text|] == text[at..] && buffer[at] == '\0'
      ensures text[at..] == ""
    {
      if at < |text| {
        SlicesAt(buffer, text, at, at);
      }
    }

    lemma NoParts()
      ensures Parts("") == []
    {}

    lemma RootIsNode()
      requires Valid()
      ensures [] in byPath && byPath[[]] == root && root in nodes
    {}

    lemma NodeIsThere(p: Path)
      requires Valid() && p in byPath
      ensures byPath[p] in nodes
    {}

    lemma PartsStep(s: string)
      requires s != ""
      ensures var i := FirstSlash(s);
              Parts(s) == (if i > 0 then [s[..i]] else []) + (if i < |s| then Parts(s[i + 1..]) else [])
    {}

    method AddRoute(path: string)
      requires Valid() && '\0' !in path && T.Fits(T.RouteOf(path)) && T.CanGrow(trie, [], T.RouteOf(path))
      modifies this, nodes
      ensures Valid() && [] + T.RouteOf(path) == T.RouteOf(path)
      ensures trie == T.Grow(old(trie), [], T.RouteOf(path)) && routeCount == old(routeCount) + 1
      ensures fresh(nodes - old(nodes))
    {
      hide T.Tree, T.Fits, T.CanGrow, T.Grow, T.RouteOf, AllLinked;
      AddSegmentToTree(path);
      routeCount := routeCount + 1;
    }

    /** Adds paths to a matcher that holds those of before. */
    method AddRoutes(paths: seq<string>, ghost before: seq<string>)
      requires Valid() && T.Manageable(before + paths) && trie == T.AfterAdding(before + paths, |before|)
      requires forall i :: 0 <= i < |paths| ==> '\0' !in paths[i]
      modifies this, nodes
      ensures Valid() && trie == T.AfterAdding(before + paths, |before + paths|)
      ensures routeCount == old(routeCount) + |paths|
    {
      hide T.Tree, T.AfterAdding, T.Grow, T.CanGrow, T.Fits, T.Manageable, AllLinked, T.RouteOf;
      for i := 0 to |paths|
        invariant Valid() && trie == T.AfterAdding(before + paths, |before| + i) && fresh(nodes - old(nodes))
        invariant routeCount == old(routeCount) + i
      {
        assert (before + paths)[|before| + i] == paths[i];
        T.NextAdding(before + paths, |before| + i + 1);
        AddRoute(paths[i]);
      }
    }

    // -------------------------------------------------------------- collecting

    /** Depth first; stops once the output array is full. */
    method CollectAllRoutes(node: Node, prefix: string, routes: array<string>, count: nat, ghost p: Path)
      returns (total: nat)
      requires Valid() && p in byPath && node == byPath[p] && count <= routes.Length
      requires prefix == if p == [] then "" else ClippedText(T.Parent(p))
      modifies routes
      ensures total <= routes.Length
      ensures routes[..total] == T.FirstOnes(old(routes[..count]) + T.Texts(T.Preorder(trie, p)), routes.Length)
      decreases T.Below(trie, p)
    {
      hide T.Tree, T.Preorder, T.UnderChildren, T.Texts, T.FirstOnes, AllLinked, ClippedText, Clip;
      var max := routes.Length;
      ghost var found := routes[..count];
      if count >= max {
        T.AlreadyFull(found, T.Texts(T.Preorder(trie, p)), max);
        return count;
      }
      var newPrefix := NewPrefix(node, prefix, p);
      T.PreorderStarts(trie, p);
      NodeMarks(p);
      ghost var start := if p in trie.leaves && p != [] then [p] else [];
      total := count;
      T.OneText(p);
      if node.isLeaf && newPrefix != "" {
        routes[total] := newPrefix;
        total := total + 1;
      }
      assert routes[..total] == found + T.Texts(start);
      T.NotYetFull(found + T.Texts(start), max);
      ghost var so := start;
      for i := 0 to |node.children|
        invariant total <= max && so == start + T.UnderChildren(trie, p, i)
        invariant routes[..total] == T.FirstOnes(found + T.Texts(so), max)
      {
        ghost var child := p + [trie.kids[p][i]];
        ChildMarks(p, i);
        T.ChildIsBelow(trie, p, i);
        total := CollectAllRoutes(node.children[i], newPrefix, routes, total, child);
        T.FirstOnesAppend(found + T.Texts(so), T.Texts(T.Preorder(trie, child)), max);
        T.MoreTexts(found, so, T.Preorder(trie, child));
        T.OneMoreChild(trie, p, i, start);
        so := so + T.Preorder(trie, child);
      }
    }

    method NewPrefix(node: Node, prefix: string, ghost p: Path) returns (text: string)
      requires Valid() && p in byPath && node == byPath[p]
      requires prefix == if p == [] then "" else ClippedText(T.Parent(p))
      ensures text == ClippedText(p) && (text == "" <==> p == [])
    {
      NodeMarks(p);
      if prefix == "" {
        if node.segment != "" {
          text := Clip("/" + node.segment);
        } else {
          text := "";
        }
      } else {
        if node.segment != "" {
          text := Clip(prefix + "/" + node.segment);
        } else {
          text := Clip(prefix);
        }
      }
    }

    lemma NodeMarks(p: Path)
      requires Valid() && p in byPath
      ensures var n := byPath[p];
              && (n.segment == "" <==> p == []) && (p != [] ==> n.segment == p[|p| - 1])
              && (n.isLeaf <==> p in trie.leaves) && |n.children| == |trie.kids[p]|
    {
      assert T.NodeOk(trie, p) && LinkedIn(trie, byPath, p);
    }

    lemma ChildMarks(p: Path, i: nat)
      requires Valid() && p in byPath && i < |trie.kids[p]|
      ensures |byPath[p].children| == |trie.kids[p]|
      ensures ChildAt(byPath, byPath[p].children[i], p + [trie.kids[p][i]]) && T.Parent(p + [trie.kids[p][i]]) == p
    {
      assert LinkedIn(trie, byPath, p);
    }

    method CollectRoutes() returns (routes: seq<string>)
      requires Valid()
      ensures routes == T.Collected(trie)
    {
      RootIsNode();
      var collected := new string[T.MAX_ROUTES](_ => "");
      var count := CollectAllRoutes(root, "", collected, 0, []);
      routes := collected[..count];
      assert [] + T.Texts(T.Preorder(trie, [])) == T.Texts(T.Preorder(trie, []));
    }

    /** Index of the most similar route among those collected, or their number if none is similar enough. */
    method FindSimilar(path: string, minimum: real) returns (best: nat, routes: seq<string>)
      requires Valid() && '\0' !in path
      ensures routes == T.Collected(trie) && best <= |routes|
      ensures best < |routes| ==> Similarity.IsBest(path, routes, minimum, best)
      ensures best == |routes| ==> Similarity.TooLow(path, routes, minimum, |routes|)
      ensures path in routes && minimum <= 1.0 ==> best < |routes| && routes[best] == path
    {
      hide T.Tree, AllLinked, Similarity.IsBest, Similarity.TooLow;
      routes := CollectRoutes();
      T.CollectedAreClean(trie);
      best := Similarity.FindBestRoute(path, routes, minimum);
      if best < |routes| {
        Similarity.ExactRouteWins(path, routes, minimum, best);
      } else if minimum <= 1.0 {
        Similarity.ExactRouteIsFound(path, routes, minimum);
      }
    }
  }
}
