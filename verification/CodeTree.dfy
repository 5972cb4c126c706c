/** Full binary trees whose leaves carry the symbols of a prefix code: what such a tree proves about the code. */
module CodeTree {
  import opened Bits
  import opened PrefixCode
  import opened HuffmanTree

  datatype Trie = Leaf(symbol: nat) | Fork(zero: Trie, one: Trie)

  function Leaves(t: Trie): nat {
    match t
    case Leaf(_) => 1
    case Fork(zero, one) => Leaves(zero) + Leaves(one)
  }

  ghost function Symbols(t: Trie): set<nat> {
    match t
    case Leaf(s) => {s}
    case Fork(zero, one) => Symbols(zero) + Symbols(one)
  }

  /** Hung below path p, every leaf of t ends at its symbol's code word. */
  ghost predicate Carries(t: Trie, p: Bitstring, codes: Codes) {
    match t
    case Leaf(s) => s < |codes| && codes[s] == p
    case Fork(zero, one) => Carries(zero, p + [false], codes) && Carries(one, p + [true], codes)
  }

  ghost function NodePaths(t: Trie, p: Bitstring): set<Bitstring> {
    match t
    case Leaf(_) => {p}
    case Fork(zero, one) => {p} + NodePaths(zero, p + [false]) + NodePaths(one, p + [true])
  }

  /** Every proper prefix of a code word can be continued with either bit. */
  ghost predicate Complete(codes: Codes) {
    forall p, bit: bool :: p in Prefixes(codes) && p !in codes ==> p + [bit] in Prefixes(codes)
  }

  lemma {:induction false} SymbolsBelow(t: Trie, p: Bitstring, codes: Codes, s: nat)
    requires Carries(t, p, codes) && s in Symbols(t)
    ensures s < |codes| && p <= codes[s]
  {
    match t
    case Leaf(_) =>
    case Fork(zero, one) =>
      if s in Symbols(zero) {
        SymbolsBelow(zero, p + [false], codes, s);
      } else {
        SymbolsBelow(one, p + [true], codes, s);
      }
  }

  lemma {:induction false} SymbolCount(t: Trie, p: Bitstring, codes: Codes)
    requires Carries(t, p, codes)
    ensures |Symbols(t)| == Leaves(t)
  {
    match t
    case Leaf(_) =>
    case Fork(zero, one) =>
      SymbolCount(zero, p + [false], codes);
      SymbolCount(one, p + [true], codes);
      forall s | s in Symbols(zero)
        ensures s !in Symbols(one)
      {
        SymbolsBelow(zero, p + [false], codes, s);
        assert codes[s][|p|] == (p + [false])[|p|];
        if s in Symbols(one) {
          SymbolsBelow(one, p + [true], codes, s);
        }
      }
      assert Symbols(zero) !! Symbols(one);
  }

  lemma {:induction false} LeavesDiverge(t: Trie, p: Bitstring, codes: Codes, s: nat, r: nat)
    requires Carries(t, p, codes) && s in Symbols(t) && r in Symbols(t)
    requires s < |codes| && r < |codes| && codes[s] <= codes[r]
    ensures s == r
  {
    match t
    case Leaf(_) =>
    case Fork(zero, one) =>
      if s in Symbols(zero) {
        SymbolsBelow(zero, p + [false], codes, s);
        assert codes[r][|p|] == codes[s][|p|] == (p + [false])[|p|];
        if r in Symbols(one) {
          SymbolsBelow(one, p + [true], codes, r);
        }
        LeavesDiverge(zero, p + [false], codes, s, r);
      } else {
        SymbolsBelow(one, p + [true], codes, s);
        assert codes[r][|p|] == codes[s][|p|] == (p + [true])[|p|];
        if r in Symbols(zero) {
          SymbolsBelow(zero, p + [false], codes, r);
        }
        LeavesDiverge(one, p + [true], codes, s, r);
      }
  }

  lemma {:induction false} PathsBelow(t: Trie, p: Bitstring, q: Bitstring)
    requires q in NodePaths(t, p)
    ensures p <= q
  {
    match t
    case Leaf(_) =>
    case Fork(zero, one) =>
      if q in NodePaths(zero, p + [false]) {
        PathsBelow(zero, p + [false], q);
      } else if q in NodePaths(one, p + [true]) {
        PathsBelow(one, p + [true], q);
      }
  }

  lemma {:induction false} PathCount(t: Trie, p: Bitstring)
    ensures |NodePaths(t, p)| == 2 * Leaves(t) - 1
  {
    match t
    case Leaf(_) =>
    case Fork(zero, one) =>
      PathCount(zero, p + [false]);
      PathCount(one, p + [true]);
      var l, r := NodePaths(zero, p + [false]), NodePaths(one, p + [true]);
      forall q | q in l
        ensures q != p && q !in r
      {
        PathsBelow(zero, p + [false], q);
        assert q[|p|] == (p + [false])[|p|];
        if q in r {
          PathsBelow(one, p + [true], q);
        }
      }
      forall q | q in r
        ensures q != p
      {
        PathsBelow(one, p + [true], q);
      }
      assert |{p} + l| == 1 + |l|;
      assert ({p} + l) !! r;
  }

  lemma {:induction false} PathIsPrefix(t: Trie, p: Bitstring, codes: Codes, q: Bitstring)
    requires Carries(t, p, codes) && q in NodePaths(t, p)
    ensures exists s :: s in Symbols(t) && s < |codes| && q <= codes[s]
  {
    match t
    case Leaf(s) =>
      assert q <= codes[s];
    case Fork(zero, one) =>
      if q in NodePaths(one, p + [true]) {
        PathIsPrefix(one, p + [true], codes, q);
      } else {
        if q == p {
          RootIsPath(zero, p + [false]);
          PathIsPrefix(zero, p + [false], codes, p + [false]);
          var s :| s in Symbols(zero) && s < |codes| && p + [false] <= codes[s];
          assert q <= codes[s];
        } else {
          PathIsPrefix(zero, p + [false], codes, q);
        }
      }
  }

  lemma RootIsPath(t: Trie, p: Bitstring)
    ensures p in NodePaths(t, p)
  {}

  lemma {:induction false} PrefixIsPath(t: Trie, p: Bitstring, codes: Codes, s: nat, k: nat)
    requires Carries(t, p, codes) && s in Symbols(t) && s < |codes| && |p| <= k <= |codes[s]|
    ensures codes[s][..k] in NodePaths(t, p)
  {
    SymbolsBelow(t, p, codes, s);
    match t
    case Leaf(_) =>
      assert codes[s][..k] == codes[s];
    case Fork(zero, one) =>
      if k == |p| {
        assert codes[s][..k] == p;
      } else if s in Symbols(zero) {
        PrefixIsPath(zero, p + [false], codes, s, k);
      } else {
        PrefixIsPath(one, p + [true], codes, s, k);
      }
  }

  lemma {:induction false} ForksHaveBoth(t: Trie, p: Bitstring, codes: Codes, q: Bitstring, bit: bool)
    requires Carries(t, p, codes) && q in NodePaths(t, p) && q !in codes
    ensures q + [bit] in NodePaths(t, p)
  {
    match t
    case Leaf(_) =>
    case Fork(zero, one) =>
      if q == p {
        RootIsPath(zero, p + [false]);
        RootIsPath(one, p + [true]);
        assert bit == true || bit == false;
      } else if q in NodePaths(zero, p + [false]) {
        ForksHaveBoth(zero, p + [false], codes, q, bit);
      } else {
        ForksHaveBoth(one, p + [true], codes, q, bit);
      }
  }

  ghost function Below(n: nat): (s: set<nat>)
    ensures |s| == n
    ensures forall i: nat :: i in s <==> i < n
  {
    if n == 0 then {} else Below(n - 1) + {n - 1}
  }

  lemma AllSymbols(t: Trie, codes: Codes)
    requires Carries(t, [], codes) && Leaves(t) == |codes|
    ensures forall s: nat :: s in Symbols(t) <==> s < |codes|
  {
    SymbolCount(t, [], codes);
    forall s: nat | s in Symbols(t)
      ensures s in Below(|codes|)
    {
      SymbolsBelow(t, [], codes, s);
    }
    SubsetOfSameSize(Symbols(t), Below(|codes|));
  }

  lemma SubsetOfSameSize(a: set<nat>, b: set<nat>)
    requires a <= b && |a| == |b|
    ensures a == b
  {
    assert |b - a| == |b| - |a|;
  }

  /** A tree with one leaf per code word: the code is prefix-free, complete, and has 2n - 1 prefixes. */
  lemma TreeProves(t: Trie, codes: Codes)
    requires Carries(t, [], codes) && Leaves(t) == |codes|
    ensures PrefixFree(codes) && Complete(codes)
    ensures |Prefixes(codes)| == 2 * |codes| - 1
  {
    AllSymbols(t, codes);
    forall i, j | 0 <= i < |codes| && 0 <= j < |codes| && codes[i] <= codes[j]
      ensures i == j
    {
      LeavesDiverge(t, [], codes, i, j);
    }
    PrefixesArePaths(t, codes);
    PathCount(t, []);
    forall p, bit: bool | p in Prefixes(codes) && p !in codes
      ensures p + [bit] in Prefixes(codes)
    {
      ForksHaveBoth(t, [], codes, p, bit);
    }
  }

  lemma PrefixesArePaths(t: Trie, codes: Codes)
    requires Carries(t, [], codes) && Leaves(t) == |codes|
    ensures Prefixes(codes) == NodePaths(t, [])
  {
    AllSymbols(t, codes);
    forall p | p in Prefixes(codes)
      ensures p in NodePaths(t, [])
    {
      var i, k :| 0 <= i < |codes| && 0 <= k <= |codes[i]| && p == codes[i][..k];
      PrefixIsPath(t, [], codes, i, k);
    }
    forall p | p in NodePaths(t, [])
      ensures p in Prefixes(codes)
    {
      PathIsPrefix(t, [], codes, p);
      var s :| s in Symbols(t) && s < |codes| && p <= codes[s];
      assert p == codes[s][..|p|];
    }
  }

  /** In the finished tree of a complete code, every internal node has both children. */
  lemma NoMissingChild(nodes: seq<Node>, paths: seq<Bitstring>, codes: Codes, node: nat, bit: bool)
    requires Usable(codes) && Complete(codes) && Tree(nodes, paths, codes, |codes|, [])
    requires node < |paths| && nodes[node].symbol < 0
    ensures nodes[node].Child(bit) >= 0
  {
    FinishedPaths(nodes, paths, codes);
    NodeMeaning(nodes, paths, codes, node, bit);
    assert paths[node] in paths;
    assert paths[node] + [bit] in Prefixes(codes);
    var i, k :| 0 <= i < |codes| && 0 <= k <= |codes[i]| && paths[node] + [bit] == codes[i][..k];
    assert paths[node] + [bit] <= codes[i];
  }

  /** Code word s leads from the root to a leaf labelled s. */
  lemma PathEndsAtSymbol(nodes: seq<Node>, paths: seq<Bitstring>, codes: Codes, s: nat)
    requires Usable(codes) && Tree(nodes, paths, codes, |codes|, []) && s < |codes|
    ensures exists leaf :: 0 <= leaf < |paths| && paths[leaf] == codes[s] && nodes[leaf].symbol == s
  {
    assert CodeWordPresent(paths, codes, s);
    var leaf :| 0 <= leaf < |paths| && paths[leaf] == codes[s];
    assert codes[..|codes|] == codes;
    assert nodes[leaf].symbol >= 0 && codes[nodes[leaf].symbol] <= codes[s];
  }
}
