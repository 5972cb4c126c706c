/** The decoding tree of HPACK's Huffman code, built in an array, and the codec loops that use it. */
module HuffmanTree {
  import opened Basics
  import opened Bits
  import opened PrefixCode

  datatype HuffCode = HuffCode(code: nat, bits: nat)

  /** Children are indices into the node array, negative when missing; symbol is negative inside the tree. */
  datatype Node = Node(zero: int, one: int, symbol: int) {
    function Child(bit: bool): int {
      if bit then one else zero
    }

    function WithChild(bit: bool, child: int): Node {
      if bit then this.(one := child) else this.(zero := child)
    }
  }

  const NODES: nat := 514

  function CodesOf(table: seq<HuffCode>): (codes: Codes)
    ensures |codes| == |table|
    ensures forall i :: 0 <= i < |table| ==> codes[i] == BitsOf(table[i].code, table[i].bits)
  {
    seq(|table|, i requires 0 <= i < |table| => BitsOf(table[i].code, table[i].bits))
  }

  /** A table whose code words fit their lengths (at most 30 bits) and form a usable prefix code. */
  ghost predicate GoodTable(table: seq<HuffCode>) {
    && Usable(CodesOf(table))
    && forall i :: 0 <= i < |table| ==> 1 <= table[i].bits <= 30 && table[i].code < Pow2(table[i].bits)
  }

  // ---------------------------------------------------------------- paths in the tree

  ghost function Prefixes(codes: Codes): set<Bitstring> {
    set i, k | 0 <= i < |codes| && 0 <= k <= |codes[i]| :: codes[i][..k]
  }

  /** Every child pointer adds one bit to the path, and no pointer is missing. */
  ghost predicate Linked(nodes: seq<Node>, paths: seq<Bitstring>) {
    && |paths| <= |nodes|
    && forall i, bit: bool :: 0 <= i < |paths| ==>
         var c := nodes[i].Child(bit);
         if c < 0 then paths[i] + [bit] !in paths
         else c < |paths| && paths[c] == paths[i] + [bit]
  }

  /** Exactly the ends of the first done code words carry their symbol. */
  ghost predicate Labelled(nodes: seq<Node>, paths: seq<Bitstring>, codes: Codes, done: nat) {
    && |paths| <= |nodes| && done <= |codes|
    && forall i :: 0 <= i < |paths| ==>
         if nodes[i].symbol < 0 then paths[i] !in codes[..done]
         else nodes[i].symbol < done && paths[i] == codes[nodes[i].symbol]
  }

  /** The paths are prefixes of the first done code words or of cur, and every path's parent is there. */
  ghost predicate Grown(paths: seq<Bitstring>, codes: Codes, done: nat, cur: Bitstring) {
    && done <= |codes|
    && (forall i :: 0 <= i < |paths| ==> paths[i] <= cur || Extendable(codes[..done], paths[i]))
    && CodeWordsPresent(paths, codes, done)
    && ParentsPresent(paths)
  }

  ghost predicate CodeWordPresent(paths: seq<Bitstring>, codes: Codes, i: nat)
    requires i < |codes|
  {
    codes[i] in paths
  }

  ghost predicate CodeWordsPresent(paths: seq<Bitstring>, codes: Codes, done: nat)
    requires done <= |codes|
  {
    forall i :: 0 <= i < done ==> CodeWordPresent(paths, codes, i)
  }

  ghost predicate ParentPresent(paths: seq<Bitstring>, i: nat)
    requires i < |paths|
  {
    paths[i] != [] && paths[i][..|paths[i]| - 1] in paths
  }

  ghost predicate ParentsPresent(paths: seq<Bitstring>) {
    forall i :: 0 < i < |paths| ==> ParentPresent(paths, i)
  }

  ghost predicate Tree(nodes: seq<Node>, paths: seq<Bitstring>, codes: Codes, done: nat, cur: Bitstring) {
    && |paths| >= 1 && paths[0] == []
    && Distinct(paths)
    && Linked(nodes, paths)
    && Labelled(nodes, paths, codes, done)
    && Grown(paths, codes, done, cur)
  }

  lemma PathsArePrefixes(paths: seq<Bitstring>, codes: Codes, done: nat, cur: Bitstring)
    requires Grown(paths, codes, done, cur) && (Extendable(codes, cur) || cur == [])
    requires |codes| > 0
    ensures forall p :: p in paths ==> p in Prefixes(codes)
  {
    forall p | p in paths
      ensures p in Prefixes(codes)
    {
      var i :| 0 <= i < |codes| && p <= codes[i] by {
        if p <= cur {
          if cur == [] {
            assert p <= codes[0];
          } else {
            var c :| 0 <= c < |codes| && cur <= codes[c];
            assert p <= codes[c];
          }
        } else {
          var c :| 0 <= c < done && p <= codes[..done][c];
          assert p <= codes[c];
        }
      }
      assert p == codes[i][..|p|];
    }
  }

  // ---------------------------------------------------------------- growing the tree by one node

  function WithNode(nodes: seq<Node>, used: nat, parent: nat, bit: bool, symbol: int): seq<Node>
    requires parent < used < |nodes|
  {
    nodes[used := Node(-1, -1, symbol)][parent := nodes[parent].WithChild(bit, used)]
  }

  lemma LastBit(p: Bitstring, x: bool, q: Bitstring, y: bool)
    ensures p + [x] == q + [y] <==> p == q && x == y
  {
    assert p == (p + [x])[..|p|] && q == (q + [y])[..|q|];
    assert (p + [x])[|p|] == x && (q + [y])[|q|] == y;
  }

  lemma GrowLinked(nodes: seq<Node>, paths: seq<Bitstring>, parent: nat, bit: bool, symbol: int)
    requires Distinct(paths) && Linked(nodes, paths) && parent < |paths| < |nodes|
    requires ParentsPresent(paths)
    requires paths[0] == [] && paths[parent] + [bit] !in paths
    ensures Linked(WithNode(nodes, |paths|, parent, bit, symbol), paths + [paths[parent] + [bit]])
    ensures Distinct(paths + [paths[parent] + [bit]])
  {
    var used, q := |paths|, paths[parent] + [bit];
    var nodes', paths' := WithNode(nodes, used, parent, bit, symbol), paths + [q];
    forall i, b: bool | 0 <= i < |paths'|
      ensures var c := nodes'[i].Child(b);
              if c < 0 then paths'[i] + [b] !in paths'
              else c < |paths'| && paths'[c] == paths'[i] + [b]
    {
      if i == used {
        NoChildBelow(paths, q, b);
        assert |q + [b]| != |q|;
      } else {
        LastBit(paths[i], b, paths[parent], bit);
        assert paths'[i] == paths[i];
        assert nodes[i].Child(b) < 0 ==> paths[i] + [b] !in paths;
      }
    }
  }

  lemma NoChildBelow(paths: seq<Bitstring>, q: Bitstring, b: bool)
    requires ParentsPresent(paths)
    requires |paths| > 0 && paths[0] == [] && q !in paths
    ensures q + [b] !in paths
  {
    forall i | 0 <= i < |paths|
      ensures paths[i] != q + [b]
    {
      if i > 0 {
        assert ParentPresent(paths, i) && (q + [b])[..|q|] == q;
      }
    }
  }

  /** A fresh prefix of code word number done becomes an internal node. */
  lemma GrowInternal(nodes: seq<Node>, paths: seq<Bitstring>, codes: Codes, done: nat, parent: nat, bit: bool)
    requires Usable(codes) && done < |codes| && parent < |paths| < |nodes|
    requires Tree(nodes, paths, codes, done, paths[parent])
    requires paths[parent] + [bit] <= codes[done] && paths[parent] + [bit] != codes[done]
    requires paths[parent] + [bit] !in paths
    ensures Tree(WithNode(nodes, |paths|, parent, bit, -1), paths + [paths[parent] + [bit]], codes, done,
                 paths[parent] + [bit])
  {
    var q := paths[parent] + [bit];
    var nodes', paths' := WithNode(nodes, |paths|, parent, bit, -1), paths + [q];
    GrowLinked(nodes, paths, parent, bit, -1);
    GrowParents(paths, q);
    assert paths'[0] == [];
    forall i | 0 <= i < |paths'|
      ensures paths'[i] <= q || Extendable(codes[..done], paths'[i])
    {
      if i < |paths| {
        assert paths[i] <= paths[parent] ==> paths[i] <= q;
      }
    }
    forall i | 0 <= i < |codes[..done]|
      ensures codes[..done][i] != q
    {
      assert codes[i] <= codes[done] ==> i == done;
    }
    forall i | 0 <= i < done
      ensures CodeWordPresent(paths', codes, i)
    {
      assert CodeWordPresent(paths, codes, i);
    }
  }

  lemma GrowParents(paths: seq<Bitstring>, q: Bitstring)
    requires q != [] && q[..|q| - 1] in paths
    requires ParentsPresent(paths)
    ensures ParentsPresent(paths + [q])
  {
    forall i | 0 < i < |paths + [q]|
      ensures ParentPresent(paths + [q], i)
    {
      assert i < |paths| ==> ParentPresent(paths, i);
    }
  }

  /** The whole code word number done becomes a leaf; its place was free. */
  lemma GrowLeaf(nodes: seq<Node>, paths: seq<Bitstring>, codes: Codes, done: nat, parent: nat, bit: bool)
    requires Usable(codes) && done < |codes| && parent < |paths| < |nodes|
    requires Tree(nodes, paths, codes, done, paths[parent])
    requires paths[parent] + [bit] == codes[done] && codes[done] !in paths
    ensures Tree(WithNode(nodes, |paths|, parent, bit, done), paths + [codes[done]], codes, done + 1, [])
  {
    var q := codes[done];
    GrowLinked(nodes, paths, parent, bit, done);
    assert q[..|q| - 1] == paths[parent];
    GrowParents(paths, q);
    assert (paths + [q])[0] == [];
    LeafLabelled(nodes, paths, codes, done, parent, bit);
    LeafGrown(paths, codes, done, paths[parent]);
  }

  lemma LeafLabelled(nodes: seq<Node>, paths: seq<Bitstring>, codes: Codes, done: nat, parent: nat, bit: bool)
    requires done < |codes| && parent < |paths| < |nodes| && codes[done] !in paths
    requires Labelled(nodes, paths, codes, done)
    ensures Labelled(WithNode(nodes, |paths|, parent, bit, done), paths + [codes[done]], codes, done + 1)
  {
    var nodes', paths' := WithNode(nodes, |paths|, parent, bit, done), paths + [codes[done]];
    assert codes[..done + 1] == codes[..done] + [codes[done]];
    forall i | 0 <= i < |paths'|
      ensures if nodes'[i].symbol < 0 then paths'[i] !in codes[..done + 1]
              else nodes'[i].symbol < done + 1 && paths'[i] == codes[nodes'[i].symbol]
    {
      if i < |paths| {
        assert nodes'[i].symbol == nodes[i].symbol;
        assert paths[i] in paths;
      }
    }
  }

  lemma LeafGrown(paths: seq<Bitstring>, codes: Codes, done: nat, cur: Bitstring)
    requires done < |codes| && Grown(paths, codes, done, cur) && cur <= codes[done]
    ensures forall i :: 0 <= i < |paths + [codes[done]]| ==> Extendable(codes[..done + 1], (paths + [codes[done]])[i])
    ensures CodeWordsPresent(paths + [codes[done]], codes, done + 1)
  {
    var now, paths' := codes[..done + 1], paths + [codes[done]];
    forall i | 0 <= i < |paths'|
      ensures Extendable(now, paths'[i])
    {
      if i < |paths| && !(paths[i] <= cur) {
        var c :| 0 <= c < done && paths[i] <= codes[..done][c];
        assert paths[i] <= now[c];
      } else {
        assert paths'[i] <= now[done];
      }
    }
    forall i | 0 <= i < done + 1
      ensures CodeWordPresent(paths', codes, i)
    {
      assert i < done ==> CodeWordPresent(paths, codes, i);
    }
  }

  lemma CodeWordIsNew(nodes: seq<Node>, paths: seq<Bitstring>, codes: Codes, done: nat, cur: Bitstring)
    requires Usable(codes) && done < |codes| && Tree(nodes, paths, codes, done, cur)
    requires |cur| < |codes[done]|
    ensures codes[done] !in paths
  {
    forall i | 0 <= i < |paths|
      ensures paths[i] != codes[done]
    {
      if Extendable(codes[..done], paths[i]) {
        var c :| 0 <= c < done && paths[i] <= codes[..done][c];
        assert codes[done] <= codes[c] ==> done == c;
      }
    }
  }

  /** Walking one bit further along code word number done. */
  lemma Advance(nodes: seq<Node>, paths: seq<Bitstring>, codes: Codes, done: nat, cur: Bitstring, next: Bitstring)
    requires Tree(nodes, paths, codes, done, cur) && cur <= next
    ensures Tree(nodes, paths, codes, done, next)
  {}

  /** The tree never needs more nodes than there are prefixes of code words. */
  lemma RoomForOne(nodes: seq<Node>, paths: seq<Bitstring>, codes: Codes, done: nat, cur: Bitstring, q: Bitstring)
    requires Tree(nodes, paths, codes, done, cur) && done < |codes|
    requires cur <= q && q <= codes[done] && q !in paths
    ensures |paths| < |Prefixes(codes)|
  {
    Advance(nodes, paths, codes, done, cur, q);
    assert Extendable(codes, q);
    PathsArePrefixes(paths, codes, done, q);
    assert q == codes[done][..|q|];
    DistinctWithin(paths + [q], Prefixes(codes));
  }

  lemma {:induction false} PrefixPresent(paths: seq<Bitstring>, codes: Codes, i: nat, k: nat)
    requires Grown(paths, codes, |codes|, []) && i < |codes| && k <= |codes[i]|
    requires |paths| > 0 && paths[0] == []
    ensures codes[i][..k] in paths
    decreases |codes[i]| - k
  {
    if k == |codes[i]| {
      assert CodeWordPresent(paths, codes, i) && codes[i][..k] == codes[i];
    } else {
      PrefixPresent(paths, codes, i, k + 1);
      var j :| 0 <= j < |paths| && paths[j] == codes[i][..k + 1];
      assert ParentPresent(paths, j);
      assert codes[i][..k + 1][..k] == codes[i][..k];
    }
  }

  lemma FinishedPaths(nodes: seq<Node>, paths: seq<Bitstring>, codes: Codes)
    requires Tree(nodes, paths, codes, |codes|, []) && |codes| > 0
    ensures forall p :: p in paths <==> p in Prefixes(codes)
    ensures |paths| == |Prefixes(codes)|
  {
    PathsArePrefixes(paths, codes, |codes|, []);
    forall p | p in Prefixes(codes)
      ensures p in paths
    {
      var i, k :| 0 <= i < |codes| && 0 <= k <= |codes[i]| && p == codes[i][..k];
      PrefixPresent(paths, codes, i, k);
    }
    DistinctWithin(paths, Prefixes(codes));
  }

  lemma NextBit(table: seq<HuffCode>, s: nat, b: nat, p: Bitstring, bit: bool)
    requires s < |table| && b < table[s].bits
    requires p == CodesOf(table)[s][..table[s].bits - 1 - b] && bit == (Shr(table[s].code, b) % 2 == 1)
    ensures p + [bit] == CodesOf(table)[s][..table[s].bits - b]
  {
    BitsOfIndex(table[s].code, table[s].bits, b);
  }

  /** The slot the leaf goes into is free, there is room, and the result is a tree for one more symbol. */
  lemma LeafStep(nodes: seq<Node>, paths: seq<Bitstring>, codes: Codes, s: nat, node: nat, bit: bool)
    requires Usable(codes) && |Prefixes(codes)| <= NODES == |nodes| && s < |codes| && node < |paths|
    requires Tree(nodes, paths, codes, s, paths[node]) && paths[node] + [bit] == codes[s]
    ensures |paths| < |nodes| && nodes[node].Child(bit) < 0
    ensures Tree(WithNode(nodes, |paths|, node, bit, s), paths + [codes[s]], codes, s + 1, [])
  {
    CodeWordIsNew(nodes, paths, codes, s, paths[node]);
    RoomForOne(nodes, paths, codes, s, paths[node], codes[s]);
    GrowLeaf(nodes, paths, codes, s, node, bit);
  }

  lemma InnerStep(nodes: seq<Node>, paths: seq<Bitstring>, codes: Codes, s: nat, node: nat, bit: bool)
    requires Usable(codes) && |Prefixes(codes)| <= NODES == |nodes| && s < |codes| && node < |paths|
    requires Tree(nodes, paths, codes, s, paths[node])
    requires paths[node] + [bit] <= codes[s] && paths[node] + [bit] != codes[s]
    ensures var next, q := nodes[node].Child(bit), paths[node] + [bit];
            if next < 0 then
              |paths| < |nodes| && Tree(WithNode(nodes, |paths|, node, bit, -1), paths + [q], codes, s, q)
            else next < |paths| && paths[next] == q && Tree(nodes, paths, codes, s, q)
  {
    var q := paths[node] + [bit];
    if nodes[node].Child(bit) < 0 {
      RoomForOne(nodes, paths, codes, s, paths[node], q);
      GrowInternal(nodes, paths, codes, s, node, bit);
    } else {
      Advance(nodes, paths, codes, s, paths[node], q);
    }
  }

  // ---------------------------------------------------------------- decoding state

  /** After pos bits: o is decoded and p is the unfinished path. */
  ghost predicate Reached(codes: Codes, bits: Bitstring, pos: nat, o: seq<byte>, p: Bitstring)
    requires |codes| == EOS + 1
  {
    pos <= |bits| && bits[..pos] == CodeBits(codes, o) + p
  }

  /** No string of at most cap bytes is decoded from bits. */
  ghost predicate Refused(codes: Codes, bits: Bitstring, cap: nat)
    requires |codes| == EOS + 1
  {
    forall s: seq<byte> :: Spells(codes, bits, s) ==> |s| > cap
  }

  lemma ReachedTail(codes: Codes, bits: Bitstring, pos: nat, o: seq<byte>, p: Bitstring, s: seq<byte>)
    requires Usable(codes) && Reached(codes, bits, pos, o, p) && Spells(codes, bits, s)
    ensures o <= s && Spells(codes, p + bits[pos..], s[|o|..])
  {
    assert bits == bits[..pos] + bits[pos..] == CodeBits(codes, o) + (p + bits[pos..]);
    SpelledPrefix(codes, o, p + bits[pos..], s);
  }

  lemma MissingChildRefuses(codes: Codes, bits: Bitstring, pos: nat, o: seq<byte>, p: Bitstring, bit: bool, cap: nat)
    requires Usable(codes) && Reached(codes, bits, pos + 1, o, p + [bit])
    requires Extendable(codes, p) && p !in codes && !Extendable(codes, p + [bit])
    ensures Refused(codes, bits, cap)
  {
    forall s: seq<byte>
      ensures !Spells(codes, bits, s)
    {
      if Spells(codes, bits, s) {
        ReachedTail(codes, bits, pos + 1, o, p + [bit], s);
        SpelledStaysInTree(codes, p, bit, p + [bit] + bits[pos + 1..], s[|o|..]);
      }
    }
  }

  lemma SymbolNext(codes: Codes, bits: Bitstring, pos: nat, o: seq<byte>, symbol: nat, cap: nat)
    requires Usable(codes) && symbol <= EOS && Reached(codes, bits, pos, o, codes[symbol]) && |o| <= cap
    ensures symbol == EOS || |o| == cap ==> Refused(codes, bits, cap)
    ensures symbol < EOS ==> Reached(codes, bits, pos, o + [symbol], [])
  {
    forall s: seq<byte> | Spells(codes, bits, s)
      ensures |s| > |o| && symbol == s[|o|]
    {
      ReachedTail(codes, bits, pos, o, codes[symbol], s);
      SpelledHead(codes, codes[symbol] + bits[pos..], s[|o|..], symbol);
    }
    if symbol < EOS {
      CodeBitsAppend(codes, o, symbol);
    }
  }

  lemma EndOfInput(codes: Codes, bits: Bitstring, o: seq<byte>, p: Bitstring)
    requires Usable(codes) && Extendable(codes, p) && p !in codes && Reached(codes, bits, |bits|, o, p)
    ensures if |p| <= 7 && p == Ones(|p|) then Spells(codes, bits, o) else forall cap: nat :: Refused(codes, bits, cap)
  {
    assert bits[..|bits|] == bits && p + bits[|bits|..] == p;
    if |p| <= 7 && p == Ones(|p|) {
      assert bits == CodeBits(codes, o) + Ones(|p|);
    } else {
      forall s: seq<byte>
        ensures !Spells(codes, bits, s)
      {
        if Spells(codes, bits, s) {
          ReachedTail(codes, bits, |bits|, o, p, s);
          UnfinishedBits(codes, p, s[|o|..]);
        }
      }
    }
  }

  /** What the finished tree says about a node and its children. */
  lemma NodeMeaning(nodes: seq<Node>, paths: seq<Bitstring>, codes: Codes, node: nat, bit: bool)
    requires Tree(nodes, paths, codes, |codes|, []) && |codes| > 0 && node < |paths|
    ensures Extendable(codes, paths[node])
    ensures nodes[node].symbol < 0 ==> paths[node] !in codes
    ensures nodes[node].Child(bit) < 0 ==> !Extendable(codes, paths[node] + [bit])
  {
    assert codes[..|codes|] == codes;
    var q := paths[node] + [bit];
    FinishedPaths(nodes, paths, codes);
    if paths[node] <= [] {
      assert paths[node] <= codes[0];
    }
    if Extendable(codes, q) {
      var i :| 0 <= i < |codes| && q <= codes[i];
      assert q == codes[i][..|q|];
      assert q in Prefixes(codes);
    }
  }

  /** The decoder's variables after pos bits, o being the output so far. */
  ghost predicate At(ns: seq<Node>, ps: seq<Bitstring>, codes: Codes, bits: Bitstring, pos: nat, o: seq<byte>,
                     node: int, depth: int, allOnes: bool)
  {
    && |codes| == EOS + 1 && 0 <= node < |ps| <= |ns| && ns[node].symbol < 0
    && depth == |ps[node]| && allOnes == (ps[node] == Ones(depth))
    && Reached(codes, bits, pos, o, ps[node])
  }

  lemma StartAt(ns: seq<Node>, ps: seq<Bitstring>, codes: Codes, bits: Bitstring)
    requires Usable(codes) && Tree(ns, ps, codes, |codes|, [])
    ensures At(ns, ps, codes, bits, 0, [], 0, 0, true)
  {}

  lemma BitStep(ns: seq<Node>, ps: seq<Bitstring>, codes: Codes, bits: Bitstring, pos: nat, bit: bool, o: seq<byte>,
                node: int, depth: int, allOnes: bool, cap: nat)
    requires Usable(codes) && Tree(ns, ps, codes, |codes|, []) && |o| <= cap
    requires At(ns, ps, codes, bits, pos, o, node, depth, allOnes)
    requires Reached(codes, bits, pos + 1, o, ps[node] + [bit])
    ensures var next := ns[node].Child(bit);
            if next < 0 then Refused(codes, bits, cap)
            else
              next < |ps| &&
              var symbol := ns[next].symbol;
              if symbol < 0 then At(ns, ps, codes, bits, pos + 1, o, next, depth + 1, allOnes && bit)
              else if symbol >= EOS || |o| >= cap then symbol <= EOS && Refused(codes, bits, cap)
              else At(ns, ps, codes, bits, pos + 1, o + [symbol], 0, 0, true)
  {
    var next := ns[node].Child(bit);
    NodeMeaning(ns, ps, codes, node, bit);
    if next < 0 {
      MissingChildRefuses(codes, bits, pos, o, ps[node], bit, cap);
    } else if ns[next].symbol >= 0 {
      SymbolNext(codes, bits, pos + 1, o, ns[next].symbol, cap);
      StartAt(ns, ps, codes, bits);
    } else {
      OneMore(ps[node], bit);
    }
  }

  lemma OneMore(p: Bitstring, bit: bool)
    ensures (p == Ones(|p|) && bit) == (p + [bit] == Ones(|p| + 1))
  {
    if p + [bit] == Ones(|p| + 1) {
      assert p == (p + [bit])[..|p|] && bit == (p + [bit])[|p|];
    }
  }

  lemma StopAt(ns: seq<Node>, ps: seq<Bitstring>, codes: Codes, bits: Bitstring, o: seq<byte>,
               node: int, depth: int, allOnes: bool)
    requires Usable(codes) && Tree(ns, ps, codes, |codes|, [])
    requires At(ns, ps, codes, bits, |bits|, o, node, depth, allOnes)
    ensures if node != 0 && (depth > 7 || !allOnes) then forall cap: nat :: Refused(codes, bits, cap)
            else Spells(codes, bits, o)
  {
    NodeMeaning(ns, ps, codes, node, false);
    EndOfInput(codes, bits, o, ps[node]);
  }

  // ---------------------------------------------------------------- the tree and the codec loops

  class DecodingTree {
    const nodes: array<Node>
    var used: nat
    var built: bool
    ghost var paths: seq<Bitstring>

    ghost predicate Finished(codes: Codes)
      reads this, nodes
    {
      && built && used == |paths|
      && Tree(nodes[..], paths, codes, |codes|, [])
    }

    constructor ()
      ensures !built && fresh(nodes) && nodes.Length == NODES
    {
      nodes := new Node[NODES];
      used, built, paths := 0, false, [];
    }

    /** Builds the tree on first use. No store ever hits a node already in use for something else. */
    method Build(table: seq<HuffCode>)
      requires GoodTable(table) && |Prefixes(CodesOf(table))| <= NODES
      requires nodes.Length == NODES && (built ==> Finished(CodesOf(table)))
      modifies this, nodes
      ensures Finished(CodesOf(table))
      ensures used == |Prefixes(CodesOf(table))|
    {
      ghost var codes := CodesOf(table);
      if built {
        FinishedPaths(nodes[..], paths, codes);
        return;
      }
      nodes[0] := Node(-1, -1, -1);
      used, paths := 1, [[]];
      var s := 0;
      while s < |table|
        invariant 0 <= s <= |table| && !built
        invariant used == |paths| <= nodes.Length && Tree(nodes[..], paths, codes, s, [])
      {
        Insert(table, s);
        s := s + 1;
      }
      built := true;
      FinishedPaths(nodes[..], paths, codes);
    }

    /** Takes the next unused node as a child of parent. */
    method Attach(parent: nat, bit: bool, symbol: int) returns (child: nat)
      requires parent < used == |paths| < nodes.Length
      modifies `used, `paths, nodes
      ensures child == old(used) && used == child + 1
      ensures nodes[..] == WithNode(old(nodes[..]), child, parent, bit, symbol)
      ensures paths == old(paths) + [old(paths)[parent] + [bit]]
    {
      child := used;
      used := used + 1;
      nodes[child] := Node(-1, -1, symbol);
      nodes[parent] := nodes[parent].WithChild(bit, child);
      paths := paths + [paths[parent] + [bit]];
    }

    /** taken bits of code word s are walked and node is where they lead; after the last one the leaf hangs. */
    ghost predicate Walked(codes: Codes, s: nat, node: int, taken: nat)
      requires s < |codes|
      reads this, nodes
    {
      && used == |paths|
      && if taken < |codes[s]| then
           && 0 <= node < |paths| && paths[node] == codes[s][..taken]
           && Tree(nodes[..], paths, codes, s, paths[node])
         else
           Tree(nodes[..], paths, codes, s + 1, [])
    }

    /** The inner loop: walks code word s from its most significant bit and hangs its leaf. */
    method Insert(table: seq<HuffCode>, s: nat)
      requires GoodTable(table) && |Prefixes(CodesOf(table))| <= NODES
      requires nodes.Length == NODES && s < |table|
      requires used == |paths| && Tree(nodes[..], paths, CodesOf(table), s, [])
      modifies `used, `paths, nodes
      ensures used == |paths| && Tree(nodes[..], paths, CodesOf(table), s + 1, [])
    {
      ghost var codes := CodesOf(table);
      var code, bits := table[s].code, table[s].bits;
      var node := 0;
      var b: int := bits - 1;
      ghost var taken := 0;
      assert codes[s][..0] == [];
      while b >= 0
        invariant -1 <= b < bits && taken == bits - 1 - b && bits == |codes[s]|
        invariant Walked(codes, s, node, taken)
      {
        var bit := Shr(code, b) % 2 == 1;
        NextBit(table, s, b, paths[node], bit);
        node := WalkBit(codes, s, node, bit, b, taken);
        taken := taken + 1;
        b := b - 1;
      }
    }

    method WalkBit(ghost codes: Codes, s: nat, node: nat, bit: bool, b: nat, ghost taken: nat)
      returns (next: int)
      requires Usable(codes) && |Prefixes(codes)| <= NODES == nodes.Length
      requires s < |codes| && taken + b + 1 == |codes[s]| && Walked(codes, s, node, taken)
      requires paths[node] + [bit] == codes[s][..taken + 1]
      modifies `used, `paths, nodes
      ensures Walked(codes, s, next, taken + 1)
    {
      if b == 0 {
        LeafStep(nodes[..], paths, codes, s, node, bit);
        next := Attach(node, bit, s);
      } else {
        InnerStep(nodes[..], paths, codes, s, node, bit);
        next := nodes[node].Child(bit);
        if next < 0 {
          next := Attach(node, bit, -1);
        }
      }
    }

    /** The body of the decoding loop: one bit down the tree, and a byte out at a leaf. */
    method TakeBit(ghost ps: seq<Bitstring>, ghost codes: Codes, ghost bits: Bitstring, ghost pos: nat, bit: bool,
                   out: array<byte>, cap: nat, node0: nat, depth0: nat, allOnes0: bool, op0: nat)
      returns (more: bool, node: nat, depth: nat, allOnes: bool, op: nat)
      requires Usable(codes) && Tree(nodes[..], ps, codes, |codes|, []) && op0 <= cap <= out.Length
      requires At(nodes[..], ps, codes, bits, pos, out[..op0], node0, depth0, allOnes0)
      requires Reached(codes, bits, pos + 1, out[..op0], ps[node0] + [bit])
      modifies out
      ensures op <= cap
      ensures if more then At(nodes[..], ps, codes, bits, pos + 1, out[..op], node, depth, allOnes)
              else Refused(codes, bits, cap)
    {
      BitStep(nodes[..], ps, codes, bits, pos, bit, out[..op0], node0, depth0, allOnes0, cap);
      node, depth, allOnes, op := node0, depth0, allOnes0, op0;
      var next := nodes[node].Child(bit);
      if next < 0 {
        more := false;
        return;
      }
      node := next;
      depth := depth + 1;
      if !bit {
        allOnes := false;
      }
      if nodes[node].symbol >= 0 {
        var sym := nodes[node].symbol;
        if sym == 256 || op >= cap {
          more := false;
          return;
        }
        ghost var before := out[..op];
        out[op] := sym;
        op := op + 1;
        assert out[..op] == before + [sym];
        node, depth, allOnes := 0, 0, true;
      }
      more := true;
    }

    /** The inner loop: the eight bits of byte i. */
    method TakeByte(ghost ps: seq<Bitstring>, ghost codes: Codes, input: seq<byte>, i: nat,
                    out: array<byte>, cap: nat, node0: nat, depth0: nat, allOnes0: bool, op0: nat)
      returns (more: bool, node: nat, depth: nat, allOnes: bool, op: nat)
      requires Usable(codes) && Tree(nodes[..], ps, codes, |codes|, []) && op0 <= cap <= out.Length
      requires i < |input| && At(nodes[..], ps, codes, BytesToBits(input), 8 * i, out[..op0], node0, depth0, allOnes0)
      modifies out
      ensures op <= cap
      ensures if more then At(nodes[..], ps, codes, BytesToBits(input), 8 * i + 8, out[..op], node, depth, allOnes)
              else Refused(codes, BytesToBits(input), cap)
    {
      ghost var ns, bits, pos := nodes[..], BytesToBits(input), 8 * i;
      node, depth, allOnes, op := node0, depth0, allOnes0, op0;
      var k: int := 7;
      while k >= 0
        modifies out
        invariant -1 <= k <= 7 && op <= cap && nodes[..] == ns && pos == 8 * i + 7 - k
        invariant At(ns, ps, codes, bits, pos, out[..op], node, depth, allOnes)
      {
        var bit := Shr(input[i], k) % 2 == 1;
        NextInputBit(codes, input, i, k, out[..op], ps[node], bit);
        more, node, depth, allOnes, op := TakeBit(ps, codes, bits, pos, bit, out, cap, node, depth, allOnes, op);
        if !more {
          return;
        }
        pos := pos + 1;
        k := k - 1;
      }
      more := true;
    }

    /**
     The decoder: succeeds exactly when the input is an encoding of at most cap bytes, and then
     yields those bytes.
     */
    method Decode(table: seq<HuffCode>, input: seq<byte>, out: array<byte>, cap: nat) returns (ok: bool, length: nat)
      requires GoodTable(table) && |Prefixes(CodesOf(table))| <= NODES
      requires nodes.Length == NODES && (built ==> Finished(CodesOf(table)))
      requires cap <= out.Length
      modifies this, nodes, out
      ensures Finished(CodesOf(table))
      ensures ok ==> length <= cap && Decodes(CodesOf(table), input, out[..length])
      ensures !ok ==> Refused(CodesOf(table), BytesToBits(input), cap)
    {
      Build(table);
      ok, length := Scan(CodesOf(table), input, out, cap);
    }

    method Scan(ghost codes: Codes, input: seq<byte>, out: array<byte>, cap: nat) returns (ok: bool, length: nat)
      requires Usable(codes) && Finished(codes) && cap <= out.Length
      modifies out
      ensures ok ==> length <= cap && Decodes(codes, input, out[..length])
      ensures !ok ==> Refused(codes, BytesToBits(input), cap)
    {
      ghost var ns, ps, bits := nodes[..], paths, BytesToBits(input);
      var node: nat, depth: nat, allOnes, op: nat := 0, 0, true, 0;
      StartAt(ns, ps, codes, bits);
      assert out[..0] == [];
      var i := 0;
      while i < |input|
        modifies out
        invariant 0 <= i <= |input| && op <= cap && nodes[..] == ns
        invariant At(ns, ps, codes, bits, 8 * i, out[..op], node, depth, allOnes)
      {
        var more;
        more, node, depth, allOnes, op := TakeByte(ps, codes, input, i, out, cap, node, depth, allOnes, op);
        if !more {
          return false, 0;
        }
        i := i + 1;
      }
      StopAt(ns, ps, codes, bits, out[..op], node, depth, allOnes);
      if node != 0 && (depth > 7 || !allOnes) {
        return false, 0;
      }
      return true, op;
    }
  }

  lemma NextInputBit(codes: Codes, input: seq<byte>, i: nat, k: nat, o: seq<byte>, p: Bitstring, bit: bool)
    requires |codes| == EOS + 1 && i < |input| && k <= 7 && bit == (Shr(input[i], k) % 2 == 1)
    requires Reached(codes, BytesToBits(input), 8 * i + 7 - k, o, p)
    ensures Reached(codes, BytesToBits(input), 8 * i + 8 - k, o, p + [bit])
  {
    var bits, pos := BytesToBits(input), 8 * i + 7 - k;
    ByteAt(input, i);
    BitsOfIndex(input[i], 8, k);
    assert bits[pos] == bits[8 * i..8 * i + 8][7 - k] == bit;
    assert bits[..pos + 1] == bits[..pos] + [bit];
  }

  lemma {:induction false} ByteAt(s: seq<byte>, i: nat)
    requires i < |s|
    ensures BytesToBits(s)[8 * i..8 * i + 8] == BitsOf(s[i], 8)
  {
    if i > 0 {
      ByteAt(s[1..], i - 1);
      var rest := BytesToBits(s[1..]);
      assert BytesToBits(s)[8..] == rest;
      assert BytesToBits(s)[8 * i..8 * i + 8] == rest[8 * (i - 1)..8 * (i - 1) + 8];
    }
  }
}
