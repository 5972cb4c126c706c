/**
 The Huffman code of Appendix B of RFC 7541, and its code tree: the table is a complete
 prefix code with exactly 513 tree nodes. The tree is spelled out in pieces, each checked
 against the table by evaluation.
 */
module HuffmanTable {
  import opened Bits
  import opened PrefixCode
  import opened HuffmanTree
  import opened CodeTree

  /** Sixteen symbols a row; row 16 holds the end-of-string symbol. */
  function Row(r: nat): (row: seq<HuffCode>)
    requires r <= 16
  {
    if r == 0 then
      [HuffCode(0x1ff8, 13), HuffCode(0x7fffd8, 23), HuffCode(0xfffffe2, 28), HuffCode(0xfffffe3, 28),
       HuffCode(0xfffffe4, 28), HuffCode(0xfffffe5, 28), HuffCode(0xfffffe6, 28), HuffCode(0xfffffe7, 28),
       HuffCode(0xfffffe8, 28), HuffCode(0xffffea, 24), HuffCode(0x3ffffffc, 30), HuffCode(0xfffffe9, 28),
       HuffCode(0xfffffea, 28), HuffCode(0x3ffffffd, 30), HuffCode(0xfffffeb, 28), HuffCode(0xfffffec, 28)]
    else if r == 1 then
      [HuffCode(0xfffffed, 28), HuffCode(0xfffffee, 28), HuffCode(0xfffffef, 28), HuffCode(0xffffff0, 28),
       HuffCode(0xffffff1, 28), HuffCode(0xffffff2, 28), HuffCode(0x3ffffffe, 30), HuffCode(0xffffff3, 28),
       HuffCode(0xffffff4, 28), HuffCode(0xffffff5, 28), HuffCode(0xffffff6, 28), HuffCode(0xffffff7, 28),
       HuffCode(0xffffff8, 28), HuffCode(0xffffff9, 28), HuffCode(0xffffffa, 28), HuffCode(0xffffffb, 28)]
    else if r == 2 then
      [HuffCode(0x14, 6), HuffCode(0x3f8, 10), HuffCode(0x3f9, 10), HuffCode(0xffa, 12),
       HuffCode(0x1ff9, 13), HuffCode(0x15, 6), HuffCode(0xf8, 8), HuffCode(0x7fa, 11),
       HuffCode(0x3fa, 10), HuffCode(0x3fb, 10), HuffCode(0xf9, 8), HuffCode(0x7fb, 11),
       HuffCode(0xfa, 8), HuffCode(0x16, 6), HuffCode(0x17, 6), HuffCode(0x18, 6)]
    else if r == 3 then
      [HuffCode(0x0, 5), HuffCode(0x1, 5), HuffCode(0x2, 5), HuffCode(0x19, 6),
       HuffCode(0x1a, 6), HuffCode(0x1b, 6), HuffCode(0x1c, 6), HuffCode(0x1d, 6),
       HuffCode(0x1e, 6), HuffCode(0x1f, 6), HuffCode(0x5c, 7), HuffCode(0xfb, 8),
       HuffCode(0x7ffc, 15), HuffCode(0x20, 6), HuffCode(0xffb, 12), HuffCode(0x3fc, 10)]
    else if r == 4 then
      [HuffCode(0x1ffa, 13), HuffCode(0x21, 6), HuffCode(0x5d, 7), HuffCode(0x5e, 7),
       HuffCode(0x5f, 7), HuffCode(0x60, 7), HuffCode(0x61, 7), HuffCode(0x62, 7),
       HuffCode(0x63, 7), HuffCode(0x64, 7), HuffCode(0x65, 7), HuffCode(0x66, 7),
       HuffCode(0x67, 7), HuffCode(0x68, 7), HuffCode(0x69, 7), HuffCode(0x6a, 7)]
    else if r == 5 then
      [HuffCode(0x6b, 7), HuffCode(0x6c, 7), HuffCode(0x6d, 7), HuffCode(0x6e, 7),
       HuffCode(0x6f, 7), HuffCode(0x70, 7), HuffCode(0x71, 7), HuffCode(0x72, 7),
       HuffCode(0xfc, 8), HuffCode(0x73, 7), HuffCode(0xfd, 8), HuffCode(0x1ffb, 13),
       HuffCode(0x7fff0, 19), HuffCode(0x1ffc, 13), HuffCode(0x3ffc, 14), HuffCode(0x22, 6)]
    else if r == 6 then
      [HuffCode(0x7ffd, 15), HuffCode(0x3, 5), HuffCode(0x23, 6), HuffCode(0x4, 5),
       HuffCode(0x24, 6), HuffCode(0x5, 5), HuffCode(0x25, 6), HuffCode(0x26, 6),
       HuffCode(0x27, 6), HuffCode(0x6, 5), HuffCode(0x74, 7), HuffCode(0x75, 7),
       HuffCode(0x28, 6), HuffCode(0x29, 6), HuffCode(0x2a, 6), HuffCode(0x7, 5)]
    else if r == 7 then
      [HuffCode(0x2b, 6), HuffCode(0x76, 7), HuffCode(0x2c, 6), HuffCode(0x8, 5),
       HuffCode(0x9, 5), HuffCode(0x2d, 6), HuffCode(0x77, 7), HuffCode(0x78, 7),
       HuffCode(0x79, 7), HuffCode(0x7a, 7), HuffCode(0x7b, 7), HuffCode(0x7ffe, 15),
       HuffCode(0x7fc, 11), HuffCode(0x3ffd, 14), HuffCode(0x1ffd, 13), HuffCode(0xffffffc, 28)]
    else if r == 8 then
      [HuffCode(0xfffe6, 20), HuffCode(0x3fffd2, 22), HuffCode(0xfffe7, 20), HuffCode(0xfffe8, 20),
       HuffCode(0x3fffd3, 22), HuffCode(0x3fffd4, 22), HuffCode(0x3fffd5, 22), HuffCode(0x7fffd9, 23),
       HuffCode(0x3fffd6, 22), HuffCode(0x7fffda, 23), HuffCode(0x7fffdb, 23), HuffCode(0x7fffdc, 23),
       HuffCode(0x7fffdd, 23), HuffCode(0x7fffde, 23), HuffCode(0xffffeb, 24), HuffCode(0x7fffdf, 23)]
    else if r == 9 then
      [HuffCode(0xffffec, 24), HuffCode(0xffffed, 24), HuffCode(0x3fffd7, 22), HuffCode(0x7fffe0, 23),
       HuffCode(0xffffee, 24), HuffCode(0x7fffe1, 23), HuffCode(0x7fffe2, 23), HuffCode(0x7fffe3, 23),
       HuffCode(0x7fffe4, 23), HuffCode(0x1fffdc, 21), HuffCode(0x3fffd8, 22), HuffCode(0x7fffe5, 23),
       HuffCode(0x3fffd9, 22), HuffCode(0x7fffe6, 23), HuffCode(0x7fffe7, 23), HuffCode(0xffffef, 24)]
    else if r == 10 then
      [HuffCode(0x3fffda, 22), HuffCode(0x1fffdd, 21), HuffCode(0xfffe9, 20), HuffCode(0x3fffdb, 22),
       HuffCode(0x3fffdc, 22), HuffCode(0x7fffe8, 23), HuffCode(0x7fffe9, 23), HuffCode(0x1fffde, 21),
       HuffCode(0x7fffea, 23), HuffCode(0x3fffdd, 22), HuffCode(0x3fffde, 22), HuffCode(0xfffff0, 24),
       HuffCode(0x1fffdf, 21), HuffCode(0x3fffdf, 22), HuffCode(0x7fffeb, 23), HuffCode(0x7fffec, 23)]
    else if r == 11 then
      [HuffCode(0x1fffe0, 21), HuffCode(0x1fffe1, 21), HuffCode(0x3fffe0, 22), HuffCode(0x1fffe2, 21),
       HuffCode(0x7fffed, 23), HuffCode(0x3fffe1, 22), HuffCode(0x7fffee, 23), HuffCode(0x7fffef, 23),
       HuffCode(0xfffea, 20), HuffCode(0x3fffe2, 22), HuffCode(0x3fffe3, 22), HuffCode(0x3fffe4, 22),
       HuffCode(0x7ffff0, 23), HuffCode(0x3fffe5, 22), HuffCode(0x3fffe6, 22), HuffCode(0x7ffff1, 23)]
    else if r == 12 then
      [HuffCode(0x3ffffe0, 26), HuffCode(0x3ffffe1, 26), HuffCode(0xfffeb, 20), HuffCode(0x7fff1, 19),
       HuffCode(0x3fffe7, 22), HuffCode(0x7ffff2, 23), HuffCode(0x3fffe8, 22), HuffCode(0x1ffffec, 25),
       HuffCode(0x3ffffe2, 26), HuffCode(0x3ffffe3, 26), HuffCode(0x3ffffe4, 26), HuffCode(0x7ffffde, 27),
       HuffCode(0x7ffffdf, 27), HuffCode(0x3ffffe5, 26), HuffCode(0xfffff1, 24), HuffCode(0x1ffffed, 25)]
    else if r == 13 then
      [HuffCode(0x7fff2, 19), HuffCode(0x1fffe3, 21), HuffCode(0x3ffffe6, 26), HuffCode(0x7ffffe0, 27),
       HuffCode(0x7ffffe1, 27), HuffCode(0x3ffffe7, 26), HuffCode(0x7ffffe2, 27), HuffCode(0xfffff2, 24),
       HuffCode(0x1fffe4, 21), HuffCode(0x1fffe5, 21), HuffCode(0x3ffffe8, 26), HuffCode(0x3ffffe9, 26),
       HuffCode(0xffffffd, 28), HuffCode(0x7ffffe3, 27), HuffCode(0x7ffffe4, 27), HuffCode(0x7ffffe5, 27)]
    else if r == 14 then
      [HuffCode(0xfffec, 20), HuffCode(0xfffff3, 24), HuffCode(0xfffed, 20), HuffCode(0x1fffe6, 21),
       HuffCode(0x3fffe9, 22), HuffCode(0x1fffe7, 21), HuffCode(0x1fffe8, 21), HuffCode(0x7ffff3, 23),
       HuffCode(0x3fffea, 22), HuffCode(0x3fffeb, 22), HuffCode(0x1ffffee, 25), HuffCode(0x1ffffef, 25),
       HuffCode(0xfffff4, 24), HuffCode(0xfffff5, 24), HuffCode(0x3ffffea, 26), HuffCode(0x7ffff4, 23)]
    else if r == 15 then
      [HuffCode(0x3ffffeb, 26), HuffCode(0x7ffffe6, 27), HuffCode(0x3ffffec, 26), HuffCode(0x3ffffed, 26),
       HuffCode(0x7ffffe7, 27), HuffCode(0x7ffffe8, 27), HuffCode(0x7ffffe9, 27), HuffCode(0x7ffffea, 27),
       HuffCode(0x7ffffeb, 27), HuffCode(0xffffffe, 28), HuffCode(0x7ffffec, 27), HuffCode(0x7ffffed, 27),
       HuffCode(0x7ffffee, 27), HuffCode(0x7ffffef, 27), HuffCode(0x7fffff0, 27), HuffCode(0x3ffffee, 26)]
    else
      [HuffCode(0x3fffffff, 30)]
  }

  lemma RowLengths()
    ensures |Row(16)| == 1 && forall r :: 0 <= r < 16 ==> |Row(r)| == 16
  {}

  function Entry(s: nat): HuffCode
    requires s <= EOS
  {
    RowLengths();
    Row(s / 16)[s % 16]
  }

  function Table(): (t: seq<HuffCode>)
    ensures |t| == EOS + 1
    ensures forall s :: 0 <= s <= EOS ==> t[s] == Entry(s)
  {
    seq(EOS + 1, s requires 0 <= s <= EOS => Entry(s))
  }

  /** Hung below the path of the given code word, t carries the table's entries. */
  predicate Agrees(t: Trie, code: nat, bits: nat) {
    match t
    case Leaf(s) => s <= EOS && Entry(s) == HuffCode(code, bits) && bits <= 30
    case Fork(zero, one) => Agrees(zero, 2 * code, bits + 1) && Agrees(one, 2 * code + 1, bits + 1)
  }

  ghost predicate Piece(t: Trie, code: nat, bits: nat, leaves: nat) {
    Agrees(t, code, bits) && Leaves(t) == leaves
  }

  lemma Join(zero: Trie, one: Trie, code: nat, bits: nat, m: nat, n: nat) returns (t: Trie)
    requires Piece(zero, 2 * code, bits + 1, m) && Piece(one, 2 * code + 1, bits + 1, n)
    ensures Piece(t, code, bits, m + n)
  {
    t := Fork(zero, one);
  }

  lemma Piece0() returns (t: Trie)
    ensures Piece(t, 0x0, 3, 4)
  {
    t := Fork(Fork(Leaf(48), Leaf(49)), Fork(Leaf(50), Leaf(97)));
  }

  lemma Piece1() returns (t: Trie)
    ensures Piece(t, 0x1, 3, 4)
  {
    t := Fork(Fork(Leaf(99), Leaf(101)), Fork(Leaf(105), Leaf(111)));
  }

  lemma Piece2() returns (t: Trie)
    ensures Piece(t, 0x2, 3, 6)
  {
    t := Fork(Fork(Leaf(115), Leaf(116)), Fork(Fork(Leaf(32), Leaf(37)), Fork(Leaf(45), Leaf(46))));
  }

  lemma Piece3() returns (t: Trie)
    ensures Piece(t, 0x6, 4, 4)
  {
    t := Fork(Fork(Leaf(47), Leaf(51)), Fork(Leaf(52), Leaf(53)));
  }

  lemma Piece4() returns (t: Trie)
    ensures Piece(t, 0x7, 4, 4)
  {
    t := Fork(Fork(Leaf(54), Leaf(55)), Fork(Leaf(56), Leaf(57)));
  }

  lemma Piece5() returns (t: Trie)
    ensures Piece(t, 0x8, 4, 4)
  {
    t := Fork(Fork(Leaf(61), Leaf(65)), Fork(Leaf(95), Leaf(98)));
  }

  lemma Piece6() returns (t: Trie)
    ensures Piece(t, 0x9, 4, 4)
  {
    t := Fork(Fork(Leaf(100), Leaf(102)), Fork(Leaf(103), Leaf(104)));
  }

  lemma Piece7() returns (t: Trie)
    ensures Piece(t, 0xa, 4, 4)
  {
    t := Fork(Fork(Leaf(108), Leaf(109)), Fork(Leaf(110), Leaf(112)));
  }

  lemma Piece8() returns (t: Trie)
    ensures Piece(t, 0xb, 4, 6)
  {
    t := Fork(Fork(Leaf(114), Leaf(117)), Fork(Fork(Leaf(58), Leaf(66)), Fork(Leaf(67), Leaf(68))));
  }

  lemma Piece9() returns (t: Trie)
    ensures Piece(t, 0x18, 5, 4)
  {
    t := Fork(Fork(Leaf(69), Leaf(70)), Fork(Leaf(71), Leaf(72)));
  }

  lemma Piece10() returns (t: Trie)
    ensures Piece(t, 0x19, 5, 4)
  {
    t := Fork(Fork(Leaf(73), Leaf(74)), Fork(Leaf(75), Leaf(76)));
  }

  lemma Piece11() returns (t: Trie)
    ensures Piece(t, 0x1a, 5, 4)
  {
    t := Fork(Fork(Leaf(77), Leaf(78)), Fork(Leaf(79), Leaf(80)));
  }

  lemma Piece12() returns (t: Trie)
    ensures Piece(t, 0x1b, 5, 4)
  {
    t := Fork(Fork(Leaf(81), Leaf(82)), Fork(Leaf(83), Leaf(84)));
  }

  lemma Piece13() returns (t: Trie)
    ensures Piece(t, 0x1c, 5, 4)
  {
    t := Fork(Fork(Leaf(85), Leaf(86)), Fork(Leaf(87), Leaf(89)));
  }

  lemma Piece14() returns (t: Trie)
    ensures Piece(t, 0x1d, 5, 4)
  {
    t := Fork(Fork(Leaf(106), Leaf(107)), Fork(Leaf(113), Leaf(118)));
  }

  lemma Piece15() returns (t: Trie)
    ensures Piece(t, 0x1e, 5, 4)
  {
    t := Fork(Fork(Leaf(119), Leaf(120)), Fork(Leaf(121), Leaf(122)));
  }

  lemma Piece16() returns (t: Trie)
    ensures Piece(t, 0x3e, 6, 4)
  {
    t := Fork(Fork(Leaf(38), Leaf(42)), Fork(Leaf(44), Leaf(59)));
  }

  lemma Piece17() returns (t: Trie)
    ensures Piece(t, 0x7e, 7, 2)
  {
    t := Fork(Leaf(88), Leaf(90));
  }

  lemma Piece18() returns (t: Trie)
    ensures Piece(t, 0xfe, 8, 4)
  {
    t := Fork(Fork(Leaf(33), Leaf(34)), Fork(Leaf(40), Leaf(41)));
  }

  lemma Piece19() returns (t: Trie)
    ensures Piece(t, 0x1fe, 9, 3)
  {
    t := Fork(Leaf(63), Fork(Leaf(39), Leaf(43)));
  }

  lemma Piece20() returns (t: Trie)
    ensures Piece(t, 0x3fe, 10, 3)
  {
    t := Fork(Leaf(124), Fork(Leaf(35), Leaf(62)));
  }

  lemma Piece21() returns (t: Trie)
    ensures Piece(t, 0x7fe, 11, 4)
  {
    t := Fork(Fork(Leaf(0), Leaf(36)), Fork(Leaf(64), Leaf(91)));
  }

  lemma Piece22() returns (t: Trie)
    ensures Piece(t, 0xffe, 12, 2)
  {
    t := Fork(Leaf(93), Leaf(126));
  }

  lemma Piece23() returns (t: Trie)
    ensures Piece(t, 0x1ffe, 13, 2)
  {
    t := Fork(Leaf(94), Leaf(125));
  }

  lemma Piece24() returns (t: Trie)
    ensures Piece(t, 0x3ffe, 14, 2)
  {
    t := Fork(Leaf(60), Leaf(96));
  }

  lemma Piece25() returns (t: Trie)
    ensures Piece(t, 0x7ffe, 15, 1)
  {
    t := Leaf(123);
  }

  lemma Piece26() returns (t: Trie)
    ensures Piece(t, 0x1fffc, 17, 5)
  {
    t := Fork(Fork(Leaf(92), Leaf(195)), Fork(Leaf(208), Fork(Leaf(128), Leaf(130))));
  }

  lemma Piece27() returns (t: Trie)
    ensures Piece(t, 0x3fffa, 18, 4)
  {
    t := Fork(Fork(Leaf(131), Leaf(162)), Fork(Leaf(184), Leaf(194)));
  }

  lemma Piece28() returns (t: Trie)
    ensures Piece(t, 0x3fffb, 18, 6)
  {
    t := Fork(Fork(Leaf(224), Leaf(226)), Fork(Fork(Leaf(153), Leaf(161)), Fork(Leaf(167), Leaf(172))));
  }

  lemma Piece29() returns (t: Trie)
    ensures Piece(t, 0x7fff8, 19, 4)
  {
    t := Fork(Fork(Leaf(176), Leaf(177)), Fork(Leaf(179), Leaf(209)));
  }

  lemma Piece30() returns (t: Trie)
    ensures Piece(t, 0x7fff9, 19, 4)
  {
    t := Fork(Fork(Leaf(216), Leaf(217)), Fork(Leaf(227), Leaf(229)));
  }

  lemma Piece31() returns (t: Trie)
    ensures Piece(t, 0x7fffa, 19, 7)
  {
    t := Fork(Fork(Leaf(230), Fork(Leaf(129), Leaf(132))),
              Fork(Fork(Leaf(133), Leaf(134)), Fork(Leaf(136), Leaf(146))));
  }

  lemma Piece32() returns (t: Trie)
    ensures Piece(t, 0xffff6, 20, 4)
  {
    t := Fork(Fork(Leaf(154), Leaf(156)), Fork(Leaf(160), Leaf(163)));
  }

  lemma Piece33() returns (t: Trie)
    ensures Piece(t, 0xffff7, 20, 4)
  {
    t := Fork(Fork(Leaf(164), Leaf(169)), Fork(Leaf(170), Leaf(173)));
  }

  lemma Piece34() returns (t: Trie)
    ensures Piece(t, 0xffff8, 20, 4)
  {
    t := Fork(Fork(Leaf(178), Leaf(181)), Fork(Leaf(185), Leaf(186)));
  }

  lemma Piece35() returns (t: Trie)
    ensures Piece(t, 0xffff9, 20, 4)
  {
    t := Fork(Fork(Leaf(187), Leaf(189)), Fork(Leaf(190), Leaf(196)));
  }

  lemma Piece36() returns (t: Trie)
    ensures Piece(t, 0xffffa, 20, 4)
  {
    t := Fork(Fork(Leaf(198), Leaf(228)), Fork(Leaf(232), Leaf(233)));
  }

  lemma Piece37() returns (t: Trie)
    ensures Piece(t, 0x1ffff6, 21, 4)
  {
    t := Fork(Fork(Leaf(1), Leaf(135)), Fork(Leaf(137), Leaf(138)));
  }

  lemma Piece38() returns (t: Trie)
    ensures Piece(t, 0x1ffff7, 21, 4)
  {
    t := Fork(Fork(Leaf(139), Leaf(140)), Fork(Leaf(141), Leaf(143)));
  }

  lemma Piece39() returns (t: Trie)
    ensures Piece(t, 0x1ffff8, 21, 4)
  {
    t := Fork(Fork(Leaf(147), Leaf(149)), Fork(Leaf(150), Leaf(151)));
  }

  lemma Piece40() returns (t: Trie)
    ensures Piece(t, 0x1ffff9, 21, 4)
  {
    t := Fork(Fork(Leaf(152), Leaf(155)), Fork(Leaf(157), Leaf(158)));
  }

  lemma Piece41() returns (t: Trie)
    ensures Piece(t, 0x1ffffa, 21, 4)
  {
    t := Fork(Fork(Leaf(165), Leaf(166)), Fork(Leaf(168), Leaf(174)));
  }

  lemma Piece42() returns (t: Trie)
    ensures Piece(t, 0x1ffffb, 21, 4)
  {
    t := Fork(Fork(Leaf(175), Leaf(180)), Fork(Leaf(182), Leaf(183)));
  }

  lemma Piece43() returns (t: Trie)
    ensures Piece(t, 0x1ffffc, 21, 4)
  {
    t := Fork(Fork(Leaf(188), Leaf(191)), Fork(Leaf(197), Leaf(231)));
  }

  lemma Piece44() returns (t: Trie)
    ensures Piece(t, 0x1ffffd, 21, 7)
  {
    t := Fork(Fork(Leaf(239), Fork(Leaf(9), Leaf(142))), Fork(Fork(Leaf(144), Leaf(145)), Fork(Leaf(148), Leaf(159))));
  }

  lemma Piece45() returns (t: Trie)
    ensures Piece(t, 0x3ffffc, 22, 4)
  {
    t := Fork(Fork(Leaf(171), Leaf(206)), Fork(Leaf(215), Leaf(225)));
  }

  lemma Piece46() returns (t: Trie)
    ensures Piece(t, 0x3ffffd, 22, 6)
  {
    t := Fork(Fork(Leaf(236), Leaf(237)), Fork(Fork(Leaf(199), Leaf(207)), Fork(Leaf(234), Leaf(235))));
  }

  lemma Piece47() returns (t: Trie)
    ensures Piece(t, 0xfffff8, 24, 4)
  {
    t := Fork(Fork(Leaf(192), Leaf(193)), Fork(Leaf(200), Leaf(201)));
  }

  lemma Piece48() returns (t: Trie)
    ensures Piece(t, 0xfffff9, 24, 4)
  {
    t := Fork(Fork(Leaf(202), Leaf(205)), Fork(Leaf(210), Leaf(213)));
  }

  lemma Piece49() returns (t: Trie)
    ensures Piece(t, 0xfffffa, 24, 4)
  {
    t := Fork(Fork(Leaf(218), Leaf(219)), Fork(Leaf(238), Leaf(240)));
  }

  lemma Piece50() returns (t: Trie)
    ensures Piece(t, 0xfffffb, 24, 5)
  {
    t := Fork(Fork(Leaf(242), Leaf(243)), Fork(Leaf(255), Fork(Leaf(203), Leaf(204))));
  }

  lemma Piece51() returns (t: Trie)
    ensures Piece(t, 0x1fffff8, 25, 4)
  {
    t := Fork(Fork(Leaf(211), Leaf(212)), Fork(Leaf(214), Leaf(221)));
  }

  lemma Piece52() returns (t: Trie)
    ensures Piece(t, 0x1fffff9, 25, 4)
  {
    t := Fork(Fork(Leaf(222), Leaf(223)), Fork(Leaf(241), Leaf(244)));
  }

  lemma Piece53() returns (t: Trie)
    ensures Piece(t, 0x1fffffa, 25, 4)
  {
    t := Fork(Fork(Leaf(245), Leaf(246)), Fork(Leaf(247), Leaf(248)));
  }

  lemma Piece54() returns (t: Trie)
    ensures Piece(t, 0x1fffffb, 25, 4)
  {
    t := Fork(Fork(Leaf(250), Leaf(251)), Fork(Leaf(252), Leaf(253)));
  }

  lemma Piece55() returns (t: Trie)
    ensures Piece(t, 0x1fffffc, 25, 7)
  {
    t := Fork(Fork(Leaf(254), Fork(Leaf(2), Leaf(3))), Fork(Fork(Leaf(4), Leaf(5)), Fork(Leaf(6), Leaf(7))));
  }

  lemma Piece56() returns (t: Trie)
    ensures Piece(t, 0x3fffffa, 26, 4)
  {
    t := Fork(Fork(Leaf(8), Leaf(11)), Fork(Leaf(12), Leaf(14)));
  }

  lemma Piece57() returns (t: Trie)
    ensures Piece(t, 0x3fffffb, 26, 4)
  {
    t := Fork(Fork(Leaf(15), Leaf(16)), Fork(Leaf(17), Leaf(18)));
  }

  lemma Piece58() returns (t: Trie)
    ensures Piece(t, 0x3fffffc, 26, 4)
  {
    t := Fork(Fork(Leaf(19), Leaf(20)), Fork(Leaf(21), Leaf(23)));
  }

  lemma Piece59() returns (t: Trie)
    ensures Piece(t, 0x3fffffd, 26, 4)
  {
    t := Fork(Fork(Leaf(24), Leaf(25)), Fork(Leaf(26), Leaf(27)));
  }

  lemma Piece60() returns (t: Trie)
    ensures Piece(t, 0x3fffffe, 26, 4)
  {
    t := Fork(Fork(Leaf(28), Leaf(29)), Fork(Leaf(30), Leaf(31)));
  }

  lemma Piece61() returns (t: Trie)
    ensures Piece(t, 0x3ffffff, 26, 7)
  {
    t := Fork(Fork(Leaf(127), Leaf(220)), Fork(Leaf(249), Fork(Fork(Leaf(10), Leaf(13)), Fork(Leaf(22), Leaf(256)))));
  }

  lemma Subtree0() returns (t: Trie)
    ensures Piece(t, 0x3fffff, 22, 50)
  {
    var piece51 := Piece51();
    var piece52 := Piece52();
    var n29 := Join(piece51, piece52, 0xfffffc, 24, 4, 4);
    var piece53 := Piece53();
    var piece54 := Piece54();
    var n30 := Join(piece53, piece54, 0xfffffd, 24, 4, 4);
    var n31 := Join(n29, n30, 0x7ffffe, 23, 8, 8);
    var piece55 := Piece55();
    var piece56 := Piece56();
    var piece57 := Piece57();
    var n32 := Join(piece56, piece57, 0x1fffffd, 25, 4, 4);
    var n33 := Join(piece55, n32, 0xfffffe, 24, 7, 8);
    var piece58 := Piece58();
    var piece59 := Piece59();
    var n34 := Join(piece58, piece59, 0x1fffffe, 25, 4, 4);
    var piece60 := Piece60();
    var piece61 := Piece61();
    var n35 := Join(piece60, piece61, 0x1ffffff, 25, 4, 7);
    var n36 := Join(n34, n35, 0xffffff, 24, 8, 11);
    var n37 := Join(n33, n36, 0x7fffff, 23, 15, 19);
    var n38 := Join(n31, n37, 0x3fffff, 22, 16, 34);
    t := n38;
  }

  lemma Subtree1() returns (t: Trie)
    ensures Piece(t, 0x7ffff, 19, 88)
  {
    var piece43 := Piece43();
    var piece44 := Piece44();
    var n24 := Join(piece43, piece44, 0xffffe, 20, 4, 7);
    var piece45 := Piece45();
    var piece46 := Piece46();
    var n25 := Join(piece45, piece46, 0x1ffffe, 21, 4, 6);
    var piece47 := Piece47();
    var piece48 := Piece48();
    var n26 := Join(piece47, piece48, 0x7ffffc, 23, 4, 4);
    var piece49 := Piece49();
    var piece50 := Piece50();
    var n27 := Join(piece49, piece50, 0x7ffffd, 23, 4, 5);
    var n28 := Join(n26, n27, 0x3ffffe, 22, 8, 9);
    var subtree0 := Subtree0();
    var n39 := Join(n28, subtree0, 0x1fffff, 21, 17, 50);
    var n40 := Join(n25, n39, 0xfffff, 20, 10, 67);
    var n41 := Join(n24, n40, 0x7ffff, 19, 11, 77);
    t := n41;
  }

  lemma Subtree2() returns (t: Trie)
    ensures Piece(t, 0x1ffff, 17, 124)
  {
    var piece34 := Piece34();
    var piece35 := Piece35();
    var n17 := Join(piece34, piece35, 0x7fffc, 19, 4, 4);
    var piece36 := Piece36();
    var piece37 := Piece37();
    var piece38 := Piece38();
    var n18 := Join(piece37, piece38, 0xffffb, 20, 4, 4);
    var n19 := Join(piece36, n18, 0x7fffd, 19, 4, 8);
    var n20 := Join(n17, n19, 0x3fffe, 18, 8, 12);
    var piece39 := Piece39();
    var piece40 := Piece40();
    var n21 := Join(piece39, piece40, 0xffffc, 20, 4, 4);
    var piece41 := Piece41();
    var piece42 := Piece42();
    var n22 := Join(piece41, piece42, 0xffffd, 20, 4, 4);
    var n23 := Join(n21, n22, 0x7fffe, 19, 8, 8);
    var subtree1 := Subtree1();
    var n42 := Join(n23, subtree1, 0x3ffff, 18, 16, 88);
    var n43 := Join(n20, n42, 0x1ffff, 17, 20, 104);
    t := n43;
  }

  lemma Subtree3() returns (t: Trie)
    ensures Piece(t, 0x7fff, 15, 162)
  {
    var piece26 := Piece26();
    var piece27 := Piece27();
    var piece28 := Piece28();
    var n11 := Join(piece27, piece28, 0x1fffd, 17, 4, 6);
    var n12 := Join(piece26, n11, 0xfffe, 16, 5, 10);
    var piece29 := Piece29();
    var piece30 := Piece30();
    var n13 := Join(piece29, piece30, 0x3fffc, 18, 4, 4);
    var piece31 := Piece31();
    var piece32 := Piece32();
    var piece33 := Piece33();
    var n14 := Join(piece32, piece33, 0x7fffb, 19, 4, 4);
    var n15 := Join(piece31, n14, 0x3fffd, 18, 7, 8);
    var n16 := Join(n13, n15, 0x1fffe, 17, 8, 15);
    var subtree2 := Subtree2();
    var n44 := Join(n16, subtree2, 0xffff, 16, 23, 124);
    var n45 := Join(n12, n44, 0x7fff, 15, 15, 147);
    t := n45;
  }

  lemma Subtree4() returns (t: Trie)
    ensures Piece(t, 0x7f, 7, 183)
  {
    var piece18 := Piece18();
    var piece19 := Piece19();
    var piece20 := Piece20();
    var piece21 := Piece21();
    var piece22 := Piece22();
    var piece23 := Piece23();
    var piece24 := Piece24();
    var piece25 := Piece25();
    var subtree3 := Subtree3();
    var n46 := Join(piece25, subtree3, 0x3fff, 14, 1, 162);
    var n47 := Join(piece24, n46, 0x1fff, 13, 2, 163);
    var n48 := Join(piece23, n47, 0xfff, 12, 2, 165);
    var n49 := Join(piece22, n48, 0x7ff, 11, 2, 167);
    var n50 := Join(piece21, n49, 0x3ff, 10, 4, 169);
    var n51 := Join(piece20, n50, 0x1ff, 9, 3, 173);
    var n52 := Join(piece19, n51, 0xff, 8, 3, 176);
    var n53 := Join(piece18, n52, 0x7f, 7, 4, 179);
    t := n53;
  }

  lemma Subtree5() returns (t: Trie)
    ensures Piece(t, 0x3, 2, 217)
  {
    var piece9 := Piece9();
    var piece10 := Piece10();
    var n7 := Join(piece9, piece10, 0xc, 4, 4, 4);
    var piece11 := Piece11();
    var piece12 := Piece12();
    var n8 := Join(piece11, piece12, 0xd, 4, 4, 4);
    var n9 := Join(n7, n8, 0x6, 3, 8, 8);
    var piece13 := Piece13();
    var piece14 := Piece14();
    var n10 := Join(piece13, piece14, 0xe, 4, 4, 4);
    var piece15 := Piece15();
    var piece16 := Piece16();
    var piece17 := Piece17();
    var subtree4 := Subtree4();
    var n54 := Join(piece17, subtree4, 0x3f, 6, 2, 183);
    var n55 := Join(piece16, n54, 0x1f, 5, 4, 185);
    var n56 := Join(piece15, n55, 0xf, 4, 4, 189);
    var n57 := Join(n10, n56, 0x7, 3, 8, 193);
    var n58 := Join(n9, n57, 0x3, 2, 16, 201);
    t := n58;
  }

  lemma WholeTree() returns (t: Trie)
    ensures Piece(t, 0x0, 0, 257)
  {
    var piece0 := Piece0();
    var piece1 := Piece1();
    var n0 := Join(piece0, piece1, 0x0, 2, 4, 4);
    var piece2 := Piece2();
    var piece3 := Piece3();
    var piece4 := Piece4();
    var n1 := Join(piece3, piece4, 0x3, 3, 4, 4);
    var n2 := Join(piece2, n1, 0x1, 2, 6, 8);
    var n3 := Join(n0, n2, 0x0, 1, 8, 14);
    var piece5 := Piece5();
    var piece6 := Piece6();
    var n4 := Join(piece5, piece6, 0x4, 3, 4, 4);
    var piece7 := Piece7();
    var piece8 := Piece8();
    var n5 := Join(piece7, piece8, 0x5, 3, 4, 6);
    var n6 := Join(n4, n5, 0x2, 2, 8, 10);
    var subtree5 := Subtree5();
    var n59 := Join(n6, subtree5, 0x1, 1, 18, 217);
    var n60 := Join(n3, n59, 0x0, 0, 22, 235);
    t := n60;
  }

  lemma {:induction false} AgreesCarries(t: Trie, code: nat, bits: nat)
    requires Agrees(t, code, bits)
    ensures Carries(t, BitsOf(code, bits), CodesOf(Table()))
  {
    match t
    case Leaf(_) =>
    case Fork(zero, one) =>
      assert (2 * code) / 2 == code && (2 * code + 1) / 2 == code;
      AgreesCarries(zero, 2 * code, bits + 1);
      AgreesCarries(one, 2 * code + 1, bits + 1);
  }

  lemma {:induction false} AgreesFits(t: Trie, code: nat, bits: nat, s: nat)
    requires Agrees(t, code, bits) && code < Pow2(bits) && s in Symbols(t)
    ensures s <= EOS && bits <= Entry(s).bits <= 30 && Entry(s).code < Pow2(Entry(s).bits)
    ensures t.Fork? ==> bits < Entry(s).bits
  {
    match t
    case Leaf(_) =>
    case Fork(zero, one) =>
      if s in Symbols(zero) {
        AgreesFits(zero, 2 * code, bits + 1, s);
      } else {
        AgreesFits(one, 2 * code + 1, bits + 1, s);
      }
  }

  lemma EndOfStringCode()
    ensures CodesOf(Table())[EOS] == Ones(30)
  {
    RowLengths();
    assert Entry(256) == HuffCode(0x3fffffff, 30);
    assert Pow2(10) == 0x400;
    assert Pow2(20) == 0x10_0000;
    assert Pow2(30) == 0x4000_0000;
    BitsOfOnes(30);
  }

  /**
   Appendix B is a complete usable prefix code, and its tree has 513 nodes: the 514-entry
   array suffices.
   */
  lemma TableIsGood()
    ensures GoodTable(Table()) && Complete(CodesOf(Table()))
    ensures |Prefixes(CodesOf(Table()))| == 513 < NODES
  {
    var t := WholeTree();
    var codes := CodesOf(Table());
    assert t.Fork?;
    assert BitsOf(0, 0) == [];
    AgreesCarries(t, 0, 0);
    AllSymbols(t, codes);
    TreeProves(t, codes);
    EndOfStringCode();
    forall s | 0 <= s <= EOS
      ensures 1 <= Table()[s].bits <= 30 && Table()[s].code < Pow2(Table()[s].bits) && codes[s] != []
    {
      assert s in Symbols(t);
      AgreesFits(t, 0, 0, s);
    }
  }

}
