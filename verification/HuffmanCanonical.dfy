/**
 The Huffman code of Appendix B of RFC 7541 is the canonical code of its lengths: given which symbols have how many
 bits, code words are counted off in the order of the symbols, the shorter ones first. So no code word can belong to
 another symbol.
 */
module HuffmanCanonical {
  import opened Basics
  import opened Bits
  import opened PrefixCode
  import opened HuffmanTree
  import HuffmanTable

  // ---------------------------------------------------------------- who has how many bits

  datatype Symbols = End | Sym(first: nat, rest: Symbols)

  function Six(a: nat, b: nat, c: nat, d: nat, e: nat, f: nat, rest: Symbols): Symbols {
    Sym(a, Sym(b, Sym(c, Sym(d, Sym(e, Sym(f, rest))))))
  }

  /** The symbols whose code words have that many bits, in order. */
  function Group(bits: nat): Symbols {
    if bits == 5 then
      Six(48, 49, 50, 97, 99, 101,
      Sym(105, Sym(111, Sym(115, Sym(116, End)))))
    else if bits == 6 then
      Six(32, 37, 45, 46, 47, 51,
      Six(52, 53, 54, 55, 56, 57,
      Last6()))
    else if bits == 7 then
      Six(58, 66, 67, 68, 69, 70,
      Six(71, 72, 73, 74, 75, 76,
      Six(77, 78, 79, 80, 81, 82,
      Last7())))
    else if bits == 8 then
      Six(38, 42, 44, 59, 88, 90,
      End)
    else if bits == 10 then
      Sym(33, Sym(34, Sym(40, Sym(41, Sym(63, End)))))
    else if bits == 11 then
      Sym(39, Sym(43, Sym(124, End)))
    else if bits == 12 then
      Sym(35, Sym(62, End))
    else if bits == 13 then
      Six(0, 36, 64, 91, 93, 126,
      End)
    else if bits == 14 then
      Sym(94, Sym(125, End))
    else if bits == 15 then
      Sym(60, Sym(96, Sym(123, End)))
    else if bits == 19 then
      Sym(92, Sym(195, Sym(208, End)))
    else if bits == 20 then
      Six(128, 130, 131, 162, 184, 194,
      Sym(224, Sym(226, End)))
    else if bits == 21 then
      Six(153, 161, 167, 172, 176, 177,
      Last21())
    else if bits == 22 then
      Six(129, 132, 133, 134, 136, 146,
      Six(154, 156, 160, 163, 164, 169,
      Last22()))
    else if bits == 23 then
      Six(1, 135, 137, 138, 139, 140,
      Six(141, 143, 147, 149, 150, 151,
      Last23()))
    else if bits == 24 then
      Six(9, 142, 144, 145, 148, 159,
      Six(171, 206, 215, 225, 236, 237,
      End))
    else if bits == 25 then
      Sym(199, Sym(207, Sym(234, Sym(235, End))))
    else if bits == 26 then
      Six(192, 193, 200, 201, 202, 205,
      Last26())
    else if bits == 27 then
      Six(203, 204, 211, 212, 214, 221,
      Six(222, 223, 241, 244, 245, 246,
      Last27()))
    else if bits == 28 then
      Six(2, 3, 4, 5, 6, 7,
      Six(8, 11, 12, 14, 15, 16,
      Last28()))
    else if bits == 30 then
      Sym(10, Sym(13, Sym(22, Sym(256, End))))
    else End
  }

  function Last6(): Symbols {
    Six(61, 65, 95, 98, 100, 102,
    Six(103, 104, 108, 109, 110, 112,
    Sym(114, Sym(117, End))))
  }

  function Last7(): Symbols {
    Six(83, 84, 85, 86, 87, 89,
    Six(106, 107, 113, 118, 119, 120,
    Sym(121, Sym(122, End))))
  }

  function Last21(): Symbols {
    Six(179, 209, 216, 217, 227, 229,
    Sym(230, End))
  }

  function Last22(): Symbols {
    Six(170, 173, 178, 181, 185, 186,
    Six(187, 189, 190, 196, 198, 228,
    Sym(232, Sym(233, End))))
  }

  function Last23(): Symbols {
    Six(152, 155, 157, 158, 165, 166,
    Six(168, 174, 175, 180, 182, 183,
    Sym(188, Sym(191, Sym(197, Sym(231, Sym(239, End)))))))
  }

  function Last26(): Symbols {
    Six(210, 213, 218, 219, 238, 240,
    Sym(242, Sym(243, Sym(255, End))))
  }

  function Last27(): Symbols {
    Six(247, 248, 250, 251, 252, 253,
    Sym(254, End))
  }

  function Last28(): Symbols {
    Six(17, 18, 19, 20, 21, 23,
    Six(24, 25, 26, 27, 28, 29,
    Sym(30, Sym(31, Sym(127, Sym(220, Sym(249, End)))))))
  }

  function Count(list: Symbols): nat {
    if list.End? then 0 else 1 + Count(list.rest)
  }

  function Nth(list: Symbols, k: nat): nat
    requires k < Count(list)
  {
    if k == 0 then list.first else Nth(list.rest, k - 1)
  }

  /** The first code word of a length, when the shorter ones were counted off before it. */
  function Start(bits: nat): nat {
    if bits == 0 then 0 else 2 * (Start(bits - 1) + Count(Group(bits - 1)))
  }

  // ---------------------------------------------------------------- the table counts them off

  /** From least on, in ascending order, these symbols have the code words from code on. */
  predicate CountsOff(list: Symbols, least: nat, code: nat, bits: nat) {
    list.Sym? ==>
      && least <= list.first <= EOS && HuffmanTable.Entry(list.first) == HuffCode(code, bits)
      && CountsOff(list.rest, list.first + 1, code + 1, bits)
  }

  lemma Add(a: nat, rest: Symbols, code: nat, bits: nat) returns (list: Symbols)
    requires a <= EOS && HuffmanTable.Entry(a) == HuffCode(code, bits)
    requires CountsOff(rest, a + 1, code + 1, bits)
    ensures list == Sym(a, rest) && Count(list) == 1 + Count(rest)
    ensures forall least: nat :: least <= a ==> CountsOff(list, least, code, bits)
  {
    hide HuffmanTable.Entry;
    list := Sym(a, rest);
  }

  lemma AddSix(a: nat, b: nat, c: nat, d: nat, e: nat, f: nat, rest: Symbols, code: nat, bits: nat)
    returns (list: Symbols)
    requires a < b < c < d < e < f <= EOS
    requires HuffmanTable.Entry(a) == HuffCode(code, bits) && HuffmanTable.Entry(b) == HuffCode(code + 1, bits)
    requires HuffmanTable.Entry(c) == HuffCode(code + 2, bits) && HuffmanTable.Entry(d) == HuffCode(code + 3, bits)
    requires HuffmanTable.Entry(e) == HuffCode(code + 4, bits) && HuffmanTable.Entry(f) == HuffCode(code + 5, bits)
    requires CountsOff(rest, f + 1, code + 6, bits)
    ensures list == Six(a, b, c, d, e, f, rest) && Count(list) == 6 + Count(rest)
    ensures forall least: nat :: least <= a ==> CountsOff(list, least, code, bits)
  {
    hide HuffmanTable.Entry, CountsOff, Count;
    list := Add(f, rest, code + 5, bits);
    list := Add(e, list, code + 4, bits);
    list := Add(d, list, code + 3, bits);
    list := Add(c, list, code + 2, bits);
    list := Add(b, list, code + 1, bits);
    list := Add(a, list, code, bits);
  }


  lemma Length5()
    ensures CountsOff(Group(5), 0, 0x0, 5)
    ensures Count(Group(5)) == 10
  {
    hide CountsOff, Count, Six;
    var list := End;
    NoneLeft(117, 0xa, 5);
    list := Add(116, list, 0x9, 5);
    list := Add(115, list, 0x8, 5);
    list := Add(111, list, 0x7, 5);
    list := Add(105, list, 0x6, 5);
    list := AddSix(48, 49, 50, 97, 99, 101, list, 0x0, 5);
    assert Group(5) == list;
  }

  lemma Back6()
    ensures CountsOff(Last6(), 58, 0x20, 6)
    ensures Count(Last6()) == 14
  {
    hide CountsOff, Count, Six;
    var list := End;
    NoneLeft(118, 0x2e, 6);
    list := Add(117, list, 0x2d, 6);
    list := Add(114, list, 0x2c, 6);
    list := AddSix(103, 104, 108, 109, 110, 112, list, 0x26, 6);
    list := AddSix(61, 65, 95, 98, 100, 102, list, 0x20, 6);
    assert Last6() == list;
  }

  lemma Length6()
    ensures CountsOff(Group(6), 0, 0x14, 6)
    ensures Count(Group(6)) == 26
  {
    hide CountsOff, Count, Six;
    var list := Last6();
    Back6();
    list := AddSix(52, 53, 54, 55, 56, 57, list, 0x1a, 6);
    list := AddSix(32, 37, 45, 46, 47, 51, list, 0x14, 6);
    assert Group(6) == list;
  }

  lemma Back7()
    ensures CountsOff(Last7(), 83, 0x6e, 7)
    ensures Count(Last7()) == 14
  {
    hide CountsOff, Count, Six;
    var list := End;
    NoneLeft(123, 0x7c, 7);
    list := Add(122, list, 0x7b, 7);
    list := Add(121, list, 0x7a, 7);
    list := AddSix(106, 107, 113, 118, 119, 120, list, 0x74, 7);
    list := AddSix(83, 84, 85, 86, 87, 89, list, 0x6e, 7);
    assert Last7() == list;
  }

  lemma Length7()
    ensures CountsOff(Group(7), 0, 0x5c, 7)
    ensures Count(Group(7)) == 32
  {
    hide CountsOff, Count, Six;
    var list := Last7();
    Back7();
    list := AddSix(77, 78, 79, 80, 81, 82, list, 0x68, 7);
    list := AddSix(71, 72, 73, 74, 75, 76, list, 0x62, 7);
    list := AddSix(58, 66, 67, 68, 69, 70, list, 0x5c, 7);
    assert Group(7) == list;
  }

  lemma Length8()
    ensures CountsOff(Group(8), 0, 0xf8, 8)
    ensures Count(Group(8)) == 6
  {
    hide CountsOff, Count, Six;
    var list := End;
    NoneLeft(91, 0xfe, 8);
    list := AddSix(38, 42, 44, 59, 88, 90, list, 0xf8, 8);
    assert Group(8) == list;
  }

  lemma Length10()
    ensures CountsOff(Group(10), 0, 0x3f8, 10)
    ensures Count(Group(10)) == 5
  {
    hide CountsOff, Count, Six;
    var list := End;
    NoneLeft(64, 0x3fd, 10);
    list := Add(63, list, 0x3fc, 10);
    list := Add(41, list, 0x3fb, 10);
    list := Add(40, list, 0x3fa, 10);
    list := Add(34, list, 0x3f9, 10);
    list := Add(33, list, 0x3f8, 10);
    assert Group(10) == list;
  }

  lemma Length11()
    ensures CountsOff(Group(11), 0, 0x7fa, 11)
    ensures Count(Group(11)) == 3
  {
    hide CountsOff, Count, Six;
    var list := End;
    NoneLeft(125, 0x7fd, 11);
    list := Add(124, list, 0x7fc, 11);
    list := Add(43, list, 0x7fb, 11);
    list := Add(39, list, 0x7fa, 11);
    assert Group(11) == list;
  }

  lemma Length12()
    ensures CountsOff(Group(12), 0, 0xffa, 12)
    ensures Count(Group(12)) == 2
  {
    hide CountsOff, Count, Six;
    var list := End;
    NoneLeft(63, 0xffc, 12);
    list := Add(62, list, 0xffb, 12);
    list := Add(35, list, 0xffa, 12);
    assert Group(12) == list;
  }

  lemma Length13()
    ensures CountsOff(Group(13), 0, 0x1ff8, 13)
    ensures Count(Group(13)) == 6
  {
    hide CountsOff, Count, Six;
    var list := End;
    NoneLeft(127, 0x1ffe, 13);
    list := AddSix(0, 36, 64, 91, 93, 126, list, 0x1ff8, 13);
    assert Group(13) == list;
  }

  lemma Length14()
    ensures CountsOff(Group(14), 0, 0x3ffc, 14)
    ensures Count(Group(14)) == 2
  {
    hide CountsOff, Count, Six;
    var list := End;
    NoneLeft(126, 0x3ffe, 14);
    list := Add(125, list, 0x3ffd, 14);
    list := Add(94, list, 0x3ffc, 14);
    assert Group(14) == list;
  }

  lemma Length15()
    ensures CountsOff(Group(15), 0, 0x7ffc, 15)
    ensures Count(Group(15)) == 3
  {
    hide CountsOff, Count, Six;
    var list := End;
    NoneLeft(124, 0x7fff, 15);
    list := Add(123, list, 0x7ffe, 15);
    list := Add(96, list, 0x7ffd, 15);
    list := Add(60, list, 0x7ffc, 15);
    assert Group(15) == list;
  }

  lemma Length19()
    ensures CountsOff(Group(19), 0, 0x7fff0, 19)
    ensures Count(Group(19)) == 3
  {
    hide CountsOff, Count, Six;
    var list := End;
    NoneLeft(209, 0x7fff3, 19);
    list := Add(208, list, 0x7fff2, 19);
    list := Add(195, list, 0x7fff1, 19);
    list := Add(92, list, 0x7fff0, 19);
    assert Group(19) == list;
  }

  lemma Length20()
    ensures CountsOff(Group(20), 0, 0xfffe6, 20)
    ensures Count(Group(20)) == 8
  {
    hide CountsOff, Count, Six;
    var list := End;
    NoneLeft(227, 0xfffee, 20);
    list := Add(226, list, 0xfffed, 20);
    list := Add(224, list, 0xfffec, 20);
    list := AddSix(128, 130, 131, 162, 184, 194, list, 0xfffe6, 20);
    assert Group(20) == list;
  }

  lemma Back21()
    ensures CountsOff(Last21(), 178, 0x1fffe2, 21)
    ensures Count(Last21()) == 7
  {
    hide CountsOff, Count, Six;
    var list := End;
    NoneLeft(231, 0x1fffe9, 21);
    list := Add(230, list, 0x1fffe8, 21);
    list := AddSix(179, 209, 216, 217, 227, 229, list, 0x1fffe2, 21);
    assert Last21() == list;
  }

  lemma Length21()
    ensures CountsOff(Group(21), 0, 0x1fffdc, 21)
    ensures Count(Group(21)) == 13
  {
    hide CountsOff, Count, Six;
    var list := Last21();
    Back21();
    list := AddSix(153, 161, 167, 172, 176, 177, list, 0x1fffdc, 21);
    assert Group(21) == list;
  }

  lemma Back22()
    ensures CountsOff(Last22(), 170, 0x3fffde, 22)
    ensures Count(Last22()) == 14
  {
    hide CountsOff, Count, Six;
    var list := End;
    NoneLeft(234, 0x3fffec, 22);
    list := Add(233, list, 0x3fffeb, 22);
    list := Add(232, list, 0x3fffea, 22);
    list := AddSix(187, 189, 190, 196, 198, 228, list, 0x3fffe4, 22);
    list := AddSix(170, 173, 178, 181, 185, 186, list, 0x3fffde, 22);
    assert Last22() == list;
  }

  lemma Length22()
    ensures CountsOff(Group(22), 0, 0x3fffd2, 22)
    ensures Count(Group(22)) == 26
  {
    hide CountsOff, Count, Six;
    var list := Last22();
    Back22();
    list := AddSix(154, 156, 160, 163, 164, 169, list, 0x3fffd8, 22);
    list := AddSix(129, 132, 133, 134, 136, 146, list, 0x3fffd2, 22);
    assert Group(22) == list;
  }

  lemma Back23()
    ensures CountsOff(Last23(), 152, 0x7fffe4, 23)
    ensures Count(Last23()) == 17
  {
    hide CountsOff, Count, Six;
    var list := End;
    NoneLeft(240, 0x7ffff5, 23);
    list := Add(239, list, 0x7ffff4, 23);
    list := Add(231, list, 0x7ffff3, 23);
    list := Add(197, list, 0x7ffff2, 23);
    list := Add(191, list, 0x7ffff1, 23);
    list := Add(188, list, 0x7ffff0, 23);
    list := AddSix(168, 174, 175, 180, 182, 183, list, 0x7fffea, 23);
    list := AddSix(152, 155, 157, 158, 165, 166, list, 0x7fffe4, 23);
    assert Last23() == list;
  }

  lemma Length23()
    ensures CountsOff(Group(23), 0, 0x7fffd8, 23)
    ensures Count(Group(23)) == 29
  {
    hide CountsOff, Count, Six;
    var list := Last23();
    Back23();
    list := AddSix(141, 143, 147, 149, 150, 151, list, 0x7fffde, 23);
    list := AddSix(1, 135, 137, 138, 139, 140, list, 0x7fffd8, 23);
    assert Group(23) == list;
  }

  lemma Length24()
    ensures CountsOff(Group(24), 0, 0xffffea, 24)
    ensures Count(Group(24)) == 12
  {
    hide CountsOff, Count, Six;
    var list := End;
    NoneLeft(238, 0xfffff6, 24);
    list := AddSix(171, 206, 215, 225, 236, 237, list, 0xfffff0, 24);
    list := AddSix(9, 142, 144, 145, 148, 159, list, 0xffffea, 24);
    assert Group(24) == list;
  }

  lemma Length25()
    ensures CountsOff(Group(25), 0, 0x1ffffec, 25)
    ensures Count(Group(25)) == 4
  {
    hide CountsOff, Count, Six;
    var list := End;
    NoneLeft(236, 0x1fffff0, 25);
    list := Add(235, list, 0x1ffffef, 25);
    list := Add(234, list, 0x1ffffee, 25);
    list := Add(207, list, 0x1ffffed, 25);
    list := Add(199, list, 0x1ffffec, 25);
    assert Group(25) == list;
  }

  lemma Back26()
    ensures CountsOff(Last26(), 206, 0x3ffffe6, 26)
    ensures Count(Last26()) == 9
  {
    hide CountsOff, Count, Six;
    var list := End;
    NoneLeft(256, 0x3ffffef, 26);
    list := Add(255, list, 0x3ffffee, 26);
    list := Add(243, list, 0x3ffffed, 26);
    list := Add(242, list, 0x3ffffec, 26);
    list := AddSix(210, 213, 218, 219, 238, 240, list, 0x3ffffe6, 26);
    assert Last26() == list;
  }

  lemma Length26()
    ensures CountsOff(Group(26), 0, 0x3ffffe0, 26)
    ensures Count(Group(26)) == 15
  {
    hide CountsOff, Count, Six;
    var list := Last26();
    Back26();
    list := AddSix(192, 193, 200, 201, 202, 205, list, 0x3ffffe0, 26);
    assert Group(26) == list;
  }

  lemma Back27()
    ensures CountsOff(Last27(), 247, 0x7ffffea, 27)
    ensures Count(Last27()) == 7
  {
    hide CountsOff, Count, Six;
    var list := End;
    NoneLeft(255, 0x7fffff1, 27);
    list := Add(254, list, 0x7fffff0, 27);
    list := AddSix(247, 248, 250, 251, 252, 253, list, 0x7ffffea, 27);
    assert Last27() == list;
  }

  lemma Length27()
    ensures CountsOff(Group(27), 0, 0x7ffffde, 27)
    ensures Count(Group(27)) == 19
  {
    hide CountsOff, Count, Six;
    var list := Last27();
    Back27();
    list := AddSix(222, 223, 241, 244, 245, 246, list, 0x7ffffe4, 27);
    list := AddSix(203, 204, 211, 212, 214, 221, list, 0x7ffffde, 27);
    assert Group(27) == list;
  }

  lemma Back28()
    ensures CountsOff(Last28(), 17, 0xfffffee, 28)
    ensures Count(Last28()) == 17
  {
    hide CountsOff, Count, Six;
    var list := End;
    NoneLeft(250, 0xfffffff, 28);
    list := Add(249, list, 0xffffffe, 28);
    list := Add(220, list, 0xffffffd, 28);
    list := Add(127, list, 0xffffffc, 28);
    list := Add(31, list, 0xffffffb, 28);
    list := Add(30, list, 0xffffffa, 28);
    list := AddSix(24, 25, 26, 27, 28, 29, list, 0xffffff4, 28);
    list := AddSix(17, 18, 19, 20, 21, 23, list, 0xfffffee, 28);
    assert Last28() == list;
  }

  lemma Length28()
    ensures CountsOff(Group(28), 0, 0xfffffe2, 28)
    ensures Count(Group(28)) == 29
  {
    hide CountsOff, Count, Six;
    var list := Last28();
    Back28();
    list := AddSix(8, 11, 12, 14, 15, 16, list, 0xfffffe8, 28);
    list := AddSix(2, 3, 4, 5, 6, 7, list, 0xfffffe2, 28);
    assert Group(28) == list;
  }

  lemma Length30()
    ensures CountsOff(Group(30), 0, 0x3ffffffc, 30)
    ensures Count(Group(30)) == 4
  {
    hide CountsOff, Count, Six;
    var list := End;
    NoneLeft(257, 0x40000000, 30);
    list := Add(256, list, 0x3fffffff, 30);
    list := Add(22, list, 0x3ffffffe, 30);
    list := Add(13, list, 0x3ffffffd, 30);
    list := Add(10, list, 0x3ffffffc, 30);
    assert Group(30) == list;
  }

  lemma NoneLeft(least: nat, code: nat, bits: nat)
    ensures CountsOff(End, least, code, bits) && Count(End) == 0
  {}

  lemma NoGroups()
    ensures forall bits: nat :: bits < 5 || bits in {9, 16, 17, 18, 29} ==> Count(Group(bits)) == 0
  {}

  // ---------------------------------------------------------------- from the canonical starts

  lemma FirstStarts()
    ensures Start(5) == 0x0
    ensures Start(6) == 0x14
    ensures Start(7) == 0x5c
    ensures Start(8) == 0xf8
    ensures Start(10) == 0x3f8
    ensures Start(11) == 0x7fa
    ensures Start(12) == 0xffa
  {
    hide Group, Count, CountsOff;
    NoGroups();
    assert Start(1) == 0x0;
    assert Start(2) == 0x0;
    assert Start(3) == 0x0;
    assert Start(4) == 0x0;
    assert Start(5) == 0x0;
    Length5();
    assert Start(6) == 0x14;
    Length6();
    assert Start(7) == 0x5c;
    Length7();
    assert Start(8) == 0xf8;
    Length8();
    assert Start(9) == 0x1fc;
    assert Start(10) == 0x3f8;
    Length10();
    assert Start(11) == 0x7fa;
    Length11();
    assert Start(12) == 0xffa;
  }

  lemma MiddleStarts()
    ensures Start(13) == 0x1ff8
    ensures Start(14) == 0x3ffc
    ensures Start(15) == 0x7ffc
    ensures Start(19) == 0x7fff0
    ensures Start(20) == 0xfffe6
    ensures Start(21) == 0x1fffdc
    ensures Start(22) == 0x3fffd2
  {
    hide Group, Count, CountsOff;
    NoGroups();
    FirstStarts();
    Length12();
    assert Start(13) == 0x1ff8;
    Length13();
    assert Start(14) == 0x3ffc;
    Length14();
    assert Start(15) == 0x7ffc;
    Length15();
    assert Start(16) == 0xfffe;
    assert Start(17) == 0x1fffc;
    assert Start(18) == 0x3fff8;
    assert Start(19) == 0x7fff0;
    Length19();
    assert Start(20) == 0xfffe6;
    Length20();
    assert Start(21) == 0x1fffdc;
    Length21();
    assert Start(22) == 0x3fffd2;
  }

  lemma LastStarts()
    ensures Start(23) == 0x7fffd8
    ensures Start(24) == 0xffffea
    ensures Start(25) == 0x1ffffec
    ensures Start(26) == 0x3ffffe0
    ensures Start(27) == 0x7ffffde
    ensures Start(28) == 0xfffffe2
    ensures Start(30) == 0x3ffffffc
  {
    hide Group, Count, CountsOff;
    NoGroups();
    MiddleStarts();
    Length22();
    assert Start(23) == 0x7fffd8;
    Length23();
    assert Start(24) == 0xffffea;
    Length24();
    assert Start(25) == 0x1ffffec;
    Length25();
    assert Start(26) == 0x3ffffe0;
    Length26();
    assert Start(27) == 0x7ffffde;
    Length27();
    assert Start(28) == 0xfffffe2;
    Length28();
    assert Start(29) == 0x1ffffffe;
    assert Start(30) == 0x3ffffffc;
  }

  /** The table counts off every length from its canonical start. */
  lemma EveryLength(bits: nat)
    ensures CountsOff(Group(bits), 0, Start(bits), bits)
  {
    hide CountsOff, Start;
    FirstStarts();
    MiddleStarts();
    LastStarts();
    match bits
    case 5 => Length5();
    case 6 => Length6();
    case 7 => Length7();
    case 8 => Length8();
    case 10 => Length10();
    case 11 => Length11();
    case 12 => Length12();
    case 13 => Length13();
    case 14 => Length14();
    case 15 => Length15();
    case 19 => Length19();
    case 20 => Length20();
    case 21 => Length21();
    case 22 => Length22();
    case 23 => Length23();
    case 24 => Length24();
    case 25 => Length25();
    case 26 => Length26();
    case 27 => Length27();
    case 28 => Length28();
    case 30 => Length30();
    case _ => NoneLeft(0, Start(bits), bits);
  }

  lemma {:induction false} CountsAt(list: Symbols, least: nat, code: nat, bits: nat, k: nat)
    requires CountsOff(list, least, code, bits) && k < Count(list)
    ensures least + k <= Nth(list, k) <= EOS && HuffmanTable.Entry(Nth(list, k)) == HuffCode(code + k, bits)
    decreases k
  {
    hide HuffmanTable.Entry;
    if k > 0 {
      CountsAt(list.rest, list.first + 1, code + 1, bits, k - 1);
    }
  }

  lemma {:induction false} Ascending(list: Symbols, least: nat, code: nat, bits: nat, i: nat, j: nat)
    requires CountsOff(list, least, code, bits) && i < j < Count(list)
    ensures Nth(list, i) < Nth(list, j)
    decreases j
  {
    hide HuffmanTable.Entry;
    if i > 0 {
      Ascending(list.rest, list.first + 1, code + 1, bits, i - 1, j - 1);
    } else {
      CountsAt(list.rest, list.first + 1, code + 1, bits, j - 1);
    }
  }

  /** The code word by length and rank: the canonical code. */
  lemma CodeByRank(bits: nat, k: nat)
    requires k < Count(Group(bits))
    ensures var s := Nth(Group(bits), k);
            s <= EOS && HuffmanTable.Table()[s] == HuffCode(Start(bits) + k, bits)
  {
    hide CountsOff, Start, Group, HuffmanTable.Entry;
    EveryLength(bits);
    CountsAt(Group(bits), 0, Start(bits), bits, k);
  }

  // ---------------------------------------------------------------- every symbol has its place

  function Listed(list: Symbols): seq<nat> {
    if list.End? then [] else [list.first] + Listed(list.rest)
  }

  lemma {:induction false} ListedAt(list: Symbols)
    ensures |Listed(list)| == Count(list) && forall k :: 0 <= k < Count(list) ==> Listed(list)[k] == Nth(list, k)
  {
    if list.Sym? {
      ListedAt(list.rest);
      assert forall k :: 0 < k < Count(list) ==> Listed(list)[k] == Listed(list.rest)[k - 1];
    }
  }

  /** The symbols with at most that many bits. */
  function Upto(bits: nat): seq<nat> {
    if bits == 0 then [] else Upto(bits - 1) + Listed(Group(bits))
  }

  lemma {:induction false} UptoFits(bits: nat)
    ensures Distinct(Upto(bits))
    ensures forall k :: 0 <= k < |Upto(bits)| ==>
              Upto(bits)[k] <= EOS && HuffmanTable.Table()[Upto(bits)[k]].bits <= bits
    ensures forall k :: 0 <= k < |Upto(bits)| ==> Placed(Upto(bits)[k])
  {
    hide CountsOff, Start, Group, HuffmanTable.Entry, Placed;
    if bits > 0 {
      UptoFits(bits - 1);
      EveryLength(bits);
      ListedAt(Group(bits));
      var a, b := Upto(bits - 1), Listed(Group(bits));
      forall k | 0 <= k < |b|
        ensures b[k] <= EOS && HuffmanTable.Table()[b[k]].bits == bits && Placed(b[k])
      {
        CodeByRank(bits, k);
        IsPlaced(bits, k);
      }
      forall i, j | 0 <= i < j < |a + b|
        ensures (a + b)[i] != (a + b)[j]
      {
        if i >= |a| {
          Ascending(Group(bits), 0, Start(bits), bits, i - |a|, j - |a|);
        } else if j < |a| {
          assert a[i] != a[j];
        }
      }
    }
  }

  /** The symbol is listed among those with as many bits as it has. */
  ghost predicate Placed(s: nat)
    requires s <= EOS
  {
    var group := Group(HuffmanTable.Table()[s].bits);
    exists k :: 0 <= k < Count(group) && Nth(group, k) == s
  }

  lemma IsPlaced(bits: nat, k: nat)
    requires k < Count(Group(bits))
    ensures Nth(Group(bits), k) <= EOS && Placed(Nth(Group(bits), k))
  {
    hide Group, HuffmanTable.Entry;
    CodeByRank(bits, k);
  }

  function Total(bits: nat): nat {
    if bits == 0 then 0 else Total(bits - 1) + Count(Group(bits))
  }

  lemma {:induction false} UptoSize(bits: nat)
    ensures |Upto(bits)| == Total(bits)
  {
    hide Group;
    if bits > 0 {
      UptoSize(bits - 1);
      ListedAt(Group(bits));
    }
  }

  lemma FirstSizes()
    ensures Total(13) == 90
  {
    hide Group, Count, CountsOff;
    NoGroups();
    assert Total(0) == 0;
    assert Total(1) == 0;
    assert Total(2) == 0;
    assert Total(3) == 0;
    assert Total(4) == 0;
    Length5();
    assert Total(5) == 10;
    Length6();
    assert Total(6) == 36;
    Length7();
    assert Total(7) == 68;
    Length8();
    assert Total(8) == 74;
    assert Total(9) == 74;
    Length10();
    assert Total(10) == 79;
    Length11();
    assert Total(11) == 82;
    Length12();
    assert Total(12) == 84;
    Length13();
    assert Total(13) == 90;
  }

  lemma MiddleSizes()
    ensures Total(22) == 145
  {
    FirstSizes();
    hide Group, Count, CountsOff;
    NoGroups();
    Length14();
    assert Total(14) == 92;
    Length15();
    assert Total(15) == 95;
    assert Total(16) == 95;
    assert Total(17) == 95;
    assert Total(18) == 95;
    Length19();
    assert Total(19) == 98;
    Length20();
    assert Total(20) == 106;
    Length21();
    assert Total(21) == 119;
    Length22();
    assert Total(22) == 145;
  }

  lemma AllSizes()
    ensures Total(30) == 257
  {
    MiddleSizes();
    hide Group, Count, CountsOff;
    NoGroups();
    Length23();
    assert Total(23) == 174;
    Length24();
    assert Total(24) == 186;
    Length25();
    assert Total(25) == 190;
    Length26();
    assert Total(26) == 205;
    Length27();
    assert Total(27) == 224;
    Length28();
    assert Total(28) == 253;
    assert Total(29) == 253;
    Length30();
    assert Total(30) == 257;
  }

  function Below(n: nat): set<nat> {
    if n == 0 then {} else Below(n - 1) + {n - 1}
  }

  lemma {:induction false} BelowHolds(n: nat, x: nat)
    ensures x in Below(n) <==> x < n
  {
    if n > 0 {
      BelowHolds(n - 1, x);
    }
  }

  lemma {:induction false} BelowSize(n: nat)
    ensures |Below(n)| == n
  {
    if n > 0 {
      BelowSize(n - 1);
      BelowHolds(n - 1, n - 1);
    }
  }

  /** Every symbol has a place. */
  lemma PlaceOf(s: nat) returns (k: nat)
    requires s <= EOS
    ensures var group := Group(HuffmanTable.Table()[s].bits); k < Count(group) && Nth(group, k) == s
  {
    hide Group, Upto, Below, Total, HuffmanTable.Entry;
    var listed := Upto(30);
    UptoFits(30);
    UptoSize(30);
    AllSizes();
    BelowSize(EOS + 1);
    forall i | 0 <= i < |listed|
      ensures listed[i] in Below(EOS + 1)
    {
      BelowHolds(EOS + 1, listed[i]);
    }
    BelowHolds(EOS + 1, s);
    if s !in listed {
      DistinctWithin(listed, Below(EOS + 1) - {s});
    }
    assert Placed(s);
    var group := Group(HuffmanTable.Table()[s].bits);
    k :| k < Count(group) && Nth(group, k) == s;
  }

  // ---------------------------------------------------------------- canonical order

  lemma {:induction false} StartsApart(b: nat, c: nat)
    requires b < c
    ensures (Start(b) + Count(Group(b))) * Pow2(c - b) <= Start(c)
    decreases c
  {
    hide Group;
    if c > b + 1 {
      StartsApart(b, c - 1);
      Doubled(Start(b) + Count(Group(b)), c - 1 - b, Start(c - 1));
    } else {
      assert Pow2(1) == 2 * Pow2(0);
    }
  }

  lemma Doubled(x: nat, n: nat, y: nat)
    requires x * Pow2(n) <= y
    ensures x * Pow2(n + 1) <= 2 * y
  {
    assert x * Pow2(n + 1) == 2 * (x * Pow2(n));
  }

  /**
   Of two symbols, the one with fewer bits, or with as many and the smaller number, has the smaller code word, and its
   code word is not the beginning of the other's.
   */
  lemma CanonicalOrder(s: nat, t: nat)
    requires s <= EOS && t <= EOS
    ensures var a, b := HuffmanTable.Table()[s], HuffmanTable.Table()[t];
            a.bits < b.bits || (a.bits == b.bits && s < t) ==> (a.code + 1) * Pow2(b.bits - a.bits) <= b.code
  {
    hide Group, Start, HuffmanTable.Entry, Pow2, CountsOff;
    var i := PlaceOf(s);
    var j := PlaceOf(t);
    var a, b := HuffmanTable.Table()[s], HuffmanTable.Table()[t];
    CodeByRank(a.bits, i);
    CodeByRank(b.bits, j);
    if a.bits < b.bits {
      StartsApart(a.bits, b.bits);
      Times(a.code + 1, Start(a.bits) + Count(Group(a.bits)), Pow2(b.bits - a.bits));
    } else if a.bits == b.bits && s < t {
      EveryLength(a.bits);
      if j < i {
        Ascending(Group(a.bits), 0, Start(a.bits), a.bits, j, i);
      }
      OneTimes(a.code + 1);
    }
  }

  lemma Times(x: nat, y: nat, p: nat)
    requires x <= y
    ensures x * p <= y * p
  {}

  lemma OneTimes(x: nat)
    ensures x * Pow2(0) == x
  {}
}
