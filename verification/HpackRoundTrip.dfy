/** Encoder and decoder stay in lock step, exactly when the integers involved survive the reader. */
module HpackRoundTrip {
  import opened Basics
  import opened Bits
  import opened Varint
  import opened PrefixCode
  import HuffmanTable
  import opened DynamicTable
  import opened StaticTable
  import opened Hpack

  lemma UsableCodes()
    ensures Usable(HuffCodes())
  {
    HuffmanTable.TableIsGood();
  }

  lemma PrefixFacts()
    ensures Pow2(4) == 16 && Pow2(6) == 64 && Pow2(7) == 128
    ensures Low(0x40, 6) == 0 && Low(0x80, 7) == 0
    ensures Low(0, 4) == 0 && Low(0, 6) == 0 && Low(0, 7) == 0
  {}

  /** The first byte of an integer keeps the flag bits above the prefix. */
  lemma FlagsKept(n: nat, value: nat, flags: byte)
    requires PrefixWidth(n) && Low(flags, n) == 0
    ensures Encoded(n, value, flags)[0] == flags + if value < Mask(n) then value else Mask(n)
    ensures Low(Encoded(n, value, flags)[0], n) == if value < Mask(n) then value else Mask(n)
  {}

  /** A length that does not wrap and that many bytes are a string. */
  lemma ReadWithin(data: seq<byte>, cap: nat, n: nat, c: nat)
    requires Decoded(ByOr, 7, data) == Read(n, c) && c + n <= |data| && c + n < WORD && cap > 0
    ensures ReadString(data, cap) == ReadBody(data[c..c + n], data[0] >= 0x80, cap, c + n)
  {
    hide Decoded, ReadBody, LiteralEnd;
  }

  /** Without a length, or with one that is too large for the data, there is no string. */
  lemma ReadOutside(data: seq<byte>, cap: nat)
    requires var d := Decoded(ByOr, 7, data);
             d.Read? ==> |data| < d.consumed + d.value < WORD
    ensures ReadString(data, cap).NoString?
  {
    hide Decoded, ReadBody, LiteralEnd;
  }

  /** A length and that many bytes: the right bytes are found when the length is safe, else too few. */
  lemma LengthThenBody(flags: byte, body: seq<byte>, rest: seq<byte>, cap: nat)
    requires flags == 0x80 || flags == 0x00
    requires |body| < 0x4000 && cap > 0
    ensures var head := Encoded(7, |body|, flags);
            var r := ReadString(head + body + rest, cap);
            if Safe(7, |body|) then r == ReadBody(body, flags == 0x80, cap, |head| + |body|)
            else r.AString? ==> r.consumed < |head| + |body|
  {
    hide Encoded, Decoded, Low, Pow2, ReadBody, ReadString, Safe;
    var n, head := |body|, Encoded(7, |body|, flags);
    var data := head + body + rest;
    assert data == head + (body + rest);
    var m := LengthRead(flags, n, body + rest);
    IntegerLength(7, n, flags);
    ReadWithin(data, cap, m, |head|);
    assert data[|head|..|head| + n] == body;
  }

  lemma LengthRead(flags: byte, n: nat, rest: seq<byte>) returns (m: nat)
    requires (flags == 0x80 || flags == 0x00) && n < WORD
    ensures var data := Encoded(7, n, flags) + rest;
            Decoded(ByOr, 7, data) == Read(m, |data| - |rest|) && (data[0] >= 0x80) == (flags == 0x80)
    ensures m == ReadBack(7, n) && m <= n && (m == n <==> Safe(7, n))
  {
    hide Encoded, Decoded, ReadBack, Low, Safe;
    m := ReadBack(7, n);
    WrittenIsRead(ByOr, 7, n, flags, rest);
    SafeIffReadBack(7, n);
    SevenBitFlags(n);
    if n < Mask(7) {
      ReadBackSmall(7, n);
    }
  }

  lemma ReadBackSmall(n: nat, value: nat)
    requires value < Mask(n)
    ensures ReadBack(n, value) == value
  {}

  lemma BodyRead(s: seq<byte>, cap: nat, consumed: nat)
    requires 0 !in s && |s| < cap && |s| <= MAX_VALUE
    ensures ReadBody(s, false, cap, consumed) == AString(s, consumed)
    ensures ReadBody(Huffman(s), true, cap, consumed) == AString(s, consumed)
  {
    UsableCodes();
    DecodeInvertsEncode(HuffCodes(), Huffman(s), s);
  }

  /** A written string is read back whole when its length is safe; otherwise too little is consumed. */
  lemma StringRoundTrip(s: seq<byte>, rest: seq<byte>, cap: nat)
    requires 0 !in s && |s| < cap && |s| <= MAX_VALUE
    ensures var r := ReadString(StringLiteral(s) + rest, cap);
            if Safe(7, LiteralLength(s)) then r == AString(s, |StringLiteral(s)|)
            else r.AString? ==> r.consumed < |StringLiteral(s)|
  {
    hide Encoded, Huffman, ReadString, ReadBody, Safe;
    if UsesHuffman(s) {
      LengthThenBody(0x80, Huffman(s), rest, cap);
      BodyRead(s, cap, |Encoded(7, |Huffman(s)|, 0x80)| + |Huffman(s)|);
    } else {
      LengthThenBody(0x00, s, rest, cap);
      BodyRead(s, cap, |Encoded(7, |s|, 0x00)| + |s|);
    }
  }

  lemma SevenBitFlags(n: nat)
    ensures Encoded(7, n, 0x80)[0] >= 0x80 && Encoded(7, n, 0x00)[0] < 0x80
  {
    hide Encoded, Low;
    PrefixFacts();
    FlagsKept(7, n, 0x80);
    FlagsKept(7, n, 0x00);
  }

  // ---------------------------------------------------------------- one header field

  /** What insertion keeps true of a table. */
  ghost predicate Kept(t: Table) {
    && t.max < INT_LIMIT && Size(t.entries) <= t.max
    && forall i :: 0 <= i < |t.entries| ==> Fits(t.entries[i])
  }

  lemma KeptAdded(t: Table, e: Entry)
    requires Kept(t) && Fits(e)
    ensures Kept(Added(t, e)) && Added(t, e).max == t.max
  {
    if EntrySize(e) <= t.max {
      EvictedIsWindow([e] + t.entries, t.max);
    }
  }

  lemma KeptAfter(t: Table, room: nat, e: Entry)
    requires Kept(t) && Fits(e)
    ensures Kept(TableAfter(t, room, e)) && TableAfter(t, room, e).max == t.max
  {
    hide Kept, Added, Represent, EncodedHeader;
    KeptAdded(t, e);
  }

  /**
   When the encoding of e is read back right: the index, or the length of the value's literal, is
   safe, and a two-byte name index had room. Checkable before encoding.
   */
  predicate Faithful(t: Table, room: nat, e: Entry) {
    match Represent(t, e)
    case Indexed(i) => Safe(7, i)
    case Literal(incremental, i) =>
      && Safe(7, LiteralLength(e.value))
      && (i == 0 || |Encoded(PrefixBits(incremental), i, Flag(incremental))| <= room)
  }

  /** Values up to 127 bytes, a table of at most 66 entries and two bytes of room are always enough. */
  lemma SmallIsFaithful(t: Table, room: nat, e: Entry)
    requires |e.value| <= 127 && |t.entries| <= 66 && room >= 2
    ensures Faithful(t, room, e)
  {
    hide Encoded, Safe, Low, StaticAt;
    match Represent(t, e)
    case Indexed(i) =>
      ShortIsSafe(i);
    case Literal(incremental, i) =>
      ShortIsSafe(LiteralLength(e.value));
      if i > 0 {
        NameIndexSafe(incremental, i);
      }
  }

  lemma EntryCount(t: Table)
    requires Kept(t)
    ensures 32 * |t.entries| <= t.max
  {
    SizeMonotone(t.entries, |t.entries|);
  }

  lemma UnsafeIsLarge(i: nat, m: nat)
    requires m != i && m == ReadBack(7, i)
    ensures 127 <= m < i
  {
    PrefixFacts();
    SafeIffReadBack(7, i);
  }

  lemma IndexedRoundTrip(t: Table, i: nat, e: Entry, rest: seq<byte>)
    requires Kept(t) && Fits(e) && Represent(t, e) == Indexed(i)
    ensures var data := Encoded(7, i, 0x80) + rest;
            DecodedHeader(t, data) == AHeader(e, |data| - |rest|, t) <==> Safe(7, i)
  {
    hide Encoded, Decoded, Low, ReadBack, Safe, Static, Size, FindPair;
    EntryCount(t);
    PrefixFacts();
    var m := LengthRead(0x80, i, rest);
    SafeIffReadBack(7, i);
    if m == i {
      assert Lookup(t, i) == Some(e);
    } else {
      UnsafeIsLarge(i, m);
      assert t.entries[m - 62] != e;
      assert Clipped(t.entries[m - 62]) == t.entries[m - 62];
    }
  }

  /** An index that fits the prefix's value range is always safe, and takes at most two bytes. */
  lemma NameIndexSafe(incremental: bool, index: nat)
    requires 0 < index < Pow2(PrefixBits(incremental))
    ensures Safe(PrefixBits(incremental), index)
    ensures |Encoded(PrefixBits(incremental), index, Flag(incremental))| <= 2
    ensures Low(Encoded(PrefixBits(incremental), index, Flag(incremental))[0], PrefixBits(incremental)) != 0
    ensures var b := Encoded(PrefixBits(incremental), index, Flag(incremental))[0];
            if incremental then 0x40 <= b < 0x80 else b < 0x20
  {
    assert Pow2(4) == 16 && Pow2(6) == 64 && Low(0x40, 6) == 0 && Low(0, 4) == 0;
    FlagsKept(PrefixBits(incremental), index, Flag(incremental));
  }

  lemma IndexRoundTrip(incremental: bool, index: nat, tail: seq<byte>)
    requires 0 < index < Pow2(PrefixBits(incremental))
    ensures var head := Encoded(PrefixBits(incremental), index, Flag(incremental));
            ReadNameIndex(head + tail, PrefixBits(incremental)) == Read(index, |head|)
  {
    hide Encoded, Decoded, Low, Safe;
    var n, flag := PrefixBits(incremental), Flag(incremental);
    PrefixFacts();
    NameIndexSafe(incremental, index);
    WrittenIsRead(ByOr, n, index, flag, tail);
    SafeIffReadBack(n, index);
  }

  lemma NewNameRoundTrip(t: Table, incremental: bool, name: seq<byte>, tail: seq<byte>)
    requires 0 !in name && |name| <= MAX_NAME
    ensures var data := [Flag(incremental)] + StringLiteral(name) + tail;
            && ReadNameIndex(data, PrefixBits(incremental)) == Read(0, 1)
            && ReadName(t, 0, data[1..]) == AString(name, |StringLiteral(name)|)
  {
    hide StringLiteral, ReadString, LiteralLength, Low, Decoded;
    var data := [Flag(incremental)] + StringLiteral(name) + tail;
    assert data[1..] == StringLiteral(name) + tail;
    StringRoundTrip(name, tail, MAX_NAME + 1);
    ShortIsSafe(LiteralLength(name));
    PrefixFacts();
  }

  lemma ShortIsSafe(n: nat)
    requires n <= 127
    ensures Safe(7, n)
  {
    PrefixFacts();
  }

  /** The name, by index or in full, is found again; short names are always safe. */
  lemma NameRoundTrip(t: Table, incremental: bool, index: nat, name: seq<byte>, tail: seq<byte>) returns (c: nat)
    requires 0 !in name && |name| <= MAX_NAME && index < Pow2(PrefixBits(incremental))
    requires index > 0 ==> Lookup(t, index).Some? && Lookup(t, index).value.name == name
    ensures var head := if index > 0 then Encoded(PrefixBits(incremental), index, Flag(incremental))
                        else [Flag(incremental)] + StringLiteral(name);
            var data := head + tail;
            && (if incremental then 0x40 <= data[0] < 0x80 else data[0] < 0x20)
            && c <= |head| && ReadNameIndex(data, PrefixBits(incremental)) == Read(index, c)
            && ReadName(t, index, data[c..]) == AString(name, |head| - c)
  {
    hide StringLiteral, Encoded, ReadNameIndex, ReadString, Low, Pow2, Lookup;
    if index > 0 {
      NameIndexSafe(incremental, index);
      IndexRoundTrip(incremental, index, tail);
      c := |Encoded(PrefixBits(incremental), index, Flag(incremental))|;
    } else {
      NewNameRoundTrip(t, incremental, name, tail);
      c := 1;
    }
  }

  lemma LiteralRoundTrip(t: Table, incremental: bool, index: nat, e: Entry, rest: seq<byte>)
    requires Storable(e) && index < Pow2(PrefixBits(incremental))
    requires index > 0 ==> Lookup(t, index).Some? && Lookup(t, index).value.name == e.name
    ensures var head := if index > 0 then Encoded(PrefixBits(incremental), index, Flag(incremental))
                        else [Flag(incremental)] + StringLiteral(e.name);
            var bytes := head + StringLiteral(e.value);
            DecodedHeader(t, bytes + rest) == AHeader(e, |bytes|, if incremental then Added(t, e) else t)
            <==> Safe(7, LiteralLength(e.value))
  {
    hide Encoded, Low, Pow2, StringLiteral, ReadString, ReadNameIndex, ReadName, Safe, LiteralLength;
    var head := if index > 0 then Encoded(PrefixBits(incremental), index, Flag(incremental))
                else [Flag(incremental)] + StringLiteral(e.name);
    var tail := StringLiteral(e.value) + rest;
    var data := head + StringLiteral(e.value) + rest;
    assert data == head + tail;
    var c := NameRoundTrip(t, incremental, index, e.name, tail);
    assert data[|head|..] == tail;
    StringRoundTrip(e.value, rest, MAX_VALUE + 1);
  }

  lemma HuffmanNonEmpty(s: seq<byte>)
    requires s != []
    ensures Huffman(s) != []
  {
    UsableCodes();
    EncodeSpells(HuffCodes(), s);
    assert HuffCodes()[s[0]] != [];
  }

  lemma ShortLiteral(s: seq<byte>)
    requires |StringLiteral(s)| <= 1
    ensures s == [] && StringLiteral(s) == [0]
  {
    hide Encoded, Huffman, Low;
    if s != [] {
      HuffmanNonEmpty(s);
    }
    SevenBitFlags(|s|);
    assert !UsesHuffman(s) && s == [];
    PrefixFacts();
    FlagsKept(7, 0, 0x00);
    assert StringLiteral(s) == Encoded(7, 0, 0x00) + [];
  }

  /**
   A reading that consumes nothing had a length that wrapped exactly; its text is empty if what follows starts so.
   */
  lemma NothingConsumed(data: seq<byte>, cap: nat)
    requires cap > 1 && ReadString(data, cap).AString? && ReadString(data, cap).consumed == 0
    ensures var d := Decoded(ByOr, 7, data);
            && d.Read? && data[d.consumed..] != []
            && (ReadString(data, cap).text == [] <==> data[d.consumed] == 0)
  {
    hide Decoded, ReadBody;
  }

  /**
   The lone byte of an empty value, read without the name index that was dropped: never the field that was meant.
   */
  lemma LoneValue(t: Table, e: Entry, b: seq<byte>, rest: seq<byte>)
    requires b == StringLiteral(e.value) && |b| <= 1
    ensures e.value == []
    ensures var r := DecodedHeader(t, b + rest);
            r.AHeader? && r.consumed <= |b| && r.entry.value == [] ==> r.entry.name == [] && r.table == t
  {
    hide Decoded, ReadString, StringLiteral, Lookup, Low;
    ShortLiteral(e.value);
    PrefixFacts();
    var data := b + rest;
    assert data[0] == 0 && data[1..] == rest;
    assert ReadNameIndex(data, 4) == Read(0, 1);
    var r := DecodedHeader(t, data);
    if r.AHeader? && r.consumed <= 1 {
      var name := ReadString(rest, MAX_NAME + 1);
      assert data[1 + name.consumed..] == rest;
      NothingConsumed(rest, MAX_NAME + 1);
      NothingConsumed(rest, MAX_VALUE + 1);
    }
  }

  /** Adding an entry that fits and was not there changes the table. */
  lemma AddedIsNew(t: Table, e: Entry)
    requires EntrySize(e) <= t.max && FindPair(t.entries, e) == |t.entries|
    ensures Added(t, e) != t
  {
    var all := [e] + t.entries;
    EvictedIsWindow(all, t.max);
    assert all[..1] == [e];
    assert Size([e]) == EntrySize(e) by {
      assert [e][..0] == [];
    }
  }

  /** An index of 15 belongs to a static name. */
  lemma StaticFifteen(t: Table, name: seq<byte>)
    requires NameIndex(t, name) == 15
    ensures name != []
  {
    assert Static()[14] == StaticAt(14) == Field("accept-charset", "");
    assert Ascii("accept-charset") != [];
  }

  lemma MaskIndex(incremental: bool, index: nat)
    requires 0 < index < Pow2(PrefixBits(incremental))
    requires |Encoded(PrefixBits(incremental), index, Flag(incremental))| > 1
    ensures index == if incremental then 63 else 15
  {
    PrefixFacts();
  }

  /** Header by header: the decoder returns the pair, the byte count and the table, if and only if Faithful. */
  lemma LockStep(t: Table, room: nat, e: Entry, rest: seq<byte>)
    requires Kept(t) && Storable(e) && EncodedHeader(t, room, e) != []
    ensures DecodedHeader(t, EncodedHeader(t, room, e) + rest)
            == AHeader(e, |EncodedHeader(t, room, e)|, TableAfter(t, room, e))
            <==> Faithful(t, room, e)
  {
    hide DecodedHeader, StringLiteral, Encoded, Low, Pow2, Safe, LiteralLength, Inserted, StaticAt;
    match Represent(t, e)
    case Indexed(i) =>
      IndexedRoundTrip(t, i, e, rest);
    case Literal(incremental, i) =>
      if i > 0 {
        NameIndexSafe(incremental, i);
        assert Lookup(t, i).value.name == e.name;
      }
      if i == 0 || |Encoded(PrefixBits(incremental), i, Flag(incremental))| <= room {
        LiteralRoundTrip(t, incremental, i, e, rest);
      } else {
        var b := EncodedHeader(t, room, e);
        assert b == StringLiteral(e.value) by {
          assert [] + StringLiteral(e.value) == StringLiteral(e.value);
        }
        LoneValue(t, e, b, rest);
        MaskIndex(incremental, i);
        if incremental {
          AddedIsNew(t, e);
        } else {
          StaticFifteen(t, e.name);
        }
      }
  }
}
