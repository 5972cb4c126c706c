/** Whole header blocks: a list of fields encoded one after the other, and decoded until the bytes run out. */
module HpackBlock {
  import opened Basics
  import opened Bits
  import opened Varint
  import opened PrefixCode
  import opened DynamicTable
  import opened StaticTable
  import opened Hpack
  import opened HpackRoundTrip

  datatype Block = Block(bytes: seq<byte>, table: Table)

  /** A field that does not fit is left out and its bytes are simply missing. */
  function EncodedBlock(t: Table, room: nat, hs: seq<Entry>): (b: Block)
    ensures |b.bytes| <= room
    decreases |hs|
  {
    if hs == [] then Block([], t)
    else
      var first := EncodedHeader(t, room, hs[0]);
      var rest := EncodedBlock(TableAfter(t, room, hs[0]), room - |first|, hs[1..]);
      Block(first + rest.bytes, rest.table)
  }

  datatype Fields = Fields(list: seq<Entry>, table: Table)

  /** Decoding stops silently at the first field that cannot be read, and nothing is said beyond an over-read. */
  ghost function DecodedBlock(t: Table, data: seq<byte>): Fields
    decreases |data|
  {
    if data == [] then Fields([], t)
    else
      match DecodedHeader(t, data)
      case NoHeader => Fields([], t)
      case HeaderBeyond => Fields([], t)
      case AHeader(e, c, t') =>
        var rest := DecodedBlock(t', data[c..]);
        Fields([e] + rest.list, rest.table)
  }

  /** Decoding the block comes to a field that depends on bytes behind it. */
  ghost predicate OverReads(t: Table, data: seq<byte>)
    decreases |data|
  {
    data != [] &&
    match DecodedHeader(t, data)
    case NoHeader => false
    case HeaderBeyond => true
    case AHeader(_, c, t') => OverReads(t', data[c..])
  }

  /** What decoding the block may give, field by field, whatever lies behind it at the time. */
  ghost predicate BlockReads(t: Table, data: seq<byte>, fields: Fields)
    decreases |data|, 1
  {
    if data == [] then fields == Fields([], t) else exists behind :: ReadsNext(t, data, fields, behind)
  }

  ghost predicate ReadsNext(t: Table, data: seq<byte>, fields: Fields, behind: seq<byte>)
    requires data != []
    decreases |data|, 0
  {
    var d := DecodedHeader(t, data, Some(behind));
    && Enough(behind)
    && (if d.AHeader? then
          && fields.list != [] && fields.list[0] == d.entry
          && BlockReads(d.table, data[d.consumed..], Fields(fields.list[1..], fields.table))
        else fields == Fields([], t))
  }

  /** Every field fits in the room left for it and survives the reader. */
  predicate AllFaithful(t: Table, room: nat, hs: seq<Entry>)
    decreases |hs|
  {
    hs == [] ||
    var first := EncodedHeader(t, room, hs[0]);
    && Storable(hs[0]) && first != [] && Faithful(t, room, hs[0])
    && AllFaithful(TableAfter(t, room, hs[0]), room - |first|, hs[1..])
  }

  /**
   From equal tables, decoding the block gives its fields in order and equal tables again, whatever lies behind it.
   */
  lemma {:induction false} BlockRoundTrip(t: Table, room: nat, hs: seq<Entry>)
    requires Kept(t) && AllFaithful(t, room, hs)
    ensures DecodedBlock(t, EncodedBlock(t, room, hs).bytes) == Fields(hs, EncodedBlock(t, room, hs).table)
    ensures Kept(EncodedBlock(t, room, hs).table) && !OverReads(t, EncodedBlock(t, room, hs).bytes)
    decreases |hs|
  {
    hide EncodedHeader, DecodedHeader, Faithful, TableAfter;
    if hs != [] {
      var first, t' := EncodedHeader(t, room, hs[0]), TableAfter(t, room, hs[0]);
      var rest := EncodedBlock(t', room - |first|, hs[1..]);
      LockStep(t, room, hs[0], rest.bytes);
      KeptAfter(t, room, hs[0]);
      BlockRoundTrip(t', room - |first|, hs[1..]);
      var data := first + rest.bytes;
      assert data[|first|..] == rest.bytes;
      assert hs == [hs[0]] + hs[1..];
    }
  }

  // ---------------------------------------------------------------- only such blocks

  /** An unsafe length cuts the body short. */
  lemma ShortBody(flags: byte, body: seq<byte>, rest: seq<byte>, cap: nat) returns (m: nat)
    requires flags == 0x80 || flags == 0x00
    requires |body| <= HUFF_BUFFER && cap > 0 && !Safe(7, |body|)
    ensures var head := Encoded(7, |body|, flags);
            m < |body| && ReadString(head + body + rest, cap) == ReadBody(body[..m], flags == 0x80, cap, |head| + m)
  {
    hide Encoded, Decoded, Low, Pow2, ReadBody, ReadString, Safe;
    var head := Encoded(7, |body|, flags);
    var data := head + body + rest;
    assert data == head + (body + rest);
    m := LengthRead(flags, |body|, body + rest);
    IntegerLength(7, |body|, flags);
    ReadWithin(data, cap, m, |head|);
    assert data[|head|..|head| + m] == body[..m];
  }

  lemma ShortPlainDiffers(s: seq<byte>, m: nat, consumed: nat)
    requires |s| <= MAX_VALUE && m < |s|
    ensures var r := ReadBody(s[..m], false, MAX_VALUE + 1, consumed);
            r.AString? ==> r.text != s
  {}

  /** Fewer Huffman bytes cannot spell a text that starts with s. */
  lemma ShortHuffmanDiffers(s: seq<byte>, m: nat, consumed: nat)
    requires |s| <= MAX_VALUE && m < |Huffman(s)|
    ensures var r := ReadBody(Huffman(s)[..m], true, MAX_VALUE + 1, consumed);
            r.AString? ==> r.text != s
  {
    hide HuffCodes, Encode;
    UsableCodes();
    var body := Huffman(s)[..m];
    var r := ReadBody(body, true, MAX_VALUE + 1, consumed);
    if r.AString? && r.text == s {
      var t := Decode(HuffCodes(), body).value;
      DecodeInvertsEncode(HuffCodes(), body, t);
      EncodeGrows(HuffCodes(), s, t);
    }
  }

  /** A string of unsafe length comes back as another one, or not at all. */
  lemma UnsafeStringDiffers(s: seq<byte>, rest: seq<byte>)
    requires |s| <= MAX_VALUE && !Safe(7, LiteralLength(s))
    ensures var r := ReadString(StringLiteral(s) + rest, MAX_VALUE + 1);
            !r.Beyond? && (r.AString? ==> r.text != s)
  {
    hide Encoded, Huffman, ReadString, ReadBody, Safe;
    if UsesHuffman(s) {
      var m := ShortBody(0x80, Huffman(s), rest, MAX_VALUE + 1);
      ShortHuffmanDiffers(s, m, |Encoded(7, |Huffman(s)|, 0x80)| + m);
    } else {
      var m := ShortBody(0x00, s, rest, MAX_VALUE + 1);
      ShortPlainDiffers(s, m, |Encoded(7, |s|, 0x00)| + m);
    }
  }

  lemma UnsafeIndexDiffers(t: Table, i: nat, e: Entry, rest: seq<byte>)
    requires Kept(t) && Fits(e) && Represent(t, e) == Indexed(i) && !Safe(7, i)
    ensures var d := DecodedHeader(t, Encoded(7, i, 0x80) + rest);
            !d.HeaderBeyond? && (d.AHeader? ==> d.entry != e)
  {
    hide Encoded, Decoded, Low, ReadBack, Safe, Static, Size, FindPair;
    EntryCount(t);
    PrefixFacts();
    var m := LengthRead(0x80, i, rest);
    UnsafeIsLarge(i, m);
    assert t.entries[m - 62] != e;
    assert Clipped(t.entries[m - 62]) == t.entries[m - 62];
  }

  lemma UnsafeValueDiffers(t: Table, incremental: bool, index: nat, e: Entry, rest: seq<byte>)
    requires Storable(e) && index < Pow2(PrefixBits(incremental)) && !Safe(7, LiteralLength(e.value))
    requires index > 0 ==> Lookup(t, index).Some? && Lookup(t, index).value.name == e.name
    ensures var head := if index > 0 then Encoded(PrefixBits(incremental), index, Flag(incremental))
                        else [Flag(incremental)] + StringLiteral(e.name);
            var d := DecodedHeader(t, head + StringLiteral(e.value) + rest);
            !d.HeaderBeyond? && (d.AHeader? ==> d.entry != e)
  {
    hide Encoded, Low, Pow2, StringLiteral, ReadString, ReadNameIndex, ReadName, Safe, LiteralLength;
    var head := if index > 0 then Encoded(PrefixBits(incremental), index, Flag(incremental))
                else [Flag(incremental)] + StringLiteral(e.name);
    var tail := StringLiteral(e.value) + rest;
    var data := head + StringLiteral(e.value) + rest;
    assert data == head + tail;
    var c := NameRoundTrip(t, incremental, index, e.name, tail);
    assert data[|head|..] == tail;
    UnsafeStringDiffers(e.value, rest);
  }

  /** A lone zero byte, which is all that is left of a field whose index was dropped, is refused. */
  lemma LoneZero(t: Table)
    ensures DecodedHeader(t, [0]).NoHeader?
  {
    hide Decoded, Low;
    PrefixFacts();
    assert ReadNameIndex([0], 4) == Read(0, 1);
  }

  /** A field that is not faithful comes back as another one, or not at all. */
  lemma UnfaithfulDiffers(t: Table, room: nat, e: Entry, rest: seq<byte>)
    requires Kept(t) && Storable(e) && EncodedHeader(t, room, e) != [] && !Faithful(t, room, e)
    requires |EncodedHeader(t, room, e)| + |rest| <= room
    ensures var d := DecodedHeader(t, EncodedHeader(t, room, e) + rest);
            !d.HeaderBeyond? && (d.AHeader? ==> d.entry != e)
  {
    hide DecodedHeader, StringLiteral, Encoded, Low, Pow2, Safe, LiteralLength, Inserted, StaticAt;
    var b := EncodedHeader(t, room, e);
    match Represent(t, e)
    case Indexed(i) => UnsafeIndexDiffers(t, i, e, rest);
    case Literal(incremental, i) =>
      if i > 0 {
        NameIndexSafe(incremental, i);
        assert Lookup(t, i).value.name == e.name;
      }
      if i == 0 || |Encoded(PrefixBits(incremental), i, Flag(incremental))| <= room {
        UnsafeValueDiffers(t, incremental, i, e, rest);
      } else {
        assert b == StringLiteral(e.value) by {
          assert [] + StringLiteral(e.value) == StringLiteral(e.value);
        }
        ShortLiteral(e.value);
        assert b + rest == [0];
        LoneZero(t);
      }
  }

  /** Every field is storable and fits in the room left for it. */
  predicate Fitting(t: Table, room: nat, hs: seq<Entry>)
    decreases |hs|
  {
    hs == [] ||
    var first := EncodedHeader(t, room, hs[0]);
    Storable(hs[0]) && first != [] && Fitting(TableAfter(t, room, hs[0]), room - |first|, hs[1..])
  }

  /**
   From equal tables, a block whose fields all fit comes back as the same fields if and only if each is faithful.
   */
  lemma {:induction false} BlockRoundTripIff(t: Table, room: nat, hs: seq<Entry>)
    requires Kept(t) && Fitting(t, room, hs)
    ensures DecodedBlock(t, EncodedBlock(t, room, hs).bytes).list == hs <==> AllFaithful(t, room, hs)
    ensures AllFaithful(t, room, hs) ==>
              DecodedBlock(t, EncodedBlock(t, room, hs).bytes) == Fields(hs, EncodedBlock(t, room, hs).table)
    decreases |hs|
  {
    hide EncodedHeader, DecodedHeader, Faithful, TableAfter;
    if hs != [] {
      var first, t' := EncodedHeader(t, room, hs[0]), TableAfter(t, room, hs[0]);
      var rest := EncodedBlock(t', room - |first|, hs[1..]).bytes;
      assert (first + rest)[|first|..] == rest && hs == [hs[0]] + hs[1..];
      if Faithful(t, room, hs[0]) {
        LockStep(t, room, hs[0], rest);
        KeptAfter(t, room, hs[0]);
        BlockRoundTripIff(t', room - |first|, hs[1..]);
        var later := DecodedBlock(t', rest).list;
        assert ([hs[0]] + later)[1..] == later;
      } else {
        UnfaithfulDiffers(t, room, hs[0], rest);
      }
    }
  }
}
