/** The HPACK routines as they run: on a context updated in place and a buffer filled through an offset. */
module HpackCodec {
  import opened Basics
  import opened Bits
  import opened Varint
  import opened PrefixCode
  import opened HuffmanTree
  import HuffmanEncoder
  import HuffmanTable
  import opened DynamicTable
  import opened StaticTable
  import opened Hpack

  /** The shared decoding tree, built or not yet. */
  ghost predicate Ready(tree: DecodingTree)
    reads tree, tree.nodes
  {
    tree.nodes.Length == NODES && (tree.built ==> tree.Finished(HuffCodes()))
  }

  /** 1-based index of a full match, minus the index of a name match, or 0. */
  method FindStatic(e: Entry) returns (idx: int)
    ensures var s, n := FindPair(Static(), e), FindName(Static(), e.name);
            idx == if s < STATIC_ENTRIES then s + 1 else if n < STATIC_ENTRIES then -(n + 1) else 0
  {
    hide StaticAt;
    var table := Static();
    for i := 0 to STATIC_ENTRIES
      invariant forall j :: 0 <= j < i ==> table[j] != e
    {
      if table[i].name == e.name {
        if table[i].value == e.value {
          assert table[i] == e;
          FirstPair(table, e, i);
          return i + 1;
        }
      }
    }
    FirstPair(table, e, STATIC_ENTRIES);
    for i := 0 to STATIC_ENTRIES
      invariant forall j :: 0 <= j < i ==> table[j].name != e.name
    {
      if table[i].name == e.name {
        FirstName(table, e.name, i);
        return -(i + 1);
      }
    }
    FirstName(table, e.name, STATIC_ENTRIES);
    return 0;
  }

  lemma FirstPair(es: seq<Entry>, e: Entry, i: nat)
    requires i <= |es| && (i < |es| ==> es[i] == e) && forall j :: 0 <= j < i ==> es[j] != e
    ensures FindPair(es, e) == i
  {}

  lemma FirstName(es: seq<Entry>, name: seq<byte>, i: nat)
    requires i <= |es| && (i < |es| ==> es[i].name == name) && forall j :: 0 <= j < i ==> es[j].name != name
    ensures FindName(es, name) == i
  {}

  method FindDynamicPair(ctx: HpackContext, e: Entry) returns (i: nat)
    requires ctx.Valid()
    ensures i == FindPair(ctx.Contents().entries, e)
  {
    i := 0;
    ghost var es := ctx.table[..ctx.count];
    while i < ctx.count
      invariant i <= ctx.count && forall j :: 0 <= j < i ==> es[j] != e
    {
      if ctx.table[i].name == e.name && ctx.table[i].value == e.value {
        assert es[i] == e;
        break;
      }
      i := i + 1;
    }
    FirstPair(es, e, i);
  }

  method FindDynamicName(ctx: HpackContext, name: seq<byte>) returns (i: nat)
    requires ctx.Valid()
    ensures i == FindName(ctx.Contents().entries, name)
  {
    i := 0;
    ghost var es := ctx.table[..ctx.count];
    while i < ctx.count
      invariant i <= ctx.count && forall j :: 0 <= j < i ==> es[j].name != name
    {
      if ctx.table[i].name == name {
        break;
      }
      i := i + 1;
    }
    FirstName(es, name, i);
  }

  /** memcpy into data at off. */
  method Copy(data: array<byte>, off: nat, src: seq<byte>)
    requires off + |src| <= data.Length
    modifies data
    ensures data[off..off + |src|] == src
    ensures data[..off] == old(data[..off]) && data[off + |src|..] == old(data[off + |src|..])
  {
    forall i | 0 <= i < |src| {
      data[off + i] := src[i];
    }
  }

  /** A length, then the bytes: 0 when they do not fit. */
  method WriteCounted(data: array<byte>, off: nat, room: nat, src: seq<byte>, flags: byte) returns (written: nat)
    requires off + room <= data.Length
    modifies data
    ensures var b := Encoded(7, |src|, flags) + src;
            && written == (if |b| <= room then |b| else 0)
            && (written > 0 ==> data[off..off + written] == b)
    ensures data[..off] == old(data[..off]) && data[off + room..] == old(data[off + room..])
  {
    hide Encoded;
    var w := Write(data, off, room, 7, |src|, flags);
    if w == 0 || w + |src| > room {
      return 0;
    }
    ghost var head := data[..off + w];
    ghost var tail := data[off + room..];
    Copy(data, off + w, src);
    assert data[..off] == head[..off];
    assert data[off..off + w] == head[off..];
    assert data[off..off + w + |src|] == data[off..off + w] + data[off + w..off + w + |src|];
    assert data[off + room..] == data[off + w + |src|..][room - w - |src|..];
    return w + |src|;
  }

  method LiteralString(src: seq<byte>, data: array<byte>, off: nat, room: nat) returns (written: nat)
    requires off + room <= data.Length
    modifies data
    ensures var b := StringLiteral(src);
            && written == (if |b| <= room then |b| else 0)
            && (written > 0 ==> data[off..off + written] == b)
    ensures data[..off] == old(data[..off]) && data[off + room..] == old(data[off + room..])
  {
    hide Encoded, HuffCodes;
    var huff := new byte[HUFF_BUFFER];
    var hlen := 0;
    var encoded := false;
    if |src| > 0 {
      HuffmanTable.TableIsGood();
      CodesAre();
      encoded, hlen := HuffmanEncoder.EncodeBytes(HuffmanTable.Table(), src, huff, HUFF_BUFFER);
    }
    if encoded && hlen < |src| {
      written := WriteCounted(data, off, room, huff[..hlen], 0x80);
    } else {
      written := WriteCounted(data, off, room, src, 0x00);
    }
  }

  lemma CodesAre()
    ensures HuffCodes() == CodesOf(HuffmanTable.Table())
  {}

  // ---------------------------------------------------------------- encoding a field

  method EncodeHeader(ctx: HpackContext, data: array<byte>, off: nat, room: nat, e: Entry) returns (written: nat)
    requires ctx.Valid() && Fits(e) && off + room <= data.Length
    modifies ctx, ctx.table, data
    ensures ctx.Valid() && (ctx.table == old(ctx.table) || fresh(ctx.table))
    ensures ctx.peak == old(ctx.peak)
    ensures written == |EncodedHeader(old(ctx.Contents()), room, e)|
    ensures data[off..off + written] == EncodedHeader(old(ctx.Contents()), room, e)
    ensures ctx.Contents() == TableAfter(old(ctx.Contents()), room, e)
    ensures data[..off] == old(data[..off]) && data[off + room..] == old(data[off + room..])
  {
    hide Encoded, StringLiteral, FindPair, FindName, Static, StaticAt, Inserted, Pow2;
    ghost var t := ctx.Contents();
    var idx := FindStatic(e);
    if idx > 0 {
      written := Write(data, off, room, 7, idx, 0x80);
      return;
    }
    var d := FindDynamicPair(ctx, e);
    if d < ctx.count {
      written := Write(data, off, room, 7, 62 + d, 0x80);
      return;
    }
    var nameIndex := FindNameIndex(ctx, e, idx);
    var indexing := ctx.max > 0 && EntrySize(e) <= ctx.max;
    if nameIndex >= Pow2(PrefixBits(indexing)) {
      nameIndex := 0;
    }
    assert Represent(t, e) == Literal(indexing, nameIndex);
    written := WriteLiteral(data, off, room, indexing, nameIndex, e);
    assert |EncodedHeader(t, room, e)| == written;
    if written > 0 && indexing {
      ctx.Insert(e);
    }
  }

  /** The index of the name: the static one that was found, else a dynamic one, else 0. */
  method FindNameIndex(ctx: HpackContext, e: Entry, idx: int) returns (nameIndex: nat)
    requires ctx.Valid()
    requires var n := FindName(Static(), e.name); idx == if n < STATIC_ENTRIES then -(n + 1) else 0
    ensures nameIndex == NameIndex(ctx.Contents(), e.name)
  {
    hide FindName, Static, StaticAt;
    nameIndex := 0;
    if idx < 0 {
      nameIndex := -idx;
    } else {
      var dn := FindDynamicName(ctx, e.name);
      if dn < ctx.count {
        nameIndex := 62 + dn;
      }
    }
  }

  /** The literal forms: name index or name, then the value. */
  method WriteLiteral(data: array<byte>, off: nat, room: nat, indexing: bool, nameIndex: nat, e: Entry)
    returns (written: nat)
    requires off + room <= data.Length
    modifies data
    ensures var b := NameBytes(indexing, nameIndex, room, e.name) + StringLiteral(e.value);
            && written == (if |b| <= room then |b| else 0)
            && (written > 0 ==> data[off..off + written] == b)
    ensures data[..off] == old(data[..off]) && data[off + room..] == old(data[off + room..])
  {
    hide Encoded, StringLiteral, Pow2;
    var ok, offset := WriteName(data, off, room, indexing, nameIndex, e.name);
    if !ok {
      return 0;
    }
    ghost var head := data[..off + offset];
    var w := LiteralString(e.value, data, off + offset, room - offset);
    if w == 0 {
      return 0;
    }
    assert data[..off + offset] == head;
    assert data[..off] == head[..off] && data[off..off + offset] == head[off..];
    assert data[off..off + offset + w] == data[off..off + offset] + data[off + offset..off + offset + w];
    return offset + w;
  }

  method WriteName(data: array<byte>, off: nat, room: nat, indexing: bool, nameIndex: nat, name: seq<byte>)
    returns (ok: bool, offset: nat)
    requires off + room <= data.Length
    modifies data
    ensures var b := NameBytes(indexing, nameIndex, room, name);
            ok == (|b| <= room) && (ok ==> offset == |b| && data[off..off + offset] == b)
    ensures data[..off] == old(data[..off]) && data[off + room..] == old(data[off + room..])
  {
    hide Encoded, StringLiteral, Pow2;
    if nameIndex > 0 {
      offset := Write(data, off, room, PrefixBits(indexing), nameIndex, Flag(indexing));
      return true, offset;
    }
    if room == 0 {
      return false, 0;
    }
    data[off] := Flag(indexing);
    var w := LiteralString(name, data, off + 1, room - 1);
    assert data[..off] == data[..off + 1][..off] == old(data[..off]);
    if w == 0 {
      return false, 1;
    }
    assert data[off] == data[..off + 1][off];
    assert data[off..off + 1 + w] == [data[off]] + data[off + 1..off + 1 + w];
    return true, 1 + w;
  }

  // ---------------------------------------------------------------- decoding a field

  /** The bytes from c on, as far as n reaches over: past the end of the data, when the check has wrapped. */
  method ReadStringLiteral(tree: DecodingTree, data: seq<byte>, cap: nat, behind: seq<byte>) returns (r: StringReading)
    requires Ready(tree) && cap <= MAX_VALUE + 1
    modifies tree, tree.nodes
    ensures Ready(tree) && r == ReadString(data, cap, Some(behind))
  {
    hide Decoded, CString, Low, HuffCodes, Tree, LiteralEnd;
    if |data| == 0 || cap == 0 {
      return NoString;
    }
    var length := ReadVarint(data, 7);
    if length.NotRead? {
      return NoString;
    }
    var n, c := length.value, length.consumed;
    var end := LiteralEnd(c, n);
    if end > |data| {
      return NoString;
    }
    var body := if c + n < WORD then data[c..end] else Clip(data[c..] + behind, n);
    if data[0] >= 0x80 {
      r := ReadHuffman(tree, body, cap, end);
    } else {
      r := AString(CString(Clip(body, cap - 1)), end);
    }
  }

  method ReadHuffman(tree: DecodingTree, body: seq<byte>, cap: nat, consumed: nat) returns (r: StringReading)
    requires Ready(tree) && 0 < cap <= MAX_VALUE + 1
    modifies tree, tree.nodes
    ensures Ready(tree) && r == ReadBody(body, true, cap, consumed)
  {
    hide CString, HuffCodes;
    HuffmanTable.TableIsGood();
    CodesAre();
    var tmp := new byte[MAX_VALUE + 1];
    var ok, dn := tree.Decode(HuffmanTable.Table(), body, tmp, MAX_VALUE);
    if ok {
      DecodeIs(HuffCodes(), body, tmp[..dn]);
      r := AString(Clip(CString(tmp[..dn]), cap - 1), consumed);
    } else {
      r := NoString;
      if Decode(HuffCodes(), body).Some? {
        DecodeIs(HuffCodes(), body, Decode(HuffCodes(), body).value);
      }
    }
  }

  method FindEntry(ctx: HpackContext, index: nat) returns (r: Option<Entry>)
    requires ctx.Valid()
    ensures r == Lookup(ctx.Contents(), index)
  {
    if index == 0 {
      return None;
    }
    if index <= 61 {
      return Some(Clipped(Static()[index - 1]));
    }
    var found, e := ctx.FindDynamic(index);
    return if found then Some(Clipped(e)) else None;
  }

  /** A field with its bytes and the table after it, or a refusal that leaves the table alone. */
  ghost predicate DecodesTo(d: HeaderReading, ok: bool, e: Entry, consumed: nat, before: Table, after: Table) {
    if d.AHeader? then ok && e == d.entry && consumed == d.consumed && after == d.table else !ok && after == before
  }

  method DecodeHeader(tree: DecodingTree, ctx: HpackContext, data: seq<byte>, behind: seq<byte>)
    returns (ok: bool, e: Entry, consumed: nat)
    requires Ready(tree) && ctx.Valid()
    modifies tree, tree.nodes, ctx, ctx.table
    ensures Ready(tree) && ctx.Valid() && (ctx.table == old(ctx.table) || fresh(ctx.table))
    ensures ctx.peak == old(ctx.peak)
    ensures DecodesTo(DecodedHeader(old(ctx.Contents()), data, Some(behind)), ok, e, consumed, old(ctx.Contents()),
                      ctx.Contents())
  {
    hide DecodedLiteral, Decoded, Lookup;
    ok, e, consumed := false, Entry([], []), 0;
    if |data| == 0 {
      return;
    }
    if data[0] >= 0x80 {
      var index := ReadVarint(data, 7);
      if index.Read? {
        var found := FindEntry(ctx, index.value);
        if found.Some? {
          ok, e, consumed := true, found.value, index.consumed;
        }
      }
    } else if data[0] >= 0x40 || data[0] < 0x20 {
      ok, e, consumed := DecodeLiteral(tree, ctx, data, data[0] >= 0x40, behind);
    }
  }

  method DecodeLiteral(tree: DecodingTree, ctx: HpackContext, data: seq<byte>, incremental: bool, behind: seq<byte>)
    returns (ok: bool, e: Entry, consumed: nat)
    requires Ready(tree) && ctx.Valid() && data != []
    modifies tree, tree.nodes, ctx, ctx.table
    ensures Ready(tree) && ctx.Valid() && (ctx.table == old(ctx.table) || fresh(ctx.table))
    ensures ctx.peak == old(ctx.peak)
    ensures DecodesTo(DecodedLiteral(old(ctx.Contents()), data, incremental, Some(behind)), ok, e, consumed,
                      old(ctx.Contents()), ctx.Contents())
  {
    hide ReadString, Decoded, Low, Inserted;
    ok, e, consumed := false, Entry([], []), 0;
    var index := Read(0, 1);
    if Low(data[0], PrefixBits(incremental)) != 0 {
      index := ReadVarint(data, PrefixBits(incremental));
    }
    if index.NotRead? {
      return;
    }
    consumed := index.consumed;
    var name := DecodeName(tree, ctx, index.value, data[consumed..], behind);
    if name.NoString? {
      return;
    }
    consumed := consumed + name.consumed;
    var value := ReadStringLiteral(tree, data[consumed..], MAX_VALUE + 1, behind);
    if value.NoString? {
      return;
    }
    consumed := consumed + value.consumed;
    ok, e := true, Entry(name.text, value.text);
    if incremental {
      ctx.Insert(e);
    }
  }

  method DecodeName(tree: DecodingTree, ctx: HpackContext, index: nat, data: seq<byte>, behind: seq<byte>)
    returns (r: StringReading)
    requires Ready(tree) && ctx.Valid()
    modifies tree, tree.nodes
    ensures Ready(tree) && r == ReadName(ctx.Contents(), index, data, Some(behind))
  {
    hide ReadString, Lookup;
    if index == 0 {
      r := ReadStringLiteral(tree, data, MAX_NAME + 1, behind);
    } else {
      var found := FindEntry(ctx, index);
      r := if found.Some? then AString(found.value.name, 0) else NoString;
    }
  }
}
