/**
 When the bounds check of a string literal wraps, and exactly when what is read then depends on the bytes behind.
 */
module OverRead {
  import opened Basics
  import opened Bits
  import opened Varint
  import opened PrefixCode
  import HuffmanTable
  import opened DynamicTable
  import opened StaticTable
  import opened Hpack
  import opened HpackRoundTrip
  import opened HpackBlock

  // ---------------------------------------------------------------- the check

  lemma {:induction false} BitOrBelow(a: nat, b: nat, n: nat)
    requires a < Pow2(n) && b < Pow2(n)
    ensures BitOr(a, b) < Pow2(n)
    decreases n
  {
    if n > 0 {
      BitOrBelow(a / 2, b / 2, n - 1);
    }
  }

  lemma WordIsPower()
    ensures Pow2(64) == WORD
  {
    assert Pow2(8) == 0x100;
    assert Pow2(16) == 0x1_0000;
    assert Pow2(24) == 0x100_0000;
    assert Pow2(32) == 0x1_0000_0000;
    assert Pow2(40) == 0x100_0000_0000;
    assert Pow2(48) == 0x1_0000_0000_0000;
    assert Pow2(56) == 0x100_0000_0000_0000;
  }

  lemma {:induction false} TailIsWord(value: nat, shift: nat, data: seq<byte>, pos: nat)
    requires pos <= |data| && value < WORD && shift < 64 && DecodedTail(ByOr, value, shift, data, pos).Read?
    ensures var r := DecodedTail(ByOr, value, shift, data, pos);
            r.value < WORD && 7 * (r.consumed - pos) <= 70 - shift
    decreases |data| - pos
  {
    if pos < |data| {
      var part := Shl(data[pos] % 128, shift) % WORD;
      WordIsPower();
      BitOrBelow(value, part, 64);
      if data[pos] >= 128 && shift + 7 < 64 {
        TailIsWord(BitOr(value, part), shift + 7, data, pos + 1);
      }
    }
  }

  /** The integer reader yields 64-bit values, from at most eleven bytes. */
  lemma ReadIsWord(data: seq<byte>)
    requires Decoded(ByOr, 7, data).Read?
    ensures Decoded(ByOr, 7, data).value < WORD && Decoded(ByOr, 7, data).consumed <= 11
  {
    PrefixFacts();
    SplitAt(data[0], 7);
    if Low(data[0], 7) == Mask(7) {
      TailIsWord(Mask(7), 0, data, 1);
    }
  }

  /** The check lets a length through that does not fit exactly when adding it wraps. */
  lemma CheckFailsToHold(n: nat, c: nat, size: nat)
    requires n < WORD && 0 < c <= size < WORD
    ensures LiteralEnd(c, n) <= size && c + n > size <==> n >= WORD - c
  {
    if n >= WORD - c {
      assert (c + n) % WORD == c + n - WORD;
    } else {
      assert (c + n) % WORD == c + n;
    }
  }

  // ---------------------------------------------------------------- Huffman text

  lemma {:induction false} CodeBitsBound(s: seq<byte>)
    ensures |CodeBits(HuffCodes(), s)| <= 30 * |s|
  {
    if s != [] {
      hide HuffCodes;
      CodeBitsBound(s[1..]);
      CodeLength(s[0]);
    }
  }

  lemma CodeLength(x: byte)
    ensures |HuffCodes()[x]| <= 30
  {
    HuffmanTable.TableIsGood();
  }

  /** 3840 bytes hold more symbols than the buffer takes, or none that can be read. */
  lemma LongHuffmanRefused(body: seq<byte>, cap: nat, consumed: nat)
    requires |body| >= 3840 && cap > 0
    ensures ReadBody(body, true, cap, consumed).NoString?
  {
    hide HuffCodes, CString;
    UsableCodes();
    if Decode(HuffCodes(), body).Some? {
      var s := Decode(HuffCodes(), body).value;
      AcceptedShape(HuffCodes(), body, s);
      CodeBitsBound(s);
    }
  }

  // ---------------------------------------------------------------- one string

  /** The part of a wrapped literal that lies within the data. */
  ghost function Known(data: seq<byte>): seq<byte> {
    var d := Decoded(ByOr, 7, data);
    if d.Read? then data[d.consumed..] else []
  }

  /** A wrapped literal takes its bytes from the data and from what lies behind, as far as the buffer goes. */
  lemma WrappedBody(known: seq<byte>, behind: seq<byte>, n: nat, huffman: bool, cap: nat, end: nat)
    requires Enough(behind) && WORD - 11 <= n < WORD && 0 < cap <= MAX_VALUE + 1
    ensures ReadBody(Clip(known + behind, n), huffman, cap, end)
         == if huffman then NoString else AString(CString((known + behind)[..cap - 1]), end)
  {
    hide CString;
    var body := Clip(known + behind, n);
    if huffman {
      LongHuffmanRefused(body, cap, end);
    } else {
      assert Clip(body, cap - 1) == (known + behind)[..cap - 1];
    }
  }

  /** What is said without the bytes behind holds for all of them; else they fill up the buffer. */
  lemma KnownString(data: seq<byte>, cap: nat, behind: seq<byte>)
    requires Enough(behind) && cap <= MAX_VALUE + 1
    ensures var u, k := ReadString(data, cap), ReadString(data, cap, Some(behind));
            if u.Beyond? then
              && |Known(data)| < cap - 1 && 0 !in Known(data)
              && k == AString(CString((Known(data) + behind)[..cap - 1]), u.consumed)
            else k == u
  {
    hide Decoded, CString, ReadBody, Clip, LiteralEnd;
    var d := Decoded(ByOr, 7, data);
    if cap > 0 && d.Read? && d.consumed + d.value >= WORD {
      ReadIsWord(data);
      var known := Known(data);
      WrappedBody(known, behind, d.value, data[0] >= 0x80, cap, LiteralEnd(d.consumed, d.value));
      if |known| >= cap - 1 || 0 in known {
        SameText(known, behind, cap - 1);
      }
    }
  }

  lemma SameText(known: seq<byte>, behind: seq<byte>, n: nat)
    requires |behind| >= n && (|known| >= n || 0 in known)
    ensures CString((known + behind)[..n]) == CString(Clip(known, n))
  {
    if |known| >= n {
      assert (known + behind)[..n] == known[..n];
    } else {
      assert (known + behind)[..n] == known + behind[..n - |known|];
      EndsInKnown(known, behind[..n - |known|]);
    }
  }

  lemma {:induction false} EndsInKnown(known: seq<byte>, more: seq<byte>)
    ensures CString(known + more) == if 0 in known then CString(known) else known + CString(more)
  {
    if known == [] {
      assert known + more == more && known + CString(more) == CString(more);
    } else {
      var x, rest := known[0], known[1..];
      assert known == [x] + rest && (0 in known <==> x == 0 || 0 in rest);
      assert (known + more)[0] == x && (known + more)[1..] == rest + more;
      EndsInKnown(rest, more);
      Reassociate([x], rest, CString(more));
    }
  }

  /** Bytes of one kind. */
  ghost function Filled(x: byte): (m: seq<byte>)
    ensures Enough(m) && forall i :: 0 <= i < |m| ==> m[i] == x
  {
    seq(WORD, _ => x)
  }

  /** Zeros behind end the text where the data end; other bytes make it longer. */
  lemma FilledDiffer(data: seq<byte>, cap: nat)
    requires ReadString(data, cap).Beyond? && cap <= MAX_VALUE + 1
    ensures ReadString(data, cap, Some(Filled(0))) == AString(Known(data), ReadString(data, cap).consumed)
    ensures var k := ReadString(data, cap, Some(Filled(65)));
            k.AString? && k.consumed == ReadString(data, cap).consumed && k.text != Known(data)
  {
    hide ReadString, CString, Known;
    var known, n := Known(data), cap - 1;
    KnownString(data, cap, Filled(0));
    KnownString(data, cap, Filled(65));
    FilledText(known, 0, n);
    FilledText(known, 65, n);
  }

  lemma FilledText(known: seq<byte>, x: byte, n: nat)
    requires |known| < n < WORD && 0 !in known
    ensures CString((known + Filled(x))[..n]) == if x == 0 then known else known + Filled(x)[..n - |known|]
  {
    var more := Filled(x)[..n - |known|];
    assert (known + Filled(x))[..n] == known + more;
    EndsInKnown(known, more);
    assert more[0] == x;
    assert x != 0 ==> 0 !in more;
  }

  /**
   Exactly when the text depends on the bytes behind the data: a plain literal reaches the check with a length that
   wraps, and neither fills the buffer nor ends at a NUL before the data end.
   */
  lemma BeyondIff(data: seq<byte>, cap: nat)
    requires cap <= MAX_VALUE + 1
    ensures ReadString(data, cap).Beyond?
       <==> exists a, b :: Enough(a) && Enough(b)
                           && ReadString(data, cap, Some(a)) != ReadString(data, cap, Some(b))
    ensures var d := Decoded(ByOr, 7, data);
            |data| < WORD ==>
              (ReadString(data, cap).Beyond?
               <==> cap > 0 && d.Read? && d.value >= WORD - d.consumed && data[0] < 0x80
                    && |data| - d.consumed < cap - 1 && 0 !in data[d.consumed..])
  {
    hide Decoded, ReadBody, CString;
    if ReadString(data, cap).Beyond? {
      FilledDiffer(data, cap);
      assert Enough(Filled(0)) && Enough(Filled(65));
    } else {
      forall a | Enough(a)
        ensures ReadString(data, cap, Some(a)) == ReadString(data, cap)
      {
        KnownString(data, cap, a);
      }
    }
    var d := Decoded(ByOr, 7, data);
    if d.Read? && |data| < WORD {
      ReadIsWord(data);
      CheckFailsToHold(d.value, d.consumed, |data|);
    }
  }

  // ---------------------------------------------------------------- one field

  lemma KnownName(t: Table, index: nat, data: seq<byte>, behind: seq<byte>)
    requires Enough(behind)
    ensures var u, k := ReadName(t, index, data), ReadName(t, index, data, Some(behind));
            if u.Beyond? then k.AString? && k.consumed == u.consumed else k == u
  {
    hide ReadString, Lookup;
    KnownString(data, MAX_NAME + 1, behind);
  }

  /** The same, or unknown where the other is known. */
  ghost predicate Fills(u: StringReading, k: StringReading) {
    if u.Beyond? then k.AString? && k.consumed == u.consumed else k == u
  }

  lemma KnownField(t: Table, name: StringReading, value: StringReading, name': StringReading, value': StringReading,
                   c: nat, incremental: bool)
    requires Fills(name, name') && Fills(value, value')
    ensures var u, k := FieldRead(t, name, value, c, incremental), FieldRead(t, name', value', c, incremental);
            if u.HeaderBeyond? then
              name'.Beyond? || value'.Beyond? || (k.AHeader? && k.table == if incremental then Added(t, k.entry) else t)
            else k == u
  {
    hide Added;
  }

  /** A literal field, step by step. */
  lemma LiteralSteps(t: Table, data: seq<byte>, incremental: bool, behind: Option<seq<byte>>)
    requires data != []
    ensures var i := ReadNameIndex(data, PrefixBits(incremental));
            if i.NotRead? then DecodedLiteral(t, data, incremental, behind) == NoHeader
            else
              var name := ReadName(t, i.value, data[i.consumed..], behind);
              DecodedLiteral(t, data, incremental, behind)
              == if name.NoString? then NoHeader
                 else
                   var rest := data[i.consumed + name.consumed..];
                   FieldRead(t, name, ReadString(rest, MAX_VALUE + 1, behind), i.consumed, incremental)
  {
    hide ReadString, ReadNameIndex, ReadName, FieldRead;
  }

  lemma KnownLiteral(t: Table, data: seq<byte>, incremental: bool, behind: seq<byte>)
    requires Enough(behind) && data != []
    ensures var u, k := DecodedLiteral(t, data, incremental), DecodedLiteral(t, data, incremental, Some(behind));
            if u.HeaderBeyond? then k.AHeader? && k.table == (if incremental then Added(t, k.entry) else t) else k == u
  {
    hide ReadString, ReadNameIndex, ReadName, Added, Enough, Fits, FieldRead, DecodedLiteral;
    LiteralSteps(t, data, incremental, None);
    LiteralSteps(t, data, incremental, Some(behind));
    var i := ReadNameIndex(data, PrefixBits(incremental));
    if i.Read? {
      var later := data[i.consumed..];
      KnownName(t, i.value, later, behind);
      var name, name' := ReadName(t, i.value, later), ReadName(t, i.value, later, Some(behind));
      if !name.NoString? {
        var rest := data[i.consumed + name.consumed..];
        KnownString(rest, MAX_VALUE + 1, behind);
        KnownField(t, name, ReadString(rest, MAX_VALUE + 1), name', ReadString(rest, MAX_VALUE + 1, Some(behind)),
                   i.consumed, incremental);
      }
    }
  }

  /** What is said without the bytes behind holds for all of them; else there is a field for any of them. */
  lemma KnownHeader(t: Table, data: seq<byte>, behind: seq<byte>)
    requires Enough(behind)
    ensures var u, k := DecodedHeader(t, data), DecodedHeader(t, data, Some(behind));
            if u.HeaderBeyond? then k.AHeader? && k.table == (if data[0] >= 0x40 then Added(t, k.entry) else t)
            else k == u
  {
    hide DecodedLiteral, DecodedIndexed, Added;
    if data != [] {
      KnownLiteral(t, data, true, behind);
      KnownLiteral(t, data, false, behind);
    }
  }

  lemma LiteralDepends(t: Table, data: seq<byte>, incremental: bool)
    requires data != [] && DecodedLiteral(t, data, incremental).HeaderBeyond?
    ensures var a, b := DecodedLiteral(t, data, incremental, Some(Filled(0))),
                        DecodedLiteral(t, data, incremental, Some(Filled(65)));
            a.AHeader? && b.AHeader? && a.entry != b.entry
  {
    hide ReadString, ReadNameIndex, Lookup, Added, Known;
    var i := ReadNameIndex(data, PrefixBits(incremental));
    var later := data[i.consumed..];
    var name := ReadName(t, i.value, later);
    KnownLiteral(t, data, incremental, Filled(0));
    KnownLiteral(t, data, incremental, Filled(65));
    KnownName(t, i.value, later, Filled(0));
    KnownName(t, i.value, later, Filled(65));
    if name.Beyond? {
      FilledDiffer(later, MAX_NAME + 1);
    } else {
      FilledDiffer(data[i.consumed + name.consumed..], MAX_VALUE + 1);
    }
  }

  /** Zeros and other bytes behind give different fields. */
  lemma HeaderDepends(t: Table, data: seq<byte>)
    requires DecodedHeader(t, data).HeaderBeyond?
    ensures var a, b := DecodedHeader(t, data, Some(Filled(0))), DecodedHeader(t, data, Some(Filled(65)));
            a.AHeader? && b.AHeader? && a.entry != b.entry
  {
    hide DecodedLiteral, DecodedIndexed;
    LiteralDepends(t, data, data[0] >= 0x40);
  }

  // ---------------------------------------------------------------- one block

  /** Some fields come out, whatever the block holds. */
  lemma {:induction false} SomeFields(t: Table, data: seq<byte>, behind: seq<byte>) returns (fields: Fields)
    requires Enough(behind)
    ensures BlockReads(t, data, fields)
    ensures var d := DecodedHeader(t, data, Some(behind));
            data != [] && d.AHeader? ==> fields.list != [] && fields.list[0] == d.entry
    decreases |data|
  {
    hide DecodedHeader, Enough;
    fields := Fields([], t);
    if data != [] {
      var d := DecodedHeader(t, data, Some(behind));
      if d.AHeader? {
        var rest := SomeFields(d.table, data[d.consumed..], behind);
        fields := Fields([d.entry] + rest.list, rest.table);
        assert Fields(fields.list[1..], fields.table) == rest;
      }
      assert ReadsNext(t, data, fields, behind);
    }
  }

  /** Without over-reads, the fields are those of the specified decoding. */
  lemma {:induction false} BlockIsRead(t: Table, data: seq<byte>, fields: Fields)
    requires !OverReads(t, data)
    ensures BlockReads(t, data, fields) <==> fields == DecodedBlock(t, data)
    decreases |data|
  {
    hide DecodedHeader, Enough;
    if data != [] {
      var d, tail := DecodedHeader(t, data), Fields(fields.list[if fields.list == [] then 0 else 1..], fields.table);
      forall behind | Enough(behind)
        ensures DecodedHeader(t, data, Some(behind)) == d
      {
        KnownHeader(t, data, behind);
      }
      if d.AHeader? {
        BlockIsRead(d.table, data[d.consumed..], tail);
      }
      if fields == DecodedBlock(t, data) {
        assert ReadsNext(t, data, fields, Filled(0));
      }
      assert fields.list != [] ==> fields.list == [fields.list[0]] + fields.list[1..];
    }
  }

  /** The fields of a block depend on what lies behind it exactly when decoding comes to one that does. */
  lemma {:induction false} OverReadsIff(t: Table, data: seq<byte>)
    ensures OverReads(t, data)
       <==> exists a, b :: BlockReads(t, data, a) && BlockReads(t, data, b) && a.list != b.list
    decreases |data|
  {
    if OverReads(t, data) {
      var a, b := DifferentFields(t, data);
    } else {
      forall a | BlockReads(t, data, a)
        ensures a == DecodedBlock(t, data)
      {
        BlockIsRead(t, data, a);
      }
    }
  }

  lemma {:induction false} DifferentFields(t: Table, data: seq<byte>) returns (a: Fields, b: Fields)
    requires OverReads(t, data)
    ensures BlockReads(t, data, a) && BlockReads(t, data, b) && a.list != b.list
    decreases |data|
  {
    hide DecodedHeader, Enough;
    var d := DecodedHeader(t, data);
    if d.HeaderBeyond? {
      HeaderDepends(t, data);
      a := SomeFields(t, data, Filled(0));
      b := SomeFields(t, data, Filled(65));
    } else {
      KnownHeader(t, data, Filled(0));
      a, b := DifferentFields(d.table, data[d.consumed..]);
      a := OneMore(t, data, d, a);
      b := OneMore(t, data, d, b);
    }
  }

  lemma OneMore(t: Table, data: seq<byte>, d: HeaderReading, rest: Fields) returns (fields: Fields)
    requires data != [] && d.AHeader? && DecodedHeader(t, data, Some(Filled(0))) == d
    requires BlockReads(d.table, data[d.consumed..], rest)
    ensures BlockReads(t, data, fields) && fields.list == [d.entry] + rest.list
  {
    hide DecodedHeader, Enough;
    fields := Fields([d.entry] + rest.list, rest.table);
    assert Fields(fields.list[1..], fields.table) == rest;
    assert ReadsNext(t, data, fields, Filled(0));
  }

  /** Whatever is read, the table stays within its limit and its entries within their buffers. */
  lemma {:induction false} BlockKeeps(t: Table, data: seq<byte>, fields: Fields)
    requires Kept(t) && BlockReads(t, data, fields)
    ensures Kept(fields.table) && fields.table.max == t.max && forall e :: e in fields.list ==> Fits(e)
    decreases |data|
  {
    hide DecodedHeader, Enough, Kept;
    if data != [] {
      var behind :| ReadsNext(t, data, fields, behind);
      var d := DecodedHeader(t, data, Some(behind));
      if d.AHeader? {
        TableKept(t, data, behind);
        BlockKeeps(d.table, data[d.consumed..], Fields(fields.list[1..], fields.table));
      }
    }
  }

  lemma TableKept(t: Table, data: seq<byte>, behind: seq<byte>)
    requires Kept(t) && DecodedHeader(t, data, Some(behind)).AHeader?
    ensures var d := DecodedHeader(t, data, Some(behind));
            Kept(d.table) && d.table.max == t.max && Fits(d.entry)
  {
    hide ReadString, ReadNameIndex, ReadName, Decoded, Lookup, Kept;
    var d := DecodedHeader(t, data, Some(behind));
    KeptAdded(t, d.entry);
  }

  // ---------------------------------------------------------------- a dropped name index

  /** A reading that consumes nothing had a length that wrapped exactly, and copied what stood behind it. */
  lemma NothingConsumed(data: seq<byte>, cap: nat, behind: seq<byte>)
    requires Enough(behind) && 0 < cap <= MAX_VALUE + 1
    requires var r := ReadString(data, cap, Some(behind)); r.AString? && r.consumed == 0
    ensures ReadString(data, cap, Some(behind)).text == CString((Known(data) + behind)[..cap - 1])
  {
    hide Decoded, CString, ReadBody;
    var d := Decoded(ByOr, 7, data);
    ReadIsWord(data);
    assert d.consumed + d.value >= WORD;
    WrappedBody(Known(data), behind, d.value, data[0] >= 0x80, cap, 0);
  }

  lemma SameStart(s: seq<byte>, m: nat, n: nat)
    requires m <= |s| && n <= |s| && 0 < m && 0 < n
    ensures CString(s[..m]) == [] <==> CString(s[..n]) == []
  {}

  /**
   The one way an index is dropped: one byte of room, an index that needs two, and an empty value. Whatever lies
   behind, a decoder then runs past the byte, or (by a length that wraps exactly) finds an empty name and leaves its
   table alone.
   */
  lemma DroppedIndex(t: Table, e: Entry, b: seq<byte>, rest: seq<byte>, behind: seq<byte>)
    requires b == StringLiteral(e.value) && |b| <= 1 && Enough(behind)
    ensures e.value == []
    ensures var r := DecodedHeader(t, b + rest, Some(behind));
            r.AHeader? && r.consumed <= |b| && r.entry.value == [] ==> r.entry.name == [] && r.table == t
  {
    hide Decoded, ReadString, StringLiteral, Lookup, Low, CString, Known;
    ShortLiteral(e.value);
    PrefixFacts();
    var data := b + rest;
    assert data[0] == 0 && data[1..] == rest;
    assert ReadNameIndex(data, 4) == Read(0, 1);
    var r := DecodedHeader(t, data, Some(behind));
    if r.AHeader? && r.consumed <= 1 {
      var name := ReadString(rest, MAX_NAME + 1, Some(behind));
      assert data[1 + name.consumed..] == rest;
      NothingConsumed(rest, MAX_NAME + 1, behind);
      NothingConsumed(rest, MAX_VALUE + 1, behind);
      SameStart(Known(rest) + behind, MAX_NAME, MAX_VALUE);
    }
  }

  /**
   Header by header, and whatever lies behind the data: the decoder returns what was encoded if and only if Faithful.
   */
  lemma LockStepAnyMemory(t: Table, room: nat, e: Entry, rest: seq<byte>, behind: seq<byte>)
    requires Kept(t) && Storable(e) && EncodedHeader(t, room, e) != [] && Enough(behind)
    ensures DecodedHeader(t, EncodedHeader(t, room, e) + rest, Some(behind))
            == AHeader(e, |EncodedHeader(t, room, e)|, TableAfter(t, room, e))
            <==> Faithful(t, room, e)
  {
    hide DecodedHeader, StringLiteral, Encoded, Low, Pow2, Safe, LiteralLength, Inserted, StaticAt;
    var b := EncodedHeader(t, room, e);
    LockStep(t, room, e, rest);
    KnownHeader(t, b + rest, behind);
    if DecodedHeader(t, b + rest).HeaderBeyond? {
      match Represent(t, e)
      case Indexed(i) =>
        UnsafeIndexDiffers(t, i, e, rest);
      case Literal(incremental, i) =>
        if i > 0 {
          NameIndexSafe(incremental, i);
          assert Lookup(t, i).value.name == e.name;
        }
        if i == 0 || |Encoded(PrefixBits(incremental), i, Flag(incremental))| <= room {
          UnsafeValueDiffers(t, incremental, i, e, rest);
        } else {
          assert b == StringLiteral(e.value) by {
            assert [] + StringLiteral(e.value) == StringLiteral(e.value);
          }
          DroppedIndex(t, e, b, rest, behind);
          MaskIndex(incremental, i);
          if incremental {
            AddedIsNew(t, e);
          } else {
            StaticFifteen(t, e.name);
          }
        }
    }
  }
}
