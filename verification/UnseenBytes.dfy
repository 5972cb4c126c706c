/** Frames whose effect the bytes received do not determine: a wrapping length, and a short PING. */
module UnseenBytes {
  import opened Basics
  import opened Bits
  import opened Varint
  import opened DynamicTable
  import opened Hpack
  import opened HpackRoundTrip
  import opened HpackBlock
  import opened OverRead
  import opened Frames
  import opened H2State
  import opened StreamList
  import opened EndToEnd

  // ---------------------------------------------------------------- an input that a peer can send

  /** A literal field without indexing whose name claims 2^64 - 1 bytes; one byte is left. */
  const WRAPPING: seq<byte> := [0x00, 0x7F, 0x80, 0xFF, 0xFF, 0xFF, 0xFF, 0xFF, 0xFF, 0xFF, 0xFF, 0x01, 0x41]

  lemma LargestLength()
    ensures Encoded(7, WORD - 1, 0x00) == [0x7F, 0x80, 0xFF, 0xFF, 0xFF, 0xFF, 0xFF, 0xFF, 0xFF, 0xFF, 0x01]
    ensures Safe(7, WORD - 1)
  {
    hide Low;
    PrefixFacts();
    var w := WORD - 128;
    assert ContinuationBytes(1) == [1];
    assert ContinuationBytes(255) == [0xFF, 1];
    assert ContinuationBytes(0x7FFF) == [0xFF, 0xFF, 1];
    assert ContinuationBytes(0x3F_FFFF) == [0xFF, 0xFF, 0xFF, 1];
    assert ContinuationBytes(0x1FFF_FFFF) == [0xFF, 0xFF, 0xFF, 0xFF, 1];
    assert ContinuationBytes(0xF_FFFF_FFFF) == [0xFF, 0xFF, 0xFF, 0xFF, 0xFF, 1];
    assert ContinuationBytes(0x7FF_FFFF_FFFF) == [0xFF, 0xFF, 0xFF, 0xFF, 0xFF, 0xFF, 1];
    assert ContinuationBytes(0x3_FFFF_FFFF_FFFF) == [0xFF, 0xFF, 0xFF, 0xFF, 0xFF, 0xFF, 0xFF, 1];
    assert ContinuationBytes(0x1FF_FFFF_FFFF_FFFF) == [0xFF, 0xFF, 0xFF, 0xFF, 0xFF, 0xFF, 0xFF, 0xFF, 1];
    assert ContinuationBytes(w) == [0x80] + ContinuationBytes(0x1FF_FFFF_FFFF_FFFF);
    FlagsKept(7, WORD - 1, 0x00);
    LowBitsZero(0x1FF_FFFF_FFFF_FFFF);
  }

  lemma LowBitsZero(k: nat)
    ensures Low(128 * k, 7) == 0
  {
    ShlBySeven(k);
    SplitUnique(k, 7, 0);
  }

  lemma LargestLengthRead(rest: seq<byte>)
    ensures Decoded(ByOr, 7, Encoded(7, WORD - 1, 0x00) + rest) == Read(WORD - 1, 11)
  {
    hide Encoded, Decoded, ReadBack, Safe;
    LargestLength();
    WrittenIsRead(ByOr, 7, WORD - 1, 0x00, rest);
    SafeIffReadBack(7, WORD - 1);
  }

  /** The name starts with the byte that is left, and goes on with whatever lies behind. */
  ghost function NameRead(behind: seq<byte>): seq<byte>
    requires Enough(behind)
  {
    CString(([0x41] + behind)[..MAX_NAME])
  }

  lemma WrappingName()
    ensures Known(WRAPPING[1..]) == [0x41] && ReadString(WRAPPING[1..], MAX_NAME + 1) == Beyond(10)
  {
    hide Encoded, Decoded, CString, ReadBody;
    LargestLength();
    LargestLengthRead([0x41]);
    assert WRAPPING[1..] == Encoded(7, WORD - 1, 0x00) + [0x41];
    assert WRAPPING[1..][11..] == [0x41];
  }

  lemma WrappingValue(behind: seq<byte>)
    ensures ReadString(WRAPPING[11..], MAX_VALUE + 1, Some(behind)) == AString([0x41], 2)
  {
    var data := WRAPPING[11..];
    assert data == [0x01, 0x41];
    PrefixFacts();
    assert Low(0x01, 7) == 1;
    assert data[1..2] == [0x41];
    assert CString([0x41]) == [0x41];
  }

  /** What the block decodes to, for every table and every memory. */
  lemma WrappingField(t: Table, behind: seq<byte>)
    requires Enough(behind)
    ensures DecodedHeader(t, WRAPPING, Some(behind)) == AHeader(Entry(NameRead(behind), [0x41]), 13, t)
    ensures DecodedHeader(t, WRAPPING).HeaderBeyond?
  {
    hide Decoded, ReadString, Low, CString;
    PrefixFacts();
    WrappingName();
    KnownString(WRAPPING[1..], MAX_NAME + 1, behind);
    WrappingValue(behind);
    KnownString(WRAPPING[11..], MAX_VALUE + 1, behind);
    assert WRAPPING[1 + 10..] == WRAPPING[11..];
    assert ReadNameIndex(WRAPPING, 4) == Read(0, 1);
  }

  lemma WrappingBlock(t: Table, fields: Fields)
    ensures BlockReads(t, WRAPPING, fields)
       <==> exists behind :: Enough(behind) && fields == Fields([Entry(NameRead(behind), [0x41])], t)
    ensures OverReads(t, WRAPPING)
  {
    hide DecodedHeader, NameRead, Enough;
    forall behind | Enough(behind)
      ensures ReadsNext(t, WRAPPING, fields, behind) <==> fields == Fields([Entry(NameRead(behind), [0x41])], t)
    {
      WrappingField(t, behind);
      assert WRAPPING[13..] == [];
      var e := Entry(NameRead(behind), [0x41]);
      assert fields.list != [] && fields.list[0] == e && fields.list[1..] == [] <==> fields.list == [e];
    }
    WrappingField(t, Filled(0));
  }

  /** The frame with that block. */
  function WrappingFrame(): seq<byte> {
    Frame(HEADERS, END_HEADERS, 1, WRAPPING)
  }

  /** Its outcome for the bytes that lie behind. */
  ghost function WithName(c: Conn, behind: seq<byte>): Outcome
    requires Enough(behind)
  {
    ApplyFields(c, OpenedBy(FindOrNew(c.streams, 1), END_HEADERS), Fields([Entry(NameRead(behind), [0x41])], c.dec),
                None)
  }

  lemma WrappingOutcomes(c: Conn, r: Outcome)
    ensures Possible(c, WrappingFrame(), None, r) <==> exists behind :: Enough(behind) && r == WithName(c, behind)
    ensures !Defined(c, WrappingFrame())
  {
    hide Frame, ParsedHeader, PayloadOf, WholeFrame, BlockReads, OverReads, ApplyFields, NameRead, Enough, OpenedBy,
         FindOrNew;
    FrameIsWhole(HEADERS, END_HEADERS, 1, WRAPPING);
    assert HasFlag(END_HEADERS, END_HEADERS);
    forall fields: Fields
      ensures BlockReads(c.dec, WRAPPING, fields)
         <==> exists behind :: Enough(behind) && fields == Fields([Entry(NameRead(behind), [0x41])], c.dec)
    {
      WrappingBlock(c.dec, fields);
    }
    WrappingBlock(c.dec, Fields([], c.dec));
    forall behind | Enough(behind) && r == WithName(c, behind)
      ensures Possible(c, WrappingFrame(), None, r)
    {
      assert BlockReads(c.dec, WRAPPING, Fields([Entry(NameRead(behind), [0x41])], c.dec));
    }
  }

  lemma NameStart(behind: seq<byte>)
    requires Enough(behind)
    ensures NameRead(behind) != [] && NameRead(behind)[0] == 0x41
  {
    var s := ([0x41] + behind)[..MAX_NAME];
    assert s[0] == 0x41;
  }

  /** The field is stored if there is room for it, and dropped if there is none. */
  lemma NameStored(r: Request, behind: seq<byte>)
    requires Enough(behind)
    ensures var e := Entry(NameRead(behind), [0x41]);
            StoreFields(r, [e]) == if |r.headers| < MAX_HEADERS then r.(headers := r.headers + [e]) else r
  {
    hide NameRead;
    NameStart(behind);
    PseudoNames();
    var e := Entry(NameRead(behind), [0x41]);
    assert !IsPseudo(Entry(NameRead(behind), [0x41]).name);
    assert StoreFields(StoreField(r, e), [e][1..]) == StoreField(r, e);
  }

  lemma NamesDiffer()
    ensures NameRead(Filled(0)) != NameRead(Filled(65))
  {
    hide CString;
    FilledText([0x41], 0, MAX_NAME);
    FilledText([0x41], 65, MAX_NAME);
  }

  /** The headers of stream 1. */
  function HeadersOf(c: Conn): seq<Entry> {
    FindOrNew(c.streams, 1).request.headers
  }

  lemma StoredName(c: Conn, behind: seq<byte>)
    requires Enough(behind)
    ensures var r := WithName(c, behind);
            && r.conn.dec == c.dec
            && HeadersOf(r.conn)
               == HeadersOf(c) + if |HeadersOf(c)| < MAX_HEADERS then [Entry(NameRead(behind), [0x41])] else []
    ensures |HeadersOf(c)| >= MAX_HEADERS ==> WithName(c, behind) == WithName(c, Filled(0))
  {
    hide NameRead, StoreFields, WithStream, FindOrNew;
    var s := OpenedBy(FindOrNew(c.streams, 1), END_HEADERS);
    NameStored(s.request, behind);
    NameStored(s.request, Filled(0));
    FoundAfterStoring(c.streams, s.(request := StoreFields(s.request, [Entry(NameRead(behind), [0x41])])), 1);
  }

  /**
   What that frame stores is up to memory if and only if the stream has room for another header. The decoding table
   stays as it was in any case.
   */
  lemma MemoryDecides(c: Conn)
    ensures forall r :: Possible(c, WrappingFrame(), None, r) ==> r.conn.dec == c.dec
    ensures (exists a, b :: Possible(c, WrappingFrame(), None, a) && Possible(c, WrappingFrame(), None, b) && a != b)
       <==> |HeadersOf(c)| < MAX_HEADERS
    ensures |HeadersOf(c)| < MAX_HEADERS ==>
              exists a, b :: && Possible(c, WrappingFrame(), None, a) && Possible(c, WrappingFrame(), None, b)
                             && HeadersOf(a.conn) != HeadersOf(b.conn)
  {
    hide Possible, WithName, NameRead, HeadersOf;
    forall r | Possible(c, WrappingFrame(), None, r)
      ensures r.conn.dec == c.dec && (|HeadersOf(c)| >= MAX_HEADERS ==> r == WithName(c, Filled(0)))
    {
      WrappingOutcomes(c, r);
      var behind :| Enough(behind) && r == WithName(c, behind);
      StoredName(c, behind);
    }
    if |HeadersOf(c)| < MAX_HEADERS {
      var a, b := WithName(c, Filled(0)), WithName(c, Filled(65));
      WrappingOutcomes(c, a);
      WrappingOutcomes(c, b);
      StoredName(c, Filled(0));
      StoredName(c, Filled(65));
      NamesDiffer();
      assert HeadersOf(a.conn) != HeadersOf(b.conn) by {
        LastDiffers(HeadersOf(c), Entry(NameRead(Filled(0)), [0x41]), Entry(NameRead(Filled(65)), [0x41]));
      }
    }
  }

  lemma LastDiffers(es: seq<Entry>, a: Entry, b: Entry)
    requires a != b
    ensures es + [a] != es + [b]
  {
    assert (es + [a])[|es|] == a && (es + [b])[|es|] == b;
  }

  // ---------------------------------------------------------------- a short PING

  /** A PING request is answered from the bytes received exactly when it has its eight bytes. */
  lemma PingDefinedIff(c: Conn, payload: seq<byte>)
    requires |payload| < 0x100_0000
    ensures Defined(c, Frame(PING, 0, 0, payload)) <==> |payload| >= 8
  {
    hide Frame, ParsedHeader, PayloadOf;
    FrameIsWhole(PING, 0, 0, payload);
    FrameLength(PING, 0, 0, payload);
  }
}
