/** What a decoder makes of the front part of a header block, and so exactly when fragmentation is visible. */
module Truncation {
  import opened Bits
  import opened Varint
  import opened DynamicTable
  import opened StaticTable
  import opened Hpack
  import opened HpackRoundTrip
  import opened HpackBlock
  import opened Frames
  import opened H2State
  import opened StreamList
  import opened EndToEnd
  import opened Fragments

  // ---------------------------------------------------------------- integers and strings

  lemma {:induction false} NoEnd(join: Join, value: nat, shift: nat, data: seq<byte>, pos: nat)
    requires pos <= |data| && forall i :: pos <= i < |data| ==> data[i] >= 128
    ensures DecodedTail(join, value, shift, data, pos).NotRead?
    decreases |data| - pos
  {
    if pos < |data| && shift + 7 < 64 {
      NoEnd(join, Combine(join, value, Shl(data[pos] % 128, shift) % WORD), shift + 7, data, pos + 1);
    }
  }

  lemma {:induction false} AllContinued(w: nat, i: nat)
    requires i + 1 < |ContinuationBytes(w)|
    ensures ContinuationBytes(w)[i] >= 128
  {
    if i > 0 {
      AllContinued(w / 128, i - 1);
    }
  }

  /** An integer cut short is not read. */
  lemma TruncatedInteger(n: nat, value: nat, flags: byte, k: nat)
    requires PrefixWidth(n) && k < |Encoded(n, value, flags)|
    ensures Decoded(ByOr, n, Encoded(n, value, flags)[..k]).NotRead?
  {
    var data := Encoded(n, value, flags)[..k];
    if k > 0 {
      forall i | 1 <= i < |data|
        ensures data[i] >= 128
      {
        AllContinued(value - Mask(n), i - 1);
      }
      NoEnd(ByOr, Mask(n), 0, data, 1);
    }
  }

  lemma TruncatedBody(flags: byte, body: seq<byte>, k: nat, cap: nat)
    requires (flags == 0x80 || flags == 0x00) && |body| <= HUFF_BUFFER && Safe(7, |body|)
    requires k < |Encoded(7, |body|, flags)| + |body|
    ensures ReadString((Encoded(7, |body|, flags) + body)[..k], cap).NoString?
  {
    hide Encoded, Decoded, ReadString, Safe, Low;
    var head := Encoded(7, |body|, flags);
    var data := (head + body)[..k];
    if k < |head| {
      TruncatedInteger(7, |body|, flags, k);
      assert data == head[..k];
    } else {
      var m := LengthRead(flags, |body|, body[..k - |head|]);
      IntegerLength(7, |body|, flags);
      assert data == head + body[..k - |head|];
    }
    ReadOutside(data, cap);
  }

  /** A string cut short is not read. */
  lemma TruncatedString(s: seq<byte>, k: nat, cap: nat)
    requires |s| <= MAX_VALUE && Safe(7, LiteralLength(s)) && k < |StringLiteral(s)|
    ensures ReadString(StringLiteral(s)[..k], cap).NoString?
  {
    hide Encoded, Huffman, ReadString, Safe;
    if UsesHuffman(s) {
      TruncatedBody(0x80, Huffman(s), k, cap);
    } else {
      TruncatedBody(0x00, s, k, cap);
    }
  }

  // ---------------------------------------------------------------- header fields

  lemma TruncatedIndexed(t: Table, i: nat, k: nat)
    requires k < |Encoded(7, i, 0x80)|
    ensures DecodedHeader(t, Encoded(7, i, 0x80)[..k]).NoHeader?
  {
    hide Encoded, Decoded, Low;
    SevenBitFlags(i);
    TruncatedInteger(7, i, 0x80, k);
  }

  /** Cut inside the value, behind a name that is read. */
  lemma TruncatedValue(t: Table, incremental: bool, index: nat, e: Entry, j: nat)
    requires Storable(e) && index < Pow2(PrefixBits(incremental)) && Safe(7, LiteralLength(e.value))
    requires index > 0 ==> Lookup(t, index).Some? && Lookup(t, index).value.name == e.name
    requires j < |StringLiteral(e.value)|
    ensures var head := if index > 0 then Encoded(PrefixBits(incremental), index, Flag(incremental))
                        else [Flag(incremental)] + StringLiteral(e.name);
            DecodedHeader(t, head + StringLiteral(e.value)[..j]).NoHeader?
  {
    hide Encoded, Low, Pow2, StringLiteral, ReadString, ReadNameIndex, ReadName, Safe, LiteralLength;
    var head := if index > 0 then Encoded(PrefixBits(incremental), index, Flag(incremental))
                else [Flag(incremental)] + StringLiteral(e.name);
    var tail := StringLiteral(e.value)[..j];
    var c := NameRoundTrip(t, incremental, index, e.name, tail);
    assert (head + tail)[|head|..] == tail;
    TruncatedString(e.value, j, MAX_VALUE + 1);
  }

  /** Cut inside the name or its index. */
  lemma TruncatedName(t: Table, incremental: bool, index: nat, name: seq<byte>, k: nat)
    requires 0 !in name && |name| <= MAX_NAME && index < Pow2(PrefixBits(incremental))
    ensures var head := if index > 0 then Encoded(PrefixBits(incremental), index, Flag(incremental))
                        else [Flag(incremental)] + StringLiteral(name);
            k < |head| ==> DecodedHeader(t, head[..k]).NoHeader?
  {
    hide Encoded, Decoded, Low, StringLiteral, ReadString, Lookup;
    var n := PrefixBits(incremental);
    PrefixFacts();
    if index > 0 {
      var head := Encoded(n, index, Flag(incremental));
      NameIndexSafe(incremental, index);
      if k < |head| {
        TruncatedInteger(n, index, Flag(incremental), k);
      }
    } else {
      var head := [Flag(incremental)] + StringLiteral(name);
      ShortIsSafe(LiteralLength(name));
      if 0 < k < |head| {
        TruncatedString(name, k - 1, MAX_NAME + 1);
        assert head[..k][1..] == StringLiteral(name)[..k - 1];
        assert ReadNameIndex(head[..k], n) == Read(0, 1);
      }
    }
  }

  /** A field that survives whole is refused when any of its bytes is missing. */
  lemma TruncatedHeader(t: Table, room: nat, e: Entry, k: nat)
    requires Kept(t) && Storable(e) && Faithful(t, room, e) && k < |EncodedHeader(t, room, e)|
    ensures DecodedHeader(t, EncodedHeader(t, room, e)[..k]).NoHeader?
  {
    hide DecodedHeader, StringLiteral, Encoded, Low, Pow2, Safe, LiteralLength, StaticAt;
    var b := EncodedHeader(t, room, e);
    match Represent(t, e)
    case Indexed(i) => TruncatedIndexed(t, i, k);
    case Literal(incremental, i) =>
      var head := NameBytes(incremental, i, room, e.name);
      if i > 0 {
        assert Lookup(t, i).value.name == e.name;
      }
      if k < |head| {
        assert b[..k] == head[..k];
        TruncatedName(t, incremental, i, e.name, k);
      } else {
        assert b[..k] == head + StringLiteral(e.value)[..k - |head|];
        TruncatedValue(t, incremental, i, e, k - |head|);
      }
  }

  // ---------------------------------------------------------------- header blocks

  /** The front part of a block decodes to a front part of its fields, all of them only when nothing is missing. */
  lemma {:induction false} TruncatedBlock(t: Table, room: nat, hs: seq<Entry>, front: seq<byte>, missing: seq<byte>)
    requires Kept(t) && AllFaithful(t, room, hs) && front + missing == EncodedBlock(t, room, hs).bytes
    ensures DecodedBlock(t, front).list <= hs
    ensures DecodedBlock(t, front).list == hs <==> missing == []
    ensures !OverReads(t, front)
    decreases |hs|
  {
    hide EncodedHeader, DecodedHeader, Faithful, TableAfter;
    if hs != [] {
      var b, t' := EncodedHeader(t, room, hs[0]), TableAfter(t, room, hs[0]);
      var rest := EncodedBlock(t', room - |b|, hs[1..]).bytes;
      if |front| < |b| {
        assert front == (front + missing)[..|front|] == b[..|front|];
        TruncatedHeader(t, room, hs[0], |front|);
      } else {
        var later := front[|b|..];
        assert front == b + later by {
          assert (front + missing)[..|b|] == front[..|b|];
        }
        assert later + missing == rest by {
          assert (front + missing)[|b|..] == later + missing;
        }
        LockStep(t, room, hs[0], later);
        KeptAfter(t, room, hs[0]);
        TruncatedBlock(t', room - |b|, hs[1..], later, missing);
        assert hs == [hs[0]] + hs[1..];
      }
    }
  }

  // ---------------------------------------------------------------- fragmentation

  /** Two blocks leave the same table, and the same request where r was. */
  ghost predicate SameFields(t: Table, r: Request, a: seq<byte>, b: seq<byte>) {
    DecodedBlock(t, a).table == DecodedBlock(t, b).table
    && StoreFields(r, DecodedBlock(t, a).list) == StoreFields(r, DecodedBlock(t, b).list)
  }

  /** The request a block for this stream adds to. */
  function RequestBefore(c: Conn, id: nat): Request {
    FindOrNew(c.streams, id).request.(http2 := true)
  }

  /** Completed in one frame, two blocks have the same effect exactly when they leave the same table and request. */
  lemma SameEffectIff(c: Conn, id: nat, flags: byte, a: seq<byte>, b: seq<byte>, handler: Handler)
    requires HasFlag(flags, END_HEADERS) && id < 0x8000_0000 && |a| < 0x100_0000 && |b| < 0x100_0000
    ensures Process(c, Frame(HEADERS, flags, id, a), handler) == Process(c, Frame(HEADERS, flags, id, b), handler)
       <==> SameFields(c.dec, RequestBefore(c, id), a, b)
  {
    hide Process, Frame, DecodedBlock, StoreFields, Answered, FindOrNew;
    var s := OpenedBy(FindOrNew(c.streams, id), flags);
    HeadersProcessed(c, flags, id, a, handler);
    HeadersProcessed(c, flags, id, b, handler);
    var fa, fb := DecodedBlock(c.dec, a), DecodedBlock(c.dec, b);
    AnsweredShows(c.(dec := fa.table), s.(request := StoreFields(s.request, fa.list)), handler);
    AnsweredShows(c.(dec := fb.table), s.(request := StoreFields(s.request, fb.list)), handler);
  }

  /** Table and request can be read off the connection afterwards, whoever answers. */
  lemma AnsweredShows(c: Conn, s: Stream, handler: Handler)
    ensures var conn := Answered(c, s, handler).conn;
            conn.dec == c.dec && FindOrNew(conn.streams, s.id).request == s.request
  {
    hide WithStream, FindOrNew, ResponseFrames, ResponseBlock, StateAfterResponse;
    FoundAfterStoring(c.streams, s, s.id);
    if handler.Some? {
      FoundAfterStoring(c.streams, s.(state := StateAfterResponse(s.state, handler.value(s.request))), s.id);
    }
  }

  /**
   Section 6.10 of RFC 7540, exactly as far as it holds in the code: any block at all, split over HEADERS,
   CONTINUATION frames and the frame that ends it, has the effect of the whole block in one frame if and only if
   leaving out the last fragment changes neither the table nor the request.
   */
  lemma VisibleIff(c: Conn, id: nat, flags: byte, first: seq<byte>, middle: seq<seq<byte>>, last: seq<byte>,
                   handler: Handler)
    requires c.pending.None? && 0 < id < 0x8000_0000 && !HasFlag(flags, END_HEADERS) && flags + END_HEADERS < 256
    requires FitFrames(middle) && |first| + |Concat(middle)| + |last| < 0x100_0000
    ensures var front := first + Concat(middle);
            ProcessAll(c, Split(id, flags, first, middle, last), handler)
              == Process(c, Frame(HEADERS, flags + END_HEADERS, id, front + last), handler)
            <==> SameFields(c.dec, RequestBefore(c, id), front, front + last)
    ensures AllDefined(c, Split(id, flags, first, middle, last), handler) <==> !OverReads(c.dec, first + Concat(middle))
  {
    hide Process, ProcessAll, Frame, HasFlag, SameFields, Defined, AllDefined, OverReads;
    var front := first + Concat(middle);
    SplitIsWhole(c, id, flags, first, middle, last, handler);
    FlagAdded(flags);
    SameEffectIff(c, id, flags + END_HEADERS, front, front + last, handler);
    HeadersDefined(c, flags + END_HEADERS, id, front);
  }

  /** How many of the fields go into the headers, as long as there is room. */
  function Ordinary(es: seq<Entry>): nat {
    if es == [] then 0 else Ordinary(es[1..]) + if IsPseudo(es[0].name) then 0 else 1
  }

  lemma {:induction false} OrdinaryStored(r: Request, es: seq<Entry>)
    requires |r.headers| + Ordinary(es) <= MAX_HEADERS
    ensures |StoreFields(r, es).headers| == |r.headers| + Ordinary(es)
    decreases |es|
  {
    if es != [] {
      hide Ascii, ParseMethod;
      PseudoNames();
      OrdinaryStored(StoreField(r, es[0]), es[1..]);
    }
  }

  lemma {:induction false} OrdinaryConcat(a: seq<Entry>, b: seq<Entry>)
    ensures Ordinary(a + b) == Ordinary(a) + Ordinary(b)
    decreases |a|
  {
    if a == [] {
      assert a + b == b;
    } else {
      OrdinaryConcat(a[1..], b);
      assert (a + b)[1..] == a[1..] + b;
    }
  }

  /** Without its last field, an ordinary one, a block stores fewer headers. */
  lemma LastIsMissed(r: Request, front: seq<Entry>, es: seq<Entry>)
    requires front <= es && front != es && !IsPseudo(es[|es| - 1].name) && |r.headers| + Ordinary(es) <= MAX_HEADERS
    ensures StoreFields(r, front) != StoreFields(r, es)
  {
    hide StoreFields, IsPseudo;
    var n, last := |es| - 1, [es[|es| - 1]];
    assert es == front + es[|front|..n] + last;
    OrdinaryConcat(front + es[|front|..n], last);
    OrdinaryConcat(front, es[|front|..n]);
    assert last[1..] == [] && Ordinary(last) == 1;
    OrdinaryStored(r, front);
    OrdinaryStored(r, es);
  }

  /**
   For a block from a peer with an equal table that ends with an ordinary field the stream has room for: splitting it
   is invisible if and only if the last fragment is empty, whoever answers.
   */
  lemma VisibleUnlessLastEmpty(c: Conn, id: nat, flags: byte, first: seq<byte>, middle: seq<seq<byte>>, last: seq<byte>,
                               room: nat, hs: seq<Entry>, handler: Handler)
    requires c.pending.None? && 0 < id < 0x8000_0000 && !HasFlag(flags, END_HEADERS) && flags + END_HEADERS < 256
    requires FitFrames(middle) && |first| + |Concat(middle)| + |last| < 0x100_0000
    requires Kept(c.dec) && AllFaithful(c.dec, room, hs)
    requires hs != [] ==> !IsPseudo(hs[|hs| - 1].name)
    requires |FindOrNew(c.streams, id).request.headers| + Ordinary(hs) <= MAX_HEADERS
    requires first + Concat(middle) + last == EncodedBlock(c.dec, room, hs).bytes
    ensures ProcessAll(c, Split(id, flags, first, middle, last), handler)
         == Process(c, Frame(HEADERS, flags + END_HEADERS, id, first + Concat(middle) + last), handler)
       <==> last == []
    ensures AllDefined(c, Split(id, flags, first, middle, last), handler)
  {
    hide Process, ProcessAll, Frame, AllFaithful, EncodedBlock, DecodedBlock, HasFlag, Defined, AllDefined, OverReads,
         StoreFields, FindOrNew, Ordinary;
    var front, whole := first + Concat(middle), first + Concat(middle) + last;
    VisibleIff(c, id, flags, first, middle, last, handler);
    TruncatedBlock(c.dec, room, hs, front, last);
    BlockRoundTrip(c.dec, room, hs);
    if last == [] {
      assert front == whole;
    } else {
      LastIsMissed(RequestBefore(c, id), DecodedBlock(c.dec, front).list, hs);
    }
  }
}
