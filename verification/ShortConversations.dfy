/** A condition a caller can count before sending: few enough header fields, short enough values, blocks that fit. */
module ShortConversations {
  import opened Basics
  import opened Bits
  import opened Varint
  import opened DynamicTable
  import opened StaticTable
  import opened Hpack
  import opened HpackRoundTrip
  import opened HpackBlock
  import opened Frames
  import opened H2State
  import opened EndToEnd
  import opened Session
  import opened Wire

  /** Fields that can be sent before an index might become unsafe. */
  const MAX_FIELDS: nat := 66

  /** A bound on the bytes of a field, whatever its representation. */
  function Cost(e: Entry): nat {
    |e.name| + |e.value| + 8
  }

  function TotalCost(hs: seq<Entry>): nat {
    if hs == [] then 0 else Cost(hs[0]) + TotalCost(hs[1..])
  }

  predicate Short(e: Entry) {
    Storable(e) && |e.value| <= 127
  }

  predicate AllShort(hs: seq<Entry>) {
    forall i :: 0 <= i < |hs| ==> Short(hs[i])
  }

  // ---------------------------------------------------------------- lengths

  lemma LiteralBound(s: seq<byte>)
    requires |s| < 16384
    ensures |StringLiteral(s)| <= |s| + 3
  {
    hide Encoded, Huffman;
    IntegerLength(7, |s|, 0x00);
    if UsesHuffman(s) {
      IntegerLength(7, |Huffman(s)|, 0x80);
    }
  }

  lemma Masks()
    ensures Mask(4) == 15 && Mask(6) == 63 && Mask(7) == 127
  {
    assert Pow2(4) == 16 && Pow2(6) == 64 && Pow2(7) == 128;
  }

  lemma IndexBound(t: Table, room: nat, e: Entry)
    requires |t.entries| <= MAX_FIELDS && Storable(e)
    ensures match Represent(t, e)
            case Indexed(i) => |Encoded(7, i, 0x80)| <= 2
            case Literal(incremental, i) => |NameBytes(incremental, i, room, e.name)| <= |e.name| + 4
  {
    hide Encoded, StringLiteral, StaticAt;
    Masks();
    match Represent(t, e)
    case Indexed(i) => IntegerLength(7, i, 0x80);
    case Literal(incremental, i) =>
      if i > 0 {
        IntegerLength(PrefixBits(incremental), i, Flag(incremental));
      } else {
        LiteralBound(e.name);
      }
  }

  /** With room for its cost, a field is encoded. */
  lemma CostSuffices(t: Table, room: nat, e: Entry)
    requires |t.entries| <= MAX_FIELDS && Storable(e) && Cost(e) <= room
    ensures 0 < |EncodedHeader(t, room, e)| <= Cost(e)
  {
    hide Represent, NameBytes, StringLiteral, Encoded;
    IndexBound(t, room, e);
    LiteralBound(e.value);
  }

  lemma OneMoreEntry(t: Table, room: nat, e: Entry)
    ensures |TableAfter(t, room, e).entries| <= |t.entries| + 1
  {
    hide EncodedHeader, Represent;
    EvictedIsWindow([e] + t.entries, t.max);
  }

  /** A block of short fields whose cost fits, and which keeps the table small, survives. */
  lemma {:induction false} ShortBlock(t: Table, room: nat, hs: seq<Entry>)
    requires AllShort(hs) && TotalCost(hs) <= room && |t.entries| + |hs| <= MAX_FIELDS + 1
    ensures AllFaithful(t, room, hs)
    ensures |EncodedBlock(t, room, hs).table.entries| <= |t.entries| + |hs|
    decreases |hs|
  {
    hide EncodedHeader, TableAfter, Faithful, Storable;
    if hs != [] {
      var first := EncodedHeader(t, room, hs[0]);
      assert Short(hs[0]);
      CostSuffices(t, room, hs[0]);
      SmallIsFaithful(t, room, hs[0]);
      OneMoreEntry(t, room, hs[0]);
      ShortBlock(TableAfter(t, room, hs[0]), room - |first|, hs[1..]);
    }
  }

  // ---------------------------------------------------------------- conversations

  function FieldCount(items: seq<Item>): nat {
    if items == [] then 0 else 1 + |items[0].response.headers| + FieldCount(items[1..])
  }

  /** Header values of at most 127 bytes, and a block that fits one frame by its cost. */
  predicate ShortResponse(r: Response) {
    && (forall i :: 0 <= i < |r.headers| ==> |r.headers[i].value| <= 127)
    && TotalCost(FieldsOf(r)) <= MAX_FRAME
  }

  lemma {:induction false} DigitsAreText(n: nat)
    ensures 0 !in Digits(n)
  {
    if n >= 10 {
      DigitsAreText(n / 10);
    }
  }

  lemma StatusIsShort(status: int)
    ensures Short(Entry(Ascii(":status"), StatusText(status)))
  {
    DigitsAreText(if status < 0 then -status else status);
  }

  lemma FieldsAreShort(r: Response)
    requires ShortResponse(r)
    ensures AllShort(FieldsOf(r))
  {
    hide StatusText, TotalCost;
    StatusIsShort(r.status);
    forall i | 0 <= i < |r.headers|
      ensures Short(LowerNames(r.headers)[i])
    {
      assert r.headers[i] in r.headers;
    }
  }

  lemma {:induction false} ShortIsSendable(enc: Table, items: seq<Item>)
    requires forall i :: 0 <= i < |items| ==> ShortResponse(items[i].response)
    requires |enc.entries| + FieldCount(items) <= MAX_FIELDS + 1
    ensures Sendable(enc, items)
    decreases |items|
  {
    hide AllFaithful, ShortResponse, AllShort;
    if items != [] {
      var r := items[0].response;
      FieldsAreShort(r);
      FieldsFit(r);
      ShortBlock(enc, MAX_FRAME, FieldsOf(r));
      ShortIsSendable(ResponseBlock(enc, r).table, items[1..]);
    }
  }

  lemma FieldsFit(r: Response)
    requires ShortResponse(r)
    ensures TotalCost(FieldsOf(r)) <= MAX_FRAME && |FieldsOf(r)| == 1 + |r.headers|
  {}

  /** Every conversation of at most 67 short fields from a fresh connection is delivered whole, over any splitting. */
  lemma ShortConversationsAreDelivered(remote: Settings, items: seq<Item>)
    requires Fresh([], items) && FieldCount(items) <= MAX_FIELDS + 1
    requires forall i :: 0 <= i < |items| ==> ShortResponse(items[i].response)
    ensures var sent := SendAll(InitialConn.enc, remote, items);
            var result := ProcessAll(InitialConn, SessionFrames(PREFACE + Flatten(sent.frames)), None);
            result.ok && result.conn == InitialConn.(dec := sent.enc, streams := RebuiltAll(items))
    ensures var sent := SendAll(InitialConn.enc, remote, items);
            AllDefined(InitialConn, SessionFrames(PREFACE + Flatten(sent.frames)), None)
  {
    hide AllDefined, PossibleRun, SendAll, ProcessAll, SessionFrames, RebuiltAll, Sendable, ShortResponse, Fresh;
    ShortIsSendable(InitialConn.enc, items);
    DeliveredOverAnyChunks(remote, items);
  }
}
