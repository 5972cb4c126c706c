/** Frames that carry no request: what each of them, as section 6 of RFC 7540 writes it, does to the connection. */
module ControlFrames {
  import opened Basics
  import opened Bits
  import opened HpackBlock
  import opened Frames
  import opened H2State
  import opened StreamList
  import opened SettingsPairs
  import opened EndToEnd
  import opened Session

  // ---------------------------------------------------------------- PING, GOAWAY, RST_STREAM, WINDOW_UPDATE

  /** A PING comes back as an acknowledgement with the same eight bytes, and an acknowledgement is not answered. */
  lemma PingAnswered(c: Conn, data: seq<byte>, handler: Handler)
    requires |data| == 8
    ensures Process(c, Frame(PING, 0, 0, data), handler) == Outcome(c, [Frame(PING, 1, 0, data)], true)
    ensures Process(c, Frame(PING, 1, 0, data), handler) == Outcome(c, [], true)
  {
    hide ParsedHeader, PayloadOf, OnSettings, OnHeaders, OnContinuation, HeaderBytes;
    FrameIsWhole(PING, 0, 0, data);
    FrameIsWhole(PING, 1, 0, data);
    FrameRoundTrip(PING, 0, 0, data);
    assert data[..8] == data;
  }

  /** GOAWAY: no new streams, and the last one that was taken up is on record. */
  lemma GoawaySeen(c: Conn, last: nat, error: nat, debug: seq<byte>, handler: Handler)
    requires last < 0x1_0000_0000 && |debug| < 0x10000
    ensures Process(c, Frame(GOAWAY, 0, 0, BigEndian(last, 4) + BigEndian(error, 4) + debug), handler)
         == Outcome(c.(draining := true, goawayLast := last), [], true)
  {
    hide Frame, ParsedHeader, PayloadOf, WholeFrame, OnSettings, OnHeaders, OnContinuation, OnPing, FromBigEndian,
         BigEndian;
    var payload := BigEndian(last, 4) + BigEndian(error, 4) + debug;
    FrameIsWhole(GOAWAY, 0, 0, payload);
    assert payload[..4] == BigEndian(last, 4);
    PowersOf256();
    BigEndianRoundTrip(last, 4);
  }

  /** RST_STREAM closes a stream that exists and drops its body; it never creates one. */
  lemma ResetSeen(c: Conn, id: nat, error: nat, handler: Handler, other: nat)
    requires id < 0x8000_0000
    ensures var r := Process(c, Frame(RST_STREAM, 0, id, BigEndian(error, 4)), handler);
            && r.out == [] && (HasStream(r.conn.streams, other) <==> HasStream(c.streams, other))
            && (HasStream(c.streams, id) ==>
                  var s := FindOrNew(r.conn.streams, id); s.state == CLOSED && s.request.body == [])
            && (other != id ==> FindOrNew(r.conn.streams, other) == FindOrNew(c.streams, other))
  {
    hide Frame, ParsedHeader, PayloadOf, WholeFrame, OnSettings, OnHeaders, OnContinuation, OnPing, FindOrNew,
         WithStream, HasStream;
    FrameIsWhole(RST_STREAM, 0, id, BigEndian(error, 4));
    var s := FindOrNew(c.streams, id);
    var t := s.(state := CLOSED, request := s.request.(body := []));
    FoundAfterStoring(c.streams, t, other);
    FoundAfterStoring(c.streams, t, id);
  }

  /** WINDOW_UPDATE adds the increment to the window of its stream, or of the connection, in 32 bits. */
  lemma WindowUpdateSeen(c: Conn, id: nat, increment: nat, handler: Handler)
    requires id < 0x8000_0000 && increment < 0x8000_0000
    ensures var r := Process(c, WindowUpdate(id, increment), handler);
            && r.out == []
            && r.conn.window == (if id == 0 then Int32(c.window + increment) else c.window)
            && FindOrNew(r.conn.streams, id).window
               == (if id == 0 then FindOrNew(c.streams, 0).window
                   else Int32(FindOrNew(c.streams, id).window + increment))
  {
    hide Frame, ParsedHeader, PayloadOf, WholeFrame, OnSettings, OnHeaders, OnContinuation, OnPing, FindOrNew,
         WithStream, FromBigEndian, BigEndian, Int32;
    var payload := BigEndian(increment, 4);
    FrameIsWhole(WINDOW_UPDATE, 0, id, payload);
    assert increment % 0x8000_0000 == increment && payload[..4] == payload;
    PowersOf256();
    BigEndianRoundTrip(increment, 4);
    var s := FindOrNew(c.streams, id);
    FoundAfterStoring(c.streams, s.(window := Int32(s.window + increment)), id);
  }

  // ---------------------------------------------------------------- SETTINGS

  lemma LocalPairs() returns (pairs: seq<Pair>)
    ensures LocalSettings() == AllBytes(pairs) && Writable(pairs)
    ensures pairs == [Pair(1, 4096), Pair(2, 0), Pair(3, 100), Pair(4, 65535), Pair(5, MAX_FRAME), Pair(6, 16384)]
  {
    hide BigEndian;
    pairs := [Pair(1, 4096), Pair(2, 0), Pair(3, 100), Pair(4, 65535), Pair(5, MAX_FRAME), Pair(6, 16384)];
    assert AllBytes([]) == [];
    assert pairs[1..] == [Pair(2, 0), Pair(3, 100), Pair(4, 65535), Pair(5, MAX_FRAME), Pair(6, 16384)];
    AllSix(pairs);
  }

  lemma AllSix(pairs: seq<Pair>)
    requires |pairs| == 6
    ensures AllBytes(pairs) == PairBytes(pairs[0]) + PairBytes(pairs[1]) + PairBytes(pairs[2]) + PairBytes(pairs[3])
                               + PairBytes(pairs[4]) + PairBytes(pairs[5])
  {
    hide PairBytes;
    var a, b := pairs[..3], pairs[3..];
    ThreeBytesOf(a);
    ThreeBytesOf(b);
    BytesConcat(a, b);
    assert pairs == a + b;
  }

  lemma ThreeBytesOf(pairs: seq<Pair>)
    requires |pairs| == 3
    ensures AllBytes(pairs) == PairBytes(pairs[0]) + PairBytes(pairs[1]) + PairBytes(pairs[2])
  {
    hide PairBytes;
    var two := pairs[1..];
    var one := two[1..];
    assert one[1..] == [];
    assert AllBytes(one) == PairBytes(pairs[2]) + AllBytes(one[1..]);
    assert AllBytes(two) == PairBytes(pairs[1]) + AllBytes(one);
  }

  lemma {:induction false} BytesConcat(a: seq<Pair>, b: seq<Pair>)
    ensures AllBytes(a + b) == AllBytes(a) + AllBytes(b)
    decreases |a|
  {
    hide PairBytes;
    if a == [] {
      assert a + b == b;
    } else {
      BytesConcat(a[1..], b);
      assert (a + b)[1..] == a[1..] + b;
    }
  }

  lemma LastOfSix(pairs: seq<Pair>, id: nat, before: nat)
    requires |pairs| == 6 && forall i :: 0 <= i < 6 ==> pairs[i].id == i + 1
    ensures 1 <= id <= 6 ==> LastFor(pairs, id, before) == pairs[id - 1].value
  {
    if 1 <= id <= 6 {
      OnlyOne(pairs, id, before, id - 1);
    }
  }

  lemma {:induction false} OnlyOne(pairs: seq<Pair>, id: nat, before: nat, k: nat)
    requires k < |pairs| && pairs[k].id == id && forall i :: k < i < |pairs| ==> pairs[i].id != id
    ensures LastFor(pairs, id, before) == pairs[k].value
    decreases |pairs|
  {
    if k < |pairs| - 1 {
      OnlyOne(pairs[..|pairs| - 1], id, before, k);
    }
  }

  /**
   What a peer knows after the settings this side announces; it acknowledges them, and the acknowledgement is noted.
   */
  lemma SettingsExchanged(p: Conn, c: Conn)
    ensures var r := Process(p, SettingsFrame(), None);
            && r.conn.remote == Settings(4096, 0, 100, 65535, 16384, 16384) && r.conn.enc == Limited(p.enc, 4096)
            && r.out == [Frame(SETTINGS, 1, 0, [])]
            && Process(c, r.out[0], None) == Outcome(c.(settingsAcked := true), [], true)
  {
    hide Frame, ParsedHeader, PayloadOf, WholeFrame, OnHeaders, OnContinuation, OnPing, ApplySettings, LocalSettings,
         AllBytes, LastFor, Limited;
    var pairs := LocalPairs();
    SettingsMean(p.remote, pairs, []);
    assert AllBytes(pairs) + [] == LocalSettings();
    LocalLength();
    FrameIsWhole(SETTINGS, 0, 0, LocalSettings());
    FrameIsWhole(SETTINGS, 1, 0, []);
    LastOfSix(pairs, 1, p.remote.headerTableSize);
    LastOfSix(pairs, 2, p.remote.enablePush);
    LastOfSix(pairs, 3, p.remote.maxConcurrent);
    LastOfSix(pairs, 4, p.remote.initialWindow);
    LastOfSix(pairs, 5, p.remote.maxFrame);
    LastOfSix(pairs, 6, p.remote.maxHeaderList);
  }

  lemma LocalLength()
    ensures |LocalSettings()| == 36
  {}

  // ---------------------------------------------------------------- stream states over an exchange

  /**
   A request that completes its header block on a fresh stream is answered at once. The stream is closed then if the
   request ended there or the response has no body; else this side's half is. A body that ends later leaves the peer's
   half closed and opens this side's again.
   */
  lemma StateAfterExchange(c: Conn, id: nat, last: bool, block: seq<byte>, h: Request -> Response, data: seq<byte>)
    requires !HasStream(c.streams, id) && id < 0x8000_0000 && |block| <= MAX_FRAME && |data| <= MAX_FRAME
    ensures var flags: byte := if last then END_HEADERS + END_STREAM else END_HEADERS;
            var r := Process(c, Frame(HEADERS, flags, id, block), Some(h)).conn;
            var answer := h(StoreFields(EmptyRequest.(http2 := true), DecodedBlock(c.dec, block).list));
            && FindOrNew(r.streams, id).state == (if last || answer.body == [] then CLOSED else HALF_CLOSED_LOCAL)
            && FindOrNew(Process(r, Frame(DATA, END_STREAM, id, data), Some(h)).conn.streams, id).state
               == HALF_CLOSED_REMOTE
  {
    hide Frame, ParsedHeader, PayloadOf, WholeFrame, OnSettings, OnContinuation, OnPing, FindOrNew, WithStream,
         HasStream, DecodedBlock, StoreFields, OpenedBy, ResponseFrames, ResponseBlock, HasFlag;
    var flags: byte := if last then END_HEADERS + END_STREAM else END_HEADERS;
    HeadersProcessed(c, flags, id, block, Some(h));
    NewStreamFound(c.streams, id);
    OpenedNew(id, last);
    var s := OpenedBy(NewStream(id), flags);
    var s' := s.(request := StoreFields(s.request, DecodedBlock(c.dec, block).list));
    var answer := h(s'.request);
    FoundAfterStoring(c.streams, s'.(state := StateAfterResponse(s'.state, answer)), id);
    var r := Process(c, Frame(HEADERS, flags, id, block), Some(h)).conn;
    FrameIsWhole(DATA, END_STREAM, id, data);
    EndsStream();
    var found := FindOrNew(r.streams, id);
    FoundAfterStoring(r.streams, found.(request := found.request.(body := found.request.body + data),
                                        state := HALF_CLOSED_REMOTE), id);
  }

  lemma EndsStream()
    ensures HasFlag(END_STREAM, END_STREAM)
  {}
}
