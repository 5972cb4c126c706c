/** The connection as an object updated in place, proved to do what the state functions say. */
module Connection {
  import opened Basics
  import opened Bits
  import opened Varint
  import opened PrefixCode
  import opened HuffmanTree
  import opened DynamicTable
  import opened Hpack
  import opened HpackBlock
  import opened HpackCodec
  import opened Frames
  import opened H2State
  import opened StreamList
  import opened Sending

  // ---------------------------------------------------------------- streams by position

  /** The list with the stream present, as find-or-create leaves it. */
  function Ensured(streams: seq<Stream>, id: nat): seq<Stream> {
    if HasStream(streams, id) then streams else [NewStream(id)] + streams
  }

  ghost predicate FirstAt(streams: seq<Stream>, id: nat, i: nat) {
    i < |streams| && streams[i].id == id && forall j :: 0 <= j < i ==> streams[j].id != id
  }

  lemma {:induction false} FirstIsFound(streams: seq<Stream>, id: nat, i: nat, s: Stream)
    requires FirstAt(streams, id, i) && s.id == id
    ensures FindOrNew(streams, id) == streams[i]
    ensures Replaced(streams, s) == streams[i := s]
  {
    if i > 0 {
      FirstIsFound(streams[1..], id, i - 1, s);
      assert streams == [streams[0]] + streams[1..];
    }
  }

  /** Updating the found position is storing the stream. */
  lemma UpdateIsStore(streams: seq<Stream>, id: nat, i: nat, s: Stream)
    requires FirstAt(Ensured(streams, id), id, i) && s.id == id
    ensures FindOrNew(streams, id) == Ensured(streams, id)[i]
    ensures WithStream(streams, s) == Ensured(streams, id)[i := s]
  {
    if HasStream(streams, id) {
      FirstIsFound(streams, id, i, s);
    } else {
      assert i == 0 by {
        assert Ensured(streams, id)[0].id == id;
      }
      FirstIsFound([NewStream(id)] + streams, id, 0, s);
      NewStreamFound(streams, id);
    }
  }

  // ---------------------------------------------------------------- header blocks

  /** Bytes behind a header block: whatever the process holds there. */
  method Behind() returns (behind: seq<byte>)
    ensures Enough(behind)
  {
    behind :| |behind| >= WORD by {
      assert |seq(WORD, _ => 0 as byte)| == WORD;
    }
  }

  /** The decoding loop: fields go into the request until the block ends or one cannot be read. */
  method ApplyHeaderBlock(tree: DecodingTree, dec: HpackContext, r0: Request, block: seq<byte>)
    returns (r: Request, ghost fields: Fields)
    requires Ready(tree) && dec.Valid()
    modifies tree, tree.nodes, dec, dec.table
    ensures Ready(tree) && dec.Valid() && (dec.table == old(dec.table) || fresh(dec.table))
    ensures BlockReads(old(dec.Contents()), block, fields)
    ensures r == StoreFields(r0, fields.list) && dec.Contents() == fields.table
  {
    hide GoesOn, StoreField, StoreFields, Tree, BlockReads;
    ghost var t0, list: seq<Entry> := dec.Contents(), [];
    r := r0;
    var offset := 0;
    assert block[0..] == block;
    NothingStored(r0);
    BlockFrom(t0, block, list);
    while offset < |block|
      invariant offset <= |block| && Ready(tree) && dec.Valid()
      invariant dec.table == old(dec.table) || fresh(dec.table)
      invariant r == StoreFields(r0, list)
      invariant GoesOn(t0, block, dec.Contents(), block[offset..], list)
      decreases |block| - offset
    {
      var ok, e, consumed := NextField(tree, dec, block, offset, t0, list);
      if !ok {
        fields := Fields(list, dec.Contents());
        return;
      }
      StoredOne(r0, list, e);
      r := StoreField(r, e);
      list := list + [e];
      offset := offset + consumed;
    }
    assert block[offset..] == [];
    BlockEnds(t0, block, dec.Contents(), list);
    fields := Fields(list, dec.Contents());
  }

  /** One field from the rest of the block. */
  method NextField(tree: DecodingTree, dec: HpackContext, block: seq<byte>, offset: nat, ghost t0: Table,
                   ghost list: seq<Entry>)
    returns (ok: bool, e: Entry, consumed: nat)
    requires Ready(tree) && dec.Valid() && offset < |block|
    requires GoesOn(t0, block, dec.Contents(), block[offset..], list)
    modifies tree, tree.nodes, dec, dec.table
    ensures Ready(tree) && dec.Valid() && (dec.table == old(dec.table) || fresh(dec.table))
    ensures if ok then
              && 0 < consumed <= |block| - offset
              && GoesOn(t0, block, dec.Contents(), block[offset + consumed..], list + [e])
            else BlockReads(t0, block, Fields(list, dec.Contents()))
  {
    hide DecodedHeader, GoesOn, Tree, BlockReads, Enough;
    ghost var t, rest := dec.Contents(), block[offset..];
    var behind := Behind();
    ok, e, consumed := DecodeHeader(tree, dec, block[offset..], behind);
    BlockStep(t0, block, t, rest, list, behind);
    assert ok ==> rest[consumed..] == block[offset + consumed..];
  }

  /** Decoding data from t may go on at rest with table u, after the fields of list. */
  ghost predicate GoesOn(t: Table, data: seq<byte>, u: Table, rest: seq<byte>, list: seq<Entry>) {
    forall more :: BlockReads(u, rest, more) ==> BlockReads(t, data, Fields(list + more.list, more.table))
  }

  lemma BlockFrom(t: Table, data: seq<byte>, none: seq<Entry>)
    requires none == []
    ensures GoesOn(t, data, t, data, none)
  {
    hide BlockReads;
    forall more | BlockReads(t, data, more)
      ensures BlockReads(t, data, Fields(none + more.list, more.table))
    {
      assert none + more.list == more.list;
    }
  }

  lemma BlockEnds(t: Table, data: seq<byte>, u: Table, list: seq<Entry>)
    requires GoesOn(t, data, u, [], list)
    ensures BlockReads(t, data, Fields(list, u))
  {
    assert BlockReads(u, [], Fields([], u));
    assert list + [] == list;
  }

  /** The next field, or the end of what can be read. */
  lemma BlockStep(t: Table, data: seq<byte>, u: Table, rest: seq<byte>, list: seq<Entry>, behind: seq<byte>)
    requires rest != [] && Enough(behind) && GoesOn(t, data, u, rest, list)
    ensures var d := DecodedHeader(u, rest, Some(behind));
            if d.AHeader? then GoesOn(t, data, d.table, rest[d.consumed..], list + [d.entry])
            else BlockReads(t, data, Fields(list, u))
  {
    hide DecodedHeader, BlockReads, Enough;
    var d := DecodedHeader(u, rest, Some(behind));
    if d.AHeader? {
      forall more | BlockReads(d.table, rest[d.consumed..], more)
        ensures BlockReads(t, data, Fields(list + [d.entry] + more.list, more.table))
      {
        NextRead(u, rest, behind, more);
        Reassociate(list, [d.entry], more.list);
      }
    } else {
      NothingRead(u, rest, behind);
      assert list + [] == list;
    }
  }

  lemma NextRead(t: Table, data: seq<byte>, behind: seq<byte>, more: Fields)
    requires data != [] && Enough(behind) && DecodedHeader(t, data, Some(behind)).AHeader?
    requires var d := DecodedHeader(t, data, Some(behind)); BlockReads(d.table, data[d.consumed..], more)
    ensures BlockReads(t, data, Fields([DecodedHeader(t, data, Some(behind)).entry] + more.list, more.table))
  {
    hide DecodedHeader, Enough;
    var fields := Fields([DecodedHeader(t, data, Some(behind)).entry] + more.list, more.table);
    assert Fields(fields.list[1..], fields.table) == more;
    assert ReadsNext(t, data, fields, behind);
  }

  lemma NothingRead(t: Table, data: seq<byte>, behind: seq<byte>)
    requires data != [] && Enough(behind) && !DecodedHeader(t, data, Some(behind)).AHeader?
    ensures BlockReads(t, data, Fields([], t))
  {
    hide DecodedHeader, Enough;
    assert ReadsNext(t, data, Fields([], t), behind);
  }

  lemma NothingStored(r: Request)
    ensures StoreFields(r, []) == r
  {}

  lemma {:induction false} StoredOne(r: Request, es: seq<Entry>, e: Entry)
    ensures StoreFields(r, es + [e]) == StoreField(StoreFields(r, es), e)
    decreases |es|
  {
    hide StoreField;
    var all := es + [e];
    if es == [] {
      assert all[1..] == [];
    } else {
      StoredOne(StoreField(r, es[0]), es[1..], e);
      assert all[1..] == es[1..] + [e];
    }
  }

  // ---------------------------------------------------------------- the connection

  class H2Connection {
    const tree: DecodingTree
    const dec: HpackContext
    const enc: HpackContext
    var remote: Settings
    var streams: seq<Stream>
    var pending: Option<Pending>
    var window: int
    var settingsAcked: bool
    var draining: bool
    var goawayLast: nat
    /** Every frame handed to ProcessFrame so far. */
    ghost var handled: seq<seq<byte>>

    ghost function Repr(): set<object>
      reads dec, enc
    {
      {this, tree, tree.nodes, dec, dec.table, enc, enc.table}
    }

    ghost predicate Valid()
      reads this, tree, tree.nodes, dec, dec.table, enc, enc.table
    {
      && dec != enc && dec.table != enc.table
      && dec.Valid() && enc.Valid() && Ready(tree)
    }

    ghost function View(): Conn
      reads this, dec, dec.table, enc, enc.table
      requires dec.Valid() && enc.Valid()
    {
      Conn(dec.Contents(), enc.Contents(), remote, streams, pending, window, settingsAcked, draining, goawayLast)
    }

    constructor ()
      ensures Valid() && fresh(Repr()) && View() == InitialConn && handled == []
    {
      tree := new DecodingTree();
      dec := new HpackContext();
      enc := new HpackContext();
      remote := Settings(4096, 1, 0xFFFF_FFFF, 65535, MAX_FRAME, 0);
      streams, pending, window := [], None, DEFAULT_WINDOW;
      settingsAcked, draining, goawayLast := false, false, 0;
      handled := [];
    }

    method FindOrCreateStream(id: nat) returns (i: nat)
      modifies `streams
      ensures streams == Ensured(old(streams), id) && FirstAt(streams, id, i)
    {
      i := 0;
      while i < |streams|
        invariant i <= |streams| && forall j :: 0 <= j < i ==> streams[j].id != id
      {
        if streams[i].id == id {
          return;
        }
        i := i + 1;
      }
      streams := [NewStream(id)] + streams;
      i := 0;
    }

    /** The answer to a complete request, when there is a handler. */
    method Answer(io: Io, i: nat, handler: Handler)
      requires Valid() && io !in Repr() && i < |streams| && FirstAt(streams, streams[i].id, i)
      modifies Repr(), io
      ensures Valid() && fresh(Repr() - old(Repr())) && handled == old(handled)
      ensures var r := Answered(old(View()), old(streams[i]), handler);
              && Alike(View(), r.conn)
              && (io.healthy ==> View() == r.conn && io.sent == old(io.sent) + r.out)
    {
      hide ResponseFrames, ResponseBlock, StateAfterResponse, Answered, Ready, Size, FirstAt, AlikeStreams;
      ghost var c, s := View(), streams[i];
      AnsweredAt(c, i, handler);
      SelfAlike(c.streams);
      assert io.sent + [] == io.sent;
      if handler.Some? {
        var h := handler.value;
        var r := h(streams[i].request);
        var ok, state := SendHeaders(io, enc, remote, streams[i], r);
        streams := streams[i := streams[i].(state := state)];
        UpdatedAlike(c.streams, i, s.(state := state), s.(state := StateAfterResponse(s.state, r)));
        if io.healthy {
          AllSent(old(io.sent), io.sent, ResponseFrames(c.enc, c.remote, s.id, r));
        }
      }
    }

    /** Decodes a whole header block into stream i, then answers. */
    method Complete(io: Io, i: nat, block: seq<byte>, handler: Handler, ghost c: Conn) returns (ghost r: Outcome)
      requires Valid() && io !in Repr() && i < |streams| && FirstAt(streams, streams[i].id, i)
      requires WithStream(c.streams, streams[i]) == streams && View() == c.(streams := streams)
      modifies Repr(), io
      ensures Valid() && fresh(Repr() - old(Repr())) && handled == old(handled)
      ensures AppliesSome(c, old(streams[i]), block, handler, r)
      ensures Alike(View(), r.conn) && (io.healthy ==> View() == r.conn && io.sent == old(io.sent) + r.out)
    {
      hide BlockReads, StoreFields, ResponseFrames, ResponseBlock, FindOrNew, StateAfterResponse, Ready, Size,
           WithStream, Answered, HasStream, AlikeStreams;
      ghost var s := streams[i];
      var request;
      ghost var fields;
      request, fields := ApplyHeaderBlock(tree, dec, streams[i].request, block);
      ghost var s' := s.(request := request);
      FirstIsFound(streams, s.id, i, s');
      streams := streams[i := streams[i].(request := request)];
      ghost var c' := c.(dec := dec.Contents());
      StoredInPlace(c.streams, s, s', old(streams), i);
      assert View() == c'.(streams := WithStream(c.streams, s'));
      AnsweredLater(c', s', handler);
      Answer(io, i, handler);
      r := ApplyFields(c, s, fields, handler);
    }

    method OnHeadersFrame(io: Io, h: FrameHeader, payload: seq<byte>, handler: Handler) returns (ghost r: Outcome)
      requires Valid() && io !in Repr()
      modifies Repr(), io
      ensures Valid() && fresh(Repr() - old(Repr())) && handled == old(handled)
      ensures if HasFlag(h.flags, END_HEADERS) then
                AppliesSome(old(View()), OpenedBy(FindOrNew(old(streams), h.stream), h.flags), payload, handler, r)
              else r == OnHeaders(old(View()), h, payload, handler)
      ensures Alike(View(), r.conn) && (io.healthy ==> View() == r.conn && io.sent == old(io.sent) + r.out)
    {
      hide ApplyBlock, FindOrNew, WithStream, Ready, Size, HasFlag, Ensured, AppliesSome, AlikeStreams;
      ghost var c := View();
      var i := FindOrCreateStream(h.stream);
      ghost var s := OpenedBy(streams[i], h.flags);
      UpdateIsStore(c.streams, h.stream, i, s);
      var state := if streams[i].state == IDLE then OPEN else streams[i].state;
      if HasFlag(h.flags, END_STREAM) {
        state := HALF_CLOSED_REMOTE;
      }
      streams := streams[i := streams[i].(state := state, request := streams[i].request.(http2 := true))];
      assert streams[i] == s;
      if !HasFlag(h.flags, END_HEADERS) {
        var collected := if pending.Some? then pending.value.block else [];
        pending := Some(Pending(collected + payload, h.stream));
        assert io.sent + [] == io.sent;
        r := OnHeaders(c, h, payload, handler);
        SelfAlike(streams);
        return;
      }
      r := Complete(io, i, payload, handler, c);
    }

    method OnContinuationFrame(io: Io, h: FrameHeader, payload: seq<byte>, handler: Handler) returns (ghost r: Outcome)
      requires Valid() && io !in Repr()
      modifies Repr(), io
      ensures Valid() && fresh(Repr() - old(Repr())) && handled == old(handled)
      ensures var c := old(View());
              if HasFlag(h.flags, END_HEADERS) && Continues(c, h) then
                AppliesSome(c.(pending := None), Continued(c, h), c.pending.value.block, handler, r)
              else r == OnContinuation(c, h, payload, handler)
      ensures Alike(View(), r.conn) && (io.healthy ==> View() == r.conn && io.sent == old(io.sent) + r.out)
    {
      hide ApplyBlock, FindOrNew, WithStream, Ready, Size, HasFlag, Ensured, AppliesSome, AlikeStreams;
      assert io.sent + [] == io.sent;
      ghost var c := View();
      r := OnContinuation(c, h, payload, handler);
      SelfAlike(streams);
      if h.stream == 0 || pending.None? || pending.value.stream != h.stream {
        return;
      }
      if !HasFlag(h.flags, END_HEADERS) {
        pending := Some(Pending(pending.value.block + payload, h.stream));
        return;
      }
      var block := pending.value.block;
      var i := FindOrCreateStream(h.stream);
      ghost var s := streams[i].(request := streams[i].request.(http2 := true));
      UpdateIsStore(c.streams, h.stream, i, s);
      streams := streams[i := streams[i].(request := streams[i].request.(http2 := true))];
      pending := None;
      assert streams[i] == s;
      r := Complete(io, i, block, handler, c.(pending := None));
    }

    method OnDataFrame(io: Io, h: FrameHeader, payload: seq<byte>)
      requires Valid() && io !in Repr()
      modifies `streams, io
      ensures Valid()
      ensures var r := OnData(old(View()), h, payload);
              View() == r.conn && (io.healthy ==> io.sent == old(io.sent) + r.out)
    {
      hide FindOrNew, WithStream, Ready, Size, WindowUpdate, Ensured;
      var i := FindOrCreateStream(h.stream);
      var s := streams[i];
      if |payload| > 0 {
        s := s.(request := s.request.(body := s.request.body + payload));
      }
      assert s.request.body == streams[i].request.body + payload;
      SendWindowUpdate(io, h.stream, |payload|);
      ghost var mid := io.sent;
      SendWindowUpdate(io, 0, |payload|);
      if HasFlag(h.flags, END_STREAM) {
        s := s.(state := HALF_CLOSED_REMOTE);
      }
      UpdateIsStore(old(streams), h.stream, i, s);
      streams := streams[i := s];
      if io.healthy {
        AllSent(old(io.sent), mid, [WindowUpdate(h.stream, |payload|)]);
        AllSent(mid, io.sent, [WindowUpdate(0, |payload|)]);
      }
    }

    method OnWindowUpdateFrame(h: FrameHeader, payload: seq<byte>)
      requires Valid()
      modifies `streams, `window
      ensures Valid() && OnWindowUpdate(old(View()), h, payload) == Outcome(View(), [], true)
    {
      hide FindOrNew, WithStream, Ready, Size, FromBigEndian, Word, Int32, Ensured;
      if |payload| >= 4 {
        assert payload[..4] == [payload[0], payload[1], payload[2], payload[3]];
        FromFour(payload[0], payload[1], payload[2], payload[3]);
        var increment := Word(payload[0], payload[1], payload[2], payload[3]);
        if h.stream == 0 {
          window := Int32(window + increment);
        } else {
          var i := FindOrCreateStream(h.stream);
          var s := streams[i].(window := Int32(streams[i].window + increment));
          UpdateIsStore(old(streams), h.stream, i, s);
          streams := streams[i := s];
        }
      }
    }

    method OnSettingsFrame(io: Io, h: FrameHeader, payload: seq<byte>)
      requires Valid() && io !in Repr()
      modifies this, enc, io
      ensures Valid() && enc.table == old(enc.table) && handled == old(handled)
      ensures var r := OnSettings(old(View()), h, payload);
              View() == r.conn && (io.healthy ==> io.sent == old(io.sent) + r.out)
    {
      hide Ready, Size, FromBigEndian, Frame, Evicted, Setting;
      if HasFlag(h.flags, 1) {
        settingsAcked := true;
        assert io.sent + [] == io.sent;
        return;
      }
      var i := 0;
      assert payload[0..] == payload;
      while i + 6 <= |payload|
        modifies `remote
        invariant i <= |payload|
        invariant ApplySettings(remote, payload[i..]) == ApplySettings(old(remote), payload)
      {
        var id, value := ReadSetting(payload, i);
        assert payload[i..][6..] == payload[i + 6..];
        remote := Setting(remote, id, value);
        i := i + 6;
      }
      enc.SetMaxSize(AsLimit(remote.headerTableSize));
      var frame := new byte[HEADER_SIZE];
      WriteHeader(frame, 0, FrameHeader(0, SETTINGS, 1, 0));
      assert frame[..] == frame[0..HEADER_SIZE];
      var ok := io.WriteFrame(frame[..]);
      AckBytes();
    }

    /** The reply has eight bytes for the echo; they keep whatever they held when too few came in. */
    method OnPingFrame(io: Io, h: FrameHeader, behind: seq<byte>, ghost c: Conn) returns (ghost r: Outcome)
      requires h.kind == PING
      modifies io
      ensures if ShortPing(h, behind) then EchoesSome(c, h, r) else r == OnPing(c, h, behind)
      ensures r.conn == c && (io.healthy ==> io.sent == old(io.sent) + r.out)
    {
      hide HeaderBytes;
      assert io.sent + [] == io.sent;
      r := OnPing(c, h, behind);
      if !HasFlag(h.flags, 1) {
        var frame := new byte[HEADER_SIZE + 8];
        WriteHeader(frame, 0, h.(flags := 1));
        assert frame[0..HEADER_SIZE] == frame[..HEADER_SIZE];
        if |behind| >= 8 {
          Copy(frame, HEADER_SIZE, behind[..8]);
          assert frame[HEADER_SIZE..HEADER_SIZE + 8] == frame[HEADER_SIZE..];
        }
        ghost var echo := frame[HEADER_SIZE..];
        Rejoined(frame[..], 0, HEADER_SIZE, HEADER_SIZE + 8);
        assert frame[..][0..HEADER_SIZE] == frame[..HEADER_SIZE] && frame[..][HEADER_SIZE..HEADER_SIZE + 8] == echo;
        assert frame[..][0..HEADER_SIZE + 8] == frame[..];
        r := Echoed(c, h, echo);
        assert |echo| == 8 && EchoesSome(c, h, r);
        var ok := io.WriteFrame(frame[..]);
      }
    }

    method OnResetFrame(h: FrameHeader)
      requires Valid()
      modifies `streams
      ensures Valid() && OnReset(old(View()), h) == Outcome(View(), [], true)
    {
      hide FindOrNew, WithStream, Ready, Size;
      var i := 0;
      while i < |streams| && streams[i].id != h.stream
        invariant i <= |streams| && forall j :: 0 <= j < i ==> streams[j].id != h.stream
      {
        i := i + 1;
      }
      if i < |streams| {
        assert HasStream(streams, h.stream);
        var s := streams[i].(state := CLOSED, request := streams[i].request.(body := []));
        UpdateIsStore(streams, h.stream, i, s);
        streams := streams[i := s];
      }
    }

    /** One frame from data: refused when incomplete, otherwise a possible outcome of it. */
    method ProcessFrame(io: Io, data: seq<byte>, handler: Handler) returns (ok: bool, ghost r: Outcome)
      requires Valid() && io !in Repr()
      modifies Repr(), io
      ensures Valid() && fresh(Repr() - old(Repr())) && io !in Repr() && handled == old(handled) + [data]
      ensures ok == WholeFrame(data) && Possible(old(View()), data, handler, r)
      ensures Alike(View(), r.conn) && (io.healthy ==> View() == r.conn && io.sent == old(io.sent) + r.out)
    {
      hide OnHeaders, OnContinuation, OnData, OnWindowUpdate, OnSettings, OnPing, OnReset, OnGoaway, Ready, Size;
      hide ParsedHeader, Process, Possible, Defined, AppliesSome, EchoesSome, Continues, AlikeStreams;
      assert io.sent + [] == io.sent;
      ghost var c := View();
      r := Process(c, data, handler);
      PlainOutcome(c, data, handler);
      SelfAlike(r.conn.streams);
      SelfAlike(c.streams);
      handled := handled + [data];
      if |data| < HEADER_SIZE {
        return false, r;
      }
      var h := ReadHeader(data);
      if h.length > |data| - HEADER_SIZE {
        return false, r;
      }
      var payload := data[HEADER_SIZE..HEADER_SIZE + h.length];
      ok := true;
      if h.kind == SETTINGS {
        OnSettingsFrame(io, h, payload);
      } else if h.kind == HEADERS {
        r := OnHeadersFrame(io, h, payload, handler);
        HeadersOutcome(c, data, handler, r);
      } else if h.kind == CONTINUATION {
        r := OnContinuationFrame(io, h, payload, handler);
        ContinuationOutcome(c, data, handler, r);
      } else if h.kind == DATA {
        OnDataFrame(io, h, payload);
      } else if h.kind == WINDOW_UPDATE {
        OnWindowUpdateFrame(h, payload);
      } else if h.kind == PING {
        r := OnPingFrame(io, h, data[HEADER_SIZE..], c);
        PingOutcome(c, data, handler, r);
      } else if h.kind == RST_STREAM {
        OnResetFrame(h);
      } else if h.kind == GOAWAY {
        OnGoawayFrame(payload);
      }
    }

    method OnGoawayFrame(payload: seq<byte>)
      requires Valid()
      modifies `draining, `goawayLast
      ensures Valid() && OnGoaway(old(View()), payload) == Outcome(View(), [], true)
    {
      hide Ready, Size, FromBigEndian, Word;
      draining := true;
      if |payload| >= 8 {
        assert payload[..4] == [payload[0], payload[1], payload[2], payload[3]];
        FromFour(payload[0], payload[1], payload[2], payload[3]);
        goawayLast := Word(payload[0], payload[1], payload[2], payload[3]);
      }
    }
  }

  // ---------------------------------------------------------------- the dispatch, frame by frame

  /** Frames other than header blocks and PING have one outcome. */
  lemma PlainOutcome(c: Conn, data: seq<byte>, handler: Handler)
    ensures var r := Process(c, data, handler);
            if !WholeFrame(data) then r == Outcome(c, [], false) && Possible(c, data, handler, r)
            else
              var h, payload := ParsedHeader(data), PayloadOf(data);
              && (h.kind != HEADERS && h.kind != CONTINUATION && h.kind != PING ==> Possible(c, data, handler, r))
              && (h.kind == SETTINGS ==> r == OnSettings(c, h, payload))
              && (h.kind == DATA ==> r == OnData(c, h, payload))
              && (h.kind == WINDOW_UPDATE ==> r == OnWindowUpdate(c, h, payload))
              && (h.kind == RST_STREAM ==> r == OnReset(c, h))
              && (h.kind == GOAWAY ==> r == OnGoaway(c, payload))
              && (h.kind !in {SETTINGS, HEADERS, CONTINUATION, DATA, WINDOW_UPDATE, PING, RST_STREAM, GOAWAY} ==>
                    r == Outcome(c, [], true))
  {
    hide OnHeaders, OnContinuation, OnData, OnWindowUpdate, OnSettings, OnPing, OnReset, OnGoaway, ParsedHeader;
  }

  lemma HeadersOutcome(c: Conn, data: seq<byte>, handler: Handler, r: Outcome)
    requires WholeFrame(data) && ParsedHeader(data).kind == HEADERS
    requires var h, payload := ParsedHeader(data), PayloadOf(data);
             if HasFlag(h.flags, END_HEADERS) then
               AppliesSome(c, OpenedBy(FindOrNew(c.streams, h.stream), h.flags), payload, handler, r)
             else r == OnHeaders(c, h, payload, handler)
    ensures Possible(c, data, handler, r)
  {
    hide OnHeaders, ParsedHeader, HasFlag, AppliesSome, OpenedBy, FindOrNew;
  }

  lemma ContinuationOutcome(c: Conn, data: seq<byte>, handler: Handler, r: Outcome)
    requires WholeFrame(data) && ParsedHeader(data).kind == CONTINUATION
    requires var h, payload := ParsedHeader(data), PayloadOf(data);
             if HasFlag(h.flags, END_HEADERS) && Continues(c, h) then
               AppliesSome(c.(pending := None), Continued(c, h), c.pending.value.block, handler, r)
             else r == OnContinuation(c, h, payload, handler)
    ensures Possible(c, data, handler, r)
  {
    hide OnContinuation, ParsedHeader, HasFlag, AppliesSome, Continued;
  }

  lemma PingOutcome(c: Conn, data: seq<byte>, handler: Handler, r: Outcome)
    requires WholeFrame(data) && ParsedHeader(data).kind == PING
    requires var h, behind := ParsedHeader(data), data[HEADER_SIZE..];
             if ShortPing(h, behind) then EchoesSome(c, h, r) else r == OnPing(c, h, behind)
    ensures Possible(c, data, handler, r)
  {
    hide OnPing, ParsedHeader, HasFlag, EchoesSome;
  }

  // ---------------------------------------------------------------- small facts

  lemma SelfAlike(streams: seq<Stream>)
    ensures AlikeStreams(streams, streams)
  {}

  lemma UpdatedAlike(streams: seq<Stream>, i: nat, s: Stream, t: Stream)
    requires i < |streams| && SameButState(s, t)
    ensures AlikeStreams(streams[i := s], streams[i := t])
  {}

  lemma AllSent(before: seq<seq<byte>>, after: seq<seq<byte>>, frames: seq<seq<byte>>)
    requires SentSome(before, after, frames, true)
    ensures after == before + frames
  {
    assert frames[..|frames|] == frames;
  }

  lemma StoredInPlace(list: seq<Stream>, s: Stream, s': Stream, streams: seq<Stream>, i: nat)
    requires s.id == s'.id && streams == WithStream(list, s) && FirstAt(streams, s.id, i)
    ensures streams[i := s'] == WithStream(list, s')
  {
    hide WithStream;
    StoredTwice(list, s, s');
    FoundAfterStoring(list, s, s.id);
    FirstIsFound(streams, s.id, i, s');
    assert WithStream(streams, s') == Replaced(streams, s') by {
      assert HasStream(streams, s'.id);
      WithPresent(streams, s');
    }
  }

  lemma WithPresent(streams: seq<Stream>, s: Stream)
    requires HasStream(streams, s.id)
    ensures WithStream(streams, s) == Replaced(streams, s)
  {}

  /** Answering does not care whether the stream is already stored. */
  lemma AnsweredLater(c: Conn, s: Stream, handler: Handler)
    ensures Answered(c.(streams := WithStream(c.streams, s)), s, handler) == Answered(c, s, handler)
  {
    hide WithStream, ResponseFrames, ResponseBlock, StateAfterResponse;
    StoredTwice(c.streams, s, s);
    match handler
    case None =>
    case Some(h) =>
      StoredTwice(c.streams, s, s.(state := StateAfterResponse(s.state, h(s.request))));
  }

  lemma AnsweredAt(c: Conn, i: nat, handler: Handler)
    requires i < |c.streams| && FirstAt(c.streams, c.streams[i].id, i)
    ensures var s := c.streams[i];
            if handler.None? then Answered(c, s, handler) == Outcome(c, [], true)
            else
              var r := handler.value(s.request);
              Answered(c, s, handler)
              == Outcome(c.(streams := c.streams[i := s.(state := StateAfterResponse(s.state, r))],
                            enc := ResponseBlock(c.enc, r).table),
                         ResponseFrames(c.enc, c.remote, s.id, r), true)
  {
    hide ResponseFrames, ResponseBlock, StateAfterResponse, Replaced;
    var s := c.streams[i];
    assert HasStream(c.streams, s.id);
    FirstIsFound(c.streams, s.id, i, s);
    assert c.streams[i := s] == c.streams;
    if handler.Some? {
      FirstIsFound(c.streams, s.id, i, s.(state := StateAfterResponse(s.state, handler.value(s.request))));
    }
  }

  lemma AckBytes()
    ensures Frame(SETTINGS, 1, 0, []) == HeaderBytes(FrameHeader(0, SETTINGS, 1, 0))
  {}

  method ReadSetting(payload: seq<byte>, i: nat) returns (id: nat, value: nat)
    requires i + 6 <= |payload|
    ensures id == FromBigEndian(payload[i..][..2]) && value == FromBigEndian(payload[i..][2..6])
  {
    hide Word, FromBigEndian;
    id := Word(0, 0, payload[i], payload[i + 1]);
    value := Word(payload[i + 2], payload[i + 3], payload[i + 4], payload[i + 5]);
    assert payload[i..][..2] == [payload[i], payload[i + 1]];
    assert payload[i..][2..6] == [payload[i + 2], payload[i + 3], payload[i + 4], payload[i + 5]];
    FromTwo(payload[i], payload[i + 1]);
    FromFour(payload[i + 2], payload[i + 3], payload[i + 4], payload[i + 5]);
  }

  lemma FromTwo(a: byte, b: byte)
    ensures FromBigEndian([a, b]) == Word(0, 0, a, b)
  {
    assert FromBigEndian([a]) == a;
    assert [a, b][..1] == [a];
  }
}
