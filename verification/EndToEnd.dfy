/** From responses to frames to requests: what a peer rebuilds from the frames of any sequence of responses. */
module EndToEnd {
  import opened Basics
  import opened Bits
  import opened PrefixCode
  import opened DynamicTable
  import opened StaticTable
  import opened HpackRoundTrip
  import opened HpackBlock
  import opened Frames
  import opened H2State
  import opened StreamList

  // ---------------------------------------------------------------- single frames

  lemma FrameIsWhole(kind: byte, flags: byte, id: nat, payload: seq<byte>)
    requires |payload| < 0x100_0000 && id < 0x8000_0000
    ensures var f := Frame(kind, flags, id, payload);
            && WholeFrame(f) && PayloadOf(f) == payload
            && ParsedHeader(f) == FrameHeader(|payload|, kind, flags, id)
  {
    FrameRoundTrip(kind, flags, id, payload);
  }

  lemma HeadersFrame(c: Conn, id: nat, block: seq<byte>, last: bool)
    requires |block| <= MAX_FRAME && id < 0x8000_0000 && !HasStream(c.streams, id)
    ensures var flags: byte := if last then END_HEADERS + END_STREAM else END_HEADERS;
            var fields := DecodedBlock(c.dec, block);
            var state := if last then HALF_CLOSED_REMOTE else OPEN;
            var request := StoreFields(EmptyRequest.(http2 := true), fields.list);
            Process(c, Frame(HEADERS, flags, id, block), None)
            == Outcome(c.(dec := fields.table,
                          streams := [Stream(id, state, DEFAULT_WINDOW, request)] + c.streams), [], true)
    ensures var flags: byte := if last then END_HEADERS + END_STREAM else END_HEADERS;
            !OverReads(c.dec, block) ==> Defined(c, Frame(HEADERS, flags, id, block))
  {
    hide Process, DecodedBlock, StoreFields, FindOrNew, HasStream, Frame, OpenedBy, ApplyBlock, HasFlag;
    var flags: byte := if last then END_HEADERS + END_STREAM else END_HEADERS;
    HeadersProcessed(c, flags, id, block, None);
    HeadersDefined(c, flags, id, block);
    NewStreamFound(c.streams, id);
    OpenedNew(id, last);
    NewStreamStored(c, OpenedBy(NewStream(id), flags), block);
  }

  lemma OpenedNew(id: nat, last: bool)
    ensures var flags: byte := if last then END_HEADERS + END_STREAM else END_HEADERS;
            && HasFlag(flags, END_HEADERS)
            && OpenedBy(NewStream(id), flags)
               == Stream(id, if last then HALF_CLOSED_REMOTE else OPEN, DEFAULT_WINDOW, EmptyRequest.(http2 := true))
  {}

  lemma NewStreamStored(c: Conn, s: Stream, block: seq<byte>)
    requires !HasStream(c.streams, s.id)
    ensures var fields := DecodedBlock(c.dec, block);
            ApplyBlock(c, s, block, None)
            == Outcome(c.(dec := fields.table,
                          streams := [s.(request := StoreFields(s.request, fields.list))] + c.streams), [], true)
  {
    hide DecodedBlock, StoreFields, HasStream;
  }

  lemma HeadersProcessed(c: Conn, flags: byte, id: nat, block: seq<byte>, handler: Handler)
    requires |block| < 0x100_0000 && id < 0x8000_0000
    ensures Process(c, Frame(HEADERS, flags, id, block), handler)
         == OnHeaders(c, FrameHeader(|block|, HEADERS, flags, id), block, handler)
  {
    hide Frame, ParsedHeader, PayloadOf, WholeFrame, OnSettings, OnContinuation, OnPing, OnHeaders;
    FrameIsWhole(HEADERS, flags, id, block);
  }

  lemma HeadersDefined(c: Conn, flags: byte, id: nat, block: seq<byte>)
    requires |block| < 0x100_0000 && id < 0x8000_0000
    ensures Defined(c, Frame(HEADERS, flags, id, block)) <==> !HasFlag(flags, END_HEADERS) || !OverReads(c.dec, block)
  {
    hide Frame, ParsedHeader, PayloadOf, WholeFrame, OverReads, HasFlag;
    FrameIsWhole(HEADERS, flags, id, block);
  }

  lemma DataFrame(c: Conn, s: Stream, rest: seq<Stream>, payload: seq<byte>, last: bool)
    requires c.streams == [s] + rest && |payload| <= MAX_FRAME && s.id < 0x8000_0000
    ensures var s' := s.(request := s.request.(body := s.request.body + payload),
                         state := if last then HALF_CLOSED_REMOTE else s.state);
            Process(c, Frame(DATA, if last then END_STREAM else 0, s.id, payload), None)
            == Outcome(c.(streams := [s'] + rest),
                       [WindowUpdate(s.id, |payload|), WindowUpdate(0, |payload|)], true)
    ensures Defined(c, Frame(DATA, if last then END_STREAM else 0, s.id, payload))
  {
    hide Frame, ParsedHeader, PayloadOf, WholeFrame, OnSettings, OnContinuation, OnPing, OnHeaders;
    FrameIsWhole(DATA, if last then END_STREAM else 0, s.id, payload);
    assert c.streams[0] == s;
    assert c.streams[1..] == rest;
  }

  // ---------------------------------------------------------------- one response

  /** The credit returned for each DATA frame. */
  function Credits(id: nat, body: seq<byte>, chunk: nat): seq<seq<byte>>
    requires chunk > 0
    decreases |body|
  {
    if body == [] then []
    else
      var n := if |body| <= chunk then |body| else chunk;
      [WindowUpdate(id, n), WindowUpdate(0, n)] + Credits(id, body[n..], chunk)
  }

  lemma {:induction false} BodyDelivered(c: Conn, s: Stream, rest: seq<Stream>, body: seq<byte>, chunk: nat)
    requires c.streams == [s] + rest && 0 < chunk <= MAX_FRAME && s.id < 0x8000_0000 && body != []
    ensures var s' := s.(request := s.request.(body := s.request.body + body), state := HALF_CLOSED_REMOTE);
            ProcessAll(c, DataFrames(s.id, body, chunk), None)
            == Outcome(c.(streams := [s'] + rest), Credits(s.id, body, chunk), true)
    ensures AllDefined(c, DataFrames(s.id, body, chunk), None)
    decreases |body|
  {
    hide Process, WindowUpdate, Frame, Defined;
    if |body| <= chunk {
      DataFrame(c, s, rest, body, true);
      OneDefined(c, Frame(DATA, END_STREAM, s.id, body), None);
      assert Credits(s.id, body, chunk)
          == [WindowUpdate(s.id, |body|), WindowUpdate(0, |body|)] + Credits(s.id, body[|body|..], chunk);
      assert body[|body|..] == [];
    } else {
      DataFrame(c, s, rest, body[..chunk], false);
      var s1 := s.(request := s.request.(body := s.request.body + body[..chunk]));
      BodyDelivered(c.(streams := [s1] + rest), s1, rest, body[chunk..], chunk);
      assert s.request.body + body[..chunk] + body[chunk..] == s.request.body + body by {
        assert body == body[..chunk] + body[chunk..];
      }
      var frames := DataFrames(s.id, body, chunk);
      assert frames[0] == Frame(DATA, 0, s.id, body[..chunk]);
      assert frames[1..] == DataFrames(s.id, body[chunk..], chunk);
      FirstDefined(c, frames, None);
    }
  }

  /** The first frame, and the rest after it. */
  lemma FirstDefined(c: Conn, frames: seq<seq<byte>>, handler: Handler)
    requires frames != []
    ensures AllDefined(c, frames, handler)
       <==> Defined(c, frames[0]) && AllDefined(Process(c, frames[0], handler).conn, frames[1..], handler)
  {
    hide Process, Defined, AllDefined, ProcessAll;
    assert frames == [frames[0]] + frames[1..];
    AllDefinedConcat(c, [frames[0]], frames[1..], handler);
    OneDefined(c, frames[0], handler);
    OneFrame(c, frames[0], handler);
  }

  /** The request a peer ends up with. */
  function Rebuilt(id: nat, r: Response): Stream {
    Stream(id, HALF_CLOSED_REMOTE, DEFAULT_WINDOW,
           StoreFields(EmptyRequest.(http2 := true), FieldsOf(r)).(body := r.body))
  }

  /** Fields are stored without touching the body. */
  lemma {:induction false} StoreKeepsBody(r: Request, es: seq<Entry>)
    ensures StoreFields(r, es).body == r.body && StoreFields(r, es).http2 == r.http2
    decreases |es|
  {
    hide Ascii, ParseMethod;
    if es != [] {
      StoreKeepsBody(StoreField(r, es[0]), es[1..]);
    }
  }

  lemma ResponseDelivered(peer: Conn, enc: Table, remote: Settings, id: nat, r: Response)
    requires Kept(enc) && peer.dec == enc && !HasStream(peer.streams, id) && id < 0x8000_0000
    requires AllFaithful(enc, MAX_FRAME, FieldsOf(r))
    ensures ProcessAll(peer, ResponseFrames(enc, remote, id, r), None)
         == Outcome(peer.(dec := ResponseBlock(enc, r).table, streams := [Rebuilt(id, r)] + peer.streams),
                    Credits(id, r.body, MaxChunk(remote)), true)
    ensures AllDefined(peer, ResponseFrames(enc, remote, id, r), None)
  {
    hide Defined, AllDefined, Process, FieldsOf, AllFaithful, EncodedBlock, Frame, WindowUpdate, StoreFields,
         DecodedBlock;
    var block := ResponseBlock(enc, r);
    BlockRoundTrip(enc, MAX_FRAME, FieldsOf(r));
    HeadersFrame(peer, id, block.bytes, r.body == []);
    StoreKeepsBody(EmptyRequest.(http2 := true), FieldsOf(r));
    var s := Rebuilt(id, r).(state := if r.body == [] then HALF_CLOSED_REMOTE else OPEN);
    var s0 := s.(request := s.request.(body := []));
    var c1 := peer.(dec := block.table, streams := [s0] + peer.streams);
    var frames := ResponseFrames(enc, remote, id, r);
    assert Process(peer, frames[0], None) == Outcome(c1, [], true);
    assert frames[1..] == DataFrames(id, r.body, MaxChunk(remote));
    FirstDefined(peer, frames, None);
    NothingUndefined(c1);
    if r.body != [] {
      BodyDelivered(c1, s0, peer.streams, r.body, MaxChunk(remote));
      assert [] + r.body == r.body;
    }
  }

  lemma NothingUndefined(c: Conn)
    ensures AllDefined(c, [], None)
  {}

  // ---------------------------------------------------------------- any sequence of responses

  datatype Item = Item(id: nat, response: Response)

  datatype Sent = Sent(frames: seq<seq<byte>>, enc: Table)

  function SendAll(enc: Table, remote: Settings, items: seq<Item>): Sent
    decreases |items|
  {
    if items == [] then Sent([], enc)
    else
      var rest := SendAll(ResponseBlock(enc, items[0].response).table, remote, items[1..]);
      Sent(ResponseFrames(enc, remote, items[0].id, items[0].response) + rest.frames, rest.enc)
  }

  predicate Sendable(enc: Table, items: seq<Item>)
    decreases |items|
  {
    items == [] ||
    (AllFaithful(enc, MAX_FRAME, FieldsOf(items[0].response)) &&
     Sendable(ResponseBlock(enc, items[0].response).table, items[1..]))
  }

  /** Streams neither used twice nor known to the peer. */
  ghost predicate Fresh(streams: seq<Stream>, items: seq<Item>) {
    && (forall i :: 0 <= i < |items| ==> items[i].id < 0x8000_0000 && !HasStream(streams, items[i].id))
    && (forall i, j :: 0 <= i < j < |items| ==> items[i].id != items[j].id)
  }

  function RebuiltAll(items: seq<Item>): seq<Stream>
    decreases |items|
  {
    if items == [] then [] else RebuiltAll(items[1..]) + [Rebuilt(items[0].id, items[0].response)]
  }

  /**
   The frames of any sequence of responses, processed by a peer whose decoding table equals the
   sender's encoding table, rebuild every response on its stream, and the tables stay equal. No byte
   behind a header block is read on the way.
   */
  lemma {:induction false} EveryResponseDelivered(peer: Conn, enc: Table, remote: Settings, items: seq<Item>)
    requires Kept(enc) && peer.dec == enc && Fresh(peer.streams, items) && Sendable(enc, items)
    ensures var sent := SendAll(enc, remote, items);
            var result := ProcessAll(peer, sent.frames, None);
            && result.ok
            && result.conn == peer.(dec := sent.enc, streams := RebuiltAll(items) + peer.streams)
    ensures AllDefined(peer, SendAll(enc, remote, items).frames, None)
    decreases |items|
  {
    hide AllDefined, Process, FieldsOf, AllFaithful, EncodedBlock, Frame, ResponseFrames, Rebuilt, ProcessAll;
    if items == [] {
      assert RebuiltAll(items) + peer.streams == peer.streams;
      NoFrames(peer);
      NothingUndefined(peer);
    } else {
      var id, r := items[0].id, items[0].response;
      ResponseDelivered(peer, enc, remote, id, r);
      BlockRoundTrip(enc, MAX_FRAME, FieldsOf(r));
      var enc' := ResponseBlock(enc, r).table;
      var peer' := peer.(dec := enc', streams := [Rebuilt(id, r)] + peer.streams);
      RebuiltId(id, r);
      StillFresh(peer.streams, Rebuilt(id, r), items);
      EveryResponseDelivered(peer', enc', remote, items[1..]);
      ProcessAllConcat(peer, ResponseFrames(enc, remote, id, r), SendAll(enc', remote, items[1..]).frames, None);
      AllDefinedConcat(peer, ResponseFrames(enc, remote, id, r), SendAll(enc', remote, items[1..]).frames, None);
      Reassociate(RebuiltAll(items[1..]), [Rebuilt(id, r)], peer.streams);
    }
  }

  lemma NoFrames(c: Conn)
    ensures ProcessAll(c, [], None) == Outcome(c, [], true)
  {}

  lemma RebuiltId(id: nat, r: Response)
    ensures Rebuilt(id, r).id == id
  {}

  lemma StillFresh(streams: seq<Stream>, s: Stream, items: seq<Item>)
    requires items != [] && s.id == items[0].id && Fresh(streams, items)
    ensures Fresh([s] + streams, items[1..])
  {
    var later := items[1..];
    forall i | 0 <= i < |later|
      ensures !HasStream([s] + streams, later[i].id)
    {
      assert later[i] == items[i + 1];
      assert forall j :: 0 <= j < |streams| ==> ([s] + streams)[j + 1] == streams[j];
      assert !HasStream(streams, later[i].id);
      forall j | 0 <= j < |[s] + streams|
        ensures ([s] + streams)[j].id != later[i].id
      {
        assert j > 0 ==> ([s] + streams)[j] == streams[j - 1];
      }
    }
  }

  // ---------------------------------------------------------------- what a rebuilt response holds

  lemma {:induction false} StoreHeaders(r: Request, es: seq<Entry>)
    requires |r.headers| + |es| <= MAX_HEADERS && forall i :: 0 <= i < |es| ==> !IsPseudo(es[i].name)
    ensures StoreFields(r, es) == r.(headers := r.headers + es)
    decreases |es|
  {
    if es == [] {
      assert r.headers + es == r.headers;
    } else {
      PseudoNames();
      var r1 := r.(headers := r.headers + [es[0]]);
      StoreHeaders(r1, es[1..]);
      assert r.headers + [es[0]] + es[1..] == r.headers + es by {
        assert es == [es[0]] + es[1..];
      }
    }
  }

  lemma PseudoNames()
    ensures IsPseudo(Ascii(":method")) && IsPseudo(Ascii(":path")) && IsPseudo(Ascii(":status"))
    ensures Ascii(":status") != Ascii(":method") && Ascii(":status") != Ascii(":path")
  {
    assert Ascii(":method")[0] == 58 && Ascii(":path")[0] == 58 && Ascii(":status")[0] == 58;
    assert Ascii(":status")[1] == 115 && Ascii(":method")[1] == 109 && Ascii(":path")[1] == 112;
  }

  /** Lowercased headers in order, and the body byte for byte. */
  lemma RebuiltHolds(id: nat, r: Response)
    requires forall i :: 0 <= i < |r.headers| ==> !IsPseudo(r.headers[i].name)
    ensures Rebuilt(id, r).request.headers == LowerNames(r.headers)
    ensures Rebuilt(id, r).request.body == r.body
  {
    PseudoNames();
    var fields, empty := FieldsOf(r), EmptyRequest.(http2 := true);
    assert fields[0].name == Ascii(":status");
    assert fields[1..] == LowerNames(r.headers);
    assert StoreField(empty, fields[0]) == empty;
    LowerKeepsPseudo(r.headers);
    StoreHeaders(empty, LowerNames(r.headers));
    assert [] + LowerNames(r.headers) == LowerNames(r.headers);
  }

  lemma LowerKeepsPseudo(es: seq<Entry>)
    requires forall i :: 0 <= i < |es| ==> !IsPseudo(es[i].name)
    ensures forall i :: 0 <= i < |es| ==> !IsPseudo(LowerNames(es)[i].name)
  {
    forall i | 0 <= i < |es|
      ensures !IsPseudo(LowerNames(es)[i].name)
    {
      var name := es[i].name;
      assert name != [] ==> Lower(name)[0] == LowerByte(name[0]);
    }
  }

  // ---------------------------------------------------------------- the shape of what is sent

  predicate Headed(frames: seq<seq<byte>>) {
    forall i :: 0 <= i < |frames| ==> |frames[i]| >= HEADER_SIZE
  }

  function Payloads(frames: seq<seq<byte>>): seq<byte>
    requires Headed(frames)
    decreases |frames|
  {
    if frames == [] then [] else frames[0][HEADER_SIZE..] + Payloads(frames[1..])
  }

  ghost predicate Segment(f: seq<byte>, id: nat, chunk: nat, last: bool) {
    && WholeFrame(f) && ParsedHeader(f).kind == DATA && ParsedHeader(f).stream == id
    && 0 < ParsedHeader(f).length == |f| - HEADER_SIZE <= chunk
    && HasFlag(ParsedHeader(f).flags, END_STREAM) == last
  }

  ghost predicate WellSegmented(frames: seq<seq<byte>>, id: nat, chunk: nat) {
    forall i :: 0 <= i < |frames| ==> Segment(frames[i], id, chunk, i == |frames| - 1)
  }

  lemma OneSegment(id: nat, payload: seq<byte>, chunk: nat, last: bool)
    requires 0 < |payload| <= chunk <= MAX_FRAME && id < 0x8000_0000
    ensures var f := Frame(DATA, if last then END_STREAM else 0, id, payload);
            Segment(f, id, chunk, last) && |f| >= HEADER_SIZE && f[HEADER_SIZE..] == payload
  {
    hide Frame, ParsedHeader, PayloadOf;
    FrameIsWhole(DATA, if last then END_STREAM else 0, id, payload);
    FrameRoundTrip(DATA, if last then END_STREAM else 0, id, payload);
    FrameLength(DATA, if last then END_STREAM else 0, id, payload);
  }

  lemma FrameLength(kind: byte, flags: byte, id: nat, payload: seq<byte>)
    ensures |Frame(kind, flags, id, payload)| == HEADER_SIZE + |payload|
  {}

  /** DATA frames within the peer's limit carry the body; only the last one ends the stream. */
  lemma {:induction false} BodySegmented(id: nat, body: seq<byte>, chunk: nat)
    requires 0 < chunk <= MAX_FRAME && id < 0x8000_0000
    ensures var frames := DataFrames(id, body, chunk);
            && WellSegmented(frames, id, chunk) && (frames == [] <==> body == [])
            && Headed(frames) && Payloads(frames) == body
    decreases |body|
  {
    hide Frame, Segment;
    if body == [] {
    } else if |body| <= chunk {
      OneSegment(id, body, chunk, true);
      OnePayload(Frame(DATA, END_STREAM, id, body));
    } else {
      hide WellSegmented, Payloads;
      var now, later := body[..chunk], body[chunk..];
      OneSegment(id, now, chunk, false);
      BodySegmented(id, later, chunk);
      FirstSegment(Frame(DATA, 0, id, now), DataFrames(id, later, chunk), id, chunk);
      assert body == now + later;
    }
  }

  lemma OnePayload(f: seq<byte>)
    requires |f| >= HEADER_SIZE
    ensures Payloads([f]) == f[HEADER_SIZE..]
  {
    assert [f][1..] == [];
  }

  lemma FirstSegment(f: seq<byte>, rest: seq<seq<byte>>, id: nat, chunk: nat)
    requires |f| >= HEADER_SIZE && rest != [] && Headed(rest)
    requires Segment(f, id, chunk, false) && WellSegmented(rest, id, chunk)
    ensures Headed([f] + rest)
    ensures WellSegmented([f] + rest, id, chunk) && Payloads([f] + rest) == f[HEADER_SIZE..] + Payloads(rest)
  {
    hide Segment;
    var all := [f] + rest;
    assert all[1..] == rest;
    forall i | 0 <= i < |all|
      ensures Segment(all[i], id, chunk, i == |all| - 1)
    {
      assert i > 0 ==> all[i] == rest[i - 1];
    }
  }

  /**
   Of all frames of a response only the last carries END_STREAM, and no DATA frame is larger than the peer allows.
   */
  lemma OnlyLastEndsStream(enc: Table, remote: Settings, id: nat, r: Response)
    requires id < 0x8000_0000
    ensures var frames := ResponseFrames(enc, remote, id, r);
            forall i :: 0 <= i < |frames| ==>
              && WholeFrame(frames[i]) && ParsedHeader(frames[i]).stream == id
              && ParsedHeader(frames[i]).length == |frames[i]| - HEADER_SIZE <= MAX_FRAME
              && ParsedHeader(frames[i]).kind == (if i == 0 then HEADERS else DATA)
              && HasFlag(ParsedHeader(frames[i]).flags, END_STREAM) == (i == |frames| - 1)
              && (i > 0 && remote.maxFrame > 0 ==> ParsedHeader(frames[i]).length <= remote.maxFrame)
  {
    hide Frame, EncodedBlock, DataFrames, FieldsOf;
    var flags: byte := if r.body == [] then END_HEADERS + END_STREAM else END_HEADERS;
    var block := ResponseBlock(enc, r).bytes;
    FrameIsWhole(HEADERS, flags, id, block);
    FrameRoundTrip(HEADERS, flags, id, block);
    BodySegmented(id, r.body, MaxChunk(remote));
    var data := DataFrames(id, r.body, MaxChunk(remote));
    var frames := ResponseFrames(enc, remote, id, r);
    assert frames == [Frame(HEADERS, flags, id, block)] + data;
    forall i | 0 < i < |frames|
      ensures frames[i] == data[i - 1]
    {}
  }
}
