/**
 What holds over every run of frames: stream ids, request bodies, returned window credit, windows, header tables.
 */
module Bookkeeping {
  import opened Bits
  import opened DynamicTable
  import opened Hpack
  import opened HpackRoundTrip
  import opened HpackBlock
  import opened OverRead
  import opened Frames
  import opened H2State
  import opened StreamList
  import opened EndToEnd

  predicate IsFrame(f: seq<byte>, kind: byte, id: nat) {
    WholeFrame(f) && ParsedHeader(f).kind == kind && ParsedHeader(f).stream == id
  }

  /** Reference: the DATA payloads of one stream since its last RST_STREAM, in order. */
  function BodyFrom(body: seq<byte>, frames: seq<seq<byte>>, id: nat): seq<byte>
    decreases |frames|
  {
    if frames == [] then body
    else NextBody(BodyFrom(body, frames[..|frames| - 1], id), frames[|frames| - 1], id)
  }

  function NextBody(body: seq<byte>, f: seq<byte>, id: nat): seq<byte> {
    if IsFrame(f, DATA, id) then body + PayloadOf(f)
    else if IsFrame(f, RST_STREAM, id) then []
    else body
  }

  /** Reference: DATA bytes received on one stream, and on all. */
  function DataOn(f: seq<byte>, id: nat): nat {
    if IsFrame(f, DATA, id) then ParsedHeader(f).length else 0
  }

  function DataBytes(frames: seq<seq<byte>>, id: nat): nat
    decreases |frames|
  {
    if frames == [] then 0 else DataBytes(frames[..|frames| - 1], id) + DataOn(frames[|frames| - 1], id)
  }

  function AnyData(f: seq<byte>): nat {
    if WholeFrame(f) && ParsedHeader(f).kind == DATA then ParsedHeader(f).length else 0
  }

  function AllDataBytes(frames: seq<seq<byte>>): nat
    decreases |frames|
  {
    if frames == [] then 0 else AllDataBytes(frames[..|frames| - 1]) + AnyData(frames[|frames| - 1])
  }

  /** The credit that written WINDOW_UPDATE frames return for a stream; 0 is the connection. */
  function CreditOf(f: seq<byte>, id: nat): nat {
    if IsFrame(f, WINDOW_UPDATE, id) && ParsedHeader(f).length >= 4 then FromBigEndian(PayloadOf(f)[..4]) else 0
  }

  function Credit(out: seq<seq<byte>>, id: nat): nat
    decreases |out|
  {
    if out == [] then 0 else CreditOf(out[0], id) + Credit(out[1..], id)
  }

  lemma {:induction false} CreditConcat(a: seq<seq<byte>>, b: seq<seq<byte>>, id: nat)
    ensures Credit(a + b, id) == Credit(a, id) + Credit(b, id)
    decreases |a|
  {
    hide CreditOf;
    if a == [] {
      assert a + b == b;
    } else {
      CreditConcat(a[1..], b, id);
      assert (a + b)[1..] == a[1..] + b && (a + b)[0] == a[0];
    }
  }

  /** Frames of other kinds return no credit. */
  ghost predicate NoUpdates(out: seq<seq<byte>>) {
    forall f :: f in out ==> !(WholeFrame(f) && ParsedHeader(f).kind == WINDOW_UPDATE)
  }

  lemma {:induction false} NoUpdatesNoCredit(out: seq<seq<byte>>, id: nat)
    requires NoUpdates(out)
    ensures Credit(out, id) == 0
    decreases |out|
  {
    hide WholeFrame, ParsedHeader, PayloadOf, FromBigEndian;
    if out != [] {
      assert out[0] in out;
      NoUpdatesNoCredit(out[1..], id);
    }
  }

  // ---------------------------------------------------------------- one frame

  lemma WindowUpdateCredit(target: nat, n: nat, id: nat)
    requires target < 0x8000_0000 && n < 0x100_0000
    ensures CreditOf(WindowUpdate(target, n), id) == if target == id then n else 0
  {
    hide Frame, FromBigEndian, ParsedHeader, WholeFrame;
    var payload := BigEndian(n, 4);
    FrameIsWhole(WINDOW_UPDATE, 0, target, payload);
    assert n % 0x8000_0000 == n;
    assert payload[..4] == payload;
    assert Pow256(4) == 0x1_0000_0000;
    BigEndianRoundTrip(n, 4);
  }

  lemma ResponseHasNoUpdates(enc: Table, remote: Settings, id: nat, r: Response)
    requires id < 0x8000_0000
    ensures NoUpdates(ResponseFrames(enc, remote, id, r))
  {
    hide ResponseFrames, ParsedHeader, WholeFrame;
    OnlyLastEndsStream(enc, remote, id, r);
  }

  lemma SmallIds(data: seq<byte>)
    requires |data| >= HEADER_SIZE
    ensures ParsedHeader(data).stream < 0x8000_0000
    ensures ParsedHeader(data).length < 0x100_0000
  {
    hide FromBigEndian;
    assert data[..3] == [data[0], data[1], data[2]];
    FromThree(data[0], data[1], data[2]);
  }

  /** A stream the handler may answer on: nothing but its header part changes, no credit is returned. */
  lemma AnsweredKeeps(c: Conn, s: Stream, handler: Handler, id: nat)
    requires DistinctIds(c.streams) && s.id < 0x8000_0000
    requires s.request.body == FindOrNew(c.streams, s.id).request.body
    ensures var r := Answered(c, s, handler);
            && DistinctIds(r.conn.streams) && NoUpdates(r.out)
            && FindOrNew(r.conn.streams, id).request.body == FindOrNew(c.streams, id).request.body
  {
    hide ResponseFrames, ResponseBlock, WithStream, FindOrNew, DistinctIds, ParsedHeader, WholeFrame;
    match handler
    case None =>
      FoundAfterStoring(c.streams, s, id);
      DistinctAfterStoring(c.streams, s);
    case Some(h) =>
      var r := h(s.request);
      var s' := s.(state := StateAfterResponse(s.state, r));
      FoundAfterStoring(c.streams, s', id);
      DistinctAfterStoring(c.streams, s');
      ResponseHasNoUpdates(c.enc, c.remote, s.id, r);
  }

  /** Whatever fields a block was decoded to. */
  lemma FieldsKeep(c: Conn, s: Stream, fields: Fields, handler: Handler, id: nat)
    requires DistinctIds(c.streams) && s.id < 0x8000_0000
    requires s.request.body == FindOrNew(c.streams, s.id).request.body
    ensures var r := ApplyFields(c, s, fields, handler);
            && DistinctIds(r.conn.streams) && NoUpdates(r.out)
            && FindOrNew(r.conn.streams, id).request.body == FindOrNew(c.streams, id).request.body
  {
    hide Answered, DistinctIds, FindOrNew, StoreFields, NoUpdates;
    StoreKeepsBody(s.request, fields.list);
    AnsweredKeeps(c.(dec := fields.table), s.(request := StoreFields(s.request, fields.list)), handler, id);
  }

  /** Storing one stream back with the given body. */
  lemma StoredKeeps(c: Conn, s: Stream, id: nat)
    requires DistinctIds(c.streams)
    ensures DistinctIds(WithStream(c.streams, s))
    ensures FindOrNew(WithStream(c.streams, s), id).request.body
         == if id == s.id then s.request.body else FindOrNew(c.streams, id).request.body
  {
    FoundAfterStoring(c.streams, s, id);
    DistinctAfterStoring(c.streams, s);
  }

  /** Nothing of this stream's body, and no credit, comes from a header frame. */
  ghost predicate BodiesKept(c: Conn, r: Outcome, id: nat) {
    && DistinctIds(r.conn.streams) && NoUpdates(r.out)
    && FindOrNew(r.conn.streams, id).request.body == FindOrNew(c.streams, id).request.body
  }

  /** A completed header block, whatever fields it was decoded to. */
  lemma CompletedKeeps(c: Conn, h: FrameHeader, block: seq<byte>, handler: Handler, r: Outcome, id: nat)
    requires DistinctIds(c.streams) && h.stream < 0x8000_0000
    requires AppliesSome(BaseFor(c, h), StreamFor(c, h), block, handler, r)
    ensures BodiesKept(c, r, id)
  {
    hide ApplyFields, DistinctIds, FindOrNew, HasFlag, BlockReads;
    var fields :| BlockReads(c.dec, block, fields) && r == ApplyFields(BaseFor(c, h), StreamFor(c, h), fields, handler);
    FieldsKeep(BaseFor(c, h), StreamFor(c, h), fields, handler, id);
  }

  /** A fragment that does not complete its block. */
  lemma FragmentKeeps(c: Conn, h: FrameHeader, payload: seq<byte>, handler: Handler, id: nat)
    requires DistinctIds(c.streams) && h.stream < 0x8000_0000 && !Completes(c, h)
    ensures h.kind == HEADERS ==> BodiesKept(c, OnHeaders(c, h, payload, handler), id)
    ensures h.kind == CONTINUATION ==> BodiesKept(c, OnContinuation(c, h, payload, handler), id)
  {
    hide DistinctIds, FindOrNew, WithStream, HasFlag, ParsedHeader;
    StoredKeeps(c, OpenedBy(FindOrNew(c.streams, h.stream), h.flags), id);
  }

  lemma CreditOfTwo(a: seq<byte>, b: seq<byte>, id: nat)
    ensures Credit([a, b], id) == CreditOf(a, id) + CreditOf(b, id)
  {
    hide CreditOf;
    var last := [b];
    assert [a, b][1..] == last && last[1..] == [];
    assert Credit(last, id) == CreditOf(b, id) + Credit(last[1..], id);
  }

  lemma DataKeeps(c: Conn, h: FrameHeader, payload: seq<byte>, id: nat)
    requires DistinctIds(c.streams) && h.stream < 0x8000_0000 && |payload| < 0x100_0000
    ensures var r := OnData(c, h, payload);
            && DistinctIds(r.conn.streams)
            && FindOrNew(r.conn.streams, id).request.body
               == FindOrNew(c.streams, id).request.body + (if id == h.stream then payload else [])
            && Credit(r.out, id) == (if id == h.stream then |payload| else 0) + (if id == 0 then |payload| else 0)
  {
    hide DistinctIds, FindOrNew, WithStream, WindowUpdate, CreditOf;
    var n := |payload|;
    var found := FindOrNew(c.streams, h.stream);
    var r := OnData(c, h, payload);
    StoredKeeps(c, found.(request := found.request.(body := found.request.body + payload),
                          state := if HasFlag(h.flags, END_STREAM) then HALF_CLOSED_REMOTE else found.state), id);
    WindowUpdateCredit(h.stream, n, id);
    WindowUpdateCredit(0, n, id);
    CreditOfTwo(WindowUpdate(h.stream, n), WindowUpdate(0, n), id);
    assert FindOrNew(c.streams, id).request.body + [] == FindOrNew(c.streams, id).request.body;
  }

  lemma ResetKeeps(c: Conn, h: FrameHeader, id: nat)
    requires DistinctIds(c.streams)
    ensures var r := OnReset(c, h);
            && DistinctIds(r.conn.streams) && r.out == []
            && FindOrNew(r.conn.streams, id).request.body
               == if id == h.stream then [] else FindOrNew(c.streams, id).request.body
  {
    hide WithStream, DistinctIds;
    var s := FindOrNew(c.streams, h.stream);
    StoredKeeps(c, s.(state := CLOSED, request := s.request.(body := [])), id);
    if !HasStream(c.streams, h.stream) {
      NewStreamFound(c.streams, h.stream);
    }
  }

  lemma WindowKeeps(c: Conn, h: FrameHeader, payload: seq<byte>, id: nat)
    requires DistinctIds(c.streams)
    ensures var r := OnWindowUpdate(c, h, payload);
            && DistinctIds(r.conn.streams) && r.out == []
            && FindOrNew(r.conn.streams, id).request.body == FindOrNew(c.streams, id).request.body
  {
    hide WithStream, DistinctIds, FindOrNew, FromBigEndian;
    if |payload| >= 4 && h.stream != 0 {
      var s := FindOrNew(c.streams, h.stream);
      StoredKeeps(c, s.(window := Int32(s.window + FromBigEndian(payload[..4]))), id);
    }
  }

  lemma AcksAreNoUpdates(c: Conn, h: FrameHeader, payload: seq<byte>)
    requires h.stream < 0x8000_0000 && h.length < 0x100_0000
    ensures NoUpdates(OnSettings(c, h, payload).out)
  {
    hide ParsedHeader, WholeFrame, Frame, HeaderBytes, ApplySettings;
    FrameIsWhole(SETTINGS, 1, 0, []);
  }

  lemma EchoIsNoUpdate(c: Conn, h: FrameHeader, echo: seq<byte>)
    requires h.kind == PING && h.stream < 0x8000_0000 && h.length < 0x100_0000
    ensures NoUpdates(Echoed(c, h, echo).out)
  {
    hide ParsedHeader, HeaderBytes;
    HeaderRoundTrip(h.(flags := 1), echo);
  }

  lemma PingKeeps(c: Conn, h: FrameHeader, behind: seq<byte>, r: Outcome, id: nat)
    requires DistinctIds(c.streams) && h.kind == PING && h.stream < 0x8000_0000 && h.length < 0x100_0000
    requires r == OnPing(c, h, behind) || EchoesSome(c, h, r)
    ensures BodiesKept(c, r, id)
  {
    hide HasFlag, FindOrNew, DistinctIds, NoUpdates, Echoed;
    EchoIsNoUpdate(c, h, [0, 0, 0, 0, 0, 0, 0, 0]);
    NothingIsNoUpdate();
    if |behind| >= 8 {
      EchoIsNoUpdate(c, h, behind[..8]);
    }
    EchoKeepsConn(c, h);
    if EchoesSome(c, h, r) {
      var echo :| |echo| == 8 && r == Echoed(c, h, echo);
      EchoIsNoUpdate(c, h, echo);
    }
  }

  lemma NothingIsNoUpdate()
    ensures NoUpdates([])
  {}

  lemma EchoKeepsConn(c: Conn, h: FrameHeader)
    ensures forall echo :: Echoed(c, h, echo).conn == c
  {}

  /** One frame, whole or not, and any outcome of it: ids stay distinct, bodies and credit follow the reference. */
  lemma FrameKeeps(c: Conn, f: seq<byte>, handler: Handler, r: Outcome, id: nat)
    requires DistinctIds(c.streams) && Possible(c, f, handler, r)
    ensures DistinctIds(r.conn.streams)
    ensures FindOrNew(r.conn.streams, id).request.body == NextBody(FindOrNew(c.streams, id).request.body, f, id)
    ensures Credit(r.out, id) == DataOn(f, id) + if id == 0 then AnyData(f) else 0
  {
    hide FindOrNew, DistinctIds, OnHeaders, OnContinuation, OnData, OnReset, OnWindowUpdate, OnSettings, OnPing,
         OnGoaway;
    hide ParsedHeader, CreditOf, NoUpdates, AppliesSome, EchoesSome, HasFlag, Continued, OpenedBy, BlockFor,
         StreamFor, BaseFor;
    if WholeFrame(f) {
      var h, payload := ParsedHeader(f), PayloadOf(f);
      SmallIds(f);
      if Completes(c, h) {
        CompletedKeeps(c, h, BlockFor(c, h, payload), handler, r, id);
        NoUpdatesNoCredit(r.out, id);
      } else if h.kind == HEADERS || h.kind == CONTINUATION {
        FragmentKeeps(c, h, payload, handler, id);
        NoUpdatesNoCredit(r.out, id);
      } else if h.kind == DATA {
        DataKeeps(c, h, payload, id);
        assert FindOrNew(c.streams, id).request.body + [] == FindOrNew(c.streams, id).request.body;
      } else if h.kind == RST_STREAM {
        ResetKeeps(c, h, id);
      } else if h.kind == WINDOW_UPDATE {
        WindowKeeps(c, h, payload, id);
      } else if h.kind == SETTINGS {
        AcksAreNoUpdates(c, h, payload);
        NoUpdatesNoCredit(r.out, id);
        AcksKeepStreams(c, h, payload);
      } else if h.kind == PING {
        PingKeeps(c, h, f[HEADER_SIZE..], r, id);
        NoUpdatesNoCredit(r.out, id);
      } else if h.kind == GOAWAY {
        AcksKeepStreams(c, h, payload);
      }
    }
  }

  lemma AcksKeepStreams(c: Conn, h: FrameHeader, payload: seq<byte>)
    ensures OnSettings(c, h, payload).conn.streams == c.streams
    ensures OnGoaway(c, payload).conn.streams == c.streams && OnGoaway(c, payload).out == []
  {}

  // ---------------------------------------------------------------- any run

  /**
   Over any run of frames, complete or not, in any order, and whatever memory holds: stream ids stay
   distinct; each stream's body is the concatenation of its DATA payloads since its last reset; the
   credit returned for a stream equals the DATA bytes received on it, and for the connection all of
   them (those on stream 0 twice).
   */
  lemma {:induction false} RunKeeps(c: Conn, frames: seq<seq<byte>>, handler: Handler, c2: Conn, out: seq<seq<byte>>,
                                    id: nat)
    requires DistinctIds(c.streams) && PossibleRun(c, frames, handler, c2, out)
    ensures DistinctIds(c2.streams)
    ensures FindOrNew(c2.streams, id).request.body == BodyFrom(FindOrNew(c.streams, id).request.body, frames, id)
    ensures Credit(out, id) == DataBytes(frames, id) + if id == 0 then AllDataBytes(frames) else 0
    decreases |frames|
  {
    hide Possible, FindOrNew, DistinctIds, NextBody, CreditOf, DataOn, AnyData;
    if frames != [] {
      var n := |frames| - 1;
      var mid, before, r :| PossibleStep(c, frames, handler, mid, before, r, c2, out);
      RunKeeps(c, frames[..n], handler, mid, before, id);
      FrameKeeps(mid, frames[n], handler, r, id);
      CreditConcat(before, r.out, id);
    }
  }

  // ---------------------------------------------------------------- windows, over every run

  /** Reference: what WINDOW_UPDATE frames add for a stream; 0 is the connection. */
  function Increments(frames: seq<seq<byte>>, id: nat): nat
    decreases |frames|
  {
    if frames == [] then 0 else Increments(frames[..|frames| - 1], id) + CreditOf(frames[|frames| - 1], id)
  }

  /** The window of a stream, or of the connection. */
  function WindowOf(c: Conn, id: nat): int {
    if id == 0 then c.window else FindOrNew(c.streams, id).window
  }

  /** Adding in 32 bits step by step is adding in 32 bits at the end. */
  lemma AddedInSteps(a: int, b: int)
    ensures Int32(Int32(a) + b) == Int32(a + b) && -0x8000_0000 <= Int32(a) < 0x8000_0000
  {
    var k := (a + 0x8000_0000) / 0x1_0000_0000;
    assert Int32(a) == a - 0x1_0000_0000 * k;
    ModuloShift(a + b + 0x8000_0000, k);
  }

  lemma ModuloShift(x: int, k: int)
    ensures (x - 0x1_0000_0000 * k) % 0x1_0000_0000 == x % 0x1_0000_0000
  {
    var q := x / 0x1_0000_0000;
    assert x - 0x1_0000_0000 * k == 0x1_0000_0000 * (q - k) + x % 0x1_0000_0000;
  }

  lemma StoredWindow(c: Conn, s: Stream, id: nat)
    requires s.window == FindOrNew(c.streams, s.id).window
    ensures FindOrNew(WithStream(c.streams, s), id).window == FindOrNew(c.streams, id).window
  {
    FoundAfterStoring(c.streams, s, id);
  }

  lemma CompletedWindow(c: Conn, h: FrameHeader, block: seq<byte>, handler: Handler, r: Outcome, id: nat)
    requires AppliesSome(BaseFor(c, h), StreamFor(c, h), block, handler, r)
    ensures WindowOf(r.conn, id) == WindowOf(c, id)
  {
    hide FindOrNew, HasFlag, BlockReads, WithStream, StoreFields, ResponseFrames, ResponseBlock, StateAfterResponse;
    var base, s := BaseFor(c, h), StreamFor(c, h);
    var fields :| BlockReads(c.dec, block, fields) && r == ApplyFields(base, s, fields, handler);
    var s' := s.(request := StoreFields(s.request, fields.list));
    StoredWindow(c, s', id);
    if handler.Some? {
      StoredWindow(c, s'.(state := StateAfterResponse(s'.state, handler.value(s'.request))), id);
    }
  }

  lemma OtherWindow(c: Conn, h: FrameHeader, payload: seq<byte>, id: nat)
    ensures WindowOf(OnData(c, h, payload).conn, id) == WindowOf(c, id)
    ensures WindowOf(OnReset(c, h).conn, id) == WindowOf(c, id)
    ensures WindowOf(OnWindowUpdate(c, h, payload).conn, id)
         == if id == h.stream && |payload| >= 4 then Int32(WindowOf(c, id) + FromBigEndian(payload[..4]))
            else WindowOf(c, id)
  {
    hide FindOrNew, HasFlag, WithStream, HasStream, FromBigEndian, Int32;
    var s := FindOrNew(c.streams, h.stream);
    StoredWindow(c, s.(request := s.request.(body := s.request.body + payload),
                       state := if HasFlag(h.flags, END_STREAM) then HALF_CLOSED_REMOTE else s.state), id);
    StoredWindow(c, s.(state := CLOSED, request := s.request.(body := [])), id);
    if |payload| >= 4 {
      FoundAfterStoring(c.streams, s.(window := Int32(s.window + FromBigEndian(payload[..4]))), id);
    }
  }

  lemma FrameKeepsWindow(c: Conn, f: seq<byte>, handler: Handler, r: Outcome, id: nat)
    requires Possible(c, f, handler, r) && -0x8000_0000 <= WindowOf(c, id) < 0x8000_0000
    ensures WindowOf(r.conn, id) == Int32(WindowOf(c, id) + CreditOf(f, id))
  {
    hide WindowOf, FromBigEndian, ParsedHeader, HasFlag, AppliesSome, EchoesSome, OnData, OnReset, OnWindowUpdate,
         BaseFor, StreamFor, BlockFor, Completes, OnSettings, OnGoaway, OnPing, Continues;
    InRange(WindowOf(c, id));
    if WholeFrame(f) {
      var h, payload := ParsedHeader(f), PayloadOf(f);
      OtherWindow(c, h, payload, id);
      SameWindows(c, h, payload, f[HEADER_SIZE..], id);
      if Completes(c, h) {
        CompletedWindow(c, h, BlockFor(c, h, payload), handler, r, id);
        CompletesIsBlock(c, h);
      } else if h.kind == HEADERS || h.kind == CONTINUATION {
        FragmentWindow(c, h, payload, handler, id);
      } else if h.kind == PING {
        EchoWindow(c, h, r, id);
      }
    }
  }

  lemma InRange(w: int)
    requires -0x8000_0000 <= w < 0x8000_0000
    ensures Int32(w) == w
  {}

  lemma CompletesIsBlock(c: Conn, h: FrameHeader)
    requires Completes(c, h)
    ensures h.kind == HEADERS || h.kind == CONTINUATION
  {}

  lemma FragmentWindow(c: Conn, h: FrameHeader, payload: seq<byte>, handler: Handler, id: nat)
    requires !Completes(c, h)
    ensures h.kind == HEADERS ==> WindowOf(OnHeaders(c, h, payload, handler).conn, id) == WindowOf(c, id)
    ensures h.kind == CONTINUATION ==> WindowOf(OnContinuation(c, h, payload, handler).conn, id) == WindowOf(c, id)
  {
    hide FindOrNew, HasFlag, WithStream;
    StoredWindow(c, OpenedBy(FindOrNew(c.streams, h.stream), h.flags), id);
  }

  lemma SameWindows(c: Conn, h: FrameHeader, payload: seq<byte>, behind: seq<byte>, id: nat)
    ensures WindowOf(OnSettings(c, h, payload).conn, id) == WindowOf(c, id)
    ensures WindowOf(OnGoaway(c, payload).conn, id) == WindowOf(c, id)
    ensures WindowOf(OnPing(c, h, behind).conn, id) == WindowOf(c, id)
  {
    hide FindOrNew;
  }

  lemma EchoWindow(c: Conn, h: FrameHeader, r: Outcome, id: nat)
    ensures EchoesSome(c, h, r) ==> WindowOf(r.conn, id) == WindowOf(c, id)
  {
    hide FindOrNew;
  }

  /** Over any possible run: every window is what it was and all increments received for it, in 32 bits. */
  lemma {:induction false} RunKeepsWindows(c: Conn, frames: seq<seq<byte>>, handler: Handler, c2: Conn,
                                           out: seq<seq<byte>>, id: nat)
    requires PossibleRun(c, frames, handler, c2, out) && -0x8000_0000 <= WindowOf(c, id) < 0x8000_0000
    ensures WindowOf(c2, id) == Int32(WindowOf(c, id) + Increments(frames, id))
    decreases |frames|
  {
    hide Possible, WindowOf, CreditOf, Int32;
    if frames == [] {
      InRange(WindowOf(c, id));
    } else {
      var n := |frames| - 1;
      var mid, before, r :| PossibleStep(c, frames, handler, mid, before, r, c2, out);
      RunKeepsWindows(c, frames[..n], handler, mid, before, id);
      AddedInSteps(WindowOf(c, id) + Increments(frames[..n], id), CreditOf(frames[n], id));
      FrameKeepsWindow(mid, frames[n], handler, r, id);
    }
  }

  // ---------------------------------------------------------------- tables, over every run

  ghost predicate TablesKept(c: Conn) {
    Kept(c.dec) && Kept(c.enc)
  }

  lemma {:induction false} BlockTableKept(t: Table, room: nat, hs: seq<Entry>)
    requires Kept(t) && forall i :: 0 <= i < |hs| ==> Fits(hs[i])
    ensures Kept(EncodedBlock(t, room, hs).table) && EncodedBlock(t, room, hs).table.max == t.max
    decreases |hs|
  {
    hide EncodedHeader, TableAfter, Kept;
    if hs != [] {
      KeptAfter(t, room, hs[0]);
      BlockTableKept(TableAfter(t, room, hs[0]), room - |EncodedHeader(t, room, hs[0])|, hs[1..]);
    }
  }

  lemma ResponseFits(r: Response)
    ensures forall i :: 0 <= i < |FieldsOf(r)| ==> Fits(FieldsOf(r)[i])
  {
    var fields := FieldsOf(r);
    forall i | 0 <= i < |fields|
      ensures Fits(fields[i])
    {
      if i > 0 {
        assert fields[i] == LowerNames(r.headers)[i - 1];
        assert r.headers[i - 1] in r.headers;
      }
    }
  }

  lemma AnsweredKeepsTables(c: Conn, s: Stream, handler: Handler)
    requires TablesKept(c)
    ensures var r := Answered(c, s, handler);
            TablesKept(r.conn) && r.conn.dec == c.dec && r.conn.enc.max == c.enc.max
  {
    hide FieldsOf, EncodedBlock, Kept, WithStream, ResponseFrames, StateAfterResponse;
    if handler.Some? {
      ResponseFits(handler.value(s.request));
      BlockTableKept(c.enc, MAX_FRAME, FieldsOf(handler.value(s.request)));
    }
  }

  lemma LimitedKept(t: Table, max: nat)
    requires Kept(t) && max < INT_LIMIT
    ensures Kept(Limited(t, max))
  {
    EvictedIsWindow(t.entries, max);
  }

  /** Whatever memory holds: entries fit their buffers, sizes their limits, and the decoding limit never changes. */
  lemma FrameKeepsTables(c: Conn, data: seq<byte>, handler: Handler, r: Outcome)
    requires TablesKept(c) && Possible(c, data, handler, r)
    ensures TablesKept(r.conn) && r.conn.dec.max == c.dec.max
  {
    hide ParsedHeader, Kept, Answered, WithStream, FindOrNew, HasFlag, ApplySettings, Limited, StoreFields,
         BlockReads;
    if WholeFrame(data) {
      var h, payload := ParsedHeader(data), PayloadOf(data);
      if Completes(c, h) {
        var base, s := BaseFor(c, h), StreamFor(c, h);
        var fields :| BlockReads(c.dec, BlockFor(c, h, payload), fields) && r == ApplyFields(base, s, fields, handler);
        BlockKeeps(c.dec, BlockFor(c, h, payload), fields);
        AnsweredKeepsTables(base.(dec := fields.table), s.(request := StoreFields(s.request, fields.list)), handler);
      } else if h.kind == SETTINGS {
        LimitedKept(c.enc, AsLimit(ApplySettings(c.remote, payload).headerTableSize));
      }
    }
  }

  lemma {:induction false} RunKeepsTables(c: Conn, frames: seq<seq<byte>>, handler: Handler, c2: Conn,
                                          out: seq<seq<byte>>)
    requires TablesKept(c) && PossibleRun(c, frames, handler, c2, out)
    ensures TablesKept(c2) && c2.dec.max == c.dec.max
    decreases |frames|
  {
    hide Possible, TablesKept;
    if frames != [] {
      var n := |frames| - 1;
      var mid, before, r :| PossibleStep(c, frames, handler, mid, before, r, c2, out);
      RunKeepsTables(c, frames[..n], handler, mid, before);
      FrameKeepsTables(mid, frames[n], handler, r);
    }
  }
}
