/** HTTP/2 connection state as a value, and what sending a response and receiving a frame do to it. */
module H2State {
  import opened Basics
  import opened Bits
  import opened DynamicTable
  import opened StaticTable
  import opened Hpack
  import opened HpackBlock
  import opened OverRead
  import opened Frames

  // ---------------------------------------------------------------- requests, responses, streams

  datatype Method = GET | POST | PUT | DELETE | HEAD | OPTIONS | PATCH | UNKNOWN

  datatype Request = Request(verb: Method, http2: bool, path: seq<byte>, headers: seq<Entry>, body: seq<byte>)

  const MAX_HEADERS: nat := 64
  const MAX_PATH: nat := 4096

  datatype ResponseFields = ResponseFields(status: int, headers: seq<Entry>, body: seq<byte>)

  /** Responses are filled through setters that clip names, values and the number of headers. */
  type Response = r: ResponseFields | |r.headers| <= MAX_HEADERS && forall h :: h in r.headers ==> Storable(h)
    witness ResponseFields(0, [], [])

  datatype State = IDLE | OPEN | HALF_CLOSED_LOCAL | HALF_CLOSED_REMOTE | CLOSED

  datatype Stream = Stream(id: nat, state: State, window: int, request: Request)

  const DEFAULT_WINDOW: int := 65535

  const EmptyRequest: Request := Request(GET, false, [], [], [])

  function NewStream(id: nat): Stream {
    Stream(id, IDLE, DEFAULT_WINDOW, EmptyRequest)
  }

  datatype Settings = Settings(headerTableSize: nat, enablePush: nat, maxConcurrent: nat, initialWindow: nat,
                               maxFrame: nat, maxHeaderList: nat)

  /** A header block still waiting for its last CONTINUATION. */
  datatype Pending = Pending(block: seq<byte>, stream: nat)

  datatype Conn = Conn(
    dec: Table,
    enc: Table,
    remote: Settings,
    streams: seq<Stream>,
    pending: Option<Pending>,
    window: int,
    settingsAcked: bool,
    draining: bool,
    goawayLast: nat)

  /** A freshly initialised connection. Push is disabled on this side for good. */
  const InitialConn: Conn := Conn(
    Table([], 4096), Table([], 4096),
    Settings(4096, 1, 0xFFFF_FFFF, 65535, MAX_FRAME, 0),
    [], None, DEFAULT_WINDOW, false, false, 0)

  // ---------------------------------------------------------------- the list of streams

  predicate HasStream(streams: seq<Stream>, id: nat) {
    exists i :: 0 <= i < |streams| && streams[i].id == id
  }

  /** The first stream with this id, or a new one. */
  function FindOrNew(streams: seq<Stream>, id: nat): (s: Stream)
    ensures s.id == id
  {
    if streams == [] then NewStream(id)
    else if streams[0].id == id then streams[0]
    else FindOrNew(streams[1..], id)
  }

  function Replaced(streams: seq<Stream>, s: Stream): (r: seq<Stream>)
    ensures |r| == |streams|
    ensures forall i :: 0 <= i < |r| ==> r[i].id == streams[i].id
  {
    if streams == [] then []
    else if streams[0].id == s.id then [s] + streams[1..]
    else [streams[0]] + Replaced(streams[1..], s)
  }

  /** Stores s under its id; a new stream goes to the front of the list. */
  function WithStream(streams: seq<Stream>, s: Stream): seq<Stream> {
    if HasStream(streams, s.id) then Replaced(streams, s) else [s] + streams
  }

  // ---------------------------------------------------------------- header blocks

  function ParseMethod(v: seq<byte>): Method {
    if v == Ascii("GET") then GET
    else if v == Ascii("POST") then POST
    else if v == Ascii("PUT") then PUT
    else if v == Ascii("DELETE") then DELETE
    else if v == Ascii("HEAD") then HEAD
    else if v == Ascii("OPTIONS") then OPTIONS
    else if v == Ascii("PATCH") then PATCH
    else UNKNOWN
  }

  const COLON: byte := 58

  predicate IsPseudo(name: seq<byte>) {
    name != [] && name[0] == COLON
  }

  /** One decoded field into the request; pseudo-fields other than method and path are dropped. */
  function StoreField(r: Request, e: Entry): Request {
    if e.name == Ascii(":method") then r.(verb := ParseMethod(e.value))
    else if e.name == Ascii(":path") then r.(path := Clip(e.value, MAX_PATH - 1))
    else if !IsPseudo(e.name) && |r.headers| < MAX_HEADERS then r.(headers := r.headers + [e])
    else r
  }

  function StoreFields(r: Request, es: seq<Entry>): Request
    decreases |es|
  {
    if es == [] then r else StoreFields(StoreField(r, es[0]), es[1..])
  }

  // ---------------------------------------------------------------- sending a response

  function Digits(n: nat): seq<byte> {
    if n < 10 then [48 + n] else Digits(n / 10) + [48 + n % 10]
  }

  /** The status printed in decimal into eight characters. */
  function StatusText(status: int): seq<byte> {
    Clip(if status < 0 then [45] + Digits(-status) else Digits(status), 7)
  }

  function LowerByte(b: byte): byte {
    if 65 <= b <= 90 then b + 32 else b
  }

  function Lower(s: seq<byte>): (r: seq<byte>)
    ensures |r| == |s|
    ensures forall i :: 0 <= i < |s| ==> r[i] == LowerByte(s[i])
  {
    seq(|s|, i requires 0 <= i < |s| => LowerByte(s[i]))
  }

  function LowerNames(es: seq<Entry>): (r: seq<Entry>)
    ensures |r| == |es|
    ensures forall i :: 0 <= i < |es| ==> r[i] == Entry(Lower(es[i].name), es[i].value)
  {
    seq(|es|, i requires 0 <= i < |es| => Entry(Lower(es[i].name), es[i].value))
  }

  function FieldsOf(r: Response): seq<Entry> {
    [Entry(Ascii(":status"), StatusText(r.status))] + LowerNames(r.headers)
  }

  function MaxChunk(remote: Settings): (n: nat)
    ensures 0 < n <= MAX_FRAME
  {
    if 0 < remote.maxFrame < MAX_FRAME then remote.maxFrame else MAX_FRAME
  }

  const END_STREAM: byte := 0x01
  const END_HEADERS: byte := 0x04

  function DataFrames(id: nat, body: seq<byte>, chunk: nat): (frames: seq<seq<byte>>)
    requires chunk > 0
    decreases |body|
  {
    if body == [] then []
    else if |body| <= chunk then [Frame(DATA, END_STREAM, id, body)]
    else [Frame(DATA, 0, id, body[..chunk])] + DataFrames(id, body[chunk..], chunk)
  }

  function ResponseBlock(enc: Table, r: Response): Block {
    EncodedBlock(enc, MAX_FRAME, FieldsOf(r))
  }

  /** HEADERS with the whole block, then the body in DATA frames; the last frame ends the stream. */
  function ResponseFrames(enc: Table, remote: Settings, id: nat, r: Response): seq<seq<byte>> {
    var flags: byte := if r.body == [] then END_HEADERS + END_STREAM else END_HEADERS;
    [Frame(HEADERS, flags, id, ResponseBlock(enc, r).bytes)] + DataFrames(id, r.body, MaxChunk(remote))
  }

  /** The state after everything was written. */
  function StateAfterResponse(state: State, r: Response): State {
    if r.body == [] || state == HALF_CLOSED_REMOTE then CLOSED else HALF_CLOSED_LOCAL
  }

  // ---------------------------------------------------------------- receiving a frame

  type Handler = Option<Request -> Response>

  /** The state afterwards, the frames written meanwhile, and whether the frame was complete. */
  datatype Outcome = Outcome(conn: Conn, out: seq<seq<byte>>, ok: bool)

  /** 32-bit two's complement. */
  function Int32(v: int): int {
    (v + 0x8000_0000) % 0x1_0000_0000 - 0x8000_0000
  }

  /** A limit as the encoder uses it: beyond 31 bits it turns negative, which acts as zero. */
  function AsLimit(v: nat): (n: nat)
    ensures n < INT_LIMIT
  {
    if v < INT_LIMIT then v else 0
  }

  function Setting(s: Settings, id: nat, v: nat): Settings {
    if id == 1 then s.(headerTableSize := v)
    else if id == 2 then s.(enablePush := v)
    else if id == 3 then s.(maxConcurrent := v)
    else if id == 4 then s.(initialWindow := v)
    else if id == 5 then s.(maxFrame := v)
    else if id == 6 then s.(maxHeaderList := v)
    else s
  }

  function ApplySettings(s: Settings, payload: seq<byte>): Settings
    decreases |payload|
  {
    if |payload| < 6 then s
    else ApplySettings(Setting(s, FromBigEndian(payload[..2]), FromBigEndian(payload[2..6])), payload[6..])
  }

  function Limited(t: Table, max: nat): Table {
    Table(Evicted(t.entries, max), max)
  }

  function WindowUpdate(id: nat, increment: nat): seq<byte> {
    Frame(WINDOW_UPDATE, 0, id, BigEndian(increment % 0x8000_0000, 4))
  }

  /** After a complete header block: the handler's answer, if there is a handler. */
  function Answered(c: Conn, s: Stream, handler: Handler): Outcome {
    match handler
    case None => Outcome(c.(streams := WithStream(c.streams, s)), [], true)
    case Some(h) =>
      var r := h(s.request);
      Outcome(c.(streams := WithStream(c.streams, s.(state := StateAfterResponse(s.state, r))),
                 enc := ResponseBlock(c.enc, r).table),
              ResponseFrames(c.enc, c.remote, s.id, r), true)
  }

  /** After a header block that was decoded to these fields. */
  function ApplyFields(c: Conn, s: Stream, fields: Fields, handler: Handler): Outcome {
    Answered(c.(dec := fields.table), s.(request := StoreFields(s.request, fields.list)), handler)
  }

  ghost function ApplyBlock(c: Conn, s: Stream, block: seq<byte>, handler: Handler): Outcome {
    ApplyFields(c, s, DecodedBlock(c.dec, block), handler)
  }

  predicate HasFlag(flags: byte, flag: byte)
    requires flag > 0
  {
    flags / flag % 2 == 1
  }

  function OpenedBy(s: Stream, flags: byte): Stream {
    var state := if s.state == IDLE then OPEN else s.state;
    s.(state := if HasFlag(flags, END_STREAM) then HALF_CLOSED_REMOTE else state,
       request := s.request.(http2 := true))
  }

  function Collected(pending: Option<Pending>, payload: seq<byte>, stream: nat): Option<Pending> {
    Some(Pending((if pending.Some? then pending.value.block else []) + payload, stream))
  }

  ghost function OnHeaders(c: Conn, h: FrameHeader, payload: seq<byte>, handler: Handler): Outcome {
    var s := OpenedBy(FindOrNew(c.streams, h.stream), h.flags);
    if HasFlag(h.flags, END_HEADERS) then ApplyBlock(c, s, payload, handler)
    else
      Outcome(c.(streams := WithStream(c.streams, s), pending := Collected(c.pending, payload, h.stream)), [], true)
  }

  /** A CONTINUATION that belongs to the pending block. */
  predicate Continues(c: Conn, h: FrameHeader) {
    h.stream != 0 && c.pending.Some? && c.pending.value.stream == h.stream
  }

  /** The stream a continued block is for. */
  function Continued(c: Conn, h: FrameHeader): Stream {
    var found := FindOrNew(c.streams, h.stream);
    found.(request := found.request.(http2 := true))
  }

  /** The payload of the CONTINUATION that ends the block is not part of what is decoded. */
  ghost function OnContinuation(c: Conn, h: FrameHeader, payload: seq<byte>, handler: Handler): Outcome {
    if !Continues(c, h) then Outcome(c, [], true)
    else if !HasFlag(h.flags, END_HEADERS) then
      Outcome(c.(pending := Collected(c.pending, payload, h.stream)), [], true)
    else ApplyBlock(c.(pending := None), Continued(c, h), c.pending.value.block, handler)
  }

  function OnData(c: Conn, h: FrameHeader, payload: seq<byte>): Outcome {
    var found := FindOrNew(c.streams, h.stream);
    var s := found.(request := found.request.(body := found.request.body + payload),
                    state := if HasFlag(h.flags, END_STREAM) then HALF_CLOSED_REMOTE else found.state);
    Outcome(c.(streams := WithStream(c.streams, s)), [WindowUpdate(h.stream, |payload|), WindowUpdate(0, |payload|)],
            true)
  }

  function OnWindowUpdate(c: Conn, h: FrameHeader, payload: seq<byte>): Outcome {
    if |payload| < 4 then Outcome(c, [], true)
    else
      var increment := FromBigEndian(payload[..4]);
      if h.stream == 0 then Outcome(c.(window := Int32(c.window + increment)), [], true)
      else
        var s := FindOrNew(c.streams, h.stream);
        Outcome(c.(streams := WithStream(c.streams, s.(window := Int32(s.window + increment)))), [], true)
  }

  function OnSettings(c: Conn, h: FrameHeader, payload: seq<byte>): Outcome {
    if HasFlag(h.flags, 1) then Outcome(c.(settingsAcked := true), [], true)
    else
      var remote := ApplySettings(c.remote, payload);
      Outcome(c.(remote := remote, enc := Limited(c.enc, AsLimit(remote.headerTableSize))),
              [Frame(SETTINGS, 1, 0, [])], true)
  }

  function Echoed(c: Conn, h: FrameHeader, echo: seq<byte>): Outcome {
    Outcome(c, [HeaderBytes(h.(flags := 1)) + echo], true)
  }

  /**
   The eight bytes behind the header come back, whatever the length in the header says. With fewer, the reply holds
   uninitialised bytes; zeros stand for them here.
   */
  function OnPing(c: Conn, h: FrameHeader, behind: seq<byte>): Outcome {
    if HasFlag(h.flags, 1) then Outcome(c, [], true)
    else Echoed(c, h, if |behind| >= 8 then behind[..8] else [0, 0, 0, 0, 0, 0, 0, 0])
  }

  function OnReset(c: Conn, h: FrameHeader): Outcome {
    if HasStream(c.streams, h.stream) then
      var s := FindOrNew(c.streams, h.stream);
      Outcome(c.(streams := WithStream(c.streams, s.(state := CLOSED, request := s.request.(body := [])))), [], true)
    else Outcome(c, [], true)
  }

  function OnGoaway(c: Conn, payload: seq<byte>): Outcome {
    var last := if |payload| >= 8 then FromBigEndian(payload[..4]) else c.goawayLast;
    Outcome(c.(draining := true, goawayLast := last), [], true)
  }

  predicate WholeFrame(data: seq<byte>) {
    |data| >= HEADER_SIZE && ParsedHeader(data).length <= |data| - HEADER_SIZE
  }

  function PayloadOf(data: seq<byte>): seq<byte>
    requires WholeFrame(data)
  {
    data[HEADER_SIZE..HEADER_SIZE + ParsedHeader(data).length]
  }

  /** One frame. */
  ghost function Process(c: Conn, data: seq<byte>, handler: Handler): Outcome {
    if !WholeFrame(data) then Outcome(c, [], false)
    else
      var h, payload := ParsedHeader(data), PayloadOf(data);
      if h.kind == SETTINGS then OnSettings(c, h, payload)
      else if h.kind == HEADERS then OnHeaders(c, h, payload, handler)
      else if h.kind == CONTINUATION then OnContinuation(c, h, payload, handler)
      else if h.kind == DATA then OnData(c, h, payload)
      else if h.kind == WINDOW_UPDATE then OnWindowUpdate(c, h, payload)
      else if h.kind == PING then OnPing(c, h, data[HEADER_SIZE..])
      else if h.kind == RST_STREAM then OnReset(c, h)
      else if h.kind == GOAWAY then OnGoaway(c, payload)
      else Outcome(c, [], true)
  }

  /** Any run of frames. */
  ghost function ProcessAll(c: Conn, frames: seq<seq<byte>>, handler: Handler): Outcome
    decreases |frames|
  {
    if frames == [] then Outcome(c, [], true)
    else
      var first := Process(c, frames[0], handler);
      var rest := ProcessAll(first.conn, frames[1..], handler);
      Outcome(rest.conn, first.out + rest.out, first.ok && rest.ok)
  }

  lemma {:induction false} ProcessAllConcat(c: Conn, a: seq<seq<byte>>, b: seq<seq<byte>>, handler: Handler)
    ensures var first := ProcessAll(c, a, handler);
            var rest := ProcessAll(first.conn, b, handler);
            ProcessAll(c, a + b, handler) == Outcome(rest.conn, first.out + rest.out, first.ok && rest.ok)
    decreases |a|
  {
    hide Process;
    if a == [] {
      assert a + b == b;
    } else {
      ProcessAllConcat(Process(c, a[0], handler).conn, a[1..], b, handler);
      assert (a + b)[1..] == a[1..] + b;
      assert (a + b)[0] == a[0];
    }
  }

  lemma OneFrame(c: Conn, f: seq<byte>, handler: Handler)
    ensures ProcessAll(c, [f], handler) == Process(c, f, handler)
  {
    hide Process;
    var one := [f];
    assert one[1..] == [];
    var first := Process(c, f, handler);
    assert ProcessAll(first.conn, one[1..], handler) == Outcome(first.conn, [], true);
    assert first.out + [] == first.out;
  }

  // ---------------------------------------------------------------- what a refused write may change

  predicate SameButState(s: Stream, t: Stream) {
    s.(state := t.state) == t
  }

  /** The same streams in the same order, but for their states. */
  ghost predicate AlikeStreams(a: seq<Stream>, b: seq<Stream>) {
    |a| == |b| && forall i :: 0 <= i < |a| ==> SameButState(a[i], b[i])
  }

  /** The same connection, but for the states of its streams. */
  ghost predicate Alike(a: Conn, b: Conn) {
    a.(streams := b.streams) == b && AlikeStreams(a.streams, b.streams)
  }

  // ---------------------------------------------------------------- what the bytes received do not determine

  /** The frame completes a header block. */
  predicate Completes(c: Conn, h: FrameHeader) {
    HasFlag(h.flags, END_HEADERS) && (h.kind == HEADERS || (h.kind == CONTINUATION && Continues(c, h)))
  }

  /** The block, the stream it is for, and the connection without it. */
  function BlockFor(c: Conn, h: FrameHeader, payload: seq<byte>): seq<byte> {
    if h.kind == HEADERS || c.pending.None? then payload else c.pending.value.block
  }

  function StreamFor(c: Conn, h: FrameHeader): (s: Stream)
    ensures s.id == h.stream
  {
    if h.kind == HEADERS then OpenedBy(FindOrNew(c.streams, h.stream), h.flags) else Continued(c, h)
  }

  function BaseFor(c: Conn, h: FrameHeader): Conn {
    if h.kind == HEADERS then c else c.(pending := None)
  }

  /** The frame completes a header block whose fields depend on what lies behind it. */
  ghost predicate OverRuns(c: Conn, h: FrameHeader, payload: seq<byte>) {
    Completes(c, h) && OverReads(c.dec, BlockFor(c, h, payload))
  }

  /** A PING request with fewer than eight bytes behind its header. */
  predicate ShortPing(h: FrameHeader, behind: seq<byte>) {
    h.kind == PING && !HasFlag(h.flags, 1) && |behind| < 8
  }

  /** What happens is a function of the state and the frame: no over-read, no uninitialised reply. */
  ghost predicate Defined(c: Conn, data: seq<byte>) {
    WholeFrame(data) ==>
      !OverRuns(c, ParsedHeader(data), PayloadOf(data)) && !ShortPing(ParsedHeader(data), data[HEADER_SIZE..])
  }

  /** The effect of fields that decoding the block may give. */
  ghost predicate AppliesSome(c: Conn, s: Stream, block: seq<byte>, handler: Handler, r: Outcome) {
    exists fields :: BlockReads(c.dec, block, fields) && r == ApplyFields(c, s, fields, handler)
  }

  ghost predicate EchoesSome(c: Conn, h: FrameHeader, r: Outcome) {
    exists echo :: |echo| == 8 && r == Echoed(c, h, echo)
  }

  /** Every outcome of a frame: header blocks are read with any bytes behind them, short PINGs echo any bytes. */
  ghost predicate Possible(c: Conn, data: seq<byte>, handler: Handler, r: Outcome) {
    if !WholeFrame(data) then r == Process(c, data, handler)
    else
      var h, payload := ParsedHeader(data), PayloadOf(data);
      if Completes(c, h) then AppliesSome(BaseFor(c, h), StreamFor(c, h), BlockFor(c, h, payload), handler, r)
      else if ShortPing(h, data[HEADER_SIZE..]) then EchoesSome(c, h, r)
      else r == Process(c, data, handler)
  }

  /** Some run over the frames leads from c to c2 and writes out. */
  ghost predicate PossibleRun(c: Conn, frames: seq<seq<byte>>, handler: Handler, c2: Conn, out: seq<seq<byte>>)
    decreases |frames|
  {
    if frames == [] then c2 == c && out == []
    else exists mid, before, r :: PossibleStep(c, frames, handler, mid, before, r, c2, out)
  }

  ghost predicate PossibleStep(c: Conn, frames: seq<seq<byte>>, handler: Handler, mid: Conn, before: seq<seq<byte>>,
                               r: Outcome, c2: Conn, out: seq<seq<byte>>)
    requires frames != []
    decreases |frames|, 0
  {
    var n := |frames| - 1;
    && PossibleRun(c, frames[..n], handler, mid, before) && Possible(mid, frames[n], handler, r)
    && c2 == r.conn && out == before + r.out
  }

  ghost predicate AllDefined(c: Conn, frames: seq<seq<byte>>, handler: Handler)
    decreases |frames|
  {
    frames == [] ||
    var n := |frames| - 1;
    AllDefined(c, frames[..n], handler) && Defined(ProcessAll(c, frames[..n], handler).conn, frames[n])
  }

  lemma LastFrame(c: Conn, frames: seq<seq<byte>>, f: seq<byte>, handler: Handler)
    ensures var r := ProcessAll(c, frames, handler);
            var next := Process(r.conn, f, handler);
            ProcessAll(c, frames + [f], handler) == Outcome(next.conn, r.out + next.out, r.ok && next.ok)
  {
    hide Process, ProcessAll;
    ProcessAllConcat(c, frames, [f], handler);
    OneFrame(ProcessAll(c, frames, handler).conn, f, handler);
  }

  lemma CompletedBlock(c: Conn, data: seq<byte>, handler: Handler)
    requires WholeFrame(data) && Completes(c, ParsedHeader(data))
    ensures var h, payload := ParsedHeader(data), PayloadOf(data);
            Process(c, data, handler) == ApplyBlock(BaseFor(c, h), StreamFor(c, h), BlockFor(c, h, payload), handler)
  {
    hide ParsedHeader, HasFlag, ApplyBlock, OpenedBy, FindOrNew;
  }

  /** Where the bytes received determine the outcome, it is the specified one. */
  lemma DefinedIsFunction(c: Conn, data: seq<byte>, handler: Handler, r: Outcome)
    requires Defined(c, data)
    ensures Possible(c, data, handler, r) <==> r == Process(c, data, handler)
  {
    hide Process, ApplyFields, Continued, OpenedBy, FindOrNew, ParsedHeader, HasFlag, BlockReads, OverReads;
    if WholeFrame(data) && Completes(c, ParsedHeader(data)) {
      var h, payload := ParsedHeader(data), PayloadOf(data);
      CompletedBlock(c, data, handler);
      forall fields
        ensures BlockReads(c.dec, BlockFor(c, h, payload), fields)
           <==> fields == DecodedBlock(c.dec, BlockFor(c, h, payload))
      {
        BlockIsRead(c.dec, BlockFor(c, h, payload), fields);
      }
    }
  }

  /** When every frame is defined, the run is a function of the frames. */
  lemma {:induction false} DefinedRunIsFunction(c: Conn, frames: seq<seq<byte>>, handler: Handler, c2: Conn,
                                                out: seq<seq<byte>>)
    requires AllDefined(c, frames, handler) && PossibleRun(c, frames, handler, c2, out)
    ensures c2 == ProcessAll(c, frames, handler).conn && out == ProcessAll(c, frames, handler).out
    decreases |frames|
  {
    hide Process, Possible, Defined;
    if frames != [] {
      hide ProcessAll;
      var n := |frames| - 1;
      var mid, before, r :| PossibleStep(c, frames, handler, mid, before, r, c2, out);
      DefinedRunIsFunction(c, frames[..n], handler, mid, before);
      DefinedIsFunction(mid, frames[n], handler, r);
      LastFrame(c, frames[..n], frames[n], handler);
      assert frames == frames[..n] + [frames[n]];
    }
  }

  /** And there is that run. */
  lemma {:induction false} DefinedRunExists(c: Conn, frames: seq<seq<byte>>, handler: Handler)
    requires AllDefined(c, frames, handler)
    ensures PossibleRun(c, frames, handler, ProcessAll(c, frames, handler).conn, ProcessAll(c, frames, handler).out)
    decreases |frames|
  {
    hide Process, Possible, Defined;
    if frames != [] {
      hide ProcessAll, PossibleRun;
      var n := |frames| - 1;
      DefinedRunExists(c, frames[..n], handler);
      assert frames == frames[..n] + [frames[n]];
      OneMoreDefined(c, frames[..n], frames[n], handler);
    }
  }

  lemma OneMoreDefined(c: Conn, frames: seq<seq<byte>>, f: seq<byte>, handler: Handler)
    requires var r := ProcessAll(c, frames, handler);
             PossibleRun(c, frames, handler, r.conn, r.out) && Defined(r.conn, f)
    ensures var r := ProcessAll(c, frames + [f], handler);
            PossibleRun(c, frames + [f], handler, r.conn, r.out)
  {
    hide Process, Possible, Defined, ProcessAll, PossibleRun;
    var first := ProcessAll(c, frames, handler);
    var next := Process(first.conn, f, handler);
    DefinedIsFunction(first.conn, f, handler, next);
    NextPossible(c, frames, handler, first.conn, first.out, f, next);
    LastFrame(c, frames, f, handler);
  }

  /** Any run can go on with any possible outcome of the next frame. */
  lemma NextPossible(c: Conn, frames: seq<seq<byte>>, handler: Handler, mid: Conn, before: seq<seq<byte>>,
                     f: seq<byte>, r: Outcome)
    requires PossibleRun(c, frames, handler, mid, before) && Possible(mid, f, handler, r)
    ensures PossibleRun(c, frames + [f], handler, r.conn, before + r.out)
  {
    hide Possible;
    var all := frames + [f];
    assert all[..|all| - 1] == frames && all[|all| - 1] == f;
    assert PossibleStep(c, all, handler, mid, before, r, r.conn, before + r.out);
  }

  lemma {:induction false} AllDefinedConcat(c: Conn, a: seq<seq<byte>>, b: seq<seq<byte>>, handler: Handler)
    ensures AllDefined(c, a + b, handler)
       <==> AllDefined(c, a, handler) && AllDefined(ProcessAll(c, a, handler).conn, b, handler)
    decreases |b|
  {
    hide Process, ProcessAll, Defined;
    if b == [] {
      assert a + b == a;
    } else {
      var n := |b| - 1;
      var all := a + b;
      assert all[..|all| - 1] == a + b[..n] && all[|all| - 1] == b[n];
      AllDefinedConcat(c, a, b[..n], handler);
      ProcessAllConcat(c, a, b[..n], handler);
    }
  }

  lemma OneDefined(c: Conn, f: seq<byte>, handler: Handler)
    ensures AllDefined(c, [f], handler) <==> Defined(c, f)
  {
    hide Process, Defined;
    assert [f][..0] == [];
    assert ProcessAll(c, [], handler).conn == c;
  }
}
