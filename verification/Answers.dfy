/** A whole connection: every answer of the handler arrives at a peer that reads all that this side writes. */
module Answers {
  import opened Basics
  import opened Bits
  import opened DynamicTable
  import opened HpackRoundTrip
  import opened HpackBlock
  import opened WiderTable
  import opened Frames
  import opened H2State
  import opened StreamList
  import opened SettingsPairs
  import opened EndToEnd

  // ---------------------------------------------------------------- what is answered

  /** A response of the handler, the stream it answers, and the table it was encoded with. */
  datatype Answer = Answer(id: nat, response: Response, enc: Table)

  /** r is a possible outcome of the frame, and due the answer it owes: one when it completes a header block. */
  ghost predicate Owes(c: Conn, f: seq<byte>, handler: Request -> Response, r: Outcome, due: seq<Answer>) {
    if WholeFrame(f) && Completes(c, ParsedHeader(f)) then
      exists fields :: OwesFor(c, ParsedHeader(f), PayloadOf(f), handler, fields, r, due)
    else Possible(c, f, Some(handler), r) && due == []
  }

  /** The answer to the request as it stands with these fields. */
  ghost predicate OwesFor(c: Conn, h: FrameHeader, payload: seq<byte>, handler: Request -> Response, fields: Fields,
                          r: Outcome, due: seq<Answer>) {
    && BlockReads(c.dec, BlockFor(c, h, payload), fields)
    && r == ApplyFields(BaseFor(c, h), StreamFor(c, h), fields, Some(handler))
    && due == [Answer(h.stream, handler(StoreFields(StreamFor(c, h).request, fields.list)), c.enc)]
  }

  /** The table size that a frame of settings puts in force for encoding: the last one sent, or the one before. */
  function NewLimits(c: Conn, f: seq<byte>): seq<nat> {
    if WholeFrame(f) && ParsedHeader(f).kind == SETTINGS && !HasFlag(ParsedHeader(f).flags, 1) then
      [AsLimit(LastFor(PairsIn(PayloadOf(f)), 1, c.remote.headerTableSize))]
    else []
  }

  /** Where a run leads, what it writes, the answers it owes and the table sizes it puts in force. */
  datatype Run = Run(conn: Conn, out: seq<seq<byte>>, due: seq<Answer>, limits: seq<nat>)

  /** A possible run over the frames, with its answers on record. */
  ghost predicate Serves(c: Conn, frames: seq<seq<byte>>, handler: Request -> Response, run: Run)
    decreases |frames|
  {
    if frames == [] then run == Run(c, [], [], [])
    else exists before, r, due :: ServesNext(c, frames, handler, before, r, due, run)
  }

  ghost predicate ServesNext(c: Conn, frames: seq<seq<byte>>, handler: Request -> Response, before: Run, r: Outcome,
                             due: seq<Answer>, run: Run)
    requires frames != []
    decreases |frames|, 0
  {
    var n := |frames| - 1;
    && Serves(c, frames[..n], handler, before) && Owes(before.conn, frames[n], handler, r, due)
    && run == Run(r.conn, before.out + r.out, before.due + due, before.limits + NewLimits(before.conn, frames[n]))
  }

  lemma OwesIsPossible(c: Conn, f: seq<byte>, handler: Request -> Response, r: Outcome)
    ensures Possible(c, f, Some(handler), r) <==> exists due :: Owes(c, f, handler, r, due)
  {
    hide ParsedHeader, Completes, BlockReads, ApplyFields, StoreFields, BlockFor, StreamFor;
    if WholeFrame(f) && Completes(c, ParsedHeader(f)) {
      var h, payload := ParsedHeader(f), PayloadOf(f);
      if Possible(c, f, Some(handler), r) {
        var fields :| BlockReads(c.dec, BlockFor(c, h, payload), fields)
                      && r == ApplyFields(BaseFor(c, h), StreamFor(c, h), fields, Some(handler));
        var due := [Answer(h.stream, handler(StoreFields(StreamFor(c, h).request, fields.list)), c.enc)];
        assert OwesFor(c, h, payload, handler, fields, r, due);
        assert Owes(c, f, handler, r, due);
      }
    } else if Possible(c, f, Some(handler), r) {
      assert Owes(c, f, handler, r, []);
    }
  }

  /** Every possible run can be put on record. */
  lemma {:induction false} RunServes(c: Conn, frames: seq<seq<byte>>, handler: Request -> Response, c2: Conn,
                                     out: seq<seq<byte>>) returns (run: Run)
    requires PossibleRun(c, frames, Some(handler), c2, out)
    ensures Serves(c, frames, handler, run) && run.conn == c2 && run.out == out
    decreases |frames|
  {
    hide Owes, Possible, NewLimits;
    run := Run(c, [], [], []);
    if frames != [] {
      var n := |frames| - 1;
      var mid, earlier, r :| PossibleStep(c, frames, Some(handler), mid, earlier, r, c2, out);
      var before := RunServes(c, frames[..n], handler, mid, earlier);
      OwesIsPossible(mid, frames[n], handler, r);
      var due :| Owes(mid, frames[n], handler, r, due);
      run := Run(c2, out, before.due + due, before.limits + NewLimits(mid, frames[n]));
      assert ServesNext(c, frames, handler, before, r, due, run);
    }
  }

  /** And nothing else is on record. */
  lemma {:induction false} ServesIsRun(c: Conn, frames: seq<seq<byte>>, handler: Request -> Response, run: Run)
    requires Serves(c, frames, handler, run)
    ensures PossibleRun(c, frames, Some(handler), run.conn, run.out)
    decreases |frames|
  {
    hide Owes, Possible, NewLimits;
    if frames != [] {
      var n := |frames| - 1;
      var before, r, due :| ServesNext(c, frames, handler, before, r, due, run);
      ServesIsRun(c, frames[..n], handler, before);
      OwesIsPossible(before.conn, frames[n], handler, r);
      assert PossibleStep(c, frames, Some(handler), before.conn, before.out, r, run.conn, run.out);
    }
  }

  // ---------------------------------------------------------------- what a peer holds

  predicate SameButWindow(s: Stream, t: Stream) {
    s.(window := t.window) == t
  }

  /** What p holds of a stream, but for its window, is s. */
  ghost predicate Holds(p: Conn, s: Stream) {
    SameButWindow(FindOrNew(p.streams, s.id), s)
  }

  /** From p to q, nothing changed but windows and the streams of the given ids. */
  ghost predicate OthersKept(p: Conn, q: Conn, ids: set<nat>) {
    forall id :: id !in ids ==> SameButWindow(FindOrNew(p.streams, id), FindOrNew(q.streams, id))
  }

  lemma KeptTwice(p: Conn, q: Conn, r: Conn, ids: set<nat>, more: set<nat>)
    requires OthersKept(p, q, ids) && OthersKept(q, r, more)
    ensures OthersKept(p, r, ids + more)
  {
    hide FindOrNew;
  }

  lemma StoringKeepsOthers(p: Conn, q: Conn, s: Stream)
    requires q.streams == WithStream(p.streams, s)
    ensures FindOrNew(q.streams, s.id) == s && OthersKept(p, q, {s.id})
  {
    hide WithStream, FindOrNew;
    forall id: nat
      ensures FindOrNew(q.streams, id) == if id == s.id then s else FindOrNew(p.streams, id)
    {
      FoundAfterStoring(p.streams, s, id);
    }
  }

  // ---------------------------------------------------------------- a response, seen by the peer

  /** HEADERS on a stream of which p knows at most a window. */
  lemma HeadersSeen(p: Conn, id: nat, block: seq<byte>, last: bool)
    requires Holds(p, NewStream(id)) && |block| <= MAX_FRAME && id < 0x8000_0000
    ensures var flags: byte := if last then END_HEADERS + END_STREAM else END_HEADERS;
            var fields := DecodedBlock(p.dec, block);
            var s := Stream(id, if last then HALF_CLOSED_REMOTE else OPEN, DEFAULT_WINDOW,
                            StoreFields(EmptyRequest.(http2 := true), fields.list));
            var r := Process(p, Frame(HEADERS, flags, id, block), None);
            r.conn.dec == fields.table && Holds(r.conn, s) && OthersKept(p, r.conn, {id})
    ensures var flags: byte := if last then END_HEADERS + END_STREAM else END_HEADERS;
            !OverReads(p.dec, block) ==> Defined(p, Frame(HEADERS, flags, id, block))
  {
    hide Process, DecodedBlock, StoreFields, FindOrNew, WithStream, Frame, OpenedBy, HasFlag, OthersKept;
    var flags: byte := if last then END_HEADERS + END_STREAM else END_HEADERS;
    HeadersProcessed(p, flags, id, block, None);
    HeadersDefined(p, flags, id, block);
    OpenedNew(id, last);
    var found := FindOrNew(p.streams, id);
    OpenedAlike(found, NewStream(id), flags);
    var s := OpenedBy(found, flags);
    var r := Process(p, Frame(HEADERS, flags, id, block), None);
    StoringKeepsOthers(p, r.conn, s.(request := StoreFields(s.request, DecodedBlock(p.dec, block).list)));
  }

  lemma OpenedAlike(s: Stream, t: Stream, flags: byte)
    requires SameButWindow(s, t)
    ensures SameButWindow(OpenedBy(s, flags), OpenedBy(t, flags))
  {}

  lemma DataSeen(p: Conn, s: Stream, payload: seq<byte>, last: bool)
    requires Holds(p, s) && |payload| <= MAX_FRAME && s.id < 0x8000_0000
    ensures var f := Frame(DATA, if last then END_STREAM else 0, s.id, payload);
            var r := Process(p, f, None);
            && r.conn.dec == p.dec && Defined(p, f) && OthersKept(p, r.conn, {s.id})
            && Holds(r.conn, s.(request := s.request.(body := s.request.body + payload),
                                state := if last then HALF_CLOSED_REMOTE else s.state))
  {
    hide FindOrNew, WithStream, Frame, ParsedHeader, PayloadOf, WholeFrame, OnSettings, OnContinuation, OnPing,
         OnHeaders, OthersKept;
    FrameIsWhole(DATA, if last then END_STREAM else 0, s.id, payload);
    var r := Process(p, Frame(DATA, if last then END_STREAM else 0, s.id, payload), None);
    var found := FindOrNew(p.streams, s.id);
    StoringKeepsOthers(p, r.conn, found.(request := found.request.(body := found.request.body + payload),
                                         state := if last then HALF_CLOSED_REMOTE else found.state));
  }

  lemma {:induction false} BodySeen(p: Conn, s: Stream, body: seq<byte>, chunk: nat)
    requires Holds(p, s) && 0 < chunk <= MAX_FRAME && s.id < 0x8000_0000 && body != []
    ensures var r := ProcessAll(p, DataFrames(s.id, body, chunk), None);
            && r.conn.dec == p.dec && OthersKept(p, r.conn, {s.id})
            && Holds(r.conn, s.(request := s.request.(body := s.request.body + body), state := HALF_CLOSED_REMOTE))
    ensures AllDefined(p, DataFrames(s.id, body, chunk), None)
    decreases |body|
  {
    hide Process, Frame, Defined, AllDefined, Holds, OthersKept;
    var frames := DataFrames(s.id, body, chunk);
    if |body| <= chunk {
      DataSeen(p, s, body, true);
      OneDefined(p, frames[0], None);
      OneFrame(p, frames[0], None);
    } else {
      DataSeen(p, s, body[..chunk], false);
      var p1 := Process(p, frames[0], None).conn;
      var s1 := s.(request := s.request.(body := s.request.body + body[..chunk]));
      BodySeen(p1, s1, body[chunk..], chunk);
      assert s.request.body + body[..chunk] + body[chunk..] == s.request.body + body by {
        assert body == body[..chunk] + body[chunk..];
      }
      assert frames[1..] == DataFrames(s.id, body[chunk..], chunk);
      FirstDefined(p, frames, None);
      KeptTwice(p, p1, ProcessAll(p1, frames[1..], None).conn, {s.id}, {s.id});
      assert {s.id} + {s.id} == {s.id};
    }
  }

  /** One response from an encoder whose table p covers, on a stream of which p knows at most a window. */
  lemma ResponseSeen(p: Conn, enc: Table, remote: Settings, a: Answer)
    requires Kept(enc) && Covers(p.dec, enc) && AllFaithful(enc, MAX_FRAME, FieldsOf(a.response))
    requires Holds(p, NewStream(a.id)) && a.id < 0x8000_0000
    ensures var r := ProcessAll(p, ResponseFrames(enc, remote, a.id, a.response), None);
            && Covers(r.conn.dec, ResponseBlock(enc, a.response).table) && r.conn.dec.max == p.dec.max
            && Holds(r.conn, Rebuilt(a.id, a.response)) && OthersKept(p, r.conn, {a.id})
    ensures AllDefined(p, ResponseFrames(enc, remote, a.id, a.response), None)
    ensures Kept(ResponseBlock(enc, a.response).table)
  {
    hide Defined, AllDefined, Process, FieldsOf, AllFaithful, EncodedBlock, Frame, StoreFields, DecodedBlock, Covers,
         Kept, OthersKept, Holds;
    var id, r := a.id, a.response;
    var block := ResponseBlock(enc, r);
    WiderBlock(p.dec, enc, MAX_FRAME, FieldsOf(r));
    BlockRoundTrip(enc, MAX_FRAME, FieldsOf(r));
    HeadersSeen(p, id, block.bytes, r.body == []);
    StoreKeepsBody(EmptyRequest.(http2 := true), FieldsOf(r));
    var s := Rebuilt(id, r).(state := if r.body == [] then HALF_CLOSED_REMOTE else OPEN);
    var s0 := s.(request := s.request.(body := []));
    var frames := ResponseFrames(enc, remote, id, r);
    var p1 := Process(p, frames[0], None).conn;
    assert Holds(p1, s0);
    assert frames[1..] == DataFrames(id, r.body, MaxChunk(remote));
    FirstDefined(p, frames, None);
    if r.body == [] {
      NothingUndefined(p1);
      assert frames == [frames[0]];
      OneFrame(p, frames[0], None);
      assert s0 == Rebuilt(id, r);
    } else {
      BodySeen(p1, s0, r.body, MaxChunk(remote));
      assert [] + r.body == r.body;
      KeptTwice(p, p1, ProcessAll(p1, frames[1..], None).conn, {id}, {id});
      assert {id} + {id} == {id};
    }
  }

  // ---------------------------------------------------------------- everything else, seen by the peer

  /** Whoever receives the frame changes nothing but windows and flags. */
  ghost predicate Harmless(f: seq<byte>) {
    forall p: Conn :: OnlyWindows(p, f)
  }

  ghost predicate OnlyWindows(p: Conn, f: seq<byte>) {
    var r := Process(p, f, None);
    Defined(p, f) && r.conn.dec == p.dec && OthersKept(p, r.conn, {})
  }

  lemma SameStreamsKept(p: Conn, q: Conn)
    requires q.streams == p.streams
    ensures OthersKept(p, q, {})
  {
    hide FindOrNew;
  }

  lemma CreditSeen(p: Conn, id: nat, payload: seq<byte>)
    requires id < 0x8000_0000 && |payload| == 4
    ensures OnlyWindows(p, Frame(WINDOW_UPDATE, 0, id, payload))
  {
    hide FindOrNew, WithStream, Frame, ParsedHeader, PayloadOf, WholeFrame, FromBigEndian, Int32, OnHeaders,
         OnContinuation, OnSettings, OnPing, OthersKept;
    var f := Frame(WINDOW_UPDATE, 0, id, payload);
    FrameIsWhole(WINDOW_UPDATE, 0, id, payload);
    assert Process(p, f, None) == OnWindowUpdate(p, ParsedHeader(f), payload) && Defined(p, f);
    var q := Process(p, f, None).conn;
    if id == 0 {
      SameStreamsKept(p, q);
    } else {
      var s := FindOrNew(p.streams, id);
      var s' := s.(window := Int32(s.window + FromBigEndian(payload[..4])));
      StoringKeepsOthers(p, q, s');
      WindowKept(p, q, s');
    }
  }

  lemma CreditIsHarmless(id: nat, n: nat)
    requires id < 0x8000_0000
    ensures Harmless(WindowUpdate(id, n))
  {
    hide OnlyWindows, Frame, BigEndian;
    forall p: Conn
      ensures OnlyWindows(p, WindowUpdate(id, n))
    {
      CreditSeen(p, id, BigEndian(n % 0x8000_0000, 4));
    }
  }

  lemma WindowKept(p: Conn, q: Conn, s: Stream)
    requires FindOrNew(q.streams, s.id) == s && OthersKept(p, q, {s.id})
    requires SameButWindow(FindOrNew(p.streams, s.id), s)
    ensures OthersKept(p, q, {})
  {
    hide FindOrNew;
  }

  lemma AckIsHarmless()
    ensures Harmless(Frame(SETTINGS, 1, 0, []))
  {
    hide Frame, ParsedHeader, PayloadOf, WholeFrame, OnHeaders, OnContinuation, OthersKept;
    var f := Frame(SETTINGS, 1, 0, []);
    FrameIsWhole(SETTINGS, 1, 0, []);
    forall p: Conn
      ensures OnlyWindows(p, f)
    {
      SameStreamsKept(p, Process(p, f, None).conn);
    }
  }

  /** The reply to a PING, even when its length field does not agree with its eight bytes. */
  lemma ReplyIsHarmless(h: FrameHeader, echo: seq<byte>)
    requires h.kind == PING && h.length < 0x100_0000 && |echo| == 8
    ensures Harmless(HeaderBytes(h.(flags := 1)) + echo)
  {
    hide HeaderBytes, ParsedHeader, PayloadOf, OnHeaders, OnContinuation, OthersKept;
    var f := HeaderBytes(h.(flags := 1)) + echo;
    HeaderRoundTrip(h.(flags := 1), echo);
    forall p: Conn
      ensures OnlyWindows(p, f)
    {
      SameStreamsKept(p, Process(p, f, None).conn);
    }
  }

  lemma {:induction false} HarmlessRun(p: Conn, frames: seq<seq<byte>>)
    requires forall f :: f in frames ==> Harmless(f)
    ensures var r := ProcessAll(p, frames, None);
            r.conn.dec == p.dec && OthersKept(p, r.conn, {})
    ensures AllDefined(p, frames, None)
    decreases |frames|
  {
    hide Process, Defined, OthersKept, AllDefined;
    if frames == [] {
      SameStreamsKept(p, p);
      NothingUndefined(p);
    } else {
      var p1 := Process(p, frames[0], None).conn;
      assert Harmless(frames[0]) && OnlyWindows(p, frames[0]);
      HarmlessRun(p1, frames[1..]);
      FirstDefined(p, frames, None);
      var none: set<nat> := {};
      KeptTwice(p, p1, ProcessAll(p1, frames[1..], None).conn, none, none);
      assert none + none == none;
    }
  }

  // ---------------------------------------------------------------- one frame of the run

  lemma HeaderWidths(f: seq<byte>)
    requires |f| >= HEADER_SIZE
    ensures ParsedHeader(f).stream < 0x8000_0000 && ParsedHeader(f).length < 0x100_0000
  {
    var s := f[..3];
    assert FromBigEndian(s) == 256 * FromBigEndian(s[..2]) + s[2];
    assert s[..2][..1] == s[..1] && s[..1][..0] == [];
    assert FromBigEndian(s[..2]) == 256 * FromBigEndian(s[..1]) + s[1];
    assert FromBigEndian(s[..1]) == 256 * FromBigEndian([]) + s[0];
  }

  /** What is owed is written, with the table it says. */
  lemma OwedIsWritten(c: Conn, f: seq<byte>, handler: Request -> Response, r: Outcome, due: seq<Answer>)
    requires Owes(c, f, handler, r, due) && due != []
    ensures |due| == 1 && due[0].enc == c.enc && due[0].id < 0x8000_0000
    ensures r.out == ResponseFrames(c.enc, c.remote, due[0].id, due[0].response)
    ensures r.conn.enc == ResponseBlock(c.enc, due[0].response).table && NewLimits(c, f) == []
  {
    hide ParsedHeader, StoreFields, BlockReads, ResponseFrames, ResponseBlock, WithStream, HasFlag, StreamFor;
    HeaderWidths(f);
  }

  lemma OtherFrame(c: Conn, f: seq<byte>, handler: Request -> Response, r: Outcome)
    requires Owes(c, f, handler, r, [])
    ensures forall g :: g in r.out ==> Harmless(g)
    ensures r.conn.enc == c.enc || (NewLimits(c, f) != [] && NewLimits(c, f)[0] < INT_LIMIT
                                    && r.conn.enc == Limited(c.enc, NewLimits(c, f)[0]))
  {
    hide ParsedHeader, FindOrNew, WithStream, OpenedBy, HasFlag, Harmless, ApplySettings, WindowUpdate, Frame,
         HeaderBytes, Limited;
    if WholeFrame(f) {
      var h, payload := ParsedHeader(f), PayloadOf(f);
      HeaderWidths(f);
      AckIsHarmless();
      CreditIsHarmless(h.stream, |payload|);
      CreditIsHarmless(0, |payload|);
      if h.kind == SETTINGS && !HasFlag(h.flags, 1) {
        LimitFollowsPairs(c, h, payload);
      } else if h.kind == PING {
        PingIsHarmless(c, f, handler, r);
      }
    }
  }

  lemma PingIsHarmless(c: Conn, f: seq<byte>, handler: Request -> Response, r: Outcome)
    requires WholeFrame(f) && ParsedHeader(f).kind == PING && Possible(c, f, Some(handler), r)
    ensures r.conn.enc == c.enc && forall g :: g in r.out ==> Harmless(g)
  {
    hide ParsedHeader, HasFlag, Harmless, HeaderBytes;
    var h, behind := ParsedHeader(f), f[HEADER_SIZE..];
    HeaderWidths(f);
    if ShortPing(h, behind) {
      var echo :| |echo| == 8 && r == Echoed(c, h, echo);
      ReplyIsHarmless(h, echo);
    } else if |behind| >= 8 {
      ReplyIsHarmless(h, behind[..8]);
    }
  }

  // ---------------------------------------------------------------- the whole run

  function Ids(due: seq<Answer>): set<nat> {
    set i | 0 <= i < |due| :: due[i].id
  }

  /** Pairwise different streams, of each of which p knows at most a window. */
  ghost predicate Untouched(p: Conn, due: seq<Answer>) {
    && (forall i :: 0 <= i < |due| ==> Holds(p, NewStream(due[i].id)))
    && (forall i, j :: 0 <= i < j < |due| ==> due[i].id != due[j].id)
  }

  /** Every response is there, whole, and no other stream changed. */
  ghost predicate Received(p: Conn, q: Conn, due: seq<Answer>) {
    && (forall i :: 0 <= i < |due| ==> Holds(q, Rebuilt(due[i].id, due[i].response)))
    && OthersKept(p, q, Ids(due))
  }

  /** Every answer survives the decoder that reads it. */
  ghost predicate AllSurvive(due: seq<Answer>) {
    forall i :: 0 <= i < |due| ==> AllFaithful(due[i].enc, MAX_FRAME, FieldsOf(due[i].response))
  }

  ghost predicate Within(limits: seq<nat>, max: nat) {
    forall i :: 0 <= i < |limits| ==> limits[i] <= max
  }

  lemma UntouchedFront(p: Conn, a: seq<Answer>, b: seq<Answer>)
    requires Untouched(p, a + b)
    ensures Untouched(p, a)
  {
    assert forall i :: 0 <= i < |a| ==> (a + b)[i] == a[i];
  }

  /** The stream of the next answer is still untouched. */
  lemma UntouchedNext(p: Conn, q: Conn, before: seq<Answer>, a: Answer)
    requires Untouched(p, before + [a]) && OthersKept(p, q, Ids(before))
    ensures Holds(q, NewStream(a.id)) && a.id !in Ids(before)
  {
    hide FindOrNew;
    var all := before + [a];
    assert all[|before|] == a;
    forall i | 0 <= i < |before|
      ensures before[i].id != a.id
    {
      assert all[i] == before[i];
    }
    assert Holds(p, NewStream(all[|before|].id));
  }

  lemma IdsSnoc(before: seq<Answer>, a: Answer)
    ensures Ids(before + [a]) == Ids(before) + {a.id}
  {
    var all := before + [a];
    forall id | id in Ids(before) + {a.id}
      ensures id in Ids(all)
    {
      if id == a.id {
        assert all[|before|].id == id;
      } else {
        var i :| 0 <= i < |before| && before[i].id == id;
        assert all[i].id == id;
      }
    }
    forall id | id in Ids(all)
      ensures id in Ids(before) + {a.id}
    {
      var i :| 0 <= i < |all| && all[i].id == id;
      assert i < |before| ==> before[i].id == id;
    }
  }

  lemma ReceivedNext(p: Conn, q: Conn, q2: Conn, before: seq<Answer>, a: Answer)
    requires Received(p, q, before) && a.id !in Ids(before)
    requires Holds(q2, Rebuilt(a.id, a.response)) && OthersKept(q, q2, {a.id})
    ensures Received(p, q2, before + [a])
  {
    hide FindOrNew, Rebuilt;
    IdsSnoc(before, a);
    KeptTwice(p, q, q2, Ids(before), {a.id});
    var all := before + [a];
    forall i | 0 <= i < |all|
      ensures Holds(q2, Rebuilt(all[i].id, all[i].response))
    {
      if i < |before| {
        assert all[i] == before[i] && before[i].id in Ids(before);
        RebuiltId(before[i].id, before[i].response);
      }
    }
  }

  lemma ReceivedStill(p: Conn, q: Conn, q2: Conn, due: seq<Answer>)
    requires Received(p, q, due) && OthersKept(q, q2, {})
    ensures Received(p, q2, due)
  {
    hide FindOrNew, Rebuilt;
    var none: set<nat> := {};
    KeptTwice(p, q, q2, Ids(due), none);
    assert Ids(due) + none == Ids(due);
    forall i | 0 <= i < |due|
      ensures Holds(q2, Rebuilt(due[i].id, due[i].response))
    {
      RebuiltId(due[i].id, due[i].response);
    }
  }

  lemma QuietFrame(c: Conn, q: Conn, f: seq<byte>, handler: Request -> Response, r: Outcome)
    requires Kept(c.enc) && Covers(q.dec, c.enc) && Owes(c, f, handler, r, []) && Within(NewLimits(c, f), q.dec.max)
    ensures var q2 := ProcessAll(q, r.out, None).conn;
            && q2.dec == q.dec && OthersKept(q, q2, {}) && AllDefined(q, r.out, None)
            && Kept(r.conn.enc) && Covers(q.dec, r.conn.enc)
  {
    hide Covers, Kept, Owes, AllDefined, OthersKept, Harmless, ProcessAll, NewLimits;
    OtherFrame(c, f, handler, r);
    HarmlessRun(q, r.out);
    if r.conn.enc != c.enc {
      LimitedCovers(q.dec, c.enc, NewLimits(c, f)[0]);
    }
  }

  /** One frame of the run, and the peer's reading of what it writes. */
  lemma NextArrives(p: Conn, c: Conn, q: Conn, f: seq<byte>, handler: Request -> Response, r: Outcome,
                    before: seq<Answer>, due: seq<Answer>)
    requires Kept(c.enc) && Covers(q.dec, c.enc) && Received(p, q, before) && Owes(c, f, handler, r, due)
    requires Untouched(p, before + due) && AllSurvive(due) && Within(NewLimits(c, f), q.dec.max)
    ensures var q2 := ProcessAll(q, r.out, None).conn;
            && Received(p, q2, before + due) && AllDefined(q, r.out, None)
            && Kept(r.conn.enc) && Covers(q2.dec, r.conn.enc) && q2.dec.max == q.dec.max
  {
    hide Covers, Kept, Owes, AllDefined, OthersKept, Holds, ProcessAll, ResponseFrames, ResponseBlock, AllFaithful,
         FieldsOf, Rebuilt, Untouched, Ids, NewLimits, Received;
    var q2 := ProcessAll(q, r.out, None).conn;
    if due == [] {
      QuietFrame(c, q, f, handler, r);
      ReceivedStill(p, q, q2, before);
      assert before + due == before;
    } else {
      OwedIsWritten(c, f, handler, r, due);
      var a := due[0];
      assert due == [a];
      ReceivedOthers(p, q, before);
      UntouchedNext(p, q, before, a);
      ResponseSeen(q, c.enc, c.remote, a);
      ReceivedNext(p, q, q2, before, a);
    }
  }

  lemma ReceivedOthers(p: Conn, q: Conn, due: seq<Answer>)
    requires Received(p, q, due)
    ensures OthersKept(p, q, Ids(due))
  {}

  /**
   Whatever frames this side receives, and whatever memory holds: a peer that processes everything it writes in
   return ends up with every answer of the handler, whole and on its stream, among credit, acknowledgements and
   replies; no other stream of the peer changes but for its window. Tables may differ: the sizes in force may go up
   and down within what the peer's own table holds.
   */
  lemma {:induction false} EveryAnswerArrives(c: Conn, p: Conn, frames: seq<seq<byte>>, handler: Request -> Response,
                                              run: Run)
    requires Kept(c.enc) && Covers(p.dec, c.enc) && Serves(c, frames, handler, run)
    requires Untouched(p, run.due) && AllSurvive(run.due) && Within(run.limits, p.dec.max)
    ensures var q := ProcessAll(p, run.out, None).conn;
            Received(p, q, run.due) && Kept(run.conn.enc) && Covers(q.dec, run.conn.enc) && q.dec.max == p.dec.max
    ensures AllDefined(p, run.out, None)
    decreases |frames|
  {
    hide Covers, Kept, Owes, AllDefined, Untouched, Received, OthersKept, ProcessAll, AllFaithful, FieldsOf,
         NewLimits;
    if frames == [] {
      NothingUndefined(p);
      NoFrames(p);
      SameStreamsKept(p, p);
      ReceivedNothing(p);
    } else {
      var n := |frames| - 1;
      var before, r, due :| ServesNext(c, frames, handler, before, r, due, run);
      UntouchedFront(p, before.due, due);
      FrontHolds(before, due, NewLimits(before.conn, frames[n]), p.dec.max);
      EveryAnswerArrives(c, p, frames[..n], handler, before);
      var q := ProcessAll(p, before.out, None).conn;
      NextArrives(p, before.conn, q, frames[n], handler, r, before.due, due);
      ProcessAllConcat(p, before.out, r.out, None);
      AllDefinedConcat(p, before.out, r.out, None);
    }
  }

  lemma FrontHolds(before: Run, due: seq<Answer>, limits: seq<nat>, max: nat)
    requires AllSurvive(before.due + due) && Within(before.limits + limits, max)
    ensures AllSurvive(before.due) && AllSurvive(due) && Within(before.limits, max) && Within(limits, max)
  {
    hide AllFaithful, FieldsOf;
    assert forall i :: 0 <= i < |before.due| ==> (before.due + due)[i] == before.due[i];
    assert forall i :: 0 <= i < |due| ==> (before.due + due)[|before.due| + i] == due[i];
    assert forall i :: 0 <= i < |before.limits| ==> (before.limits + limits)[i] == before.limits[i];
    assert forall i :: 0 <= i < |limits| ==> (before.limits + limits)[|before.limits| + i] == limits[i];
  }

  lemma ReceivedNothing(p: Conn)
    requires OthersKept(p, p, {})
    ensures Received(p, p, [])
  {
    assert Ids([]) == {};
  }
}
