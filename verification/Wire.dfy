/** Responses over a byte stream: segmentation by the sender, any chunking, reassembly, decoding. */
module Wire {
  import opened Basics
  import opened Bits
  import opened DynamicTable
  import opened Varint
  import opened StaticTable
  import opened Hpack
  import opened HpackBlock
  import opened Frames
  import opened H2State
  import opened Requests
  import opened EndToEnd
  import opened WiderTable
  import opened Answers
  import opened Session

  function Flatten(frames: seq<seq<byte>>): seq<byte>
    decreases |frames|
  {
    if frames == [] then [] else frames[0] + Flatten(frames[1..])
  }

  /** Exactly one frame, within the size every receiver accepts. */
  predicate Exact(f: seq<byte>) {
    |f| >= HEADER_SIZE && ParsedHeader(f).length == |f| - HEADER_SIZE <= MAX_FRAME
  }

  /** Parsing undoes concatenation. */
  lemma {:induction false} ParsedFrames(frames: seq<seq<byte>>)
    requires forall f :: f in frames ==> Exact(f)
    ensures GreedyFrames(Flatten(frames)) == frames
    decreases |frames|
  {
    hide ParsedHeader;
    if frames != [] {
      var f := frames[0];
      assert f in frames && f[..|f|] == f && f[|f|..] == [];
      ParsedFrames(frames[1..]);
      FirstFrameStays(f, Flatten(frames[1..]));
      assert [] + Flatten(frames[1..]) == Flatten(frames[1..]);
      assert frames == [f] + frames[1..];
    }
  }

  lemma {:induction false} SentAreExact(enc: Table, remote: Settings, items: seq<Item>)
    requires forall i :: 0 <= i < |items| ==> items[i].id < 0x8000_0000
    ensures forall f :: f in SendAll(enc, remote, items).frames ==> Exact(f)
    decreases |items|
  {
    hide ResponseFrames, ResponseBlock, ParsedHeader;
    if items != [] {
      OnlyLastEndsStream(enc, remote, items[0].id, items[0].response);
      SentAreExact(ResponseBlock(enc, items[0].response).table, remote, items[1..]);
      var first := ResponseFrames(enc, remote, items[0].id, items[0].response);
      forall f | f in first
        ensures Exact(f)
      {
        var i :| 0 <= i < |first| && first[i] == f;
        assert WholeFrame(first[i]);
      }
    }
  }

  /**
   A session that receives the preface and then the frames of any responses on fresh streams, in
   pieces of any size, ends with every response rebuilt, whatever memory holds. (RunSession ends with
   a possible run over SessionFrames for every way of splitting the stream.)
   */
  lemma DeliveredOverAnyChunks(remote: Settings, items: seq<Item>)
    requires Fresh([], items) && Sendable(InitialConn.enc, items)
    ensures var sent := SendAll(InitialConn.enc, remote, items);
            var result := ProcessAll(InitialConn, SessionFrames(PREFACE + Flatten(sent.frames)), None);
            result.ok && result.conn == InitialConn.(dec := sent.enc, streams := RebuiltAll(items))
    ensures var sent := SendAll(InitialConn.enc, remote, items);
            var frames := SessionFrames(PREFACE + Flatten(sent.frames));
            && AllDefined(InitialConn, frames, None)
            && forall conn, out :: PossibleRun(InitialConn, frames, None, conn, out) ==>
                 conn == InitialConn.(dec := sent.enc, streams := RebuiltAll(items))
  {
    hide AllDefined, PossibleRun, ProcessAll, SendAll, RebuiltAll, GreedyFrames;
    var sent := SendAll(InitialConn.enc, remote, items);
    SentAreExact(InitialConn.enc, remote, items);
    ParsedFrames(sent.frames);
    assert (PREFACE + Flatten(sent.frames))[PREFACE_SIZE..] == Flatten(sent.frames);
    assert (PREFACE + Flatten(sent.frames))[..PREFACE_SIZE] == PREFACE;
    EveryResponseDelivered(InitialConn, InitialConn.enc, remote, items);
    assert RebuiltAll(items) + [] == RebuiltAll(items);
    forall conn, out | PossibleRun(InitialConn, sent.frames, None, conn, out)
      ensures conn == ProcessAll(InitialConn, sent.frames, None).conn
    {
      DefinedRunIsFunction(InitialConn, sent.frames, None, conn, out);
    }
  }

  lemma SettingsSeen(p: Conn)
    ensures Process(p, SettingsFrame(), None).conn.dec == p.dec
    ensures OthersKept(p, Process(p, SettingsFrame(), None).conn, {})
    ensures Defined(p, SettingsFrame())
  {
    hide Frame, ParsedHeader, PayloadOf, WholeFrame, OnHeaders, OnContinuation, ApplySettings, LocalSettings,
         OthersKept;
    LocalSettingsLength();
    FrameIsWhole(SETTINGS, 0, 0, LocalSettings());
    SameStreamsKept(p, Process(p, SettingsFrame(), None).conn);
  }

  lemma LocalSettingsLength()
    ensures |LocalSettings()| == 36
  {}

  /**
   A whole session, however its byte stream is split: a peer that processes the settings and everything that is
   written after them holds every answer of the handler.
   */
  lemma SessionAnswers(stream: seq<byte>, p: Conn, handler: Request -> Response, run: Run)
    requires Serves(InitialConn, SessionFrames(stream), handler, run) && InitialConn.enc.max <= p.dec.max
    requires Untouched(p, run.due) && AllSurvive(run.due) && Within(run.limits, p.dec.max)
    ensures var q := ProcessAll(p, Greeting(Greeted(stream)) + run.out, None).conn;
            Received(p, q, run.due) && Covers(q.dec, run.conn.enc)
    ensures AllDefined(p, Greeting(Greeted(stream)) + run.out, None)
  {
    hide AllDefined, Process, ProcessAll, SessionFrames, Serves, Greeted, SettingsFrame, Untouched, Received,
         OthersKept, AllSurvive;
    var p1 := p;
    if Greeted(stream) {
      SettingsSeen(p);
      p1 := Process(p, SettingsFrame(), None).conn;
      OneFrame(p, SettingsFrame(), None);
      OneDefined(p, SettingsFrame(), None);
    } else {
      NoFrames(p);
      NothingUndefined(p);
      SameStreamsKept(p, p);
    }
    UntouchedStill(p, p1, run.due);
    EveryAnswerArrives(InitialConn, p1, SessionFrames(stream), handler, run);
    ReceivedBefore(p, p1, ProcessAll(p1, run.out, None).conn, run.due);
    ProcessAllConcat(p, Greeting(Greeted(stream)), run.out, None);
    AllDefinedConcat(p, Greeting(Greeted(stream)), run.out, None);
  }

  lemma UntouchedStill(p: Conn, q: Conn, due: seq<Answer>)
    requires Untouched(p, due) && OthersKept(p, q, {})
    ensures Untouched(q, due)
  {
    hide FindOrNew;
    forall i | 0 <= i < |due|
      ensures Holds(q, NewStream(due[i].id))
    {
      assert Holds(p, NewStream(due[i].id));
    }
  }

  lemma ReceivedBefore(p: Conn, p1: Conn, q: Conn, due: seq<Answer>)
    requires OthersKept(p, p1, {}) && Received(p1, q, due)
    ensures Received(p, q, due)
  {
    hide FindOrNew, Rebuilt, Ids;
    var none: set<nat> := {};
    KeptTwice(p, p1, q, none, Ids(due));
    assert none + Ids(due) == Ids(due);
  }

  // ---------------------------------------------------------------- the smallest request

  /** Section 3.5 of RFC 7540. */
  lemma PrefaceText()
    ensures PREFACE == Ascii("PRI * HTTP/2.0\r\n\r\nSM\r\n\r\n")
  {}

  /** HEADERS with END_STREAM and END_HEADERS on stream 1; indices 3 and 4 of the static table. */
  const POST_ROOT: seq<byte> := [0, 0, 2, 1, 5, 0, 0, 0, 1, 0x83, 0x84]

  lemma PostRootFrame()
    ensures POST_ROOT == Frame(HEADERS, END_HEADERS + END_STREAM, 1, [0x83, 0x84]) && Exact(POST_ROOT)
  {
    hide HeaderBytes, ParsedHeader, WholeFrame, PayloadOf;
    HeaderLayout(FrameHeader(2, HEADERS, END_HEADERS + END_STREAM, 1));
    FrameIsWhole(HEADERS, END_HEADERS + END_STREAM, 1, [0x83, 0x84]);
  }

  lemma PostRootFields()
    ensures DecodedBlock(InitialConn.dec, [0x83, 0x84])
         == Fields([Field(":method", "POST"), Field(":path", "/")], InitialConn.dec)
    ensures !OverReads(InitialConn.dec, [0x83, 0x84])
  {
    var t := InitialConn.dec;
    TwoIndices();
    assert DecodedHeader(t, [0x83, 0x84]) == AHeader(Field(":method", "POST"), 1, t);
    assert DecodedHeader(t, [0x84]) == AHeader(Field(":path", "/"), 1, t);
    var two: seq<byte> := [0x83, 0x84];
    assert two[1..] == [0x84] && [0x84 as byte][1..] == [];
    assert DecodedBlock(t, [0x84]) == Fields([Field(":path", "/")] + [], t);
  }

  lemma TwoIndices()
    ensures Decoded(ByOr, 7, [0x83, 0x84]) == Read(3, 1) && Decoded(ByOr, 7, [0x84]) == Read(4, 1)
  {
    assert Low(0x83, 7) == 3 && Low(0x84, 7) == 4 && Pow2(7) == 128;
  }

  /** The bytes of a POST to the root, behind the preface, are one frame that leaves that request on stream 1. */
  lemma SmallestRequest()
    ensures var frames := SessionFrames(PREFACE + POST_ROOT);
            var s := FindOrNew(ProcessAll(InitialConn, frames, None).conn.streams, 1);
            && frames == [POST_ROOT] && AllDefined(InitialConn, frames, None)
            && s.state == HALF_CLOSED_REMOTE && s.request == Request(POST, true, Ascii("/"), [], [])
  {
    hide ProcessAll, Process, GreedyFrames, Frame, DecodedBlock, AllDefined, Defined, StoreFields, FindOrNew,
         OverReads;
    PostRootFrame();
    PostRootFields();
    ParsedFrames([POST_ROOT]);
    OneFlattened(POST_ROOT);
    var stream := PREFACE + POST_ROOT;
    assert stream[..PREFACE_SIZE] == PREFACE && stream[PREFACE_SIZE..] == POST_ROOT;
    HeadersFrame(InitialConn, 1, [0x83, 0x84], true);
    OneFrame(InitialConn, POST_ROOT, None);
    OneDefined(InitialConn, POST_ROOT, None);
    PostRootStored();
    FirstFound(Stream(1, HALF_CLOSED_REMOTE, DEFAULT_WINDOW, Request(POST, true, Ascii("/"), [], [])));
  }

  lemma OneFlattened(f: seq<byte>)
    ensures Flatten([f]) == f
  {
    assert [f][1..] == [] && f + [] == f;
  }

  lemma FirstFound(s: Stream)
    ensures FindOrNew([s] + InitialConn.streams, s.id) == s
  {}

  lemma PostRootStored()
    ensures StoreFields(EmptyRequest.(http2 := true), [Field(":method", "POST"), Field(":path", "/")])
         == Request(POST, true, Ascii("/"), [], [])
  {
    var es := [Field(":method", "POST"), Field(":path", "/")];
    MethodFromName(Ascii("POST"), POST);
    PseudoNames();
    StoredRequest(EmptyRequest.(http2 := true), es);
    assert es[..1] == [Field(":method", "POST")] && es[..1][..0] == [];
    assert Ascii(":path")[1] == 112 && Ascii(":method")[1] == 109;
  }
}
