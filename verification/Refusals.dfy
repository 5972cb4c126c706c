/** Writes that fail: nothing but stream states depends on them. */
module Refusals {
  import opened Basics
  import opened Bits
  import opened HpackBlock
  import opened Frames
  import opened H2State

  lemma {:induction false} FoundAlike(a: seq<Stream>, b: seq<Stream>, id: nat)
    requires AlikeStreams(a, b)
    ensures SameButState(FindOrNew(a, id), FindOrNew(b, id)) && (HasStream(a, id) <==> HasStream(b, id))
  {
    if a != [] {
      assert SameButState(a[0], b[0]);
      RestAlike(a, b);
      FoundAlike(a[1..], b[1..], id);
      HasCons(a, id);
      HasCons(b, id);
    }
  }

  lemma RestAlike(a: seq<Stream>, b: seq<Stream>)
    requires AlikeStreams(a, b) && a != []
    ensures AlikeStreams(a[1..], b[1..])
  {
    forall i | 0 <= i < |a[1..]|
      ensures SameButState(a[1..][i], b[1..][i])
    {
      assert SameButState(a[i + 1], b[i + 1]);
    }
  }

  lemma HasCons(a: seq<Stream>, id: nat)
    requires a != []
    ensures HasStream(a, id) <==> a[0].id == id || HasStream(a[1..], id)
  {
    if HasStream(a, id) {
      var i :| 0 <= i < |a| && a[i].id == id;
      assert i > 0 ==> a[1..][i - 1].id == id;
    }
    if HasStream(a[1..], id) {
      var i :| 0 <= i < |a[1..]| && a[1..][i].id == id;
      assert a[i + 1].id == id;
    }
  }

  lemma ConsAlike(s: Stream, t: Stream, a: seq<Stream>, b: seq<Stream>)
    requires SameButState(s, t) && AlikeStreams(a, b)
    ensures AlikeStreams([s] + a, [t] + b)
  {
    forall i | 0 <= i < |[s] + a|
      ensures SameButState(([s] + a)[i], ([t] + b)[i])
    {
      if i > 0 {
        assert SameButState(a[i - 1], b[i - 1]);
      }
    }
  }

  lemma {:induction false} ReplacedAlike(a: seq<Stream>, b: seq<Stream>, s: Stream, t: Stream)
    requires AlikeStreams(a, b) && SameButState(s, t)
    ensures AlikeStreams(Replaced(a, s), Replaced(b, t))
  {
    if a != [] {
      assert SameButState(a[0], b[0]);
      RestAlike(a, b);
      ReplacedAlike(a[1..], b[1..], s, t);
      if a[0].id == s.id {
        ConsAlike(s, t, a[1..], b[1..]);
      } else {
        ConsAlike(a[0], b[0], Replaced(a[1..], s), Replaced(b[1..], t));
      }
    }
  }

  lemma StoredAlike(a: seq<Stream>, b: seq<Stream>, s: Stream, t: Stream)
    requires AlikeStreams(a, b) && SameButState(s, t)
    ensures AlikeStreams(WithStream(a, s), WithStream(b, t))
  {
    FoundAlike(a, b, s.id);
    ReplacedAlike(a, b, s, t);
    ConsAlike(s, t, a, b);
  }

  /** Same output, same verdict, and connections that differ in stream states only. */
  ghost predicate AlikeOutcomes(r: Outcome, q: Outcome) {
    Alike(r.conn, q.conn) && r.out == q.out && r.ok == q.ok
  }

  lemma AnsweredAlike(a: Conn, b: Conn, s: Stream, t: Stream, handler: Handler)
    requires Alike(a, b) && SameButState(s, t)
    ensures AlikeOutcomes(Answered(a, s, handler), Answered(b, t, handler))
  {
    hide ResponseFrames, ResponseBlock, StateAfterResponse, WithStream, AlikeStreams;
    match handler
    case None => StoredAlike(a.streams, b.streams, s, t);
    case Some(h) =>
      var r := h(s.request);
      StoredAlike(a.streams, b.streams, s.(state := StateAfterResponse(s.state, r)),
                  t.(state := StateAfterResponse(t.state, r)));
  }

  lemma FieldsAlike(a: Conn, b: Conn, s: Stream, t: Stream, fields: Fields, handler: Handler)
    requires Alike(a, b) && SameButState(s, t)
    ensures AlikeOutcomes(ApplyFields(a, s, fields, handler), ApplyFields(b, t, fields, handler))
  {
    hide Answered, StoreFields, AlikeStreams;
    AnsweredAlike(a.(dec := fields.table), b.(dec := fields.table), s.(request := StoreFields(s.request, fields.list)),
                  t.(request := StoreFields(t.request, fields.list)), handler);
  }

  lemma SomeAlike(a: Conn, b: Conn, s: Stream, t: Stream, block: seq<byte>, handler: Handler, r: Outcome)
    returns (q: Outcome)
    requires Alike(a, b) && SameButState(s, t) && AppliesSome(a, s, block, handler, r)
    ensures AppliesSome(b, t, block, handler, q) && AlikeOutcomes(r, q)
  {
    hide ApplyFields, AlikeStreams, BlockReads;
    var fields :| BlockReads(a.dec, block, fields) && r == ApplyFields(a, s, fields, handler);
    q := ApplyFields(b, t, fields, handler);
    FieldsAlike(a, b, s, t, fields, handler);
  }

  lemma StreamForAlike(a: Conn, b: Conn, h: FrameHeader)
    requires Alike(a, b)
    ensures SameButState(StreamFor(a, h), StreamFor(b, h)) && Alike(BaseFor(a, h), BaseFor(b, h))
    ensures Completes(a, h) == Completes(b, h) && forall payload :: BlockFor(a, h, payload) == BlockFor(b, h, payload)
  {
    hide FindOrNew, HasFlag, AlikeStreams;
    FoundAlike(a.streams, b.streams, h.stream);
  }

  lemma HeadersAlike(a: Conn, b: Conn, h: FrameHeader, payload: seq<byte>, handler: Handler)
    requires Alike(a, b)
    ensures AlikeOutcomes(OnHeaders(a, h, payload, handler), OnHeaders(b, h, payload, handler))
    ensures SameButState(OpenedBy(FindOrNew(a.streams, h.stream), h.flags),
                         OpenedBy(FindOrNew(b.streams, h.stream), h.flags))
  {
    hide ApplyFields, DecodedBlock, FindOrNew, WithStream, AlikeStreams, HasFlag;
    FoundAlike(a.streams, b.streams, h.stream);
    var s, t := OpenedBy(FindOrNew(a.streams, h.stream), h.flags), OpenedBy(FindOrNew(b.streams, h.stream), h.flags);
    StoredAlike(a.streams, b.streams, s, t);
    FieldsAlike(a, b, s, t, DecodedBlock(a.dec, payload), handler);
  }

  lemma ContinuationAlike(a: Conn, b: Conn, h: FrameHeader, payload: seq<byte>, handler: Handler)
    requires Alike(a, b)
    ensures AlikeOutcomes(OnContinuation(a, h, payload, handler), OnContinuation(b, h, payload, handler))
    ensures SameButState(Continued(a, h), Continued(b, h))
  {
    hide ApplyFields, DecodedBlock, FindOrNew, AlikeStreams, HasFlag;
    FoundAlike(a.streams, b.streams, h.stream);
    if Continues(a, h) {
      FieldsAlike(a.(pending := None), b.(pending := None), Continued(a, h), Continued(b, h),
                  DecodedBlock(a.dec, a.pending.value.block), handler);
    }
  }

  lemma OthersAlike(a: Conn, b: Conn, h: FrameHeader, payload: seq<byte>)
    requires Alike(a, b)
    ensures AlikeOutcomes(OnData(a, h, payload), OnData(b, h, payload))
    ensures AlikeOutcomes(OnWindowUpdate(a, h, payload), OnWindowUpdate(b, h, payload))
    ensures AlikeOutcomes(OnReset(a, h), OnReset(b, h))
  {
    hide FindOrNew, HasStream, WithStream, AlikeStreams, HasFlag, WindowUpdate, FromBigEndian, Int32;
    var s, t := FindOrNew(a.streams, h.stream), FindOrNew(b.streams, h.stream);
    FoundAlike(a.streams, b.streams, h.stream);
    StoredAlike(a.streams, b.streams,
                s.(request := s.request.(body := s.request.body + payload),
                   state := if HasFlag(h.flags, END_STREAM) then HALF_CLOSED_REMOTE else s.state),
                t.(request := t.request.(body := t.request.body + payload),
                   state := if HasFlag(h.flags, END_STREAM) then HALF_CLOSED_REMOTE else t.state));
    StoredAlike(a.streams, b.streams, s.(state := CLOSED, request := s.request.(body := [])),
                t.(state := CLOSED, request := t.request.(body := [])));
    if |payload| >= 4 {
      var increment := FromBigEndian(payload[..4]);
      StoredAlike(a.streams, b.streams, s.(window := Int32(s.window + increment)),
                  t.(window := Int32(t.window + increment)));
    }
  }

  lemma PlainAlike(a: Conn, b: Conn, h: FrameHeader, payload: seq<byte>, behind: seq<byte>)
    requires Alike(a, b)
    ensures AlikeOutcomes(OnSettings(a, h, payload), OnSettings(b, h, payload))
    ensures AlikeOutcomes(OnPing(a, h, behind), OnPing(b, h, behind))
    ensures AlikeOutcomes(OnGoaway(a, payload), OnGoaway(b, payload))
  {
    hide AlikeStreams, HasFlag, ApplySettings, Limited, Frame, HeaderBytes, FromBigEndian;
  }

  lemma ProcessAlike(a: Conn, b: Conn, data: seq<byte>, handler: Handler)
    requires Alike(a, b)
    ensures AlikeOutcomes(Process(a, data, handler), Process(b, data, handler))
  {
    hide OnHeaders, OnContinuation, OnData, OnWindowUpdate, OnReset, OnSettings, OnPing, OnGoaway, ParsedHeader,
         AlikeStreams;
    if WholeFrame(data) {
      var h, payload := ParsedHeader(data), PayloadOf(data);
      HeadersAlike(a, b, h, payload, handler);
      ContinuationAlike(a, b, h, payload, handler);
      OthersAlike(a, b, h, payload);
      PlainAlike(a, b, h, payload, data[HEADER_SIZE..]);
    }
  }

  /** Connections that differ in stream states only have the same outcomes, again up to stream states. */
  lemma PossibleAlike(a: Conn, b: Conn, data: seq<byte>, handler: Handler, r: Outcome) returns (q: Outcome)
    requires Alike(a, b) && Possible(a, data, handler, r)
    ensures Possible(b, data, handler, q) && AlikeOutcomes(r, q)
  {
    hide Process, AppliesSome, ParsedHeader, AlikeStreams, Completes, BaseFor, StreamFor, BlockFor, HasFlag;
    q := Process(b, data, handler);
    ProcessAlike(a, b, data, handler);
    if WholeFrame(data) {
      var h, payload := ParsedHeader(data), PayloadOf(data);
      StreamForAlike(a, b, h);
      if Completes(a, h) {
        q := SomeAlike(BaseFor(a, h), BaseFor(b, h), StreamFor(a, h), StreamFor(b, h), BlockFor(a, h, payload),
                       handler, r);
      } else if ShortPing(h, data[HEADER_SIZE..]) {
        var echo :| |echo| == 8 && r == Echoed(a, h, echo);
        q := Echoed(b, h, echo);
      }
    }
  }
}
