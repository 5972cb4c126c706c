/** The receiving side of an HTTP/2 connection: frames rebuilt from arbitrarily split reads. */
module Session {
  import opened Bits
  import opened PrefixCode
  import opened DynamicTable
  import opened HpackCodec
  import opened Frames
  import opened H2State
  import opened Sending
  import opened Connection
  import opened Refusals

  /** The bytes of the client preface, section 3.5 of RFC 7540. */
  const PREFACE: seq<byte> := [
    80, 82, 73, 32, 42, 32, 72, 84, 84, 80, 47, 50, 46, 48, 13, 10, 13, 10, 83, 77, 13, 10, 13, 10]

  const PREFACE_SIZE: nat := 24
  const BUFFER_SIZE: nat := 16384

  // ---------------------------------------------------------------- reference: parse it all at once

  function FrameSize(data: seq<byte>): nat
    requires |data| >= HEADER_SIZE
  {
    HEADER_SIZE + ParsedHeader(data).length
  }

  predicate Oversize(data: seq<byte>)
    requires |data| >= HEADER_SIZE
  {
    ParsedHeader(data).length > MAX_FRAME
  }

  predicate HasFrame(data: seq<byte>) {
    |data| >= HEADER_SIZE && !Oversize(data) && FrameSize(data) <= |data|
  }

  /** All complete frames from the front, up to an incomplete or oversize one. */
  function GreedyFrames(data: seq<byte>): seq<seq<byte>>
    decreases |data|
  {
    if HasFrame(data) then [data[..FrameSize(data)]] + GreedyFrames(data[FrameSize(data)..]) else []
  }

  predicate Greeted(stream: seq<byte>) {
    |stream| >= PREFACE_SIZE && stream[..PREFACE_SIZE] == PREFACE
  }

  /** The frames of a whole stream: none without the preface. */
  function SessionFrames(stream: seq<byte>): seq<seq<byte>> {
    if Greeted(stream) then GreedyFrames(stream[PREFACE_SIZE..]) else []
  }

  function Setting6(id: nat, value: nat): (s: seq<byte>)
    ensures |s| == 6
  {
    BigEndian(id, 2) + BigEndian(value, 4)
  }

  /** The settings this side announces. */
  function LocalSettings(): seq<byte> {
    Setting6(1, 4096) + Setting6(2, 0) + Setting6(3, 100) + Setting6(4, 65535) + Setting6(5, MAX_FRAME)
    + Setting6(6, 16384)
  }

  function SettingsFrame(): seq<byte> {
    Frame(SETTINGS, 0, 0, LocalSettings())
  }

  // ---------------------------------------------------------------- frames and later bytes

  lemma HeaderIsLocal(a: seq<byte>, b: seq<byte>)
    requires |a| >= HEADER_SIZE
    ensures ParsedHeader(a + b) == ParsedHeader(a)
  {
    assert (a + b)[..3] == a[..3];
    assert (a + b)[5..9] == a[5..9];
    assert (a + b)[3] == a[3] && (a + b)[4] == a[4];
  }

  /** A frame that is complete stays the first one, whatever arrives later. */
  lemma FirstFrameStays(a: seq<byte>, b: seq<byte>)
    requires HasFrame(a)
    ensures GreedyFrames(a + b) == [a[..FrameSize(a)]] + GreedyFrames(a[FrameSize(a)..] + b)
  {
    HeaderIsLocal(a, b);
    var n := FrameSize(a);
    assert (a + b)[..n] == a[..n] && (a + b)[n..] == a[n..] + b;
  }

  /** An oversize header ends the parse for good. */
  lemma OversizeStays(a: seq<byte>, b: seq<byte>)
    requires |a| >= HEADER_SIZE && Oversize(a)
    ensures GreedyFrames(a + b) == []
  {
    HeaderIsLocal(a, b);
  }

  // ---------------------------------------------------------------- the session

  /** A byte stream that ends when rest is used up; each read returns some of what is left. */
  class Tls {
    var rest: seq<byte>

    constructor (stream: seq<byte>)
      ensures rest == stream
    {
      rest := stream;
    }

    method Recv(max: nat) returns (bytes: seq<byte>)
      requires max > 0
      modifies this
      ensures old(rest) == bytes + rest && |bytes| <= max
      ensures bytes == [] <==> old(rest) == []
    {
      if rest == [] {
        return [];
      }
      var n :| 1 <= n <= max && n <= |rest|;
      bytes := rest[..n];
      rest := rest[n..];
    }
  }

  /**
   Frames handed over so far. Some possible run over them leads to the connection's state, up to the states of
   streams; if no write failed, to exactly that state, with what was written.
   */
  ghost predicate Done(conn: H2Connection, io: Io, sent0: seq<seq<byte>>, frames: seq<seq<byte>>, handler: Handler)
    requires conn.Valid()
    reads conn, conn.tree, conn.tree.nodes, conn.dec, conn.dec.table, conn.enc, conn.enc.table, io
  {
    && conn.handled == frames
    && exists c, out :: RunShows(frames, handler, c, out, conn.View(), io.healthy, sent0, io.sent)
  }

  /** The run to c that writes out is what state and channel show, as far as writes succeed. */
  ghost predicate RunShows(frames: seq<seq<byte>>, handler: Handler, c: Conn, out: seq<seq<byte>>, view: Conn,
                           healthy: bool, sent0: seq<seq<byte>>, sent: seq<seq<byte>>)
  {
    && PossibleRun(InitialConn, frames, handler, c, out) && Alike(view, c)
    && (healthy ==> view == c && sent == sent0 + out)
  }

  lemma NothingDone(handler: Handler, healthy: bool, sent: seq<seq<byte>>)
    ensures RunShows([], handler, InitialConn, [], InitialConn, healthy, sent, sent)
  {
    assert sent + [] == sent;
  }

  /** One more frame, with any outcome the connection may show. */
  lemma RunGoesOn(frames: seq<seq<byte>>, handler: Handler, c: Conn, out: seq<seq<byte>>, view: Conn, healthy: bool,
                  sent0: seq<seq<byte>>, sent: seq<seq<byte>>, f: seq<byte>, r: Outcome, view': Conn,
                  sent': seq<seq<byte>>)
    returns (c': Conn, out': seq<seq<byte>>)
    requires RunShows(frames, handler, c, out, view, healthy, sent0, sent) && Possible(view, f, handler, r)
    requires Alike(view', r.conn) && (healthy ==> view' == r.conn && sent' == sent + r.out)
    ensures RunShows(frames + [f], handler, c', out', view', healthy, sent0, sent')
  {
    hide PossibleRun, Possible, AlikeStreams;
    var q := r;
    if view != c {
      q := PossibleAlike(view, c, f, handler, r);
    }
    AlikeTwice(view'.streams, r.conn.streams, q.conn.streams);
    NextPossible(InitialConn, frames, handler, c, out, f, q);
    c', out' := q.conn, out + q.out;
    Reassociate(sent0, out, r.out);
  }

  lemma AlikeTwice(a: seq<Stream>, b: seq<Stream>, c: seq<Stream>)
    requires AlikeStreams(a, b)
    ensures b == c || AlikeStreams(b, c) ==> AlikeStreams(a, c)
  {
    if AlikeStreams(b, c) {
      forall i | 0 <= i < |a|
        ensures SameButState(a[i], c[i])
      {
        assert SameButState(a[i], b[i]) && SameButState(b[i], c[i]);
      }
    }
  }

  method SendSettings(io: Io)
    modifies io
    ensures io.healthy ==> io.sent == old(io.sent) + [SettingsFrame()]
  {
    hide Frame, BigEndian;
    var frame := new byte[HEADER_SIZE + 36];
    var ok := SendFrame(io, frame, 0, SETTINGS, 0, 0, LocalSettings());
  }

  method HandleFrame(conn: H2Connection, io: Io, f: seq<byte>, handler: Handler, ghost sent0: seq<seq<byte>>,
                     ghost frames: seq<seq<byte>>)
    requires conn.Valid() && io !in conn.Repr() && Done(conn, io, sent0, frames, handler)
    modifies conn.Repr(), io
    ensures conn.Valid() && fresh(conn.Repr() - old(conn.Repr())) && io !in conn.Repr()
    ensures Done(conn, io, sent0, frames + [f], handler)
  {
    hide RunShows, Alike, Possible, Process, Ready, Size, WholeFrame, Defined;
    ghost var view, sent := conn.View(), io.sent;
    ghost var c, out :| RunShows(frames, handler, c, out, view, io.healthy, sent0, sent);
    var ok;
    ghost var r;
    ok, r := conn.ProcessFrame(io, f, handler);
    c, out := RunGoesOn(frames, handler, c, out, view, io.healthy, sent0, sent, f, r, conn.View(), io.sent);
  }

  /** The inner loop: hands every complete frame to the connection. */
  method DrainFrames(conn: H2Connection, io: Io, acc: array<byte>, have: nat, start: nat, handler: Handler,
                     ghost sent0: seq<seq<byte>>, ghost frames0: seq<seq<byte>>, ghost later: seq<byte>)
    returns (offset: nat, violation: bool, ghost frames: seq<seq<byte>>)
    requires conn.Valid() && io !in conn.Repr() && acc !in conn.Repr() && start <= have <= acc.Length
    requires Done(conn, io, sent0, frames0, handler)
    modifies conn.Repr(), io
    ensures conn.Valid() && fresh(conn.Repr() - old(conn.Repr())) && io !in conn.Repr() && acc !in conn.Repr()
    ensures Done(conn, io, sent0, frames, handler)
    ensures acc[..] == old(acc[..])
    ensures start <= offset <= have
    ensures var before := frames0 + GreedyFrames(acc[start..have] + later);
            if violation then before == frames
            else
              && before == frames + GreedyFrames(acc[offset..have] + later) && Partial(acc[offset..have])
  {
    hide Done, GreedyFrames, Ready, Size, ParsedHeader, H2Connection.Valid;
    offset, violation, frames := start, false, frames0;
    ghost var goal, bytes := frames0 + GreedyFrames(acc[start..have] + later), acc[..];
    while offset + HEADER_SIZE <= have
      invariant conn.Valid() && fresh(conn.Repr() - old(conn.Repr())) && io !in conn.Repr() && acc !in conn.Repr()
      invariant acc[..] == bytes
      invariant start <= offset <= have && Done(conn, io, sent0, frames, handler)
      invariant goal == frames + GreedyFrames(bytes[offset..have] + later)
    {
      ghost var left := bytes[offset..have];
      assert left == acc[offset..have];
      var h := ReadHeader(acc[offset..have]);
      if h.length > MAX_FRAME {
        OversizeStays(left, later);
        violation := true;
        assert frames + [] == frames;
        return;
      }
      if offset + HEADER_SIZE + h.length > have {
        break;
      }
      var n := HEADER_SIZE + h.length;
      ghost var f := left[..n];
      assert acc[offset..offset + n] == f;
      FirstFrameStays(left, later);
      HandleFrame(conn, io, acc[offset..offset + n], handler, sent0, frames);
      assert left[n..] == bytes[offset + n..have];
      MoveFrame(frames, f, GreedyFrames(left[n..] + later));
      frames := frames + [f];
      offset := offset + n;
    }
    assert acc[offset..have] == bytes[offset..have];
    assert acc[start..have] == bytes[start..have];
  }

  lemma MoveFrame(a: seq<seq<byte>>, f: seq<byte>, b: seq<seq<byte>>)
    ensures a + ([f] + b) == (a + [f]) + b
  {}

  /** Less than one frame, and no oversize header. */
  ghost predicate Partial(data: seq<byte>) {
    !HasFrame(data) && (|data| >= HEADER_SIZE ==> !Oversize(data))
  }

  lemma PartialIsShort(data: seq<byte>)
    requires Partial(data)
    ensures |data| < HEADER_SIZE + MAX_FRAME && GreedyFrames(data) == []
  {}

  method Grow(acc: array<byte>, have: nat) returns (nacc: array<byte>)
    requires have <= acc.Length
    ensures fresh(nacc) && nacc.Length == 2 * acc.Length && nacc[..have] == acc[..have]
  {
    nacc := new byte[2 * acc.Length];
    forall i | 0 <= i < have {
      nacc[i] := acc[i];
    }
  }

  method Append(acc: array<byte>, have: nat, bytes: seq<byte>)
    requires have + |bytes| <= acc.Length
    modifies acc
    ensures acc[..have + |bytes|] == old(acc[..have]) + bytes
  {
    forall i | 0 <= i < |bytes| {
      acc[have + i] := bytes[i];
    }
  }

  /** Doubles a full buffer, then reads once behind what it holds. */
  method Fill(tls: Tls, acc: array<byte>, have: nat) returns (nacc: array<byte>, bytes: seq<byte>)
    requires have <= acc.Length && acc.Length > 0
    modifies tls, acc
    ensures nacc == acc || fresh(nacc)
    ensures nacc.Length == if have == acc.Length then 2 * acc.Length else acc.Length
    ensures old(tls.rest) == bytes + tls.rest && (bytes == [] <==> old(tls.rest) == [])
    ensures have + |bytes| <= nacc.Length && nacc[..have + |bytes|] == old(acc[..have]) + bytes
  {
    nacc := acc;
    if have == acc.Length {
      nacc := Grow(acc, have);
    }
    bytes := tls.Recv(nacc.Length - have);
    Append(nacc, have, bytes);
  }

  /** memmove of the unconsumed tail to the front. */
  method Compact(acc: array<byte>, offset: nat, have: nat)
    requires offset <= have <= acc.Length
    modifies acc
    ensures acc[..have - offset] == old(acc[offset..have])
  {
    forall i | 0 <= i < have - offset {
      acc[i] := acc[offset + i];
    }
  }

  /** The loop's position in the stream: what is left is in the buffer and still to be read. */
  ghost predicate Position(stream: seq<byte>, prefaceDone: bool, held: seq<byte>, rest: seq<byte>,
                           frames: seq<seq<byte>>) {
    if prefaceDone then
      Greeted(stream) && Partial(held) && SessionFrames(stream) == frames + GreedyFrames(held + rest)
    else
      frames == [] && |held| < PREFACE_SIZE && held + rest == stream
  }

  lemma AtStart(stream: seq<byte>)
    ensures Position(stream, false, [], stream, [])
  {
    assert [] + stream == stream;
  }

  lemma HeldIsShort(stream: seq<byte>, prefaceDone: bool, held: seq<byte>, rest: seq<byte>, frames: seq<seq<byte>>)
    requires Position(stream, prefaceDone, held, rest, frames)
    ensures |held| < HEADER_SIZE + MAX_FRAME
  {
    if prefaceDone {
      PartialIsShort(held);
    }
  }

  /** The same after a read, before parsing. */
  ghost predicate Unparsed(stream: seq<byte>, prefaceDone: bool, held: seq<byte>, rest: seq<byte>,
                           frames: seq<seq<byte>>) {
    if prefaceDone then Greeted(stream) && SessionFrames(stream) == frames + GreedyFrames(held + rest)
    else frames == [] && held + rest == stream
  }

  lemma MoreHeld(stream: seq<byte>, prefaceDone: bool, held: seq<byte>, bytes: seq<byte>, rest: seq<byte>,
                 frames: seq<seq<byte>>)
    requires Position(stream, prefaceDone, held, bytes + rest, frames)
    ensures Unparsed(stream, prefaceDone, held + bytes, rest, frames)
  {
    hide GreedyFrames, SessionFrames;
    Reassociate(held, bytes, rest);
  }

  lemma AfterDrain(stream: seq<byte>, held: seq<byte>, rest: seq<byte>, frames: seq<seq<byte>>)
    requires Greeted(stream) && Partial(held) && SessionFrames(stream) == frames + GreedyFrames(held + rest)
    ensures Position(stream, true, held, rest, frames)
  {}

  lemma AtEnd(stream: seq<byte>, prefaceDone: bool, held: seq<byte>, frames: seq<seq<byte>>)
    requires Position(stream, prefaceDone, held, [], frames)
    ensures SessionFrames(stream) == frames && Greeted(stream) == prefaceDone
  {
    hide GreedyFrames, HasFrame;
    assert held + [] == held;
    if prefaceDone {
      PartialIsShort(held);
      assert frames + [] == frames;
    }
  }

  lemma PrefaceSeen(stream: seq<byte>, held: seq<byte>, rest: seq<byte>, frames: seq<seq<byte>>)
    requires Unparsed(stream, false, held, rest, frames) && |held| >= PREFACE_SIZE
    ensures Greeted(stream) <==> held[..PREFACE_SIZE] == PREFACE
    ensures Greeted(stream) ==> Unparsed(stream, true, held[PREFACE_SIZE..], rest, frames)
    ensures !Greeted(stream) ==> SessionFrames(stream) == frames
  {
    hide GreedyFrames;
    assert stream[..PREFACE_SIZE] == held[..PREFACE_SIZE];
    assert stream[PREFACE_SIZE..] == held[PREFACE_SIZE..] + rest;
    assert [] + GreedyFrames(held[PREFACE_SIZE..] + rest) == GreedyFrames(held[PREFACE_SIZE..] + rest);
  }

  /** The answer to the preface. */
  method Greet(conn: H2Connection, io: Io, handler: Handler, ghost sent0: seq<seq<byte>>)
    requires conn.Valid() && io !in conn.Repr() && Done(conn, io, sent0, [], handler)
    modifies io
    ensures conn.Valid() && Done(conn, io, sent0 + [SettingsFrame()], [], handler)
  {
    hide SettingsFrame, Ready, Size;
    ghost var c, out :| RunShows([], handler, c, out, conn.View(), io.healthy, sent0, io.sent);
    assert sent0 + [] == sent0;
    SendSettings(io);
    assert (sent0 + [SettingsFrame()]) + [] == sent0 + [SettingsFrame()];
    assert RunShows([], handler, c, out, conn.View(), io.healthy, sent0 + [SettingsFrame()], io.sent);
  }

  function Greeting(greeted: bool): seq<seq<byte>> {
    if greeted then [SettingsFrame()] else []
  }

  /** What one read adds: the preface, then every complete frame; stop says that the session is over. */
  method Absorb(conn: H2Connection, io: Io, acc: array<byte>, have0: nat, prefaceDone0: bool, handler: Handler,
                ghost stream: seq<byte>, ghost rest: seq<byte>, ghost sent0: seq<seq<byte>>,
                ghost frames0: seq<seq<byte>>)
    returns (stop: bool, have: nat, prefaceDone: bool, ghost frames: seq<seq<byte>>)
    requires conn.Valid() && io !in conn.Repr() && acc !in conn.Repr() && have0 <= acc.Length
    requires Unparsed(stream, prefaceDone0, acc[..have0], rest, frames0)
    requires Done(conn, io, sent0 + Greeting(prefaceDone0), frames0, handler)
    modifies conn.Repr(), io, acc
    ensures conn.Valid() && fresh(conn.Repr() - old(conn.Repr())) && io !in conn.Repr() && acc !in conn.Repr()
    ensures Done(conn, io, sent0 + Greeting(prefaceDone), frames, handler)
    ensures have <= acc.Length
    ensures if stop then SessionFrames(stream) == frames && Greeted(stream) == prefaceDone
            else Position(stream, prefaceDone, acc[..have], rest, frames)
  {
    hide Done, GreedyFrames, Greeting, SessionFrames, Partial, Ready, Size, PREFACE, H2Connection.Valid;
    stop, have, prefaceDone, frames := false, have0, prefaceDone0, frames0;
    var offset: nat := 0;
    if !prefaceDone {
      if have < PREFACE_SIZE {
        return;
      }
      PrefaceSeen(stream, acc[..have], rest, frames);
      assert acc[..have][..PREFACE_SIZE] == acc[..PREFACE_SIZE];
      if acc[..PREFACE_SIZE] != PREFACE {
        stop := true;
        return;
      }
      prefaceDone := true;
      NoGreeting(sent0);
      Greet(conn, io, handler, sent0);
      offset := PREFACE_SIZE;
      assert acc[..have][PREFACE_SIZE..] == acc[offset..have];
    } else {
      assert acc[..have] == acc[0..have];
    }
    offset, stop, frames := DrainFrames(conn, io, acc, have, offset, handler, sent0 + Greeting(true), frames, rest);
    if !stop {
      AfterDrain(stream, acc[offset..have], rest, frames);
      Compact(acc, offset, have);
      have := have - offset;
    }
  }

  lemma NoGreeting(sent0: seq<seq<byte>>)
    ensures sent0 + Greeting(false) == sent0
    ensures Greeting(true) == [SettingsFrame()]
  {}

  /** The buffer has its first size, or was doubled once. */
  ghost predicate FixedSize(size: nat) {
    size == BUFFER_SIZE || size == 2 * BUFFER_SIZE
  }

  /** One turn of the loop: a read behind what the buffer holds, then what that read adds. */
  method Turn(conn: H2Connection, tls: Tls, io: Io, acc: array<byte>, have0: nat, prefaceDone0: bool, handler: Handler,
              ghost stream: seq<byte>, ghost sent0: seq<seq<byte>>, ghost frames0: seq<seq<byte>>)
    returns (stop: bool, nacc: array<byte>, have: nat, prefaceDone: bool, ghost frames: seq<seq<byte>>)
    requires conn.Valid() && io !in conn.Repr() && tls !in conn.Repr() && acc !in conn.Repr()
    requires FixedSize(acc.Length) && have0 <= acc.Length
    requires Position(stream, prefaceDone0, acc[..have0], tls.rest, frames0)
    requires Done(conn, io, sent0 + Greeting(prefaceDone0), frames0, handler)
    modifies conn.Repr(), tls, io, acc
    ensures conn.Valid() && fresh(conn.Repr() - old(conn.Repr())) && io !in conn.Repr() && tls !in conn.Repr()
    ensures (nacc == acc || fresh(nacc)) && nacc !in conn.Repr()
    ensures FixedSize(nacc.Length) && have <= nacc.Length
    ensures Done(conn, io, sent0 + Greeting(prefaceDone), frames, handler)
    ensures if stop then SessionFrames(stream) == frames && Greeted(stream) == prefaceDone
            else Position(stream, prefaceDone, nacc[..have], tls.rest, frames) && |tls.rest| < |old(tls.rest)|
  {
    hide Done, GreedyFrames, Greeting, SessionFrames, Greeted, Position, Unparsed, Ready, Size, H2Connection.Valid;
    have, prefaceDone, frames := have0, prefaceDone0, frames0;
    ghost var held := acc[..have];
    HeldIsShort(stream, prefaceDone, held, tls.rest, frames);
    var bytes;
    nacc, bytes := Fill(tls, acc, have);
    if bytes == [] {
      AtEnd(stream, prefaceDone, held, frames);
      stop := true;
      return;
    }
    MoreHeld(stream, prefaceDone, held, bytes, tls.rest, frames);
    stop, have, prefaceDone, frames :=
      Absorb(conn, io, nacc, have + |bytes|, prefaceDone, handler, stream, tls.rest, sent0, frames);
  }

  /** Read, append, parse, keep the rest: until the stream ends or breaks the protocol. */
  method ReadLoop(conn: H2Connection, tls: Tls, io: Io, handler: Handler) returns (cap: nat)
    requires conn.Valid() && io !in conn.Repr() && tls !in conn.Repr() && Done(conn, io, io.sent, [], handler)
    modifies conn.Repr(), tls, io
    ensures conn.Valid() && cap <= 2 * BUFFER_SIZE
    ensures var stream := old(tls.rest);
            Done(conn, io, old(io.sent) + Greeting(Greeted(stream)), SessionFrames(stream), handler)
  {
    hide Done, GreedyFrames, Greeting, SessionFrames, Greeted, Position, Unparsed, Ready, Size, H2Connection.Valid;
    ghost var stream, sent0 := tls.rest, io.sent;
    ghost var frames: seq<seq<byte>> := [];
    var acc := new byte[BUFFER_SIZE];
    var have: nat, prefaceDone, stop := 0, false, false;
    AtStart(stream);
    NoGreeting(sent0);
    assert acc[..0] == [];
    while !stop
      invariant conn.Valid() && fresh(conn.Repr() - old(conn.Repr())) && io !in conn.Repr() && tls !in conn.Repr()
      invariant fresh(acc) && acc !in conn.Repr()
      invariant FixedSize(acc.Length) && have <= acc.Length
      invariant Done(conn, io, sent0 + Greeting(prefaceDone), frames, handler)
      invariant if stop then SessionFrames(stream) == frames && Greeted(stream) == prefaceDone
                else Position(stream, prefaceDone, acc[..have], tls.rest, frames)
      decreases if stop then 0 else 1, |tls.rest|
    {
      stop, acc, have, prefaceDone, frames :=
        Turn(conn, tls, io, acc, have, prefaceDone, handler, stream, sent0, frames);
    }
    cap := acc.Length;
  }

  /**
   However the stream is split across reads, the frames handed to the connection are those of one greedy parse of the
   whole stream, and the buffer never exceeds 32768 bytes. The state is that of a possible run over those frames, but
   for stream states when writes fail; when none fails, output and state are those of the run. It is the specified
   run when every frame is defined.
   */
  method RunSession(tls: Tls, io: Io, handler: Handler)
    returns (conn: H2Connection, cap: nat, ghost end: Conn, ghost out: seq<seq<byte>>)
    modifies tls, io
    ensures fresh(conn) && conn.Valid() && cap <= 2 * BUFFER_SIZE
    ensures conn.handled == SessionFrames(old(tls.rest))
    ensures PossibleRun(InitialConn, SessionFrames(old(tls.rest)), handler, end, out) && Alike(conn.View(), end)
    ensures AllDefined(InitialConn, SessionFrames(old(tls.rest)), handler) ==>
              var r := ProcessAll(InitialConn, SessionFrames(old(tls.rest)), handler);
              end == r.conn && out == r.out
    ensures io.healthy ==>
              && conn.View() == end
              && io.sent == old(io.sent) + (if Greeted(old(tls.rest)) then [SettingsFrame()] else []) + out
  {
    hide PossibleRun, Alike, AllDefined, ProcessAll, SessionFrames, SettingsFrame, Greeted, Ready, Size;
    conn := new H2Connection();
    NothingDone(handler, io.healthy, io.sent);
    ghost var stream, sent0 := tls.rest, io.sent;
    cap := ReadLoop(conn, tls, io, handler);
    end, out :| RunShows(SessionFrames(stream), handler, end, out, conn.View(), io.healthy,
                         sent0 + Greeting(Greeted(stream)), io.sent);
    if AllDefined(InitialConn, SessionFrames(stream), handler) {
      DefinedRunIsFunction(InitialConn, SessionFrames(stream), handler, end, out);
    }
  }
}
