/** Writing a response as frames: the frame callback, the shared buffer, and the chunk loop. */
module Sending {
  import opened Bits
  import opened PrefixCode
  import opened DynamicTable
  import opened StaticTable
  import opened Hpack
  import opened HpackBlock
  import opened HpackCodec
  import opened Frames
  import opened H2State

  /** The frame callback. A healthy channel never fails; any other may refuse any write. */
  class Io {
    var sent: seq<seq<byte>>
    const healthy: bool

    constructor (healthy: bool)
      ensures sent == [] && this.healthy == healthy
    {
      sent := [];
      this.healthy := healthy;
    }

    method WriteFrame(frame: seq<byte>) returns (ok: bool)
      modifies this
      ensures sent == if ok then old(sent) + [frame] else old(sent)
      ensures healthy ==> ok
    {
      ok := *;
      ok := ok || healthy;
      if ok {
        sent := sent + [frame];
      }
    }
  }

  /** What was sent is some of the frames, in order; all of them on success. */
  ghost predicate SentSome(before: seq<seq<byte>>, after: seq<seq<byte>>, frames: seq<seq<byte>>, ok: bool) {
    exists k :: 0 <= k <= |frames| && after == before + frames[..k] && (ok ==> k == |frames|)
  }

  method SendWindowUpdate(io: Io, stream: nat, increment: nat)
    modifies io
    ensures SentSome(old(io.sent), io.sent, [WindowUpdate(stream, increment)], io.healthy)
  {
    var frame := new byte[13];
    WriteHeader(frame, 0, FrameHeader(4, WINDOW_UPDATE, 0, stream));
    frame[9] := increment / 0x100_0000 % 0x80;
    frame[10] := increment / 0x1_0000 % 0x100;
    frame[11] := increment / 0x100 % 0x100;
    frame[12] := increment % 0x100;
    FourBytes(increment % 0x8000_0000);
    TopBitMasked(increment);
    assert frame[..] == frame[0..9] + [frame[9], frame[10], frame[11], frame[12]];
    var ok := io.WriteFrame(frame[..]);
    SentOne(old(io.sent), WindowUpdate(stream, increment), ok);
  }

  lemma SentOne(before: seq<seq<byte>>, frame: seq<byte>, ok: bool)
    ensures SentSome(before, if ok then before + [frame] else before, [frame], ok)
  {
    var one := [frame];
    assert one[..1] == one && before + one[..0] == before;
  }

  // ---------------------------------------------------------------- the header block

  method LowerName(name: seq<byte>) returns (lname: seq<byte>)
    requires |name| <= MAX_NAME
    ensures lname == Lower(name)
  {
    lname := [];
    var n := 0;
    while n < |name| && n + 1 < 128
      invariant 0 <= n <= |name| && lname == Lower(name[..n])
    {
      var c := name[n];
      lname := lname + [if 65 <= c <= 90 then c - 65 + 97 else c];
      n := n + 1;
    }
    assert name[..n] == name;
  }

  /** Encodes the status and the lowercased headers, one after the other, dropping what does not fit. */
  method EncodeFields(enc: HpackContext, frame: array<byte>, r: Response) returns (offset: nat)
    requires enc.Valid() && frame.Length >= MAX_FRAME
    modifies enc, enc.table, frame
    ensures enc.Valid() && (enc.table == old(enc.table) || fresh(enc.table)) && enc.peak == old(enc.peak)
    ensures offset <= MAX_FRAME && frame[..offset] == ResponseBlock(old(enc.Contents()), r).bytes
    ensures enc.Contents() == ResponseBlock(old(enc.Contents()), r).table
  {
    hide EncodedHeader, TableAfter, StatusText, Ascii, EncodedSoFar, EncodedBlock, Size;
    ghost var t0, fields := enc.Contents(), FieldsOf(r);
    StatusFits(r.status);
    offset := EncodeHeader(enc, frame, 0, MAX_FRAME, Entry(Ascii(":status"), StatusText(r.status)));
    FirstEncoded(t0, fields, frame[..offset], enc.Contents());
    var i := 0;
    while i < |r.headers|
      invariant 0 <= i <= |r.headers| && offset <= MAX_FRAME
      invariant enc.Valid() && (enc.table == old(enc.table) || fresh(enc.table)) && enc.peak == old(enc.peak)
      invariant EncodedSoFar(t0, fields, i + 1, frame[..offset], enc.Contents())
    {
      assert r.headers[i] in r.headers;
      var lname := LowerName(r.headers[i].name);
      var e := Entry(lname, r.headers[i].value);
      ghost var t, before := enc.Contents(), frame[..offset];
      var n := EncodeHeader(enc, frame, offset, MAX_FRAME - offset, e);
      assert frame[..offset + n] == before + frame[offset..offset + n];
      NextEncoded(t0, fields, i + 1, before, t, frame[..offset + n], enc.Contents());
      offset := offset + n;
      i := i + 1;
    }
    AllEncoded(t0, fields, frame[..offset], enc.Contents());
  }

  /** After n fields: the bytes so far, with the rest of the block, are the whole block. */
  ghost predicate EncodedSoFar(t0: Table, fields: seq<Entry>, n: nat, bytes: seq<byte>, t: Table) {
    && n <= |fields| && |bytes| <= MAX_FRAME
    && var rest := EncodedBlock(t, MAX_FRAME - |bytes|, fields[n..]);
    EncodedBlock(t0, MAX_FRAME, fields) == Block(bytes + rest.bytes, rest.table)
  }

  lemma FirstEncoded(t0: Table, fields: seq<Entry>, bytes: seq<byte>, t: Table)
    requires fields != [] && bytes == EncodedHeader(t0, MAX_FRAME, fields[0])
    requires t == TableAfter(t0, MAX_FRAME, fields[0])
    ensures EncodedSoFar(t0, fields, 1, bytes, t)
  {
    hide EncodedHeader, TableAfter;
  }

  lemma NextEncoded(t0: Table, fields: seq<Entry>, n: nat, before: seq<byte>, t: Table, bytes: seq<byte>, t': Table)
    requires n < |fields| && EncodedSoFar(t0, fields, n, before, t)
    requires bytes == before + EncodedHeader(t, MAX_FRAME - |before|, fields[n])
    requires t' == TableAfter(t, MAX_FRAME - |before|, fields[n])
    ensures EncodedSoFar(t0, fields, n + 1, bytes, t')
  {
    hide EncodedHeader, TableAfter;
    assert fields[n..][0] == fields[n] && fields[n..][1..] == fields[n + 1..];
    var rest := EncodedBlock(t', MAX_FRAME - |bytes|, fields[n + 1..]);
    Reassociate(before, EncodedHeader(t, MAX_FRAME - |before|, fields[n]), rest.bytes);
  }

  lemma AllEncoded(t0: Table, fields: seq<Entry>, bytes: seq<byte>, t: Table)
    requires EncodedSoFar(t0, fields, |fields|, bytes, t)
    ensures EncodedBlock(t0, MAX_FRAME, fields) == Block(bytes, t)
  {
    assert fields[|fields|..] == [];
    assert bytes + [] == bytes;
  }

  lemma StatusFits(status: int)
    ensures Fits(Entry(Ascii(":status"), StatusText(status)))
  {}

  // ---------------------------------------------------------------- the frames

  /** Header and payload into the frame area of the buffer, and out. */
  method SendFrame(io: Io, frame: array<byte>, at: nat, kind: byte, flags: byte, stream: nat, payload: seq<byte>)
    returns (ok: bool)
    requires at + HEADER_SIZE + |payload| <= frame.Length
    modifies io, frame
    ensures io.sent == if ok then old(io.sent) + [Frame(kind, flags, stream, payload)] else old(io.sent)
    ensures io.healthy ==> ok
  {
    hide HeaderBytes;
    var mid, end := at + HEADER_SIZE, at + HEADER_SIZE + |payload|;
    WriteHeader(frame, at, FrameHeader(|payload|, kind, flags, stream));
    ghost var head := frame[..mid];
    assert head[at..mid] == frame[at..mid];
    Copy(frame, mid, payload);
    assert frame[at..mid] == frame[..mid][at..mid] == head[at..mid];
    Rejoined(frame[..], at, mid, end);
    assert frame[..][at..end] == frame[at..end] && frame[..][at..mid] == frame[at..mid];
    assert frame[..][mid..end] == frame[mid..end];
    ok := io.WriteFrame(frame[at..end]);
  }

  /** A response out: HEADERS, then the body in chunks; stops at the first write that fails. */
  method SendHeaders(io: Io, enc: HpackContext, remote: Settings, stream: Stream, r: Response)
    returns (ok: bool, state: State)
    requires enc.Valid()
    modifies io, enc, enc.table
    ensures enc.Valid() && (enc.table == old(enc.table) || fresh(enc.table)) && enc.peak == old(enc.peak)
    ensures enc.Contents() == ResponseBlock(old(enc.Contents()), r).table
    ensures SentSome(old(io.sent), io.sent, ResponseFrames(old(enc.Contents()), remote, stream.id, r), ok)
    ensures io.healthy ==> ok
    ensures ok ==> state == StateAfterResponse(stream.state, r)
  {
    hide Frame, FieldsOf, EncodedBlock;
    var frame := new byte[2 * (HEADER_SIZE + MAX_FRAME)];
    var at := HEADER_SIZE + MAX_FRAME;
    var offset := EncodeFields(enc, frame, r);
    var flags: byte := if r.body == [] then END_HEADERS + END_STREAM else END_HEADERS;
    ghost var frames := ResponseFrames(old(enc.Contents()), remote, stream.id, r);
    state := stream.state;
    ok := SendFrame(io, frame, at, HEADERS, flags, stream.id, frame[..offset]);
    assert frames[..1] == [frames[0]] && old(io.sent) + frames[..0] == old(io.sent);
    if !ok {
      return;
    }
    if r.body == [] {
      state := CLOSED;
    } else {
      if state == IDLE || state == OPEN {
        state := HALF_CLOSED_LOCAL;
      }
      ghost var head := io.sent;
      ok, state := SendBody(io, frame, at, stream.id, r.body, MaxChunk(remote), state);
      ghost var data := DataFrames(stream.id, r.body, MaxChunk(remote));
      ghost var k :| 0 <= k <= |data| && io.sent == head + data[..k] && (ok ==> k == |data|);
      assert frames[..k + 1] == [frames[0]] + data[..k];
      Reassociate(old(io.sent), [frames[0]], data[..k]);
      assert io.sent == old(io.sent) + frames[..k + 1];
    }
  }

  method SendBody(io: Io, frame: array<byte>, at: nat, id: nat, body: seq<byte>, chunk: nat, state0: State)
    returns (ok: bool, state: State)
    requires 0 < chunk <= MAX_FRAME && at + HEADER_SIZE + MAX_FRAME <= frame.Length && body != []
    modifies io, frame
    ensures SentSome(old(io.sent), io.sent, DataFrames(id, body, chunk), ok)
    ensures io.healthy ==> ok
    ensures ok ==> state == if state0 == HALF_CLOSED_REMOTE then CLOSED else HALF_CLOSED_LOCAL
  {
    hide Frame;
    state := state0;
    var pos := 0;
    ghost var frames, k := DataFrames(id, body, chunk), 0;
    assert body[0..] == body;
    while pos < |body|
      invariant 0 <= pos <= |body| && k <= |frames|
      invariant frames[k..] == DataFrames(id, body[pos..], chunk) && io.sent == old(io.sent) + frames[..k]
      invariant state == if pos < |body| then state0
                         else if state0 == HALF_CLOSED_REMOTE then CLOSED else HALF_CLOSED_LOCAL
    {
      var remaining := |body| - pos;
      var size := if remaining < chunk then remaining else chunk;
      var flags: byte := if remaining == size then END_STREAM else 0;
      NextChunk(id, body, pos, chunk);
      assert frames[k] == frames[k..][0];
      ok := SendFrame(io, frame, at, DATA, flags, id, body[pos..pos + size]);
      if !ok {
        return;
      }
      assert frames[..k + 1] == frames[..k] + [frames[k]];
      assert frames[k + 1..] == frames[k..][1..];
      pos := pos + size;
      k := k + 1;
      if flags == END_STREAM {
        state := if state == HALF_CLOSED_REMOTE then CLOSED else HALF_CLOSED_LOCAL;
      }
    }
    assert frames[k..] == [];
    assert frames[..k] == frames;
    ok := true;
  }

  lemma NextChunk(id: nat, body: seq<byte>, pos: nat, chunk: nat)
    requires pos < |body| && chunk > 0
    ensures var n := if |body| - pos < chunk then |body| - pos else chunk;
            DataFrames(id, body[pos..], chunk)
            == [Frame(DATA, if n == |body| - pos then END_STREAM else 0, id, body[pos..pos + n])]
               + DataFrames(id, body[pos + n..], chunk)
  {
    hide Frame;
    var rest := body[pos..];
    if |rest| <= chunk {
      assert body[pos..pos + |rest|] == rest;
      assert body[pos + |rest|..] == [];
    } else {
      assert rest[..chunk] == body[pos..pos + chunk] && rest[chunk..] == body[pos + chunk..];
    }
  }
}
