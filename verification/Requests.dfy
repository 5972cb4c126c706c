/** What a request holds after a header block: the last method and path sent, and the other fields in order. */
module Requests {
  import opened Basics
  import opened Bits
  import opened DynamicTable
  import opened StaticTable
  import opened Hpack
  import opened HpackRoundTrip
  import opened HpackBlock
  import opened Frames
  import opened H2State
  import opened EndToEnd

  // ---------------------------------------------------------------- methods

  /** The name of a method (section 4 of RFC 7231). */
  function MethodName(m: Method): string
    requires m != UNKNOWN
  {
    match m
    case GET => "GET"
    case POST => "POST"
    case PUT => "PUT"
    case DELETE => "DELETE"
    case HEAD => "HEAD"
    case OPTIONS => "OPTIONS"
    case PATCH => "PATCH"
  }

  /** Names differ in length or in their first letter. */
  lemma NamesDiffer()
    ensures forall m, n :: m != UNKNOWN && n != UNKNOWN && m != n ==> Ascii(MethodName(m)) != Ascii(MethodName(n))
  {
    assert Ascii("GET")[0] == 71 && Ascii("PUT")[0] == 80;
    assert Ascii("POST")[0] == 80 && Ascii("HEAD")[0] == 72;
  }

  /** Every known method is read from its name and from nothing else. */
  lemma MethodFromName(v: seq<byte>, m: Method)
    requires m != UNKNOWN
    ensures ParseMethod(v) == m <==> v == Ascii(MethodName(m))
  {
    hide Ascii;
    NamesDiffer();
    assert MethodName(GET) == "GET" && MethodName(POST) == "POST" && MethodName(PUT) == "PUT";
    assert MethodName(DELETE) == "DELETE" && MethodName(HEAD) == "HEAD" && MethodName(OPTIONS) == "OPTIONS";
  }

  // ---------------------------------------------------------------- any list of fields

  /** The value of the last field of that name. */
  function LastValue(es: seq<Entry>, name: seq<byte>): Option<seq<byte>> {
    if es == [] then None
    else if es[|es| - 1].name == name then Some(es[|es| - 1].value)
    else LastValue(es[..|es| - 1], name)
  }

  /** The fields that are no pseudo-fields, in order. */
  function OrdinaryFields(es: seq<Entry>): seq<Entry> {
    if es == [] then []
    else OrdinaryFields(es[..|es| - 1]) + if IsPseudo(es[|es| - 1].name) then [] else [es[|es| - 1]]
  }

  function Front(es: seq<Entry>, n: nat): seq<Entry> {
    if |es| <= n then es else es[..n]
  }

  lemma {:induction false} StoreSnoc(r: Request, es: seq<Entry>, e: Entry)
    ensures StoreFields(r, es + [e]) == StoreField(StoreFields(r, es), e)
    decreases |es|
  {
    hide StoreField;
    var all := es + [e];
    if es == [] {
      assert all[1..] == [];
    } else {
      StoreSnoc(StoreField(r, es[0]), es[1..], e);
      assert all[1..] == es[1..] + [e];
    }
  }

  /**
   Whatever fields come in: the method is that of the last ":method", the path the clipped value of the last ":path",
   each unchanged if there is none; the headers are those there were and the ordinary fields, in order, up to 64;
   body and version stay.
   */
  lemma {:induction false} StoredRequest(r: Request, es: seq<Entry>)
    requires |r.headers| <= MAX_HEADERS
    ensures var q, verb, path := StoreFields(r, es), LastValue(es, Ascii(":method")), LastValue(es, Ascii(":path"));
            && q.verb == (if verb.Some? then ParseMethod(verb.value) else r.verb)
            && q.path == (if path.Some? then Clip(path.value, MAX_PATH - 1) else r.path)
            && q.headers == Front(r.headers + OrdinaryFields(es), MAX_HEADERS)
            && q.body == r.body && q.http2 == r.http2
    decreases |es|
  {
    hide Ascii, ParseMethod, Clip, IsPseudo;
    PseudoNames();
    if es == [] {
      assert r.headers + OrdinaryFields(es) == r.headers;
    } else {
      var n := |es| - 1;
      var front, e := es[..n], es[n];
      assert es == front + [e];
      StoredRequest(r, front);
      StoreSnoc(r, front, e);
      StoreOne(StoreFields(r, front), r.headers + OrdinaryFields(front), e);
      assert r.headers + OrdinaryFields(es)
          == r.headers + OrdinaryFields(front) + if IsPseudo(e.name) then [] else [e];
    }
  }

  /** One more field, when the headers are the front of those that came in. */
  lemma StoreOne(r: Request, came: seq<Entry>, e: Entry)
    requires r.headers == Front(came, MAX_HEADERS)
    ensures var q := StoreField(r, e);
            && q.verb == (if e.name == Ascii(":method") then ParseMethod(e.value) else r.verb)
            && q.path == (if e.name == Ascii(":path") then Clip(e.value, MAX_PATH - 1) else r.path)
            && q.headers == Front(came + if IsPseudo(e.name) then [] else [e], MAX_HEADERS)
            && q.body == r.body && q.http2 == r.http2
  {
    hide Ascii, ParseMethod, Clip, IsPseudo;
    PseudoNames();
    FrontSnoc(came, e);
    assert came + [] == came;
  }

  lemma FrontSnoc(es: seq<Entry>, e: Entry)
    ensures Front(es + [e], MAX_HEADERS)
         == Front(es, MAX_HEADERS) + if |es| < MAX_HEADERS then [e] else []
  {}

  /**
   A request on a fresh stream, from a peer with an equal table: the handler sees the method and path that were sent,
   and the other fields in order.
   */
  lemma RequestArrives(c: Conn, id: nat, last: bool, room: nat, hs: seq<Entry>)
    requires Kept(c.dec) && AllFaithful(c.dec, room, hs) && !HasStream(c.streams, id) && id < 0x8000_0000
    requires |EncodedBlock(c.dec, room, hs).bytes| <= MAX_FRAME
    ensures var flags: byte := if last then END_HEADERS + END_STREAM else END_HEADERS;
            var r := Process(c, Frame(HEADERS, flags, id, EncodedBlock(c.dec, room, hs).bytes), None);
            var q := FindOrNew(r.conn.streams, id).request;
            var verb, path := LastValue(hs, Ascii(":method")), LastValue(hs, Ascii(":path"));
            && q.verb == (if verb.Some? then ParseMethod(verb.value) else GET)
            && q.path == (if path.Some? then Clip(path.value, MAX_PATH - 1) else [])
            && q.headers == Front(OrdinaryFields(hs), MAX_HEADERS) && q.body == [] && q.http2
  {
    hide Process, AllFaithful, EncodedBlock, DecodedBlock, StoreFields, Ascii, ParseMethod, Clip, OrdinaryFields,
         Frame;
    BlockRoundTrip(c.dec, room, hs);
    HeadersFrame(c, id, EncodedBlock(c.dec, room, hs).bytes, last);
    StoredRequest(EmptyRequest.(http2 := true), hs);
    assert [] + OrdinaryFields(hs) == OrdinaryFields(hs);
  }
}
