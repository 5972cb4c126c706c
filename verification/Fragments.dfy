/** Header blocks split over CONTINUATION frames: what the receiver makes of them. */
module Fragments {
  import opened Basics
  import opened Bits
  import opened Varint
  import opened PrefixCode
  import opened DynamicTable
  import opened StaticTable
  import opened Hpack
  import opened HpackBlock
  import opened Frames
  import opened H2State
  import opened StreamList
  import opened EndToEnd

  function Concat(fragments: seq<seq<byte>>): seq<byte>
    decreases |fragments|
  {
    if fragments == [] then [] else fragments[0] + Concat(fragments[1..])
  }

  ghost predicate FitFrames(fragments: seq<seq<byte>>) {
    forall f :: f in fragments ==> |f| < 0x100_0000
  }

  function Continuations(id: nat, flags: byte, fragments: seq<seq<byte>>): (frames: seq<seq<byte>>)
    decreases |fragments|
  {
    if fragments == [] then []
    else [Frame(CONTINUATION, flags, id, fragments[0])] + Continuations(id, flags, fragments[1..])
  }

  /** HEADERS without END_HEADERS, middle CONTINUATION frames, and the one that ends the block. */
  function Split(id: nat, flags: byte, first: seq<byte>, middle: seq<seq<byte>>, last: seq<byte>): seq<seq<byte>> {
    [Frame(HEADERS, flags, id, first)] + Continuations(id, 0, middle) + [Frame(CONTINUATION, END_HEADERS, id, last)]
  }

  lemma ContinuationProcessed(c: Conn, flags: byte, id: nat, payload: seq<byte>, handler: Handler)
    requires |payload| < 0x100_0000 && id < 0x8000_0000
    ensures Process(c, Frame(CONTINUATION, flags, id, payload), handler)
         == OnContinuation(c, FrameHeader(|payload|, CONTINUATION, flags, id), payload, handler)
  {
    hide Frame, ParsedHeader, PayloadOf, WholeFrame, OnSettings, OnContinuation, OnPing, OnHeaders;
    FrameIsWhole(CONTINUATION, flags, id, payload);
  }

  lemma ContinuationDefined(c: Conn, flags: byte, id: nat, payload: seq<byte>)
    requires |payload| < 0x100_0000 && 0 < id < 0x8000_0000 && c.pending.Some? && c.pending.value.stream == id
    ensures Defined(c, Frame(CONTINUATION, flags, id, payload))
       <==> !HasFlag(flags, END_HEADERS) || !OverReads(c.dec, c.pending.value.block)
  {
    hide Frame, ParsedHeader, PayloadOf, WholeFrame, OverReads, HasFlag;
    FrameIsWhole(CONTINUATION, flags, id, payload);
  }

  lemma MiddleStep(c: Conn, id: nat, block: seq<byte>, payload: seq<byte>, handler: Handler)
    requires c.pending == Some(Pending(block, id)) && 0 < id < 0x8000_0000 && |payload| < 0x100_0000
    ensures Process(c, Frame(CONTINUATION, 0, id, payload), handler)
         == Outcome(c.(pending := Some(Pending(block + payload, id))), [], true)
  {
    hide Process, Frame, ApplyBlock;
    ContinuationProcessed(c, 0, id, payload, handler);
    assert !HasFlag(0, END_HEADERS);
  }

  lemma {:induction false} MiddleCollected(c: Conn, id: nat, block: seq<byte>, middle: seq<seq<byte>>, handler: Handler)
    requires c.pending == Some(Pending(block, id)) && 0 < id < 0x8000_0000 && FitFrames(middle)
    ensures ProcessAll(c, Continuations(id, 0, middle), handler)
         == Outcome(c.(pending := Some(Pending(block + Concat(middle), id))), [], true)
    ensures AllDefined(c, Continuations(id, 0, middle), handler)
    decreases |middle|
  {
    hide Process, Frame, Defined, AllDefined, HasFlag, OverReads;
    NoneDefined(c, handler);
    if middle == [] {
      assert block + Concat(middle) == block;
      assert c.(pending := Some(Pending(block, id))) == c;
    } else {
      MiddleStep(c, id, block, middle[0], handler);
      var c1 := c.(pending := Some(Pending(block + middle[0], id)));
      MiddleCollected(c1, id, block + middle[0], middle[1..], handler);
      Reassociate(block, middle[0], Concat(middle[1..]));
      var frames := Continuations(id, 0, middle);
      assert frames[1..] == Continuations(id, 0, middle[1..]);
      ContinuationDefined(c, 0, id, middle[0]);
      EndFlags();
      FirstDefined(c, frames, handler);
    }
  }

  lemma NoneDefined(c: Conn, handler: Handler)
    ensures AllDefined(c, [], handler)
  {}

  lemma EndFlags()
    ensures HasFlag(END_HEADERS, END_HEADERS) && !HasFlag(0, END_HEADERS)
  {}

  lemma FlagAdded(flags: byte)
    requires !HasFlag(flags, END_HEADERS)
    ensures flags + END_HEADERS < 256 && HasFlag(flags + END_HEADERS, END_HEADERS)
    ensures HasFlag(flags + END_HEADERS, END_STREAM) == HasFlag(flags, END_STREAM)
  {}

  /** The connection when all fragments but the last have arrived. */
  function Waiting(c: Conn, id: nat, flags: byte, block: seq<byte>): Conn {
    c.(streams := WithStream(c.streams, OpenedBy(FindOrNew(c.streams, id), flags)), pending := Some(Pending(block, id)))
  }

  lemma Gathered(c: Conn, id: nat, flags: byte, first: seq<byte>, middle: seq<seq<byte>>, handler: Handler)
    requires c.pending.None? && 0 < id < 0x8000_0000 && !HasFlag(flags, END_HEADERS)
    requires FitFrames(middle) && |first| < 0x100_0000
    ensures var frames := [Frame(HEADERS, flags, id, first)] + Continuations(id, 0, middle);
            && ProcessAll(c, frames, handler) == Outcome(Waiting(c, id, flags, first + Concat(middle)), [], true)
            && AllDefined(c, frames, handler)
  {
    hide Defined, AllDefined, OverReads, Process, Frame, ProcessAll, ApplyBlock, OpenedBy, HasFlag, WithStream,
         FindOrNew;
    HeadersProcessed(c, flags, id, first, handler);
    var c1 := Waiting(c, id, flags, first);
    assert [] + first == first;
    var f1, f2 := [Frame(HEADERS, flags, id, first)], Continuations(id, 0, middle);
    OneFrame(c, f1[0], handler);
    MiddleCollected(c1, id, first, middle, handler);
    ProcessAllConcat(c, f1, f2, handler);
    HeadersDefined(c, flags, id, first);
    OneDefined(c, f1[0], handler);
    AllDefinedConcat(c, f1, f2, handler);
  }

  /**
   Any split of a header block has the effect of one HEADERS frame with all fragments but the
   last: same connection, same frames written. With an empty last fragment that is the whole block.
   */
  lemma SplitIsWhole(c: Conn, id: nat, flags: byte, first: seq<byte>, middle: seq<seq<byte>>, last: seq<byte>,
                     handler: Handler)
    requires c.pending.None? && 0 < id < 0x8000_0000 && !HasFlag(flags, END_HEADERS) && flags + END_HEADERS < 256
    requires FitFrames(middle) && |first| + |Concat(middle)| < 0x100_0000 && |last| < 0x100_0000
    ensures ProcessAll(c, Split(id, flags, first, middle, last), handler)
         == Process(c, Frame(HEADERS, flags + END_HEADERS, id, first + Concat(middle)), handler)
    ensures AllDefined(c, Split(id, flags, first, middle, last), handler)
       <==> Defined(c, Frame(HEADERS, flags + END_HEADERS, id, first + Concat(middle)))
  {
    hide Defined, AllDefined, OverReads, Process, Frame, ProcessAll, ApplyBlock, OpenedBy, HasFlag, WithStream,
         FindOrNew;
    var block := first + Concat(middle);
    FlagAdded(flags);
    HeadersProcessed(c, flags + END_HEADERS, id, block, handler);
    var s, c2 := OpenedBy(FindOrNew(c.streams, id), flags), Waiting(c, id, flags, block);
    OpenedIgnoresHeaders(FindOrNew(c.streams, id), flags);
    Gathered(c, id, flags, first, middle, handler);
    LastContinuation(c, c2, s, id, block, last, handler);
    var front := [Frame(HEADERS, flags, id, first)] + Continuations(id, 0, middle);
    var end := [Frame(CONTINUATION, END_HEADERS, id, last)];
    OneFrame(c2, end[0], handler);
    ProcessAllConcat(c, front, end, handler);
    HeadersDefined(c, flags + END_HEADERS, id, block);
    OneDefined(c2, end[0], handler);
    ContinuationDefined(c2, END_HEADERS, id, last);
    EndFlags();
    AllDefinedConcat(c, front, end, handler);
  }

  /** The same whatever memory holds: both have the same possible outcomes. */
  lemma SplitIsWholeAnyMemory(c: Conn, id: nat, flags: byte, first: seq<byte>, middle: seq<seq<byte>>, last: seq<byte>,
                              handler: Handler, conn: Conn, out: seq<seq<byte>>)
    requires c.pending.None? && 0 < id < 0x8000_0000 && !HasFlag(flags, END_HEADERS) && flags + END_HEADERS < 256
    requires FitFrames(middle) && |first| + |Concat(middle)| < 0x100_0000 && |last| < 0x100_0000
    ensures PossibleRun(c, Split(id, flags, first, middle, last), handler, conn, out)
       <==> Possible(c, Frame(HEADERS, flags + END_HEADERS, id, first + Concat(middle)), handler,
                     Outcome(conn, out, true))
  {
    hide AllDefined, Possible, Process, Frame, ProcessAll, PossibleRun, AppliesSome, OpenedBy, HasFlag, WithStream,
         FindOrNew;
    var block := first + Concat(middle);
    var s, c2 := OpenedBy(FindOrNew(c.streams, id), flags), Waiting(c, id, flags, block);
    var front := [Frame(HEADERS, flags, id, first)] + Continuations(id, 0, middle);
    var end := Frame(CONTINUATION, END_HEADERS, id, last);
    OpenedIgnoresHeaders(FindOrNew(c.streams, id), flags);
    FlagAdded(flags);
    Gathered(c, id, flags, first, middle, handler);
    LastPossible(c, c2, s, block, last, handler, Outcome(conn, out, true));
    LastStep(c, front, end, handler, c2, conn, out);
    HeadersPossible(c, flags + END_HEADERS, id, block, handler, Outcome(conn, out, true));
  }

  /** Behind frames that write nothing and have one outcome, a run is its last step. */
  lemma LastStep(c: Conn, front: seq<seq<byte>>, end: seq<byte>, handler: Handler, mid: Conn, conn: Conn,
                 out: seq<seq<byte>>)
    requires ProcessAll(c, front, handler) == Outcome(mid, [], true) && AllDefined(c, front, handler)
    requires WholeFrame(end)
    ensures PossibleRun(c, front + [end], handler, conn, out) <==> Possible(mid, end, handler, Outcome(conn, out, true))
  {
    hide AllDefined, Possible, ProcessAll, WholeFrame;
    var all := front + [end];
    assert all[..|all| - 1] == front && all[|all| - 1] == end;
    if PossibleRun(c, all, handler, conn, out) {
      RunEnds(c, front, end, handler, mid, conn, out);
    }
    if Possible(mid, end, handler, Outcome(conn, out, true)) {
      DefinedRunExists(c, front, handler);
      NextPossible(c, front, handler, mid, [], end, Outcome(conn, out, true));
      assert [] + out == out;
    }
  }

  lemma RunEnds(c: Conn, front: seq<seq<byte>>, end: seq<byte>, handler: Handler, mid: Conn, conn: Conn,
                out: seq<seq<byte>>)
    requires ProcessAll(c, front, handler) == Outcome(mid, [], true) && AllDefined(c, front, handler)
    requires WholeFrame(end) && PossibleRun(c, front + [end], handler, conn, out)
    ensures Possible(mid, end, handler, Outcome(conn, out, true))
  {
    hide AllDefined, Possible, ProcessAll, WholeFrame;
    var all := front + [end];
    assert all[..|all| - 1] == front && all[|all| - 1] == end;
    var mid', before, r :| PossibleStep(c, all, handler, mid', before, r, conn, out);
    DefinedRunIsFunction(c, front, handler, mid', before);
    WholeIsOk(mid, end, handler, r);
    assert [] + r.out == r.out;
  }

  /** A whole frame is never refused. */
  lemma WholeIsOk(c: Conn, f: seq<byte>, handler: Handler, r: Outcome)
    requires WholeFrame(f) && Possible(c, f, handler, r)
    ensures r.ok
  {
    hide ParsedHeader, FindOrNew, WithStream, HasFlag, BlockReads, StoreFields, ResponseFrames, ResponseBlock;
  }

  lemma HeadersPossible(c: Conn, flags: byte, id: nat, block: seq<byte>, handler: Handler, r: Outcome)
    requires |block| < 0x100_0000 && id < 0x8000_0000 && HasFlag(flags, END_HEADERS)
    ensures Possible(c, Frame(HEADERS, flags, id, block), handler, r)
       <==> AppliesSome(c, OpenedBy(FindOrNew(c.streams, id), flags), block, handler, r)
  {
    hide Frame, ParsedHeader, PayloadOf, WholeFrame, HasFlag, AppliesSome, OpenedBy, FindOrNew;
    FrameIsWhole(HEADERS, flags, id, block);
  }

  lemma LastPossible(c: Conn, c2: Conn, s: Stream, block: seq<byte>, last: seq<byte>, handler: Handler, r: Outcome)
    requires 0 < s.id < 0x8000_0000 && |last| < 0x100_0000 && s.request.http2 && c.pending.None?
    requires c2 == c.(streams := WithStream(c.streams, s), pending := Some(Pending(block, s.id)))
    ensures WholeFrame(Frame(CONTINUATION, END_HEADERS, s.id, last))
    ensures Possible(c2, Frame(CONTINUATION, END_HEADERS, s.id, last), handler, r)
       <==> AppliesSome(c, s, block, handler, r)
  {
    hide Frame, ParsedHeader, PayloadOf, WholeFrame, HasFlag, ApplyFields, BlockReads, WithStream, FindOrNew;
    FrameIsWhole(CONTINUATION, END_HEADERS, s.id, last);
    EndFlags();
    forall fields
      ensures FindOrNew(c2.streams, s.id) == s
      ensures ApplyFields(c2.(pending := None), s, fields, handler) == ApplyFields(c, s, fields, handler)
    {
      LastFields(c, c2, s, block, fields, handler);
    }
    assert s.(request := s.request.(http2 := true)) == s;
  }

  lemma OpenedIgnoresHeaders(s: Stream, flags: byte)
    requires !HasFlag(flags, END_HEADERS) && flags + END_HEADERS < 256
    ensures OpenedBy(s, flags + END_HEADERS) == OpenedBy(s, flags)
    ensures OpenedBy(s, flags).id == s.id && OpenedBy(s, flags).request.http2
  {
    FlagAdded(flags);
  }

  /** The stream is stored already; the fields of the block have the same effect. */
  lemma LastFields(c: Conn, c2: Conn, s: Stream, block: seq<byte>, fields: Fields, handler: Handler)
    requires s.request.http2 && c.pending.None?
    requires c2 == c.(streams := WithStream(c.streams, s), pending := Some(Pending(block, s.id)))
    ensures FindOrNew(c2.streams, s.id) == s
    ensures ApplyFields(c2.(pending := None), s, fields, handler) == ApplyFields(c, s, fields, handler)
  {
    hide StoreFields, WithStream, FindOrNew, ResponseFrames, EncodedBlock, FieldsOf;
    FoundAfterStoring(c.streams, s, s.id);
    var s' := s.(request := StoreFields(s.request, fields.list));
    StoredTwice(c.streams, s, s');
    match handler
    case None =>
    case Some(f) =>
      StoredTwice(c.streams, s, s'.(state := StateAfterResponse(s'.state, f(s'.request))));
  }

  /** The frame that ends the block: its own payload plays no part. */
  lemma LastContinuation(c: Conn, c2: Conn, s: Stream, id: nat, block: seq<byte>, last: seq<byte>, handler: Handler)
    requires 0 < id < 0x8000_0000 && |last| < 0x100_0000 && s.id == id && s.request.http2 && c.pending.None?
    requires c2 == c.(streams := WithStream(c.streams, s), pending := Some(Pending(block, id)))
    ensures Process(c2, Frame(CONTINUATION, END_HEADERS, id, last), handler) == ApplyBlock(c, s, block, handler)
  {
    hide Process, Frame, DecodedBlock, ApplyFields, WithStream, FindOrNew;
    ContinuationProcessed(c2, END_HEADERS, id, last, handler);
    EndFlags();
    LastFields(c, c2, s, block, DecodedBlock(c.dec, block), handler);
    assert s.(request := s.request.(http2 := true)) == s;
  }

  /** With an empty last fragment, splitting is invisible. */
  lemma FragmentationInvisible(c: Conn, id: nat, flags: byte, first: seq<byte>, middle: seq<seq<byte>>,
                               handler: Handler)
    requires c.pending.None? && 0 < id < 0x8000_0000 && !HasFlag(flags, END_HEADERS) && flags + END_HEADERS < 256
    requires FitFrames(middle) && |first| + |Concat(middle)| < 0x100_0000
    ensures ProcessAll(c, Split(id, flags, first, middle, []), handler)
         == Process(c, Frame(HEADERS, flags + END_HEADERS, id, Concat([first] + middle + [[]])), handler)
  {
    hide Process, ProcessAll, Frame;
    SplitIsWhole(c, id, flags, first, middle, [], handler);
    ConcatEmptyLast(middle);
    assert ([first] + middle + [[]])[1..] == middle + [[]];
  }

  lemma {:induction false} ConcatEmptyLast(fragments: seq<seq<byte>>)
    ensures Concat(fragments + [[]]) == Concat(fragments)
    decreases |fragments|
  {
    if fragments == [] {
      var one: seq<seq<byte>> := [[]];
      assert fragments + [[]] == one && one[1..] == [];
      assert Concat(one) == [] + Concat([]);
    } else {
      ConcatEmptyLast(fragments[1..]);
      assert (fragments + [[]])[1..] == fragments[1..] + [[]];
    }
  }

  /** Section 6.10 of RFC 7540 fails in the code: the field in the last fragment is lost. */
  lemma LastFragmentLost()
    ensures var whole := Process(InitialConn, Frame(HEADERS, END_HEADERS, 1, [0xBD]), None).conn;
            var split := ProcessAll(InitialConn, Split(1, 0, [], [], [0xBD]), None).conn;
            && FindOrNew(whole.streams, 1).request.headers == [Entry(Ascii("www-authenticate"), [])]
            && FindOrNew(split.streams, 1).request.headers == []
  {
    hide Process, Frame, ProcessAll, DecodedBlock, StoreFields;
    var c := InitialConn;
    SplitIsWhole(c, 1, 0, [], [], [0xBD], None);
    assert [] + Concat([]) == [];
    HeadersFrame(c, 1, [], false);
    HeadersFrame(c, 1, [0xBD], false);
    OneField();
    NoField();
  }

  lemma NoField()
    ensures StoreFields(EmptyRequest.(http2 := true), DecodedBlock(Table([], 4096), []).list).headers == []
  {}

  lemma OneField()
    ensures StoreFields(EmptyRequest.(http2 := true), DecodedBlock(Table([], 4096), [0xBD]).list).headers
         == [Entry(Ascii("www-authenticate"), [])]
  {
    var t, e := Table([], 4096), Entry(Ascii("www-authenticate"), []);
    LastStaticEntry();
    var one: seq<byte> := [0xBD];
    assert DecodedHeader(t, one) == AHeader(e, 1, t);
    assert one[1..] == [];
    assert DecodedBlock(t, one) == Fields([e] + [], t);
    StoredHeader(EmptyRequest.(http2 := true), e);
  }

  lemma StoredHeader(r: Request, e: Entry)
    requires |r.headers| == 0 && e.name == Ascii("www-authenticate")
    ensures StoreFields(r, [e]).headers == [e]
  {
    PseudoNames();
    assert e.name[0] == 119;
    assert !IsPseudo(e.name);
    assert [e][0] == e && StoreFields(StoreField(r, e), []) == StoreField(r, e);
  }

  lemma LastStaticEntry()
    ensures Lookup(Table([], 4096), 61) == Some(Entry(Ascii("www-authenticate"), []))
    ensures Decoded(ByOr, 7, [0xBD]) == Read(61, 1)
  {
    hide Decoded;
    LastIndexRead();
    assert StaticAt(60) == Field("www-authenticate", "");
    assert Ascii("") == [];
  }

  lemma LastIndexRead()
    ensures Decoded(ByOr, 7, [0xBD]) == Read(61, 1)
  {
    assert Low(0xBD, 7) == 61 && Pow2(7) == 128;
  }
}
