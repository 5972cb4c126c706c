/** Decoding with a table that holds more than the encoder's: what an announced smaller table leads to. */
module WiderTable {
  import opened Bits
  import opened Varint
  import opened StaticTable
  import opened DynamicTable
  import opened Hpack
  import opened HpackRoundTrip
  import opened HpackBlock

  /** The newest entries of d are those of t, and d may grow at least as far. */
  ghost predicate Covers(d: Table, t: Table) {
    t.entries <= d.entries && t.max <= d.max
  }

  lemma PrefixSize(a: seq<Entry>, b: seq<Entry>)
    requires a <= b
    ensures a == b[..|a|]
  {}

  lemma EvictedCovers(a: seq<Entry>, amax: nat, b: seq<Entry>, bmax: nat)
    requires a <= b && amax <= bmax
    ensures Evicted(a, amax) <= Evicted(b, bmax)
  {
    hide Evicted, Size;
    EvictedIsWindow(a, amax);
    EvictedIsWindow(b, bmax);
    PrefixSize(Evicted(a, amax), b);
  }

  /** One more entry on both sides, however much each of them has to evict. */
  lemma AddedCovers(d: Table, t: Table, e: Entry)
    requires Covers(d, t)
    ensures Covers(Added(d, e), Added(t, e)) && Added(d, e).max == d.max
  {
    hide Evicted, Size;
    EvictedCovers([e] + t.entries, t.max, [e] + d.entries, d.max);
  }

  /** r, read with the smaller table, and q, read with the larger one, are the same field. */
  ghost predicate ReadAlike(d: Table, r: HeaderReading, q: HeaderReading) {
    r.AHeader? ==>
      q.AHeader? && q.entry == r.entry && q.consumed == r.consumed && Covers(q.table, r.table) && q.table.max == d.max
  }

  lemma WiderLookup(d: Table, t: Table, index: nat)
    requires Covers(d, t)
    ensures Lookup(t, index).Some? ==> Lookup(d, index) == Lookup(t, index)
  {
    hide Static;
  }

  lemma WiderIndexed(d: Table, t: Table, data: seq<byte>)
    requires Covers(d, t)
    ensures ReadAlike(d, DecodedIndexed(t, data), DecodedIndexed(d, data))
  {
    hide Decoded, Lookup;
    if Decoded(ByOr, 7, data).Read? {
      WiderLookup(d, t, Decoded(ByOr, 7, data).value);
    }
  }

  lemma WiderLiteral(d: Table, t: Table, data: seq<byte>, incremental: bool)
    requires Covers(d, t) && data != []
    ensures ReadAlike(d, DecodedLiteral(t, data, incremental), DecodedLiteral(d, data, incremental))
  {
    hide Lookup, ReadString, Added, ReadNameIndex, Covers;
    if ReadNameIndex(data, PrefixBits(incremental)).Read? {
      WiderLookup(d, t, ReadNameIndex(data, PrefixBits(incremental)).value);
    }
    if DecodedLiteral(t, data, incremental).AHeader? {
      AddedCovers(d, t, DecodedLiteral(t, data, incremental).entry);
    }
  }

  /** Whatever can be decoded with the smaller table is decoded alike with the larger one. */
  lemma WiderDecodes(d: Table, t: Table, data: seq<byte>)
    requires Covers(d, t)
    ensures ReadAlike(d, DecodedHeader(t, data), DecodedHeader(d, data))
  {
    hide DecodedIndexed, DecodedLiteral, Covers;
    if data != [] {
      WiderIndexed(d, t, data);
      WiderLiteral(d, t, data, true);
      WiderLiteral(d, t, data, false);
    }
  }

  /** A faithful block comes back whole, and the larger table goes on covering the smaller one. */
  lemma {:induction false} WiderBlock(d: Table, t: Table, room: nat, hs: seq<Entry>)
    requires Kept(t) && Covers(d, t) && AllFaithful(t, room, hs)
    ensures var sent := EncodedBlock(t, room, hs);
            var got := DecodedBlock(d, sent.bytes);
            got.list == hs && Covers(got.table, sent.table) && got.table.max == d.max && !OverReads(d, sent.bytes)
    decreases |hs|
  {
    hide EncodedHeader, DecodedHeader, Faithful, TableAfter, Covers;
    if hs != [] {
      var first, t' := EncodedHeader(t, room, hs[0]), TableAfter(t, room, hs[0]);
      var rest := EncodedBlock(t', room - |first|, hs[1..]);
      LockStep(t, room, hs[0], rest.bytes);
      KeptAfter(t, room, hs[0]);
      var data := first + rest.bytes;
      WiderDecodes(d, t, data);
      WiderBlock(DecodedHeader(d, data).table, t', room - |first|, hs[1..]);
      assert data[|first|..] == rest.bytes;
    }
  }

  /** A lowered limit, or one raised again within what d holds, keeps d covering. */
  lemma LimitedCovers(d: Table, t: Table, max: nat)
    requires Kept(t) && Covers(d, t) && max <= d.max && max < INT_LIMIT
    ensures Covers(d, Table(Evicted(t.entries, max), max)) && Kept(Table(Evicted(t.entries, max), max))
  {
    hide Size;
    EvictedIsWindow(t.entries, max);
  }

  // ---------------------------------------------------------------- a table that holds less

  /** The table index a field is written with; 0 for a name written out. */
  function IndexUsed(t: Table, e: Entry): nat {
    match Represent(t, e)
    case Indexed(i) => i
    case Literal(_, i) => i
  }

  /** The other table afterwards, when it gains what the encoder's gains. */
  function OtherAfter(d: Table, t: Table, e: Entry): Table {
    var r := Represent(t, e);
    if r.Literal? && r.incremental then Added(d, e) else d
  }

  lemma NarrowerIndexed(d: Table, t: Table, e: Entry, i: nat, rest: seq<byte>)
    requires Kept(t) && Fits(e) && d.entries <= t.entries && Represent(t, e) == Indexed(i) && Safe(7, i)
    ensures var b := Encoded(7, i, 0x80);
            DecodedHeader(d, b + rest) == if i < 62 + |d.entries| then AHeader(e, |b|, d) else NoHeader
  {
    hide Encoded, Decoded, Safe, Static, Size, FindPair;
    EntryCount(t);
    IndexReadBack(i, rest);
    var data := Encoded(7, i, 0x80) + rest;
    assert DecodedHeader(d, data) == DecodedIndexed(d, data);
    assert i >= 62 && i - 62 < |d.entries| ==> d.entries[i - 62] == e;
  }

  lemma NarrowerLiteral(d: Table, t: Table, incremental: bool, index: nat, e: Entry, rest: seq<byte>)
    requires Storable(e) && d.entries <= t.entries && index < Pow2(PrefixBits(incremental))
    requires Safe(7, LiteralLength(e.value))
    requires index > 0 ==> Lookup(t, index).Some? && Lookup(t, index).value.name == e.name
    ensures var head := if index > 0 then Encoded(PrefixBits(incremental), index, Flag(incremental))
                        else [Flag(incremental)] + StringLiteral(e.name);
            var b := head + StringLiteral(e.value);
            DecodedHeader(d, b + rest)
            == if index < 62 + |d.entries| then AHeader(e, |b|, if incremental then Added(d, e) else d) else NoHeader
  {
    hide Encoded, Low, Pow2, StringLiteral, ReadString, ReadNameIndex, Safe, LiteralLength, Static;
    if index < 62 + |d.entries| {
      assert index > 0 ==> Lookup(d, index) == Lookup(t, index);
      LiteralRoundTrip(d, incremental, index, e, rest);
    } else {
      var head := Encoded(PrefixBits(incremental), index, Flag(incremental));
      var tail := StringLiteral(e.value) + rest;
      assert head + StringLiteral(e.value) + rest == head + tail;
      var c := NameRoundTrip(t, incremental, index, e.name, tail);
    }
  }

  /** With a table that holds less, a field is understood if and only if its index is held, and refused otherwise. */
  lemma NarrowerHeader(d: Table, t: Table, room: nat, e: Entry, rest: seq<byte>)
    requires Kept(t) && Storable(e) && d.entries <= t.entries && EncodedHeader(t, room, e) != [] && Faithful(t, room, e)
    ensures var b := EncodedHeader(t, room, e);
            DecodedHeader(d, b + rest)
            == if IndexUsed(t, e) < 62 + |d.entries| then AHeader(e, |b|, OtherAfter(d, t, e)) else NoHeader
  {
    hide DecodedHeader, StringLiteral, Encoded, Low, Pow2, Safe, LiteralLength, Inserted, StaticAt;
    match Represent(t, e)
    case Indexed(i) =>
      NarrowerIndexed(d, t, e, i, rest);
    case Literal(incremental, i) =>
      if i > 0 {
        assert Lookup(t, i).value.name == e.name;
      }
      NarrowerLiteral(d, t, incremental, i, e, rest);
  }

  /** Every index the block uses is held when it is used. */
  predicate AllHeld(d: Table, t: Table, room: nat, hs: seq<Entry>)
    decreases |hs|
  {
    hs == [] ||
    (IndexUsed(t, hs[0]) < 62 + |d.entries| &&
     AllHeld(OtherAfter(d, t, hs[0]), TableAfter(t, room, hs[0]), room - |EncodedHeader(t, room, hs[0])|, hs[1..]))
  }

  /**
   A faithful block comes back whole at a decoder whose table holds less if and only if every index it uses is held.
   */
  lemma {:induction false} NarrowerBlock(d: Table, t: Table, room: nat, hs: seq<Entry>)
    requires Kept(t) && Covers(t, d) && AllFaithful(t, room, hs)
    ensures DecodedBlock(d, EncodedBlock(t, room, hs).bytes).list == hs <==> AllHeld(d, t, room, hs)
    ensures AllHeld(d, t, room, hs) ==>
              Covers(EncodedBlock(t, room, hs).table, DecodedBlock(d, EncodedBlock(t, room, hs).bytes).table)
    decreases |hs|
  {
    hide EncodedHeader, DecodedHeader, Faithful, Represent, Added;
    if hs != [] {
      var e, first, t' := hs[0], EncodedHeader(t, room, hs[0]), TableAfter(t, room, hs[0]);
      var rest := EncodedBlock(t', room - |first|, hs[1..]).bytes;
      NarrowerHeader(d, t, room, e, rest);
      KeptAfter(t, room, e);
      AddedCovers(t, d, e);
      NarrowerBlock(OtherAfter(d, t, e), t', room - |first|, hs[1..]);
      assert (first + rest)[|first|..] == rest && hs == [e] + hs[1..];
      assert forall more: seq<Entry> :: ([e] + more)[1..] == more;
    }
  }

  lemma IndexReadBack(i: nat, rest: seq<byte>)
    requires Safe(7, i) && i < WORD
    ensures var b := Encoded(7, i, 0x80);
            Decoded(ByOr, 7, b + rest) == Read(i, |b|) && (b + rest)[0] >= 0x80
  {
    hide Encoded, Decoded, Low, ReadBack, Safe;
    PrefixFacts();
    var m := LengthRead(0x80, i, rest);
  }
}
