/**
 Every representation of a field that section 6 of RFC 7541 allows, whoever encodes it and whatever forms it prefers.
 */
module Representations {
  import opened Basics
  import opened Bits
  import opened Varint
  import opened PrefixCode
  import opened DynamicTable
  import opened StaticTable
  import opened Hpack
  import opened HpackRoundTrip
  import opened OverRead

  // ---------------------------------------------------------------- fields as any peer may write them

  /** A string literal, Huffman coded or not. */
  datatype Text = Text(text: seq<byte>, huffman: bool)

  datatype Form = Incremental | WithoutIndexing | NeverIndexed

  datatype Field =
    | ByIndex(index: nat)
    | WithName(form: Form, nameIndex: nat, value: Text)
    | NewName(form: Form, name: Text, value: Text)

  function Body(x: Text): seq<byte> {
    if x.huffman then Huffman(x.text) else x.text
  }

  function TextBytes(x: Text): seq<byte> {
    Encoded(7, |Body(x)|, if x.huffman then 0x80 else 0x00) + Body(x)
  }

  function Width(form: Form): nat {
    if form.Incremental? then 6 else 4
  }

  /** The bits that tell the form, above the index. */
  function Pattern(form: Form): byte {
    match form
    case Incremental => 0x40
    case WithoutIndexing => 0x00
    case NeverIndexed => 0x10
  }

  function FieldBytes(f: Field): seq<byte> {
    match f
    case ByIndex(i) => Encoded(7, i, 0x80)
    case WithName(form, i, value) => Encoded(Width(form), i, Pattern(form)) + TextBytes(value)
    case NewName(form, name, value) => [Pattern(form)] + TextBytes(name) + TextBytes(value)
  }

  /** What the field stands for, if its index stands for anything. */
  function Meaning(t: Table, f: Field): Option<Entry> {
    match f
    case ByIndex(i) => Lookup(t, i)
    case WithName(_, i, value) =>
      if Lookup(t, i).Some? then Some(Entry(Lookup(t, i).value.name, value.text)) else None
    case NewName(_, name, value) => Some(Entry(name.text, value.text))
  }

  /** Only incremental fields enter the table. */
  function Enters(f: Field): bool {
    !f.ByIndex? && f.form.Incremental?
  }

  /** A text without NUL that fits its buffer and whose length survives the reader. */
  ghost predicate Readable(x: Text, cap: nat) {
    |x.text| < cap && 0 !in x.text && Safe(7, |Body(x)|)
  }

  ghost predicate ReadableField(f: Field) {
    match f
    case ByIndex(i) => i < WORD && Safe(7, i)
    case WithName(form, i, value) => 0 < i < WORD && Safe(Width(form), i) && Readable(value, MAX_VALUE + 1)
    case NewName(_, name, value) => Readable(name, MAX_NAME + 1) && Readable(value, MAX_VALUE + 1)
  }

  // ---------------------------------------------------------------- reading them

  lemma BodyIsShort(x: Text)
    requires |x.text| <= MAX_VALUE
    ensures |Body(x)| < 0x4000
  {
    hide HuffCodes;
    CodeBitsBound(x.text);
    EncodeLength(HuffCodes(), x.text);
  }

  lemma TextIsRead(x: Text, rest: seq<byte>, cap: nat)
    requires Readable(x, cap) && cap <= MAX_VALUE + 1
    ensures ReadString(TextBytes(x) + rest, cap) == AString(x.text, |TextBytes(x)|)
  {
    hide Encoded, Huffman, ReadString, ReadBody, Safe;
    BodyIsShort(x);
    LengthThenBody(if x.huffman then 0x80 else 0x00, Body(x), rest, cap);
    BodyRead(x.text, cap, |TextBytes(x)|);
  }

  lemma ClipStep(x: byte, s: seq<byte>, n: nat)
    ensures Clip([x] + s, n + 1) == [x] + Clip(s, n)
  {}

  lemma CutStep(x: byte, s: seq<byte>)
    requires x != 0
    ensures CString([x] + s) == [x] + CString(s)
  {
    assert ([x] + s)[1..] == s;
  }

  /** Clipping before or after the cut at the first NUL is the same. */
  lemma {:induction false} CutAndClip(s: seq<byte>, n: nat)
    ensures CString(Clip(s, n)) == Clip(CString(s), n)
    decreases |s|
  {
    if s != [] && s[0] != 0 && n > 0 {
      hide CString, Clip;
      var x, rest := s[0], s[1..];
      assert s == [x] + rest;
      CutAndClip(rest, n - 1);
      ClipStep(x, rest, n - 1);
      CutStep(x, Clip(rest, n - 1));
      CutStep(x, rest);
      ClipStep(x, CString(rest), n - 1);
    }
  }

  /**
   Texts that do not fit: what is read ends at the first NUL and is clipped to the buffer; only Huffman text of more
   than 1023 characters is refused.
   */
  lemma AnyTextIsRead(x: Text, rest: seq<byte>, cap: nat)
    requires Safe(7, |Body(x)|) && |Body(x)| < 0x4000 && 0 < cap <= MAX_VALUE + 1
    ensures ReadString(TextBytes(x) + rest, cap)
         == if x.huffman && |x.text| > MAX_VALUE then NoString
            else AString(Clip(CString(x.text), cap - 1), |TextBytes(x)|)
  {
    hide Encoded, ReadString, Safe, CString, HuffCodes;
    LengthThenBody(if x.huffman then 0x80 else 0x00, Body(x), rest, cap);
    CutAndClip(x.text, cap - 1);
    if x.huffman {
      UsableCodes();
      DecodeInvertsEncode(HuffCodes(), Huffman(x.text), x.text);
    }
  }

  lemma PatternFacts(form: Form)
    ensures PrefixWidth(Width(form)) && Low(Pattern(form), Width(form)) == 0
    ensures Mask(Width(form)) == if form.Incremental? then 63 else 15
  {
    PrefixFacts();
  }

  lemma IndexRead(form: Form, i: nat, rest: seq<byte>)
    requires 0 < i < WORD && Safe(Width(form), i)
    ensures var head := Encoded(Width(form), i, Pattern(form));
            && ReadNameIndex(head + rest, Width(form)) == Read(i, |head|)
            && (if form.Incremental? then 0x40 <= head[0] < 0x80 else head[0] < 0x20)
  {
    hide Encoded, Decoded, Low, Safe, Mask;
    PatternFacts(form);
    var n := Width(form);
    FlagsKept(n, i, Pattern(form));
    WrittenIsRead(ByOr, n, i, Pattern(form), rest);
    SafeIffReadBack(n, i);
    assert (Encoded(n, i, Pattern(form)) + rest)[0] == Encoded(n, i, Pattern(form))[0];
  }

  lemma NoIndexRead(form: Form, rest: seq<byte>)
    ensures ReadNameIndex([Pattern(form)] + rest, Width(form)) == Read(0, 1)
  {
    hide Decoded, Low;
    PatternFacts(form);
  }

  lemma IndexedIsRead(t: Table, i: nat, rest: seq<byte>)
    requires i < WORD && Safe(7, i)
    ensures var b := Encoded(7, i, 0x80);
            DecodedHeader(t, b + rest) == if Lookup(t, i).Some? then AHeader(Lookup(t, i).value, |b|, t) else NoHeader
  {
    hide Encoded, Decoded, Low, ReadBack, Safe, Lookup;
    PrefixFacts();
    var m := LengthRead(0x80, i, rest);
  }

  /** Behind index or name, the value; the form decides what becomes of the table. */
  lemma ValueIsRead(t: Table, form: Form, data: seq<byte>, index: nat, c: nat, name: seq<byte>, cn: nat, value: Text,
                    rest: seq<byte>)
    requires data != [] && (if form.Incremental? then 0x40 <= data[0] < 0x80 else data[0] < 0x20)
    requires ReadNameIndex(data, Width(form)) == Read(index, c) && c + cn <= |data|
    requires ReadName(t, index, data[c..]) == AString(name, cn)
    requires data[c + cn..] == TextBytes(value) + rest && Readable(value, MAX_VALUE + 1)
    ensures var e := Entry(name, value.text);
            DecodedHeader(t, data)
            == AHeader(e, c + cn + |TextBytes(value)|, if form.Incremental? then Added(t, e) else t)
  {
    hide ReadNameIndex, ReadName, ReadString, Added, TextBytes, Readable, DecodedLiteral;
    TextIsRead(value, rest, MAX_VALUE + 1);
    LiteralSteps(t, data, form.Incremental?, None);
  }

  /** Any peer's field is read as what it stands for, and refused if its index stands for nothing. */
  lemma AnyFieldIsRead(t: Table, f: Field, rest: seq<byte>)
    requires ReadableField(f)
    ensures var e, b := Meaning(t, f), FieldBytes(f);
            DecodedHeader(t, b + rest)
            == if e.Some? then AHeader(e.value, |b|, if Enters(f) then Added(t, e.value) else t) else NoHeader
  {
    hide DecodedHeader, Encoded, TextBytes, Readable, ReadNameIndex, ReadString, Added, Lookup, Safe;
    var b := FieldBytes(f);
    var data := b + rest;
    match f
    case ByIndex(i) =>
      IndexedIsRead(t, i, rest);
    case WithName(form, i, value) =>
      var head, tail := Encoded(Width(form), i, Pattern(form)), TextBytes(value) + rest;
      assert data == head + tail && data[|head|..] == tail && data[0] == head[0];
      IndexRead(form, i, tail);
      if Lookup(t, i).Some? {
        ValueIsRead(t, form, data, i, |head|, Lookup(t, i).value.name, 0, value, rest);
      } else {
        UnknownName(t, form, data, i, |head|);
      }
    case NewName(form, name, value) =>
      var tail := TextBytes(name) + (TextBytes(value) + rest);
      assert data == [Pattern(form)] + tail && data[1..] == tail;
      NoIndexRead(form, tail);
      TextIsRead(name, TextBytes(value) + rest, MAX_NAME + 1);
      assert data[1 + |TextBytes(name)|..] == TextBytes(value) + rest;
      ValueIsRead(t, form, data, 0, 1, name.text, |TextBytes(name)|, value, rest);
  }

  lemma UnknownName(t: Table, form: Form, data: seq<byte>, i: nat, c: nat)
    requires data != [] && (if form.Incremental? then 0x40 <= data[0] < 0x80 else data[0] < 0x20)
    requires ReadNameIndex(data, Width(form)) == Read(i, c) && i > 0 && Lookup(t, i).None?
    ensures DecodedHeader(t, data) == NoHeader
  {
    hide ReadNameIndex, ReadString, Lookup, DecodedLiteral;
    LiteralSteps(t, data, form.Incremental?, None);
  }

  /** Dynamic table size updates (section 6.3) are refused. */
  lemma SizeUpdateRefused(t: Table, data: seq<byte>)
    requires data != [] && 0x20 <= data[0] < 0x40
    ensures DecodedHeader(t, data).NoHeader?
  {}

  // ---------------------------------------------------------------- the forms the encoder prefers

  /** The encoder writes the shorter of the two forms of a text, as far as its buffer goes. */
  lemma ShorterFormIsWritten(s: seq<byte>)
    ensures StringLiteral(s) == TextBytes(Text(s, false)) || StringLiteral(s) == TextBytes(Text(s, true))
    ensures |Body(Text(s, true))| < |s| && |Body(Text(s, true))| <= HUFF_BUFFER ==>
              StringLiteral(s) == TextBytes(Text(s, true))
    ensures |s| <= |Body(Text(s, true))| ==> StringLiteral(s) == TextBytes(Text(s, false))
  {
    hide Encoded, Huffman;
  }

  /** A field that fits the table is one index the second time; newly entered, it is the single byte 0xBE. */
  lemma SecondTimeIndexed(t: Table, room: nat, e: Entry, room': nat)
    requires EncodedHeader(t, room, e) != [] && EntrySize(e) <= t.max && room' >= 1
    ensures var u := TableAfter(t, room, e);
            && Represent(u, e).Indexed? && TableAfter(u, room', e) == u
            && (Represent(t, e).Literal? ==> EncodedHeader(u, room', e) == [0xBE])
  {
    hide EncodedHeader, Encoded, Static, Size;
    var u := TableAfter(t, room, e);
    if Represent(t, e).Literal? {
      FirstOfAdded(t, e);
      assert FindPair(u.entries, e) == 0;
      OneByteIndex(u, room', e);
    }
  }

  lemma FirstOfAdded(t: Table, e: Entry)
    requires EntrySize(e) <= t.max
    ensures var u := Added(t, e); u.entries != [] && u.entries[0] == e
  {
    var all := [e] + t.entries;
    EvictedIsWindow(all, t.max);
    assert all[..1] == [e];
    assert Size([e]) == EntrySize(e) by {
      assert [e][..0] == [];
    }
  }

  lemma OneByteIndex(u: Table, room: nat, e: Entry)
    requires Represent(u, e) == Indexed(62) && room >= 1
    ensures EncodedHeader(u, room, e) == [0xBE]
  {
    hide Represent, Low;
    PrefixFacts();
    FlagsKept(7, 62, 0x80);
  }

  /** The example of Appendix C.3.1 of RFC 7541: 57 bytes of the table's size. */
  lemma EntrySizeExample()
    ensures EntrySize(Entry(Ascii(":authority"), Ascii("www.example.com"))) == 57
  {}

  /** A field that fits the table never spells out a name of the static table. */
  lemma StaticNameNotSpelled(t: Table, room: nat, e: Entry, i: nat)
    requires i < STATIC_ENTRIES && Static()[i].name == e.name && EntrySize(e) <= t.max
    ensures Represent(t, e).Indexed? || |EncodedHeader(t, room, e)| <= 2 + |StringLiteral(e.value)|
  {
    hide StaticAt, StringLiteral, Encoded, Low;
    PrefixFacts();
    var index := NameIndex(t, e.name);
    assert 0 < index <= i + 1;
    if Represent(t, e).Literal? {
      assert Represent(t, e) == Literal(true, index);
      NameIndexSafe(true, index);
    }
  }
}
