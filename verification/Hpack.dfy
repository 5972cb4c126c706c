/** HPACK header fields: representations, their bytes, and the decoder (sections 5.2 and 6 of RFC 7541). */
module Hpack {
  import opened Basics
  import opened Bits
  import opened Varint
  import opened PrefixCode
  import opened HuffmanTree
  import HuffmanTable
  import opened DynamicTable
  import opened StaticTable

  function HuffCodes(): (c: Codes)
    ensures |c| == EOS + 1
  {
    CodesOf(HuffmanTable.Table())
  }

  // ---------------------------------------------------------------- C strings

  /** Copying into a buffer of n + 1 characters. */
  function Clip(s: seq<byte>, n: nat): (r: seq<byte>)
    ensures |r| <= n && r <= s
    ensures |s| <= n ==> r == s
  {
    if |s| <= n then s else s[..n]
  }

  /** What is left of a buffer when it is read as a C string. */
  function CString(s: seq<byte>): (r: seq<byte>)
    ensures r <= s && 0 !in r
    ensures 0 !in s ==> r == s
  {
    if s == [] || s[0] == 0 then [] else [s[0]] + CString(s[1..])
  }

  /** A header field the storage can hold: no NUL, and short enough for the fixed-size buffers. */
  predicate Storable(e: Entry) {
    Fits(e) && 0 !in e.name && 0 !in e.value
  }

  // ---------------------------------------------------------------- string literals

  const HUFF_BUFFER: nat := 2048

  function Huffman(s: seq<byte>): seq<byte> {
    Encode(HuffCodes(), s)
  }

  predicate UsesHuffman(s: seq<byte>) {
    s != [] && |Huffman(s)| <= HUFF_BUFFER && |Huffman(s)| < |s|
  }

  function LiteralLength(s: seq<byte>): (n: nat)
    ensures n <= |s|
  {
    if UsesHuffman(s) then |Huffman(s)| else |s|
  }

  function StringLiteral(s: seq<byte>): (b: seq<byte>)
    ensures b != []
  {
    if UsesHuffman(s) then Encoded(7, |Huffman(s)|, 0x80) + Huffman(s) else Encoded(7, |s|, 0x00) + s
  }

  /** More than any length can reach over. */
  ghost predicate Enough(behind: seq<byte>) {
    |behind| >= WORD
  }

  /** Beyond: the text depends on bytes behind the data, which are not known. */
  datatype StringReading = NoString | Beyond(consumed: nat) | AString(text: seq<byte>, consumed: nat)

  /** Where a literal of n bytes ends that starts behind c bytes, in 64 bits. */
  function LiteralEnd(c: nat, n: nat): (end: nat)
    ensures c + n < WORD ==> end == c + n
  {
    (c + n) % WORD
  }

  /**
   Reads a string literal into a buffer of cap bytes. The end of the literal is computed in 64 bits; when that wraps,
   the literal goes on in the bytes behind the data. Those may be known or not: a Huffman literal of that length is
   refused in any case, and a plain one may end at a NUL or fill the buffer before it reaches them.
   */
  ghost function ReadString(data: seq<byte>, cap: nat, behind: Option<seq<byte>> := None): (r: StringReading)
    ensures !r.NoString? ==> r.consumed <= |data|
    ensures r.AString? ==> |r.text| < cap && 0 !in r.text
    ensures r.Beyond? ==> behind.None?
  {
    if data == [] || cap == 0 then NoString
    else
      match Decoded(ByOr, 7, data)
      case NotRead => NoString
      case Read(n, c) =>
        var end := LiteralEnd(c, n);
        if end > |data| then NoString
        else if c + n < WORD then ReadBody(data[c..end], data[0] >= 0x80, cap, end)
        else if behind.Some? then ReadBody(Clip(data[c..] + behind.value, n), data[0] >= 0x80, cap, end)
        else if data[0] >= 0x80 then NoString
        else if |data| - c >= cap - 1 || 0 in data[c..] then AString(CString(Clip(data[c..], cap - 1)), end)
        else Beyond(end)
  }

  ghost function ReadBody(body: seq<byte>, huffman: bool, cap: nat, consumed: nat): (r: StringReading)
    requires cap > 0
    ensures !r.Beyond?
    ensures r.AString? ==> r.consumed == consumed && |r.text| < cap && 0 !in r.text
  {
    if huffman then
      match Decode(HuffCodes(), body)
      case None => NoString
      case Some(s) => if |s| > MAX_VALUE then NoString else AString(Clip(CString(s), cap - 1), consumed)
    else AString(CString(Clip(body, cap - 1)), consumed)
  }

  // ---------------------------------------------------------------- representations

  /** Index of the first entry equal to e, or the number of entries. */
  function FindPair(es: seq<Entry>, e: Entry): (i: nat)
    ensures i <= |es| && (i < |es| ==> es[i] == e)
    ensures forall j :: 0 <= j < i ==> es[j] != e
  {
    if es == [] || es[0] == e then 0 else 1 + FindPair(es[1..], e)
  }

  function FindName(es: seq<Entry>, name: seq<byte>): (i: nat)
    ensures i <= |es| && (i < |es| ==> es[i].name == name)
    ensures forall j :: 0 <= j < i ==> es[j].name != name
  {
    if es == [] || es[0].name == name then 0 else 1 + FindName(es[1..], name)
  }

  datatype Representation = Indexed(index: nat) | Literal(incremental: bool, nameIndex: nat)

  function PrefixBits(incremental: bool): nat {
    if incremental then 6 else 4
  }

  function Flag(incremental: bool): byte {
    if incremental then 0x40 else 0x00
  }

  function NameIndex(t: Table, name: seq<byte>): nat {
    var s := FindName(Static(), name);
    var d := FindName(t.entries, name);
    if s < STATIC_ENTRIES then s + 1 else if d < |t.entries| then 62 + d else 0
  }

  function Represent(t: Table, e: Entry): Representation {
    var s := FindPair(Static(), e);
    var d := FindPair(t.entries, e);
    if s < STATIC_ENTRIES then Indexed(s + 1)
    else if d < |t.entries| then Indexed(62 + d)
    else
      var incremental := t.max > 0 && EntrySize(e) <= t.max;
      var index := NameIndex(t, e.name);
      Literal(incremental, if index < Pow2(PrefixBits(incremental)) then index else 0)
  }

  /** The name index as written; when it does not fit, the code goes on without it. */
  function IndexBytes(incremental: bool, index: nat, room: nat): seq<byte> {
    var b := Encoded(PrefixBits(incremental), index, Flag(incremental));
    if |b| <= room then b else []
  }

  function NameBytes(incremental: bool, index: nat, room: nat, name: seq<byte>): seq<byte> {
    if index > 0 then IndexBytes(incremental, index, room) else [Flag(incremental)] + StringLiteral(name)
  }

  /** The bytes of e, or none when they do not fit in room. */
  function EncodedHeader(t: Table, room: nat, e: Entry): (b: seq<byte>)
    ensures |b| <= room
  {
    var b := match Represent(t, e)
      case Indexed(i) => Encoded(7, i, 0x80)
      case Literal(incremental, i) => NameBytes(incremental, i, room, e.name) + StringLiteral(e.value);
    if |b| <= room then b else []
  }

  function Added(t: Table, e: Entry): Table {
    t.(entries := Inserted(t.entries, t.max, e))
  }

  /** The encoder's table afterwards: unchanged when nothing was written. */
  function TableAfter(t: Table, room: nat, e: Entry): Table {
    var r := Represent(t, e);
    if EncodedHeader(t, room, e) != [] && r.Literal? && r.incremental then Added(t, e) else t
  }

  // ---------------------------------------------------------------- the decoder

  /** HeaderBeyond: there is a field, and what it is depends on bytes behind the data. */
  datatype HeaderReading = NoHeader | HeaderBeyond | AHeader(entry: Entry, consumed: nat, table: Table)

  function Clipped(e: Entry): Entry {
    Entry(Clip(e.name, MAX_NAME), Clip(e.value, MAX_VALUE))
  }

  function Lookup(t: Table, index: nat): Option<Entry> {
    if index == 0 then None
    else if index <= STATIC_ENTRIES then Some(Clipped(Static()[index - 1]))
    else if index - 62 < |t.entries| then Some(Clipped(t.entries[index - 62]))
    else None
  }

  /** A name index of zero says that the name follows as a string literal. */
  function ReadNameIndex(data: seq<byte>, n: nat): (r: Reading)
    requires data != [] && PrefixWidth(n)
    ensures r.Read? ==> 0 < r.consumed <= |data|
  {
    if Low(data[0], n) != 0 then Decoded(ByOr, n, data) else Read(0, 1)
  }

  ghost function ReadName(t: Table, index: nat, data: seq<byte>, behind: Option<seq<byte>> := None): (r: StringReading)
    ensures !r.NoString? ==> r.consumed <= |data|
    ensures r.AString? ==> |r.text| <= MAX_NAME
    ensures r.Beyond? ==> behind.None?
  {
    if index == 0 then ReadString(data, MAX_NAME + 1, behind)
    else
      match Lookup(t, index)
      case None => NoString
      case Some(e) => AString(e.name, 0)
  }

  /** The field of a name and a value, behind c bytes of index. */
  ghost function FieldRead(t: Table, name: StringReading, value: StringReading, c: nat, incremental: bool)
    : HeaderReading
  {
    if name.NoString? || value.NoString? then NoHeader
    else if name.Beyond? || value.Beyond? then HeaderBeyond
    else
      var e := Entry(name.text, value.text);
      AHeader(e, c + name.consumed + value.consumed, if incremental then Added(t, e) else t)
  }

  ghost function DecodedLiteral(t: Table, data: seq<byte>, incremental: bool, behind: Option<seq<byte>> := None)
    : (r: HeaderReading)
    requires data != []
    ensures r.AHeader? ==> 0 < r.consumed <= |data| && Fits(r.entry)
    ensures r.HeaderBeyond? ==> behind.None?
  {
    match ReadNameIndex(data, PrefixBits(incremental))
    case NotRead => NoHeader
    case Read(index, c) =>
      var name := ReadName(t, index, data[c..], behind);
      if name.NoString? then NoHeader
      else FieldRead(t, name, ReadString(data[c + name.consumed..], MAX_VALUE + 1, behind), c, incremental)
  }

  ghost function DecodedIndexed(t: Table, data: seq<byte>): (r: HeaderReading)
    ensures !r.HeaderBeyond?
    ensures r.AHeader? ==> 0 < r.consumed <= |data| && Fits(r.entry)
  {
    match Decoded(ByOr, 7, data)
    case NotRead => NoHeader
    case Read(index, c) =>
      match Lookup(t, index)
      case None => NoHeader
      case Some(e) => AHeader(e, c, t)
  }

  /** One header field: indexed, one of the three literal forms, or (size updates included) refused. */
  ghost function DecodedHeader(t: Table, data: seq<byte>, behind: Option<seq<byte>> := None): (r: HeaderReading)
    ensures r.AHeader? ==> 0 < r.consumed <= |data| && Fits(r.entry)
    ensures r.HeaderBeyond? ==> behind.None?
  {
    if data == [] then NoHeader
    else if data[0] >= 0x80 then DecodedIndexed(t, data)
    else if data[0] >= 0x40 then DecodedLiteral(t, data, true, behind)
    else if data[0] < 0x20 then DecodedLiteral(t, data, false, behind)
    else NoHeader
  }
}
