/** HTTP/2 frame headers (section 4.1 of RFC 7540). */
module Frames {
  import opened Bits

  datatype FrameHeader = FrameHeader(length: nat, kind: byte, flags: byte, stream: nat)

  const DATA: byte := 0x0
  const HEADERS: byte := 0x1
  const RST_STREAM: byte := 0x3
  const SETTINGS: byte := 0x4
  const PING: byte := 0x6
  const GOAWAY: byte := 0x7
  const WINDOW_UPDATE: byte := 0x8
  const CONTINUATION: byte := 0x9

  const HEADER_SIZE: nat := 9
  const MAX_FRAME: nat := 16384

  /** Big-endian, the n low bytes of v. */
  function BigEndian(v: nat, n: nat): (s: seq<byte>)
    ensures |s| == n
    decreases v, n
  {
    if n == 0 then [] else BigEndian(v / 256, n - 1) + [v % 256]
  }

  function FromBigEndian(s: seq<byte>): nat {
    if s == [] then 0 else 256 * FromBigEndian(s[..|s| - 1]) + s[|s| - 1]
  }

  function Pow256(n: nat): (p: nat)
    ensures p >= 1
  {
    if n == 0 then 1 else 256 * Pow256(n - 1)
  }

  lemma {:induction false} BigEndianRoundTrip(v: nat, n: nat)
    requires v < Pow256(n)
    ensures FromBigEndian(BigEndian(v, n)) == v
    decreases n
  {
    if n > 0 {
      BigEndianRoundTrip(v / 256, n - 1);
      assert BigEndian(v, n)[..n - 1] == BigEndian(v / 256, n - 1);
    }
  }

  /** The nine header bytes: three of length, type, flags, 31 bits of stream id. */
  function HeaderBytes(h: FrameHeader): (s: seq<byte>)
    ensures |s| == HEADER_SIZE
  {
    BigEndian(h.length, 3) + [h.kind, h.flags] + BigEndian(h.stream % 0x8000_0000, 4)
  }

  function ParsedHeader(s: seq<byte>): FrameHeader
    requires |s| >= HEADER_SIZE
  {
    FrameHeader(FromBigEndian(s[..3]), s[3], s[4], FromBigEndian(s[5..9]) % 0x8000_0000)
  }

  /** What is read back: everything, except that lengths are 24 bits and stream ids 31 bits wide. */
  lemma HeaderRoundTrip(h: FrameHeader, rest: seq<byte>)
    requires h.length < 0x100_0000
    ensures ParsedHeader(HeaderBytes(h) + rest) == h.(stream := h.stream % 0x8000_0000)
  {
    var s := HeaderBytes(h) + rest;
    var id := h.stream % 0x8000_0000;
    assert s[..3] == BigEndian(h.length, 3);
    assert s[5..9] == BigEndian(id, 4);
    assert Pow256(3) == 0x100_0000 && Pow256(4) == 0x1_0000_0000;
    BigEndianRoundTrip(h.length, 3);
    BigEndianRoundTrip(id, 4);
  }

  /** The header bytes as the code stores them, one shifted and masked byte at a time. */
  method WriteHeader(data: array<byte>, off: nat, h: FrameHeader)
    requires off + HEADER_SIZE <= data.Length
    modifies data
    ensures data[off..off + HEADER_SIZE] == HeaderBytes(h)
    ensures data[..off] == old(data[..off]) && data[off + HEADER_SIZE..] == old(data[off + HEADER_SIZE..])
  {
    data[off] := h.length / 0x1_0000 % 0x100;
    data[off + 1] := h.length / 0x100 % 0x100;
    data[off + 2] := h.length % 0x100;
    data[off + 3] := h.kind;
    data[off + 4] := h.flags;
    data[off + 5] := h.stream / 0x100_0000 % 0x80;
    data[off + 6] := h.stream / 0x1_0000 % 0x100;
    data[off + 7] := h.stream / 0x100 % 0x100;
    data[off + 8] := h.stream % 0x100;
    ThreeBytes(h.length);
    FourBytes(h.stream % 0x8000_0000);
    TopBitMasked(h.stream);
    assert data[off..off + HEADER_SIZE] == HeaderBytes(h);
  }

  lemma ThreeBytes(v: nat)
    ensures BigEndian(v, 3) == [v / 0x1_0000 % 0x100, v / 0x100 % 0x100, v % 0x100]
  {
    assert BigEndian(v / 256 / 256, 1) == [v / 256 / 256 % 256];
    assert BigEndian(v / 256, 2) == [v / 256 / 256 % 256, v / 256 % 256];
  }

  lemma FourBytes(v: nat)
    ensures BigEndian(v, 4) == [v / 0x100_0000 % 0x100, v / 0x1_0000 % 0x100, v / 0x100 % 0x100, v % 0x100]
  {
    ThreeBytes(v / 256);
  }

  lemma TopBitMasked(v: nat)
    ensures var id := v % 0x8000_0000;
            && id / 0x100_0000 % 0x100 == v / 0x100_0000 % 0x80
            && id / 0x1_0000 % 0x100 == v / 0x1_0000 % 0x100
            && id / 0x100 % 0x100 == v / 0x100 % 0x100
            && id % 0x100 == v % 0x100
  {
    var id, q := v % 0x8000_0000, v / 0x8000_0000;
    FirstByteMasked(v, id, q);
    SecondByteMasked(v, id, q);
    ThirdByteMasked(v, id, q);
  }

  lemma FirstByteMasked(v: nat, id: nat, q: nat)
    requires v == 0x8000_0000 * q + id && id < 0x8000_0000
    ensures id / 0x100_0000 % 0x100 == v / 0x100_0000 % 0x80
  {
    assert v / 0x100_0000 == 0x80 * q + id / 0x100_0000;
  }

  lemma SecondByteMasked(v: nat, id: nat, q: nat)
    requires v == 0x8000_0000 * q + id
    ensures id / 0x1_0000 % 0x100 == v / 0x1_0000 % 0x100
  {
    assert v / 0x1_0000 == 0x8000 * q + id / 0x1_0000;
  }

  lemma ThirdByteMasked(v: nat, id: nat, q: nat)
    requires v == 0x8000_0000 * q + id
    ensures id / 0x100 % 0x100 == v / 0x100 % 0x100
    ensures id % 0x100 == v % 0x100
  {
    assert v / 0x100 == 0x80_0000 * q + id / 0x100;
  }

  /** Four bytes joined by shifts. */
  function Word(a: nat, b: nat, c: nat, d: nat): nat {
    0x100_0000 * a + 0x1_0000 * b + 0x100 * c + d
  }

  method ReadHeader(data: seq<byte>) returns (h: FrameHeader)
    requires |data| >= HEADER_SIZE
    ensures h == ParsedHeader(data)
  {
    hide FromBigEndian, Word;
    h := FrameHeader(Word(0, data[0], data[1], data[2]), data[3], data[4],
                     Word(data[5] % 0x80, data[6], data[7], data[8]));
    assert data[..3] == [data[0], data[1], data[2]];
    assert data[5..9] == [data[5], data[6], data[7], data[8]];
    FromThree(data[0], data[1], data[2]);
    FromFour(data[5], data[6], data[7], data[8]);
    TopBitCleared(data[5], data[6], data[7], data[8]);
  }

  lemma TopBitCleared(a: byte, b: byte, c: byte, d: byte)
    ensures Word(a, b, c, d) % 0x8000_0000 == Word(a % 0x80, b, c, d)
  {
    assert Word(a, b, c, d) == 0x8000_0000 * (a / 0x80) + Word(a % 0x80, b, c, d);
  }

  lemma FromThree(a: byte, b: byte, c: byte)
    ensures FromBigEndian([a, b, c]) == Word(0, a, b, c)
  {
    assert FromBigEndian([a]) == a;
    assert [a, b][..1] == [a];
    assert FromBigEndian([a, b]) == 0x100 * a + b;
    assert [a, b, c][..2] == [a, b];
  }

  lemma FromFour(a: byte, b: byte, c: byte, d: byte)
    ensures FromBigEndian([a, b, c, d]) == Word(a, b, c, d)
  {
    assert [a, b, c, d][..3] == [a, b, c];
    FromThree(a, b, c);
  }

  lemma Rejoined(s: seq<byte>, from: nat, mid: nat, to: nat)
    requires from <= mid <= to <= |s|
    ensures s[from..to] == s[from..mid] + s[mid..to]
  {}

  function Frame(kind: byte, flags: byte, stream: nat, payload: seq<byte>): seq<byte> {
    HeaderBytes(FrameHeader(|payload|, kind, flags, stream)) + payload
  }

  lemma FrameRoundTrip(kind: byte, flags: byte, stream: nat, payload: seq<byte>)
    requires |payload| < 0x100_0000 && stream < 0x8000_0000
    ensures ParsedHeader(Frame(kind, flags, stream, payload)) == FrameHeader(|payload|, kind, flags, stream)
    ensures Frame(kind, flags, stream, payload)[HEADER_SIZE..] == payload
  {
    HeaderRoundTrip(FrameHeader(|payload|, kind, flags, stream), payload);
  }

  // ---------------------------------------------------------------- where the bytes stand

  /** Section 4.1 of RFC 7540, byte by byte. */
  lemma HeaderLayout(h: FrameHeader)
    requires h.length < 0x100_0000
    ensures var id := h.stream % 0x8000_0000;
            HeaderBytes(h) == [h.length / 0x1_0000, h.length / 0x100 % 256, h.length % 256, h.kind, h.flags,
                               id / 0x100_0000, id / 0x1_0000 % 256, id / 0x100 % 256, id % 256]
  {
    hide BigEndian;
    ThreeBytes(h.length);
    FourBytes(h.stream % 0x8000_0000);
  }
}
