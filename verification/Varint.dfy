/** HPACK integers (section 5.1 of RFC 7541): the writer, and the reader as the code has it. */
module Varint {
  import opened Bits

  datatype Reading = NotRead | Read(value: nat, consumed: nat)

  /** One more than the largest 64-bit value. */
  const WORD: nat := 0x1_0000_0000_0000_0000

  /** How a continuation byte joins the value so far: the code ors, section 5.1 of RFC 7541 adds. */
  datatype Join = ByOr | ByAdd

  function Combine(join: Join, value: nat, part: nat): nat {
    if join.ByOr? then BitOr(value, part) else (value + part) % WORD
  }

  ghost predicate PrefixWidth(n: nat) {
    1 <= n <= 7
  }

  /** The largest value the prefix holds is reserved for "more bytes follow". */
  function Mask(n: nat): nat {
    Pow2(n) - 1
  }

  function ContinuationBytes(w: nat): (s: seq<byte>)
    ensures |s| >= 1
  {
    if w < 128 then [w] else [w % 128 + 128] + ContinuationBytes(w / 128)
  }

  /** The first byte: the flag bits above the n-bit prefix, then the prefix. */
  function FirstByte(n: nat, flags: byte, prefix: nat): (b: byte)
    requires PrefixWidth(n) && prefix <= Mask(n)
    ensures Low(b, n) == prefix
  {
    assert Pow2(8) == 256;
    ReplaceLow(flags, 8, n, prefix);
    flags - Low(flags, n) + prefix
  }

  function Encoded(n: nat, value: nat, flags: byte): (s: seq<byte>)
    requires PrefixWidth(n)
    ensures |s| >= 1
  {
    if value < Mask(n) then [FirstByte(n, flags, value)]
    else [FirstByte(n, flags, Mask(n))] + ContinuationBytes(value - Mask(n))
  }

  function DecodedTail(join: Join, value: nat, shift: nat, data: seq<byte>, pos: nat): (r: Reading)
    requires pos <= |data|
    ensures r.Read? ==> pos < r.consumed <= |data|
    decreases |data| - pos
  {
    if pos == |data| then NotRead
    else
      var value' := Combine(join, value, Shl(data[pos] % 128, shift) % WORD);
      if data[pos] < 128 then Read(value', pos + 1)
      else if shift + 7 >= 64 then NotRead
      else DecodedTail(join, value', shift + 7, data, pos + 1)
  }

  function Decoded(join: Join, n: nat, data: seq<byte>): (r: Reading)
    requires PrefixWidth(n)
    ensures r.Read? ==> 0 < r.consumed <= |data|
  {
    if data == [] then NotRead
    else if Low(data[0], n) < Mask(n) then Read(Low(data[0], n), 1)
    else DecodedTail(join, Mask(n), 0, data, 1)
  }

  lemma SmallContinuation(w: nat)
    requires w < 16384
    ensures |ContinuationBytes(w)| <= 2
  {
    assert w / 128 < 128;
    if w >= 128 {
      assert |ContinuationBytes(w / 128)| == 1;
    }
  }

  lemma IntegerLength(n: nat, value: nat, flags: byte)
    requires PrefixWidth(n) && value < 16384
    ensures |Encoded(n, value, flags)| <= 3
    ensures value < Mask(n) + 128 ==> |Encoded(n, value, flags)| <= 2
  {
    if value >= Mask(n) {
      SmallContinuation(value - Mask(n));
    }
  }

  /** Writes at data[off..off+room]; returns the bytes written, or 0 when they do not fit. */
  method Write(data: array<byte>, off: nat, room: nat, n: nat, value: nat, flags: byte) returns (written: nat)
    requires PrefixWidth(n) && off + room <= data.Length
    modifies data
    ensures written == if |Encoded(n, value, flags)| <= room then |Encoded(n, value, flags)| else 0
    ensures written > 0 ==> data[off..off + written] == Encoded(n, value, flags)
    ensures data[..off] == old(data[..off])
    ensures data[off + room..] == old(data[off + room..])
  {
    if room == 0 {
      return 0;
    }
    if value < Mask(n) {
      data[off] := FirstByte(n, flags, value);
      return 1;
    }
    data[off] := FirstByte(n, flags, Mask(n));
    written := WriteRest(data, off, room, value - Mask(n));
  }

  /** The writing loop, after the first byte. */
  method WriteRest(data: array<byte>, off: nat, room: nat, value: nat) returns (written: nat)
    requires room >= 1 && off + room <= data.Length
    modifies data
    ensures written == if 1 + |ContinuationBytes(value)| <= room then 1 + |ContinuationBytes(value)| else 0
    ensures written > 0 ==> data[off..off + written] == [old(data[off])] + ContinuationBytes(value)
    ensures data[..off] == old(data[..off])
    ensures data[off + room..] == old(data[off + room..])
  {
    ghost var goal := [data[off]] + ContinuationBytes(value);
    var offset := 1;
    var rest := value;
    while rest >= 0x80
      invariant 1 <= offset <= room
      invariant offset + |ContinuationBytes(rest)| == |goal|
      invariant goal[offset..] == ContinuationBytes(rest)
      invariant data[off..off + offset] == goal[..offset]
      invariant data[..off] == old(data[..off])
      invariant data[off + room..] == old(data[off + room..])
    {
      if offset >= room {
        return 0;
      }
      data[off + offset] := rest % 0x80 + 0x80;
      assert goal[offset] == goal[offset..][0];
      assert goal[offset + 1..] == goal[offset..][1..];
      assert data[off..off + offset + 1] == data[off..off + offset] + [goal[offset]];
      rest := rest / 128;
      offset := offset + 1;
    }
    if offset >= room {
      return 0;
    }
    data[off + offset] := rest;
    assert goal[offset] == goal[offset..][0];
    assert data[off..off + offset + 1] == data[off..off + offset] + [goal[offset]];
    return offset + 1;
  }

  /** The reading loop of the code. */
  method ReadVarint(data: seq<byte>, n: nat) returns (r: Reading)
    requires PrefixWidth(n)
    ensures r == Decoded(ByOr, n, data)
  {
    if |data| == 0 {
      return NotRead;
    }
    var value: nat := Low(data[0], n);
    if value < Mask(n) {
      return Read(value, 1);
    }
    value := Mask(n);
    var consumed, shift := 1, 0;
    while consumed < |data|
      invariant 1 <= consumed <= |data|
      invariant Decoded(ByOr, n, data) == DecodedTail(ByOr, value, shift, data, consumed)
    {
      var b := data[consumed];
      value := BitOr(value, Shl(b % 128, shift) % WORD);
      shift := shift + 7;
      consumed := consumed + 1;
      if b < 0x80 {
        return Read(value, consumed);
      }
      if shift >= 64 {
        return NotRead;
      }
    }
    return NotRead;
  }

  // ---------------------------------------------------------------- round trips

  /** What the or-ing reader yields for a written value. */
  function ReadBack(n: nat, value: nat): nat {
    if value < Mask(n) then value else BitOr(Mask(n), value - Mask(n))
  }

  /** The integers that survive the or: checkable before writing. */
  predicate Safe(n: nat, value: nat) {
    value < Mask(n) || Low(value - Mask(n), n) == 0
  }

  /** w << shift splits into its low seven bits and the rest. */
  lemma SplitShift(w: nat, shift: nat)
    ensures Shl(w, shift) == Shl(w % 128, shift) + Shl(w / 128, shift + 7)
    ensures Shl(w % 128, shift) < Pow2(shift + 7)
  {
    ShlBySeven(w / 128);
    ShlAdd(128 * (w / 128), w % 128, shift);
    ShlTwice(w / 128, 7, shift);
    ShlMonotone(w % 128, 127, shift);
    ShlOfMask(shift);
  }

  lemma ShlBySeven(v: nat)
    ensures Shl(v, 7) == 128 * v
  {
    assert Shl(v, 1) == 2 * v;
    assert Shl(v, 3) == 8 * v;
    assert Shl(v, 5) == 32 * v;
  }

  lemma {:induction false} ShlOfMask(shift: nat)
    ensures Shl(127, shift) < Pow2(shift + 7)
  {
    if shift > 0 {
      ShlOfMask(shift - 1);
    } else {
      assert Pow2(7) == 128;
    }
  }

  lemma {:induction false} ShlBelow64(shift: nat)
    requires Shl(128, shift) < WORD
    ensures shift + 7 < 64
  {
    if shift >= 57 {
      assert Shl(128, 8) == 0x8000;
      assert Shl(128, 16) == 0x80_0000;
      assert Shl(128, 24) == 0x8000_0000;
      assert Shl(128, 32) == 0x80_0000_0000;
      assert Shl(128, 40) == 0x8000_0000_0000;
      assert Shl(128, 48) == 0x80_0000_0000_0000;
      assert Shl(128, 57) == WORD;
      ShlTwice(128, 57, shift - 57);
      ShlGrows(WORD, shift - 57);
    }
  }

  lemma {:induction false} ShlGrows(v: nat, n: nat)
    ensures Shl(v, n) >= v
    decreases n
  {
    if n > 0 {
      ShlGrows(v, n - 1);
    }
  }

  lemma {:induction false} TailReadsBack(join: Join, value: nat, shift: nat, w: nat, data: seq<byte>, pos: nat)
    requires pos <= |data| && Shl(w, shift) < WORD
    requires ContinuationBytes(w) <= data[pos..]
    requires join.ByAdd? ==> value + Shl(w, shift) < WORD
    ensures DecodedTail(join, value, shift, data, pos)
         == Read(Combine(join, value, Shl(w, shift)), pos + |ContinuationBytes(w)|)
    decreases w
  {
    hide Shl, BitOr, Pow2;
    var tail := ContinuationBytes(w);
    assert tail[0] == data[pos..][0] == data[pos];
    SplitShift(w, shift);
    assert Shl(w % 128, shift) % WORD == Shl(w % 128, shift);
    if w >= 128 {
      ShlMonotone(128, w, shift);
      ShlBelow64(shift);
      assert ContinuationBytes(w / 128) == tail[1..] <= data[pos + 1..] by {
        assert data[pos + 1..] == data[pos..][1..];
      }
      var value' := Combine(join, value, Shl(w % 128, shift));
      TailReadsBack(join, value', shift + 7, w / 128, data, pos + 1);
      CombineParts(join, value, shift, w);
    }
  }

  lemma CombineParts(join: Join, value: nat, shift: nat, w: nat)
    requires join.ByAdd? ==> value + Shl(w, shift) < WORD
    ensures Combine(join, Combine(join, value, Shl(w % 128, shift)), Shl(w / 128, shift + 7))
         == Combine(join, value, Shl(w, shift))
  {
    SplitShift(w, shift);
    if join.ByOr? {
      BitOrAssociative(value, Shl(w % 128, shift), Shl(w / 128, shift + 7));
      BitOrDisjoint(w / 128, shift + 7, Shl(w % 128, shift));
    }
  }

  /** Reading what was written consumes exactly those bytes, whatever follows them. */
  lemma WrittenIsRead(join: Join, n: nat, value: nat, flags: byte, rest: seq<byte>)
    requires PrefixWidth(n) && value < WORD
    ensures Decoded(join, n, Encoded(n, value, flags) + rest)
         == Read(if join.ByOr? then ReadBack(n, value) else value, |Encoded(n, value, flags)|)
  {
    hide Low, BitOr, DecodedTail, ContinuationBytes, Pow2;
    if value >= Mask(n) {
      ContinuedIsRead(join, n, FirstByte(n, flags, Mask(n)), value - Mask(n), rest);
    }
  }

  lemma ContinuedIsRead(join: Join, n: nat, first: byte, w: nat, rest: seq<byte>)
    requires PrefixWidth(n) && Mask(n) + w < WORD && Low(first, n) == Mask(n)
    ensures Decoded(join, n, [first] + ContinuationBytes(w) + rest)
         == Read(Combine(join, Mask(n), w), 1 + |ContinuationBytes(w)|)
  {
    var data := [first] + ContinuationBytes(w) + rest;
    assert data[1..] == ContinuationBytes(w) + rest;
    TailReadsBack(join, Mask(n), 0, w, data, 1);
  }

  /** The or loses information exactly on the unsafe integers, and then it reads too little. */
  lemma SafeIffReadBack(n: nat, value: nat)
    requires PrefixWidth(n)
    ensures Safe(n, value) <==> ReadBack(n, value) == value
    ensures Mask(n) <= value ==> Mask(n) <= ReadBack(n, value) <= value
  {
    if value >= Mask(n) {
      BitOrMask(n, value - Mask(n));
      SplitAt(value - Mask(n), n);
    }
  }

  /** Section 5.1 of RFC 7541 fails in the code for 128 with a 7-bit prefix: it is read as 127. */
  lemma UnsafeExample(flags: byte)
    ensures Decoded(ByOr, 7, Encoded(7, 128, flags)) == Read(127, 2)
  {
    assert Pow2(7) == 128;
    WrittenIsRead(ByOr, 7, 128, flags, []);
    BitOrMask(7, 1);
    assert Encoded(7, 128, flags) + [] == Encoded(7, 128, flags);
  }

  // ---------------------------------------------------------------- what the bytes stand for

  /** Seven bits a byte, the least significant ones first. */
  function Groups(s: seq<byte>): nat {
    if s == [] then 0 else s[0] % 128 + 128 * Groups(s[1..])
  }

  /** Every byte but the last has its top bit set. */
  ghost predicate Chained(s: seq<byte>) {
    s != [] && forall i :: 0 <= i < |s| ==> (s[i] >= 128 <==> i < |s| - 1)
  }

  lemma {:induction false} ContinuationMeans(w: nat)
    ensures Groups(ContinuationBytes(w)) == w && Chained(ContinuationBytes(w))
  {
    var s := ContinuationBytes(w);
    if w < 128 {
      assert s[1..] == [];
    } else {
      ContinuationMeans(w / 128);
      assert s[1..] == ContinuationBytes(w / 128);
      forall i | 0 < i < |s|
        ensures s[i] >= 128 <==> i < |s| - 1
      {
        assert s[i] == s[1..][i - 1];
      }
    }
  }

  /**
   Section 5.1 of RFC 7541: a value below the largest prefix stands in it; else the prefix is all ones and the rest
   follows in groups of seven bits. The bits above the prefix are the flags.
   */
  lemma EncodedMeans(n: nat, value: nat, flags: byte)
    requires PrefixWidth(n) && Low(flags, n) == 0
    ensures var s := Encoded(n, value, flags);
            && s[0] == flags + Low(s[0], n)
            && (if value < Mask(n) then |s| == 1 && Low(s[0], n) == value
                else Low(s[0], n) == Mask(n) && Chained(s[1..]) && value == Mask(n) + Groups(s[1..]))
  {
    hide Low, Pow2;
    if value >= Mask(n) {
      ContinuationMeans(value - Mask(n));
      assert Encoded(n, value, flags)[1..] == ContinuationBytes(value - Mask(n));
    }
  }

  /** The example of Appendix C.1.2 of RFC 7541. */
  lemma EncodedExample()
    ensures Encoded(5, 1337, 0) == [0x1F, 0x9A, 0x0A]
  {
    assert Pow2(5) == 32;
    assert ContinuationBytes(10) == [0x0A];
    assert ContinuationBytes(1306) == [0x9A] + ContinuationBytes(10);
    assert Low(0, 5) == 0;
  }
}
