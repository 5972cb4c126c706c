/** The bit-packing loop of the Huffman encoder. */
module HuffmanEncoder {
  import opened Bits
  import opened PrefixCode
  import opened HuffmanTree

  /** What is in the output and in the low nbits bits of the accumulator spells s. */
  ghost predicate Pending(codes: Codes, s: seq<byte>, written: seq<byte>, acc: nat, nbits: nat)
    requires |codes| == EOS + 1
  {
    BytesToBits(written) + BitsOf(acc, nbits) == CodeBits(codes, s)
  }

  lemma PushCode(codes: Codes, s: seq<byte>, x: byte, written: seq<byte>, acc: nat, nbits: nat, code: nat, bits: nat)
    requires |codes| == EOS + 1 && codes[x] == BitsOf(code, bits) && code < Pow2(bits)
    requires Pending(codes, s, written, acc, nbits) && acc < Pow2(nbits)
    ensures Pending(codes, s + [x], written, BitOr(Shl(acc, bits), code), nbits + bits)
    ensures BitOr(Shl(acc, bits), code) < Pow2(nbits + bits)
  {
    BitOrDisjoint(acc, bits, code);
    BitsOfConcat(acc, nbits, code, bits);
    CodeBitsAppend(codes, s, x);
    Reassociate(BytesToBits(written), BitsOf(acc, nbits), BitsOf(code, bits));
    ShiftedBelow(acc, nbits, code, bits);
  }

  lemma {:induction false} ShiftedBelow(acc: nat, nbits: nat, code: nat, bits: nat)
    requires acc < Pow2(nbits) && code < Pow2(bits)
    ensures Shl(acc, bits) + code < Pow2(nbits + bits)
    decreases bits
  {
    if bits > 0 {
      ShiftedBelow(acc, nbits, code / 2, bits - 1);
    }
  }

  lemma PopByte(codes: Codes, s: seq<byte>, written: seq<byte>, acc: nat, nbits: nat, b: byte)
    requires |codes| == EOS + 1 && Pending(codes, s, written, acc, 8 + nbits) && b == Low(Shr(acc, nbits), 8)
    ensures Pending(codes, s, written + [b], acc, nbits)
  {
    BitsOfSplit(acc, 8, nbits);
    BitsOfLow(Shr(acc, nbits), 8);
    BytesToBitsConcat(written, [b]);
    BytesToBitsOfOne(b);
    Reassociate(BytesToBits(written), BitsOf(b, 8), BitsOf(acc, nbits));
  }

  lemma PaddedByte(acc: nat, nbits: nat, b: byte)
    requires acc < Pow2(nbits) && 0 < nbits < 8 && b == BitOr(Shl(acc, 8 - nbits), Pow2(8 - nbits) - 1)
    ensures BitsOf(b, 8) == BitsOf(acc, nbits) + Ones(8 - nbits)
  {
    hide BitOr, Shl, BitsOf, Pow2, Ones;
    var pad := 8 - nbits;
    BitOrDisjoint(acc, pad, Pow2(pad) - 1);
    BitsOfConcat(acc, nbits, Pow2(pad) - 1, pad);
    BitsOfOnes(pad);
  }

  lemma PadLast(codes: Codes, s: seq<byte>, written: seq<byte>, acc: nat, nbits: nat, b: byte)
    requires |codes| == EOS + 1 && Pending(codes, s, written, acc, nbits) && 0 < nbits < 8
    requires BitsOf(b, 8) == BitsOf(acc, nbits) + Ones(8 - nbits)
    ensures written + [b] == Encode(codes, s)
  {
    BytesToBitsConcat(written, [b]);
    BytesToBitsOfOne(b);
    Reassociate(BytesToBits(written), BitsOf(acc, nbits), Ones(8 - nbits));
    EncodeIs(codes, s, written + [b], 8 - nbits);
  }

  lemma LastByteFits(acc: nat, nbits: nat)
    requires acc < Pow2(nbits) && 0 < nbits < 8
    ensures BitOr(Shl(acc, 8 - nbits), Pow2(8 - nbits) - 1) < 256
  {
    BitOrDisjoint(acc, 8 - nbits, Pow2(8 - nbits) - 1);
    ShiftedBelow(acc, nbits, Pow2(8 - nbits) - 1, 8 - nbits);
    assert Pow2(8) == 256;
  }

  /** Running out of room in the middle means the whole encoding does not fit. */
  lemma NoRoom(codes: Codes, s: seq<byte>, i: nat, written: seq<byte>, acc: nat, nbits: nat)
    requires |codes| == EOS + 1 && i <= |s| && Pending(codes, s[..i], written, acc, nbits) && nbits > 0
    ensures nbits >= 8 || i == |s| ==> |written| < |Encode(codes, s)|
  {
    assert s == s[..i] + s[i..];
    CodeBitsConcat(codes, s[..i], s[i..]);
    EncodeSpells(codes, s);
    assert |BytesToBits(written)| + nbits <= |CodeBits(codes, s)|;
  }

  lemma LowByteBound(v: nat)
    ensures Low(v, 8) < 256
  {
    SplitAt(v, 8);
    assert Pow2(8) == 256;
  }

  /** The inner loop: moves whole bytes out of the accumulator. */
  method Flush(ghost codes: Codes, ghost s: seq<byte>, ghost i: nat, acc: nat, nbits0: nat,
               out: array<byte>, cap: nat, op0: nat)
    returns (ok: bool, nbits: nat, op: nat)
    requires |codes| == EOS + 1 && op0 <= cap <= out.Length && i <= |s|
    requires Pending(codes, s[..i], out[..op0], acc, nbits0)
    modifies out
    ensures op <= cap
    ensures ok ==> nbits < 8 && nbits <= nbits0 && Pending(codes, s[..i], out[..op], acc, nbits)
    ensures !ok ==> cap < |Encode(codes, s)|
  {
    nbits, op := nbits0, op0;
    while nbits >= 8
      invariant nbits <= nbits0 && op <= cap && Pending(codes, s[..i], out[..op], acc, nbits)
    {
      if op >= cap {
        NoRoom(codes, s, i, out[..op], acc, nbits);
        return false, nbits, op;
      }
      nbits := nbits - 8;
      LowByteBound(Shr(acc, nbits));
      ghost var before := out[..op];
      out[op] := Low(Shr(acc, nbits), 8);
      PopByte(codes, s[..i], before, acc, nbits, out[op]);
      op := op + 1;
      assert out[..op] == before + [out[op - 1]];
    }
    ok := true;
  }

  /** Succeeds exactly when the encoding fits in cap bytes. The accumulator never needs 64 bits. */
  method EncodeBytes(table: seq<HuffCode>, input: seq<byte>, out: array<byte>, cap: nat) returns (ok: bool, length: nat)
    requires GoodTable(table) && cap <= out.Length
    modifies out
    ensures ok <==> |Encode(CodesOf(table), input)| <= cap
    ensures ok ==> length == |Encode(CodesOf(table), input)| && out[..length] == Encode(CodesOf(table), input)
  {
    hide BitOr, Shl, Shr, Low, BitsOf, Encode, CodeBits, Ones;
    ghost var codes := CodesOf(table);
    var acc: nat, nbits: nat, op: nat := 0, 0, 0;
    var i := 0;
    assert out[..0] == [] && input[..0] == [];
    NothingPending(codes);
    while i < |input|
      invariant 0 <= i <= |input| && op <= cap && nbits < 8 && acc < Pow2(nbits)
      invariant Pending(codes, input[..i], out[..op], acc, nbits)
    {
      var code, bits := table[input[i]].code, table[input[i]].bits;
      PushCode(codes, input[..i], input[i], out[..op], acc, nbits, code, bits);
      assert input[..i + 1] == input[..i] + [input[i]];
      acc := BitOr(Shl(acc, bits), code);
      nbits := nbits + bits;
      FitsWord(acc, nbits);
      assert acc < Pow2(64);
      var more;
      more, nbits, op := Flush(codes, input, i + 1, acc, nbits, out, cap, op);
      if !more {
        return false, 0;
      }
      SplitAt(acc, nbits);
      BitsOfLow(acc, nbits);
      acc := Low(acc, nbits);
      i := i + 1;
    }
    assert input[..i] == input;
    if nbits > 0 {
      if op >= cap {
        NoRoom(codes, input, i, out[..op], acc, nbits);
        return false, 0;
      }
      ghost var before := out[..op];
      LastByteFits(acc, nbits);
      out[op] := BitOr(Shl(acc, 8 - nbits), Pow2(8 - nbits) - 1);
      PaddedByte(acc, nbits, out[op]);
      PadLast(codes, input, before, acc, nbits, out[op]);
      op := op + 1;
      assert out[..op] == before + [out[op - 1]];
    } else {
      assert BytesToBits(out[..op]) == CodeBits(codes, input) + Ones(0);
      EncodeIs(codes, input, out[..op], 0);
    }
    return true, op;
  }

  lemma NothingPending(codes: Codes)
    requires |codes| == EOS + 1
    ensures Pending(codes, [], [], 0, 0)
  {}

  lemma FitsWord(acc: nat, nbits: nat)
    requires nbits <= 64 && acc < Pow2(nbits)
    ensures acc < Pow2(64)
  {
    Pow2Monotone(nbits, 64);
  }
}
