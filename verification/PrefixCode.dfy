/**
 Prefix codes for byte strings, with a 257th end-of-string symbol and padding taken from
 its code word (section 5.2 of RFC 7541), for any table of code words.
 */
module PrefixCode {
  import opened Basics
  import opened Bits

  const EOS: nat := 256

  /** Code words, indexed by symbol. */
  type Codes = seq<Bitstring>

  ghost predicate PrefixFree(codes: Codes) {
    forall i, j :: 0 <= i < |codes| && 0 <= j < |codes| && codes[i] <= codes[j] ==> i == j
  }

  ghost predicate Usable(codes: Codes) {
    && |codes| == EOS + 1
    && (forall i :: 0 <= i < |codes| ==> codes[i] != [])
    && PrefixFree(codes)
    && codes[EOS] == Ones(|codes[EOS]|) && |codes[EOS]| > 7
  }

  /** p can still be extended to a code word (or is one). */
  ghost predicate Extendable(codes: Codes, p: Bitstring) {
    exists i :: 0 <= i < |codes| && p <= codes[i]
  }

  function CodeBits(codes: Codes, s: seq<byte>): Bitstring
    requires |codes| == EOS + 1
  {
    if s == [] then [] else codes[s[0]] + CodeBits(codes, s[1..])
  }

  lemma {:induction false} CodeBitsConcat(codes: Codes, s: seq<byte>, t: seq<byte>)
    requires |codes| == EOS + 1
    ensures CodeBits(codes, s + t) == CodeBits(codes, s) + CodeBits(codes, t)
  {
    if s == [] {
      assert s + t == t;
    } else {
      CodeBitsConcat(codes, s[1..], t);
      Reassociate(codes[s[0]], CodeBits(codes, s[1..]), CodeBits(codes, t));
      assert (s + t)[1..] == s[1..] + t;
    }
  }

  lemma Reassociate<T>(a: seq<T>, b: seq<T>, c: seq<T>)
    ensures a + (b + c) == (a + b) + c
  {}

  lemma CodeBitsAppend(codes: Codes, s: seq<byte>, x: byte)
    requires |codes| == EOS + 1
    ensures CodeBits(codes, s + [x]) == CodeBits(codes, s) + codes[x]
  {
    CodeBitsConcat(codes, s, [x]);
    assert CodeBits(codes, [x]) == codes[x] + [];
  }

  /** bits spell s, then at most seven ones of padding. */
  ghost predicate Spells(codes: Codes, bits: Bitstring, s: seq<byte>)
    requires |codes| == EOS + 1
  {
    exists k :: 0 <= k <= 7 && bits == CodeBits(codes, s) + Ones(k)
  }

  // ---------------------------------------------------------------- unambiguous parsing

  lemma CodeWordsDiverge(codes: Codes, bits: Bitstring, i: nat, j: nat)
    requires Usable(codes) && i <= EOS && j <= EOS && codes[i] <= bits && codes[j] <= bits
    ensures i == j
  {
    var a, b := codes[i], codes[j];
    assert a == bits[..|a|] && b == bits[..|b|];
    assert a <= b || b <= a;
  }

  lemma PaddingHoldsNoCodeWord(codes: Codes, k: nat, i: nat)
    requires Usable(codes) && k <= 7 && i <= EOS
    ensures Ones(k) <= codes[EOS]
    ensures !(codes[i] <= Ones(k))
  {
    var a, eos := codes[i], codes[EOS];
    assert a <= Ones(k) ==> a <= eos;
  }

  lemma CodeWordOnPath(codes: Codes, c: nat, p: Bitstring)
    requires Usable(codes) && c <= EOS && Extendable(codes, p) && codes[c] <= p
    ensures p == codes[c]
  {
    var i :| 0 <= i < |codes| && p <= codes[i];
    assert codes[c] <= codes[i];
  }

  /** The head of what is spelled decides the first symbol. */
  lemma SpelledHead(codes: Codes, bits: Bitstring, s: seq<byte>, i: nat)
    requires Usable(codes) && Spells(codes, bits, s) && i <= EOS && codes[i] <= bits
    ensures s != [] && i == s[0] && Spells(codes, bits[|codes[i]|..], s[1..])
  {
    var k :| 0 <= k <= 7 && bits == CodeBits(codes, s) + Ones(k);
    PaddingHoldsNoCodeWord(codes, k, i);
    if s != [] {
      CodeWordsDiverge(codes, bits, i, s[0]);
      assert bits[|codes[i]|..] == CodeBits(codes, s[1..]) + Ones(k);
    }
  }

  lemma {:induction false} SpelledPrefix(codes: Codes, o: seq<byte>, tail: Bitstring, s: seq<byte>)
    requires Usable(codes) && Spells(codes, CodeBits(codes, o) + tail, s)
    ensures o <= s && Spells(codes, tail, s[|o|..])
  {
    var bits := CodeBits(codes, o) + tail;
    if o == [] {
      assert bits == tail && s[0..] == s;
    } else {
      SpelledHead(codes, bits, s, o[0]);
      assert bits[|codes[o[0]]|..] == CodeBits(codes, o[1..]) + tail;
      SpelledPrefix(codes, o[1..], tail, s[1..]);
      assert s == [s[0]] + s[1..] && o == [o[0]] + o[1..];
    }
  }

  lemma SpellsUnique(codes: Codes, bits: Bitstring, s: seq<byte>, t: seq<byte>)
    requires Usable(codes) && Spells(codes, bits, s) && Spells(codes, bits, t)
    ensures s == t
  {
    var k :| 0 <= k <= 7 && bits == CodeBits(codes, s) + Ones(k);
    var l :| 0 <= l <= 7 && bits == CodeBits(codes, t) + Ones(l);
    SpelledPrefix(codes, s, Ones(k), t);
    SpelledPrefix(codes, t, Ones(l), s);
  }

  /** One bit past an unfinished path, a string that is spelled is still inside the code tree. */
  lemma SpelledStaysInTree(codes: Codes, p: Bitstring, bit: bool, tail: Bitstring, s: seq<byte>)
    requires Usable(codes) && Extendable(codes, p) && p !in codes
    requires p + [bit] <= tail && Spells(codes, tail, s)
    ensures Extendable(codes, p + [bit])
  {
    var q := p + [bit];
    var k :| 0 <= k <= 7 && tail == CodeBits(codes, s) + Ones(k);
    assert q == tail[..|q|];
    if s == [] {
      PaddingHoldsNoCodeWord(codes, k, EOS);
      assert q <= codes[EOS];
    } else {
      var head := codes[s[0]];
      assert head == tail[..|head|];
      if |head| <= |p| {
        assert head == p[..|head|];
        CodeWordOnPath(codes, s[0], p);
      } else {
        assert q <= head;
      }
    }
  }

  /** Stopping on an unfinished path is accepted exactly when the path is padding. */
  lemma UnfinishedBits(codes: Codes, p: Bitstring, s: seq<byte>)
    requires Usable(codes) && Extendable(codes, p) && p !in codes
    ensures Spells(codes, p, s) <==> s == [] && |p| <= 7 && p == Ones(|p|)
  {
    if Spells(codes, p, s) {
      var k :| 0 <= k <= 7 && p == CodeBits(codes, s) + Ones(k);
      if s != [] {
        CodeWordOnPath(codes, s[0], p);
      }
    }
    if s == [] && |p| <= 7 && p == Ones(|p|) {
      assert p == CodeBits(codes, s) + Ones(|p|);
    }
  }

  // ---------------------------------------------------------------- byte strings

  function BitsToNat(bits: Bitstring): (v: nat)
    ensures v < Pow2(|bits|)
  {
    if bits == [] then 0
    else
      var n := |bits| - 1;
      2 * BitsToNat(bits[..n]) + (if bits[n] then 1 else 0)
  }

  lemma {:induction false} BitsToNatBack(bits: Bitstring)
    ensures BitsOf(BitsToNat(bits), |bits|) == bits
  {
    if bits != [] {
      BitsToNatBack(bits[..|bits| - 1]);
    }
  }

  function Pack(bits: Bitstring): (s: seq<byte>)
    requires |bits| % 8 == 0
    ensures 8 * |s| == |bits|
  {
    if bits == [] then []
    else
      assert Pow2(8) == 256;
      [BitsToNat(bits[..8])] + Pack(bits[8..])
  }

  lemma {:induction false} PackBack(bits: Bitstring)
    requires |bits| % 8 == 0
    ensures BytesToBits(Pack(bits)) == bits
  {
    if bits != [] {
      BitsToNatBack(bits[..8]);
      PackBack(bits[8..]);
      assert Pack(bits)[1..] == Pack(bits[8..]);
    }
  }

  function PadLength(n: nat): nat {
    (8 - n % 8) % 8
  }

  /** The encoding of s: its code words, then ones up to a byte boundary. */
  function Encode(codes: Codes, s: seq<byte>): seq<byte>
    requires |codes| == EOS + 1
  {
    var bits := CodeBits(codes, s);
    Pack(bits + Ones(PadLength(|bits|)))
  }

  ghost predicate Decodes(codes: Codes, b: seq<byte>, s: seq<byte>)
    requires |codes| == EOS + 1
  {
    Spells(codes, BytesToBits(b), s)
  }

  /** The one string that b decodes to, if there is one. */
  ghost function Decode(codes: Codes, b: seq<byte>): Option<seq<byte>>
    requires |codes| == EOS + 1
  {
    if exists s: seq<byte> :: Decodes(codes, b, s) then
      var s: seq<byte> :| Decodes(codes, b, s);
      Some(s)
    else
      None
  }

  lemma DecodeIs(codes: Codes, b: seq<byte>, s: seq<byte>)
    requires Usable(codes)
    ensures Decode(codes, b) == Some(s) <==> Decodes(codes, b, s)
  {
    if Decodes(codes, b, s) {
      var t := Decode(codes, b).value;
      SpellsUnique(codes, BytesToBits(b), s, t);
    }
  }

  lemma EncodeSpells(codes: Codes, s: seq<byte>)
    requires |codes| == EOS + 1
    ensures BytesToBits(Encode(codes, s)) == CodeBits(codes, s) + Ones(PadLength(|CodeBits(codes, s)|))
    ensures Decodes(codes, Encode(codes, s), s)
  {
    PackBack(CodeBits(codes, s) + Ones(PadLength(|CodeBits(codes, s)|)));
  }

  /** A longer text never has a shorter encoding. */
  lemma EncodeGrows(codes: Codes, s: seq<byte>, t: seq<byte>)
    requires |codes| == EOS + 1 && s <= t
    ensures |Encode(codes, s)| <= |Encode(codes, t)|
  {
    assert t == s + t[|s|..];
    CodeBitsConcat(codes, s, t[|s|..]);
    EncodeLength(codes, s);
    EncodeLength(codes, t);
  }

  lemma EncodeLength(codes: Codes, s: seq<byte>)
    requires |codes| == EOS + 1
    ensures |Encode(codes, s)| == (|CodeBits(codes, s)| + 7) / 8
  {}

  lemma PadIs(n: nat, k: nat, bytes: nat)
    requires k <= 7 && n + k == 8 * bytes
    ensures PadLength(n) == k
  {}

  /** Code words, then fewer than eight ones: that is the encoding. */
  lemma EncodeIs(codes: Codes, s: seq<byte>, b: seq<byte>, k: nat)
    requires |codes| == EOS + 1 && k <= 7 && BytesToBits(b) == CodeBits(codes, s) + Ones(k)
    ensures b == Encode(codes, s)
  {
    PadIs(|CodeBits(codes, s)|, k, |b|);
    EncodeSpells(codes, s);
    BytesToBitsInjective(b, Encode(codes, s));
  }

  /** decode(b) = s exactly when b = encode(s): the codec is a two-sided inverse. */
  lemma DecodeInvertsEncode(codes: Codes, b: seq<byte>, s: seq<byte>)
    requires Usable(codes)
    ensures Decode(codes, b) == Some(s) <==> b == Encode(codes, s)
  {
    EncodeSpells(codes, s);
    DecodeIs(codes, b, s);
    if Decodes(codes, b, s) {
      var k :| 0 <= k <= 7 && BytesToBits(b) == CodeBits(codes, s) + Ones(k);
      EncodeIs(codes, s, b, k);
    }
  }

  /** Accepted input never holds the end-of-string code word, and is at most seven ones past its symbols. */
  lemma AcceptedShape(codes: Codes, b: seq<byte>, s: seq<byte>)
    requires Usable(codes) && Decode(codes, b) == Some(s)
    ensures exists k :: 0 <= k <= 7 && BytesToBits(b) == CodeBits(codes, s) + Ones(k)
    ensures forall o: seq<byte> :: !(CodeBits(codes, o) + codes[EOS] <= BytesToBits(b))
  {
    DecodeIs(codes, b, s);
    forall o: seq<byte>
      ensures !(CodeBits(codes, o) + codes[EOS] <= BytesToBits(b))
    {
      var bits := BytesToBits(b);
      if CodeBits(codes, o) + codes[EOS] <= bits {
        var tail := bits[|CodeBits(codes, o)|..];
        assert bits == CodeBits(codes, o) + tail;
        SpelledPrefix(codes, o, tail, s);
        assert codes[EOS] <= tail;
        SpelledHead(codes, tail, s[|o|..], EOS);
      }
    }
  }
}
