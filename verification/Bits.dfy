/**
 Bytes, shifts and bitwise-or on unsigned integers, and bit strings with the most
 significant bit first. Every operation recurses on one bit, so that proofs about
 it stay linear.
 */
module Bits {

  type byte = x: int | 0 <= x < 256

  type Bitstring = seq<bool>

  function Pow2(n: nat): (p: nat)
    ensures p >= 1
  {
    if n == 0 then 1 else 2 * Pow2(n - 1)
  }

  lemma {:induction false} Pow2Monotone(m: nat, n: nat)
    requires m <= n
    ensures Pow2(m) <= Pow2(n)
  {
    if m < n {
      Pow2Monotone(m, n - 1);
    }
  }

  /** v << n */
  function Shl(v: nat, n: nat): nat
    decreases v, n
  {
    if n == 0 then v else 2 * Shl(v, n - 1)
  }

  /** v >> n */
  function Shr(v: nat, n: nat): nat
    decreases v, n
  {
    if n == 0 then v else Shr(v / 2, n - 1)
  }

  /** The n low bits of v as a number. */
  function Low(v: nat, n: nat): (l: nat)
    decreases v, n
  {
    if n == 0 then 0 else 2 * Low(v / 2, n - 1) + v % 2
  }

  lemma {:induction false} SplitAt(v: nat, n: nat)
    ensures v == Shl(Shr(v, n), n) + Low(v, n)
    ensures Low(v, n) < Pow2(n)
    decreases n
  {
    if n > 0 {
      SplitAt(v / 2, n - 1);
    }
  }

  lemma {:induction false} SplitUnique(high: nat, n: nat, low: nat)
    requires low < Pow2(n)
    ensures Shr(Shl(high, n) + low, n) == high
    ensures Low(Shl(high, n) + low, n) == low
    decreases n
  {
    if n > 0 {
      assert (Shl(high, n) + low) / 2 == Shl(high, n - 1) + low / 2;
      SplitUnique(high, n - 1, low / 2);
    }
  }

  lemma {:induction false} ShlMonotone(v: nat, w: nat, n: nat)
    requires v <= w
    ensures Shl(v, n) <= Shl(w, n)
    ensures v < w ==> Shl(v, n) + Pow2(n) <= Shl(w, n)
    decreases n
  {
    if n > 0 {
      ShlMonotone(v, w, n - 1);
    }
  }

  lemma {:induction false} ShlAdd(v: nat, w: nat, n: nat)
    ensures Shl(v + w, n) == Shl(v, n) + Shl(w, n)
    decreases n
  {
    if n > 0 {
      ShlAdd(v, w, n - 1);
    }
  }

  lemma {:induction false} ShlTwice(v: nat, m: nat, n: nat)
    ensures Shl(Shl(v, m), n) == Shl(v, m + n)
    decreases n
  {
    if n > 0 {
      ShlTwice(v, m, n - 1);
    }
  }

  /** Overwriting the n low bits of an m-bit value. */
  lemma {:induction false} ReplaceLow(v: nat, m: nat, n: nat, x: nat)
    requires n <= m && v < Pow2(m) && x < Pow2(n)
    ensures 0 <= v - Low(v, n) + x < Pow2(m)
    ensures Low(v - Low(v, n) + x, n) == x
    decreases n
  {
    if n > 0 {
      ReplaceLow(v / 2, m - 1, n - 1, x / 2);
      assert (v - Low(v, n) + x) / 2 == v / 2 - Low(v / 2, n - 1) + x / 2;
    } else {
      assert v - Low(v, n) + x == v;
    }
  }

  /** Bitwise inclusive or of two unsigned integers of any width. */
  function BitOr(a: nat, b: nat): nat
    decreases a + b
  {
    if a == 0 && b == 0 then 0
    else 2 * BitOr(a / 2, b / 2) + (if a % 2 == 1 || b % 2 == 1 then 1 else 0)
  }

  lemma {:induction false} BitOrZero(a: nat)
    ensures BitOr(a, 0) == a && BitOr(0, a) == a
  {
    if a > 0 {
      BitOrZero(a / 2);
    }
  }

  lemma {:induction false} BitOrAssociative(a: nat, b: nat, c: nat)
    ensures BitOr(BitOr(a, b), c) == BitOr(a, BitOr(b, c))
    decreases a + b + c
  {
    if a + b + c > 0 {
      BitOrAssociative(a / 2, b / 2, c / 2);
    }
  }

  /** On disjoint bit fields, or is addition. */
  lemma {:induction false} BitOrDisjoint(high: nat, n: nat, low: nat)
    requires low < Pow2(n)
    ensures BitOr(Shl(high, n), low) == Shl(high, n) + low
    ensures BitOr(low, Shl(high, n)) == Shl(high, n) + low
    decreases n
  {
    if n == 0 {
      BitOrZero(high);
    } else {
      BitOrDisjoint(high, n - 1, low / 2);
      assert Shl(high, n) / 2 == Shl(high, n - 1);
    }
  }

  /** Or-ing a full mask of n ones overwrites the low n bits. */
  lemma {:induction false} BitOrMask(n: nat, w: nat)
    ensures BitOr(Pow2(n) - 1, w) == w - Low(w, n) + Pow2(n) - 1
  {
    if n == 0 {
      BitOrZero(w);
    } else {
      BitOrMask(n - 1, w / 2);
      assert (Pow2(n) - 1) / 2 == Pow2(n - 1) - 1 && (Pow2(n) - 1) % 2 == 1;
    }
  }

  /** The n low bits of v, most significant bit first. */
  function BitsOf(v: nat, n: nat): (s: Bitstring)
    ensures |s| == n
    decreases v, n
  {
    if n == 0 then [] else BitsOf(v / 2, n - 1) + [v % 2 == 1]
  }

  lemma {:induction false} BitsOfConcat(high: nat, m: nat, low: nat, n: nat)
    requires low < Pow2(n)
    ensures BitsOf(Shl(high, n) + low, m + n) == BitsOf(high, m) + BitsOf(low, n)
    decreases n
  {
    if n == 0 {
      assert BitsOf(high, m) + [] == BitsOf(high, m);
    } else {
      var v := Shl(high, n) + low;
      assert v / 2 == Shl(high, n - 1) + low / 2 && v % 2 == low % 2;
      BitsOfConcat(high, m, low / 2, n - 1);
      assert BitsOf(v, m + n) == BitsOf(v / 2, m + n - 1) + [v % 2 == 1];
    }
  }

  lemma {:induction false} BitsOfSplit(v: nat, m: nat, n: nat)
    ensures BitsOf(v, m + n) == BitsOf(Shr(v, n), m) + BitsOf(v, n)
    decreases n
  {
    if n == 0 {
      assert BitsOf(v, m) + [] == BitsOf(v, m);
    } else {
      BitsOfSplit(v / 2, m, n - 1);
      assert BitsOf(v, m + n) == BitsOf(v / 2, m + n - 1) + [v % 2 == 1];
    }
  }

  lemma {:induction false} BitsOfLow(v: nat, n: nat)
    ensures BitsOf(Low(v, n), n) == BitsOf(v, n)
    decreases n
  {
    if n > 0 {
      BitsOfLow(v / 2, n - 1);
      assert Low(v, n) / 2 == Low(v / 2, n - 1);
    }
  }

  /** Bit k of v, counting from the least significant one. */
  lemma {:induction false} BitsOfIndex(v: nat, n: nat, k: nat)
    requires k < n
    ensures BitsOf(v, n)[n - 1 - k] == (Shr(v, k) % 2 == 1)
    decreases n
  {
    if k > 0 {
      BitsOfIndex(v / 2, n - 1, k - 1);
    }
  }

  lemma {:induction false} BitsOfInjective(v: nat, w: nat, n: nat)
    requires v < Pow2(n) && w < Pow2(n)
    requires BitsOf(v, n) == BitsOf(w, n)
    ensures v == w
    decreases n
  {
    if n > 0 {
      var a, b := BitsOf(v / 2, n - 1), BitsOf(w / 2, n - 1);
      assert a == BitsOf(v, n)[..n - 1] && b == BitsOf(w, n)[..n - 1];
      assert BitsOf(v, n)[n - 1] == (v % 2 == 1) && BitsOf(w, n)[n - 1] == (w % 2 == 1);
      BitsOfInjective(v / 2, w / 2, n - 1);
    }
  }

  function Ones(n: nat): (s: Bitstring)
    ensures |s| == n
    ensures forall i :: 0 <= i < n ==> s[i]
  {
    seq(n, _ => true)
  }

  lemma {:induction false} BitsOfOnes(n: nat)
    ensures BitsOf(Pow2(n) - 1, n) == Ones(n)
  {
    if n > 0 {
      var v := Pow2(n) - 1;
      assert v / 2 == Pow2(n - 1) - 1 && v % 2 == 1;
      BitsOfOnes(n - 1);
      assert Ones(n) == Ones(n - 1) + [true];
    }
  }

  /** The bits of a byte string, eight per byte. */
  function BytesToBits(s: seq<byte>): (b: Bitstring)
    ensures |b| == 8 * |s|
  {
    if s == [] then [] else BitsOf(s[0], 8) + BytesToBits(s[1..])
  }

  lemma {:induction false} BytesToBitsConcat(s: seq<byte>, t: seq<byte>)
    ensures BytesToBits(s + t) == BytesToBits(s) + BytesToBits(t)
  {
    if s == [] {
      assert s + t == t;
    } else {
      BytesToBitsConcat(s[1..], t);
      assert (s + t)[1..] == s[1..] + t;
    }
  }

  lemma BytesToBitsOfOne(x: byte)
    ensures BytesToBits([x]) == BitsOf(x, 8)
  {
    assert BytesToBits([x]) == BitsOf(x, 8) + [];
  }

  lemma {:induction false} BytesToBitsInjective(s: seq<byte>, t: seq<byte>)
    requires BytesToBits(s) == BytesToBits(t)
    ensures s == t
  {
    assert |s| == |t| by { assert 8 * |s| == 8 * |t|; }
    if s != [] {
      var a, b := BytesToBits(s), BytesToBits(t);
      assert BitsOf(s[0], 8) == a[..8] && BitsOf(t[0], 8) == b[..8];
      assert BytesToBits(s[1..]) == a[8..] && BytesToBits(t[1..]) == b[8..];
      assert Pow2(8) == 256;
      BitsOfInjective(s[0], t[0], 8);
      BytesToBitsInjective(s[1..], t[1..]);
      assert s == [s[0]] + s[1..] && t == [t[0]] + t[1..];
    }
  }
}
