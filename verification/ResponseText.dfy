/** The text of a response's fields: the status in decimal digits, most significant first, and names in lower case. */
module ResponseText {
  import opened Bits
  import opened DynamicTable
  import opened StaticTable
  import opened HpackRoundTrip
  import opened HpackBlock
  import opened WiderTable
  import opened Frames
  import opened H2State

  /** Decimal digits, without a zero in front of others. */
  ghost predicate IsDecimal(s: seq<byte>) {
    && s != [] && (s[0] == 48 ==> |s| == 1)
    && forall i :: 0 <= i < |s| ==> 48 <= s[i] <= 57
  }

  /** The number the digits stand for, ones at the end. */
  function DecimalValue(s: seq<byte>): int {
    if s == [] then 0 else 10 * DecimalValue(s[..|s| - 1]) + s[|s| - 1] - 48
  }

  lemma {:induction false} DigitsMean(n: nat)
    ensures IsDecimal(Digits(n)) && DecimalValue(Digits(n)) == n
    ensures Digits(n)[0] == 48 <==> n == 0
  {
    if n < 10 {
      assert Digits(n)[..0] == [];
    } else {
      var front := Digits(n / 10);
      DigitsMean(n / 10);
      assert Digits(n) == front + [48 + n % 10];
      assert Digits(n)[..|front|] == front;
    }
  }

  function Pow10(k: nat): nat {
    if k == 0 then 1 else 10 * Pow10(k - 1)
  }

  /** n has at most k digits exactly when it is below 10^k. */
  lemma {:induction false} DigitCount(n: nat, k: nat)
    requires k > 0
    ensures |Digits(n)| <= k <==> n < Pow10(k)
    decreases k
  {
    if k == 1 {
      assert Pow10(1) == 10 * Pow10(0);
    } else if n >= 10 {
      DigitCount(n / 10, k - 1);
    } else {
      AtLeastTen(k);
    }
  }

  lemma {:induction false} AtLeastTen(k: nat)
    requires k > 0
    ensures Pow10(k) >= 10
  {
    if k > 1 {
      AtLeastTen(k - 1);
    } else {
      assert Pow10(1) == 10 * Pow10(0);
    }
  }

  /** A minus sign in front makes the number negative. */
  function SignedValue(s: seq<byte>): int {
    if s != [] && s[0] == 45 then -DecimalValue(s[1..]) else DecimalValue(s)
  }

  lemma {:induction false} ValueIsBelow(s: seq<byte>)
    requires forall i :: 0 <= i < |s| ==> 48 <= s[i] <= 57
    ensures 0 <= DecimalValue(s) < Pow10(|s|)
  {
    if s != [] {
      ValueIsBelow(s[..|s| - 1]);
    }
  }

  /**
   The eight characters hold the status exactly when it has at most seven characters; then it is written in decimal,
   without zeros in front.
   */
  lemma StatusMeans(status: int)
    ensures SignedValue(StatusText(status)) == status <==> -1_000_000 < status < 10_000_000
    ensures 0 <= status < 10_000_000 ==> IsDecimal(StatusText(status)) && DecimalValue(StatusText(status)) == status
  {
    hide Digits, DecimalValue, Pow10;
    var n := if status < 0 then -status else status;
    var digits := Digits(n);
    DigitsMean(n);
    SevenDigits(n);
    if status < 0 {
      assert ([45] + digits)[1..] == digits;
      if n >= 1_000_000 {
        FrontIsSmall(digits, 6);
        assert StatusText(status)[1..] == digits[..6];
      }
    } else if n >= 10_000_000 {
      FrontIsSmall(digits, 7);
      assert StatusText(status) == digits[..7];
    }
  }

  lemma FrontIsSmall(digits: seq<byte>, k: nat)
    requires k <= |digits| && IsDecimal(digits)
    ensures 0 <= DecimalValue(digits[..k]) < Pow10(k)
  {
    hide DecimalValue, Pow10;
    ValueIsBelow(digits[..k]);
  }

  lemma SevenDigits(n: nat)
    ensures Pow10(6) == 1_000_000 && Pow10(7) == 10_000_000
    ensures |Digits(n)| <= 6 <==> n < 1_000_000
    ensures |Digits(n)| <= 7 <==> n < 10_000_000
  {
    hide Digits;
    MillionIs();
    DigitCount(n, 6);
    DigitCount(n, 7);
  }

  lemma MillionIs()
    ensures Pow10(6) == 1_000_000 && Pow10(7) == 10_000_000
  {
    assert Pow10(3) == 1000;
  }

  /** The first field a peer decodes is the status, as a decimal number. */
  lemma StatusDelivered(enc: Table, dec: Table, r: Response)
    requires Kept(enc) && Covers(dec, enc) && AllFaithful(enc, MAX_FRAME, FieldsOf(r))
    requires 0 <= r.status < 10_000_000
    ensures var list := DecodedBlock(dec, ResponseBlock(enc, r).bytes).list;
            && list != [] && list[0].name == Ascii(":status")
            && IsDecimal(list[0].value) && DecimalValue(list[0].value) == r.status
  {
    hide AllFaithful, EncodedBlock, DecodedBlock, Kept, Covers, StatusText, Ascii;
    WiderBlock(dec, enc, MAX_FRAME, FieldsOf(r));
    StatusMeans(r.status);
  }

  // ---------------------------------------------------------------- lower case

  lemma FirstLetters()
    ensures Lower(Ascii("ABCDEFGHIJKLM")) == Ascii("abcdefghijklm")
  {}

  lemma LastLetters()
    ensures Lower(Ascii("NOPQRSTUVWXYZ")) == Ascii("nopqrstuvwxyz")
  {}

  /** Upper-case letters become their lower-case ones, and other bytes stay; so a second time changes nothing. */
  lemma LowerMeans(s: seq<byte>)
    ensures Lower(Ascii("ABCDEFGHIJKLM")) == Ascii("abcdefghijklm")
    ensures Lower(Ascii("NOPQRSTUVWXYZ")) == Ascii("nopqrstuvwxyz")
    ensures Lower(Lower(s)) == Lower(s)
    ensures forall i :: 0 <= i < |s| && s[i] !in UpperCase() ==> Lower(s)[i] == s[i]
  {
    hide Ascii;
    FirstLetters();
    LastLetters();
    forall i | 0 <= i < |s| && s[i] !in UpperCase()
      ensures Lower(s)[i] == s[i]
    {
      UpperLetters(s[i]);
    }
  }

  function UpperCase(): seq<byte> {
    Ascii("ABCDEFGHIJKLM") + Ascii("NOPQRSTUVWXYZ")
  }

  lemma UpperLetters(b: byte)
    ensures 65 <= b <= 90 ==> b in UpperCase()
  {
    if 65 <= b <= 77 {
      assert Ascii("ABCDEFGHIJKLM")[b - 65] == b;
    } else if 78 <= b <= 90 {
      assert Ascii("NOPQRSTUVWXYZ")[b - 78] == b;
    }
  }
}
