/** Version order: dotted segments compared as digit strings, without turning them into integers. */
module Version {

  // ---------------------------------------------------------------- segments

  function FirstDot(v: string): (i: nat)
    ensures i <= |v| && (i < |v| ==> v[i] == '.') && forall k :: 0 <= k < i ==> v[k] != '.'
  {
    if v == "" || v[0] == '.' then 0 else 1 + FirstDot(v[1..])
  }

  function Stripped(s: string): (r: string)
    ensures r == "" || r[0] != '0'
  {
    if s != "" && s[0] == '0' then Stripped(s[1..]) else s
  }

  /** The first segment, without its leading zeros. */
  function Head(v: string): string {
    Stripped(v[..FirstDot(v)])
  }

  function Rest(v: string): (r: string)
    ensures v != "" ==> |r| < |v|
    ensures v == "" ==> r == ""
  {
    if FirstDot(v) < |v| then v[FirstDot(v) + 1..] else ""
  }

  // ---------------------------------------------------------------- the order

  /** Sign of the first difference, or 0. */
  function Lex(s: string, t: string): (c: int)
    requires |s| == |t|
    ensures -1 <= c <= 1
  {
    if s == "" then 0
    else if s[0] != t[0] then (if s[0] < t[0] then -1 else 1)
    else Lex(s[1..], t[1..])
  }

  /** More significant digits win; with equally many, the first difference decides. */
  function ByDigits(s: string, t: string): (c: int)
    ensures -1 <= c <= 1
  {
    if |s| != |t| then (if |s| < |t| then -1 else 1) else Lex(s, t)
  }

  function Compare(v: string, w: string): (c: int)
    ensures -1 <= c <= 1
    decreases |v| + |w|
  {
    if v == "" && w == "" then 0
    else
      var c := ByDigits(Head(v), Head(w));
      if c != 0 then c else Compare(Rest(v), Rest(w))
  }

  // ---------------------------------------------------------------- the loop

  /** Significant digits of the segment at pos, and the position of the next segment. */
  method ReadVersionSegment(v: string, pos: nat) returns (next: nat, start: nat, len: nat)
    requires pos <= |v|
    ensures pos <= next <= |v| && (pos < |v| ==> pos < next) && v[next..] == Rest(v[pos..])
    ensures start + len <= |v| && v[start..start + len] == Head(v[pos..])
  {
    hide Stripped, Head, Rest;
    var p := pos;
    while p < |v| && v[p] != '.'
      invariant pos <= p <= |v| && forall k :: pos <= k < p ==> v[k] != '.'
    {
      p := p + 1;
    }
    SegmentAt(v, pos, p);
    var d := pos;
    while d < p && v[d] == '0'
      invariant pos <= d <= p && Stripped(v[d..p]) == Head(v[pos..])
    {
      assert v[d..p][1..] == v[d + 1..p];
      StripStep(v[d..p]);
      d := d + 1;
    }
    StripStep(v[d..p]);
    start, len := d, p - d;
    next := if p < |v| && v[p] == '.' then p + 1 else p;
  }

  lemma StripStep(s: string)
    ensures Stripped(s) == if s != "" && s[0] == '0' then Stripped(s[1..]) else s
  {}

  /** The text between pos and the next dot, or the end, is the first segment from pos on. */
  lemma SegmentAt(v: string, pos: nat, p: nat)
    requires pos <= p <= |v| && (p < |v| ==> v[p] == '.') && forall k :: pos <= k < p ==> v[k] != '.'
    ensures Head(v[pos..]) == Stripped(v[pos..p])
    ensures Rest(v[pos..]) == if p < |v| then v[p + 1..] else v[p..]
  {
    hide Stripped, FirstDot;
    DotAt(v[pos..], p - pos);
    assert v[pos..][..p - pos] == v[pos..p];
    if p < |v| {
      assert v[pos..][p - pos + 1..] == v[p + 1..];
    }
  }

  lemma DotAt(v: string, i: nat)
    requires i <= |v| && (i < |v| ==> v[i] == '.') && forall k :: 0 <= k < i ==> v[k] != '.'
    ensures FirstDot(v) == i
  {}

  method CompareMemory(s: string, t: string) returns (c: int)
    requires |s| == |t|
    ensures c == Lex(s, t)
  {
    var i := 0;
    assert s[0..] == s && t[0..] == t;
    while i < |s|
      invariant 0 <= i <= |s| && Lex(s, t) == Lex(s[i..], t[i..])
    {
      if s[i] != t[i] {
        return if s[i] < t[i] then -1 else 1;
      }
      assert s[i..][1..] == s[i + 1..] && t[i..][1..] == t[i + 1..];
      i := i + 1;
    }
    return 0;
  }

  method VersionCompare(v1: string, v2: string) returns (c: int)
    ensures c == Compare(v1, v2)
  {
    hide Head, Rest;
    var p: nat, q: nat := 0, 0;
    assert v1[0..] == v1 && v2[0..] == v2;
    while p < |v1| || q < |v2|
      invariant p <= |v1| && q <= |v2| && Compare(v1, v2) == Compare(v1[p..], v2[q..])
      decreases |v1| - p + |v2| - q
    {
      var s1, l1, s2, l2;
      assert v1[p..] != "" || v2[q..] != "";
      p, s1, l1 := ReadVersionSegment(v1, p);
      q, s2, l2 := ReadVersionSegment(v2, q);
      if l1 != l2 {
        return if l1 < l2 then -1 else 1;
      }
      if l1 > 0 {
        var cmp := CompareMemory(v1[s1..s1 + l1], v2[s2..s2 + l2]);
        if cmp != 0 {
          return if cmp < 0 then -1 else 1;
        }
      }
    }
    return 0;
  }

  // ---------------------------------------------------------------- a total preorder

  lemma {:induction false} LexOrder(s: string, t: string, u: string)
    requires |s| == |t| == |u|
    ensures Lex(s, s) == 0 && Lex(t, s) == -Lex(s, t)
    ensures Lex(s, t) <= 0 && Lex(t, u) <= 0 ==> Lex(s, u) <= 0 && (Lex(s, u) == 0 ==> Lex(s, t) == 0 && Lex(t, u) == 0)
  {
    if s != "" {
      LexOrder(s[1..], t[1..], u[1..]);
    }
  }

  lemma DigitsOrder(s: string, t: string, u: string)
    ensures ByDigits(s, s) == 0 && ByDigits(t, s) == -ByDigits(s, t)
    ensures ByDigits(s, t) <= 0 && ByDigits(t, u) <= 0 ==>
              ByDigits(s, u) <= 0 && (ByDigits(s, u) == 0 ==> ByDigits(s, t) == 0 && ByDigits(t, u) == 0)
  {
    LexOrder(s, s, s);
    if |s| == |t| {
      LexOrder(s, t, s);
      if |t| == |u| {
        LexOrder(s, t, u);
      }
    }
  }

  /** Reflexive, total and transitive, on all strings. */
  lemma {:induction false} TotalPreorder(a: string, b: string, c: string)
    ensures Compare(a, a) == 0 && Compare(b, a) == -Compare(a, b)
    ensures Compare(a, b) <= 0 && Compare(b, c) <= 0 ==> Compare(a, c) <= 0
    decreases |a| + |b| + |c|
  {
    if a != "" || b != "" || c != "" {
      hide Head, Rest, ByDigits;
      DigitsOrder(Head(a), Head(b), Head(c));
      TotalPreorder(Rest(a), Rest(b), Rest(c));
      SameHeads();
    }
  }

  lemma SameHeads()
    ensures Head("") == "" && Rest("") == "" && ByDigits("", "") == 0
  {}

  // ---------------------------------------------------------------- as lists of numbers

  predicate Digits(s: string) {
    forall k :: 0 <= k < |s| ==> '0' <= s[k] <= '9'
  }

  /** Digits and dots only. */
  predicate Dotted(v: string) {
    forall k :: 0 <= k < |v| ==> v[k] == '.' || '0' <= v[k] <= '9'
  }

  /** The decimal number written by s. */
  function Value(s: string): nat
    requires Digits(s)
  {
    if s == "" then 0 else 10 * Value(s[..|s| - 1]) + (s[|s| - 1] as nat - '0' as nat)
  }

  function Numbers(v: string): seq<nat>
    requires Dotted(v)
    decreases |v|
  {
    if v == "" then []
    else
      DottedParts(v);
      [Value(v[..FirstDot(v)])] + Numbers(Rest(v))
  }

  lemma DottedParts(v: string)
    requires Dotted(v)
    ensures Digits(v[..FirstDot(v)]) && Dotted(Rest(v))
  {}

  function NumberAt(a: seq<nat>, i: nat): nat {
    if i < |a| then a[i] else 0
  }

  /** Both lists padded with zeros: the first position where they differ decides. */
  ghost predicate PaddedOrder(a: seq<nat>, b: seq<nat>, c: int) {
    if forall i: nat :: NumberAt(a, i) == NumberAt(b, i) then c == 0
    else exists i: nat :: (forall k: nat :: k < i ==> NumberAt(a, k) == NumberAt(b, k))
                          && NumberAt(a, i) != NumberAt(b, i)
                          && c == if NumberAt(a, i) < NumberAt(b, i) then -1 else 1
  }

  function Sign(a: int, b: int): int {
    if a < b then -1 else if a > b then 1 else 0
  }

  lemma {:induction false} StrippedValue(s: string)
    requires Digits(s)
    ensures Digits(Stripped(s)) && Value(Stripped(s)) == Value(s)
  {
    if s != "" && s[0] == '0' {
      StrippedValue(s[1..]);
      LeadingZero(s);
    }
  }

  lemma {:induction false} LeadingZero(s: string)
    requires Digits(s) && s != "" && s[0] == '0'
    ensures Value(s) == Value(s[1..])
  {
    if |s| > 1 {
      var t := s[..|s| - 1];
      LeadingZero(t);
      assert s[1..][..|s| - 2] == t[1..];
    } else {
      assert s[..0] == "";
    }
  }

  function Power(n: nat): nat {
    if n == 0 then 1 else 10 * Power(n - 1)
  }

  lemma {:induction false} ValueBounds(s: string)
    requires Digits(s)
    ensures Value(s) < Power(|s|)
    ensures s != "" && s[0] != '0' ==> Power(|s| - 1) <= Value(s)
  {
    if s != "" {
      ValueBounds(s[..|s| - 1]);
    }
  }

  lemma {:induction false} PowerGrows(m: nat, n: nat)
    requires m <= n
    ensures Power(m) <= Power(n)
  {
    if m < n {
      PowerGrows(m, n - 1);
    }
  }

  lemma {:induction false} LexAtEnd(s: string, t: string)
    requires |s| == |t| && s != ""
    ensures var s', t' := s[..|s| - 1], t[..|t| - 1];
            Lex(s, t) == if Lex(s', t') != 0 then Lex(s', t') else Sign(s[|s| - 1] as int, t[|t| - 1] as int)
  {
    if |s| > 1 {
      LexAtEnd(s[1..], t[1..]);
      assert s[1..][..|s| - 2] == s[..|s| - 1][1..] && t[1..][..|t| - 2] == t[..|t| - 1][1..];
    }
  }

  lemma {:induction false} LexIsNumeric(s: string, t: string)
    requires Digits(s) && Digits(t) && |s| == |t|
    ensures Lex(s, t) == Sign(Value(s), Value(t))
  {
    if s != "" {
      LexIsNumeric(s[..|s| - 1], t[..|t| - 1]);
      LexAtEnd(s, t);
    }
  }

  lemma DigitsAreNumeric(s: string, t: string)
    requires Digits(s) && Digits(t) && (s == "" || s[0] != '0') && (t == "" || t[0] != '0')
    ensures ByDigits(s, t) == Sign(Value(s), Value(t))
  {
    ValueBounds(s);
    ValueBounds(t);
    if |s| < |t| {
      PowerGrows(|s|, |t| - 1);
    } else if |t| < |s| {
      PowerGrows(|t|, |s| - 1);
    } else {
      LexIsNumeric(s, t);
    }
  }

  lemma HeadIsNumeric(v: string, w: string)
    requires Dotted(v) && Dotted(w)
    ensures ByDigits(Head(v), Head(w)) == Sign(NumberAt(Numbers(v), 0), NumberAt(Numbers(w), 0))
  {
    DottedParts(v);
    DottedParts(w);
    StrippedValue(v[..FirstDot(v)]);
    StrippedValue(w[..FirstDot(w)]);
    DigitsAreNumeric(Head(v), Head(w));
  }

  lemma RestNumbers(v: string)
    requires Dotted(v)
    ensures Dotted(Rest(v)) && forall i: nat :: NumberAt(Numbers(v), i + 1) == NumberAt(Numbers(Rest(v)), i)
  {
    DottedParts(v);
  }

  lemma ConsOrder(a: seq<nat>, b: seq<nat>, ra: seq<nat>, rb: seq<nat>, c: int)
    requires forall i: nat :: NumberAt(a, i + 1) == NumberAt(ra, i)
    requires forall i: nat :: NumberAt(b, i + 1) == NumberAt(rb, i)
    requires NumberAt(a, 0) == NumberAt(b, 0) && PaddedOrder(ra, rb, c)
    ensures PaddedOrder(a, b, c)
  {
    hide NumberAt;
    if forall i: nat :: NumberAt(ra, i) == NumberAt(rb, i) {
      forall i: nat
        ensures NumberAt(a, i) == NumberAt(b, i)
      {
        if i > 0 {
          assert NumberAt(a, (i - 1) + 1) == NumberAt(ra, i - 1);
        }
      }
    } else {
      var i: nat :| (forall k: nat :: k < i ==> NumberAt(ra, k) == NumberAt(rb, k))
                    && NumberAt(ra, i) != NumberAt(rb, i)
                    && c == if NumberAt(ra, i) < NumberAt(rb, i) then -1 else 1;
      forall k: nat | k < i + 1
        ensures NumberAt(a, k) == NumberAt(b, k)
      {
        if k > 0 {
          assert NumberAt(a, (k - 1) + 1) == NumberAt(ra, k - 1);
          assert NumberAt(b, (k - 1) + 1) == NumberAt(rb, k - 1);
        }
      }
      assert NumberAt(a, i + 1) == NumberAt(ra, i) && NumberAt(b, i + 1) == NumberAt(rb, i);
    }
  }

  /** On dotted digit strings of any length the order is that of zero-padded lists of unbounded naturals. */
  lemma {:induction false} ComparesNumbers(v: string, w: string)
    requires Dotted(v) && Dotted(w)
    ensures PaddedOrder(Numbers(v), Numbers(w), Compare(v, w))
    decreases |v| + |w|
  {
    if v != "" || w != "" {
      HeadIsNumeric(v, w);
      RestNumbers(v);
      RestNumbers(w);
      if ByDigits(Head(v), Head(w)) == 0 {
        ComparesNumbers(Rest(v), Rest(w));
        ConsOrder(Numbers(v), Numbers(w), Numbers(Rest(v)), Numbers(Rest(w)), Compare(Rest(v), Rest(w)));
      }
    }
  }

  // ---------------------------------------------------------------- what does not matter

  /** A zero in front of any version changes nothing. */
  lemma LeadingZeroIgnored(v: string)
    ensures Compare("0" + v, v) == 0
  {
    var w := "0" + v;
    assert w[1..] == v;
    assert FirstDot(w) == 1 + FirstDot(v);
    assert w[..FirstDot(w)] == "0" + v[..FirstDot(v)];
    assert w[..FirstDot(w)][1..] == v[..FirstDot(v)];
    assert Head(w) == Head(v) && Rest(w) == Rest(v);
    TotalPreorder(Head(v), Rest(v), v);
    DigitsOrder(Head(v), Head(v), Head(v));
    TotalPreorder(Rest(v), Rest(v), Rest(v));
  }

  /** Neither does a segment of zero behind it. */
  lemma {:induction false} TrailingZeroIgnored(v: string)
    ensures Compare(v + ".0", v) == 0
    decreases |v|
  {
    hide Head, Rest, Compare;
    var w := v + ".0";
    SameHead(v, w);
    CompareRests(w, v);
    if FirstDot(v) < |v| {
      TrailingZeroIgnored(Rest(v));
    } else {
      ZeroIsNothing();
    }
  }

  lemma CompareRests(v: string, w: string)
    requires ByDigits(Head(v), Head(w)) == 0
    ensures Compare(v, w) == Compare(Rest(v), Rest(w))
  {
    hide Head, ByDigits;
  }

  lemma SuffixSlices(v: string, i: nat)
    requires i <= |v|
    ensures var w := v + ".0";
            w[0..] == w && w[0..i] == v[0..i] && w[i + 1..] == if i < |v| then v[i + 1..] + ".0" else "0"
  {}

  lemma SameHead(v: string, w: string)
    requires w == v + ".0"
    ensures ByDigits(Head(w), Head(v)) == 0
    ensures Rest(w) == if FirstDot(v) < |v| then Rest(v) + ".0" else "0"
    ensures FirstDot(v) == |v| ==> Rest(v) == ""
  {
    hide Head, Rest, Stripped, FirstDot, ByDigits;
    var i := FirstDot(v);
    SuffixSlices(v, i);
    assert v[0..] == v;
    SegmentAt(v, 0, i);
    SegmentAt(w, 0, i);
    DigitsOrder(Head(v), Head(v), Head(v));
  }

  lemma ZeroIsNothing()
    ensures Compare("0", "") == 0
  {
    assert "0"[..1] == "0" && "0"[1..] == "";
    assert Head("0") == "" && Rest("0") == "";
    DigitsOrder("", "", "");
  }
}
