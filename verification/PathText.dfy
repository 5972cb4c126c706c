/** Slashes in paths, and NUL-ended text inside a buffer. */
module PathText {

  function FirstSlash(s: string): (i: nat)
    ensures i <= |s| && '/' !in s[..i]
    ensures i < |s| ==> s[i] == '/'
  {
    if s == "" || s[0] == '/' then 0
    else
      assert s[..1 + FirstSlash(s[1..])] == [s[0]] + s[1..][..FirstSlash(s[1..])];
      1 + FirstSlash(s[1..])
  }

  lemma FirstSlashAt(s: string, i: nat)
    requires i <= |s| && '/' !in s[..i] && (i < |s| ==> s[i] == '/')
    ensures FirstSlash(s) == i
  {
    var f := FirstSlash(s);
    NoSlashBefore(s, i);
    NoSlashBefore(s, f);
  }

  lemma NoSlashBefore(s: string, n: nat)
    requires n <= |s| && '/' !in s[..n]
    ensures forall k :: 0 <= k < n ==> s[k] != '/'
  {
    forall k | 0 <= k < n
      ensures s[k] != '/'
    {
      assert s[..n][k] == s[k];
    }
  }

  /** The segment, ended by a NUL, starts at position start of the buffer. */
  ghost predicate HoldsAt(buffer: seq<char>, start: nat, segment: string) {
    && start + |segment| < |buffer|
    && buffer[start..start + |segment|] == segment
    && buffer[start + |segment|] == '\0'
    && '\0' !in segment
  }

  /** The C string that starts at position start. */
  function TextAt(buffer: seq<char>, start: nat): (text: string)
    requires start <= |buffer|
    decreases |buffer| - start
  {
    if start == |buffer| || buffer[start] == '\0' then "" else [buffer[start]] + TextAt(buffer, start + 1)
  }

  lemma {:induction false} HeldIsRead(buffer: seq<char>, start: nat, segment: string)
    requires HoldsAt(buffer, start, segment)
    ensures TextAt(buffer, start) == segment
    decreases |segment|
  {
    if segment != "" {
      var rest := segment[1..];
      assert buffer[start] == buffer[start..start + |segment|][0] == segment[0];
      assert buffer[start + 1..start + 1 + |rest|] == buffer[start..start + |segment|][1..] == rest;
      assert segment == [segment[0]] + rest;
      HeldIsRead(buffer, start + 1, rest);
    }
  }

  lemma SlicesAt(buffer: seq<char>, text: string, from: nat, p: nat)
    requires |text| < |buffer| && from <= p < |text| && buffer[from..|text|] == text[from..]
    ensures buffer[p] == text[p] && buffer[from..p] == text[from..p] == text[from..][..p - from]
    ensures text[from..p + 1] == text[from..p] + [text[p]] && text[from..][p - from] == text[p]
    ensures text[from..][p - from + 1..] == text[p + 1..] == buffer[p := '\0'][p + 1..|text|]
  {
    assert buffer[from..|text|][p - from] == text[from..][p - from];
    assert buffer[from..|text|][..p - from] == buffer[from..p];
    assert buffer[from..|text|][p + 1 - from..] == buffer[p + 1..|text|];
  }

  function ClipTo(s: string, n: nat): (text: string)
    ensures |text| <= n && text <= s
  {
    if |s| <= n then s else s[..n]
  }

  /** strncpy into a buffer of n + 1 characters, always ended by a NUL. */
  method CopyClipped(s: string, n: nat) returns (tmp: array<char>)
    ensures fresh(tmp) && tmp.Length == n + 1
    ensures tmp[..|ClipTo(s, n)|] == ClipTo(s, n) && tmp[|ClipTo(s, n)|] == '\0'
  {
    tmp := new char[n + 1](_ => '\0');
    for i := 0 to if |s| < n then |s| else n
      invariant tmp[..i] == s[..i]
      invariant forall k :: i <= k <= n ==> tmp[k] == '\0'
    {
      tmp[i] := s[i];
    }
    assert s[..|s|] == s;
  }

  /** Ends the segment at the next slash by a NUL; more tells whether there was a slash. */
  method CutSegment(tmp: array<char>, at: nat, ghost text: string) returns (more: bool, next: nat)
    requires |text| < tmp.Length && at <= |text| && '\0' !in text
    requires tmp[..][at..|text|] == text[at..] && tmp[|text|] == '\0'
    modifies tmp
    ensures more == (at + FirstSlash(text[at..]) < |text|)
    ensures more ==> next == at + FirstSlash(text[at..]) + 1 && tmp[..][next..|text|] == text[next..]
    ensures tmp[|text|] == '\0' && HoldsAt(tmp[..], at, text[at..][..FirstSlash(text[at..])])
  {
    hide FirstSlash, HoldsAt;
    ghost var buffer, rest := tmp[..], text[at..];
    var p := at;
    while tmp[p] != '\0' && tmp[p] != '/'
      invariant at <= p <= |text| && '/' !in text[at..p] && tmp[..] == buffer
      decreases |text| - p
    {
      SlicesAt(buffer, text, at, p);
      p := p + 1;
    }
    if p < |text| {
      SlicesAt(buffer, text, at, p);
    }
    assert rest[..p - at] == text[at..p] && buffer[at..|text|][..p - at] == buffer[at..p];
    FirstSlashAt(rest, p - at);
    more := tmp[p] == '/';
    next := p + 1;
    if more {
      tmp[p] := '\0';
      assert tmp[..] == buffer[p := '\0'];
    }
    assert tmp[..][at..p] == buffer[at..p];
    HoldsPrefix(tmp[..], at, rest[..p - at]);
  }

  lemma HoldsPrefix(buffer: seq<char>, at: nat, segment: string)
    requires at + |segment| < |buffer| && buffer[at..at + |segment|] == segment
    requires buffer[at + |segment|] == '\0' && '\0' !in segment
    ensures HoldsAt(buffer, at, segment)
  {}
}
