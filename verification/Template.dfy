/** Two-pass rendering of templates with {{<var>name</var>}} placeholders. */
module Template {
  import opened Basics

  const OPEN: string := "{{<var>"
  const CLOSE: string := "</var>}}"
  const NAME_CLIP: nat := 255

  // ---------------------------------------------------------------- one pass, recursively

  predicate StartsWith(s: string, prefix: string) {
    |prefix| <= |s| && s[..|prefix|] == prefix
  }

  /** First position at which pattern occurs, or |s|. */
  function IndexOf(s: string, pattern: string): (k: nat)
    ensures k <= |s|
    ensures k < |s| ==> StartsWith(s[k..], pattern)
  {
    if s == "" || StartsWith(s, pattern) then
      assert s != "" ==> s[0..] == s;
      0
    else
      var k := IndexOf(s[1..], pattern);
      assert k < |s[1..]| ==> s[1..][k..] == s[k + 1..];
      k + 1
  }

  /** Length of the variable name when t starts with a complete placeholder. */
  function NameLength(t: string): (k: Option<nat>)
    ensures k.Some? ==> StartsWith(t, OPEN) && 7 + k.value + 8 <= |t|
  {
    if StartsWith(t, OPEN) && IndexOf(t[7..], CLOSE) < |t| - 7 then Some(IndexOf(t[7..], CLOSE)) else None
  }

  function ClippedName(name: string): string {
    if |name| <= NAME_CLIP then name else name[..NAME_CLIP]
  }

  /** Value of the first variable of that name; nothing for a missing value or an unknown name. */
  function Lookup(vars: seq<string>, values: seq<Option<string>>, name: string): string
    requires |vars| == |values|
  {
    if vars == [] then ""
    else if vars[0] == name then (if values[0].Some? then values[0].value else "")
    else Lookup(vars[1..], values[1..], name)
  }

  /** The first variable of that name decides, and a name that is no variable gives nothing. */
  lemma {:induction false} LookupMeans(vars: seq<string>, values: seq<Option<string>>, name: string, i: nat)
    requires |vars| == |values|
    requires i <= |vars| && (forall k :: 0 <= k < i ==> vars[k] != name) && (i < |vars| ==> vars[i] == name)
    ensures Lookup(vars, values, name) == if i < |vars| && values[i].Some? then values[i].value else ""
    decreases i
  {
    if i > 0 {
      LookupMeans(vars[1..], values[1..], name, i - 1);
    }
  }

  function Substitute(t: string, vars: seq<string>, values: seq<Option<string>>): string
    requires |vars| == |values|
    decreases |t|
  {
    if t == "" then ""
    else
      var k := NameLength(t);
      if k.Some? then
        Lookup(vars, values, ClippedName(t[7..7 + k.value])) + Substitute(t[7 + k.value + 8..], vars, values)
      else
        [t[0]] + Substitute(t[1..], vars, values)
  }

  function Rendered(template: Option<string>, vars: seq<string>, values: seq<Option<string>>): string
    requires |vars| == |values|
  {
    if template.None? then "" else if vars == [] then template.value else Substitute(template.value, vars, values)
  }

  // ---------------------------------------------------------------- the two passes

  method FindValue(vars: seq<string>, values: seq<Option<string>>, name: string) returns (replacement: string)
    requires |vars| == |values|
    ensures replacement == Lookup(vars, values, name)
  {
    replacement := "";
    var i := 0;
    assert vars[0..] == vars && values[0..] == values;
    while i < |vars|
      invariant 0 <= i <= |vars| && replacement == ""
      invariant Lookup(vars, values, name) == Lookup(vars[i..], values[i..], name)
    {
      if vars[i] == name {
        replacement := if values[i].Some? then values[i].value else "";
        break;
      }
      assert vars[i..][1..] == vars[i + 1..] && values[i..][1..] == values[i + 1..];
      i := i + 1;
    }
  }

  /** One step at position at: a character as it is, or the value of a placeholder. */
  lemma CharacterAt(t: string, at: nat, vars: seq<string>, values: seq<Option<string>>)
    requires at < |t| && |vars| == |values| && NameLength(t[at..]).None?
    ensures Substitute(t[at..], vars, values) == [t[at]] + Substitute(t[at + 1..], vars, values)
  {
    hide NameLength, Lookup, ClippedName, StartsWith, Substitute;
    FirstStep(t[at..], vars, values);
    TailOfTail(t, at, 1);
  }

  lemma VariableAt(t: string, at: nat, k: nat, vars: seq<string>, values: seq<Option<string>>)
    requires at <= |t| && |vars| == |values| && NameLength(t[at..]) == Some(k)
    ensures at + 7 + k + 8 <= |t|
    ensures Substitute(t[at..], vars, values)
         == Lookup(vars, values, ClippedName(t[at + 7..at + 7 + k])) + Substitute(t[at + 7 + k + 8..], vars, values)
  {
    hide NameLength, Lookup, ClippedName, StartsWith, Substitute;
    FirstStep(t[at..], vars, values);
    PlaceholderAt(t, at, k);
  }

  /** The parts of a placeholder, counted from the front. */
  lemma PlaceholderAt(t: string, at: nat, k: nat)
    requires at + 7 + k + 8 <= |t|
    ensures t[at..][7..7 + k] == t[at + 7..at + 7 + k] && t[at..][7 + k + 8..] == t[at + 7 + k + 8..]
  {
    SliceOfTail(t, at, 7, 7 + k);
    TailOfTail(t, at, 7 + k + 8);
  }

  lemma SliceOfTail(t: string, at: nat, i: nat, j: nat)
    requires at + j <= |t| && i <= j
    ensures t[at..][i..j] == t[at + i..at + j]
  {}

  lemma TailOfTail(t: string, at: nat, i: nat)
    requires at + i <= |t|
    ensures t[at..][i..] == t[at + i..]
  {}

  lemma FirstStep(t: string, vars: seq<string>, values: seq<Option<string>>)
    requires t != "" && |vars| == |values|
    ensures var k := NameLength(t);
            Substitute(t, vars, values)
            == if k.None? then [t[0]] + Substitute(t[1..], vars, values)
               else
                 Lookup(vars, values, ClippedName(t[7..7 + k.value])) + Substitute(t[7 + k.value + 8..], vars, values)
  {
    hide NameLength, Lookup, ClippedName, StartsWith;
  }

  /** First pass: the exact length of the result. */
  method TotalLength(template: string, vars: seq<string>, values: seq<Option<string>>) returns (total: nat)
    requires |vars| == |values|
    ensures total == |Substitute(template, vars, values)|
  {
    hide Substitute, Lookup, NameLength, ClippedName;
    total := 0;
    var scan := 0;
    assert template[0..] == template;
    while scan < |template|
      invariant 0 <= scan <= |template|
      invariant total + |Substitute(template[scan..], vars, values)| == |Substitute(template, vars, values)|
    {
      var name := NameLength(template[scan..]);
      if name.Some? {
        VariableAt(template, scan, name.value, vars, values);
        var varEnd := scan + 7 + name.value;
        var replacement := FindValue(vars, values, ClippedName(template[scan + 7..varEnd]));
        total := total + |replacement|;
        scan := varEnd + 8;
      } else {
        CharacterAt(template, scan, vars, values);
        total := total + 1;
        scan := scan + 1;
      }
    }
    assert template[|template|..] == "";
    NothingLeft(vars, values);
  }

  lemma NothingLeft(vars: seq<string>, values: seq<Option<string>>)
    requires |vars| == |values|
    ensures Substitute("", vars, values) == ""
  {}

  /** memcpy into the result. */
  method CopyInto(result: array<char>, ptr: nat, text: string, n: nat)
    requires n <= |text| && ptr + n <= result.Length
    modifies result
    ensures result[..ptr + n] == old(result[..ptr]) + text[..n]
  {
    for i := 0 to n
      invariant result[..ptr + i] == old(result[..ptr]) + text[..i]
    {
      result[ptr + i] := text[i];
    }
  }

  /** Second pass, with both of its guards against running out of room; clamped tells whether one of them acted. */
  method Fill(template: string, vars: seq<string>, values: seq<Option<string>>, total: nat, result: array<char>)
    returns (ghost clamped: bool)
    requires |vars| == |values| && result.Length == total + 1
    requires total == |Substitute(template, vars, values)|
    modifies result
    ensures result[..total] == Substitute(template, vars, values) && result[total] == '\0'
    ensures !clamped
  {
    hide Substitute, Lookup, NameLength, ClippedName;
    clamped := false;
    ghost var whole := Substitute(template, vars, values);
    var ptr: int, src: int, remaining: int := 0, 0, total;
    assert template[0..] == template;
    while src < |template|
      invariant 0 <= src <= |template| && 0 <= ptr && ptr + remaining == total && !clamped
      invariant remaining == |Substitute(template[src..], vars, values)|
      invariant result[..ptr] + Substitute(template[src..], vars, values) == whole
    {
      var name := NameLength(template[src..]);
      if name.Some? {
        VariableAt(template, src, name.value, vars, values);
        var varEnd := src + 7 + name.value;
        var replacement := FindValue(vars, values, ClippedName(template[src + 7..varEnd]));
        var repLen: int := |replacement|;
        if repLen > remaining {
          repLen := remaining;
          clamped := true;
        }
        assert replacement[..repLen] == replacement;
        if repLen > 0 {
          CopyInto(result, ptr, replacement, repLen);
          ptr := ptr + repLen;
          remaining := remaining - repLen;
        }
        src := varEnd + 8;
      } else {
        CharacterAt(template, src, vars, values);
        if remaining == 0 {
          clamped := true;
          break;
        }
        result[ptr] := template[src];
        ptr, src, remaining := ptr + 1, src + 1, remaining - 1;
      }
    }
    NothingLeft(vars, values);
    assert template[|template|..] == "";
    assert result[..ptr] == whole;
    result[ptr] := '\0';
  }

  method SubstituteVariables(template: Option<string>, vars: seq<string>, values: seq<Option<string>>)
    returns (result: array<char>)
    requires |vars| == |values|
    ensures fresh(result) && result.Length == |Rendered(template, vars, values)| + 1
    ensures result[..] == Rendered(template, vars, values) + "\0"
  {
    hide Substitute;
    if template.None? {
      result := new char[1](_ => '\0');
      return;
    }
    if |vars| == 0 {
      result := new char[|template.value| + 1](_ => '\0');
      CopyInto(result, 0, template.value, |template.value|);
      result[|template.value|] := '\0';
      return;
    }
    var total := TotalLength(template.value, vars, values);
    result := new char[total + 1](_ => '\0');
    ghost var clamped := Fill(template.value, vars, values, total, result);
  }

  // ---------------------------------------------------------------- templates as pieces

  /** What a template is made of: characters that stay, and placeholders. */
  datatype Piece = Literal(c: char) | Variable(name: string)

  function Source(pieces: seq<Piece>): string {
    if pieces == [] then ""
    else
      match pieces[0]
      case Literal(c) => [c] + Source(pieces[1..])
      case Variable(name) => OPEN + name + CLOSE + Source(pieces[1..])
  }

  /** Every placeholder replaced by its value; the values themselves are never looked at again. */
  function Meaning(pieces: seq<Piece>, vars: seq<string>, values: seq<Option<string>>): string
    requires |vars| == |values|
  {
    if pieces == [] then ""
    else
      match pieces[0]
      case Literal(c) => [c] + Meaning(pieces[1..], vars, values)
      case Variable(name) => Lookup(vars, values, ClippedName(name)) + Meaning(pieces[1..], vars, values)
  }

  function Parse(t: string): seq<Piece>
    decreases |t|
  {
    if t == "" then []
    else
      var k := NameLength(t);
      if k.Some? then [Variable(t[7..7 + k.value])] + Parse(t[7 + k.value + 8..]) else [Literal(t[0])] + Parse(t[1..])
  }

  /** Splitting into pieces loses nothing. */
  lemma {:induction false} SourceOfParse(t: string)
    ensures Source(Parse(t)) == t
    decreases |t|
  {
    hide NameLength, StartsWith;
    if t != "" {
      var k := NameLength(t);
      if k.Some? {
        PlaceholderText(t);
        SourceOfParse(t[7 + k.value + 8..]);
      } else {
        SourceOfParse(t[1..]);
      }
    }
  }

  lemma PlaceholderText(t: string)
    requires NameLength(t).Some?
    ensures var k := NameLength(t).value;
            t == OPEN + t[7..7 + k] + CLOSE + t[7 + k + 8..]
  {
    var k := NameLength(t).value;
    assert t[7..][k..][..8] == CLOSE;
    assert t[7 + k..7 + k + 8] == CLOSE && t[..7] == OPEN;
  }

  lemma {:induction false} SubstituteIsMeaning(t: string, vars: seq<string>, values: seq<Option<string>>)
    requires |vars| == |values|
    ensures Substitute(t, vars, values) == Meaning(Parse(t), vars, values)
    decreases |t|
  {
    hide NameLength, Lookup, ClippedName, StartsWith;
    if t != "" {
      var k := NameLength(t);
      if k.Some? {
        SubstituteIsMeaning(t[7 + k.value + 8..], vars, values);
      } else {
        SubstituteIsMeaning(t[1..], vars, values);
      }
    }
  }

  /** The author's intent is unambiguous: literal text has no two braces in a row, and names have no '<'. */
  predicate Plain(pieces: seq<Piece>) {
    pieces == [] || (PlainFirst(pieces[0], pieces[1..]) && Plain(pieces[1..]))
  }

  predicate PlainFirst(piece: Piece, rest: seq<Piece>) {
    match piece
    case Literal(c) => c == '{' && rest != [] ==> rest[0].Literal? && rest[0].c != '{'
    case Variable(name) => '<' !in name
  }

  lemma {:induction false} CloseAfterName(name: string, rest: string)
    requires '<' !in name
    ensures IndexOf(name + CLOSE + rest, CLOSE) == |name|
    decreases |name|
  {
    var s := name + CLOSE + rest;
    if name == "" {
      assert s[..8] == CLOSE;
    } else {
      assert s[..8][0] == name[0] != CLOSE[0];
      CloseAfterName(name[1..], rest);
      assert s[1..] == name[1..] + CLOSE + rest;
    }
  }

  lemma VariableIsFound(name: string, rest: string)
    requires '<' !in name
    ensures var t := OPEN + name + CLOSE + rest;
            NameLength(t) == Some(|name|) && t[7..7 + |name|] == name && t[7 + |name| + 8..] == rest
  {
    var t := OPEN + name + CLOSE + rest;
    assert t[..7] == OPEN && t[7..] == name + CLOSE + rest;
    CloseAfterName(name, rest);
  }

  lemma SourceStart(pieces: seq<Piece>)
    requires pieces != []
    ensures Source(pieces) != ""
    ensures pieces[0].Literal? ==> Source(pieces)[0] == pieces[0].c
  {}

  /** A template written from plain pieces is read back as those pieces. */
  lemma {:induction false} ParseOfSource(pieces: seq<Piece>)
    requires Plain(pieces)
    ensures Parse(Source(pieces)) == pieces
    decreases |pieces|
  {
    if pieces != [] {
      hide Parse;
      ParseOfSource(pieces[1..]);
      var rest := Source(pieces[1..]);
      match pieces[0]
      case Literal(c) => LiteralFirst(c, pieces[1..]);
      case Variable(name) => VariableFirst(name, rest);
    }
  }

  lemma LiteralFirst(c: char, later: seq<Piece>)
    requires PlainFirst(Literal(c), later)
    ensures Parse([c] + Source(later)) == [Literal(c)] + Parse(Source(later))
  {
    hide Source, IndexOf;
    var rest := Source(later);
    var t := [c] + rest;
    assert t[1..] == rest;
    if later != [] {
      SourceStart(later);
    }
    assert |t| >= 7 ==> t[..7][0] == c && t[..7][1] == rest[0];
    EmptySource(later);
    assert NameLength(t).None?;
  }

  lemma EmptySource(pieces: seq<Piece>)
    ensures pieces == [] ==> Source(pieces) == ""
  {}

  lemma VariableFirst(name: string, rest: string)
    requires '<' !in name
    ensures Parse(OPEN + name + CLOSE + rest) == [Variable(name)] + Parse(rest)
  {
    hide NameLength;
    VariableIsFound(name, rest);
  }

  /** So it renders to what they mean. */
  lemma PlainTemplateRenders(pieces: seq<Piece>, vars: seq<string>, values: seq<Option<string>>)
    requires Plain(pieces) && |vars| == |values| > 0
    ensures Rendered(Some(Source(pieces)), vars, values) == Meaning(pieces, vars, values)
  {
    ParseOfSource(pieces);
    SubstituteIsMeaning(Source(pieces), vars, values);
  }
}
