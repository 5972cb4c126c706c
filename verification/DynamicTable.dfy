/** The HPACK dynamic table: a window on the history of inserted entries (section 4 of RFC 7541). */
module DynamicTable {
  import opened Bits

  datatype Entry = Entry(name: seq<byte>, value: seq<byte>)

  /** Entries newest first, and the size limit. */
  datatype Table = Table(entries: seq<Entry>, max: nat)

  const MAX_NAME: nat := 127
  const MAX_VALUE: nat := 1023
  const INT_LIMIT: nat := 0x8000_0000

  /** What the fixed-size buffers of an entry can hold. */
  predicate Fits(e: Entry) {
    |e.name| <= MAX_NAME && |e.value| <= MAX_VALUE
  }

  function EntrySize(e: Entry): nat {
    32 + |e.name| + |e.value|
  }

  function Size(es: seq<Entry>): nat {
    if es == [] then 0 else Size(es[..|es| - 1]) + EntrySize(es[|es| - 1])
  }

  function Evicted(es: seq<Entry>, max: int): (r: seq<Entry>)
    ensures r <= es
  {
    if es != [] && Size(es) > max then Evicted(es[..|es| - 1], max) else es
  }

  function Inserted(es: seq<Entry>, max: nat, e: Entry): seq<Entry> {
    if EntrySize(e) > max then [] else Evicted([e] + es, max)
  }

  // ---------------------------------------------------------------- the table as a window

  lemma {:induction false} SizePrepend(e: Entry, es: seq<Entry>)
    ensures Size([e] + es) == EntrySize(e) + Size(es)
  {
    if es == [] {
      assert [e] + es == [e] && [e][..0] == [];
    } else {
      SizePrepend(e, es[..|es| - 1]);
      assert ([e] + es)[..|es|] == [e] + es[..|es| - 1];
    }
  }

  lemma {:induction false} SizeMonotone(es: seq<Entry>, n: nat)
    requires n <= |es|
    ensures 32 * n <= Size(es[..n]) <= Size(es)
    decreases |es|
  {
    if n < |es| {
      SizeMonotone(es[..|es| - 1], n);
      assert es[..|es| - 1][..n] == es[..n];
    } else {
      assert es[..n] == es;
      if n > 0 {
        SizeMonotone(es[..n - 1], n - 1);
        assert es[..n - 1][..n - 1] == es[..n - 1];
      }
    }
  }

  /** es is the longest newest-first prefix of history whose size fits. */
  ghost predicate Window(history: seq<Entry>, es: seq<Entry>, max: nat) {
    && es <= history && Size(es) <= max
    && forall n :: |es| < n <= |history| ==> Size(history[..n]) > max
  }

  lemma {:induction false} EvictedIsWindow(es: seq<Entry>, max: nat)
    ensures Window(es, Evicted(es, max), max)
  {
    if es != [] && Size(es) > max {
      var shorter := es[..|es| - 1];
      EvictedIsWindow(shorter, max);
      forall n | |Evicted(es, max)| < n <= |es|
        ensures Size(es[..n]) > max
      {
        if n < |es| {
          assert shorter[..n] == es[..n];
        } else {
          assert es[..n] == es;
        }
      }
    }
  }

  /** Every insertion keeps the window property, for oversize entries too. */
  lemma InsertedIsWindow(history: seq<Entry>, es: seq<Entry>, max: nat, e: Entry)
    requires Window(history, es, max)
    ensures Window([e] + history, Inserted(es, max, e), max)
  {
    var all := [e] + history;
    if EntrySize(e) > max {
      forall n | 0 < n <= |all|
        ensures Size(all[..n]) > max
      {
        SizePrepend(e, all[1..n]);
        assert all[..n] == [e] + all[1..n];
      }
    } else {
      EvictedIsWindow([e] + es, max);
      var r := Evicted([e] + es, max);
      assert r <= all by { assert [e] + es <= all; }
      forall n | |r| < n <= |all|
        ensures Size(all[..n]) > max
      {
        if n <= |es| + 1 {
          assert ([e] + es)[..n] == all[..n];
        } else {
          SizePrepend(e, history[..n - 1]);
          assert all[..n] == [e] + history[..n - 1];
        }
      }
    }
  }

  function InsertAll(es: seq<Entry>, max: nat, added: seq<Entry>): seq<Entry>
    decreases |added|
  {
    if added == [] then es else InsertAll(Inserted(es, max, added[0]), max, added[1..])
  }

  function Reverse<T>(s: seq<T>): seq<T> {
    if s == [] then [] else Reverse(s[1..]) + [s[0]]
  }

  lemma ReverseStep<T>(s: seq<T>, t: seq<T>)
    requires s != []
    ensures Reverse(s) + t == Reverse(s[1..]) + ([s[0]] + t)
  {}

  /** After any insertions into an empty table: exactly the newest entries that fit together. */
  lemma {:induction false} TableIsWindowOfHistory(history: seq<Entry>, es: seq<Entry>, max: nat, added: seq<Entry>)
    requires Window(history, es, max)
    ensures Window(Reverse(added) + history, InsertAll(es, max, added), max)
    decreases |added|
  {
    if added == [] {
      assert Reverse(added) + history == history;
    } else {
      var e, later := added[0], added[1..];
      InsertedIsWindow(history, es, max, e);
      TableIsWindowOfHistory([e] + history, Inserted(es, max, e), max, later);
      ReverseStep(added, history);
    }
  }

  lemma WindowUnique(history: seq<Entry>, a: seq<Entry>, b: seq<Entry>, max: nat)
    requires Window(history, a, max) && Window(history, b, max)
    ensures a == b
  {
    assert a == history[..|a|] && b == history[..|b|];
  }

  /** Section 4.4 of RFC 7541: make room first, then insert if the entry fits in an empty table. */
  function InsertedByStandard(es: seq<Entry>, max: nat, e: Entry): seq<Entry> {
    var kept := Evicted(es, max - EntrySize(e));
    if EntrySize(e) <= max then [e] + kept else kept
  }

  lemma {:induction false} EvictedPrepend(es: seq<Entry>, max: nat, e: Entry)
    requires EntrySize(e) <= max
    ensures Evicted([e] + es, max) == [e] + Evicted(es, max - EntrySize(e))
  {
    SizePrepend(e, es);
    if es == [] {
      assert [e] + es == [e];
    } else if Size(es) > max - EntrySize(e) {
      EvictedPrepend(es[..|es| - 1], max, e);
      assert ([e] + es)[..|es|] == [e] + es[..|es| - 1];
    }
  }

  lemma {:induction false} EvictedToNothing(es: seq<Entry>, max: int)
    requires max < 0
    ensures Evicted(es, max) == []
  {
    if es != [] {
      EvictedToNothing(es[..|es| - 1], max);
    }
  }

  lemma InsertMatchesStandard(es: seq<Entry>, max: nat, e: Entry)
    ensures Inserted(es, max, e) == InsertedByStandard(es, max, e)
  {
    if EntrySize(e) <= max {
      EvictedPrepend(es, max, e);
    } else {
      EvictedToNothing(es, max - EntrySize(e));
    }
  }

  // ---------------------------------------------------------------- the table in memory

  class HpackContext {
    var table: array<Entry>
    var size: int
    var max: nat
    var count: nat
    ghost var peak: nat

    ghost predicate Valid()
      reads this, table
    {
      && count <= table.Length
      && size == Size(table[..count]) <= max
      && max <= peak < INT_LIMIT
      && table.Length <= peak / 32 + 1
    }

    ghost function Contents(): Table
      reads this, table
      requires count <= table.Length
    {
      Table(table[..count], max)
    }

    constructor ()
      ensures Valid() && fresh(table) && table.Length == 0 && Contents() == Table([], 4096)
    {
      table := new Entry[0];
      size, max, count, peak := 0, 4096, 0, 4096;
    }

    /** Drops the oldest entries until the rest fits. */
    method Evict()
      requires count <= table.Length && size == Size(table[..count])
      modifies `size, `count
      ensures count <= old(count) && table[..count] == Evicted(old(table[..count]), max)
      ensures size == Size(table[..count]) <= max
    {
      while count > 0 && size > max
        invariant count <= table.Length && size == Size(table[..count])
        invariant count <= old(count)
        invariant Evicted(table[..count], max) == Evicted(old(table[..count]), max)
      {
        var last := table[count - 1];
        assert table[..count][..count - 1] == table[..count - 1];
        size := size - EntrySize(last);
        count := count - 1;
      }
      assert count == 0 ==> table[..count] == [];
    }

    /** Inserts at the front; an entry over the limit empties the table and is dropped. */
    method Insert(e: Entry)
      requires Valid() && Fits(e)
      modifies this, table
      ensures Valid() && (table == old(table) || fresh(table)) && peak == old(peak)
      ensures Contents() == Table(Inserted(old(table[..count]), max, e), old(max))
    {
      var esz := EntrySize(e);
      if esz > max {
        count, size := 0, 0;
        return;
      }
      ghost var before := table[..count];
      if count + 1 > table.Length {
        SizeMonotone(before, count);
        Grow();
      }
      PushFront(e);
      count := count + 1;
      size := size + esz;
      SizePrepend(e, before);
      Evict();
    }

    /** memmove by one place, then the new entry in front. */
    method PushFront(e: Entry)
      requires count < table.Length
      modifies table
      ensures table[..count + 1] == [e] + old(table[..count])
    {
      forall i | 1 <= i <= count {
        table[i] := table[i - 1];
      }
      table[0] := e;
    }

    /** realloc to twice the capacity, at most one more than could ever fit. */
    method Grow()
      requires count == table.Length && 32 * count <= max <= peak && table.Length <= peak / 32 + 1
      modifies `table
      ensures fresh(table) && count + 1 <= table.Length <= peak / 32 + 1
      ensures table[..count] == old(table[..count])
    {
      var newcap := if table.Length > 0 then table.Length * 2 else 16;
      var hard := max / 32 + 1;
      if newcap > hard {
        newcap := hard;
      }
      if newcap < count + 1 {
        newcap := count + 1;
      }
      var p := new Entry[newcap];
      forall i | 0 <= i < count {
        p[i] := table[i];
      }
      table := p;
    }

    method FindDynamic(index: nat) returns (found: bool, e: Entry)
      requires Valid() && index >= 62
      ensures found <==> index - 62 < |Contents().entries|
      ensures found ==> e == Contents().entries[index - 62]
    {
      var pos := index - 62;
      if pos >= count {
        return false, Entry([], []);
      }
      return true, table[pos];
    }

    /** A new limit, from the peer's SETTINGS; shrinking evicts at once. */
    method SetMaxSize(maxSize: nat)
      requires Valid() && maxSize < INT_LIMIT
      modifies this
      ensures Valid() && table == old(table)
      ensures Contents() == Table(Evicted(old(table[..count]), maxSize), maxSize)
      ensures peak == if maxSize > old(peak) || table.Length == 0 then maxSize else old(peak)
    {
      max := maxSize;
      if maxSize > peak || table.Length == 0 {
        peak := maxSize;
      }
      Evict();
    }
  }

  /** While the table grew under no larger limit, count <= capacity <= limit / 32 + 1. */
  lemma CapacityBound(ctx: HpackContext)
    requires ctx.Valid() && ctx.peak == ctx.max
    ensures ctx.count <= ctx.table.Length <= ctx.max / 32 + 1
    ensures 32 * ctx.count <= ctx.max
  {
    SizeMonotone(ctx.table[..ctx.count], ctx.count);
  }

  /**
   Any run of insertions under one limit, from an empty table: the table is the longest newest-first part of what was
   inserted that fits, its size field is right, and neither count nor capacity exceeds limit / 32 + 1.
   */
  method InsertRun(limit: nat, added: seq<Entry>) returns (ctx: HpackContext)
    requires limit < INT_LIMIT && forall i :: 0 <= i < |added| ==> Fits(added[i])
    ensures fresh(ctx) && ctx.Valid() && ctx.max == limit && ctx.size == Size(ctx.Contents().entries)
    ensures Window(Reverse(added), ctx.Contents().entries, limit)
    ensures ctx.count <= ctx.table.Length <= limit / 32 + 1 && 32 * ctx.count <= limit
  {
    ctx := new HpackContext();
    ctx.SetMaxSize(limit);
    var i := 0;
    assert added[0..] == added;
    while i < |added|
      invariant i <= |added| && fresh(ctx) && fresh(ctx.table) && ctx.Valid() && ctx.peak == ctx.max == limit
      invariant InsertAll(ctx.Contents().entries, limit, added[i..]) == InsertAll([], limit, added)
    {
      assert added[i..][1..] == added[i + 1..];
      ctx.Insert(added[i]);
      i := i + 1;
    }
    CapacityBound(ctx);
    var none: seq<Entry> := [];
    TableIsWindowOfHistory(none, none, limit, added);
    assert Reverse(added) + none == Reverse(added);
  }
}
