/**
 What a SETTINGS payload means: pairs of an identifier and a value, of which the last for each identifier counts.
 */
module SettingsPairs {
  import opened Bits
  import opened Frames
  import opened H2State

  datatype Pair = Pair(id: nat, value: nat)

  /** Two bytes of identifier and four of value, most significant first. */
  function PairBytes(p: Pair): (s: seq<byte>)
    ensures |s| == 6
  {
    BigEndian(p.id, 2) + BigEndian(p.value, 4)
  }

  function AllBytes(pairs: seq<Pair>): seq<byte> {
    if pairs == [] then [] else PairBytes(pairs[0]) + AllBytes(pairs[1..])
  }

  ghost predicate Writable(pairs: seq<Pair>) {
    forall i :: 0 <= i < |pairs| ==> pairs[i].id < 0x1_0000 && pairs[i].value < 0x1_0000_0000
  }

  /** The last value sent for the identifier, or what there was before. */
  function LastFor(pairs: seq<Pair>, id: nat, before: nat): nat {
    if pairs == [] then before
    else if pairs[|pairs| - 1].id == id then pairs[|pairs| - 1].value
    else LastFor(pairs[..|pairs| - 1], id, before)
  }

  lemma {:induction false} LastForFirst(pairs: seq<Pair>, id: nat, before: nat)
    requires pairs != []
    ensures LastFor(pairs, id, before) == LastFor(pairs[1..], id, if pairs[0].id == id then pairs[0].value else before)
    decreases |pairs|
  {
    var n := |pairs| - 1;
    if n == 0 {
      assert pairs[..0] == [] && pairs[1..] == [];
    } else {
      assert pairs[1..][..n - 1] == pairs[..n][1..];
      LastForFirst(pairs[..n], id, before);
    }
  }

  lemma PairRead(p: Pair, rest: seq<byte>)
    requires p.id < 0x1_0000 && p.value < 0x1_0000_0000
    ensures var s := PairBytes(p) + rest;
            FromBigEndian(s[..2]) == p.id && FromBigEndian(s[2..6]) == p.value && s[6..] == rest
  {
    hide FromBigEndian, BigEndian;
    var s := PairBytes(p) + rest;
    assert s[..2] == BigEndian(p.id, 2) && s[2..6] == BigEndian(p.value, 4);
    PowersOf256();
    BigEndianRoundTrip(p.id, 2);
    BigEndianRoundTrip(p.value, 4);
  }

  lemma PowersOf256()
    ensures Pow256(2) == 0x1_0000 && Pow256(4) == 0x1_0000_0000
  {}

  /** The six settings, each by its own identifier. */
  function After(s: Settings, pairs: seq<Pair>): Settings {
    Settings(LastFor(pairs, 1, s.headerTableSize), LastFor(pairs, 2, s.enablePush), LastFor(pairs, 3, s.maxConcurrent),
             LastFor(pairs, 4, s.initialWindow), LastFor(pairs, 5, s.maxFrame), LastFor(pairs, 6, s.maxHeaderList))
  }

  /** Every list of pairs, whatever shorter tail follows: each setting is the last value sent for it. */
  lemma {:induction false} SettingsMean(s: Settings, pairs: seq<Pair>, tail: seq<byte>)
    requires Writable(pairs) && |tail| < 6
    ensures ApplySettings(s, AllBytes(pairs) + tail) == After(s, pairs)
    decreases |pairs|
  {
    hide FromBigEndian, PairBytes;
    var payload := AllBytes(pairs) + tail;
    if pairs == [] {
      assert payload == tail;
    } else {
      var p, rest := pairs[0], AllBytes(pairs[1..]) + tail;
      assert payload == PairBytes(p) + rest;
      PairRead(p, rest);
      hide LastFor;
      SettingsMean(Setting(s, p.id, p.value), pairs[1..], tail);
      AfterFirst(s, pairs);
    }
  }

  lemma AfterFirst(s: Settings, pairs: seq<Pair>)
    requires pairs != []
    ensures After(s, pairs) == After(Setting(s, pairs[0].id, pairs[0].value), pairs[1..])
  {
    hide LastFor;
    LastForFirst(pairs, 1, s.headerTableSize);
    LastForFirst(pairs, 2, s.enablePush);
    LastForFirst(pairs, 3, s.maxConcurrent);
    LastForFirst(pairs, 4, s.initialWindow);
    LastForFirst(pairs, 5, s.maxFrame);
    LastForFirst(pairs, 6, s.maxHeaderList);
  }

  // ---------------------------------------------------------------- every payload is such a list

  function PairsIn(payload: seq<byte>): seq<Pair>
    decreases |payload|
  {
    if |payload| < 6 then []
    else [Pair(FromBigEndian(payload[..2]), FromBigEndian(payload[2..6]))] + PairsIn(payload[6..])
  }

  /** Nothing of a payload is lost but a tail of fewer than six bytes. */
  lemma {:induction false} PairsBack(payload: seq<byte>) returns (tail: seq<byte>)
    ensures Writable(PairsIn(payload)) && |tail| < 6 && payload == AllBytes(PairsIn(payload)) + tail
    decreases |payload|
  {
    hide FromBigEndian, PairBytes;
    if |payload| < 6 {
      tail := payload;
      assert payload == [] + tail;
    } else {
      tail := PairsBack(payload[6..]);
      var p := Pair(FromBigEndian(payload[..2]), FromBigEndian(payload[2..6]));
      PairWritten(payload);
      assert PairsIn(payload)[1..] == PairsIn(payload[6..]);
      assert payload == payload[..6] + payload[6..];
    }
  }

  lemma PairWritten(payload: seq<byte>)
    requires |payload| >= 6
    ensures var p := Pair(FromBigEndian(payload[..2]), FromBigEndian(payload[2..6]));
            p.id < 0x1_0000 && p.value < 0x1_0000_0000 && PairBytes(p) == payload[..6]
  {
    hide FromBigEndian, BigEndian;
    PowersOf256();
    FromBigEndianBack(payload[..2]);
    FromBigEndianBack(payload[2..6]);
    assert payload[..6] == payload[..2] + payload[2..6];
  }

  lemma {:induction false} FromBigEndianBack(s: seq<byte>)
    ensures FromBigEndian(s) < Pow256(|s|) && BigEndian(FromBigEndian(s), |s|) == s
  {
    if s != [] {
      FromBigEndianBack(s[..|s| - 1]);
    }
  }

  lemma {:induction false} PairsInBytes(pairs: seq<Pair>, tail: seq<byte>)
    requires Writable(pairs) && |tail| < 6
    ensures PairsIn(AllBytes(pairs) + tail) == pairs
    decreases |pairs|
  {
    hide FromBigEndian, PairBytes;
    var payload := AllBytes(pairs) + tail;
    if pairs == [] {
      assert payload == tail;
    } else {
      assert payload == PairBytes(pairs[0]) + (AllBytes(pairs[1..]) + tail);
      PairRead(pairs[0], AllBytes(pairs[1..]) + tail);
      PairsInBytes(pairs[1..], tail);
    }
  }

  // ---------------------------------------------------------------- the encoder's table

  /** A 32-bit size cast to a signed integer; below zero it acts like zero. */
  lemma AsLimitIsCast(v: nat)
    requires v < 0x1_0000_0000
    ensures AsLimit(v) == if Int32(v) < 0 then 0 else Int32(v)
  {}

  /** The encoder's limit is the last table size sent, or the one before if none was. */
  lemma LimitFollowsPairs(c: Conn, h: FrameHeader, payload: seq<byte>)
    requires !HasFlag(h.flags, 1)
    ensures var r := OnSettings(c, h, payload);
            && r.conn.enc.max == AsLimit(LastFor(PairsIn(payload), 1, c.remote.headerTableSize))
            && r.conn.remote == After(c.remote, PairsIn(payload))
            && r.conn.enc == Limited(c.enc, r.conn.enc.max)
  {
    hide HasFlag, Frame, ApplySettings, PairsIn, LastFor, AsLimit;
    var tail := PairsBack(payload);
    SettingsMean(c.remote, PairsIn(payload), tail);
  }
}
