/** The list of streams of a connection as a map from stream ids. */
module StreamList {
  import opened H2State

  ghost predicate DistinctIds(streams: seq<Stream>) {
    forall i, j :: 0 <= i < j < |streams| ==> streams[i].id != streams[j].id
  }

  lemma {:induction false} NewStreamFound(streams: seq<Stream>, id: nat)
    requires !HasStream(streams, id)
    ensures FindOrNew(streams, id) == NewStream(id)
  {
    if streams != [] {
      assert streams[0].id != id;
      NewStreamFound(streams[1..], id);
    }
  }

  lemma {:induction false} FoundAfterReplacing(streams: seq<Stream>, s: Stream, id: nat)
    requires HasStream(streams, s.id)
    ensures FindOrNew(Replaced(streams, s), id) == if id == s.id then s else FindOrNew(streams, id)
  {
    if streams[0].id != s.id {
      var i :| 0 <= i < |streams| && streams[i].id == s.id;
      assert streams[1..][i - 1].id == s.id;
      FoundAfterReplacing(streams[1..], s, id);
    }
  }

  /** Storing a stream changes what is found under its id and nothing else. */
  lemma FoundAfterStoring(streams: seq<Stream>, s: Stream, id: nat)
    ensures FindOrNew(WithStream(streams, s), id) == if id == s.id then s else FindOrNew(streams, id)
    ensures HasStream(WithStream(streams, s), id) <==> id == s.id || HasStream(streams, id)
  {
    if HasStream(streams, s.id) {
      FoundAfterReplacing(streams, s, id);
      var r := Replaced(streams, s);
      assert forall i :: 0 <= i < |r| ==> r[i].id == streams[i].id;
    } else {
      var r := [s] + streams;
      assert r[0] == s && r[1..] == streams;
      assert forall i :: 0 <= i < |streams| ==> r[i + 1] == streams[i];
    }
  }

  lemma {:induction false} ReplacedTwice(streams: seq<Stream>, a: Stream, b: Stream)
    requires a.id == b.id
    ensures Replaced(Replaced(streams, a), b) == Replaced(streams, b)
  {
    if streams != [] && streams[0].id != a.id {
      ReplacedTwice(streams[1..], a, b);
    }
  }

  lemma StoredTwice(streams: seq<Stream>, a: Stream, b: Stream)
    requires a.id == b.id
    ensures WithStream(WithStream(streams, a), b) == WithStream(streams, b)
  {
    FoundAfterStoring(streams, a, a.id);
    if HasStream(streams, a.id) {
      ReplacedTwice(streams, a, b);
    } else {
      assert ([a] + streams)[0] == a && ([a] + streams)[1..] == streams;
    }
  }

  /** Storing keeps the ids distinct, and never loses one. */
  lemma DistinctAfterStoring(streams: seq<Stream>, s: Stream)
    requires DistinctIds(streams)
    ensures DistinctIds(WithStream(streams, s))
  {
    if !HasStream(streams, s.id) {
      var r := [s] + streams;
      forall i, j | 0 <= i < j < |r|
        ensures r[i].id != r[j].id
      {
        assert r[j] == streams[j - 1];
        assert i > 0 ==> r[i] == streams[i - 1];
      }
    }
  }
}
