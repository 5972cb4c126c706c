/** The extension registry as a value, its operations, and what every run of them keeps. */
module RegistryState {
  import opened Basics

  const MAX_EXTENSIONS: nat := 64

  /** Handle 0 stands for none. */
  datatype Entry = Entry(id: string, name: string, value: int, handle: int)

  /** Registered extensions in order, the next value to assign, and the library handles closed so far. */
  datatype State = State(entries: seq<Entry>, next: int, closed: seq<int>)

  const INITIAL: State := State([], 1, [])

  // ---------------------------------------------------------------- lookups

  /** Index of the entry with this id, or the number of entries. */
  function Find(entries: seq<Entry>, id: string): (i: nat)
    ensures i <= |entries| && (i < |entries| ==> entries[i].id == id)
    ensures forall k :: 0 <= k < i ==> entries[k].id != id
  {
    if entries == [] || entries[0].id == id then 0 else 1 + Find(entries[1..], id)
  }

  predicate Registered(s: State, id: string) {
    Find(s.entries, id) < |s.entries|
  }

  function ValueById(s: State, id: string): int {
    var i := Find(s.entries, id);
    if i < |s.entries| then s.entries[i].value else -1
  }

  function IdByValue(entries: seq<Entry>, value: int): Option<string> {
    if entries == [] then None
    else if entries[0].value == value then Some(entries[0].id)
    else IdByValue(entries[1..], value)
  }

  // ---------------------------------------------------------------- operations

  datatype Op =
    | Register(id: string, name: Option<string>, required: seq<string>)
    | Unregister(target: string)
    | ShutdownAll
    | Retain(owner: string, handle: int)

  /** Index of the first required dependency that is not registered, or their number. */
  function FirstMissing(s: State, required: seq<string>): (i: nat)
    ensures i <= |required| && (i < |required| ==> !Registered(s, required[i]))
    ensures forall k :: 0 <= k < i ==> Registered(s, required[k])
  {
    if required == [] || !Registered(s, required[0]) then 0 else 1 + FirstMissing(s, required[1..])
  }

  function RegisterCode(s: State, op: Op): int
    requires op.Register?
  {
    if Registered(s, op.id) then 0
    else if |s.entries| >= MAX_EXTENSIONS then -1
    else if FirstMissing(s, op.required) < |op.required| then -2
    else 0
  }

  function NewEntry(s: State, op: Op): Entry
    requires op.Register?
  {
    Entry(op.id, if op.name.Some? then op.name.value else op.id, s.next, 0)
  }

  function Closing(handle: int): seq<int> {
    if handle == 0 then [] else [handle]
  }

  /** Every handle held, in order. */
  function Held(entries: seq<Entry>): seq<int> {
    if entries == [] then [] else Held(entries[..|entries| - 1]) + Closing(entries[|entries| - 1].handle)
  }

  function Without(entries: seq<Entry>, i: nat): seq<Entry>
    requires i < |entries|
  {
    entries[..i] + entries[i + 1..]
  }

  function Registering(s: State, op: Op): State
    requires op.Register?
  {
    if Registered(s, op.id) || RegisterCode(s, op) != 0 then s
    else State(s.entries + [NewEntry(s, op)], s.next + 1, s.closed)
  }

  function Unregistering(s: State, target: string): State {
    var i := Find(s.entries, target);
    if i == |s.entries| then s
    else State(Without(s.entries, i), s.next, s.closed + Closing(s.entries[i].handle))
  }

  function ShuttingDown(s: State): State {
    State([], s.next, s.closed + Held(s.entries))
  }

  /** A handle for an unknown extension is closed at once; otherwise it replaces, and closes, the one in the slot. */
  function Retaining(s: State, owner: string, handle: int): State {
    var i := Find(s.entries, owner);
    if handle == 0 then s
    else if i == |s.entries| then State(s.entries, s.next, s.closed + [handle])
    else
      var was := s.entries[i].handle;
      State(s.entries[i := s.entries[i].(handle := handle)], s.next,
            s.closed + if was != handle then Closing(was) else [])
  }

  function Step(s: State, op: Op): State {
    match op
    case Register(_, _, _) => Registering(s, op)
    case Unregister(target) => Unregistering(s, target)
    case ShutdownAll => ShuttingDown(s)
    case Retain(owner, handle) => Retaining(s, owner, handle)
  }

  function Run(s: State, ops: seq<Op>): State
    decreases |ops|
  {
    if ops == [] then s else Run(Step(s, ops[0]), ops[1..])
  }

  // ---------------------------------------------------------------- invariant of every run

  ghost predicate Ok(s: State) {
    && |s.entries| <= MAX_EXTENSIONS && 1 <= s.next
    && (forall i :: 0 <= i < |s.entries| ==> 0 < s.entries[i].value < s.next)
    && (forall i, j :: 0 <= i < j < |s.entries| ==>
          s.entries[i].id != s.entries[j].id && s.entries[i].value != s.entries[j].value)
  }

  lemma RegisteringKeeps(s: State, op: Op)
    requires Ok(s) && op.Register?
    ensures Ok(Registering(s, op)) && s.next <= Registering(s, op).next
  {
    hide FirstMissing;
  }

  lemma UnregisteringKeeps(s: State, target: string)
    requires Ok(s)
    ensures Ok(Unregistering(s, target))
  {
    var k := Find(s.entries, target);
    if k < |s.entries| {
      WithoutAt(s.entries, k);
    }
  }

  lemma WithoutAt(entries: seq<Entry>, k: nat)
    requires k < |entries|
    ensures |Without(entries, k)| == |entries| - 1
    ensures forall i :: 0 <= i < |entries| - 1 ==> Without(entries, k)[i] == entries[if i < k then i else i + 1]
  {}

  lemma RetainingKeeps(s: State, owner: string, handle: int)
    requires Ok(s)
    ensures Ok(Retaining(s, owner, handle))
  {}

  lemma StepKeeps(s: State, op: Op)
    requires Ok(s)
    ensures Ok(Step(s, op)) && s.next <= Step(s, op).next
  {
    hide Ok, Registering, Unregistering, Retaining;
    match op
    case Register(_, _, _) => RegisteringKeeps(s, op);
    case Unregister(target) =>
      UnregisteringKeeps(s, target);
      SameCounter(s, op);
    case ShutdownAll => EmptyIsOk(s);
    case Retain(owner, handle) =>
      RetainingKeeps(s, owner, handle);
      SameCounter(s, op);
  }

  lemma SameCounter(s: State, op: Op)
    requires !op.Register?
    ensures Step(s, op).next == s.next
  {}

  lemma EmptyIsOk(s: State)
    requires Ok(s)
    ensures Ok(ShuttingDown(s))
  {}

  /** At most 64 entries, distinct ids, distinct positive values below the counter: on every run. */
  lemma {:induction false} RunKeeps(s: State, ops: seq<Op>)
    requires Ok(s)
    ensures Ok(Run(s, ops)) && s.next <= Run(s, ops).next
    decreases |ops|
  {
    hide Ok, Step;
    if ops != [] {
      StepKeeps(s, ops[0]);
      RunKeeps(Step(s, ops[0]), ops[1..]);
    }
  }

  // ---------------------------------------------------------------- values are never reused

  /** Some entry of s has the same id, name and value. */
  ghost predicate Known(s: State, e: Entry) {
    exists i :: 0 <= i < |s.entries| && s.entries[i].(handle := 0) == e.(handle := 0)
  }

  lemma KnownAt(s: State, i: nat, e: Entry)
    requires i < |s.entries| && s.entries[i].(handle := 0) == e.(handle := 0)
    ensures Known(s, e)
  {}

  lemma StepAddsFresh(s: State, op: Op, e: Entry)
    requires Known(Step(s, op), e)
    ensures Known(s, e) || e.value == s.next
  {
    var t := Step(s, op);
    var i :| 0 <= i < |t.entries| && t.entries[i].(handle := 0) == e.(handle := 0);
    match op
    case Register(_, _, _) =>
      if i < |s.entries| {
        KnownAt(s, i, e);
      }
    case Unregister(target) =>
      var k := Find(s.entries, target);
      if k < |s.entries| {
        WithoutAt(s.entries, k);
        KnownAt(s, if i < k then i else i + 1, e);
      }
    case ShutdownAll =>
    case Retain(_, _) =>
      KnownAt(s, i, e);
  }

  lemma {:induction false} OldValuesStay(s: State, ops: seq<Op>, e: Entry)
    requires Ok(s) && Known(Run(s, ops), e) && e.value < s.next
    ensures Known(s, e)
    decreases |ops|
  {
    if ops != [] {
      hide Ok, Step, Known;
      StepKeeps(s, ops[0]);
      OldValuesStay(Step(s, ops[0]), ops[1..], e);
      StepAddsFresh(s, ops[0], e);
    }
  }

  /** A value once seen denotes the same extension at every later time of the run. */
  lemma NeverReused(earlier: seq<Op>, later: seq<Op>, e: Entry, f: Entry)
    requires var s := Run(INITIAL, earlier);
             Known(s, e) && Known(Run(s, later), f) && e.value == f.value
    ensures e.id == f.id && e.name == f.name
  {
    var s := Run(INITIAL, earlier);
    RunKeeps(INITIAL, earlier);
    OldValuesStay(s, later, f);
  }

  // ---------------------------------------------------------------- lookups invert each other

  lemma {:induction false} FirstWithValue(entries: seq<Entry>, value: int)
    ensures IdByValue(entries, value).None? <==> forall i :: 0 <= i < |entries| ==> entries[i].value != value
    ensures IdByValue(entries, value).Some? ==>
              exists i :: 0 <= i < |entries| && entries[i].value == value
                          && entries[i].id == IdByValue(entries, value).value
  {
    if entries != [] && entries[0].value != value {
      FirstWithValue(entries[1..], value);
      assert forall i :: 0 < i < |entries| ==> entries[i] == entries[1..][i - 1];
    }
  }

  lemma LookupsInvert(s: State, id: string, value: int)
    requires Ok(s)
    ensures ValueById(s, id) == value && value != -1 <==> IdByValue(s.entries, value) == Some(id)
    ensures ValueById(s, id) > 0 <==> Registered(s, id)
  {
    FirstWithValue(s.entries, value);
    var i := Find(s.entries, id);
    if IdByValue(s.entries, value) == Some(id) {
      var k :| 0 <= k < |s.entries| && s.entries[k].value == value && s.entries[k].id == id;
      assert k == i;
    }
  }

  // ---------------------------------------------------------------- effect of the operations

  /** Some entry has this id. */
  ghost predicate HasId(s: State, id: string) {
    exists i :: 0 <= i < |s.entries| && s.entries[i].id == id
  }

  lemma RegisteredIsHasId(s: State, id: string)
    ensures Registered(s, id) <==> HasId(s, id)
  {}

  /** Known ids are accepted as they are; others if there is room and all that they require is there. */
  lemma RegisterCodeMeans(s: State, op: Op)
    requires op.Register?
    ensures var known, room := HasId(s, op.id), |s.entries| < 64;
            var complete := forall id :: id in op.required ==> HasId(s, id);
            RegisterCode(s, op) == if known || (room && complete) then 0 else if !room then -1 else -2
  {
    hide Registered, HasId;
    RegisteredIsHasId(s, op.id);
    forall id
      ensures Registered(s, id) <==> HasId(s, id)
    {
      RegisteredIsHasId(s, id);
    }
    var k := FirstMissing(s, op.required);
    if k == |op.required| {
      forall id | id in op.required
        ensures HasId(s, id)
      {
        var i :| 0 <= i < |op.required| && op.required[i] == id;
      }
    } else {
      assert op.required[k] in op.required;
    }
  }

  /**
   What a new registration adds: one entry behind the others, with the given name or else the id, and no library yet.
   */
  lemma RegisterAdds(s: State, op: Op)
    requires op.Register? && !HasId(s, op.id) && RegisterCode(s, op) == 0
    ensures Step(s, op).entries
         == s.entries + [Entry(op.id, if op.name.Some? then op.name.value else op.id, s.next, 0)]
    ensures Step(s, op).next == s.next + 1 && Step(s, op).closed == s.closed
  {
    RegisteredIsHasId(s, op.id);
  }

  /** A successful registration can be found, with a value no earlier entry had; a refused one changes nothing. */
  lemma RegisterEffect(s: State, op: Op)
    requires Ok(s) && op.Register?
    ensures RegisterCode(s, op) == 0 <==> Registered(Step(s, op), op.id)
    ensures RegisterCode(s, op) != 0 ==> Step(s, op) == s
    ensures !Registered(s, op.id) && RegisterCode(s, op) == 0 ==>
              ValueById(Step(s, op), op.id) == s.next && IdByValue(s.entries, s.next).None?
    ensures forall id :: id != op.id ==> ValueById(Step(s, op), id) == ValueById(s, id)
  {
    FirstWithValue(s.entries, s.next);
    var t := Step(s, op);
    forall id
      ensures id != op.id ==> ValueById(t, id) == ValueById(s, id)
    {
      if t != s {
        FindInLonger(s.entries, NewEntry(s, op), id);
      }
    }
    if t != s {
      FindInLonger(s.entries, NewEntry(s, op), op.id);
    }
  }

  lemma FindInLonger(entries: seq<Entry>, e: Entry, id: string)
    ensures var i := Find(entries, id);
            Find(entries + [e], id) == if i < |entries| || e.id == id then i else |entries| + 1
  {
    var j := Find(entries + [e], id);
    var i := Find(entries, id);
    assert i < |entries| ==> (entries + [e])[i].id == id;
    assert j < |entries| ==> (entries + [e])[j] == entries[j];
    assert forall k :: 0 <= k < |entries| ==> (entries + [e])[k] == entries[k];
    assert (entries + [e])[|entries|] == e;
  }

  /** Unregistering removes that extension and no other. */
  lemma UnregisterEffect(s: State, target: string, id: string)
    requires Ok(s)
    ensures ValueById(Step(s, Unregister(target)), id) == if id == target then -1 else ValueById(s, id)
  {
    var k := Find(s.entries, target);
    if k < |s.entries| {
      hide Find, Ok;
      FindWithout(s, k, id);
      WithoutAt(s.entries, k);
    }
  }

  /** Where an entry is found when another one, or its own, is gone. */
  lemma FindWithout(s: State, k: nat, id: string)
    requires Ok(s) && k < |s.entries|
    ensures var i := Find(s.entries, id);
            Find(Without(s.entries, k), id)
            == if id == s.entries[k].id then |s.entries| - 1 else if i < k then i else i - 1
  {
    hide Find, Without;
    var i, t := Find(s.entries, id), Without(s.entries, k);
    WithoutAt(s.entries, k);
    if i < |s.entries| && id != s.entries[k].id {
      FoundAt(t, id, if i < k then i else i - 1);
    } else {
      NotFound(t, id);
    }
  }

  lemma FoundAt(entries: seq<Entry>, id: string, i: nat)
    requires i < |entries| && entries[i].id == id && forall k :: 0 <= k < i ==> entries[k].id != id
    ensures Find(entries, id) == i
  {}

  lemma NotFound(entries: seq<Entry>, id: string)
    requires forall k :: 0 <= k < |entries| ==> entries[k].id != id
    ensures Find(entries, id) == |entries|
  {}

  // ---------------------------------------------------------------- library handles

  /** Handles passed to Retain. */
  function Retained(ops: seq<Op>): multiset<int> {
    if ops == [] then multiset{}
    else (if ops[0].Retain? && ops[0].handle != 0 then multiset{ops[0].handle} else multiset{}) + Retained(ops[1..])
  }

  /** Handles retained once more for the slot that holds them already: their second reference is never closed. */
  function Repeated(s: State, ops: seq<Op>): multiset<int>
    decreases |ops|
  {
    if ops == [] then multiset{} else RepeatedBy(s, ops[0]) + Repeated(Step(s, ops[0]), ops[1..])
  }

  function RepeatedBy(s: State, op: Op): multiset<int> {
    if op.Retain? && op.handle != 0 && Holds(s, op.owner, op.handle) then multiset{op.handle} else multiset{}
  }

  predicate Holds(s: State, owner: string, handle: int) {
    Registered(s, owner) && s.entries[Find(s.entries, owner)].handle == handle
  }

  function Accounted(s: State): multiset<int> {
    multiset(Held(s.entries)) + multiset(s.closed)
  }

  lemma {:induction false} HeldConcat(a: seq<Entry>, b: seq<Entry>)
    ensures Held(a + b) == Held(a) + Held(b)
    decreases |b|
  {
    if b == [] {
      assert a + b == a;
    } else {
      var n := |b| - 1;
      assert (a + b)[..|a + b| - 1] == a + b[..n];
      HeldConcat(a, b[..n]);
    }
  }

  /** The handles held by all entries but one. */
  function HeldByOthers(entries: seq<Entry>, i: nat): multiset<int>
    requires i < |entries|
  {
    multiset(Held(Without(entries, i)))
  }

  lemma HeldSplit(entries: seq<Entry>, i: nat)
    requires i < |entries|
    ensures multiset(Held(entries)) == HeldByOthers(entries, i) + multiset(Closing(entries[i].handle))
  {
    hide Held, Closing;
    var front, back := entries[..i], entries[i + 1..];
    HeldConcat(front, back);
    OneHeld(front, entries[i], back);
    Rejoined(entries, i);
    MovedLast(Held(front), Closing(entries[i].handle), Held(back));
  }

  lemma Rejoined(entries: seq<Entry>, i: nat)
    requires i < |entries|
    ensures entries == entries[..i] + [entries[i]] + entries[i + 1..]
  {}

  lemma MovedLast(a: seq<int>, b: seq<int>, c: seq<int>)
    ensures multiset(a + b + c) == multiset(a + c) + multiset(b)
  {}

  lemma HeldUpdate(entries: seq<Entry>, i: nat, e: Entry)
    requires i < |entries|
    ensures multiset(Held(entries[i := e])) == HeldByOthers(entries, i) + multiset(Closing(e.handle))
  {
    hide Held, Closing;
    var changed := entries[i := e];
    HeldSplit(changed, i);
    assert Without(changed, i) == Without(entries, i);
  }

  lemma OneHeld(front: seq<Entry>, e: Entry, back: seq<Entry>)
    ensures Held(front + [e] + back) == Held(front) + Closing(e.handle) + Held(back)
  {
    HeldConcat(front + [e], back);
    HeldConcat(front, [e]);
    assert [e][..0] == [];
    assert Held([e]) == Closing(e.handle);
  }

  lemma RegisteringAccounts(s: State, op: Op)
    requires op.Register?
    ensures Accounted(Registering(s, op)) == Accounted(s)
  {
    hide RegisterCode, Registered, Held;
    var e := NewEntry(s, op);
    OneHeld(s.entries, e, []);
    assert s.entries + [e] + [] == s.entries + [e];
    NoneHeld();
  }

  lemma NoneHeld()
    ensures Held([]) == []
  {}

  lemma UnregisteringAccounts(s: State, target: string)
    ensures Accounted(Unregistering(s, target)) == Accounted(s)
  {
    hide Held, Closing, Without;
    var i := Find(s.entries, target);
    if i < |s.entries| {
      HeldSplit(s.entries, i);
    }
  }

  lemma ShuttingDownAccounts(s: State)
    ensures Accounted(ShuttingDown(s)) == Accounted(s)
  {}

  lemma RetainingAccounts(s: State, owner: string, handle: int)
    requires handle != 0 && !Holds(s, owner, handle)
    ensures Accounted(Retaining(s, owner, handle)) == Accounted(s) + multiset{handle}
  {
    hide Held, Without;
    var i := Find(s.entries, owner);
    if i < |s.entries| {
      HeldSplit(s.entries, i);
      HeldUpdate(s.entries, i, s.entries[i].(handle := handle));
    }
  }

  lemma SameHandle(s: State, owner: string, handle: int)
    requires Holds(s, owner, handle)
    ensures Retaining(s, owner, handle) == s
  {}

  lemma StepAccounts(s: State, op: Op)
    ensures Accounted(Step(s, op)) + RepeatedBy(s, op) == Accounted(s) + Retained([op])
  {
    hide Accounted, Registering, Unregistering, ShuttingDown;
    match op
    case Register(_, _, _) => RegisteringAccounts(s, op);
    case Unregister(target) => UnregisteringAccounts(s, target);
    case ShutdownAll => ShuttingDownAccounts(s);
    case Retain(owner, handle) =>
      if Holds(s, owner, handle) {
        SameHandle(s, owner, handle);
      } else if handle != 0 {
        RetainingAccounts(s, owner, handle);
      }
  }

  lemma SumUp(before: multiset<int>, next: multiset<int>, after: multiset<int>,
      r1: multiset<int>, r2: multiset<int>, t1: multiset<int>, t2: multiset<int>)
    requires next + r1 == before + t1 && after + r2 == next + t2
    ensures after + (r1 + r2) == before + (t1 + t2)
  {
    forall x
      ensures (after + (r1 + r2))[x] == (before + (t1 + t2))[x]
    {
      assert (next + r1)[x] == (before + t1)[x] && (after + r2)[x] == (next + t2)[x];
    }
  }

  /**
   * Every library handle given to the registry is held by one slot or has been closed once, apart from those given
   * again to the slot that held them.
   */
  lemma {:induction false} HandlesConserved(s: State, ops: seq<Op>)
    ensures Accounted(Run(s, ops)) + Repeated(s, ops) == Accounted(s) + Retained(ops)
    decreases |ops|
  {
    if ops != [] {
      hide Accounted, Step, RepeatedBy;
      StepAccounts(s, ops[0]);
      HandlesConserved(Step(s, ops[0]), ops[1..]);
      var next := Step(s, ops[0]);
      assert Retained([ops[0]]) + Retained(ops[1..]) == Retained(ops);
      SumUp(Accounted(s), Accounted(next), Accounted(Run(s, ops)), RepeatedBy(s, ops[0]), Repeated(next, ops[1..]),
            Retained([ops[0]]), Retained(ops[1..]));
    }
  }
}
