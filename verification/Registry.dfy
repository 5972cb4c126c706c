/** The extension registry: parallel arrays, kept aligned with the registry as a value. */
module Registry {
  import opened Basics
  import opened RegistryState

  /** What an extension declares; its value is written when it is registered. */
  class Extension {
    const libraryId: string
    const libraryName: Option<string>
    const required: seq<string>
    var libraryValue: int

    constructor (libraryId: string, libraryName: Option<string>, required: seq<string>)
      ensures this.libraryId == libraryId && this.libraryName == libraryName && this.required == required
    {
      this.libraryId := libraryId;
      this.libraryName := libraryName;
      this.required := required;
      libraryValue := 0;
    }

    function AsOp(): Op {
      Register(libraryId, libraryName, required)
    }
  }

  /** The first elements from index on, up to position i, have moved down by one. */
  ghost predicate ShiftedFrom<T>(now: seq<T>, was: seq<T>, index: nat, i: nat) {
    && |now| == |was| && index <= i < |was|
    && (forall k :: 0 <= k < index || i <= k < |was| ==> now[k] == was[k])
    && (forall k :: index <= k < i ==> now[k] == was[k + 1])
  }

  /** Everything behind index has moved down, and the last position is cleared. */
  ghost predicate GapClosed<T>(now: seq<T>, was: seq<T>, index: nat, end: nat, last: T) {
    && |now| == |was| && index <= end < |was| && now[end] == last
    && (forall k :: 0 <= k < index || end < k < |was| ==> now[k] == was[k])
    && (forall k :: index <= k < end ==> now[k] == was[k + 1])
  }

  ghost predicate ClearedTo<T>(now: seq<T>, was: seq<T>, i: nat, empty: T) {
    && |now| == |was| && i <= |was|
    && (forall k :: 0 <= k < i ==> now[k] == empty)
    && (forall k :: i <= k < |was| ==> now[k] == was[k])
  }

  lemma ClearedMore<T>(now: seq<T>, was: seq<T>, i: nat, empty: T)
    requires ClearedTo(now, was, i, empty) && i < |was|
    ensures |now| == |was| && now[i] == was[i] && ClearedTo(now[i := empty], was, i + 1, empty)
  {}

  lemma NoneCleared<T>(s: seq<T>, empty: T)
    ensures ClearedTo(s, s, 0, empty)
  {}

  lemma AllCleared<T>(now: seq<T>, was: seq<T>, n: nat, empty: T)
    requires ClearedTo(now, was, n, empty) && forall k :: n <= k < |was| ==> was[k] == empty
    ensures forall k :: 0 <= k < |now| ==> now[k] == empty
  {}

  method MoveDown<T>(a: array<T>, i: nat, ghost was: seq<T>, ghost index: nat)
    requires i + 1 < a.Length && ShiftedFrom(a[..], was, index, i)
    modifies a
    ensures ShiftedFrom(a[..], was, index, i + 1)
  {
    ghost var now := a[..];
    a[i] := a[i + 1];
    assert a[..] == now[i := now[i + 1]];
  }

  lemma Cleared<T>(now: seq<T>, was: seq<T>, index: nat, end: nat, last: T)
    requires ShiftedFrom(now, was, index, end)
    ensures GapClosed(now[end := last], was, index, end, last)
  {}

  /** Four of the arrays, slot by slot, against the entries; behind them the slots are empty. */
  ghost predicate Aligned(entries: seq<Entry>, ids: seq<Option<string>>, names: seq<Option<string>>,
      values: seq<int>, handles: seq<int>)
  {
    && |entries| <= |ids| == |names| == |values| == |handles|
    && (forall i :: 0 <= i < |entries| ==> ids[i] == Some(entries[i].id) && names[i] == Some(entries[i].name))
    && (forall i :: 0 <= i < |entries| ==> values[i] == entries[i].value && handles[i] == entries[i].handle)
    && (forall i :: |entries| <= i < |ids| ==> ids[i].None? && names[i].None? && handles[i] == 0)
  }

  /** The fifth array: each slot's extension has the entry's id and was given its value. */
  ghost predicate Owned(entries: seq<Entry>, registry: seq<Extension?>, extensions: set<Extension>)
    reads extensions
  {
    && |entries| <= |registry|
    && (forall i :: 0 <= i < |entries| ==> registry[i] != null && registry[i] in extensions)
    && (forall i :: 0 <= i < |entries| ==>
          registry[i].libraryId == entries[i].id && registry[i].libraryValue == entries[i].value)
    && (forall i :: |entries| <= i < |registry| ==> registry[i] == null)
    && (forall x :: x in extensions ==> exists i :: 0 <= i < |entries| && registry[i] == x)
  }

  lemma SlotHolds(entries: seq<Entry>, ids: seq<Option<string>>, names: seq<Option<string>>,
      values: seq<int>, handles: seq<int>, i: nat)
    requires Aligned(entries, ids, names, values, handles) && i < |entries|
    ensures |entries| <= |ids| == |values| == |handles|
    ensures ids[i] == Some(entries[i].id) && values[i] == entries[i].value && handles[i] == entries[i].handle
  {}

  lemma SlotsHold(entries: seq<Entry>, ids: seq<Option<string>>, names: seq<Option<string>>,
      values: seq<int>, handles: seq<int>)
    requires Aligned(entries, ids, names, values, handles)
    ensures |entries| <= |ids| == |names| == |handles|
    ensures forall i :: 0 <= i < |entries| ==> handles[i] == entries[i].handle
    ensures forall i :: |entries| <= i < |ids| ==> ids[i].None? && names[i].None? && handles[i] == 0
  {}

  lemma SlotsOwned(entries: seq<Entry>, registry: seq<Extension?>, extensions: set<Extension>)
    requires Owned(entries, registry, extensions)
    ensures forall i :: |entries| <= i < |registry| ==> registry[i] == null
  {}

  lemma NoneAligned(ids: seq<Option<string>>, names: seq<Option<string>>, values: seq<int>, handles: seq<int>)
    requires |ids| == |names| == |values| == |handles|
    requires forall i :: 0 <= i < |ids| ==> ids[i].None? && names[i].None? && handles[i] == 0
    ensures Aligned([], ids, names, values, handles)
  {}

  lemma NoneOwned(registry: seq<Extension?>)
    requires forall i :: 0 <= i < |registry| ==> registry[i] == null
    ensures Owned([], registry, {})
  {}

  lemma AppendAligned(entries: seq<Entry>, ids: seq<Option<string>>, names: seq<Option<string>>,
      values: seq<int>, handles: seq<int>, e: Entry)
    requires Aligned(entries, ids, names, values, handles) && |entries| < |ids| && e.handle == 0
    ensures var n := |entries|;
            Aligned(entries + [e], ids[n := Some(e.id)], names[n := Some(e.name)], values[n := e.value], handles)
  {}

  lemma AppendOwned(entries: seq<Entry>, registry: seq<Extension?>, extensions: set<Extension>, e: Entry,
                    ext: Extension)
    requires Owned(entries, registry, extensions) && |entries| < |registry|
    requires ext.libraryId == e.id && ext.libraryValue == e.value
    ensures Owned(entries + [e], registry[|entries| := ext], extensions + {ext})
  {
    var registry' := registry[|entries| := ext];
    forall x | x in extensions + {ext}
      ensures exists i :: 0 <= i < |entries + [e]| && registry'[i] == x
    {
      if x == ext {
        assert registry'[|entries|] == x;
      } else {
        var i :| 0 <= i < |entries| && registry[i] == x;
        assert registry'[i] == x;
      }
    }
  }

  lemma RemovalAligned(entries: seq<Entry>, index: nat,
      ids: seq<Option<string>>, names: seq<Option<string>>, values: seq<int>, handles: seq<int>,
      ids': seq<Option<string>>, names': seq<Option<string>>, values': seq<int>, handles': seq<int>)
    requires Aligned(entries, ids, names, values, handles) && index < |entries|
    requires GapClosed(ids', ids, index, |entries| - 1, None) && GapClosed(names', names, index, |entries| - 1, None)
    requires GapClosed(values', values, index, |entries| - 1, values[|entries| - 1])
    requires GapClosed(handles', handles, index, |entries| - 1, 0)
    ensures Aligned(Without(entries, index), ids', names', values', handles')
  {
    WithoutAt(entries, index);
  }

  lemma RemovalOwned(entries: seq<Entry>, index: nat, registry: seq<Extension?>, registry': seq<Extension?>,
      extensions: set<Extension>)
    requires Owned(entries, registry, extensions) && index < |entries|
    requires forall i :: 0 <= i < |entries| && i != index ==> entries[i].id != entries[index].id
    requires GapClosed(registry', registry, index, |entries| - 1, null)
    ensures Owned(Without(entries, index), registry', extensions - {registry[index]})
  {
    var removed := registry[index];
    var left := Without(entries, index);
    WithoutAt(entries, index);
    forall i | 0 <= i < |left|
      ensures registry'[i] == registry[if i < index then i else i + 1]
    {
    }
    forall x | x in extensions - {removed}
      ensures exists i :: 0 <= i < |left| && registry'[i] == x
    {
      var k :| 0 <= k < |entries| && registry[k] == x;
      var i := if k < index then k else k - 1;
      assert registry'[i] == x;
    }
  }

  lemma HandleAligned(entries: seq<Entry>, ids: seq<Option<string>>, names: seq<Option<string>>,
      values: seq<int>, handles: seq<int>, i: nat, handle: int)
    requires Aligned(entries, ids, names, values, handles) && i < |entries|
    ensures Aligned(entries[i := entries[i].(handle := handle)], ids, names, values, handles[i := handle])
  {}

  lemma HandleOwned(entries: seq<Entry>, registry: seq<Extension?>, extensions: set<Extension>, i: nat, handle: int)
    requires Owned(entries, registry, extensions) && i < |entries|
    ensures Owned(entries[i := entries[i].(handle := handle)], registry, extensions)
  {}

  class ExtensionRegistry {
    const registry: array<Extension?>
    const ids: array<Option<string>>
    const names: array<Option<string>>
    const values: array<int>
    const handles: array<int>
    var count: nat
    var nextValue: int
    /** Every library handle closed so far. */
    var closed: seq<int>
    ghost var state: State
    ghost var extensions: set<Extension>

    ghost predicate Valid()
      reads this, registry, ids, names, values, handles, extensions
    {
      && Sized() && Ok(state)
      && count == |state.entries| && nextValue == state.next && closed == state.closed
      && Aligned(state.entries, ids[..], names[..], values[..], handles[..])
      && Owned(state.entries, registry[..], extensions)
    }

    ghost predicate Sized() {
      && registry.Length == ids.Length == names.Length == values.Length == handles.Length == MAX_EXTENSIONS
      && ids != names && values != handles
    }

    constructor ()
      ensures Valid() && state == INITIAL && extensions == {}
      ensures fresh(registry) && fresh(ids) && fresh(names) && fresh(values) && fresh(handles)
    {
      registry := new Extension?[MAX_EXTENSIONS](_ => null);
      ids := new Option<string>[MAX_EXTENSIONS](_ => None);
      names := new Option<string>[MAX_EXTENSIONS](_ => None);
      values := new int[MAX_EXTENSIONS](_ => 0);
      handles := new int[MAX_EXTENSIONS](_ => 0);
      count, nextValue, closed := 0, 1, [];
      state, extensions := INITIAL, {};
    }

    // -------------------------------------------------------------- lookups

    /** The slot with this id, or count. */
    method FindIndex(id: string) returns (index: nat)
      requires Valid()
      ensures index == Find(state.entries, id)
    {
      index := 0;
      while index < count
        invariant index <= count && forall k :: 0 <= k < index ==> state.entries[k].id != id
      {
        if ids[index] == Some(id) {
          break;
        }
        index := index + 1;
      }
    }

    method GetValueById(id: string) returns (value: int)
      requires Valid()
      ensures value == ValueById(state, id)
    {
      var index := FindIndex(id);
      if index < count {
        return values[index];
      }
      return -1;
    }

    method GetIdByValue(value: int) returns (id: Option<string>)
      requires Valid()
      ensures id == IdByValue(state.entries, value)
    {
      assert state.entries[0..] == state.entries;
      for i := 0 to count
        invariant IdByValue(state.entries, value) == IdByValue(state.entries[i..], value)
      {
        assert state.entries[i..][1..] == state.entries[i + 1..];
        if values[i] == value {
          return ids[i];
        }
      }
      return None;
    }

    // -------------------------------------------------------------- register

    /** Whether every required dependency is registered. */
    method CheckDependencies(ext: Extension) returns (ok: bool)
      requires Valid()
      ensures ok == (FirstMissing(state, ext.required) == |ext.required|)
    {
      for i := 0 to |ext.required|
        invariant forall k :: 0 <= k < i ==> Registered(state, ext.required[k])
      {
        var index := FindIndex(ext.required[i]);
        if index >= count {
          return false;
        }
      }
      return true;
    }

    method GetOrAssignValue(ext: Extension) returns (value: int)
      requires Valid() && !Registered(state, ext.libraryId)
      modifies this`nextValue, values
      ensures value == old(nextValue) && nextValue == old(nextValue) + 1
      ensures values[..] == if count < MAX_EXTENSIONS then old(values[..])[count := value] else old(values[..])
    {
      var index := FindIndex(ext.libraryId);
      value := nextValue;
      nextValue := nextValue + 1;
      if count < MAX_EXTENSIONS {
        values[count] := value;
      }
    }

    method RegisterExtension(ext: Extension) returns (code: int)
      requires Valid()
      modifies this, registry, ids, names, values, handles, ext`libraryValue
      ensures Valid() && code == RegisterCode(old(state), ext.AsOp()) && state == Step(old(state), ext.AsOp())
      ensures state != old(state) ==> ext.libraryValue == old(state).next
      ensures state == old(state) ==> ext.libraryValue == old(ext.libraryValue)
    {
      hide Aligned, Owned, Ok, Registered, Find, FirstMissing;
      FoundMeans(ext.libraryId);
      var found := FindIndex(ext.libraryId);
      if found < count {
        return 0;
      }
      if count >= MAX_EXTENSIONS {
        return -1;
      }
      var complete := CheckDependencies(ext);
      if !complete {
        return -2;
      }
      NotYetIn(ext);
      StepKeeps(state, ext.AsOp());
      ghost var e := NewEntry(state, ext.AsOp());
      ghost var entries := state.entries;
      AppendAligned(entries, ids[..], names[..], values[..], handles[..], e);
      ghost var ids1, names1, values1, registry1 := ids[..], names[..], values[..], registry[..];
      var index := count;
      var nameSource := if ext.libraryName.Some? then ext.libraryName.value else ext.libraryId;
      var value := GetOrAssignValue(ext);
      FillSlot(index, ext, nameSource, value);
      count := index + 1;
      ext.libraryValue := value;
      assert values[..] == values1[index := e.value];
      AppendOwned(entries, registry1, extensions, e, ext);
      state := State(entries + [e], state.next + 1, state.closed);
      extensions := extensions + {ext};
      return 0;
    }

    method FillSlot(index: nat, ext: Extension, name: string, value: int)
      requires Sized() && index < MAX_EXTENSIONS
      modifies registry, ids, names, values
      ensures values[..] == old(values[..])[index := value] && registry[..] == old(registry[..])[index := ext]
      ensures ids[..] == old(ids[..])[index := Some(ext.libraryId)]
      ensures names[..] == old(names[..])[index := Some(name)]
    {
      values[index] := value;
      registry[index] := ext;
      ids[index] := Some(ext.libraryId);
      names[index] := Some(name);
    }

    lemma FoundMeans(id: string)
      requires Valid()
      ensures Registered(state, id) <==> Find(state.entries, id) < count
    {}

    lemma NotYetIn(ext: Extension)
      requires Valid() && Find(state.entries, ext.libraryId) == count
      ensures ext !in extensions
    {
      assert forall i :: 0 <= i < count ==> state.entries[i].id != ext.libraryId;
    }

    // -------------------------------------------------------------- unregister

    /** Closes the gap at index in all five arrays and clears the last slot. */
    method RemoveSlot(index: nat)
      requires Sized() && index < count <= MAX_EXTENSIONS
      modifies this`count, registry, ids, names, values, handles
      ensures count == old(count) - 1
      ensures GapClosed(registry[..], old(registry[..]), index, count, null)
      ensures GapClosed(ids[..], old(ids[..]), index, count, None)
      ensures GapClosed(names[..], old(names[..]), index, count, None)
      ensures GapClosed(values[..], old(values[..]), index, count, old(values[count - 1]))
      ensures GapClosed(handles[..], old(handles[..]), index, count, 0)
    {
      var i := index;
      while i < count - 1
        invariant index <= i <= count - 1 && count == old(count)
        invariant ShiftedFrom(registry[..], old(registry[..]), index, i)
        invariant ShiftedFrom(ids[..], old(ids[..]), index, i)
        invariant ShiftedFrom(names[..], old(names[..]), index, i)
        invariant ShiftedFrom(values[..], old(values[..]), index, i)
        invariant ShiftedFrom(handles[..], old(handles[..]), index, i)
      {
        hide ShiftedFrom;
        MoveDown(registry, i, old(registry[..]), index);
        MoveDown(ids, i, old(ids[..]), index);
        MoveDown(names, i, old(names[..]), index);
        MoveDown(values, i, old(values[..]), index);
        MoveDown(handles, i, old(handles[..]), index);
        i := i + 1;
      }
      hide ShiftedFrom, GapClosed;
      count := count - 1;
      Cleared(registry[..], old(registry[..]), index, count, null);
      registry[count] := null;
      Cleared(ids[..], old(ids[..]), index, count, None);
      ids[count] := None;
      Cleared(names[..], old(names[..]), index, count, None);
      names[count] := None;
      Cleared(handles[..], old(handles[..]), index, count, 0);
      handles[count] := 0;
      LastStays(values[..], old(values[..]), index, count);
    }

    lemma LastStays(now: seq<int>, was: seq<int>, index: nat, end: nat)
      requires ShiftedFrom(now, was, index, end)
      ensures GapClosed(now, was, index, end, was[end])
    {}

    method UnregisterExtension(id: string) returns (code: int)
      requires Valid()
      modifies this, registry, ids, names, values, handles
      ensures Valid() && state == Step(old(state), Unregister(id))
      ensures code == if Registered(old(state), id) then 0 else -1
    {
      hide Aligned, Owned, Registered, Find, GapClosed, Without;
      FoundMeans(id);
      var index := FindIndex(id);
      if index >= count {
        return -1;
      }
      StepKeeps(state, Unregister(id));
      hide Ok;
      SlotHolds(state.entries, ids[..], names[..], values[..], handles[..], index);
      ghost var entries := state.entries;
      ghost var ids1, names1, values1, handles1, registry1 := ids[..], names[..], values[..], handles[..], registry[..];
      OneOfEach(index);
      if handles[index] != 0 {
        closed := closed + [handles[index]];
      }
      RemoveSlot(index);
      WithoutAt(entries, index);
      RemovalAligned(entries, index, ids1, names1, values1, handles1, ids[..], names[..], values[..], handles[..]);
      RemovalOwned(entries, index, registry1, registry[..], extensions);
      state := Unregistering(state, id);
      extensions := extensions - {registry1[index]};
      return 0;
    }

    lemma OneOfEach(index: nat)
      requires Valid() && index < count
      ensures forall i :: 0 <= i < count && i != index ==> state.entries[i].id != state.entries[index].id
    {}

    // -------------------------------------------------------------- shut down

    method ForceShutdownAll() returns (total: nat)
      requires Valid()
      modifies this, registry, ids, names, values, handles
      ensures Valid() && state == Step(old(state), ShutdownAll) && total == |old(state).entries|
    {
      hide Ok, Owned, Aligned, ClearedTo, Closing;
      total := count;
      StepKeeps(state, ShutdownAll);
      ghost var entries := state.entries;
      SlotsHold(entries, ids[..], names[..], values[..], handles[..]);
      SlotsOwned(entries, registry[..], extensions);
      NoneCleared(handles[..], 0);
      NoneCleared(ids[..], None);
      NoneCleared(names[..], None);
      NoneCleared(registry[..], null);
      for i := 0 to count
        invariant closed == old(closed) + Held(entries[..i]) && count == |entries|
        invariant state == old(state) && nextValue == old(nextValue)
        invariant ClearedTo(handles[..], old(handles[..]), i, 0)
        invariant ClearedTo(ids[..], old(ids[..]), i, None) && ClearedTo(names[..], old(names[..]), i, None)
        invariant ClearedTo(registry[..], old(registry[..]), i, null)
      {
        OneMoreHeld(entries, i);
        ClearedMore(handles[..], old(handles[..]), i, 0);
        ClearedMore(ids[..], old(ids[..]), i, None);
        ClearedMore(names[..], old(names[..]), i, None);
        ClearedMore(registry[..], old(registry[..]), i, null);
        ClearSlot(i);
      }
      AllCleared(handles[..], old(handles[..]), count, 0);
      AllCleared(ids[..], old(ids[..]), count, None);
      AllCleared(names[..], old(names[..]), count, None);
      AllCleared(registry[..], old(registry[..]), count, null);
      assert entries[..count] == entries;
      state := ShuttingDown(state);
      extensions := {};
      count := 0;
      NoneAligned(ids[..], names[..], values[..], handles[..]);
      NoneOwned(registry[..]);
    }

    method ClearSlot(i: nat)
      requires Sized() && i < MAX_EXTENSIONS
      modifies this`closed, registry, ids, names, handles
      ensures closed == old(closed) + Closing(old(handles[i]))
      ensures handles[..] == old(handles[..])[i := 0] && registry[..] == old(registry[..])[i := null]
      ensures ids[..] == old(ids[..])[i := None] && names[..] == old(names[..])[i := None]
    {
      if handles[i] != 0 {
        closed := closed + [handles[i]];
      }
      handles[i] := 0;
      ids[i] := None;
      names[i] := None;
      registry[i] := null;
    }

    lemma OneMoreHeld(entries: seq<Entry>, i: nat)
      requires i < |entries|
      ensures Held(entries[..i + 1]) == Held(entries[..i]) + Closing(entries[i].handle)
    {
      assert entries[..i + 1][..i] == entries[..i];
    }

    // -------------------------------------------------------------- library handles

    method RetainHandle(id: string, handle: int)
      requires Valid()
      modifies this`closed, this`state, handles
      ensures Valid() && state == Step(old(state), Retain(id, handle))
    {
      hide Ok, Owned, Aligned, Find;
      if handle == 0 {
        return;
      }
      var index := FindIndex(id);
      StepKeeps(state, Retain(id, handle));
      if index >= count {
        closed := closed + [handle];
        state := Retaining(state, id, handle);
        return;
      }
      SlotHolds(state.entries, ids[..], names[..], values[..], handles[..], index);
      HandleAligned(state.entries, ids[..], names[..], values[..], handles[..], index, handle);
      HandleOwned(state.entries, registry[..], extensions, index, handle);
      ghost var was := handles[..];
      if handles[index] != 0 && handles[index] != handle {
        closed := closed + [handles[index]];
      }
      handles[index] := handle;
      assert handles[..] == was[index := handle];
      state := Retaining(state, id, handle);
    }
  }
}
