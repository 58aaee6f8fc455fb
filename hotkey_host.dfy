/** HotkeyHost: the registry of global hotkeys of one window.  It keeps an
    id-to-hotkey table (here the entries in enumeration order), draws ids from
    a counter shared by every host, binds enabled hotkeys with the operating
    system, follows property changes of the hotkeys it holds and turns
    WM_HOTKEY messages into press events.

    The operating system is abstracted: the set of ids currently bound on the
    window is the ghost field `live`, and the last-error code that
    RegisterHotKey / UnregisterHotKey leave for an id is an oracle. */
module HotkeyHosts {
  import opened Wrappers
  import opened Hotkeys

  /** WM_HOTKEY. */
  const WmHotKey: int := 786

  /** ERROR_HOTKEY_ALREADY_REGISTERED. */
  const ErrorHotkeyAlreadyRegistered: int := 1409

  /** The exceptions the host throws. */
  datatype HostError =
    | ArgumentNull                 // ArgumentNullException
    | AlreadyRegistered            // HotkeyAlreadyRegisteredException
    | Win32(code: int)             // Win32Exception
    | InvalidHandle                // InvalidOperationException("Handle is invalid")
    | HostNullReference            // NullReferenceException

  /** The last-error code each OS call leaves, by hotkey id. */
  datatype Os = Os(registerError: int -> int, unregisterError: int -> int)

  /** The error mapping of the private RegisterHotKey: no window handle is an
      invalid operation, error 1409 is "already registered", any other
      non-zero code is a Win32 error. */
  function RegisterFailure(handleValid: bool, error: int): (r: Option<HostError>)
    ensures r == None <==> handleValid && error == 0
    ensures r == Some(AlreadyRegistered) <==> handleValid && error == ErrorHotkeyAlreadyRegistered
    ensures r == Some(InvalidHandle) <==> !handleValid
    ensures handleValid && error != 0 && error != ErrorHotkeyAlreadyRegistered ==> r == Some(Win32(error))
  {
    if !handleValid then Some(InvalidHandle)
    else if error == 0 then None
    else if error == ErrorHotkeyAlreadyRegistered then Some(AlreadyRegistered)
    else Some(Win32(error))
  }

  /** The error mapping of the private UnregisterHotKey: without a window
      handle nothing is called and nothing fails. */
  function UnregisterFailure(handleValid: bool, error: int): (r: Option<HostError>)
    ensures r == None <==> !handleValid || error == 0
    ensures r != None ==> r == Some(Win32(error))
  {
    if handleValid && error != 0 then Some(Win32(error)) else None
  }

  /** SerialCounter: Next pre-increments. */
  class SerialCounter {
    var current: int

    constructor (start: int)
      ensures current == start
    {
      current := start;
    }

    method Next() returns (id: int)
      modifies this
      ensures current == old(current) + 1 && id == current
    {
      current := current + 1;
      id := current;
    }
  }

  /** One table entry: an id and the hotkey it was issued for. */
  datatype Entry = Entry(id: int, hotkey: Hotkey)

  /** A press delivered by WndProc: first the hotkey's own event, then the
      host's. */
  datatype PressEvent = HotkeyPressed(hotkey: Hotkey) | HostPressed(hotkey: Hotkey)

  function HotkeySet(entries: seq<Entry>): set<Hotkey>
  {
    set e | e in entries :: e.hotkey
  }

  /** What the host can observe of one entry at a given moment: its id and
      the current state of its hotkey. */
  datatype Slot = Slot(id: int, state: HotkeyState)

  /** The table as seen now: one slot per entry, in order. */
  function Snapshot(entries: seq<Entry>): (s: seq<Slot>)
    reads HotkeySet(entries)
    ensures |s| == |entries|
    ensures forall i :: 0 <= i < |entries| ==> s[i] == Slot(entries[i].id, entries[i].hotkey.State())
  {
    seq(|entries|, i requires 0 <= i < |entries| reads HotkeySet(entries) =>
      Slot(entries[i].id, entries[i].hotkey.State()))
  }

  lemma SnapshotAppend(entries: seq<Entry>, e: Entry)
    ensures Snapshot(entries + [e]) == Snapshot(entries) + [Slot(e.id, e.hotkey.State())]
  {
  }

  lemma SnapshotRemove(entries: seq<Entry>, i: nat)
    requires i < |entries|
    ensures Snapshot(entries[..i] + entries[i + 1..]) == Snapshot(entries)[..i] + Snapshot(entries)[i + 1..]
  {
  }

  /** Hotkey.Equals on states: the same key and the same modifiers. */
  predicate SameTarget(a: HotkeyState, b: HotkeyState)
  {
    a.key == b.key && a.modifiers == b.modifiers
  }

  /** The index of the first slot whose state is the same target as st, or
      -1 when there is none; the search starts at `from`. */
  function FirstSameFrom(slots: seq<Slot>, st: HotkeyState, from: nat): (i: int)
    requires from <= |slots|
    decreases |slots| - from
    ensures i == -1 || from <= i < |slots|
    ensures i >= 0 ==> SameTarget(slots[i].state, st)
    ensures forall j :: from <= j < |slots| && (i == -1 || j < i) ==> !SameTarget(slots[j].state, st)
  {
    if from == |slots| then -1
    else if SameTarget(slots[from].state, st) then from
    else FirstSameFrom(slots, st, from + 1)
  }

  /** FirstOrDefault(h => h.Value.Equals(hotkey)) over the table, as an index. */
  function FirstEqual(entries: seq<Entry>, h: Hotkey): (i: int)
    reads HotkeySet(entries), h
    ensures -1 <= i < |entries|
  {
    FirstSameFrom(Snapshot(entries), h.State(), 0)
  }

  /** FirstEqual finds the first entry whose hotkey Equals h, and -1 means
      that no entry does. */
  lemma FirstEqualFinds(entries: seq<Entry>, h: Hotkey, j: nat)
    requires j < |entries|
    ensures FirstEqual(entries, h) >= 0 ==> entries[FirstEqual(entries, h)].hotkey.Equals(h)
    ensures FirstEqual(entries, h) == -1 || j < FirstEqual(entries, h) ==> !entries[j].hotkey.Equals(h)
  {
  }

  /** The hotkey stored under an id, if any. */
  function Lookup(entries: seq<Entry>, id: int): (r: Option<Hotkey>)
    ensures r.Some? <==> exists i :: 0 <= i < |entries| && entries[i].id == id
    ensures r.Some? ==> exists i :: 0 <= i < |entries| && entries[i] == Entry(id, r.value)
  {
    if entries == [] then None
    else if entries[0].id == id then Some(entries[0].hotkey)
    else
      var r := Lookup(entries[1..], id);
      assert r.Some? ==> exists i :: 0 <= i < |entries| && entries[i] == Entry(id, r.value) by {
        if r.Some? {
          var i :| 0 <= i < |entries[1..]| && entries[1..][i] == Entry(id, r.value);
          assert entries[i + 1] == Entry(id, r.value);
        }
      }
      r
  }

  predicate IncreasingIds(entries: seq<Entry>)
  {
    forall i, j :: 0 <= i < j < |entries| ==> entries[i].id < entries[j].id
  }

  /** Every id is at most `bound`. */
  predicate IdsAtMost(entries: seq<Entry>, bound: int)
  {
    forall i :: 0 <= i < |entries| ==> entries[i].id <= bound
  }

  lemma IdsAppend(entries: seq<Entry>, bound: int, e: Entry)
    requires IncreasingIds(entries) && IdsAtMost(entries, bound) && e.id == bound + 1
    ensures IncreasingIds(entries + [e]) && IdsAtMost(entries + [e], e.id)
  {
    var s := entries + [e];
    forall i, j | 0 <= i < j < |s| ensures s[i].id < s[j].id {
      assert s[i] == entries[i];
    }
  }

  lemma IdsRemove(entries: seq<Entry>, bound: int, i: nat)
    requires i < |entries| && IncreasingIds(entries) && IdsAtMost(entries, bound)
    ensures IncreasingIds(entries[..i] + entries[i + 1..]) && IdsAtMost(entries[..i] + entries[i + 1..], bound)
  {
    var rest := entries[..i] + entries[i + 1..];
    forall a, b | 0 <= a < b < |rest| ensures rest[a].id < rest[b].id {
      var a' := if a < i then a else a + 1;
      var b' := if b < i then b else b + 1;
      assert rest[a] == entries[a'] && rest[b] == entries[b'];
    }
    forall a | 0 <= a < |rest| ensures rest[a].id <= bound {
      assert rest[a] == entries[if a < i then a else a + 1];
    }
  }

  /** No two slots are the same registration target. */
  predicate NoTwoSame(slots: seq<Slot>)
  {
    forall i, j :: 0 <= i < j < |slots| ==> !SameTarget(slots[i].state, slots[j].state)
  }

  /** The ids of the slots whose hotkey is enabled. */
  function EnabledIds(slots: seq<Slot>): set<int>
  {
    set s | s in slots && s.state.enabled :: s.id
  }

  /** Appending a slot that is the same target as none of the table keeps
      the table consistent with a live set that gains the id iff the slot is
      enabled. */
  lemma ConsistentAppend(slots: seq<Slot>, live: set<int>, e: Slot)
    requires NoTwoSame(slots) && live == EnabledIds(slots)
    requires FirstSameFrom(slots, e.state, 0) == -1
    ensures NoTwoSame(slots + [e])
    ensures EnabledIds(slots + [e]) == live + (if e.state.enabled then {e.id} else {})
  {
    assert forall x :: x in slots + [e] <==> x in slots || x == e;
    var s := slots + [e];
    forall i, j | 0 <= i < j < |s| ensures !SameTarget(s[i].state, s[j].state) {
      if j == |slots| {
        assert !SameTarget(slots[i].state, e.state);
      } else {
        assert s[i] == slots[i] && s[j] == slots[j];
      }
    }
  }

  /** Removing slot i, whose id no other slot carries, keeps the table
      consistent with a live set that loses that id. */
  lemma ConsistentRemove(slots: seq<Slot>, live: set<int>, i: nat)
    requires i < |slots| && NoTwoSame(slots) && live == EnabledIds(slots)
    requires forall j :: 0 <= j < |slots| && j != i ==> slots[j].id != slots[i].id
    ensures NoTwoSame(slots[..i] + slots[i + 1..])
    ensures EnabledIds(slots[..i] + slots[i + 1..]) == live - (if slots[i].state.enabled then {slots[i].id} else {})
  {
    var rest := slots[..i] + slots[i + 1..];
    forall a, b | 0 <= a < b < |rest| ensures !SameTarget(rest[a].state, rest[b].state) {
      var a' := if a < i then a else a + 1;
      var b' := if b < i then b else b + 1;
      assert rest[a] == slots[a'] && rest[b] == slots[b'];
    }
    forall x | x in rest ensures x in slots && x.id != slots[i].id {
      var k :| 0 <= k < |rest| && rest[k] == x;
      if k < i { assert rest[k] == slots[k]; } else { assert rest[k] == slots[k + 1]; }
    }
    forall x | x in slots && x.id != slots[i].id ensures x in rest {
      var k :| 0 <= k < |slots| && slots[k] == x;
      if k < i { assert rest[k] == x; } else { assert k > i; assert rest[k - 1] == x; }
    }
  }

  /** Removing entry i of a consistent table with increasing ids leaves a
      consistent table whose live set has lost that entry's id if it was
      enabled. */
  lemma RemoveKeepsConsistent(entries: seq<Entry>, live: set<int>, i: nat)
    requires i < |entries| && IncreasingIds(entries)
    requires NoTwoSame(Snapshot(entries)) && live == EnabledIds(Snapshot(entries))
    ensures NoTwoSame(Snapshot(entries[..i] + entries[i + 1..]))
    ensures EnabledIds(Snapshot(entries[..i] + entries[i + 1..]))
      == live - (if entries[i].hotkey.enabled then {entries[i].id} else {})
  {
    SnapshotRemove(entries, i);
    ConsistentRemove(Snapshot(entries), live, i);
  }

  class HotkeyHost {
    /** The id counter, shared by all hosts (a static field in the source). */
    const idGen: SerialCounter
    /** Whether the window handle is non-zero. */
    const handleValid: bool
    /** _hotKeys, in enumeration order. */
    var entries: seq<Entry>
    var disposed: bool
    /** Whether WndProc is hooked into the window's message loop. */
    var hooked: bool
    /** The ids bound with the operating system on this window. */
    ghost var live: set<int>

    ghost predicate Valid()
      reads this, idGen
    {
      && IncreasingIds(entries)
      && IdsAtMost(entries, idGen.current)
      && (!handleValid ==> live == {})
    }

    /** The registry agrees with the operating system: no two entries are
        the same target and exactly the enabled entries are bound. */
    ghost predicate Consistent()
      reads this, HotkeySet(entries)
    {
      var slots := Snapshot(entries);
      NoTwoSame(slots) && live == EnabledIds(slots)
    }

    /** HotkeyHost(hwndSource): hooks WndProc, starts empty. */
    constructor (counter: SerialCounter, handleValid: bool)
      ensures Valid() && Consistent()
      ensures idGen == counter && this.handleValid == handleValid
      ensures entries == [] && !disposed && hooked && live == {}
    {
      idGen := counter;
      this.handleValid := handleValid;
      entries := [];
      disposed := false;
      hooked := true;
      live := {};
    }

    /** The public HotKeys property. */
    function HotKeys(): (hs: seq<Hotkey>)
      reads this
      ensures |hs| == |entries| && forall i :: 0 <= i < |entries| ==> hs[i] == entries[i].hotkey
    {
      seq(|entries|, i requires 0 <= i < |entries| reads this => entries[i].hotkey)
    }

    /** The private RegisterHotKey(id, hotkey). */
    method Bind(id: int, os: Os) returns (failure: Option<HostError>)
      modifies this`live
      ensures failure == RegisterFailure(handleValid, os.registerError(id))
      ensures live == if failure == None then old(live) + {id} else old(live)
    {
      failure := RegisterFailure(handleValid, os.registerError(id));
      if failure == None {
        live := live + {id};
      }
    }

    /** The private UnregisterHotKey(id). */
    method Unbind(id: int, os: Os) returns (failure: Option<HostError>)
      modifies this`live
      ensures failure == UnregisterFailure(handleValid, os.unregisterError(id))
      ensures live == if failure == None && handleValid then old(live) - {id} else old(live)
    {
      failure := UnregisterFailure(handleValid, os.unregisterError(id));
      if failure == None && handleValid {
        live := live - {id};
      }
    }

    /** AddHotKey.  Null or Key.None is an ArgumentNullException and a
        hotkey equal to one in the table is "already registered"; both leave
        everything unchanged.  Otherwise the hotkey is admitted under a fresh
        id. */
    method AddHotKey(hotkey: Hotkey?, os: Os) returns (failure: Option<HostError>)
      requires Valid()
      modifies this, idGen
      ensures Valid()
      ensures disposed == old(disposed) && hooked == old(hooked)
      ensures hotkey == null || hotkey.key == KeyNone ==>
        failure == Some(ArgumentNull) && entries == old(entries) && live == old(live)
        && idGen.current == old(idGen.current)
      ensures hotkey != null && hotkey.key != KeyNone && old(FirstEqual(entries, hotkey)) >= 0 ==>
        failure == Some(AlreadyRegistered) && entries == old(entries) && live == old(live)
        && idGen.current == old(idGen.current)
      ensures hotkey != null && hotkey.key != KeyNone && old(FirstEqual(entries, hotkey)) == -1 ==>
        var id := old(idGen.current) + 1;
        && idGen.current == id
        && failure == (if hotkey.enabled then RegisterFailure(handleValid, os.registerError(id)) else None)
        && (failure != None ==> entries == old(entries) && live == old(live))
        && (failure == None ==> entries == old(entries) + [Entry(id, hotkey)]
                                && live == old(live) + (if hotkey.enabled then {id} else {}))
      ensures old(Consistent()) ==> Consistent()
    {
      if hotkey == null || hotkey.key == KeyNone {
        return Some(ArgumentNull);
      }
      if FirstEqual(entries, hotkey) >= 0 {
        return Some(AlreadyRegistered);
      }
      failure := Admit(hotkey, os);
    }

    /** The rest of AddHotKey: a fresh id is drawn; an enabled hotkey is
        bound first, and if that fails the id stays consumed and nothing is
        stored; on success the entry is appended, bound or not.  The fresh
        id is above every id in the table. */
    method Admit(hotkey: Hotkey, os: Os) returns (failure: Option<HostError>)
      requires Valid() && FirstEqual(entries, hotkey) == -1
      modifies this`entries, this`live, idGen
      ensures Valid()
      ensures
        var id := old(idGen.current) + 1;
        && idGen.current == id
        && (forall i :: 0 <= i < |old(entries)| ==> old(entries)[i].id < id)
        && failure == (if hotkey.enabled then RegisterFailure(handleValid, os.registerError(id)) else None)
        && (failure != None ==> entries == old(entries) && live == old(live))
        && (failure == None ==> entries == old(entries) + [Entry(id, hotkey)]
                                && live == old(live) + (if hotkey.enabled then {id} else {}))
      ensures old(Consistent()) ==> Consistent()
    {
      ghost var e := Entry(idGen.current + 1, hotkey);
      SnapshotAppend(entries, e);
      if Consistent() {
        ConsistentAppend(Snapshot(entries), live, Slot(e.id, hotkey.State()));
      }
      IdsAppend(entries, idGen.current, e);
      var id := idGen.Next();
      failure := None;
      if hotkey.enabled {
        failure := Bind(id, os);
        if failure != None {
          assert Snapshot(entries) == old(Snapshot(entries));
          return;
        }
      }
      entries := entries + [Entry(id, hotkey)];
      assert Snapshot(entries) == old(Snapshot(entries + [e]));
    }

    /** RemoveHotKey.  The first entry equal to the argument is removed: it
        is unbound first if enabled (a failure leaves the table as it was),
        and the answer is true.  With no equal entry the answer is false and
        nothing changes.  The older Equals(Hotkey) dereferences its argument,
        so a null argument throws as soon as the table has an entry. */
    method RemoveHotKey(hotkey: Hotkey?, os: Os) returns (r: Result<bool, HostError>)
      requires Valid()
      modifies this`entries, this`live
      ensures Valid()
      ensures hotkey == null ==>
        r == (if old(entries) == [] then Ok(false) else Err(HostNullReference))
        && entries == old(entries) && live == old(live)
      ensures hotkey != null && old(FirstEqual(entries, hotkey)) == -1 ==>
        r == Ok(false) && entries == old(entries) && live == old(live)
      ensures hotkey != null && old(FirstEqual(entries, hotkey)) >= 0 ==>
        var i := old(FirstEqual(entries, hotkey));
        var e := old(entries)[i];
        var failure := if e.hotkey.enabled then UnregisterFailure(handleValid, os.unregisterError(e.id)) else None;
        && (failure != None ==> r == Err(failure.value) && entries == old(entries) && live == old(live))
        && (failure == None ==> r == Ok(true) && entries == old(entries[..i] + entries[i + 1..])
                                && live == old(live) - (if e.hotkey.enabled then {e.id} else {}))
      ensures old(Consistent()) && r.Ok? ==> Consistent()
    {
      if hotkey == null {
        if entries == [] {
          return Ok(false);
        }
        return Err(HostNullReference);
      }
      var i := FirstEqual(entries, hotkey);
      if i < 0 {
        return Ok(false);
      }
      if Consistent() {
        RemoveKeepsConsistent(entries, live, i);
      }
      IdsRemove(entries, idGen.current, i);
      var e := entries[i];
      if e.hotkey.enabled {
        var failure := Unbind(e.id, os);
        if failure != None {
          return Err(failure.value);
        }
      }
      entries := entries[..i] + entries[i + 1..];
      assert Snapshot(entries) == old(Snapshot(entries[..i] + entries[i + 1..]));
      r := Ok(true);
    }

    /** Dispose: a second call does nothing.  Otherwise the hook is removed
        and the entries are removed from the last one down, each through
        RemoveHotKey; a failed unbind stops it before the host is marked
        disposed. */
    method Dispose(os: Os) returns (failure: Option<HostError>)
      requires Valid()
      modifies this`entries, this`live, this`disposed, this`hooked
      ensures Valid()
      ensures old(disposed) ==> failure == None && entries == old(entries) && live == old(live) && disposed && hooked == old(hooked)
      ensures !old(disposed) ==> !hooked
      ensures failure == None ==> disposed
      ensures !old(disposed) && failure == None ==> entries == []
      ensures failure != None ==> !disposed
      ensures (forall id :: os.unregisterError(id) == 0) ==> failure == None
      ensures !old(disposed) && old(Consistent()) && failure == None ==> live == {}
    {
      if disposed {
        return None;
      }
      hooked := false;
      assert Snapshot(entries) == old(Snapshot(entries));
      var i := |entries| - 1;
      while i >= 0
        invariant Valid()
        invariant |entries| == i + 1
        invariant !disposed && !hooked
        invariant old(Consistent()) ==> Consistent()
      {
        var h := entries[i].hotkey;
        FirstEqualFinds(entries, h, i);
        var r := RemoveHotKey(h, os);
        if r.Err? {
          return Some(r.error);
        }
        i := i - 1;
      }
      failure := None;
      disposed := true;
    }

    /** hotKey_PropertyChanged, for one delivery of the event.  The entry is
        found by equality with the sender.  "Enabled" binds or unbinds that
        entry's id according to its flag; "Key" and "Modifiers" unbind and
        rebind the id of an enabled entry (a failed rebind after a
        successful unbind leaves the id unbound) and leave a disabled one
        alone.
        Uniqueness is not checked again. */
    method OnHotkeyPropertyChanged(sender: Hotkey, propertyName: string, os: Os) returns (failure: Option<HostError>)
      requires Valid()
      modifies this`live
      ensures Valid()
      ensures old(FirstEqual(entries, sender)) == -1 ==> failure == None && live == old(live)
      ensures old(FirstEqual(entries, sender)) >= 0 ==>
        var e := entries[old(FirstEqual(entries, sender))];
        && (propertyName == "Enabled" && e.hotkey.enabled ==>
              failure == RegisterFailure(handleValid, os.registerError(e.id))
              && live == if failure == None then old(live) + {e.id} else old(live))
        && (propertyName == "Enabled" && !e.hotkey.enabled ==>
              failure == UnregisterFailure(handleValid, os.unregisterError(e.id))
              && live == if failure == None && handleValid then old(live) - {e.id} else old(live))
        && ((propertyName == "Key" || propertyName == "Modifiers") && e.hotkey.enabled ==>
              (failure == None ==> live == old(live) + {e.id})
              && (UnregisterFailure(handleValid, os.unregisterError(e.id)) != None ==>
                    failure == UnregisterFailure(handleValid, os.unregisterError(e.id)) && live == old(live))
              && (UnregisterFailure(handleValid, os.unregisterError(e.id)) == None ==>
                    failure == RegisterFailure(handleValid, os.registerError(e.id))
                    && live == if failure == None then old(live) + {e.id}
                               else if handleValid then old(live) - {e.id} else old(live)))
        && (propertyName != "Enabled" && (!e.hotkey.enabled || (propertyName != "Key" && propertyName != "Modifiers")) ==>
              failure == None && live == old(live))
    {
      var i := FirstEqual(entries, sender);
      failure := None;
      if i < 0 {
        return;
      }
      var e := entries[i];
      if propertyName == "Enabled" {
        if e.hotkey.enabled {
          failure := Bind(e.id, os);
        } else {
          failure := Unbind(e.id, os);
        }
      } else if propertyName == "Key" || propertyName == "Modifiers" {
        if e.hotkey.enabled {
          failure := Unbind(e.id, os);
          if failure != None {
            return;
          }
          failure := Bind(e.id, os);
        }
      }
    }

    /** WndProc: for WM_HOTKEY with an id in the table, the hotkey's event
        and then the host's event are raised; every other message is
        ignored.  The result is always 0. */
    method WndProc(msg: int, wParam: int) returns (result: int, events: seq<PressEvent>)
      ensures result == 0
      ensures msg == WmHotKey && Lookup(entries, wParam).Some? ==>
        var h := Lookup(entries, wParam).value;
        events == [HotkeyPressed(h), HostPressed(h)]
          && exists i :: 0 <= i < |entries| && entries[i] == Entry(wParam, h)
      ensures msg != WmHotKey || (forall i :: 0 <= i < |entries| ==> entries[i].id != wParam) ==> events == []
    {
      events := [];
      if msg == WmHotKey {
        var found := Lookup(entries, wParam);
        if found.Some? {
          var h := found.value;
          events := [HotkeyPressed(h), HostPressed(h)];
        }
      }
      result := 0;
    }
  }
}
