/** Hotkey: a global key combination (a key and a set of modifier flags)
    with an enabled flag.  Two hotkeys are the same registration target when
    their key and modifiers agree; the enabled flag plays no part.

    Both generations of the class have the same fields, constructors,
    change-guarded setters, hash, text form and serialization; they differ
    only in Equals(Hotkey): the newer one answers false for null, the older
    one dereferences its argument.  Both are modelled here. */
module Hotkeys {
  import opened Wrappers

  /** System.Windows.Input.Key; Key.None is 0 and the largest member is 172. */
  type Key = k: int | 0 <= k <= 172

  /** System.Windows.Input.ModifierKeys flags: Alt 1, Control 2, Shift 4, Windows 8. */
  type ModifierKeys = m: int | 0 <= m < 16

  const KeyNone: Key := 0
  const ModAlt: ModifierKeys := 1
  const ModControl: ModifierKeys := 2

  /** The observable state of a hotkey. */
  datatype HotkeyState = HotkeyState(key: Key, modifiers: ModifierKeys, enabled: bool)

  /** An argument of static type object: null, a Hotkey, or anything else. */
  datatype Obj = NullObj | HotkeyObj(hotkey: Hotkey) | OtherObj

  /** Exceptions the members can throw. */
  datatype Exception = NullReference | SerializationMissing(name: string) | InvalidCast(name: string)
                     | DuplicateName(name: string)

  /** A value stored in a SerializationInfo. */
  datatype SerialValue = KeyValue(k: Key) | ModifiersValue(m: ModifierKeys) | BoolValue(b: bool) | OtherValue

  type SerializationInfo = map<string, SerialValue>

  class Hotkey {
    var enabled: bool
    var key: Key
    var modifiers: ModifierKeys

    /** Hotkey(): no key, no modifiers, disabled. */
    constructor ()
      ensures State() == HotkeyState(KeyNone, 0, false)
    {
      enabled, key, modifiers := false, KeyNone, 0;
    }

    /** Hotkey(key, modifiers): enabled by default. */
    constructor Create(k: Key, m: ModifierKeys)
      ensures State() == HotkeyState(k, m, true)
    {
      enabled, key, modifiers := true, k, m;
    }

    /** Hotkey(key, modifiers, enabled). */
    constructor CreateWith(k: Key, m: ModifierKeys, e: bool)
      ensures State() == HotkeyState(k, m, e)
    {
      enabled, key, modifiers := e, k, m;
    }

    function State(): HotkeyState
      reads this
    {
      HotkeyState(key, modifiers, enabled)
    }

    /** The Enabled setter: a no-op without notification when the value is
        unchanged, otherwise it stores it and notifies "Enabled". */
    method SetEnabled(value: bool) returns (notified: seq<string>)
      modifies this
      ensures notified == if old(enabled) == value then [] else ["Enabled"]
      ensures State() == old(State()).(enabled := value)
    {
      notified := [];
      if value != enabled {
        enabled := value;
        notified := ["Enabled"];
      }
    }

    /** The Key setter, guarded like Enabled, notifying "Key". */
    method SetKey(value: Key) returns (notified: seq<string>)
      modifies this
      ensures notified == if old(key) == value then [] else ["Key"]
      ensures State() == old(State()).(key := value)
    {
      notified := [];
      if key != value {
        key := value;
        notified := ["Key"];
      }
    }

    /** The Modifiers setter, guarded like Enabled, notifying "Modifiers". */
    method SetModifiers(value: ModifierKeys) returns (notified: seq<string>)
      modifies this
      ensures notified == if old(modifiers) == value then [] else ["Modifiers"]
      ensures State() == old(State()).(modifiers := value)
    {
      notified := [];
      if modifiers != value {
        modifiers := value;
        notified := ["Modifiers"];
      }
    }

    /** Equals(Hotkey) of the newer class: false for null, otherwise key and
        modifiers must agree. */
    predicate Equals(other: Hotkey?)
      reads this, other
    {
      other != null && key == other.key && modifiers == other.modifiers
    }

    /** Equals(Hotkey) of the older class: the same comparison, but a null
        argument is dereferenced and throws. */
    function EqualsTyped(other: Hotkey?): (r: Result<bool, Exception>)
      reads this, other
      ensures r.Err? <==> other == null
      ensures r.Ok? ==> r.value == Equals(other)
    {
      if other == null then Err(NullReference)
      else Ok(key == other.key && modifiers == other.modifiers)
    }

    /** Equals(object), the same in both classes: false for null and for
        anything that is not a Hotkey, otherwise Equals(Hotkey).  It never
        throws. */
    predicate EqualsObject(obj: Obj)
      reads this, if obj.HotkeyObj? then {obj.hotkey} else {}
    {
      obj.HotkeyObj? && Equals(obj.hotkey)
    }

    /** GetHashCode: Modifiers + 10 * Key (no overflow at these ranges). */
    function GetHashCode(): (h: int)
      reads this
      ensures 0 <= h < 16 + 10 * 173
    {
      modifiers + 10 * key
    }

    /** ToString, given the enumeration names of Key and Modifiers:
        "{Key} + {Modifiers} (Enabled)" or "... (Not Enabled)". */
    function ToString(keyName: string, modifiersName: string): (s: string)
      reads this
    {
      keyName + " + " + modifiersName + " (" + (if enabled then "" else "Not ") + "Enabled)"
    }

    /** GetObjectData: adds Key, Modifiers and Enabled to the info; adding a
        name that is already present throws. */
    function GetObjectData(info: SerializationInfo): (r: Result<SerializationInfo, Exception>)
      reads this
      ensures r.Ok? <==> ("Key" !in info && "Modifiers" !in info && "Enabled" !in info)
      ensures r.Ok? ==> r.value.Keys == info.Keys + {"Key", "Modifiers", "Enabled"}
    {
      if "Key" in info then Err(DuplicateName("Key"))
      else if "Modifiers" in info then Err(DuplicateName("Modifiers"))
      else if "Enabled" in info then Err(DuplicateName("Enabled"))
      else Ok(info["Key" := KeyValue(key)]["Modifiers" := ModifiersValue(modifiers)]["Enabled" := BoolValue(enabled)])
    }

    /** The serialization constructor, as an allocation that can fail. */
    static method FromSerializationInfo(info: SerializationInfo) returns (r: Result<Hotkey, Exception>)
      ensures r.Ok? <==> ReadSerialized(info).Ok?
      ensures r.Ok? ==> fresh(r.value) && r.value.State() == ReadSerialized(info).value
      ensures r.Err? ==> r.error == ReadSerialized(info).error
    {
      var read := ReadSerialized(info);
      if read.Ok? {
        var h := new Hotkey.CreateWith(read.value.key, read.value.modifiers, read.value.enabled);
        r := Ok(h);
      } else {
        r := Err(read.error);
      }
    }
  }

  /** What the serialization constructor reads: Key, then Modifiers, then
      Enabled; a missing name or a value of the wrong kind throws. */
  function ReadSerialized(info: SerializationInfo): (r: Result<HotkeyState, Exception>)
    ensures r.Ok? <==> ("Key" in info && info["Key"].KeyValue? && "Modifiers" in info
      && info["Modifiers"].ModifiersValue? && "Enabled" in info && info["Enabled"].BoolValue?)
    ensures r.Ok? ==> (info["Key"] == KeyValue(r.value.key)
      && info["Modifiers"] == ModifiersValue(r.value.modifiers)
      && info["Enabled"] == BoolValue(r.value.enabled))
  {
    if "Key" !in info then Err(SerializationMissing("Key"))
    else if !info["Key"].KeyValue? then Err(InvalidCast("Key"))
    else if "Modifiers" !in info then Err(SerializationMissing("Modifiers"))
    else if !info["Modifiers"].ModifiersValue? then Err(InvalidCast("Modifiers"))
    else if "Enabled" !in info then Err(SerializationMissing("Enabled"))
    else if !info["Enabled"].BoolValue? then Err(InvalidCast("Enabled"))
    else Ok(HotkeyState(info["Key"].k, info["Modifiers"].m, info["Enabled"].b))
  }

  /** GetObjectData followed by the serialization constructor restores Key,
      Modifiers and Enabled. */
  lemma SerializationRoundTrip(h: Hotkey, info: SerializationInfo)
    requires "Key" !in info && "Modifiers" !in info && "Enabled" !in info
    ensures h.GetObjectData(info).Ok?
    ensures ReadSerialized(h.GetObjectData(info).value) == Ok(h.State())
  {
  }

  /** Equality looks at key and modifiers only: it is reflexive, symmetric
      and transitive, and two hotkeys that differ only in Enabled are equal. */
  lemma EqualsIsKeyAndModifiers(h1: Hotkey, h2: Hotkey, h3: Hotkey)
    ensures h1.Equals(h2) <==> (h1.key == h2.key && h1.modifiers == h2.modifiers)
    ensures h1.Equals(h1)
    ensures h1.Equals(h2) == h2.Equals(h1)
    ensures h1.Equals(h2) && h2.Equals(h3) ==> h1.Equals(h3)
    ensures h1.State().(enabled := h2.enabled) == h2.State() ==> h1.Equals(h2)
  {
  }

  /** Comparison with null is false in the newer class and never throws,
      whether through Equals(Hotkey) or Equals(object). */
  lemma EqualsNullIsFalse(h: Hotkey)
    ensures !h.Equals(null)
    ensures !h.EqualsObject(NullObj) && !h.EqualsObject(OtherObj)
  {
  }

  /** Equal hotkeys hash equally, in both classes. */
  lemma HashAgreesWithEquality(h1: Hotkey, h2: Hotkey)
    ensures h1.Equals(h2) ==> h1.GetHashCode() == h2.GetHashCode()
    ensures h1.EqualsTyped(h2) == Ok(true) ==> h1.GetHashCode() == h2.GetHashCode()
  {
  }

  /** The hash is not injective: Key 1 without modifiers and Key 0 with
      Control|Windows (10) collide although they are not equal. */
  lemma HashCollision(h1: Hotkey, h2: Hotkey)
    requires h1.State() == HotkeyState(1, 0, true) && h2.State() == HotkeyState(0, 10, true)
    ensures h1.GetHashCode() == h2.GetHashCode() && !h1.Equals(h2)
  {
  }

  /** The text form ends in "(Enabled)" exactly for an enabled hotkey and in
      "(Not Enabled)" exactly for a disabled one, after the key and modifier
      names joined by " + ". */
  lemma ToStringShape(h: Hotkey, keyName: string, modifiersName: string)
    ensures var s := h.ToString(keyName, modifiersName);
      var prefix := keyName + " + " + modifiersName + " (";
      && prefix <= s
      && (h.enabled <==> s[|prefix|..] == "Enabled)")
      && (!h.enabled <==> s[|prefix|..] == "Not Enabled)")
  {
    var prefix := keyName + " + " + modifiersName + " (";
    var s := h.ToString(keyName, modifiersName);
    if h.enabled {
      assert s == prefix + "Enabled)";
    } else {
      assert s == prefix + "Not Enabled)";
    }
  }
}
