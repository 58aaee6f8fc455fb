/** KeyCommand: one colour-to-action binding of a rotation (a screen point,
    a target colour kept as three byte channels, the key to press, an
    optional modifier, a display name and a mouse-click flag), and the fixed
    key tables the editor offers. */
module KeyCommands {
  import opened Wrappers
  import opened Colors

  /** WindowsInput.Native.VirtualKeyCode, an unsigned 16-bit enumeration. */
  type VirtualKeyCode = k: int | 0 <= k < 0x1_0000

  const VK_LBUTTON: VirtualKeyCode := 0x01
  const VK_RBUTTON: VirtualKeyCode := 0x02
  const VK_0: VirtualKeyCode := 0x30
  const VK_9: VirtualKeyCode := 0x39
  const VK_A: VirtualKeyCode := 0x41
  const VK_Z: VirtualKeyCode := 0x5A
  const LSHIFT: VirtualKeyCode := 0xA0
  const RSHIFT: VirtualKeyCode := 0xA1
  const LMENU: VirtualKeyCode := 0xA4
  const RMENU: VirtualKeyCode := 0xA5

  /** PossibleKeys: the letter keys VK_A..VK_Z, then the digit keys VK_0..VK_9. */
  const PossibleKeys: seq<VirtualKeyCode> :=
    seq(26, i requires 0 <= i < 26 => VK_A + i) + seq(10, i requires 0 <= i < 10 => VK_0 + i)

  /** PossibleModifierKeys: "no modifier" (null) first, then the two shift
      and the two alt (menu) keys. */
  const PossibleModifierKeys: seq<Option<VirtualKeyCode>> :=
    [None, Some(LSHIFT), Some(RSHIFT), Some(LMENU), Some(RMENU)]

  lemma PossibleKeysShape()
    ensures |PossibleKeys| == 36
    ensures PossibleKeys[0] == VK_A && PossibleKeys[25] == VK_Z
    ensures PossibleKeys[26] == VK_0 && PossibleKeys[35] == VK_9
    ensures forall i :: 0 <= i < 26 ==> PossibleKeys[i] == VK_A + i
    ensures forall i :: 26 <= i < 36 ==> PossibleKeys[i] == VK_0 + (i - 26)
    ensures forall i, j :: 0 <= i < j < 36 ==> PossibleKeys[i] != PossibleKeys[j]
  {
  }

  lemma PossibleModifierKeysShape()
    ensures |PossibleModifierKeys| == 5
    ensures PossibleModifierKeys[0] == None
    ensures forall i :: 1 <= i < 5 ==> PossibleModifierKeys[i].Some?
    ensures forall i, j :: 0 <= i < j < 5 ==> PossibleModifierKeys[i] != PossibleModifierKeys[j]
  {
  }

  /** The fields of a KeyCommand that are persisted in a rotation file, in
      their serialized order.  The derived Color is not among them. */
  datatype KeyCommandRecord = KeyCommandRecord(
    blue: Byte, green: Byte, key: VirtualKeyCode, modifierKey: Option<VirtualKeyCode>,
    name: string, needMouseClick: bool, red: Byte, x: int, y: int)

  /** The colour a record stands for: opaque, with the stored channels. */
  function RecordColor(rec: KeyCommandRecord): (c: Color)
    ensures c.a == 255 && c.r == rec.red && c.g == rec.green && c.b == rec.blue
  {
    FromArgb(255, rec.red, rec.green, rec.blue)
  }

  /** Persisting and restoring the record restores the colour: two records
      with the same channels give the same Color, whatever else differs. */
  lemma ColorDeterminedByChannels(r1: KeyCommandRecord, r2: KeyCommandRecord)
    ensures RecordColor(r1) == RecordColor(r2) <==>
      (r1.red == r2.red && r1.green == r2.green && r1.blue == r2.blue)
  {
  }

  class KeyCommand {
    var blue: Byte
    var green: Byte
    var red: Byte
    var x: int
    var y: int
    var key: VirtualKeyCode
    var modifierKey: Option<VirtualKeyCode>
    /** A null name is modelled as the empty string. */
    var name: string
    var needMouseClick: bool

    /** new KeyCommand(): every field at its default value. */
    constructor ()
      ensures Record() == KeyCommandRecord(0, 0, 0, None, "", false, 0, 0, 0)
    {
      blue, green, red := 0, 0, 0;
      x, y := 0, 0;
      key := 0;
      modifierKey := None;
      name := "";
      needMouseClick := false;
    }

    /** The persisted view of this command. */
    function Record(): KeyCommandRecord
      reads this
    {
      KeyCommandRecord(blue, green, key, modifierKey, name, needMouseClick, red, x, y)
    }

    /** The derived Color property: alpha 255 and the stored channels. */
    function Color(): (c: Colors.Color)
      reads this
      ensures c == RecordColor(Record())
      ensures c.a == 255 && c.r == red && c.g == green && c.b == blue
    {
      FromArgb(255, red, green, blue)
    }

    /** The Red setter: no effect and no notification when the value is the
        current one; otherwise it stores the channel and notifies "Color"
        then "Red". */
    method SetRed(value: Byte) returns (notified: seq<string>)
      modifies this
      ensures old(red) == value ==> notified == [] && Record() == old(Record())
      ensures old(red) != value ==> notified == ["Color", "Red"]
      ensures Record() == old(Record()).(red := value)
      ensures Color() == old(Color()).(r := value)
    {
      if red == value {
        return [];
      }
      red := value;
      notified := ["Color", "Red"];
    }

    /** The Green setter, guarded like Red. */
    method SetGreen(value: Byte) returns (notified: seq<string>)
      modifies this
      ensures old(green) == value ==> notified == [] && Record() == old(Record())
      ensures old(green) != value ==> notified == ["Color", "Green"]
      ensures Record() == old(Record()).(green := value)
      ensures Color() == old(Color()).(g := value)
    {
      if green == value {
        return [];
      }
      green := value;
      notified := ["Color", "Green"];
    }

    /** The Blue setter, guarded like Red. */
    method SetBlue(value: Byte) returns (notified: seq<string>)
      modifies this
      ensures old(blue) == value ==> notified == [] && Record() == old(Record())
      ensures old(blue) != value ==> notified == ["Color", "Blue"]
      ensures Record() == old(Record()).(blue := value)
      ensures Color() == old(Color()).(b := value)
    {
      if blue == value {
        return [];
      }
      blue := value;
      notified := ["Color", "Blue"];
    }

    /** The X setter has no change guard: it always stores and notifies. */
    method SetX(value: int) returns (notified: seq<string>)
      modifies this
      ensures notified == ["X"]
      ensures Record() == old(Record()).(x := value)
      ensures Color() == old(Color())
    {
      x := value;
      notified := ["X"];
    }

    /** The Y setter, unguarded like X. */
    method SetY(value: int) returns (notified: seq<string>)
      modifies this
      ensures notified == ["Y"]
      ensures Record() == old(Record()).(y := value)
      ensures Color() == old(Color())
    {
      y := value;
      notified := ["Y"];
    }
  }

  /** The persisted view of a list of key commands, in list order. */
  function Records(ks: seq<KeyCommand>): (rs: seq<KeyCommandRecord>)
    reads set k | k in ks
    ensures |rs| == |ks|
    ensures forall i :: 0 <= i < |ks| ==> rs[i] == ks[i].Record()
  {
    seq(|ks|, i requires 0 <= i < |ks| reads set k | k in ks => ks[i].Record())
  }
}
