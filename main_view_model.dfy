/** The main window of the newer generation: the start/stop state machine
    around the rotation timer, the rotation hotkeys, the file commands and
    their guards, the capped log and the timer tick.  The semaphore that
    serialises StartStopAction and the tick is the boolean `locked`; a
    WaitOne on a held lock is a `Blocked` outcome (the caller would wait
    forever, since nothing else releases it) and changes nothing.  File
    dialogs, file contents and serialized bytes are parameters. */
module MainWindows {
  import opened Wrappers
  import opened Colors
  import opened Pixels
  import opened KeyCommands
  import opened Rotations
  import opened Automation

  /** Whether a call got past the semaphore. */
  datatype Outcome = Completed | Blocked

  /** The number of items the log keeps before it appends a new one. */
  const MaxItems := 1000

  /** The text last logged and the items of the log list. */
  datatype LogState = LogState(lastText: Option<Message>, items: seq<Message>)

  /** The oldest items removed until at most MaxItems are left. */
  function Trimmed(items: seq<Message>): seq<Message>
  {
    if |items| > MaxItems then items[|items| - MaxItems..] else items
  }

  /** LogText: a repeated text logged with dontRepeat is dropped; any other
      text becomes the last text and is appended after trimming. */
  function LogStep(s: LogState, m: Message, dontRepeat: bool): LogState
  {
    if dontRepeat && s.lastText == Some(m) then s
    else LogState(Some(m), Trimmed(s.items) + [m])
  }

  /** The log after the Log events of a trace, in order; other events leave
      it alone. */
  function ApplyLogs(s: LogState, evs: seq<Event>): LogState
    decreases |evs|
  {
    if evs == [] then s
    else
      var before := ApplyLogs(s, evs[..|evs| - 1]);
      var e := evs[|evs| - 1];
      if e.Log? then LogStep(before, e.message, e.dontRepeat) else before
  }

  /** What one LogText call does to the log: a repeat is dropped with
      nothing changed; an accepted text is the last text and the last item,
      the items before it are the newest of the old items, all of them when
      there were at most MaxItems, and never more than MaxItems + 1 items
      are left. */
  lemma LogStepEffect(s: LogState, m: Message, dontRepeat: bool)
    ensures dontRepeat && s.lastText == Some(m) ==> LogStep(s, m, dontRepeat) == s
    ensures !(dontRepeat && s.lastText == Some(m)) ==>
      var r := LogStep(s, m, dontRepeat);
      && r.lastText == Some(m)
      && 1 <= |r.items| <= MaxItems + 1
      && r.items[|r.items| - 1] == m
      && r.items[..|r.items| - 1] == s.items[|s.items| - (|r.items| - 1)..]
      && (|s.items| <= MaxItems ==> r.items == s.items + [m])
  {
    if !(dontRepeat && s.lastText == Some(m)) {
      var r := LogStep(s, m, dontRepeat);
      assert r.items[..|r.items| - 1] == Trimmed(s.items);
    }
  }

  /** Logging the same text twice with dontRepeat is logging it once. */
  lemma LogStepNoRepeat(s: LogState, m: Message)
    ensures LogStep(LogStep(s, m, true), m, true) == LogStep(s, m, true)
  {
  }

  /** However many texts a trace logs, a log that starts within the bound
      stays within it. */
  lemma {:induction false} ApplyLogsBounded(s: LogState, evs: seq<Event>)
    requires |s.items| <= MaxItems + 1
    ensures |ApplyLogs(s, evs).items| <= MaxItems + 1
    decreases |evs|
  {
    if evs != [] {
      ApplyLogsBounded(s, evs[..|evs| - 1]);
    }
  }

  /** Applying a trace in two parts is applying it at once. */
  lemma {:induction false} ApplyLogsAppend(s: LogState, a: seq<Event>, b: seq<Event>)
    ensures ApplyLogs(s, a + b) == ApplyLogs(ApplyLogs(s, a), b)
    decreases |b|
  {
    if b == [] {
      assert a + b == a;
    } else {
      assert (a + b)[..|a + b| - 1] == a + b[..|b| - 1];
      ApplyLogsAppend(s, a, b[..|b| - 1]);
    }
  }

  /** Events that are not Log events leave the log alone. */
  lemma {:induction false} ApplyLogsQuiet(s: LogState, a: seq<Event>, b: seq<Event>)
    requires forall i :: 0 <= i < |b| ==> !b[i].Log?
    ensures ApplyLogs(s, a + b) == ApplyLogs(s, a)
    decreases |b|
  {
    if b == [] {
      assert a + b == a;
    } else {
      assert (a + b)[..|a + b| - 1] == a + b[..|b| - 1];
      ApplyLogsQuiet(s, a, b[..|b| - 1]);
    }
  }

  /** OnChangeRotationHotkeyPressed's choice: the rotation after the
      selected one, wrapping to the first after the last; an unknown or null
      selection goes to the first. */
  function NextRotation(rs: seq<Rotation>, sel: Rotation?): (r: Rotation)
    requires |rs| > 0
    ensures r in rs
  {
    var index := IndexOf(rs, sel) + 1;
    if index >= |rs| || index == -1 then rs[0] else rs[index]
  }

  predicate DistinctRotations(rs: seq<Rotation>)
  {
    forall i, j :: 0 <= i < j < |rs| ==> rs[i] != rs[j]
  }

  lemma IndexOfDistinct(rs: seq<Rotation>, i: nat)
    requires DistinctRotations(rs) && i < |rs|
    ensures IndexOf(rs, rs[i]) == i
  {
  }

  /** Cycling moves one place on, from the last rotation back to the first. */
  lemma NextRotationWraps(rs: seq<Rotation>, i: nat)
    requires DistinctRotations(rs) && i < |rs|
    ensures NextRotation(rs, rs[i]) == if i + 1 < |rs| then rs[i + 1] else rs[0]
  {
    IndexOfDistinct(rs, i);
  }

  /** A selection outside the list, null included, cycles to the first. */
  lemma NextRotationUnknown(rs: seq<Rotation>, sel: Rotation?)
    requires |rs| > 0 && sel !in rs
    ensures NextRotation(rs, sel) == rs[0]
  {
  }

  /** The selection after k presses of the change-rotation hotkey. */
  function Cycle(rs: seq<Rotation>, sel: Rotation?, k: nat): Rotation?
    requires |rs| > 0
  {
    if k == 0 then sel else NextRotation(rs, Cycle(rs, sel, k - 1))
  }

  /** a + b presses are a presses followed by b presses. */
  lemma {:induction false} CycleSplit(rs: seq<Rotation>, sel: Rotation?, a: nat, b: nat)
    requires |rs| > 0
    ensures Cycle(rs, sel, a + b) == Cycle(rs, Cycle(rs, sel, a), b)
    decreases b
  {
    if b > 0 {
      CycleSplit(rs, sel, a, b - 1);
    }
  }

  /** Short of the end of the list, k presses move k places on. */
  lemma {:induction false} CycleForward(rs: seq<Rotation>, i: nat, k: nat)
    requires DistinctRotations(rs) && i + k < |rs|
    ensures Cycle(rs, rs[i], k) == rs[i + k]
  {
    if k > 0 {
      CycleForward(rs, i, k - 1);
      NextRotationWraps(rs, i + k - 1);
    }
  }

  /** As many presses as there are rotations come back to the start, after
      visiting every rotation once. */
  lemma CyclePeriod(rs: seq<Rotation>, i: nat)
    requires DistinctRotations(rs) && i < |rs|
    ensures Cycle(rs, rs[i], |rs|) == rs[i]
    ensures forall k :: 0 <= k < |rs| - i ==> Cycle(rs, rs[i], k) == rs[i + k]
  {
    var n := |rs|;
    forall k | 0 <= k < n - i ensures Cycle(rs, rs[i], k) == rs[i + k] {
      CycleForward(rs, i, k);
    }
    CycleForward(rs, i, n - 1 - i);
    NextRotationWraps(rs, n - 1);
    assert Cycle(rs, rs[i], n - i) == rs[0];
    CycleForward(rs, 0, i);
    CycleSplit(rs, rs[i], n - i, i);
  }

  /** The characters string.IsNullOrWhiteSpace treats as blank here. */
  predicate IsBlank(s: string)
  {
    forall i :: 0 <= i < |s| ==> s[i] in {' ', '\t', '\n', '\r'}
  }

  /** IsSaveNeeded, as a value: a save is needed without a file, without
      the bytes of the loaded file, when serializing fails (None), or when
      the serialized bytes differ from the loaded ones. */
  predicate SaveNeeded(hasFile: bool, loaded: Option<seq<Byte>>, serialized: Option<seq<Byte>>)
  {
    !hasFile || loaded.None? || serialized.None? || serialized.value != loaded.value
  }


  /** The trace of the inner loop with `j` keys done and `done` already emitted. */
  function KeysFrom(done: seq<Event>, color: Color, keys: seq<KeyCommandRecord>, j: nat, mods: seq<VirtualKeyCode>, held: Keyboard, t: nat): Run
    requires j <= |keys|
  {
    var rest := DispatchKeys(color, keys[j..], mods, held, t);
    Run(done + rest.events, rest.next)
  }

  lemma KeysFromStep(done: seq<Event>, color: Color, keys: seq<KeyCommandRecord>, j: nat, mods: seq<VirtualKeyCode>, held: Keyboard, t: nat,
                     more: seq<Event>, next: nat)
    requires j < |keys|
    requires Run(more, next) == Step(color, keys[j], mods, held, t)
    ensures KeysFrom(done, color, keys, j, mods, held, t) == KeysFrom(done + more, color, keys, j + 1, mods, held, next)
  {
    assert keys[j..][1..] == keys[j + 1..];
    var rest := DispatchKeys(color, keys[j + 1..], mods, held, next);
    assert done + (more + rest.events) == (done + more) + rest.events;
  }

  lemma KeysFromDone(done: seq<Event>, color: Color, keys: seq<KeyCommandRecord>, mods: seq<VirtualKeyCode>, held: Keyboard, t: nat)
    ensures KeysFrom(done, color, keys, |keys|, mods, held, t) == Run(done, t)
  {
    assert keys[|keys|..] == [];
    assert done + [] == done;
  }


  /** The trace of the outer loop with `i` colours done and `done` already emitted. */
  function ColorsFrom(done: seq<Event>, colors: seq<Color>, i: nat, cmds: seq<KeyCommandRecord>, mods: seq<VirtualKeyCode>, held: Keyboard, t: nat): Run
    requires i <= |colors|
  {
    var rest := DispatchColors(colors[i..], cmds, mods, held, t);
    Run(done + rest.events, rest.next)
  }

  lemma ColorsFromStep(done: seq<Event>, colors: seq<Color>, i: nat, cmds: seq<KeyCommandRecord>, mods: seq<VirtualKeyCode>, held: Keyboard, t: nat,
                       more: seq<Event>, next: nat)
    requires i < |colors|
    requires Run(more, next) == ColorPass(colors[i], cmds, mods, held, t)
    ensures ColorsFrom(done, colors, i, cmds, mods, held, t) == ColorsFrom(done + more, colors, i + 1, cmds, mods, held, next)
  {
    assert colors[i..][1..] == colors[i + 1..];
    var rest := DispatchColors(colors[i + 1..], cmds, mods, held, next);
    assert done + (more + rest.events) == (done + more) + rest.events;
  }

  lemma ColorsFromDone(done: seq<Event>, colors: seq<Color>, cmds: seq<KeyCommandRecord>, mods: seq<VirtualKeyCode>, held: Keyboard, t: nat)
    ensures ColorsFrom(done, colors, |colors|, cmds, mods, held, t) == Run(done, t)
  {
    assert colors[|colors|..] == [];
    assert done + [] == done;
  }

  class MainWindowViewModel {
    var file: RotationHelperFile?
    var selectedRotation: Rotation?
    var editing: bool
    var isRotationStarted: bool
    var timerRunning: bool
    var overlayEnabled: bool
    var overlayShown: bool
    /** The semaphore, held when true. */
    var locked: bool
    var lastText: Option<Message>
    var listBoxItems: seq<Message>
    var loadedPath: Option<string>
    var loadedBytes: Option<seq<Byte>>
    /** The parsed modifier-key settings the tick guards on. */
    const modifierKeys: seq<VirtualKeyCode>
    const screenshot: ScreenshotHelper

    /** A running rotation has a file with rotations; a file with rotations
        has its selection among them. */
    predicate Valid()
      reads this, file
    {
      && (isRotationStarted ==> file != null && |file.rotations| > 0)
      && (file != null && |file.rotations| > 0 ==> selectedRotation in file.rotations)
    }

    function Logged(): LogState
      reads this
    {
      LogState(lastText, listBoxItems)
    }

    constructor (modifierKeys: seq<VirtualKeyCode>)
      ensures Valid() && fresh(screenshot)
      ensures this.modifierKeys == modifierKeys
      ensures file == null && selectedRotation == null && loadedPath == None && loadedBytes == None
      ensures !editing && !isRotationStarted && !timerRunning && overlayEnabled && !overlayShown && !locked
      ensures Logged() == LogState(None, [])
    {
      this.modifierKeys := modifierKeys;
      screenshot := new ScreenshotHelper();
      file := null;
      selectedRotation := null;
      editing, isRotationStarted, timerRunning := false, false, false;
      overlayEnabled, overlayShown, locked := true, false, false;
      lastText, listBoxItems := None, [];
      loadedPath, loadedBytes := None, None;
    }

    /** "Stop" while running, "Start" otherwise. */
    function StartStopContent(): (content: string)
      reads this
      ensures content == "Stop" <==> isRotationStarted
      ensures content == "Start" <==> !isRotationStarted
    {
      if isRotationStarted then "Stop" else "Start"
    }

    predicate StartStopCanAction()
      reads this, file
    {
      file != null && |file.rotations| > 0
    }

    predicate EditCanAction()
      reads this
    {
      file != null && !isRotationStarted
    }

    predicate LoadCanAction()
      reads this
    {
      !isRotationStarted
    }

    predicate NewCanAction()
      reads this
    {
      !isRotationStarted
    }

    /** SaveCanAction, given what serializing the file would give. */
    predicate SaveCanAction(serialized: Option<seq<Byte>>)
      reads this
    {
      file != null && !isRotationStarted && SaveNeeded(file != null, loadedBytes, serialized)
    }

    /** LogText: drop a repeated dontRepeat text; otherwise remember it,
        remove the oldest items while more than MaxItems are left, and
        append it. */
    method LogText(m: Message, dontRepeat: bool)
      modifies this`lastText, this`listBoxItems
      ensures Logged() == LogStep(old(Logged()), m, dontRepeat)
    {
      if dontRepeat && lastText == Some(m) {
        return;
      }
      lastText := Some(m);
      while |listBoxItems| > MaxItems
        invariant lastText == Some(m)
        invariant listBoxItems == old(listBoxItems)[|old(listBoxItems)| - |listBoxItems|..]
        invariant |old(listBoxItems)| > MaxItems ==> |listBoxItems| >= MaxItems
        invariant |old(listBoxItems)| <= MaxItems ==> listBoxItems == old(listBoxItems)
        decreases |listBoxItems|
      {
        listBoxItems := listBoxItems[1..];
      }
      assert listBoxItems == Trimmed(old(listBoxItems));
      listBoxItems := listBoxItems + [m];
    }

    /** IsSaveNeeded: compares the serialized file with the loaded bytes,
        length first, then byte by byte.  `serialized` is None when
        serializing throws. */
    method IsSaveNeeded(serialized: Option<seq<Byte>>) returns (needed: bool)
      ensures needed == SaveNeeded(file != null, loadedBytes, serialized)
    {
      if file == null || loadedBytes.None? {
        return true;
      }
      if serialized.None? {
        return true;
      }
      var bytes := serialized.value;
      var loaded := loadedBytes.value;
      if |bytes| != |loaded| {
        return true;
      }
      for i := 0 to |bytes|
        invariant forall j :: 0 <= j < i ==> bytes[j] == loaded[j]
      {
        if bytes[i] != loaded[i] {
          return true;
        }
      }
      return false;
    }

    /** SaveCanAction, as the Save command's CanExecute evaluates it: a
        file, not running, and IsSaveNeeded, which the && only reaches
        when the first two hold.  Save is enabled exactly when there is a
        file, nothing runs, and the loaded bytes are missing, serializing
        fails, or the two differ. */
    method SaveCanExecute(serialized: Option<seq<Byte>>) returns (can: bool)
      ensures can == SaveCanAction(serialized)
      ensures can <==> file != null && !isRotationStarted
                       && (loadedBytes.None? || serialized.None? || serialized.value != loadedBytes.value)
    {
      can := file != null && !isRotationStarted;
      if can {
        can := IsSaveNeeded(serialized);
      }
    }

    /** StartStopAction: without a file with rotations nothing happens.
        Otherwise, past the semaphore, the running flag flips; starting
        starts the timer and shows the overlay when it is enabled, stopping
        stops the timer and closes the overlay.  The selection is kept. */
    method StartStopAction() returns (outcome: Outcome)
      requires Valid()
      modifies this`isRotationStarted, this`timerRunning, this`overlayShown, this`locked
      ensures Valid()
      ensures !StartStopCanAction() ==> outcome == Completed && unchanged(this)
      ensures StartStopCanAction() && old(locked) ==> outcome == Blocked && unchanged(this)
      ensures StartStopCanAction() && !old(locked) ==>
        && outcome == Completed
        && isRotationStarted == !old(isRotationStarted)
        && timerRunning == isRotationStarted
        && overlayShown == (if isRotationStarted then overlayEnabled || old(overlayShown) else false)
        && !locked
    {
      if file == null || |file.rotations| == 0 {
        return Completed;
      }
      if locked {
        return Blocked;
      }
      locked := true;
      isRotationStarted := !isRotationStarted;
      if isRotationStarted {
        timerRunning := true;
        if overlayEnabled {
          overlayShown := true;
        }
      } else {
        timerRunning := false;
        overlayShown := false;
      }
      locked := false;
      outcome := Completed;
    }

    /** OnStartStopHotkeyPressed: ignored while editing or when the command
        cannot run; otherwise StartStopAction. */
    method OnStartStopHotkeyPressed() returns (outcome: Outcome)
      requires Valid()
      modifies this`isRotationStarted, this`timerRunning, this`overlayShown, this`locked
      ensures Valid()
      ensures editing || !StartStopCanAction() ==> outcome == Completed && unchanged(this)
      ensures !editing && StartStopCanAction() && old(locked) ==> outcome == Blocked && unchanged(this)
      ensures !editing && StartStopCanAction() && !old(locked) ==>
        && outcome == Completed
        && isRotationStarted == !old(isRotationStarted)
        && timerRunning == isRotationStarted
        && overlayShown == (if isRotationStarted then overlayEnabled || old(overlayShown) else false)
        && !locked
    {
      if editing || !StartStopCanAction() {
        return Completed;
      }
      outcome := StartStopAction();
    }

    /** OnChangeRotationHotkeyPressed: ignored while editing or without a
        file with rotations; otherwise the next rotation is selected. */
    method OnChangeRotationHotkeyPressed()
      requires Valid()
      modifies this`selectedRotation
      ensures Valid()
      ensures editing || !StartStopCanAction() ==> selectedRotation == old(selectedRotation)
      ensures !editing && StartStopCanAction() ==> selectedRotation == NextRotation(file.rotations, old(selectedRotation))
    {
      if editing {
        return;
      }
      if file == null || |file.rotations| == 0 {
        return;
      }
      selectedRotation := NextRotation(file.rotations, selectedRotation);
    }

    /** EditAction: without a file, or while running, nothing happens.
        Otherwise the modal editor runs with `editing` set, leaving the
        file's rotations as `edited`, and the first rotation, if any, is
        selected. */
    method EditAction(edited: seq<Rotation>)
      requires Valid()
      modifies this`editing, this`selectedRotation, file
      ensures Valid()
      ensures !old(EditCanAction()) ==> unchanged(this) && (file != null ==> unchanged(file))
      ensures old(EditCanAction()) ==>
        && file.rotations == edited
        && selectedRotation == (if edited == [] then null else edited[0])
        && !editing
    {
      if file == null || isRotationStarted {
        return;
      }
      editing := true;
      file.rotations := edited;
      selectedRotation := if |file.rotations| == 0 then null else file.rotations[0];
      editing := false;
    }

    /** LoadFile: the deserialized file becomes current and its path and
        bytes are remembered; then its first rotation, if any, is selected.
        Deserialize gives null for an unreadable file, and selecting from it
        throws (`thrown`) with the selection left as it was. */
    method LoadFile(path: string, loaded: RotationHelperFile?, bytes: seq<Byte>) returns (thrown: bool)
      modifies this`file, this`loadedPath, this`loadedBytes, this`selectedRotation
      ensures file == loaded && loadedPath == Some(path) && loadedBytes == Some(bytes)
      ensures thrown <==> loaded == null
      ensures loaded == null ==> selectedRotation == old(selectedRotation)
      ensures loaded != null ==> selectedRotation == if loaded.rotations == [] then null else loaded.rotations[0]
    {
      file := loaded;
      loadedPath := Some(path);
      loadedBytes := Some(bytes);
      if file == null {
        return true;
      }
      selectedRotation := if |file.rotations| == 0 then null else file.rotations[0];
      thrown := false;
    }

    /** LoadAction: nothing while running, when the dialog is cancelled
        (`choice` is None) or when the chosen file does not exist; otherwise
        LoadFile. */
    method LoadAction(choice: Option<string>, exists_: bool, loaded: RotationHelperFile?, bytes: seq<Byte>) returns (thrown: bool)
      requires Valid()
      modifies this`file, this`loadedPath, this`loadedBytes, this`selectedRotation
      ensures Valid()
      ensures !old(LoadCanAction()) || choice.None? || !exists_ ==> !thrown && unchanged(this)
      ensures old(LoadCanAction()) && choice.Some? && exists_ ==>
        && file == loaded && loadedPath == choice && loadedBytes == Some(bytes)
        && (thrown <==> loaded == null)
        && (loaded != null ==> selectedRotation == if loaded.rotations == [] then null else loaded.rotations[0])
    {
      if isRotationStarted {
        return false;
      }
      if choice.None? || !exists_ {
        return false;
      }
      thrown := LoadFile(choice.value, loaded, bytes);
    }

    /** SaveAction: nothing without a file.  A blank or missing path asks
        for one (`choice`, None when cancelled); the file is written there
        and the path is remembered.  Setting the path re-reads the file at
        that path: `written` is what is found there after the write, None
        when there is no file (the serializer swallows a failed write), and
        it becomes the loaded bytes. */
    method SaveAction(choice: Option<string>, written: Option<seq<Byte>>)
      modifies this`loadedPath, this`loadedBytes
      ensures file == null ==> unchanged(this)
      ensures file != null && old(loadedPath).Some? && !IsBlank(old(loadedPath).value) ==>
        loadedPath == old(loadedPath) && loadedBytes == written
      ensures file != null && (old(loadedPath).None? || IsBlank(old(loadedPath).value)) ==>
        if choice.None? then unchanged(this)
        else loadedPath == choice && loadedBytes == written
      ensures file != null && written.Some? && loadedBytes == written ==> !SaveCanAction(written)
    {
      if file == null {
        return;
      }
      var path := loadedPath;
      if path.None? || IsBlank(path.value) {
        if choice.None? {
          return;
        }
        path := choice;
      }
      loadedPath := path;
      loadedBytes := written;
    }

    /** NewAction: nothing while running.  Otherwise a new, empty file
        replaces the current one, the path is cleared and the file is
        saved; when that save is cancelled no file is left.  A save whose
        write failed still sets the path, so the file stays, with no loaded
        bytes. */
    method NewAction(choice: Option<string>, written: Option<seq<Byte>>)
      requires Valid()
      modifies this`file, this`loadedPath, this`loadedBytes
      ensures Valid()
      ensures !old(NewCanAction()) ==> unchanged(this)
      ensures old(NewCanAction()) && choice.None? ==>
        file == null && loadedPath == None && loadedBytes == None
      ensures old(NewCanAction()) && choice.Some? ==>
        file != null && fresh(file) && file.rotations == [] && loadedPath == choice && loadedBytes == written
    {
      if isRotationStarted {
        return;
      }
      file := new RotationHelperFile();
      loadedPath := None;
      loadedBytes := None;
      SaveAction(choice, written);
      if loadedPath.None? {
        file := null;
      }
    }

    /** One pass of the inner loop: the guard check, then the log line,
        the stroke and, for a command that asks for one, the mouse release
        and click. */
    method DispatchOne(color: Color, k: KeyCommandRecord, held: Keyboard, t0: nat) returns (events: seq<Event>, t: nat)
      modifies this`lastText, this`listBoxItems
      ensures Run(events, t) == Step(color, k, modifierKeys, held, t0)
      ensures Logged() == ApplyLogs(old(Logged()), events)
    {
      var guard := FirstHeld(modifierKeys, held, t0);
      if guard.Some? {
        LogText(GuardHeld(guard.value), true);
        events, t := [Log(GuardHeld(guard.value), true)], t0 + 1;
        assert events[..0] == [];
        return;
      }
      var line := Pressing(color, k.modifierKey, k.key, k.name);
      LogText(line, false);
      var tail: seq<Event> := [];
      t := t0 + 1;
      if k.needMouseClick {
        if held(t0 + 1, VK_LBUTTON) {
          tail := [LeftButtonUp];
        } else if held(t0 + 1, VK_RBUTTON) {
          tail := [RightButtonUp];
        }
        tail := tail + [LeftButtonClick];
        t := t0 + 2;
      }
      assert [Log(line, false)][..0] == [];
      ApplyLogsQuiet(old(Logged()), [Log(line, false)], [KeyEvent(k)] + tail);
      events := [Log(line, false)] + ([KeyEvent(k)] + tail);
    }

    /** The inner loop of the tick over the commands matching one colour. */
    method DispatchKeysLoop(color: Color, keys: seq<KeyCommandRecord>, held: Keyboard, t0: nat) returns (events: seq<Event>, t: nat)
      modifies this`lastText, this`listBoxItems
      ensures Run(events, t) == DispatchKeys(color, keys, modifierKeys, held, t0)
      ensures Logged() == ApplyLogs(old(Logged()), events)
    {
      ghost var log0 := Logged();
      ghost var goal := DispatchKeys(color, keys, modifierKeys, held, t0);
      events, t := [], t0;
      var j := 0;
      while j < |keys|
        invariant 0 <= j <= |keys|
        invariant goal == KeysFrom(events, color, keys, j, modifierKeys, held, t)
        invariant Logged() == ApplyLogs(log0, events)
      {
        var more, next := DispatchOne(color, keys[j], held, t);
        ApplyLogsAppend(log0, events, more);
        KeysFromStep(events, color, keys, j, modifierKeys, held, t, more, next);
        events, t := events + more, next;
        j := j + 1;
      }
      KeysFromDone(events, color, keys, modifierKeys, held, t);
    }

    /** One pass of the outer loop: the "no key attached" line when nothing
        matches the colour, then the inner loop over the matching commands. */
    method ColorPassOnce(color: Color, cmds: seq<KeyCommandRecord>, held: Keyboard, t0: nat) returns (events: seq<Event>, t: nat)
      modifies this`lastText, this`listBoxItems
      ensures Run(events, t) == ColorPass(color, cmds, modifierKeys, held, t0)
      ensures Logged() == ApplyLogs(old(Logged()), events)
    {
      var keys := Matching(cmds, color);
      events := [];
      if |keys| == 0 {
        LogText(NoKeyAttached(color), true);
        events := [Log(NoKeyAttached(color), true)];
        assert events[..0] == [];
      }
      ghost var log0 := old(Logged());
      var more: seq<Event>;
      more, t := DispatchKeysLoop(color, keys, held, t0);
      ApplyLogsAppend(log0, events, more);
      events := events + more;
    }

    /** The outer loop of the tick over the sampled colours. */
    method DispatchColorsLoop(colors: seq<Color>, cmds: seq<KeyCommandRecord>, held: Keyboard, t0: nat) returns (events: seq<Event>, t: nat)
      modifies this`lastText, this`listBoxItems
      ensures Run(events, t) == DispatchColors(colors, cmds, modifierKeys, held, t0)
      ensures Logged() == ApplyLogs(old(Logged()), events)
    {
      ghost var log0 := Logged();
      ghost var goal := DispatchColors(colors, cmds, modifierKeys, held, t0);
      events, t := [], t0;
      var i := 0;
      while i < |colors|
        invariant 0 <= i <= |colors|
        invariant goal == ColorsFrom(events, colors, i, cmds, modifierKeys, held, t)
        invariant Logged() == ApplyLogs(log0, events)
      {
        var more, next := ColorPassOnce(colors[i], cmds, held, t);
        ApplyLogsAppend(log0, events, more);
        ColorsFromStep(events, colors, i, cmds, modifierKeys, held, t, more, next);
        events, t := events + more, next;
        i := i + 1;
      }
      ColorsFromDone(events, colors, cmds, modifierKeys, held, t);
    }

    /** The running part of the tick: the timer is stopped, a held guard
        key ends the tick with a warning; otherwise an empty rotation is
        reported, the distinct points of the selected rotation are read and
        every colour is dispatched; the timer is started again. */
    method RunTick(screen: Point -> ColorRef, held: Keyboard) returns (trace: seq<Event>)
      requires selectedRotation != null
      modifies this`timerRunning, this`lastText, this`listBoxItems, screenshot
      ensures trace == TickTrace(old(Records(selectedRotation.keyCommands)), screen, modifierKeys, held)
      ensures Logged() == ApplyLogs(old(Logged()), trace)
      ensures timerRunning
    {
      timerRunning := false;
      var cmds := Records(selectedRotation.keyCommands);
      var guard := FirstHeld(modifierKeys, held, 0);
      if guard.Some? {
        LogText(GuardHeld(guard.value), true);
        trace := [Log(GuardHeld(guard.value), true)];
        assert trace[..0] == [];
      } else {
        trace := SampleAndDispatch(cmds, screen, held);
      }
      timerRunning := true;
    }

    /** The tick past the guard check: an empty rotation is reported, the
        distinct points are read and every colour is dispatched. */
    method SampleAndDispatch(cmds: seq<KeyCommandRecord>, screen: Point -> ColorRef, held: Keyboard) returns (trace: seq<Event>)
      modifies this`lastText, this`listBoxItems, screenshot
      ensures trace == EmptyNotice(cmds) + DispatchColors(Sampled(Points(cmds), screen), cmds, modifierKeys, held, 1).events
      ensures Logged() == ApplyLogs(old(Logged()), trace)
    {
      ghost var log0 := Logged();
      trace := [];
      if |cmds| == 0 {
        LogText(NoConfiguredKey, true);
        trace := [Log(NoConfiguredKey, true)];
        assert trace[..0] == [];
      }
      var colors := screenshot.GetColorAt(Points(cmds), screen);
      var events, next := DispatchColorsLoop(colors, cmds, held, 1);
      ApplyLogsAppend(log0, trace, events);
      trace := trace + events;
    }

    /** RotationTimerOnElapsed, corrected: the semaphore is released on the
        not-running path as well. */
    method RotationTimerOnElapsed(screen: Point -> ColorRef, held: Keyboard) returns (outcome: Outcome, trace: seq<Event>)
      requires Valid()
      modifies this`locked, this`timerRunning, this`lastText, this`listBoxItems, screenshot
      ensures Valid()
      ensures old(locked) ==> outcome == Blocked && trace == [] && unchanged(this)
      ensures !old(locked) ==> outcome == Completed && !locked
      ensures !old(locked) && !isRotationStarted ==> trace == [] && unchanged(this`timerRunning, this`lastText, this`listBoxItems)
      ensures !old(locked) && isRotationStarted ==>
        && trace == TickTrace(old(Records(selectedRotation.keyCommands)), screen, modifierKeys, held)
        && Logged() == ApplyLogs(old(Logged()), trace)
        && timerRunning
    {
      trace := [];
      if locked {
        return Blocked, trace;
      }
      locked := true;
      if !isRotationStarted {
        locked := false;
        return Completed, trace;
      }
      trace := RunTick(screen, held);
      locked := false;
      outcome := Completed;
    }

    /** RotationTimerOnElapsed as written: the not-running path returns
        with the semaphore still held. */
    method RotationTimerOnElapsedAsWritten(screen: Point -> ColorRef, held: Keyboard) returns (outcome: Outcome, trace: seq<Event>)
      requires Valid()
      modifies this`locked, this`timerRunning, this`lastText, this`listBoxItems, screenshot
      ensures Valid()
      ensures old(locked) ==> outcome == Blocked && trace == [] && unchanged(this)
      ensures !old(locked) && !isRotationStarted ==> outcome == Completed && trace == [] && locked
      ensures !old(locked) && isRotationStarted ==>
        && outcome == Completed && !locked
        && trace == TickTrace(old(Records(selectedRotation.keyCommands)), screen, modifierKeys, held)
    {
      trace := [];
      if locked {
        return Blocked, trace;
      }
      locked := true;
      if !isRotationStarted {
        return Completed, trace;
      }
      trace := RunTick(screen, held);
      locked := false;
      outcome := Completed;
    }
  }

  /** A main window with a loaded file of one rotation, started and then
      stopped. */
  method StartedAndStopped() returns (vm: MainWindowViewModel)
    ensures fresh(vm) && fresh(vm.screenshot) && vm.Valid() && !vm.isRotationStarted && !vm.locked
    ensures vm.StartStopCanAction() && !vm.editing
  {
    vm := new MainWindowViewModel([]);
    var file := new RotationHelperFile();
    var r := new Rotation("Rotation 1");
    file.rotations := [r];
    var thrown := vm.LoadAction(Some("a.rotation"), true, file, []);
    var o := vm.StartStopAction();
    o := vm.StartStopAction();
  }

  /** A tick raised before the stop runs after it: as written it leaves the
      semaphore held, and the next start blocks for good. */
  method StopRaceAsWritten() returns (outcome: Outcome)
    ensures outcome == Blocked
  {
    var vm := StartedAndStopped();
    var o, trace := vm.RotationTimerOnElapsedAsWritten(p => 0, (t, k) => false);
    outcome := vm.StartStopAction();
  }

  /** The same sequence with the corrected tick: the next start goes
      through and the rotation runs again. */
  method StopRaceCorrected() returns (outcome: Outcome, running: bool)
    ensures outcome == Completed && running
  {
    var vm := StartedAndStopped();
    var o, trace := vm.RotationTimerOnElapsed(p => 0, (t, k) => false);
    outcome := vm.StartStopAction();
    running := vm.isRotationStarted;
  }
}
