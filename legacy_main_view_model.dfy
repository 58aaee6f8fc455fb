/** The main window of the older generation: Ctrl+P starts and stops the
    rotation, Ctrl+L moves to the next rotation while one runs, the file
    commands are refused while running, and every timer tick presses the
    plain key of each command whose colour is on screen.  As in the newer
    window the semaphore is the boolean `locked` and a WaitOne on a held
    lock is a `Blocked` outcome.  The text box the tick writes to is the
    sequence `log`; file dialogs and file contents are parameters. */
module LegacyMainWindows {
  import opened Wrappers
  import opened Colors
  import opened Pixels
  import opened KeyCommands
  import opened Rotations
  import opened Automation
  import opened MainWindows

  /** The lines a trace appends to the text box: the messages of its Log
      events, in order. */
  function Lines(evs: seq<Event>): (ls: seq<Message>)
    ensures |ls| <= |evs|
  {
    if evs == [] then []
    else (if evs[0].Log? then [evs[0].message] else []) + Lines(evs[1..])
  }

  /** The lines of two traces one after the other. */
  lemma {:induction false} LinesAppend(a: seq<Event>, b: seq<Event>)
    ensures Lines(a + b) == Lines(a) + Lines(b)
    decreases |a|
  {
    if a == [] {
      assert a + b == b;
    } else {
      var head := if a[0].Log? then [a[0].message] else [];
      assert (a + b)[0] == a[0];
      assert (a + b)[1..] == a[1..] + b;
      assert Lines(a + b) == head + Lines(a[1..] + b);
      LinesAppend(a[1..], b);
      assert head + (Lines(a[1..]) + Lines(b)) == (head + Lines(a[1..])) + Lines(b);
    }
  }

  /** The presses of the inner loop with `j` keys done and `done` emitted. */
  function PressesFrom(done: seq<Event>, color: Color, keys: seq<KeyCommandRecord>, j: nat): seq<Event>
    requires j <= |keys|
  {
    done + LegacyPresses(color, keys[j..])
  }

  lemma PressesFromStep(done: seq<Event>, color: Color, keys: seq<KeyCommandRecord>, j: nat)
    requires j < |keys|
    ensures PressesFrom(done, color, keys, j)
      == PressesFrom(done + [Log(PressingKey(color, keys[j].key), false), KeyPress(keys[j].key)], color, keys, j + 1)
  {
    assert keys[j..][1..] == keys[j + 1..];
  }

  /** The trace of the outer loop with `i` colours done and `done` emitted. */
  function PassesFrom(done: seq<Event>, colors: seq<Color>, i: nat, cmds: seq<KeyCommandRecord>): seq<Event>
    requires i <= |colors|
  {
    done + LegacyDispatch(colors[i..], cmds)
  }

  lemma PassesFromStep(done: seq<Event>, colors: seq<Color>, i: nat, cmds: seq<KeyCommandRecord>)
    requires i < |colors|
    ensures PassesFrom(done, colors, i, cmds) == PassesFrom(done + LegacyColorPass(colors[i], cmds), colors, i + 1, cmds)
  {
    assert colors[i..][1..] == colors[i + 1..];
  }

  class LegacyMainWindowViewModel {
    var file: RotationHelperFile?
    var selectedRotation: Rotation?
    var isStarted: bool
    var timerRunning: bool
    /** The semaphore, held when true. */
    var locked: bool
    var loadedPath: Option<string>
    /** The lines of the scrolling text box. */
    var log: seq<Message>
    const screenshot: ScreenshotHelper

    /** A rotation is selected exactly while started, and then it is one of
        the rotations of the current file. */
    predicate Valid()
      reads this, file
    {
      && (isStarted <==> selectedRotation != null)
      && (isStarted ==> file != null && selectedRotation in file.rotations)
    }

    constructor ()
      ensures Valid() && fresh(screenshot)
      ensures file == null && selectedRotation == null && loadedPath == None && log == []
      ensures !isStarted && !timerRunning && !locked
    {
      screenshot := new ScreenshotHelper();
      file, selectedRotation, loadedPath, log := null, null, None, [];
      isStarted, timerRunning, locked := false, false, false;
    }

    /** The caption of the start/stop button. */
    function StartStopContent(): (content: string)
      reads this
      ensures content == "Stop" <==> isStarted
      ensures content == "Start" <==> !isStarted
    {
      if isStarted then "Stop" else "Start"
    }

    /** Whether StartStopAction gets past its first check. */
    predicate HasRotations()
      reads this, file
    {
      file != null && |file.rotations| > 0
    }

    /** StartStopAction: without a file with rotations nothing happens.
        Otherwise, past the semaphore, the started flag flips; starting
        selects the first rotation and starts the timer, stopping clears
        the selection and stops the timer. */
    method StartStopAction() returns (outcome: Outcome)
      requires Valid()
      modifies this`isStarted, this`selectedRotation, this`timerRunning, this`locked
      ensures Valid()
      ensures !HasRotations() ==> outcome == Completed && unchanged(this)
      ensures HasRotations() && old(locked) ==> outcome == Blocked && unchanged(this)
      ensures HasRotations() && !old(locked) ==>
        && outcome == Completed
        && isStarted == !old(isStarted)
        && selectedRotation == (if isStarted then file.rotations[0] else null)
        && timerRunning == isStarted
        && !locked
    {
      if file == null || |file.rotations| == 0 {
        return Completed;
      }
      if locked {
        return Blocked;
      }
      locked := true;
      isStarted := !isStarted;
      if isStarted {
        selectedRotation := file.rotations[0];
        timerRunning := true;
      } else {
        selectedRotation := null;
        timerRunning := false;
      }
      locked := false;
      outcome := Completed;
    }

    /** Ctrl+P: StartStopAction. */
    method OnControlPHotkeyPressed() returns (outcome: Outcome)
      requires Valid()
      modifies this`isStarted, this`selectedRotation, this`timerRunning, this`locked
      ensures Valid()
      ensures !HasRotations() ==> outcome == Completed && unchanged(this)
      ensures HasRotations() && old(locked) ==> outcome == Blocked && unchanged(this)
      ensures HasRotations() && !old(locked) ==> outcome == Completed && isStarted == !old(isStarted)
    {
      outcome := StartStopAction();
    }

    /** Ctrl+L: without a file, rotations or a selection nothing happens;
        otherwise the next rotation, wrapping to the first, is selected.
        Since a selection exists only while started, stopped windows ignore
        the key. */
    method OnControlLHotkeyPressed()
      requires Valid()
      modifies this`selectedRotation
      ensures Valid()
      ensures !isStarted ==> selectedRotation == old(selectedRotation)
      ensures isStarted ==> selectedRotation == NextRotation(file.rotations, old(selectedRotation))
    {
      if file == null || |file.rotations| == 0 || selectedRotation == null {
        return;
      }
      selectedRotation := NextRotation(file.rotations, selectedRotation);
    }

    /** EditAction: without a file, or while started, nothing happens;
        otherwise the modal editor leaves the file's rotations as `edited`. */
    method EditAction(edited: seq<Rotation>)
      requires Valid()
      modifies file
      ensures Valid()
      ensures file == null || isStarted ==> file == null || unchanged(file)
      ensures file != null && !isStarted ==> file.rotations == edited
    {
      if file == null || isStarted {
        return;
      }
      file.rotations := edited;
    }

    /** LoadFile: the deserialized file becomes current and its path is
        remembered.  Deserialize gives null for an unreadable file, which
        leaves no current file. */
    method LoadFile(path: string, loaded: RotationHelperFile?)
      modifies this`file, this`loadedPath
      ensures file == loaded && loadedPath == Some(path)
    {
      file := loaded;
      loadedPath := Some(path);
    }

    /** LoadAction: nothing while started or when the dialog is cancelled
        (`choice` is None); otherwise LoadFile, without checking that the
        file exists. */
    method LoadAction(choice: Option<string>, loaded: RotationHelperFile?)
      requires Valid()
      modifies this`file, this`loadedPath
      ensures Valid()
      ensures isStarted || choice.None? ==> unchanged(this)
      ensures !isStarted && choice.Some? ==> file == loaded && loadedPath == choice
    {
      if isStarted {
        return;
      }
      if choice.None? {
        return;
      }
      LoadFile(choice.value, loaded);
    }

    /** NewAction: nothing while started; otherwise an empty file becomes
        current and the path is forgotten. */
    method NewAction()
      requires Valid()
      modifies this`file, this`loadedPath
      ensures Valid()
      ensures isStarted ==> unchanged(this)
      ensures !isStarted ==> file != null && fresh(file) && file.rotations == [] && loadedPath == None
    {
      if isStarted {
        return;
      }
      file := new RotationHelperFile();
      loadedPath := None;
    }

    /** SaveAction: nothing without a file.  A blank or missing path asks
        for one (`choice`, None when cancelled); the file is written there
        and the path remembered. */
    method SaveAction(choice: Option<string>)
      modifies this`loadedPath
      ensures file == null ==> unchanged(this)
      ensures file != null && old(loadedPath).Some? && !IsBlank(old(loadedPath).value) ==> loadedPath == old(loadedPath)
      ensures file != null && (old(loadedPath).None? || IsBlank(old(loadedPath).value)) ==>
        loadedPath == if choice.None? then old(loadedPath) else choice
    {
      if file == null {
        return;
      }
      var path := loadedPath;
      if path.None? || IsBlank(path.value) {
        if choice.None? {
          return;
        }
        path := choice;
      }
      loadedPath := path;
    }

    /** Closing the window stops a started rotation. */
    method MainWindowOnUnloaded() returns (outcome: Outcome)
      requires Valid()
      modifies this`isStarted, this`selectedRotation, this`timerRunning, this`locked
      ensures Valid()
      ensures !old(isStarted) ==> outcome == Completed && unchanged(this)
      ensures old(isStarted) && !old(locked) ==> outcome == Completed && !isStarted && !timerRunning && selectedRotation == null
      ensures old(isStarted) && old(locked) ==> outcome == Blocked && unchanged(this)
    {
      outcome := Completed;
      if isStarted {
        outcome := StartStopAction();
      }
    }

    /** The inner loop: log and press the key of every matching command. */
    method PressKeysLoop(color: Color, keys: seq<KeyCommandRecord>) returns (events: seq<Event>)
      modifies this`log
      ensures events == LegacyPresses(color, keys)
      ensures log == old(log) + Lines(events)
    {
      ghost var log0 := log;
      events := [];
      var j := 0;
      while j < |keys|
        invariant 0 <= j <= |keys|
        invariant LegacyPresses(color, keys) == PressesFrom(events, color, keys, j)
        invariant log == log0 + Lines(events)
      {
        var line := PressingKey(color, keys[j].key);
        log := log + [line];
        var more := [Log(line, false), KeyPress(keys[j].key)];
        PressesFromStep(events, color, keys, j);
        LinesAppend(events, more);
        events := events + more;
        j := j + 1;
      }
      assert keys[j..] == [];
      assert events + [] == events;
    }

    /** One pass of the outer loop: the "no key attached" line when nothing
        matches the colour, then the inner loop. */
    method ColorPassOnce(color: Color, cmds: seq<KeyCommandRecord>) returns (events: seq<Event>)
      modifies this`log
      ensures events == LegacyColorPass(color, cmds)
      ensures log == old(log) + Lines(events)
    {
      ghost var log0 := log;
      var keys := Matching(cmds, color);
      events := [];
      if |keys| == 0 {
        log := log + [NoKeyAttached(color)];
        events := [Log(NoKeyAttached(color), false)];
      }
      var more := PressKeysLoop(color, keys);
      LinesAppend(events, more);
      events := events + more;
    }

    /** The outer loop over the sampled colours. */
    method DispatchLoop(colors: seq<Color>, cmds: seq<KeyCommandRecord>) returns (events: seq<Event>)
      modifies this`log
      ensures events == LegacyDispatch(colors, cmds)
      ensures log == old(log) + Lines(events)
    {
      ghost var log0 := log;
      events := [];
      var i := 0;
      while i < |colors|
        invariant 0 <= i <= |colors|
        invariant LegacyDispatch(colors, cmds) == PassesFrom(events, colors, i, cmds)
        invariant log == log0 + Lines(events)
      {
        var more := ColorPassOnce(colors[i], cmds);
        PassesFromStep(events, colors, i, cmds);
        LinesAppend(events, more);
        events := events + more;
        i := i + 1;
      }
      assert colors[i..] == [];
      assert events + [] == events;
    }

    /** The running part of the tick: the timer is stopped, the distinct
        points of the selected rotation are read, every colour is
        dispatched and the timer is started again. */
    method RunTick(screen: Point -> ColorRef) returns (trace: seq<Event>)
      requires selectedRotation != null
      modifies this`timerRunning, this`log, screenshot
      ensures trace == LegacyTickTrace(old(Records(selectedRotation.keyCommands)), screen)
      ensures log == old(log) + Lines(trace)
      ensures timerRunning
    {
      timerRunning := false;
      var cmds := Records(selectedRotation.keyCommands);
      var colors := screenshot.GetColorAt(Points(cmds), screen);
      trace := DispatchLoop(colors, cmds);
      timerRunning := true;
    }

    /** RotationTimerCallback as written: the not-started path returns with
        the semaphore still held. */
    method RotationTimerCallbackAsWritten(screen: Point -> ColorRef) returns (outcome: Outcome, trace: seq<Event>)
      requires Valid()
      modifies this`locked, this`timerRunning, this`log, screenshot
      ensures Valid()
      ensures old(locked) ==> outcome == Blocked && trace == [] && unchanged(this)
      ensures !old(locked) && !isStarted ==> outcome == Completed && trace == [] && locked && unchanged(this`timerRunning, this`log)
      ensures !old(locked) && isStarted ==>
        && outcome == Completed && !locked && timerRunning
        && trace == LegacyTickTrace(old(Records(selectedRotation.keyCommands)), screen)
        && log == old(log) + Lines(trace)
    {
      trace := [];
      if locked {
        return Blocked, trace;
      }
      locked := true;
      if !isStarted {
        return Completed, trace;
      }
      trace := RunTick(screen);
      locked := false;
      outcome := Completed;
    }

    /** RotationTimerCallback, corrected: the semaphore is released on the
        not-started path as well. */
    method RotationTimerCallback(screen: Point -> ColorRef) returns (outcome: Outcome, trace: seq<Event>)
      requires Valid()
      modifies this`locked, this`timerRunning, this`log, screenshot
      ensures Valid()
      ensures old(locked) ==> outcome == Blocked && trace == [] && unchanged(this)
      ensures !old(locked) ==> outcome == Completed && !locked
      ensures !old(locked) && !isStarted ==> trace == [] && unchanged(this`timerRunning, this`log)
      ensures !old(locked) && isStarted ==>
        && timerRunning
        && trace == LegacyTickTrace(old(Records(selectedRotation.keyCommands)), screen)
        && log == old(log) + Lines(trace)
    {
      trace := [];
      if locked {
        return Blocked, trace;
      }
      locked := true;
      if !isStarted {
        locked := false;
        return Completed, trace;
      }
      trace := RunTick(screen);
      locked := false;
      outcome := Completed;
    }
  }

  /** A window with one rotation, started and stopped again. */
  method LegacyStartedAndStopped() returns (vm: LegacyMainWindowViewModel)
    ensures fresh(vm) && fresh(vm.screenshot) && vm.Valid() && !vm.isStarted && !vm.locked && vm.HasRotations()
  {
    vm := new LegacyMainWindowViewModel();
    var file := new RotationHelperFile();
    var r := new Rotation("Rotation 1");
    file.rotations := [r];
    vm.LoadAction(Some("a.rotation"), file);
    var o := vm.StartStopAction();
    o := vm.StartStopAction();
  }

  /** A tick raised before the stop runs after it: as written it leaves the
      semaphore held, and the next Ctrl+P blocks for good. */
  method LegacyStopRaceAsWritten() returns (outcome: Outcome)
    ensures outcome == Blocked
  {
    var vm := LegacyStartedAndStopped();
    var o, trace := vm.RotationTimerCallbackAsWritten(p => 0);
    outcome := vm.OnControlPHotkeyPressed();
  }

  /** The same sequence with the corrected tick: the rotation starts again
      on its first rotation. */
  method LegacyStopRaceCorrected() returns (outcome: Outcome, started: bool)
    ensures outcome == Completed && started
  {
    var vm := LegacyStartedAndStopped();
    var o, trace := vm.RotationTimerCallback(p => 0);
    outcome := vm.OnControlPHotkeyPressed();
    started := vm.isStarted;
  }
}
