# RotationHelper, modelled in Dafny

RotationHelper is a Windows desktop helper for games. A *rotation* is a list
of key commands. Each command binds a screen point and a target colour to a
key, an optional modifier key and an optional mouse click. While a rotation
runs, a timer fires. On every tick the helper reads the colour under each
distinct point of the selected rotation. It then presses the key of every
command whose colour matches the colour read, within 10 per channel. Global
hotkeys start and stop the rotation and cycle between rotations. A modal
editor adds and removes rotations and key commands. Rotation files are
loaded, saved and compared byte by byte to decide whether a save is needed.

The repository holds two generations of the main window, the editor and the
hotkey classes. The model covers both:

- **Newer main window** (`ViewModel/`, module `MainWindows`): modifier guard
  keys, modified key strokes, mouse clicks, a capped log list with a
  no-repeat option, and the `*CanAction` command guards.
- **Older main window** (root directory, module `LegacyMainWindows`): plain
  key presses only and an unbounded text log.

Shared pieces live in their own modules:

- `Colors`: the colour-tolerance rule (`ColorHelper`).
- `Pixels`: screen sampling (`ScreenshotHelper`).
- `KeyCommands`: the key command entity and the editor's key tables.
- `Rotations`: rotations and rotation files.
- `EditRotations`: the rotation editor.
- `Converters`: the two view converters.
- `Hotkeys`: the hotkey class.
- `HotkeyHosts`: the hotkey registry.
- `Automation`: the tick of both generations, written as pure functions that
  produce a trace of events. The trace lists log lines, key strokes and mouse
  events, in order.

The newer tick is the method `MainWindows.MainWindowViewModel.RotationTimerOnElapsed`,
which works through loops. Its result is proved equal to the trace function
`Automation.TickTrace`. The theorems about the tick are then stated once, on
that function. They cover:

- which keys are pressed and in what order;
- that every stroke is explained by a matching command;
- that a held guard key suppresses every stroke;
- that no mouse event happens without a click flag;
- that both generations agree when no command has a modifier.

Things outside the program are parameters:

- the screen is a function from a point to the raw `GetPixel` value;
- the physical keyboard is a function from a time step and a key to "held";
- file dialogs, file existence, deserialized files and serialized bytes are
  passed in;
- the operating system's hotkey registration errors are an oracle.

The semaphore shared by start/stop and the tick is the boolean `locked`. A
`WaitOne` on a held semaphore is the outcome `Blocked`: the caller would wait
for ever, and nothing changes.

## Model

| member | source | states |
|---|---|---|
| Colors.EquivalentIffWithinDistance | Helper/ColorHelper.cs:16-19 | two colours are equivalent exactly when their largest per-channel difference over R, G and B is at most 10, i.e. every channel difference lies in [-10, 10] |
| Colors.EquivalentReflexive | Helper/ColorHelper.cs:16-19 | every colour is equivalent to itself, at distance 0 |
| Colors.EquivalentSymmetric | Helper/ColorHelper.cs:16-19 | equivalence and distance do not depend on argument order |
| Colors.EquivalentBoundary | ColorHelper.cs:12-17 | a difference of exactly 10 in every channel is still equivalent; 11 in any single channel is not |
| Colors.EquivalentBoundaryExample | ColorHelper.cs:12-17 | (10,10,10) matches black; (11,10,10) and (10,10,11) do not |
| Colors.EquivalentIgnoresAlpha | Helper/ColorHelper.cs:16-19 | the alpha channels of both colours never affect the answer |
| Colors.EquivalentNotTransitive | Helper/ColorHelper.cs:16-19 | there are three colours where the first matches the second and the second the third, but the first does not match the third |
| Pixels.DecodeColorRef | Helper/ScreenshotHelper.cs:28-29 | every sampled colour is opaque (alpha 255) |
| Pixels.DecodeEncode | Helper/ScreenshotHelper.cs:28-29 | unpacking a COLORREF built from a colour gives back its R, G and B (red from the low byte, blue from the third byte), whatever the top byte |
| Pixels.EncodeDecode | Helper/ScreenshotHelper.cs:28-29 | unpacking loses only the top byte: re-packing with the original top byte gives the original value |
| Pixels.InvalidReadIsWhite | Helper/ScreenshotHelper.cs:28-29 | a failed read (0xFFFFFFFF) is not an error and comes out as opaque white |
| Pixels.SampledLength | Helper/ScreenshotHelper.cs:26-30 | one colour is returned per requested point |
| Pixels.SampledAt | Helper/ScreenshotHelper.cs:26-30 | the i-th colour is the unpacked read of the i-th point |
| Pixels.ScreenshotHelper.GetColorAt | Helper/ScreenshotHelper.cs:19-35 | the buffer (one per view model, standing for the static one; the result is a copy either way) is cleared, so the result and the buffer are exactly the colours of this call's points, in order; the older copy in ScreenshotHelper.cs is identical |
| KeyCommands.PossibleKeysShape | Model/KeyCommand.cs:17-55 | the offered keys are the 36 distinct codes VK_A..VK_Z followed by VK_0..VK_9 |
| KeyCommands.PossibleModifierKeysShape | Model/KeyCommand.cs:57-64 | the offered modifiers are "none" first, then four distinct keys (both shifts, both alts) |
| KeyCommands.RecordColor | Model/KeyCommand.cs:88-89 | the colour of a command is opaque and carries its stored red, green and blue |
| KeyCommands.ColorDeterminedByChannels | Model/KeyCommand.cs:88-89 | two commands have the same colour exactly when their three stored channels agree |
| KeyCommands.KeyCommand.constructor | Model/KeyCommand.cs:66-109 | a new command has every persisted field at its default: no modifier, no click, channels and coordinates 0 |
| KeyCommands.KeyCommand.Color | Model/KeyCommand.cs:88-89 | the derived colour is the record's colour |
| KeyCommands.KeyCommand.SetRed | Model/KeyCommand.cs:111-121 | setting the same value changes nothing and notifies nothing; otherwise only red changes and "Color" then "Red" are notified |
| KeyCommands.KeyCommand.SetGreen | Model/KeyCommand.cs:91-101 | as for red, for the green channel |
| KeyCommands.KeyCommand.SetBlue | Model/KeyCommand.cs:76-86 | as for red, for the blue channel |
| KeyCommands.KeyCommand.SetX | Model/KeyCommand.cs:123-131 | X has no change guard: it always stores and notifies "X", and the colour is untouched |
| KeyCommands.KeyCommand.SetY | Model/KeyCommand.cs:133-141 | as for X |
| Rotations.Rotation.constructor | Model/Rotation.cs:20-23 | a new rotation has no key commands |
| Rotations.RotationHelperFile.constructor | Model/RotationHelperFile.cs:14-17 | a new file has no rotations |
| Rotations.IndexOf | ViewModel/MainWindowViewModel.cs:361 | the result is the first position holding the item, compared by reference, or -1 exactly when the item is absent |
| Rotations.RemoveOne | ViewModel/EditRotationViewModel.cs:134 | removal takes out exactly the first occurrence, as a multiset difference, and keeps the order of the rest; an absent item changes nothing |
| Rotations.NatToString | ViewModel/EditRotationViewModel.cs:103 | the decimal form of a count is a non-empty digit string without a leading zero |
| Rotations.ParseNatToString | ViewModel/EditRotationViewModel.cs:103 | reading the decimal form back gives the number |
| Rotations.RotationTitle | ViewModel/EditRotationViewModel.cs:103 | a new rotation's title starts with "Rotation " |
| Rotations.RotationTitleInjective | ViewModel/EditRotationViewModel.cs:103 | two titles are equal exactly when they were made at the same rotation count |
| EditRotations.EditRotationViewModel.constructor | ViewModel/EditRotationViewModel.cs:33-43 | an empty file gets one empty rotation titled "Rotation 1"; a non-empty file is left alone; the first rotation is selected; the older editor's constructor in EditRotationViewModel.cs does the same |
| EditRotations.EditRotationViewModel.AddRotationAction | ViewModel/EditRotationViewModel.cs:101-106 | one fresh empty rotation is appended after the old ones, titled from the count before the append; the first rotation is selected only when nothing was selected |
| EditRotations.EditRotationViewModel.AddKeyAction | ViewModel/EditRotationViewModel.cs:92-99 | with a selected rotation, one fresh default command is appended with key VK_A; the others are unchanged |
| EditRotations.EditRotationViewModel.RemoveKeyAction | ViewModel/EditRotationViewModel.cs:123-128 | with a selected command and a selected rotation, the first occurrence of the command is removed from that rotation; otherwise nothing changes |
| EditRotations.EditRotationViewModel.RemoveRotationAction | ViewModel/EditRotationViewModel.cs:130-135 | the selected rotation is removed from the file; the selection is not reset |
| EditRotations.RemoveThenAddScenario | EditRotationViewModel.cs:78-97 | removing the only rotation and adding one again gives a single rotation titled "Rotation 1", while the editor still selects the removed rotation |
| Converters.NullReplace | View/NullReplaceConverter.cs:11-14 | a non-null value passes through; a null value becomes the parameter |
| Converters.NullReplaceBack | View/NullReplaceConverter.cs:16-19 | a null value throws; a value equal to the parameter becomes null; any other value passes through |
| Converters.NullReplaceRoundTrip | View/NullReplaceConverter.cs:11-19 | converting forth and back gives the original value whenever it differs from the placeholder |
| Converters.NullReplacePlaceholderLost | View/NullReplaceConverter.cs:11-19 | a value equal to the placeholder comes back as null |
| Converters.ReplaceNulls | View/EnumerableNullReplaceConverter.cs:13-18 | a null collection throws; otherwise the result is produced |
| Converters.ReplaceNullsElements | View/EnumerableNullReplaceConverter.cs:13-18 | the result has one element per input; non-null elements stay at their positions, null ones become the parameter |
| Converters.ReplaceNullsIdempotent | View/EnumerableNullReplaceConverter.cs:13-18 | converting a converted collection again changes nothing |
| Converters.ReplaceNullsBack | View/EnumerableNullReplaceConverter.cs:20-23 | the backward conversion always throws NotSupported |
| Hotkeys.Hotkey.constructor | Helper/Hotkey/Hotkey.cs:37-39 | a default hotkey has no key, no modifiers and is disabled |
| Hotkeys.Hotkey.Create | Helper/Hotkey/Hotkey.cs:46-49 | a hotkey made from a key and modifiers is enabled |
| Hotkeys.Hotkey.CreateWith | Helper/Hotkey/Hotkey.cs:57-62 | the three-argument constructor stores all three values |
| Hotkeys.Hotkey.SetEnabled | Helper/Hotkey/Hotkey.cs:75-86 | an unchanged value notifies nothing; otherwise only Enabled changes and "Enabled" is notified |
| Hotkeys.Hotkey.SetKey | Helper/Hotkey/Hotkey.cs:91-102 | as for Enabled, notifying "Key" |
| Hotkeys.Hotkey.SetModifiers | Helper/Hotkey/Hotkey.cs:107-118 | as for Enabled, notifying "Modifiers" |
| Hotkeys.Hotkey.EqualsTyped | HotkeyHelper/Hotkey.cs:140-143 | the older Equals(Hotkey) throws exactly for a null argument, and otherwise agrees with the newer one |
| Hotkeys.Hotkey.GetHashCode | Helper/Hotkey/Hotkey.cs:158-161 | the hash is a non-negative number below 16 + 10 * 173, the range the key and modifier values allow |
| Hotkeys.Hotkey.GetObjectData | Helper/Hotkey/Hotkey.cs:139-144 | it succeeds exactly when none of the three names is already stored, and then adds exactly those three names |
| Hotkeys.ReadSerialized | Helper/Hotkey/Hotkey.cs:64-69 | reading succeeds exactly when Key, Modifiers and Enabled are present with the right kinds, and returns those values |
| Hotkeys.Hotkey.FromSerializationInfo | Helper/Hotkey/Hotkey.cs:64-69 | the serialization constructor builds a fresh hotkey with the state read, or fails with the read's error |
| Hotkeys.SerializationRoundTrip | HotkeyHelper/Hotkey.cs:129-134 | writing a hotkey's data and reading it back restores key, modifiers and enabled |
| Hotkeys.EqualsIsKeyAndModifiers | Helper/Hotkey/Hotkey.cs:124-127 | equality is key-and-modifiers equality: reflexive, symmetric, transitive, and blind to Enabled |
| Hotkeys.EqualsNullIsFalse | Helper/Hotkey/Hotkey.cs:152-156 | in the newer class comparing with null, or with a non-hotkey, is false and never throws |
| Hotkeys.HashAgreesWithEquality | HotkeyHelper/Hotkey.cs:155-158 | equal hotkeys hash equally, in both classes |
| Hotkeys.HashCollision | Helper/Hotkey/Hotkey.cs:158-161 | the hash is not injective: Key 1 with no modifiers and Key 0 with Control+Windows collide but are not equal |
| Hotkeys.ToStringShape | Helper/Hotkey/Hotkey.cs:163-166 | the text is "{Key} + {Modifiers} (" followed by "Enabled)" exactly when enabled and "Not Enabled)" exactly when not |
| HotkeyHosts.RegisterFailure | HotkeyHelper/HotkeyHost.cs:158-176 | no window handle is an invalid operation; error 1409 is "already registered"; any other non-zero code is a Win32 error; 0 is success |
| HotkeyHosts.UnregisterFailure | HotkeyHelper/HotkeyHost.cs:178-187 | unbinding fails only with a valid handle and a non-zero error code |
| HotkeyHosts.SerialCounter.constructor | HotkeyHelper/HotkeyHost.cs:236-239 | the counter starts at the given value |
| HotkeyHosts.SerialCounter.Next | HotkeyHelper/HotkeyHost.cs:251-254 | Next pre-increments and returns the new value |
| HotkeyHosts.FirstEqualFinds | HotkeyHelper/HotkeyHost.cs:115 | the search finds the first entry whose hotkey equals the argument; -1 means none does |
| HotkeyHosts.Lookup | HotkeyHelper/HotkeyHost.cs:193-195 | an id is found exactly when some entry carries it, and the hotkey returned is that entry's |
| HotkeyHosts.IdsAppend | HotkeyHelper/HotkeyHost.cs:101-105 | appending under the next counter value keeps ids strictly increasing |
| HotkeyHosts.IdsRemove | HotkeyHelper/HotkeyHost.cs:121 | removing an entry keeps ids strictly increasing and bounded |
| HotkeyHosts.ConsistentAppend | HotkeyHelper/HotkeyHost.cs:98-105 | admitting a hotkey equal to none in the table keeps "no two entries are the same target", and the bound ids gain its id exactly when it is enabled |
| HotkeyHosts.ConsistentRemove | HotkeyHelper/HotkeyHost.cs:115-121 | removing an entry keeps the table consistent, and its id leaves the bound set if it was enabled |
| HotkeyHosts.RemoveKeepsConsistent | HotkeyHelper/HotkeyHost.cs:113-124 | the same, stated on the host's entries |
| HotkeyHosts.HotkeyHost.constructor | HotkeyHelper/HotkeyHost.cs:34-42 | a new host is hooked, empty, binds nothing and is consistent |
| HotkeyHosts.HotkeyHost.HotKeys | HotkeyHelper/HotkeyHost.cs:69-72 | the public list is the stored hotkeys in table order |
| HotkeyHosts.HotkeyHost.Bind | HotkeyHelper/HotkeyHost.cs:158-176 | registration fails as RegisterFailure says, and on success the id becomes bound |
| HotkeyHosts.HotkeyHost.Unbind | HotkeyHelper/HotkeyHost.cs:178-187 | unregistration fails as UnregisterFailure says, and on success with a handle the id is no longer bound |
| HotkeyHosts.HotkeyHost.AddHotKey | HotkeyHelper/HotkeyHost.cs:92-106 | null or Key.None throws ArgumentNull, and a hotkey equal to a stored one is "already registered", both without drawing an id; otherwise a fresh id is drawn, an enabled hotkey is bound first, and it is stored only if binding succeeded; consistency is preserved |
| HotkeyHosts.HotkeyHost.Admit | HotkeyHelper/HotkeyHost.cs:101-105 | the fresh id is above every stored id; a failed bind stores nothing but uses up the id |
| HotkeyHosts.HotkeyHost.RemoveHotKey | HotkeyHelper/HotkeyHost.cs:113-124 | the first equal entry is unbound if enabled and removed, answering true; with none the answer is false; a null argument throws once the table is non-empty; consistency is preserved on success |
| HotkeyHosts.HotkeyHost.Dispose | HotkeyHelper/HotkeyHost.cs:139-156 | a second call changes nothing, the hook included; otherwise the hook is removed; if no unbind fails the host ends empty and disposed, and with nothing bound when the table matched the bindings on entry; a failed unbind is reported and leaves it not disposed |
| HotkeyHosts.HotkeyHost.OnHotkeyPropertyChanged | HotkeyHelper/HotkeyHost.cs:205-226 | "Enabled" binds or unbinds the entry equal to the sender; "Key" and "Modifiers" rebind an enabled entry: a failed unbind keeps the binding and reports that error, a failed rebind after a successful unbind leaves the id unbound and reports the bind error; a disabled entry is left alone; other names and unknown senders change nothing |
| HotkeyHosts.HotkeyHost.WndProc | HotkeyHelper/HotkeyHost.cs:189-203 | WM_HOTKEY with a stored id raises the hotkey's event and then the host's for that entry; anything else raises nothing; the result is always 0 |
| Automation.Distinct | ViewModel/MainWindowViewModel.cs:393 | every input point appears, nothing else appears, and no point appears twice |
| Automation.DistinctOrder | ViewModel/MainWindowViewModel.cs:393 | distinct points keep the order of their first occurrences |
| Automation.PointsCover | ViewModel/MainWindowViewModel.cs:393 | the sampled points are exactly the (X, Y) of the commands, each once |
| Automation.Matching | ViewModel/MainWindowViewModel.cs:399 | a command is selected for a colour exactly when its colour is equivalent to it |
| Automation.MatchingAppend | ViewModel/MainWindowViewModel.cs:399 | the selection keeps list order: selecting from a concatenation concatenates the selections |
| Automation.MatchingSingle | ViewModel/MainWindowViewModel.cs:399 | a single command is selected exactly when its colour is equivalent |
| Automation.FirstHeld | ViewModel/MainWindowViewModel.cs:191-201 | a reported guard key is one of the configured keys and is held; it is the first held key in configuration order; none is reported exactly when no configured key is held |
| Automation.KeyEvent | ViewModel/MainWindowViewModel.cs:406-409 | a command without a modifier gives a plain press of its key; one with a modifier gives a modified stroke of that modifier and key |
| Automation.MouseTail | ViewModel/MainWindowViewModel.cs:411-419 | after a key only mouse events follow, and they follow exactly when the command asks for a click |
| Automation.ReleaseButtons | ViewModel/MainWindowViewModel.cs:415-416 | at most one button is released: the left one whenever it is down, else the right one if it is down, nothing when neither is |
| Automation.Step | ViewModel/MainWindowViewModel.cs:402-418 | one pass probes the keyboard once for the guard keys, and once more for the button release when the command is stroked and asks for a click |
| Automation.DispatchKeys | ViewModel/MainWindowViewModel.cs:402-420 | the inner loop probes the keyboard at least once and at most twice per matching command |
| Automation.ColorPass | ViewModel/MainWindowViewModel.cs:397-420 | one colour probes the keyboard at most twice per command of the rotation |
| Automation.DispatchColors | ViewModel/MainWindowViewModel.cs:397-421 | the outer loop probes the keyboard at most twice per command for each colour |
| Automation.EmptyNotice | ViewModel/MainWindowViewModel.cs:391 | a rotation without commands gets exactly one notice and a non-empty one none; the notice is neither a stroke nor a click |
| Automation.StepFree | ViewModel/MainWindowViewModel.cs:402-410 | with no guard key held, one command strokes exactly its own key |
| Automation.DispatchKeysFree | ViewModel/MainWindowViewModel.cs:402-420 | with no guard key ever held, the matching commands are stroked exactly once each, in list order |
| Automation.ColorPassFree | ViewModel/MainWindowViewModel.cs:397-420 | with no guard key ever held, one colour strokes exactly the commands matching it, in list order |
| Automation.DispatchColorsFree | ViewModel/MainWindowViewModel.cs:397-421 | with no guard key ever held, the strokes are those of each colour's matching commands, colour by colour |
| Automation.TickStrokesFree | ViewModel/MainWindowViewModel.cs:389-422 | with no guard key ever held, a tick's strokes are exactly the expected strokes for the colours read at the distinct points |
| Automation.StepSound | ViewModel/MainWindowViewModel.cs:402-410 | the only stroke one command can produce is its own |
| Automation.DispatchKeysSound | ViewModel/MainWindowViewModel.cs:402-420 | every stroke of the inner loop belongs to one of its commands |
| Automation.ColorPassSound | ViewModel/MainWindowViewModel.cs:397-420 | every stroke for a colour belongs to a command whose colour matches it |
| Automation.DispatchColorsSound | ViewModel/MainWindowViewModel.cs:397-421 | every stroke belongs to a command whose colour matches one of the colours read |
| Automation.TickSound | ViewModel/MainWindowViewModel.cs:389-422 | every stroke of a tick belongs to a command of the rotation whose colour matches a colour read at one of its points |
| Automation.DispatchKeysHeld | ViewModel/MainWindowViewModel.cs:404 | while a guard key stays held, the inner loop only logs warnings: no stroke and no mouse event |
| Automation.TickHeld | ViewModel/MainWindowViewModel.cs:389 | a guard key held at the start of a tick makes the whole tick one warning, with nothing sampled and nothing pressed |
| Automation.DispatchKeysNoClick | ViewModel/MainWindowViewModel.cs:411 | commands without the click flag cause no mouse event |
| Automation.DispatchColorsNoClick | ViewModel/MainWindowViewModel.cs:411-419 | the same across all colours |
| Automation.TickNoClick | ViewModel/MainWindowViewModel.cs:411-419 | a rotation with no click flag never causes a mouse event in a tick |
| Automation.TickEmpty | ViewModel/MainWindowViewModel.cs:391 | with no guard key held, a rotation without commands logs "no configured key" and does nothing else |
| Automation.LegacyPressesStrokes | MainWindowViewModel.cs:223-227 | the older inner loop presses the plain key of every matching command, in order |
| Automation.LegacyColorPassPlain | MainWindowViewModel.cs:215-227 | when no command has a modifier, the older pass for one colour strokes what the newer one would |
| Automation.LegacyAgreesWithoutModifiers | MainWindowViewModel.cs:215-228 | when no command has a modifier, the older dispatch strokes the expected strokes, colour by colour |
| Automation.TickAgreesWithLegacy | MainWindowViewModel.cs:211-228 | with no modifiers in the rotation and no guard key held, both generations press the same keys in the same order |
| MainWindows.LogStepEffect | ViewModel/MainWindowViewModel.cs:289-303 | a repeated text with dontRepeat changes nothing; any other text becomes the last text and the last item, after the newest of the old items, and at most 1001 items are left |
| MainWindows.LogStepNoRepeat | ViewModel/MainWindowViewModel.cs:291 | logging the same text twice with dontRepeat is the same as logging it once |
| MainWindows.ApplyLogsBounded | ViewModel/MainWindowViewModel.cs:296-301 | a log that starts with at most 1001 items keeps at most 1001 items however many texts are logged |
| MainWindows.ApplyLogsAppend | ViewModel/MainWindowViewModel.cs:289-303 | logging a trace in two parts is the same as logging it at once |
| MainWindows.NextRotation | ViewModel/MainWindowViewModel.cs:361-363 | the next selection is always one of the file's rotations |
| MainWindows.NextRotationWraps | ViewModel/MainWindowViewModel.cs:361-363 | in a list without duplicates, cycling moves one place on, from the last rotation back to the first |
| MainWindows.NextRotationUnknown | ViewModel/MainWindowViewModel.cs:361-363 | a selection that is not in the list, null included, cycles to the first rotation |
| MainWindows.CycleForward | ViewModel/MainWindowViewModel.cs:356-366 | short of the end of the list, k presses move k places on |
| MainWindows.CyclePeriod | ViewModel/MainWindowViewModel.cs:356-366 | as many presses as there are rotations visit each rotation once and come back to the start |
| MainWindows.MainWindowViewModel.constructor | ViewModel/MainWindowViewModel.cs:64-93 | a new window has no file, no selection, an empty log, overlay enabled, is stopped, and holds no semaphore |
| MainWindows.MainWindowViewModel.StartStopContent | ViewModel/MainWindowViewModel.cs:172 | the caption is "Stop" exactly while running and "Start" exactly while stopped |
| MainWindows.MainWindowViewModel.LogText | ViewModel/MainWindowViewModel.cs:289-303 | the log after the call is LogStep of the log before it |
| MainWindows.MainWindowViewModel.IsSaveNeeded | ViewModel/MainWindowViewModel.cs:222-250 | a save is needed exactly without a file, without loaded bytes, when serialization throws, or when the serialized bytes differ from the loaded ones; the loop compares length first, then byte by byte |
| MainWindows.MainWindowViewModel.StartStopAction | ViewModel/MainWindowViewModel.cs:460-490 | without a file with rotations nothing happens; a held semaphore blocks; otherwise the running flag flips exactly once, the timer follows it, the overlay opens when enabled on start and closes on stop, and the selection is kept |
| MainWindows.MainWindowViewModel.OnStartStopHotkeyPressed | ViewModel/MainWindowViewModel.cs:368-375 | the hotkey is ignored while editing or when start/stop cannot run; a held semaphore gives Blocked and changes nothing; otherwise it flips the running flag, runs the timer exactly while running, shows the overlay on start when enabled (keeping it if shown) and closes it on stop, and releases the semaphore |
| MainWindows.MainWindowViewModel.OnChangeRotationHotkeyPressed | ViewModel/MainWindowViewModel.cs:356-366 | ignored while editing or without rotations; otherwise the next rotation is selected, and the selection stays within the file |
| MainWindows.MainWindowViewModel.EditAction | ViewModel/MainWindowViewModel.cs:203-215 | when EditCanAction fails nothing changes; otherwise the rotations become the edited ones and the first, if any, is selected |
| MainWindows.MainWindowViewModel.LoadFile | ViewModel/MainWindowViewModel.cs:279-287 | the loaded file, path and bytes are stored; the first rotation is selected, and an unreadable (null) file throws with the selection unchanged |
| MainWindows.MainWindowViewModel.LoadAction | ViewModel/MainWindowViewModel.cs:262-272 | when LoadCanAction fails, the dialog is cancelled or the file is missing, nothing changes and nothing throws; otherwise LoadFile's effect |
| MainWindows.MainWindowViewModel.SaveCanExecute | ViewModel/MainWindowViewModel.cs:450-453 | the Save command is enabled exactly when there is a file, no rotation runs, and the loaded bytes are missing, serializing throws, or the serialized bytes differ from the loaded ones |
| MainWindows.MainWindowViewModel.SaveAction | ViewModel/MainWindowViewModel.cs:429-448 | without a file nothing happens; a non-blank path is reused; a blank or missing path takes the dialog's choice, and a cancelled dialog changes nothing; the bytes found at the path after the write become the loaded bytes, none when the write failed; once bytes were found, Save is disabled for as long as serializing gives those bytes |
| MainWindows.MainWindowViewModel.NewAction | ViewModel/MainWindowViewModel.cs:338-349 | nothing while running; otherwise a fresh empty file is saved to the chosen path and the bytes found there after the write (none when it failed) become the loaded bytes; a cancelled save leaves no file and no path |
| MainWindows.MainWindowViewModel.DispatchOne | ViewModel/MainWindowViewModel.cs:402-420 | one command's events are Step's, and the log takes in their Log events |
| MainWindows.MainWindowViewModel.DispatchKeysLoop | ViewModel/MainWindowViewModel.cs:402-420 | the inner loop's events are DispatchKeys', and the log takes in their Log events |
| MainWindows.MainWindowViewModel.ColorPassOnce | ViewModel/MainWindowViewModel.cs:399-420 | one colour's events are ColorPass', and the log takes in their Log events |
| MainWindows.MainWindowViewModel.DispatchColorsLoop | ViewModel/MainWindowViewModel.cs:397-421 | the outer loop's events are DispatchColors', and the log takes in their Log events |
| MainWindows.MainWindowViewModel.SampleAndDispatch | ViewModel/MainWindowViewModel.cs:391-421 | past the guard, the events are the empty-rotation notice and then the dispatch of the colours read at the distinct points |
| MainWindows.MainWindowViewModel.RunTick | ViewModel/MainWindowViewModel.cs:383-424 | a running tick's events are TickTrace of the selected rotation's commands, the log takes them in, and the timer runs again |
| MainWindows.MainWindowViewModel.RotationTimerOnElapsed | ViewModel/MainWindowViewModel.cs:377-427 | corrected: a held semaphore blocks with nothing changed; otherwise the tick runs only while started, and the semaphore is released on both paths |
| MainWindows.MainWindowViewModel.RotationTimerOnElapsedAsWritten | ViewModel/MainWindowViewModel.cs:379-381 | as written: a tick that finds the rotation stopped returns still holding the semaphore |
| MainWindows.StartedAndStopped | ViewModel/MainWindowViewModel.cs:460-490 | loading a one-rotation file, starting and stopping leaves a valid, stopped window with a free semaphore |
| MainWindows.StopRaceAsWritten | ViewModel/MainWindowViewModel.cs:379-381 | a tick that runs after a stop, followed by a start, ends Blocked |
| MainWindows.StopRaceCorrected | ViewModel/MainWindowViewModel.cs:377-427 | the same sequence with the corrected tick completes, and the rotation runs again |
| LegacyMainWindows.LegacyMainWindowViewModel.constructor | MainWindowViewModel.cs:44-63 | a new window has no file, no selection, an empty log, is stopped, and holds no semaphore |
| LegacyMainWindows.LegacyMainWindowViewModel.StartStopContent | MainWindowViewModel.cs:121 | "Stop" exactly while started, "Start" exactly while stopped |
| LegacyMainWindows.LegacyMainWindowViewModel.StartStopAction | MainWindowViewModel.cs:255-275 | without rotations nothing happens; a held semaphore blocks; otherwise the started flag flips, start selects the first rotation and stop clears the selection, and the timer follows; a selection exists exactly while started |
| LegacyMainWindows.LegacyMainWindowViewModel.OnControlPHotkeyPressed | MainWindowViewModel.cs:198-201 | Ctrl+P does nothing without rotations, blocks on a held semaphore, and otherwise flips the started flag |
| LegacyMainWindows.LegacyMainWindowViewModel.OnControlLHotkeyPressed | MainWindowViewModel.cs:189-196 | Ctrl+L does nothing while stopped and selects the next rotation while started |
| LegacyMainWindows.LegacyMainWindowViewModel.EditAction | MainWindowViewModel.cs:132-138 | nothing without a file or while started; otherwise the file's rotations become the edited ones |
| LegacyMainWindows.LegacyMainWindowViewModel.LoadFile | MainWindowViewModel.cs:152-157 | the deserialized file (possibly null) and its path become current |
| LegacyMainWindows.LegacyMainWindowViewModel.LoadAction | MainWindowViewModel.cs:140-150 | nothing while started or when cancelled; otherwise LoadFile, with no existence check |
| LegacyMainWindows.LegacyMainWindowViewModel.NewAction | MainWindowViewModel.cs:180-187 | nothing while started; otherwise a fresh empty file becomes current and the path is cleared |
| LegacyMainWindows.LegacyMainWindowViewModel.SaveAction | MainWindowViewModel.cs:235-253 | without a file nothing happens; a non-blank path is reused; a blank or missing one takes the dialog's choice, and a cancel keeps the old path |
| LegacyMainWindows.LegacyMainWindowViewModel.MainWindowOnUnloaded | MainWindowViewModel.cs:172-178 | closing a started window stops it, clearing the selection and the timer, unless the semaphore is held; a stopped window is unchanged |
| LegacyMainWindows.LegacyMainWindowViewModel.PressKeysLoop | MainWindowViewModel.cs:223-227 | the inner loop's events are LegacyPresses', and the text box gains their lines in order |
| LegacyMainWindows.LegacyMainWindowViewModel.ColorPassOnce | MainWindowViewModel.cs:215-227 | one colour's events are LegacyColorPass', and the text box gains their lines |
| LegacyMainWindows.LegacyMainWindowViewModel.DispatchLoop | MainWindowViewModel.cs:215-228 | the outer loop's events are LegacyDispatch', and the text box gains their lines |
| LegacyMainWindows.LegacyMainWindowViewModel.RunTick | MainWindowViewModel.cs:209-230 | a started tick's events are LegacyTickTrace of the selected rotation, and the timer runs again |
| LegacyMainWindows.LegacyMainWindowViewModel.RotationTimerCallback | MainWindowViewModel.cs:203-233 | corrected: a held semaphore blocks; otherwise the tick runs only while started, and the semaphore is released on both paths |
| LegacyMainWindows.LegacyMainWindowViewModel.RotationTimerCallbackAsWritten | MainWindowViewModel.cs:205-207 | as written: a tick that finds the rotation stopped returns still holding the semaphore |
| LegacyMainWindows.LegacyStartedAndStopped | MainWindowViewModel.cs:255-275 | loading a one-rotation file, starting and stopping leaves a valid, stopped window with a free semaphore |
| LegacyMainWindows.LegacyStopRaceAsWritten | MainWindowViewModel.cs:205-207 | a tick that runs after a stop, followed by Ctrl+P, ends Blocked |
| LegacyMainWindows.LegacyStopRaceCorrected | MainWindowViewModel.cs:203-233 | the same sequence with the corrected tick completes, and the rotation is started again |

## Left out

- Win32 calls: `GetPixel`, `RegisterHotKey` and `UnregisterHotKey`, and the window hook are oracles or booleans. The virtual-key translation `KeyInterop.VirtualKeyFromKey` is not modelled.
- Input simulation: key presses, modified strokes and mouse buttons are events in a trace; nothing is sent. The mouse move to the screen centre uses floating point and is dropped.
- Threading and timing: the timer, `Thread.Sleep` with `Random` jitter, and the interleaving of ticks with the UI thread are not modelled. The semaphore is a boolean, and a blocked `WaitOne` is an outcome.
- LogText defers its list update to the UI dispatcher. It is modelled as applied at once, in call order.
- Log lines are structured messages (colour, modifier, key, name), not formatted text.
- XML serialization of rotation files is not modelled. Files and serialized bytes are parameters. A serialization exception, or a save after which no file is found, is `None`.
- UI: windows, dialogs, system sounds, the overlay window, the recent-file list and property-change notifications of the view models are not modelled. Only the overlay's shown/closed flag is kept.
- The newer constructor's load of a file given on the command line, `MainWindowOnLoaded`, `MainWindowOnClosing`, `MainWindowOnUnloaded` and the window title are not modelled. They only wire hotkeys and timers, or ask a question through a message box.
- The older `MainWindowOnUnloaded` removes its two hotkeys from the host. Only its stop is modelled here; removal is modelled by `HotkeyHosts.HotkeyHost.RemoveHotKey`.
- The older `KeyPress` helper only forwards to the input simulator. It is the `KeyPress` event.
- The editor's mouse-colour timer only refreshes a display string, and is not modelled.
- HotkeyHosts.HotkeyHost.OnHotkeyPropertyChanged: the PropertyChanged subscription is not modelled. After a failed `RemoveHotKey` the source has already unsubscribed, so later changes of that hotkey no longer reach the handler; the model's handler still acts on the stored entry.
- HotkeyHosts.SerialCounter.Next: `++Current` on a 32-bit `int` wraps after 2^31 - 1 ids; the model counts with unbounded integers, so ids are increasing and unique only up to that bound.
- HotkeyHost's finalizer and the `ArgumentNullException` for a null window source are not modelled.
- The dictionary behind HotkeyHost is a sequence in insertion order. .NET does not promise an enumeration order, so the order in which `Dispose` removes entries is this assumption.
- The newer HotkeyHost (`Helper/Hotkey/HotkeyHost.cs`) is not part of this model. The model's host is the older one, which uses the older Equals.
- MainWindows.IsBlank: covers space, tab, line feed and carriage return only, not every Unicode white-space character that `string.IsNullOrWhiteSpace` accepts.
- A null name of a key command or title of a rotation file is the empty string.
- The newer `LoadFile` also checks that the file exists. Its only modelled caller, `LoadAction`, has already checked, so the second check is folded into `LoadAction`.

## Findings

| source | as written | input that shows it | evidently intended | confidence | as-written member | corrected member |
|---|---|---|---|---|---|---|
| ViewModel/MainWindowViewModel.cs:379-381 | the tick takes the semaphore and returns early when the rotation is not started, without releasing it | a timer tick already queued when StartStopAction stops the rotation runs after the stop; it returns holding the semaphore, and the next start/stop blocks in WaitOne for ever | release the semaphore on the early return too | not executed | MainWindows.MainWindowViewModel.RotationTimerOnElapsedAsWritten, MainWindows.StopRaceAsWritten | MainWindows.MainWindowViewModel.RotationTimerOnElapsed, MainWindows.StopRaceCorrected |
| MainWindowViewModel.cs:205-207 | the older tick has the same early return after WaitOne without a release | the same sequence with Ctrl+P: stop, a late tick, then Ctrl+P blocks for ever | release the semaphore on the early return too | not executed | LegacyMainWindows.LegacyMainWindowViewModel.RotationTimerCallbackAsWritten, LegacyMainWindows.LegacyStopRaceAsWritten | LegacyMainWindows.LegacyMainWindowViewModel.RotationTimerCallback, LegacyMainWindows.LegacyStopRaceCorrected |
