/** One tick of the automation, as the sequence of things it does: the
    points it samples, the key commands whose colour matches each sampled
    colour, and the log lines, key presses and mouse actions it issues, in
    order.  The keyboard state the tick probes is an oracle `held(t, k)`:
    whether key k is physically down at the t-th probe of the tick (every
    modifier-key check and every mouse-button check is one probe). */
module Automation {
  import opened Wrappers
  import opened Colors
  import opened Pixels
  import opened KeyCommands
  import opened Rotations

  /** A log line, kept structured instead of formatted. */
  datatype Message =
    | GuardHeld(key: VirtualKeyCode)          // "{key} key is physically pressed, please release it!"
    | NoConfiguredKey                         // "Selected rotation has no configured key, please edit it!"
    | NoKeyAttached(color: Color)             // "Color {color} detected, no key attached"
    | Pressing(color: Color, modifier: Option<VirtualKeyCode>, key: VirtualKeyCode, name: string)
    | PressingKey(color: Color, key: VirtualKeyCode)  // the older "Color {color} detected, pressing {key}"

  /** What a tick does, in order.  A log carries the dontRepeat flag of the
      LogText call. */
  datatype Event =
    | Log(message: Message, dontRepeat: bool)
    | KeyPress(key: VirtualKeyCode)
    | ModifiedKeyStroke(modifier: VirtualKeyCode, key: VirtualKeyCode)
    | LeftButtonUp
    | RightButtonUp
    | LeftButtonClick

  /** The keyboard as the tick observes it. */
  type Keyboard = (nat, VirtualKeyCode) -> bool

  /** The events of a stretch of the tick and the number of the next probe. */
  datatype Run = Run(events: seq<Event>, next: nat)

  /** Enumerable.Distinct: the first occurrence of every element, in order. */
  function Distinct<T(==)>(s: seq<T>): (d: seq<T>)
    ensures forall i :: 0 <= i < |s| ==> s[i] in d
    ensures forall i :: 0 <= i < |d| ==> d[i] in s
    ensures forall i, j :: 0 <= i < j < |d| ==> d[i] != d[j]
    ensures |d| <= |s|
  {
    if s == [] then []
    else
      var p := s[..|s| - 1];
      var d := Distinct(p);
      assert forall i :: 0 <= i < |s| - 1 ==> s[i] == p[i];
      assert forall i :: 0 <= i < |d| ==> d[i] in s by {
        assert s == p + [s[|s| - 1]];
      }
      if s[|s| - 1] in d then d else d + [s[|s| - 1]]
  }

  /** The first occurrence of x is at i exactly when x is at i and not
      before. */
  lemma IndexOfAt<T>(s: seq<T>, x: T, i: nat)
    requires i < |s| && s[i] == x && x !in s[..i]
    ensures IndexOf(s, x) == i
  {
  }

  /** Distinct keeps the order of first occurrences. */
  lemma {:induction false} DistinctOrder<T>(s: seq<T>, i: nat, j: nat)
    requires i < j < |Distinct(s)|
    ensures IndexOf(s, Distinct(s)[i]) < IndexOf(s, Distinct(s)[j])
  {
    var n := |s| - 1;
    var p := s[..n];
    var d := Distinct(p);
    assert s == p + [s[n]];
    forall x | x in p ensures IndexOf(s, x) == IndexOf(p, x) {
      var k := IndexOf(p, x);
      assert s[..k] == p[..k];
      IndexOfAt(s, x, k);
    }
    if j < |d| {
      DistinctOrder(p, i, j);
    } else {
      assert s[n] !in p;
      IndexOfAt(s, s[n], n);
    }
  }

  /** The distinct points of the commands, in first-occurrence order. */
  function Points(cmds: seq<KeyCommandRecord>): (ps: seq<Point>)
  {
    Distinct(seq(|cmds|, i requires 0 <= i < |cmds| => Point(cmds[i].x, cmds[i].y)))
  }

  /** Every command's point is sampled, exactly once, and nothing else is. */
  lemma PointsCover(cmds: seq<KeyCommandRecord>)
    ensures forall k :: k in cmds ==> Point(k.x, k.y) in Points(cmds)
    ensures forall p :: p in Points(cmds) ==> exists k :: k in cmds && p == Point(k.x, k.y)
    ensures forall i, j :: 0 <= i < j < |Points(cmds)| ==> Points(cmds)[i] != Points(cmds)[j]
  {
    var all := seq(|cmds|, i requires 0 <= i < |cmds| => Point(cmds[i].x, cmds[i].y));
    forall k | k in cmds ensures Point(k.x, k.y) in Points(cmds) {
      var i :| 0 <= i < |cmds| && cmds[i] == k;
      assert all[i] == Point(k.x, k.y);
    }
    forall p | p in Points(cmds) ensures exists k :: k in cmds && p == Point(k.x, k.y) {
      var i :| 0 <= i < |all| && all[i] == p;
      assert cmds[i] in cmds;
    }
  }

  /** KeyCommands.Where(x => x.Color.AreEquivalent(color)): the commands
      whose colour matches, in list order, whatever their point. */
  function Matching(cmds: seq<KeyCommandRecord>, color: Color): (ks: seq<KeyCommandRecord>)
    ensures forall k :: k in ks <==> k in cmds && AreEquivalent(RecordColor(k), color)
    ensures |ks| <= |cmds|
  {
    if cmds == [] then []
    else
      var rest := Matching(cmds[1..], color);
      assert forall k :: k in cmds <==> k == cmds[0] || k in cmds[1..];
      if AreEquivalent(RecordColor(cmds[0]), color) then [cmds[0]] + rest else rest
  }

  /** Matching keeps list order: selecting from a concatenation is the
      concatenation of the selections. */
  lemma {:induction false} MatchingAppend(a: seq<KeyCommandRecord>, b: seq<KeyCommandRecord>, color: Color)
    ensures Matching(a + b, color) == Matching(a, color) + Matching(b, color)
  {
    if a == [] {
      assert a + b == b;
    } else {
      assert (a + b)[1..] == a[1..] + b;
      MatchingAppend(a[1..], b, color);
    }
  }

  /** A single command is selected exactly when its colour matches. */
  lemma MatchingSingle(k: KeyCommandRecord, color: Color)
    ensures Matching([k], color) == if AreEquivalent(RecordColor(k), color) then [k] else []
  {
    assert [k][1..] == [];
  }

  /** CheckIfAModifierKeyIsPressed: the first configured modifier that is
      down at probe t, if any. */
  function FirstHeld(mods: seq<VirtualKeyCode>, held: Keyboard, t: nat): (r: Option<VirtualKeyCode>)
    ensures r.Some? ==> r.value in mods && held(t, r.value)
    ensures r.Some? ==> exists i :: 0 <= i < |mods| && mods[i] == r.value && forall j :: 0 <= j < i ==> !held(t, mods[j])
    ensures r.None? <==> forall m :: m in mods ==> !held(t, m)
  {
    if mods == [] then None
    else if held(t, mods[0]) then Some(mods[0])
    else
      var r := FirstHeld(mods[1..], held, t);
      assert forall m :: m in mods <==> m == mods[0] || m in mods[1..];
      assert r.Some? ==> exists i :: 0 <= i < |mods| && mods[i] == r.value && forall j :: 0 <= j < i ==> !held(t, mods[j]) by {
        if r.Some? {
          var i :| 0 <= i < |mods[1..]| && mods[1..][i] == r.value && forall j :: 0 <= j < i ==> !held(t, mods[1..][j]);
          assert mods[i + 1] == r.value;
          forall j | 0 <= j < i + 1 ensures !held(t, mods[j]) {
            if j > 0 { assert mods[j] == mods[1..][j - 1]; }
          }
        }
      }
      r
  }

  /** The key stroke a command sends: a plain press without a modifier,
      a chord with one. */
  function KeyEvent(k: KeyCommandRecord): (e: Event)
    ensures e.KeyPress? <==> k.modifierKey.None?
    ensures e.KeyPress? ==> e.key == k.key
    ensures e.ModifiedKeyStroke? ==> e.key == k.key && Some(e.modifier) == k.modifierKey
  {
    if k.modifierKey.None? then KeyPress(k.key) else ModifiedKeyStroke(k.modifierKey.value, k.key)
  }

  predicate IsKeyStroke(e: Event)
  {
    e.KeyPress? || e.ModifiedKeyStroke?
  }

  predicate IsMouse(e: Event)
  {
    e.LeftButtonUp? || e.RightButtonUp? || e.LeftButtonClick?
  }

  /** The key strokes of a trace, in order. */
  function KeyStrokes(evs: seq<Event>): (ks: seq<Event>)
    ensures |ks| <= |evs|
  {
    if evs == [] then []
    else if IsKeyStroke(evs[0]) then [evs[0]] + KeyStrokes(evs[1..])
    else KeyStrokes(evs[1..])
  }

  lemma {:induction false} KeyStrokesAppend(a: seq<Event>, b: seq<Event>)
    ensures KeyStrokes(a + b) == KeyStrokes(a) + KeyStrokes(b)
  {
    if a == [] {
      assert a + b == b;
    } else {
      assert (a + b)[1..] == a[1..] + b;
      KeyStrokesAppend(a[1..], b);
    }
  }

  /** The mouse release before the click: the left button if it is down at
      probe t, else the right one if that is down. */
  function ReleaseButtons(held: Keyboard, t: nat): (m: seq<Event>)
    ensures forall i :: 0 <= i < |m| ==> IsMouse(m[i])
    ensures |m| <= 1
    ensures held(t, VK_LBUTTON) ==> m == [LeftButtonUp]
    ensures m == [] <==> !held(t, VK_LBUTTON) && !held(t, VK_RBUTTON)
  {
    if held(t, VK_LBUTTON) then [LeftButtonUp]
    else if held(t, VK_RBUTTON) then [RightButtonUp]
    else []
  }

  /** What follows a command's stroke: nothing, or for a command that asks
      for a click, the release (probed at t) and the left click. */
  function MouseTail(k: KeyCommandRecord, held: Keyboard, t: nat): (m: seq<Event>)
    ensures forall i :: 0 <= i < |m| ==> IsMouse(m[i])
    ensures !k.needMouseClick <==> m == []
  {
    if k.needMouseClick then ReleaseButtons(held, t) + [LeftButtonClick] else []
  }

  /** One pass of the inner loop, for command k, starting at probe t: a
      held guard key skips the command with a warning; otherwise the
      command is logged and stroked, and its mouse sequence follows. */
  function Step(color: Color, k: KeyCommandRecord, mods: seq<VirtualKeyCode>, held: Keyboard, t: nat): (r: Run)
    ensures r.next == t + (if FirstHeld(mods, held, t).None? && k.needMouseClick then 2 else 1)
  {
    var g := FirstHeld(mods, held, t);
    if g.Some? then Run([Log(GuardHeld(g.value), true)], t + 1)
    else
      Run([Log(Pressing(color, k.modifierKey, k.key, k.name), false), KeyEvent(k)] + MouseTail(k, held, t + 1),
          if k.needMouseClick then t + 2 else t + 1)
  }

  /** The inner loop over the matching commands of one colour. */
  function DispatchKeys(color: Color, keys: seq<KeyCommandRecord>, mods: seq<VirtualKeyCode>, held: Keyboard, t: nat): (r: Run)
    ensures t + |keys| <= r.next <= t + 2 * |keys|
    decreases |keys|
  {
    if keys == [] then Run([], t)
    else
      var here := Step(color, keys[0], mods, held, t);
      var rest := DispatchKeys(color, keys[1..], mods, held, here.next);
      Run(here.events + rest.events, rest.next)
  }

  lemma MulSucc(a: nat, w: nat)
    ensures (a + 1) * w == a * w + w
  {
  }

  /** The "no key attached" line logged for a colour nothing matches. */
  function Unmatched(color: Color, keys: seq<KeyCommandRecord>, dontRepeat: bool): (u: seq<Event>)
    ensures forall i :: 0 <= i < |u| ==> !IsKeyStroke(u[i]) && !IsMouse(u[i])
  {
    if keys == [] then [Log(NoKeyAttached(color), dontRepeat)] else []
  }

  /** One pass of the outer loop, for one sampled colour: the matching
      commands, or the "no key attached" line when there is none. */
  function ColorPass(color: Color, cmds: seq<KeyCommandRecord>, mods: seq<VirtualKeyCode>, held: Keyboard, t: nat): (r: Run)
    ensures t <= r.next <= t + 2 * |cmds|
  {
    var keys := Matching(cmds, color);
    var d := DispatchKeys(color, keys, mods, held, t);
    Run(Unmatched(color, keys, true) + d.events, d.next)
  }

  /** The outer loop over the sampled colours. */
  function DispatchColors(colors: seq<Color>, cmds: seq<KeyCommandRecord>, mods: seq<VirtualKeyCode>, held: Keyboard, t: nat): (r: Run)
    ensures t <= r.next <= t + |colors| * (2 * |cmds|)
    decreases |colors|
  {
    if colors == [] then Run([], t)
    else
      var here := ColorPass(colors[0], cmds, mods, held, t);
      var rest := DispatchColors(colors[1..], cmds, mods, held, here.next);
      MulSucc(|colors[1..]|, 2 * |cmds|);
      Run(here.events + rest.events, rest.next)
  }

  /** The line logged before sampling when the rotation has no command. */
  function EmptyNotice(cmds: seq<KeyCommandRecord>): (u: seq<Event>)
    ensures forall i :: 0 <= i < |u| ==> !IsKeyStroke(u[i]) && !IsMouse(u[i])
    ensures |u| <= 1 && (u != [] <==> cmds == [])
  {
    if cmds == [] then [Log(NoConfiguredKey, true)] else []
  }

  /** The running part of RotationTimerOnElapsed: a held guard key stops
      the tick before the screen is read; otherwise an empty rotation is
      reported, the distinct points are sampled and every colour is
      dispatched. */
  function TickTrace(cmds: seq<KeyCommandRecord>, screen: Point -> ColorRef, mods: seq<VirtualKeyCode>, held: Keyboard): seq<Event>
  {
    var g := FirstHeld(mods, held, 0);
    if g.Some? then [Log(GuardHeld(g.value), true)]
    else EmptyNotice(cmds) + DispatchColors(Sampled(Points(cmds), screen), cmds, mods, held, 1).events
  }

  /** The strokes of the commands, in order. */
  function StrokesOf(keys: seq<KeyCommandRecord>): (es: seq<Event>)
    ensures |es| == |keys|
    ensures forall i :: 0 <= i < |keys| ==> es[i] == KeyEvent(keys[i])
  {
    if keys == [] then [] else [KeyEvent(keys[0])] + StrokesOf(keys[1..])
  }

  /** For every colour in turn, the strokes of its matching commands. */
  function ExpectedStrokes(colors: seq<Color>, cmds: seq<KeyCommandRecord>): seq<Event>
  {
    if colors == [] then [] else StrokesOf(Matching(cmds, colors[0])) + ExpectedStrokes(colors[1..], cmds)
  }

  lemma {:induction false} KeyStrokesNone(s: seq<Event>)
    requires forall i :: 0 <= i < |s| ==> !IsKeyStroke(s[i])
    ensures KeyStrokes(s) == []
  {
    if s != [] {
      assert forall i :: 0 <= i < |s| - 1 ==> s[1..][i] == s[i + 1];
      KeyStrokesNone(s[1..]);
    }
  }

  lemma KeyStrokesSingle(e: Event)
    ensures KeyStrokes([e]) == if IsKeyStroke(e) then [e] else []
  {
    assert [e][1..] == [];
  }

  /** A free guard lets exactly the command's own stroke through. */
  lemma StepFree(color: Color, k: KeyCommandRecord, mods: seq<VirtualKeyCode>, held: Keyboard, t: nat)
    requires FirstHeld(mods, held, t).None?
    ensures KeyStrokes(Step(color, k, mods, held, t).events) == [KeyEvent(k)]
  {
    var log := Log(Pressing(color, k.modifierKey, k.key, k.name), false);
    var tail := MouseTail(k, held, t + 1);
    assert [log, KeyEvent(k)] == [log] + [KeyEvent(k)];
    KeyStrokesAppend([log, KeyEvent(k)], tail);
    KeyStrokesAppend([log], [KeyEvent(k)]);
    KeyStrokesSingle(log);
    KeyStrokesSingle(KeyEvent(k));
    KeyStrokesNone(tail);
  }

  /** With no guard key ever down, every matching command of the colour is
      stroked once, in list order. */
  lemma {:induction false} DispatchKeysFree(color: Color, keys: seq<KeyCommandRecord>, mods: seq<VirtualKeyCode>, held: Keyboard, t: nat)
    requires forall t', m :: m in mods ==> !held(t', m)
    ensures KeyStrokes(DispatchKeys(color, keys, mods, held, t).events) == StrokesOf(keys)
    decreases |keys|
  {
    if keys != [] {
      var here := Step(color, keys[0], mods, held, t);
      var rest := DispatchKeys(color, keys[1..], mods, held, here.next);
      KeyStrokesAppend(here.events, rest.events);
      StepFree(color, keys[0], mods, held, t);
      DispatchKeysFree(color, keys[1..], mods, held, here.next);
    }
  }

  lemma ColorPassFree(color: Color, cmds: seq<KeyCommandRecord>, mods: seq<VirtualKeyCode>, held: Keyboard, t: nat)
    requires forall t', m :: m in mods ==> !held(t', m)
    ensures KeyStrokes(ColorPass(color, cmds, mods, held, t).events) == StrokesOf(Matching(cmds, color))
  {
    var keys := Matching(cmds, color);
    var u := Unmatched(color, keys, true);
    var d := DispatchKeys(color, keys, mods, held, t);
    KeyStrokesAppend(u, d.events);
    KeyStrokesNone(u);
    DispatchKeysFree(color, keys, mods, held, t);
  }

  /** With no guard key ever down, the outer loop strokes, colour after
      colour, every matching command in list order. */
  lemma {:induction false} DispatchColorsFree(colors: seq<Color>, cmds: seq<KeyCommandRecord>, mods: seq<VirtualKeyCode>, held: Keyboard, t: nat)
    requires forall t', m :: m in mods ==> !held(t', m)
    ensures KeyStrokes(DispatchColors(colors, cmds, mods, held, t).events) == ExpectedStrokes(colors, cmds)
    decreases |colors|
  {
    if colors != [] {
      var here := ColorPass(colors[0], cmds, mods, held, t);
      var rest := DispatchColors(colors[1..], cmds, mods, held, here.next);
      KeyStrokesAppend(here.events, rest.events);
      ColorPassFree(colors[0], cmds, mods, held, t);
      DispatchColorsFree(colors[1..], cmds, mods, held, here.next);
    }
  }

  /** The whole tick with no guard key down: its strokes are those of the
      matching commands of every sampled colour, in order, so every
      matching command is pressed once per colour it matches. */
  lemma TickStrokesFree(cmds: seq<KeyCommandRecord>, screen: Point -> ColorRef, mods: seq<VirtualKeyCode>, held: Keyboard)
    requires forall t', m :: m in mods ==> !held(t', m)
    ensures KeyStrokes(TickTrace(cmds, screen, mods, held)) == ExpectedStrokes(Sampled(Points(cmds), screen), cmds)
  {
    var colors := Sampled(Points(cmds), screen);
    var run := DispatchColors(colors, cmds, mods, held, 1);
    KeyStrokesAppend(EmptyNotice(cmds), run.events);
    KeyStrokesNone(EmptyNotice(cmds));
    DispatchColorsFree(colors, cmds, mods, held, 1);
  }

  /** The only stroke a step sends is its command's. */
  lemma StepSound(color: Color, k: KeyCommandRecord, mods: seq<VirtualKeyCode>, held: Keyboard, t: nat)
    ensures forall e :: e in Step(color, k, mods, held, t).events && IsKeyStroke(e) ==> e == KeyEvent(k)
  {
    var tail := MouseTail(k, held, t + 1);
    forall e | e in tail ensures !IsKeyStroke(e) {
      var i :| 0 <= i < |tail| && tail[i] == e;
    }
  }

  /** Every stroke the inner loop sends is the stroke of one of the
      matching commands. */
  lemma {:induction false} DispatchKeysSound(color: Color, keys: seq<KeyCommandRecord>, mods: seq<VirtualKeyCode>, held: Keyboard, t: nat)
    ensures forall e :: e in DispatchKeys(color, keys, mods, held, t).events && IsKeyStroke(e) ==>
      exists k :: k in keys && e == KeyEvent(k)
    decreases |keys|
  {
    if keys != [] {
      var here := Step(color, keys[0], mods, held, t);
      var rest := DispatchKeys(color, keys[1..], mods, held, here.next);
      StepSound(color, keys[0], mods, held, t);
      DispatchKeysSound(color, keys[1..], mods, held, here.next);
      forall e | e in here.events + rest.events && IsKeyStroke(e)
        ensures exists k :: k in keys && e == KeyEvent(k)
      {
        if e in rest.events {
          var k :| k in keys[1..] && e == KeyEvent(k);
          assert k in keys;
        } else {
          assert keys[0] in keys;
        }
      }
    }
  }

  /** Every stroke of one colour's pass comes from a command whose colour
      is equivalent to it. */
  lemma ColorPassSound(color: Color, cmds: seq<KeyCommandRecord>, mods: seq<VirtualKeyCode>, held: Keyboard, t: nat)
    ensures forall e :: e in ColorPass(color, cmds, mods, held, t).events && IsKeyStroke(e) ==>
      exists k :: k in cmds && AreEquivalent(RecordColor(k), color) && e == KeyEvent(k)
  {
    var keys := Matching(cmds, color);
    var u := Unmatched(color, keys, true);
    var d := DispatchKeys(color, keys, mods, held, t);
    DispatchKeysSound(color, keys, mods, held, t);
    forall e | e in u + d.events && IsKeyStroke(e)
      ensures exists k :: k in cmds && AreEquivalent(RecordColor(k), color) && e == KeyEvent(k)
    {
      if e in d.events {
        var k :| k in keys && e == KeyEvent(k);
      } else {
        assert false;
      }
    }
  }

  /** A stroke is explained by a command whose colour is equivalent to one
      of the sampled colours. */
  predicate Explained(e: Event, cmds: seq<KeyCommandRecord>, colors: seq<Color>)
  {
    exists k, c :: k in cmds && c in colors && AreEquivalent(RecordColor(k), c) && e == KeyEvent(k)
  }

  /** Every stroke of the outer loop comes from a command whose colour is
      equivalent to one of the sampled colours. */
  lemma {:induction false} DispatchColorsSound(colors: seq<Color>, cmds: seq<KeyCommandRecord>, mods: seq<VirtualKeyCode>, held: Keyboard, t: nat)
    ensures forall e :: e in DispatchColors(colors, cmds, mods, held, t).events && IsKeyStroke(e) ==> Explained(e, cmds, colors)
    decreases |colors|
  {
    if colors != [] {
      var here := ColorPass(colors[0], cmds, mods, held, t);
      var rest := DispatchColors(colors[1..], cmds, mods, held, here.next);
      ColorPassSound(colors[0], cmds, mods, held, t);
      DispatchColorsSound(colors[1..], cmds, mods, held, here.next);
      forall e | e in here.events + rest.events && IsKeyStroke(e)
        ensures Explained(e, cmds, colors)
      {
        if e in here.events {
          var k :| k in cmds && AreEquivalent(RecordColor(k), colors[0]) && e == KeyEvent(k);
          assert colors[0] in colors;
        } else {
          var k, c :| k in cmds && c in colors[1..] && AreEquivalent(RecordColor(k), c) && e == KeyEvent(k);
          assert c in colors;
        }
      }
    }
  }

  /** Soundness of the tick: a stroke is only ever sent for a command whose
      colour is equivalent to the colour read at one of the points. */
  lemma TickSound(cmds: seq<KeyCommandRecord>, screen: Point -> ColorRef, mods: seq<VirtualKeyCode>, held: Keyboard)
    ensures forall e :: e in TickTrace(cmds, screen, mods, held) && IsKeyStroke(e) ==> Explained(e, cmds, Sampled(Points(cmds), screen))
  {
    var colors := Sampled(Points(cmds), screen);
    var run := DispatchColors(colors, cmds, mods, held, 1);
    if FirstHeld(mods, held, 0).None? {
      assert TickTrace(cmds, screen, mods, held) == EmptyNotice(cmds) + run.events;
      DispatchColorsSound(colors, cmds, mods, held, 1);
      forall e | e in EmptyNotice(cmds) + run.events && IsKeyStroke(e)
        ensures Explained(e, cmds, colors)
      {
        if e !in run.events {
          assert false;
        }
      }
    }
  }

  /** A guard key that stays down from probe t on lets no command through:
      the inner loop only logs warnings. */
  lemma {:induction false} DispatchKeysHeld(color: Color, keys: seq<KeyCommandRecord>, mods: seq<VirtualKeyCode>, held: Keyboard, t: nat)
    requires forall t' :: t' >= t ==> FirstHeld(mods, held, t').Some?
    ensures forall e :: e in DispatchKeys(color, keys, mods, held, t).events ==> e.Log? && e.message.GuardHeld?
    decreases |keys|
  {
    if keys != [] {
      DispatchKeysHeld(color, keys[1..], mods, held, t + 1);
    }
  }

  /** A guard key down at the first probe: the screen is not read and
      nothing is sent; the only event is the warning. */
  lemma TickHeld(cmds: seq<KeyCommandRecord>, screen: Point -> ColorRef, mods: seq<VirtualKeyCode>, held: Keyboard, m: VirtualKeyCode)
    requires FirstHeld(mods, held, 0) == Some(m)
    ensures TickTrace(cmds, screen, mods, held) == [Log(GuardHeld(m), true)]
  {
  }

  /** Mouse actions only ever follow a command that asks for a click. */
  lemma {:induction false} DispatchKeysNoClick(color: Color, keys: seq<KeyCommandRecord>, mods: seq<VirtualKeyCode>, held: Keyboard, t: nat)
    requires forall k :: k in keys ==> !k.needMouseClick
    ensures forall e :: e in DispatchKeys(color, keys, mods, held, t).events ==> !IsMouse(e)
    decreases |keys|
  {
    if keys != [] {
      assert keys[0] in keys;
      DispatchKeysNoClick(color, keys[1..], mods, held, t + 1);
    }
  }

  lemma {:induction false} DispatchColorsNoClick(colors: seq<Color>, cmds: seq<KeyCommandRecord>, mods: seq<VirtualKeyCode>, held: Keyboard, t: nat)
    requires forall k :: k in cmds ==> !k.needMouseClick
    ensures forall e :: e in DispatchColors(colors, cmds, mods, held, t).events ==> !IsMouse(e)
    decreases |colors|
  {
    if colors != [] {
      var keys := Matching(cmds, colors[0]);
      var u := Unmatched(colors[0], keys, true);
      var here := ColorPass(colors[0], cmds, mods, held, t);
      DispatchKeysNoClick(colors[0], keys, mods, held, t);
      DispatchColorsNoClick(colors[1..], cmds, mods, held, here.next);
      forall e | e in u ensures !IsMouse(e) {
        var i :| 0 <= i < |u| && u[i] == e;
      }
    }
  }

  /** A rotation none of whose commands asks for a click never touches the
      mouse. */
  lemma TickNoClick(cmds: seq<KeyCommandRecord>, screen: Point -> ColorRef, mods: seq<VirtualKeyCode>, held: Keyboard)
    requires forall k :: k in cmds ==> !k.needMouseClick
    ensures forall e :: e in TickTrace(cmds, screen, mods, held) ==> !IsMouse(e)
  {
    DispatchColorsNoClick(Sampled(Points(cmds), screen), cmds, mods, held, 1);
    forall e | e in EmptyNotice(cmds) ensures !IsMouse(e) {
      var i :| 0 <= i < |EmptyNotice(cmds)| && EmptyNotice(cmds)[i] == e;
    }
  }

  /** An empty rotation, with the guard free, logs that it has no key and
      does nothing else. */
  lemma TickEmpty(screen: Point -> ColorRef, mods: seq<VirtualKeyCode>, held: Keyboard)
    requires FirstHeld(mods, held, 0).None?
    ensures TickTrace([], screen, mods, held) == [Log(NoConfiguredKey, true)]
  {
    assert Points([]) == [];
  }

  /** The older tick: no guard key; every matching command is logged and
      pressed as a plain key, its modifier and click flag ignored. */
  function LegacyPresses(color: Color, keys: seq<KeyCommandRecord>): seq<Event>
  {
    if keys == [] then []
    else [Log(PressingKey(color, keys[0].key), false), KeyPress(keys[0].key)] + LegacyPresses(color, keys[1..])
  }

  function LegacyColorPass(color: Color, cmds: seq<KeyCommandRecord>): seq<Event>
  {
    var keys := Matching(cmds, color);
    Unmatched(color, keys, false) + LegacyPresses(color, keys)
  }

  function LegacyDispatch(colors: seq<Color>, cmds: seq<KeyCommandRecord>): seq<Event>
  {
    if colors == [] then [] else LegacyColorPass(colors[0], cmds) + LegacyDispatch(colors[1..], cmds)
  }

  /** The older RotationTimerCallback body once it runs. */
  function LegacyTickTrace(cmds: seq<KeyCommandRecord>, screen: Point -> ColorRef): seq<Event>
  {
    LegacyDispatch(Sampled(Points(cmds), screen), cmds)
  }

  /** The older tick presses the key of every matching command, in order. */
  lemma {:induction false} LegacyPressesStrokes(color: Color, keys: seq<KeyCommandRecord>)
    ensures KeyStrokes(LegacyPresses(color, keys)) == seq(|keys|, i requires 0 <= i < |keys| => KeyPress(keys[i].key))
  {
    if keys != [] {
      var log := Log(PressingKey(color, keys[0].key), false);
      var press := KeyPress(keys[0].key);
      assert [log, press] == [log] + [press];
      KeyStrokesAppend([log, press], LegacyPresses(color, keys[1..]));
      KeyStrokesAppend([log], [press]);
      KeyStrokesSingle(log);
      KeyStrokesSingle(press);
      LegacyPressesStrokes(color, keys[1..]);
    }
  }

  /** Without modifiers a command's stroke is a plain press of its key. */
  lemma StrokesOfPlain(keys: seq<KeyCommandRecord>)
    requires forall k :: k in keys ==> k.modifierKey.None?
    ensures StrokesOf(keys) == seq(|keys|, i requires 0 <= i < |keys| => KeyPress(keys[i].key))
  {
    forall i | 0 <= i < |keys| ensures StrokesOf(keys)[i] == KeyPress(keys[i].key) {
      assert keys[i] in keys;
    }
  }

  lemma LegacyColorPassPlain(color: Color, cmds: seq<KeyCommandRecord>)
    requires forall k :: k in cmds ==> k.modifierKey.None?
    ensures KeyStrokes(LegacyColorPass(color, cmds)) == StrokesOf(Matching(cmds, color))
  {
    var keys := Matching(cmds, color);
    var u := Unmatched(color, keys, false);
    KeyStrokesAppend(u, LegacyPresses(color, keys));
    KeyStrokesNone(u);
    LegacyPressesStrokes(color, keys);
    StrokesOfPlain(keys);
  }

  /** When no command has a modifier, the older tick strokes the same keys
      in the same order as the newer one with the guard free. */
  lemma {:induction false} LegacyAgreesWithoutModifiers(colors: seq<Color>, cmds: seq<KeyCommandRecord>)
    requires forall k :: k in cmds ==> k.modifierKey.None?
    ensures KeyStrokes(LegacyDispatch(colors, cmds)) == ExpectedStrokes(colors, cmds)
    decreases |colors|
  {
    if colors != [] {
      KeyStrokesAppend(LegacyColorPass(colors[0], cmds), LegacyDispatch(colors[1..], cmds));
      LegacyColorPassPlain(colors[0], cmds);
      LegacyAgreesWithoutModifiers(colors[1..], cmds);
    }
  }

  /** The two generations press the same keys in the same order whenever
      no command has a modifier and no guard key is down. */
  lemma TickAgreesWithLegacy(cmds: seq<KeyCommandRecord>, screen: Point -> ColorRef, mods: seq<VirtualKeyCode>, held: Keyboard)
    requires forall k :: k in cmds ==> k.modifierKey.None?
    requires forall t', m :: m in mods ==> !held(t', m)
    ensures KeyStrokes(TickTrace(cmds, screen, mods, held)) == KeyStrokes(LegacyTickTrace(cmds, screen))
  {
    TickStrokesFree(cmds, screen, mods, held);
    LegacyAgreesWithoutModifiers(Sampled(Points(cmds), screen), cmds);
  }
}
