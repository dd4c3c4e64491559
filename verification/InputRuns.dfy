/** What whole runs of the input manager mean for the client: where its pointer is and on which surface, what it has
    scrolled, which buttons it holds, when a release waits, and what its keyboard is. Button codes, states and times are
    written out. */
module InputRuns {
  import opened MachineInts
  import opened Wrappers
  import opened InputQueue
  import opened PointerButtons

  function Init(actions: seq<Action>): seq<Action>
    requires actions != []
  {
    actions[..|actions| - 1]
  }

  function Last(actions: seq<Action>): Action
    requires actions != []
  {
    actions[|actions| - 1]
  }

  // ---- The laws ----

  /** The action queues an enter: the last event of its change of focus. */
  predicate Enters(a: Action) {
    && (a.Press? || a.Move? || a.Scroll?)
    && a.pointerFocus != [] && a.pointerFocus[|a.pointerFocus| - 1].PtrEnter?
  }

  function EnterOf(a: Action): Event
    requires Enters(a)
  {
    a.pointerFocus[|a.pointerFocus| - 1]
  }

  /** The position of the last press, move or grab, or of the enter before a scroll if that came later. */
  function PositionInRun(actions: seq<Action>): (int, int)
    decreases |actions|
  {
    if actions == [] then (0, 0)
    else
      var a := Last(actions);
      if a.Press? || a.Move? || a.Grab? then (a.x, a.y)
      else if Enters(a) then (EnterOf(a).x, EnterOf(a).y)
      else PositionInRun(Init(actions))
  }

  /** The surface entered last. */
  function TargetInRun(actions: seq<Action>): Option<Target>
    decreases |actions|
  {
    if actions == [] then None
    else if Enters(Last(actions)) then Some(EnterOf(Last(actions)).target)
    else TargetInRun(Init(actions))
  }

  /** The sum of what was scrolled along one axis: 0 is the vertical one, and any other number the horizontal one. */
  function ScrolledInRun(actions: seq<Action>, vertical: bool): int
    decreases |actions|
  {
    if actions == [] then 0
    else
      ScrolledInRun(Init(actions), vertical) +
      if Last(actions).Scroll? && (Last(actions).axis == 0 <==> vertical) then Last(actions).value else 0
  }

  /** The time of the last press of any button. */
  function LastPressInRun(actions: seq<Action>): u32
    decreases |actions|
  {
    if actions == [] then 0
    else if Last(actions).Press? && Last(actions).button != 0 then Last(actions).now
    else LastPressInRun(Init(actions))
  }

  /** The position of the last move. */
  function LocalInRun(actions: seq<Action>): Option<(int, int)>
    decreases |actions|
  {
    if actions == [] then None
    else if Last(actions).Move? then Some((Last(actions).x, Last(actions).y))
    else LocalInRun(Init(actions))
  }

  /** The distance of a move, if a client wants relative motion. */
  function Wanted(local: Option<(int, int)>, a: Action): (int, int) {
    if a.Move? && a.relative && local.Some? then (a.x - local.value.0, a.y - local.value.1) else (0, 0)
  }

  function Plus(d: (int, int), e: (int, int)): (int, int) {
    (d.0 + e.0, d.1 + e.1)
  }

  function Relative(c: Client): (int, int) {
    (c.relativeX, c.relativeY)
  }

  /** The sum of the distances of the moves for which a client wanted relative motion. */
  function RelativeInRun(actions: seq<Action>): (int, int)
    decreases |actions|
  {
    if actions == [] then (0, 0)
    else
      Plus(RelativeInRun(Init(actions)), Wanted(LocalInRun(Init(actions)), Last(actions)))
  }

  /** Left, right and middle. */
  predicate IsKnown(b: u32) {
    b == 0x110 || b == 0x111 || b == 0x112
  }

  /** The button was pressed and has not been released since, whether the release waits or not. */
  predicate HeldInRun(actions: seq<Action>, b: u32)
    decreases |actions|, 0
  {
    && actions != []
    && if Last(actions).Press? && Last(actions).button == b then true
       else if Last(actions).Release? && IsReleased(Init(actions), Last(actions).button, b) then false
       else HeldInRun(Init(actions), b)
  }

  /** A release of this button releases `b`: the button itself if it is known, otherwise the first that is held of left,
      right and middle, and otherwise again the button itself. */
  predicate IsReleased(actions: seq<Action>, button: u32, b: u32)
    decreases |actions|, 1
  {
    if IsKnown(button) then b == button
    else if HeldInRun(actions, 0x110) then b == 0x110
    else if HeldInRun(actions, 0x111) then b == 0x111
    else if HeldInRun(actions, 0x112) then b == 0x112
    else b == button
  }

  /** Less than a hundred milliseconds have passed since the last press, on a 32-bit clock. */
  predicate IsQuick(actions: seq<Action>, now: u32) {
    (now - LastPressInRun(actions)) % 0x1_0000_0000 < 100
  }

  /** The client saw the button pressed and has not seen it released since. */
  predicate ShownInRun(actions: seq<Action>, b: u32)
    requires Run(actions).Some?
    decreases |actions|
  {
    && actions != []
    && var init, a := Init(actions), Last(actions);
       if b != 0 && a.Press? && a.button == b then true
       else if a.Release? && IsReleased(init, a.button, b) && !IsQuick(init, a.now) then false
       else if a.DelayEnds? && Run(init).value.delayed[a.k] == b then false
       else ShownInRun(init, b)
  }

  // ---- What one action shows the client ----

  function Focused(c: Client, events: seq<Event>): Client
    requires PointerFocus(events)
  {
    if events == [] then c
    else var enter := events[|events| - 1]; c.(pointer := Some(enter.target), x := enter.x, y := enter.y)
  }

  lemma FocusReceived(c: Client, events: seq<Event>)
    requires PointerFocus(events)
    ensures ReceiveAll(c, events) == Focused(c, events)
  {
    if |events| == 1 {
      assert events == [events[0]];
      ReceiveOne(c, events[0]);
    } else if |events| == 2 {
      assert events == [events[0]] + [events[1]];
      ReceiveOne(c, events[0]);
      ReceiveSnoc(c, [events[0]], events[1]);
    }
  }

  /** Two clients that may disagree on the keyboard, and on nothing else. */
  predicate SamePointer(c: Client, d: Client) {
    c == d.(keyboard := c.keyboard, keys := c.keys, modifiers := c.modifiers)
  }

  lemma {:induction false} KeysReceived(c: Client, events: seq<Event>)
    requires KeyEvents(events)
    ensures SamePointer(ReceiveAll(c, events), c)
  {
    if events != [] {
      assert events[|events| - 1] in events && forall ev | ev in events[..|events| - 1] :: ev in events;
      KeysReceived(c, events[..|events| - 1]);
    }
  }

  /** Where the pointer goes, and what is scrolled. */
  predicate Placed(a: Action, v: Client, w: Client) {
    && (w.x, w.y) == (if a.Press? || a.Move? || a.Grab? then (a.x, a.y)
                      else if Enters(a) then (EnterOf(a).x, EnterOf(a).y) else (v.x, v.y))
    && w.pointer == (if Enters(a) then Some(EnterOf(a).target) else v.pointer)
    && w.scrolledVertically - v.scrolledVertically == (if a.Scroll? && a.axis == 0 then a.value else 0)
    && w.scrolledHorizontally - v.scrolledHorizontally == (if a.Scroll? && a.axis != 0 then a.value else 0)
  }

  lemma PressSeen(s: State, a: Action)
    requires a.Press? && Enabled(s, a)
    ensures Placed(a, View(s), View(After(s, a)))
  {
    var focused, moved := s.queue + a.pointerFocus, s.queue + a.pointerFocus + [PtrMotion(a.x, a.y)];
    var press := if a.button == 0 then [] else [PtrButton(a.button, PRESSED)];
    ReceiveAppend(s.client, s.queue, a.pointerFocus);
    FocusReceived(View(s), a.pointerFocus);
    ReceiveSnoc(s.client, focused, PtrMotion(a.x, a.y));
    ReceiveAppend(s.client, moved, press);
    ReceiveOne(ReceiveAll(s.client, moved), PtrButton(a.button, PRESSED));
    ReceiveAppend(s.client, moved + press, a.keyboardFocus);
    KeysReceived(ReceiveAll(s.client, moved + press), a.keyboardFocus);
  }

  lemma MoveSeen(s: State, a: Action)
    requires a.Move? && Enabled(s, a)
    ensures Placed(a, View(s), View(After(s, a)))
  {
    var moved := s.queue + Increment(s, a);
    IncrementInView(s, a);
    ReceiveAppend(s.client, s.queue, Increment(s, a));
    ReceiveAppend(s.client, moved, a.pointerFocus);
    FocusReceived(ReceiveAll(s.client, moved), a.pointerFocus);
    ReceiveSnoc(s.client, moved + a.pointerFocus, PtrMotion(a.x, a.y));
  }

  lemma ScrollSeen(s: State, a: Action)
    requires a.Scroll? && Enabled(s, a)
    ensures Placed(a, View(s), View(After(s, a)))
  {
    assert s.queue + (a.pointerFocus + [PtrAxis(a.axis, a.value)]) ==
           s.queue + a.pointerFocus + [PtrAxis(a.axis, a.value)];
    ReceiveAppend(s.client, s.queue, a.pointerFocus);
    FocusReceived(View(s), a.pointerFocus);
    ReceiveSnoc(s.client, s.queue + a.pointerFocus, PtrAxis(a.axis, a.value));
  }

  lemma ReleaseSeen(s: State, a: Action)
    requires (a.Release? || a.DelayEnds?) && Enabled(s, a)
    ensures Placed(a, View(s), View(After(s, a)))
  {
    if a.Release? {
      ReceiveSnoc(s.client, s.queue, PtrButton(ReleasedButton(s.pressed, a.button), RELEASED));
    } else {
      ReceiveSnoc(s.client, s.queue, PtrButton(s.delayed[a.k], RELEASED));
    }
  }

  lemma FlushSeen(s: State)
    requires Settled(s.queue)
    ensures Placed(Flush, View(s), View(After(s, Flush)))
  {
    SliceIsExact(s.client, s.queue, 0, |s.queue|);
    assert s.queue[0..|s.queue|] == s.queue;
  }

  lemma KeysSeen(s: State, a: Action)
    requires a.Keys? && Enabled(s, a)
    ensures Placed(a, View(s), View(After(s, a)))
  {
    ReceiveAppend(s.client, s.queue, a.events);
    KeysReceived(View(s), a.events);
  }

  lemma PlaceStep(s: State, a: Action)
    requires Enabled(s, a) && Settled(s.queue)
    ensures Placed(a, View(s), View(After(s, a)))
  {
    match a
    case Press(_, _, _, _, _, _) => PressSeen(s, a);
    case Move(_, _, _, _) => MoveSeen(s, a);
    case Grab(x, y) => ReceiveSnoc(s.client, s.queue, PtrMotion(x, y));
    case Scroll(_, _, _) => ScrollSeen(s, a);
    case Keys(_) => KeysSeen(s, a);
    case Flush => FlushSeen(s);
    case _ => ReleaseSeen(s, a);
  }

  // ---- Runs ----

  /** After every run the client's pointer is exactly where the last press, move or grab put it, or the enter of a later
      scroll; it is on the surface entered last; and what was scrolled has all arrived, merged or not. */
  lemma {:induction false} PointerInRun(actions: seq<Action>)
    requires Run(actions).Some?
    ensures var v := View(Run(actions).value);
            && (v.x, v.y) == PositionInRun(actions)
            && v.pointer == TargetInRun(actions)
            && v.scrolledVertically == ScrolledInRun(actions, true)
            && v.scrolledHorizontally == ScrolledInRun(actions, false)
    decreases |actions|
  {
    if actions != [] {
      PointerInRun(Init(actions));
      AlwaysSettled(Init(actions));
      PlaceStep(Run(Init(actions)).value, Last(actions));
    }
  }

  /** What the input manager remembers between its calls: the time of the last press and the place of the last move. */
  lemma {:induction false} MemoryInRun(actions: seq<Action>)
    requires Run(actions).Some?
    ensures Run(actions).value.lastPress == LastPressInRun(actions)
    ensures Run(actions).value.local == LocalInRun(actions)
    decreases |actions|
  {
    if actions != [] {
      MemoryInRun(Init(actions));
    }
  }

  lemma ReleaseRelative(s: State, a: Action)
    requires (a.Release? || a.DelayEnds?) && Enabled(s, a)
    ensures Relative(View(After(s, a))) == Relative(View(s))
  {
    if a.Release? {
      assert After(s, a) == AfterRelease(s, a);
      ReceiveSnoc(s.client, s.queue, PtrButton(ReleasedButton(s.pressed, a.button), RELEASED));
    } else {
      ReceiveSnoc(s.client, s.queue, PtrButton(s.delayed[a.k], RELEASED));
    }
  }

  lemma OthersRelative(s: State, a: Action)
    requires !a.Move? && Enabled(s, a)
    ensures Relative(View(After(s, a))) == Relative(View(s))
  {
    match a
    case Press(_, _, _, _, _, _) => PressInView(s, a);
    case Release(_, _) => ReleaseRelative(s, a);
    case DelayEnds(_) => ReleaseRelative(s, a);
    case Flush => FlushInView(s);
    case _ => QuietInView(s, a);
  }

  lemma RelativeStep(s: State, a: Action)
    requires Enabled(s, a)
    ensures Relative(View(After(s, a))) == Plus(Relative(View(s)), Wanted(s.local, a))
  {
    if a.Move? {
      MoveInView(s, a);
    } else {
      OthersRelative(s, a);
    }
  }

  /** The client has added up exactly the wanted distances. */
  lemma {:induction false} RelativeMotionInRun(actions: seq<Action>)
    requires Run(actions).Some?
    ensures Relative(View(Run(actions).value)) == RelativeInRun(actions)
    decreases |actions|
  {
    if actions != [] {
      var s := Run(Init(actions)).value;
      RelativeMotionInRun(Init(actions));
      assert s.local == LocalInRun(Init(actions)) by {
        MemoryInRun(Init(actions));
      }
      RelativeStep(s, Last(actions));
    }
  }

  lemma NoIdleStep(s: State, a: Action)
    requires Enabled(s, a) && RelMotion(0, 0) !in s.queue
    ensures RelMotion(0, 0) !in After(s, a).queue
  {
    var idle := RelMotion(0, 0);
    match a
    case Press(_, _, _, pointerFocus, keyboardFocus, _) => assert idle !in pointerFocus && idle !in keyboardFocus;
    case Move(_, _, _, pointerFocus) => assert idle !in pointerFocus && idle !in Increment(s, a);
    case Scroll(_, _, pointerFocus) => assert idle !in pointerFocus;
    case Keys(events) => assert idle !in events;
    case _ =>
  }

  /** No motion of no distance is ever queued. */
  lemma {:induction false} NoIdleMotion(actions: seq<Action>)
    requires Run(actions).Some?
    ensures RelMotion(0, 0) !in Run(actions).value.queue
    decreases |actions|
  {
    if actions != [] {
      NoIdleMotion(Init(actions));
      NoIdleStep(Run(Init(actions)).value, Last(actions));
    }
  }

  predicate MaskIsHeld(actions: seq<Action>)
    requires Run(actions).Some?
  {
    var s := Run(actions).value;
    && s.pressed <= {0, 1, 2}
    && (InMask(s, 0x110) <==> HeldInRun(actions, 0x110))
    && (InMask(s, 0x111) <==> HeldInRun(actions, 0x111))
    && (InMask(s, 0x112) <==> HeldInRun(actions, 0x112))
  }

  lemma HeldStep(actions: seq<Action>)
    requires Run(actions).Some? && actions != [] && MaskIsHeld(Init(actions))
    ensures MaskIsHeld(actions)
  {
    var init, a := Init(actions), Last(actions);
    var s := Run(init).value;
    if a.Press? {
      assert After(s, a).pressed == AfterPress(s, a).pressed;
    } else if a.Release? {
      assert After(s, a).pressed == s.pressed - {ButtonToBit(ReleasedButton(s.pressed, a.button))};
    } else {
      assert After(s, a).pressed == s.pressed;
    }
  }

  /** The mask holds exactly the known buttons that are held. */
  lemma {:induction false} HeldIff(actions: seq<Action>)
    requires Run(actions).Some?
    ensures MaskIsHeld(actions)
    decreases |actions|
  {
    if actions != [] {
      HeldIff(Init(actions));
      HeldStep(actions);
    }
  }

  lemma ReleasedIs(actions: seq<Action>, button: u32, b: u32)
    requires Run(actions).Some?
    ensures IsReleased(actions, button, b) <==> b == ReleasedButton(Run(actions).value.pressed, button)
  {
    HeldIff(actions);
  }

  /** After any run a release names its button, unless there is none to name: within a hundred milliseconds of the last
      press it waits, and otherwise it is queued at once. */
  lemma ReleaseWaitsIff(actions: seq<Action>, button: u32, b: u32, now: u32)
    requires Run(actions).Some? && IsReleased(actions, button, b)
    ensures var s := Run(actions).value;
            var t := After(s, Release(button, now));
            && t.delayed == (if b != 0 && IsQuick(actions, now) then s.delayed + [b] else s.delayed)
            && t.queue == (if b != 0 && !IsQuick(actions, now) then s.queue + [PtrButton(b, 0)] else s.queue)
  {
    var s, a := Run(actions).value, Release(button, now);
    assert HeldFor(s, now) < 100 <==> IsQuick(actions, now) by {
      MemoryInRun(actions);
    }
    assert b == ReleasedButton(s.pressed, button) by {
      ReleasedIs(actions, button, b);
    }
    ReleaseOf(s, a);
    assert After(s, a) == AfterRelease(s, a);
  }

  lemma ReleaseOf(s: State, a: Action)
    requires a.Release?
    ensures var b, t, quick := ReleasedButton(s.pressed, a.button), AfterRelease(s, a), HeldFor(s, a.now) < 100;
            && t.delayed == (if b != 0 && quick then s.delayed + [b] else s.delayed)
            && t.queue == (if b != 0 && !quick then s.queue + [PtrButton(b, 0)] else s.queue)
  {
  }

  lemma ReleaseShown(actions: seq<Action>, button: u32, b: u32, now: u32)
    requires Run(actions).Some?
    ensures var s := Run(actions).value;
            var v, w := View(s).buttons, View(After(s, Release(button, now))).buttons;
            && w <= v
            && (b != 0 ==> (b in w <==> b in v && !(IsReleased(actions, button, b) && !IsQuick(actions, now))))
  {
    var s := Run(actions).value;
    assert HeldFor(s, now) < 100 <==> IsQuick(actions, now) by {
      MemoryInRun(actions);
    }
    ReleasedIs(actions, button, b);
    assert View(After(s, Release(button, now))) == View(AfterRelease(s, Release(button, now)));
    ReleaseInView(s, Release(button, now));
  }

  lemma {:induction false} ShownStep(actions: seq<Action>, b: u32)
    requires Run(actions).Some? && actions != []
    requires b in View(Run(Init(actions)).value).buttons <==> ShownInRun(Init(actions), b)
    requires 0 !in View(Run(Init(actions)).value).buttons
    ensures b in View(Run(actions).value).buttons <==> ShownInRun(actions, b)
    ensures 0 !in View(Run(actions).value).buttons
  {
    var init, a := Init(actions), Last(actions);
    var s := Run(init).value;
    match a
    case Press(_, _, _, _, _, _) => PressInView(s, a);
    case Release(button, now) => ReleaseShown(init, button, b, now);
    case Move(_, _, _, _) => MoveInView(s, a);
    case DelayEnds(k) => DelayInView(s, k);
    case Flush => FlushInView(s);
    case _ => QuietInView(s, a);
  }

  /** The client holds a button, known or not, exactly if the last press, release or end of a delay that reached it was
      a press. */
  lemma {:induction false} ShownIff(actions: seq<Action>, b: u32)
    requires Run(actions).Some?
    ensures b in View(Run(actions).value).buttons <==> ShownInRun(actions, b)
    ensures 0 !in View(Run(actions).value).buttons
    decreases |actions|
  {
    if actions != [] {
      ShownIff(Init(actions), b);
      ShownStep(actions, b);
    }
  }

  // ---- The keyboard ----

  predicate IsKeyboard(ev: Event) {
    ev.KbdEnter? || ev.KbdLeave? || ev.KbdKey? || ev.KbdModifiers?
  }

  /** The keyboard events of a run, in order. */
  function KeyboardInRun(actions: seq<Action>): seq<Event>
    decreases |actions|
  {
    if actions == [] then [] else KeyboardInRun(Init(actions)) + KeyboardOf(Last(actions))
  }

  function KeyboardOf(a: Action): seq<Event> {
    if a.Keys? then a.events else if a.Press? then a.keyboardFocus else []
  }

  /** The key was pressed, and since then it has not been released and the focus has not changed. */
  predicate IsDown(events: seq<Event>, key: u32)
    decreases |events|
  {
    && events != []
    && match events[|events| - 1]
       case KbdKey(k, state) => if k == key then state == 1 else IsDown(events[..|events| - 1], key)
       case KbdEnter(_) => false
       case KbdLeave => false
       case _ => IsDown(events[..|events| - 1], key)
  }

  function LastFocus(events: seq<Event>): Option<Target>
    decreases |events|
  {
    if events == [] then None
    else
      match events[|events| - 1]
      case KbdEnter(target) => Some(target)
      case KbdLeave => None
      case _ => LastFocus(events[..|events| - 1])
  }

  function LastModifiers(events: seq<Event>): (u32, u32, u32, u32)
    decreases |events|
  {
    if events == [] then (0, 0, 0, 0)
    else
      match events[|events| - 1]
      case KbdModifiers(depressed, latched, locked, group) => (depressed, latched, locked, group)
      case _ => LastModifiers(events[..|events| - 1])
  }

  lemma {:induction false} KeyboardAfter(events: seq<Event>, key: u32)
    ensures var c := ReceiveAll(NOBODY, events);
            && c.keyboard == LastFocus(events) && c.modifiers == LastModifiers(events)
            && (key in c.keys <==> IsDown(events, key))
  {
    if events != [] {
      KeyboardAfter(events[..|events| - 1], key);
    }
  }

  predicate SameKeyboard(c: Client, d: Client) {
    c.keyboard == d.keyboard && c.keys == d.keys && c.modifiers == d.modifiers
  }

  lemma {:induction false} KeyboardIsItsOwn(c: Client, d: Client, events: seq<Event>)
    requires SameKeyboard(c, d)
    ensures SameKeyboard(ReceiveAll(c, events), ReceiveAll(d, events))
  {
    if events != [] {
      KeyboardIsItsOwn(c, d, events[..|events| - 1]);
    }
  }

  lemma {:induction false} OthersKeepKeyboard(c: Client, events: seq<Event>)
    requires forall k | 0 <= k < |events| :: !IsKeyboard(events[k])
    ensures SameKeyboard(ReceiveAll(c, events), c)
  {
    if events != [] {
      OthersKeepKeyboard(c, events[..|events| - 1]);
    }
  }

  /** What an action queues before its keyboard events. */
  function PointerOf(s: State, a: Action): seq<Event>
    requires Enabled(s, a) && !a.Flush?
  {
    if a.Press? then
      a.pointerFocus + [PtrMotion(a.x, a.y)] + if a.button == 0 then [] else [PtrButton(a.button, PRESSED)]
    else if a.Keys? then []
    else After(s, a).queue[|s.queue|..]
  }

  lemma QueuedInTwo(s: State, a: Action)
    requires Enabled(s, a) && !a.Flush?
    ensures After(s, a).queue == s.queue + PointerOf(s, a) + KeyboardOf(a) && After(s, a).client == s.client
  {
  }

  lemma PointerIsNoKeyboard(s: State, a: Action)
    requires Enabled(s, a) && !a.Flush?
    ensures forall k | 0 <= k < |PointerOf(s, a)| :: !IsKeyboard(PointerOf(s, a)[k])
  {
  }

  lemma KeyboardStep(s: State, a: Action, events: seq<Event>)
    requires Enabled(s, a) && SameKeyboard(View(s), ReceiveAll(NOBODY, events))
    ensures SameKeyboard(View(After(s, a)), ReceiveAll(NOBODY, events + KeyboardOf(a)))
  {
    if a.Flush? {
      MergeKeepsTheRest(s.client, s.queue);
      assert events + KeyboardOf(a) == events;
    } else {
      var pointer := PointerOf(s, a);
      QueuedInTwo(s, a);
      PointerIsNoKeyboard(s, a);
      ReceiveAppend(s.client, s.queue, pointer);
      OthersKeepKeyboard(View(s), pointer);
      ReceiveAppend(s.client, s.queue + pointer, KeyboardOf(a));
      KeyboardIsItsOwn(ReceiveAll(View(s), pointer), ReceiveAll(NOBODY, events), KeyboardOf(a));
      ReceiveAppend(NOBODY, events, KeyboardOf(a));
    }
  }

  lemma {:induction false} KeyboardFollows(actions: seq<Action>)
    requires Run(actions).Some?
    ensures SameKeyboard(View(Run(actions).value), ReceiveAll(NOBODY, KeyboardInRun(actions)))
    decreases |actions|
  {
    if actions != [] {
      KeyboardFollows(Init(actions));
      KeyboardStep(Run(Init(actions)).value, Last(actions), KeyboardInRun(Init(actions)));
    }
  }

  /** In every run the client's keyboard is on the surface entered last, with the last modifiers, and a key is down
      exactly if it was pressed and neither released nor left since, merged or not. */
  lemma KeyboardIsInRun(actions: seq<Action>, key: u32)
    requires Run(actions).Some?
    ensures var v, events := View(Run(actions).value), KeyboardInRun(actions);
            && v.keyboard == LastFocus(events) && v.modifiers == LastModifiers(events)
            && (key in v.keys <==> IsDown(events, key))
  {
    KeyboardFollows(actions);
    KeyboardAfter(KeyboardInRun(actions), key);
  }
}
