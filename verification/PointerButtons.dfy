/** The pointer side of the input manager: which buttons it believes are held, which button and relative-motion events
    it queues, and what the client makes of them, over whole runs with delayed releases. */
module PointerButtons {
  import opened MachineInts
  import opened Wrappers
  import opened InputQueue

  const BTN_LEFT: u32 := 0x110
  const BTN_RIGHT: u32 := 0x111
  const BTN_MIDDLE: u32 := 0x112
  const UNKNOWN := 99
  const MIN_PRESS_MS := 100

  const KNOWN: set<u32> := {BTN_LEFT, BTN_RIGHT, BTN_MIDDLE}

  function ButtonToBit(button: u32): nat {
    if button == BTN_LEFT then 0 else if button == BTN_RIGHT then 1 else if button == BTN_MIDDLE then 2 else UNKNOWN
  }

  function BitToButton(bit: nat): u32 {
    if bit == 0 then BTN_LEFT else if bit == 1 then BTN_RIGHT else if bit == 2 then BTN_MIDDLE else 0
  }

  /** The two tables are inverse to each other on the known buttons, and tell every other button and bit apart. */
  lemma ButtonsAndBits(button: u32, bit: nat)
    ensures ButtonToBit(button) < 32 <==> button in KNOWN
    ensures button in KNOWN ==> BitToButton(ButtonToBit(button)) == button
    ensures BitToButton(bit) != 0 <==> bit < 3
    ensures bit < 3 ==> ButtonToBit(BitToButton(bit)) == bit
  {
  }

  // ---- What the input manager does ----

  /** The mask of held buttons is the set of its bits; a position is in the units of `wl_fixed_t`. `delayed` holds the
      releases that sleeping threads will queue, and `client` what has been sent so far. */
  datatype State = State(
    pressed: set<nat>, queue: seq<Event>, delayed: seq<u32>, lastPress: u32, local: Option<(int, int)>, client: Client)

  const NOBODY := Client(None, 0, 0, {}, None, {}, (0, 0, 0, 0), 0, 0, 0, 0)
  const START := State({}, [], [], 0, None, NOBODY)

  /** What the entry points do. `pointerFocus` and `keyboardFocus` are the events that a change of focus queues, if
      there is one; `Grab` is the motion during an interactive move, and `Keys` whatever a key event queues. */
  datatype Action =
    | Press(button: u32, x: int, y: int, pointerFocus: seq<Event>, keyboardFocus: seq<Event>, now: u32)
    | Release(button: u32, now: u32)
    | Move(x: int, y: int, relative: bool, pointerFocus: seq<Event>)
    | Grab(x: int, y: int)
    | Scroll(axis: int, value: int, pointerFocus: seq<Event>)
    | Keys(events: seq<Event>)
    | DelayEnds(k: nat)
    | Flush

  /** An enter, with a leave before it if another surface had the pointer. */
  predicate PointerFocus(events: seq<Event>) {
    || events == []
    || (|events| == 1 && events[0].PtrEnter?)
    || (|events| == 2 && events[0].PtrLeave? && events[1].PtrEnter?)
  }

  predicate KeyEvents(events: seq<Event>) {
    forall ev | ev in events :: ev.KbdEnter? || ev.KbdLeave? || ev.KbdKey? || ev.KbdModifiers?
  }

  predicate Enabled(s: State, a: Action) {
    match a
    case Press(_, _, _, pointerFocus, keyboardFocus, _) => PointerFocus(pointerFocus) && KeyEvents(keyboardFocus)
    case Move(_, _, _, pointerFocus) => PointerFocus(pointerFocus)
    case Scroll(_, _, pointerFocus) => PointerFocus(pointerFocus)
    case Keys(events) => KeyEvents(events)
    case DelayEnds(k) => k < |s.delayed|
    case _ => true
  }

  function Lowest(pressed: set<nat>): nat {
    if 0 in pressed then 0 else if 1 in pressed then 1 else 2
  }

  /** A release without a known button stands for the lowest held one. */
  function ReleasedButton(pressed: set<nat>, button: u32): u32 {
    if ButtonToBit(button) >= 32 && pressed != {} then BitToButton(Lowest(pressed)) else button
  }

  /** The milliseconds since the last press, on a 32-bit clock. */
  function HeldFor(s: State, now: u32): u32 {
    (now - s.lastPress) % 0x1_0000_0000
  }

  function AfterPress(s: State, a: Action): State
    requires a.Press?
  {
    var press := if a.button == 0 then [] else [PtrButton(a.button, PRESSED)];
    s.(queue := s.queue + a.pointerFocus + [PtrMotion(a.x, a.y)] + press + a.keyboardFocus,
       pressed := if ButtonToBit(a.button) < 32 then s.pressed + {ButtonToBit(a.button)} else s.pressed,
       lastPress := if a.button == 0 then s.lastPress else a.now)
  }

  function AfterRelease(s: State, a: Action): State
    requires a.Release?
  {
    var released := ReleasedButton(s.pressed, a.button);
    var t := s.(pressed := s.pressed - {ButtonToBit(released)});
    if released == 0 then t
    else if HeldFor(s, a.now) < MIN_PRESS_MS then t.(delayed := t.delayed + [released])
    else t.(queue := t.queue + [PtrButton(released, RELEASED)])
  }

  /** The relative motion of a move, if a client wants it and there is any. */
  function Increment(s: State, a: Action): seq<Event>
    requires a.Move?
  {
    if a.relative && s.local.Some? && (a.x, a.y) != s.local.value
    then [RelMotion(a.x - s.local.value.0, a.y - s.local.value.1)] else []
  }

  function AfterMove(s: State, a: Action): State
    requires a.Move?
  {
    s.(queue := s.queue + Increment(s, a) + a.pointerFocus + [PtrMotion(a.x, a.y)], local := Some((a.x, a.y)))
  }

  function After(s: State, a: Action): State
    requires Enabled(s, a)
  {
    match a
    case Press(_, _, _, _, _, _) => AfterPress(s, a)
    case Release(_, _) => AfterRelease(s, a)
    case Move(_, _, _, _) => AfterMove(s, a)
    case Grab(x, y) => s.(queue := s.queue + [PtrMotion(x, y)])
    case Scroll(axis, value, pointerFocus) => s.(queue := s.queue + (pointerFocus + [PtrAxis(axis, value)]))
    case Keys(events) => s.(queue := s.queue + events)
    case DelayEnds(k) =>
      s.(delayed := s.delayed[..k] + s.delayed[k + 1..], queue := s.queue + [PtrButton(s.delayed[k], RELEASED)])
    case Flush => s.(queue := [], client := ReceiveAll(s.client, Merge(s.queue)))
  }

  // ---- What the client will have seen ----

  /** The client once everything queued has arrived. */
  function View(s: State): Client {
    ReceiveAll(s.client, s.queue)
  }

  lemma {:induction false} ReceiveAppend(c: Client, a: seq<Event>, b: seq<Event>)
    ensures ReceiveAll(c, a + b) == ReceiveAll(ReceiveAll(c, a), b)
    decreases |b|
  {
    if b == [] {
      assert a + b == a;
    } else {
      ReceiveAppend(c, a, b[..|b| - 1]);
      assert (a + b)[..|a + b| - 1] == a + b[..|b| - 1];
    }
  }

  predicate FocusOnly(events: seq<Event>) {
    forall ev | ev in events :: !ev.PtrButton? && !ev.RelMotion?
  }

  predicate SameButtonsAndMotion(c: Client, d: Client) {
    c.buttons == d.buttons && c.relativeX == d.relativeX && c.relativeY == d.relativeY
  }

  lemma {:induction false} FocusChangesNothing(c: Client, events: seq<Event>)
    requires FocusOnly(events)
    ensures SameButtonsAndMotion(ReceiveAll(c, events), c)
  {
    if events != [] {
      assert forall ev | ev in events[..|events| - 1] :: ev in events;
      FocusChangesNothing(c, events[..|events| - 1]);
    }
  }

  lemma ReceiveOne(c: Client, ev: Event)
    ensures ReceiveAll(c, [ev]) == Receive(c, ev)
  {
    ReceiveSnoc(c, [], ev);
  }

  lemma PressInView(s: State, a: Action)
    requires a.Press? && Enabled(s, a)
    ensures View(After(s, a)).buttons == View(s).buttons + if a.button == 0 then {} else {a.button}
    ensures View(After(s, a)).relativeX == View(s).relativeX && View(After(s, a)).relativeY == View(s).relativeY
  {
    var focused, moved := s.queue + a.pointerFocus, s.queue + a.pointerFocus + [PtrMotion(a.x, a.y)];
    var press := if a.button == 0 then [] else [PtrButton(a.button, PRESSED)];
    ReceiveAppend(s.client, s.queue, a.pointerFocus);
    FocusChangesNothing(View(s), a.pointerFocus);
    ReceiveSnoc(s.client, focused, PtrMotion(a.x, a.y));
    ReceiveAppend(s.client, moved, press);
    ReceiveOne(ReceiveAll(s.client, moved), PtrButton(a.button, PRESSED));
    ReceiveAppend(s.client, moved + press, a.keyboardFocus);
    FocusChangesNothing(ReceiveAll(s.client, moved + press), a.keyboardFocus);
  }

  lemma ReleaseReceived(c: Client, queue: seq<Event>, b: u32)
    ensures ReceiveAll(c, queue + [PtrButton(b, RELEASED)]).buttons == ReceiveAll(c, queue).buttons - {b}
  {
    ReceiveSnoc(c, queue, PtrButton(b, RELEASED));
  }

  /** A release reaches the client at once, or is left to a thread. */
  lemma ReleaseInView(s: State, a: Action)
    requires a.Release? && Enabled(s, a)
    ensures var b := ReleasedButton(s.pressed, a.button);
            var t := AfterRelease(s, a);
            && t.pressed == s.pressed - {ButtonToBit(b)}
            && if b == 0 then t.delayed == s.delayed && View(t) == View(s)
               else if HeldFor(s, a.now) < MIN_PRESS_MS then t.delayed == s.delayed + [b] && View(t) == View(s)
               else t.delayed == s.delayed && View(t).buttons == View(s).buttons - {b}
  {
    ReleaseReceived(s.client, s.queue, ReleasedButton(s.pressed, a.button));
  }

  lemma DelayInView(s: State, k: nat)
    requires k < |s.delayed|
    ensures var t := After(s, DelayEnds(k));
            t.pressed == s.pressed && View(t).buttons == View(s).buttons - {s.delayed[k]}
  {
    ReleaseReceived(s.client, s.queue, s.delayed[k]);
  }

  lemma IncrementInView(s: State, a: Action)
    requires a.Move?
    ensures var d := if a.relative && s.local.Some? then (a.x - s.local.value.0, a.y - s.local.value.1) else (0, 0);
            ReceiveAll(View(s), Increment(s, a)) ==
            View(s).(relativeX := View(s).relativeX + d.0, relativeY := View(s).relativeY + d.1)
  {
    if Increment(s, a) != [] {
      ReceiveOne(View(s), Increment(s, a)[0]);
    }
  }

  lemma MoveInView(s: State, a: Action)
    requires a.Move? && Enabled(s, a)
    ensures View(After(s, a)).buttons == View(s).buttons
    ensures var d := if a.relative && s.local.Some? then (a.x - s.local.value.0, a.y - s.local.value.1) else (0, 0);
            && View(After(s, a)).relativeX == View(s).relativeX + d.0
            && View(After(s, a)).relativeY == View(s).relativeY + d.1
  {
    IncrementInView(s, a);
    PositionInView(s.client, s.queue, Increment(s, a), a.pointerFocus, a.x, a.y);
  }

  /** Behind the relative motion, focus and position change neither buttons nor relative motion. */
  lemma PositionInView(c: Client, queue: seq<Event>, moved: seq<Event>, pointerFocus: seq<Event>, x: int, y: int)
    requires FocusOnly(pointerFocus)
    ensures SameButtonsAndMotion(ReceiveAll(c, queue + moved + pointerFocus + [PtrMotion(x, y)]),
                                 ReceiveAll(ReceiveAll(c, queue), moved))
  {
    ReceiveAppend(c, queue, moved);
    ReceiveAppend(c, queue + moved, pointerFocus);
    FocusChangesNothing(ReceiveAll(c, queue + moved), pointerFocus);
    ReceiveSnoc(c, queue + moved + pointerFocus, PtrMotion(x, y));
  }

  lemma FlushInView(s: State)
    ensures SameButtonsAndMotion(View(After(s, Flush)), View(s))
  {
    MergeKeepsTheRest(s.client, s.queue);
  }

  /** The actions that queue neither buttons nor relative motion. */
  lemma QuietInView(s: State, a: Action)
    requires (a.Grab? || a.Scroll? || a.Keys?) && Enabled(s, a)
    ensures SameButtonsAndMotion(View(After(s, a)), View(s))
  {
    var events := match a
      case Grab(x, y) => [PtrMotion(x, y)]
      case Scroll(axis, value, pointerFocus) => pointerFocus + [PtrAxis(axis, value)]
      case Keys(keys) => keys
      case _ => [];
    ReceiveAppend(s.client, s.queue, events);
    FocusChangesNothing(View(s), events);
  }

  // ---- Runs ----

  /** The state after every action of a run; `None` if some action was not enabled. */
  function Run(actions: seq<Action>): Option<State>
    decreases |actions|
  {
    if actions == [] then Some(START)
    else
      match Run(actions[..|actions| - 1])
      case None => None
      case Some(s) => if Enabled(s, actions[|actions| - 1]) then Some(After(s, actions[|actions| - 1])) else None
  }

  // ---- The mask and the client ----

  /** The action presses or releases the button, now or at last. */
  predicate Touches(s: State, a: Action, b: u32)
    requires Enabled(s, a)
  {
    match a
    case Press(button, _, _, _, _, _) => button == b
    case Release(button, _) => ReleasedButton(s.pressed, button) == b
    case DelayEnds(k) => s.delayed[k] == b
    case _ => false
  }

  /** A release that waited finds its button pressed again. */
  predicate IsLate(s: State, a: Action, b: u32)
    requires Enabled(s, a)
  {
    a.DelayEnds? && s.delayed[a.k] == b && ButtonToBit(b) in s.pressed
  }

  /** The last action of the run that touched the button was a late release. */
  ghost predicate Parted(actions: seq<Action>, b: u32)
    requires Run(actions).Some?
    decreases |actions|
  {
    && actions != []
    && var init, a := actions[..|actions| - 1], actions[|actions| - 1];
       var s := Run(init).value;
       if Touches(s, a, b) then IsLate(s, a, b) else Parted(init, b)
  }

  /** The button is in the mask. */
  predicate InMask(s: State, b: u32) {
    ButtonToBit(b) in s.pressed
  }

  lemma TouchedStep(s: State, a: Action, b: u32)
    requires Enabled(s, a) && s.pressed <= {0, 1, 2} && b in KNOWN && Touches(s, a, b)
    ensures After(s, a).pressed <= {0, 1, 2}
    ensures InMask(After(s, a), b) && b !in View(After(s, a)).buttons <==> IsLate(s, a, b)
    ensures b in View(After(s, a)).buttons && !InMask(After(s, a), b) ==> b in After(s, a).delayed
  {
    match a
    case Press(_, _, _, _, _, _) => PressInView(s, a);
    case Release(button, _) =>
      ButtonsAndBits(button, Lowest(s.pressed));
      ReleaseInView(s, a);
    case DelayEnds(k) => DelayInView(s, k);
    case _ =>
  }

  lemma UntouchedStep(s: State, a: Action, b: u32)
    requires Enabled(s, a) && s.pressed <= {0, 1, 2} && b in KNOWN && !Touches(s, a, b)
    ensures After(s, a).pressed <= {0, 1, 2}
    ensures InMask(After(s, a), b) <==> InMask(s, b)
    ensures b in View(After(s, a)).buttons <==> b in View(s).buttons
    ensures b in s.delayed ==> b in After(s, a).delayed
  {
    match a
    case Press(_, _, _, _, _, _) => PressInView(s, a);
    case Release(_, _) => ReleaseElsewhere(s, a, b);
    case Move(_, _, _, _) => MoveInView(s, a);
    case DelayEnds(k) =>
      DelayInView(s, k);
      Without(s.delayed, k);
    case Flush => FlushInView(s);
    case _ => QuietInView(s, a);
  }

  lemma ReleaseElsewhere(s: State, a: Action, b: u32)
    requires a.Release? && Enabled(s, a) && s.pressed <= {0, 1, 2} && b in KNOWN && !Touches(s, a, b)
    ensures After(s, a).pressed <= {0, 1, 2}
    ensures InMask(After(s, a), b) <==> InMask(s, b)
    ensures b in View(After(s, a)).buttons <==> b in View(s).buttons
    ensures b in s.delayed ==> b in After(s, a).delayed
  {
    ButtonsAndBits(a.button, Lowest(s.pressed));
    ReleaseInView(s, a);
  }

  lemma Without(delayed: seq<u32>, k: nat)
    requires k < |delayed|
    ensures forall b | b in delayed && b != delayed[k] :: b in delayed[..k] + delayed[k + 1..]
  {
    forall b | b in delayed && b != delayed[k] ensures b in delayed[..k] + delayed[k + 1..] {
      var i :| 0 <= i < |delayed| && delayed[i] == b;
      assert i < k ==> delayed[..k][i] == b;
      assert i > k ==> delayed[k + 1..][i - k - 1] == b;
    }
  }

  /** Exactly when mask and client differ, after any run: the client misses a held button if and only if the last action
      that touched it was a late release, and it holds a released one only while that release is under way. */
  lemma {:induction false} PartedIff(actions: seq<Action>, b: u32)
    requires Run(actions).Some? && b in KNOWN
    ensures var s := Run(actions).value;
            && s.pressed <= {0, 1, 2}
            && (InMask(s, b) && b !in View(s).buttons <==> Parted(actions, b))
            && (b in View(s).buttons && !InMask(s, b) ==> b in s.delayed)
    decreases |actions|
  {
    if actions != [] {
      var init, a := actions[..|actions| - 1], actions[|actions| - 1];
      PartedIff(init, b);
      var s := Run(init).value;
      if Touches(s, a, b) {
        TouchedStep(s, a, b);
      } else {
        UntouchedStep(s, a, b);
      }
    }
  }

  /** So once no release of it is under way, client and mask agree on a button if and only if the last action that
      touched it was not a late release. */
  lemma OnceNothingIsUnderWay(actions: seq<Action>, b: u32)
    requires Run(actions).Some? && b in KNOWN && b !in Run(actions).value.delayed
    ensures var s := Run(actions).value; (b in View(s).buttons <==> InMask(s, b)) <==> !Parted(actions, b)
  {
    PartedIff(actions, b);
  }

  /** The end of a delay leaves mask and client equal on its button if and only if the button has not been pressed
      again. */
  lemma LateExactly(s: State, k: nat)
    requires k < |s.delayed| && s.delayed[k] in KNOWN
    ensures var b, t := s.delayed[k], After(s, DelayEnds(k));
            (b in View(t).buttons <==> InMask(t, b)) <==> !InMask(s, b)
  {
    DelayInView(s, k);
  }

  /** Two quick clicks part them: press, release, press within a delay, and then the release arrives. */
  lemma QuickClicksPart()
    ensures var actions := [Press(BTN_LEFT, 0, 0, [], [], 1000), Release(BTN_LEFT, 1010),
                            Press(BTN_LEFT, 0, 0, [], [], 1020), DelayEnds(0)];
            && Run(actions).Some? && Parted(actions, BTN_LEFT)
            && Run(actions).value.delayed == [] && InMask(Run(actions).value, BTN_LEFT)
            && BTN_LEFT !in View(Run(actions).value).buttons
  {
    var p, r, q, d := Press(BTN_LEFT, 0, 0, [], [], 1000), Release(BTN_LEFT, 1010), Press(BTN_LEFT, 0, 0, [], [], 1020),
                      DelayEnds(0);
    assert [] + [p] == [p] && [p] + [r] == [p, r] && [p, r] + [q] == [p, r, q] && [p, r, q] + [d] == [p, r, q, d];
    RunSnoc([], p);
    RunSnoc([p], r);
    assert Run([p, r]).value.delayed == [BTN_LEFT];
    RunSnoc([p, r], q);
    RunSnoc([p, r, q], d);
    PartedIff([p, r, q, d], BTN_LEFT);
    assert [p, r, q, d][..3] == [p, r, q];
  }

  lemma RunSnoc(actions: seq<Action>, a: Action)
    requires Run(actions).Some? && Enabled(Run(actions).value, a)
    ensures Run(actions + [a]) == Some(After(Run(actions).value, a))
  {
    assert (actions + [a])[..|actions + [a]| - 1] == actions;
  }

  /** The action presses a button whose last release is still waiting. */
  predicate Overtakes(s: State, a: Action) {
    a.Press? && a.button in KNOWN && a.button in s.delayed
  }

  /** No press of the run overtakes the release before it. */
  ghost predicate Calm(actions: seq<Action>) {
    forall n: nat | n < |actions| && Run(actions[..n]).Some? :: !Overtakes(Run(actions[..n]).value, actions[n])
  }

  /** If no press overtakes the release before it, no release is late. */
  lemma {:induction false} CalmRunsNeverPart(actions: seq<Action>, b: u32)
    requires Run(actions).Some? && Calm(actions) && b in KNOWN
    ensures !Parted(actions, b)
    ensures b in Run(actions).value.delayed ==> !InMask(Run(actions).value, b)
    decreases |actions|
  {
    if actions != [] {
      var init, a := actions[..|actions| - 1], actions[|actions| - 1];
      assert forall n: nat | n <= |init| :: init[..n] == actions[..n];
      CalmRunsNeverPart(init, b);
      var s := Run(init).value;
      PartedIff(init, b);
      assert !Overtakes(Run(actions[..|init|]).value, actions[|init|]);
      DelayedStep(s, a, b);
    }
  }

  lemma DelayedStep(s: State, a: Action, b: u32)
    requires Enabled(s, a) && s.pressed <= {0, 1, 2} && b in KNOWN && !Overtakes(s, a)
    requires b in s.delayed ==> !InMask(s, b)
    ensures b in After(s, a).delayed ==> !InMask(After(s, a), b)
    ensures !IsLate(s, a, b)
  {
    if a.Release? {
      ButtonsAndBits(a.button, Lowest(s.pressed));
    }
  }

  /** Every release of the run comes a hundred milliseconds or more after the last press. */
  ghost predicate Unhurried(actions: seq<Action>) {
    forall n: nat | n < |actions| && Run(actions[..n]).Some? && actions[n].Release? ::
      HeldFor(Run(actions[..n]).value, actions[n].now) >= MIN_PRESS_MS
  }

  lemma {:induction false} NothingIsDelayed(actions: seq<Action>)
    requires Run(actions).Some? && Unhurried(actions)
    ensures Run(actions).value.delayed == [] && Calm(actions)
    decreases |actions|
  {
    if actions != [] {
      var init, a := actions[..|actions| - 1], actions[|actions| - 1];
      UnhurriedBefore(actions);
      NothingIsDelayed(init);
      DelaysNothing(Run(init).value, a);
      CalmNext(actions);
    }
  }

  lemma UnhurriedBefore(actions: seq<Action>)
    requires actions != [] && Unhurried(actions)
    ensures var init, a := actions[..|actions| - 1], actions[|actions| - 1];
            && Unhurried(init)
            && (Run(init).Some? && a.Release? ==> HeldFor(Run(init).value, a.now) >= MIN_PRESS_MS)
  {
    var init := actions[..|actions| - 1];
    forall n: nat | n < |init| ensures init[..n] == actions[..n] && init[n] == actions[n] {
    }
    assert actions[..|init|] == init;
  }

  lemma CalmNext(actions: seq<Action>)
    requires actions != [] && Calm(actions[..|actions| - 1]) && Run(actions[..|actions| - 1]).Some?
    requires !Overtakes(Run(actions[..|actions| - 1]).value, actions[|actions| - 1])
    ensures Calm(actions)
  {
    var init := actions[..|actions| - 1];
    forall n: nat | n < |actions| && Run(actions[..n]).Some?
      ensures !Overtakes(Run(actions[..n]).value, actions[n])
    {
      assert n < |init| ==> init[..n] == actions[..n] && init[n] == actions[n];
    }
  }

  lemma DelaysNothing(s: State, a: Action)
    requires Enabled(s, a) && s.delayed == [] && (a.Release? ==> HeldFor(s, a.now) >= MIN_PRESS_MS)
    ensures After(s, a).delayed == [] && !Overtakes(s, a)
  {
  }

  /** Without hurried releases the client holds exactly the known buttons of the mask, after every action, merged or
      not. */
  lemma HeldButtonsAreTheMask(actions: seq<Action>)
    requires Run(actions).Some? && Unhurried(actions)
    ensures var s := Run(actions).value; forall b | b in KNOWN :: b in View(s).buttons <==> InMask(s, b)
  {
    NothingIsDelayed(actions);
    var s := Run(actions).value;
    forall b | b in KNOWN ensures b in View(s).buttons <==> InMask(s, b) {
      CalmRunsNeverPart(actions, b);
      PartedIff(actions, b);
    }
  }

  // ---- Enters ----

  lemma FocusSettles(events: seq<Event>, next: Event)
    requires PointerFocus(events) && !next.PtrEnter?
    ensures Settled(events + [next])
  {
  }

  lemma {:induction false} KeysSettle(events: seq<Event>)
    requires KeyEvents(events)
    ensures Settled(events)
  {
    assert forall j | 0 <= j < |events| :: events[j] in events;
  }

  lemma SettledStep(s: State, a: Action)
    requires Enabled(s, a) && Settled(s.queue)
    ensures Settled(After(s, a).queue)
  {
    match a
    case Press(button, x, y, pointerFocus, keyboardFocus, _) =>
      var press := if button == 0 then [] else [PtrButton(button, PRESSED)];
      FocusSettles(pointerFocus, PtrMotion(x, y));
      KeysSettle(keyboardFocus);
      SettledAppend(s.queue, pointerFocus + [PtrMotion(x, y)]);
      assert s.queue + (pointerFocus + [PtrMotion(x, y)]) == s.queue + pointerFocus + [PtrMotion(x, y)];
      SettledAppend(s.queue + pointerFocus + [PtrMotion(x, y)], press);
      SettledAppend(s.queue + pointerFocus + [PtrMotion(x, y)] + press, keyboardFocus);
    case Move(x, y, relative, pointerFocus) =>
      var moved := Increment(s, a);
      FocusSettles(pointerFocus, PtrMotion(x, y));
      SettledAppend(s.queue, moved);
      SettledAppend(s.queue + moved, pointerFocus + [PtrMotion(x, y)]);
      assert s.queue + moved + (pointerFocus + [PtrMotion(x, y)]) == s.queue + moved + pointerFocus + [PtrMotion(x, y)];
    case Scroll(axis, value, pointerFocus) =>
      FocusSettles(pointerFocus, PtrAxis(axis, value));
      SettledAppend(s.queue, pointerFocus + [PtrAxis(axis, value)]);
    case Keys(events) =>
      KeysSettle(events);
      SettledAppend(s.queue, events);
    case Grab(x, y) => SettledAppend(s.queue, [PtrMotion(x, y)]);
    case Release(button, _) => SettledAppend(s.queue, [PtrButton(ReleasedButton(s.pressed, button), RELEASED)]);
    case DelayEnds(k) => SettledAppend(s.queue, [PtrButton(s.delayed[k], RELEASED)]);
    case Flush =>
  }

  lemma {:induction false} AlwaysSettled(actions: seq<Action>)
    requires Run(actions).Some?
    ensures Settled(Run(actions).value.queue)
    decreases |actions|
  {
    if actions != [] {
      AlwaysSettled(actions[..|actions| - 1]);
      SettledStep(Run(actions[..|actions| - 1]).value, actions[|actions| - 1]);
    }
  }

  /** No run queues two adjacent enters, so merging is exact for every client in every run, wherever the queue is
      cut. */
  lemma MergeIsExactInRuns(actions: seq<Action>, c: Client, i: nat, j: nat)
    requires Run(actions).Some? && i <= j <= |Run(actions).value.queue|
    ensures var batch := Run(actions).value.queue[i..j];
            SteadyEnters(batch) && ReceiveAll(c, Merge(batch)) == ReceiveAll(c, batch)
  {
    AlwaysSettled(actions);
    SliceIsExact(c, Run(actions).value.queue, i, j);
  }

  // ---- Relative motion ----

  lemma DeltaStep(s: State, a: Action)
    requires Enabled(s, a) && s.local.Some? && (a.Move? ==> a.relative)
    ensures var t := After(s, a);
            && t.local.Some?
            && View(t).relativeX - View(s).relativeX == t.local.value.0 - s.local.value.0
            && View(t).relativeY - View(s).relativeY == t.local.value.1 - s.local.value.1
  {
    match a
    case Press(_, _, _, _, _, _) => PressInView(s, a);
    case Release(button, _) => ReceiveSnoc(s.client, s.queue, PtrButton(ReleasedButton(s.pressed, button), RELEASED));
    case Move(_, _, _, _) => MoveInView(s, a);
    case DelayEnds(k) => ReceiveSnoc(s.client, s.queue, PtrButton(s.delayed[k], RELEASED));
    case Flush => FlushInView(s);
    case _ => QuietInView(s, a);
  }

  /** While there is a relative pointer, the motion that the client adds up is the distance the pointer has moved. */
  lemma {:induction false} DeltasTelescope(actions: seq<Action>, n: nat)
    requires n <= |actions| && Run(actions).Some? && Run(actions[..n]).Some? && Run(actions[..n]).value.local.Some?
    requires forall k | n <= k < |actions| && actions[k].Move? :: actions[k].relative
    ensures var s, t := Run(actions[..n]).value, Run(actions).value;
            && t.local.Some?
            && View(t).relativeX - View(s).relativeX == t.local.value.0 - s.local.value.0
            && View(t).relativeY - View(s).relativeY == t.local.value.1 - s.local.value.1
    decreases |actions|
  {
    if n == |actions| {
      assert actions[..n] == actions;
    } else {
      var init := actions[..|actions| - 1];
      assert init[..n] == actions[..n];
      DeltasTelescope(init, n);
      DeltaStep(Run(init).value, actions[|actions| - 1]);
    }
  }
}
