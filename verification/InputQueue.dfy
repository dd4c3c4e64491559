/** The batch of input events that is merged before it is sent to the client, and what a client makes of it. */
module InputQueue {
  import opened MachineInts
  import opened Wrappers

  const RELEASED: u32 := 0
  const PRESSED: u32 := 1

  /** A surface of a toplevel window. */
  datatype Target = Target(toplevel: u32, surface: int)

  datatype Event =
    | PtrEnter(target: Target, x: int, y: int)
    | PtrLeave
    | PtrMotion(x: int, y: int)
    | PtrButton(button: u32, state: u32)
    | PtrAxis(axis: int, value: int)
    | RelMotion(x: int, y: int)
    | KbdEnter(target: Target)
    | KbdLeave
    | KbdKey(key: u32, state: u32)
    | KbdModifiers(depressed: u32, latched: u32, locked: u32, group: u32)

  // ---- Merging ----

  /** The event says again what the last one said; for an enter, whatever its coordinates. */
  predicate Repeats(last: Event, ev: Event) {
    || (last.PtrButton? && ev == last)
    || (last.KbdKey? && ev == last)
    || (last.PtrEnter? && ev.PtrEnter? && ev.target == last.target)
  }

  function MergeInto(merged: seq<Event>, ev: Event): (r: seq<Event>)
    ensures r != []
  {
    if merged == [] then [ev]
    else
      var last := merged[|merged| - 1];
      if Repeats(last, ev) then merged
      else if last.PtrMotion? && ev.PtrMotion? then merged[..|merged| - 1] + [ev]
      else merged + [ev]
  }

  function Merge(batch: seq<Event>): seq<Event> {
    if batch == [] then [] else MergeInto(Merge(batch[..|batch| - 1]), batch[|batch| - 1])
  }

  /** The loop of `FlushQueue` over the batch. */
  method MergeBatch(batch: seq<Event>) returns (merged: seq<Event>)
    ensures merged == Merge(batch)
  {
    merged := [];
    var i := 0;
    while i < |batch|
      invariant 0 <= i <= |batch| && merged == Merge(batch[..i])
    {
      var ev := batch[i];
      assert batch[..i + 1][..i] == batch[..i];
      i := i + 1;
      if merged != [] {
        var last := merged[|merged| - 1];
        var skip := false;
        match ev {
          case PtrButton(button, state) =>
            skip := last.PtrButton? && last.button == button && last.state == state;
          case PtrMotion(_, _) =>
            if last.PtrMotion? {
              merged := merged[|merged| - 1 := ev];
              continue;
            }
          case PtrEnter(target, _, _) =>
            skip := last.PtrEnter? && last.target == target;
          case KbdKey(key, state) =>
            skip := last.KbdKey? && last.key == key && last.state == state;
          case _ =>
        }
        if skip {
          continue;
        }
      }
      merged := merged + [ev];
    }
    assert batch[..i] == batch;
  }

  // ---- Merging twice, and merging in parts ----

  /** Nothing in the sequence would be merged with its neighbour. */
  ghost predicate Stable(m: seq<Event>) {
    forall j, k | 0 <= j && k == j + 1 < |m| :: !Repeats(m[j], m[k]) && !(m[j].PtrMotion? && m[k].PtrMotion?)
  }

  /** What merging keeps of the event before the last. */
  lemma MergeIntoStable(m: seq<Event>, ev: Event)
    requires Stable(m)
    ensures Stable(MergeInto(m, ev))
  {
    var r := MergeInto(m, ev);
    forall j, k | 0 <= j && k == j + 1 < |r|
      ensures !Repeats(r[j], r[k]) && !(r[j].PtrMotion? && r[k].PtrMotion?)
    {
      if k < |m| {
        assert !Repeats(m[j], m[k]) && !(m[j].PtrMotion? && m[k].PtrMotion?);
      }
    }
  }

  lemma {:induction false} MergeIsStable(batch: seq<Event>)
    ensures Stable(Merge(batch))
  {
    if batch != [] {
      MergeIsStable(batch[..|batch| - 1]);
      MergeIntoStable(Merge(batch[..|batch| - 1]), batch[|batch| - 1]);
    }
  }

  lemma {:induction false} StableIsMerged(m: seq<Event>)
    requires Stable(m)
    ensures Merge(m) == m
  {
    if m != [] {
      StableIsMerged(m[..|m| - 1]);
      if |m| > 1 {
        assert !Repeats(m[|m| - 2], m[|m| - 1]) && !(m[|m| - 2].PtrMotion? && m[|m| - 1].PtrMotion?);
      }
    }
  }

  /** Merging is idempotent, and its results are exactly the sequences with nothing left to merge. */
  lemma Idempotent(batch: seq<Event>)
    ensures Merge(Merge(batch)) == Merge(batch)
    ensures Stable(batch) <==> Merge(batch) == batch
  {
    MergeIsStable(batch);
    StableIsMerged(Merge(batch));
    if Stable(batch) {
      StableIsMerged(batch);
    }
  }

  /** Merging the first part early makes no difference. */
  lemma {:induction false} MergeInParts(a: seq<Event>, b: seq<Event>)
    ensures Merge(a + b) == Merge(Merge(a) + b)
    decreases |b|
  {
    if b == [] {
      assert a + b == a && Merge(a) + b == Merge(a);
      Idempotent(a);
    } else {
      var init, last := b[..|b| - 1], b[|b| - 1];
      assert (a + b)[..|a + b| - 1] == a + init;
      assert (Merge(a) + b)[..|Merge(a) + b| - 1] == Merge(a) + init;
      MergeInParts(a, init);
    }
  }

  // ---- What is left, event by event ----

  /** Of adjacent motions only the last arrives, of adjacent equal button or key events and of adjacent enters of one
      surface only the first, and of everything else all. */
  predicate Survives(batch: seq<Event>, k: nat)
    requires k < |batch|
  {
    match batch[k]
    case PtrMotion(_, _) => k + 1 == |batch| || !batch[k + 1].PtrMotion?
    case PtrButton(_, _) => k == 0 || batch[k - 1] != batch[k]
    case KbdKey(_, _) => k == 0 || batch[k - 1] != batch[k]
    case PtrEnter(target, _, _) => k == 0 || !(batch[k - 1].PtrEnter? && batch[k - 1].target == target)
    case _ => true
  }

  function Survivors(batch: seq<Event>, n: nat): seq<Event>
    requires n <= |batch|
  {
    if n == 0 then [] else Survivors(batch, n - 1) + if Survives(batch, n - 1) then [batch[n - 1]] else []
  }

  /** Before its last event a batch and its beginning have the same survivors. */
  lemma {:induction false} SameSurvivors(batch: seq<Event>, n: nat)
    requires n < |batch|
    ensures n > 0 && batch[n - 1].PtrMotion? && batch[n].PtrMotion? ==>
              Survivors(batch[..n], n) == Survivors(batch, n) + [batch[n - 1]]
    ensures !(n > 0 && batch[n - 1].PtrMotion? && batch[n].PtrMotion?) ==>
              Survivors(batch[..n], n) == Survivors(batch, n)
  {
    if n > 0 {
      SurvivorsBefore(batch, n, n - 1);
      assert batch[..n][n - 1] == batch[n - 1] && (n > 1 ==> batch[..n][n - 2] == batch[n - 2]);
    }
  }

  lemma {:induction false} SurvivorsBefore(batch: seq<Event>, n: nat, m: nat)
    requires m < n <= |batch|
    ensures Survivors(batch[..n], m) == Survivors(batch, m)
  {
    if m > 0 {
      SurvivorsBefore(batch, n, m - 1);
      assert Survives(batch[..n], m - 1) <==> Survives(batch, m - 1);
    }
  }

  /** What a merged batch ends with: the last event, or an enter of the same surface. */
  predicate EndsLike(merged: seq<Event>, ev: Event) {
    && merged != []
    && var last := merged[|merged| - 1];
       last == ev || (last.PtrEnter? && ev.PtrEnter? && last.target == ev.target)
  }

  lemma {:induction false} MergeEndsLike(batch: seq<Event>)
    requires batch != []
    ensures EndsLike(Merge(batch), batch[|batch| - 1])
  {
    if |batch| > 1 {
      MergeEndsLike(batch[..|batch| - 1]);
    }
  }

  /** Merging from left to right leaves exactly the events that survive beside their neighbours. */
  lemma {:induction false} MergeIsLocal(batch: seq<Event>)
    ensures Merge(batch) == Survivors(batch, |batch|)
  {
    if batch != [] {
      var n := |batch| - 1;
      MergeIsLocal(batch[..n]);
      SameSurvivors(batch, n);
      if n > 0 {
        MergeEndsLike(batch[..n]);
        assert batch[..n][n - 1] == batch[n - 1];
      }
    }
  }

  // ---- What the client observes ----

  datatype Client = Client(
    pointer: Option<Target>, x: int, y: int, buttons: set<u32>,
    keyboard: Option<Target>, keys: set<u32>, modifiers: (u32, u32, u32, u32),
    scrolledVertically: int, scrolledHorizontally: int, relativeX: int, relativeY: int)

  function Held(held: set<u32>, code: u32, state: u32): set<u32> {
    if state == PRESSED then held + {code} else held - {code}
  }

  function Receive(c: Client, ev: Event): Client {
    match ev
    case PtrEnter(target, x, y) => c.(pointer := Some(target), x := x, y := y)
    case PtrLeave => c.(pointer := None)
    case PtrMotion(x, y) => c.(x := x, y := y)
    case PtrButton(button, state) => c.(buttons := Held(c.buttons, button, state))
    case PtrAxis(axis, value) =>
      if axis == 0 then c.(scrolledVertically := c.scrolledVertically + value)
      else c.(scrolledHorizontally := c.scrolledHorizontally + value)
    case RelMotion(x, y) => c.(relativeX := c.relativeX + x, relativeY := c.relativeY + y)
    case KbdEnter(target) => c.(keyboard := Some(target), keys := {})
    case KbdLeave => c.(keyboard := None, keys := {})
    case KbdKey(key, state) => c.(keys := Held(c.keys, key, state))
    case KbdModifiers(depressed, latched, locked, group) => c.(modifiers := (depressed, latched, locked, group))
  }

  function ReceiveAll(c: Client, events: seq<Event>): Client {
    if events == [] then c else Receive(ReceiveAll(c, events[..|events| - 1]), events[|events| - 1])
  }

  lemma ReceiveSnoc(c: Client, events: seq<Event>, ev: Event)
    ensures ReceiveAll(c, events + [ev]) == Receive(ReceiveAll(c, events), ev)
  {
    assert (events + [ev])[..|events + [ev]| - 1] == events;
  }

  /** Two clients that may disagree on where the pointer is, and on nothing else. */
  predicate SameButPosition(c: Client, d: Client) {
    c == d.(x := c.x, y := c.y)
  }

  /** Merging one event in is as good as receiving it, unless it is an enter that moves. */
  lemma MergeIntoReceived(c: Client, m: seq<Event>, ev: Event)
    requires m != [] && m[|m| - 1].PtrEnter? && Repeats(m[|m| - 1], ev) ==> ev == m[|m| - 1]
    ensures ReceiveAll(c, MergeInto(m, ev)) == Receive(ReceiveAll(c, m), ev)
  {
    ReceiveSnoc(c, m, ev);
    if m != [] {
      var init, last := m[..|m| - 1], m[|m| - 1];
      assert m == init + [last];
      ReceiveSnoc(c, init, last);
      ReceiveSnoc(c, init, ev);
    }
  }

  lemma ReceiveKeepsTheRest(c: Client, d: Client, ev: Event)
    requires SameButPosition(c, d)
    ensures SameButPosition(Receive(c, ev), Receive(d, ev))
  {
  }

  lemma RepeatedEnter(c: Client, m: seq<Event>, ev: Event)
    requires m != [] && m[|m| - 1].PtrEnter? && Repeats(m[|m| - 1], ev)
    ensures SameButPosition(ReceiveAll(c, m), Receive(ReceiveAll(c, m), ev))
  {
    assert ReceiveAll(c, m).pointer == Some(ev.target);
  }

  /** Whatever the batch, merging can only affect the pointer's position. */
  lemma {:induction false} MergeKeepsTheRest(c: Client, batch: seq<Event>)
    ensures SameButPosition(ReceiveAll(c, Merge(batch)), ReceiveAll(c, batch))
  {
    if batch != [] {
      var init, ev := batch[..|batch| - 1], batch[|batch| - 1];
      var m := Merge(init);
      MergeKeepsTheRest(c, init);
      ReceiveKeepsTheRest(ReceiveAll(c, m), ReceiveAll(c, init), ev);
      if m != [] && m[|m| - 1].PtrEnter? && Repeats(m[|m| - 1], ev) {
        RepeatedEnter(c, m, ev);
      } else {
        MergeIntoReceived(c, m, ev);
      }
    }
  }

  /** No two adjacent enters of one surface disagree on the coordinates. */
  ghost predicate SteadyEnters(batch: seq<Event>) {
    forall j, k | 0 <= j && k == j + 1 < |batch| ::
      batch[j].PtrEnter? && Repeats(batch[j], batch[k]) ==> batch[k] == batch[j]
  }

  lemma {:induction false} LastOfMerge(batch: seq<Event>)
    requires SteadyEnters(batch) && batch != []
    ensures Merge(batch) != [] && Merge(batch)[|Merge(batch)| - 1] == batch[|batch| - 1]
  {
    if |batch| > 1 {
      LastOfMerge(batch[..|batch| - 1]);
      assert batch[..|batch| - 1][|batch| - 2] == batch[|batch| - 2];
    }
  }

  lemma {:induction false} MergeKeepsAll(c: Client, batch: seq<Event>)
    requires SteadyEnters(batch)
    ensures ReceiveAll(c, Merge(batch)) == ReceiveAll(c, batch)
  {
    if batch != [] {
      var init, ev := batch[..|batch| - 1], batch[|batch| - 1];
      MergeKeepsAll(c, init);
      if init != [] {
        LastOfMerge(init);
        assert init[|init| - 1] == batch[|batch| - 2];
      }
      MergeIntoReceived(c, Merge(init), ev);
    }
  }

  /** Merging is exact at every point of a batch, for every client, if and only if adjacent enters of one surface
      agree on the coordinates: of two that do not, the first one's coordinates win. */
  lemma MergeIsExactIff(batch: seq<Event>)
    ensures SteadyEnters(batch) <==>
            forall c: Client, n: nat | n <= |batch| :: ReceiveAll(c, Merge(batch[..n])) == ReceiveAll(c, batch[..n])
  {
    if SteadyEnters(batch) {
      forall c: Client, n: nat | n <= |batch| ensures ReceiveAll(c, Merge(batch[..n])) == ReceiveAll(c, batch[..n]) {
        MergeKeepsAll(c, batch[..n]);
      }
    } else {
      var c := Client(None, 0, 0, {}, None, {}, (0, 0, 0, 0), 0, 0, 0, 0);
      var n := FirstShift(batch, |batch|);
      ShiftIsSeen(c, batch[..n]);
    }
  }

  /** The shortest prefix that is not steady. */
  lemma {:induction false} FirstShift(batch: seq<Event>, n: nat) returns (first: nat)
    requires n <= |batch| && !SteadyEnters(batch[..n])
    ensures 2 <= first <= n && !SteadyEnters(batch[..first]) && SteadyEnters(batch[..first - 1])
    decreases n
  {
    if SteadyEnters(batch[..n - 1]) {
      first := n;
    } else {
      first := FirstShift(batch, n - 1);
    }
  }

  lemma ShiftIsSeen(c: Client, batch: seq<Event>)
    requires |batch| >= 2 && !SteadyEnters(batch) && SteadyEnters(batch[..|batch| - 1])
    ensures ReceiveAll(c, Merge(batch)) != ReceiveAll(c, batch)
  {
    var init, ev := batch[..|batch| - 1], batch[|batch| - 1];
    var j, k :| 0 <= j && k == j + 1 < |batch| && batch[j].PtrEnter? && Repeats(batch[j], batch[k]) &&
                 batch[k] != batch[j];
    assert forall i | 0 <= i < |init| :: init[i] == batch[i];
    assert k == |init|;
    LastOfMerge(init);
    assert Merge(batch) == Merge(init);
    LastEnterPlaces(c, Merge(init));
  }

  lemma LastEnterPlaces(c: Client, events: seq<Event>)
    requires events != [] && events[|events| - 1].PtrEnter?
    ensures ReceiveAll(c, events).x == events[|events| - 1].x && ReceiveAll(c, events).y == events[|events| - 1].y
  {
  }

  /** At every event of a steady batch that is not a motion, the client gets to the same state after the same event:
      that part of the merged batch is final. */
  lemma SeenAtEveryEvent(c: Client, batch: seq<Event>, k: nat)
    requires SteadyEnters(batch) && k < |batch| && !batch[k].PtrMotion?
    ensures var part := Merge(batch[..k + 1]);
            && part <= Merge(batch) && part[|part| - 1] == batch[k]
            && ReceiveAll(c, part) == ReceiveAll(c, batch[..k + 1])
  {
    LastOfMerge(batch[..k + 1]);
    MergeKeepsAll(c, batch[..k + 1]);
    PartIsFinal(batch, k + 1, |batch|);
    assert batch[..|batch|] == batch;
  }

  lemma {:induction false} PartIsFinal(batch: seq<Event>, i: nat, n: nat)
    requires 0 < i <= n <= |batch|
    requires var part := Merge(batch[..i]); !part[|part| - 1].PtrMotion?
    ensures Merge(batch[..i]) <= Merge(batch[..n])
    decreases n
  {
    if i < n {
      PartIsFinal(batch, i, n - 1);
      assert batch[..n][..n - 1] == batch[..n - 1];
    }
  }

  // ---- Batches without adjacent enters ----

  ghost predicate NoAdjacentEnters(batch: seq<Event>) {
    forall j, k | 0 <= j && k == j + 1 < |batch| :: !(batch[j].PtrEnter? && batch[k].PtrEnter?)
  }

  /** Something else follows every enter. */
  ghost predicate Settled(batch: seq<Event>) {
    NoAdjacentEnters(batch) && (batch != [] ==> !batch[|batch| - 1].PtrEnter?)
  }

  lemma SettledAppend(a: seq<Event>, b: seq<Event>)
    requires Settled(a) && Settled(b)
    ensures Settled(a + b)
  {
    forall j, k | 0 <= j && k == j + 1 < |a + b| ensures !((a + b)[j].PtrEnter? && (a + b)[k].PtrEnter?) {
      if k < |a| {
        assert !(a[j].PtrEnter? && a[k].PtrEnter?);
      } else if |a| <= j {
        assert !(b[j - |a|].PtrEnter? && b[k - |a|].PtrEnter?);
      }
    }
  }

  /** Another thread may queue a release between any two of them. */
  lemma ReleaseInBetween(events: seq<Event>, k: nat, ev: Event)
    requires NoAdjacentEnters(events) && k <= |events| && !ev.PtrEnter?
    ensures NoAdjacentEnters(events[..k] + [ev] + events[k..])
  {
    var all := events[..k] + [ev] + events[k..];
    forall m, n | 0 <= m && n == m + 1 < |all| ensures !(all[m].PtrEnter? && all[n].PtrEnter?) {
      if n < k {
        assert all[m] == events[m] && all[n] == events[n];
      } else if m > k {
        assert all[m] == events[m - 1] && all[n] == events[n - 1];
      }
    }
  }

  /** However such events are cut into batches, merging a batch changes nothing at all for the client. */
  lemma SliceIsExact(c: Client, events: seq<Event>, i: nat, j: nat)
    requires NoAdjacentEnters(events) && i <= j <= |events|
    ensures SteadyEnters(events[i..j]) && ReceiveAll(c, Merge(events[i..j])) == ReceiveAll(c, events[i..j])
  {
    var batch := events[i..j];
    forall m, n | 0 <= m && n == m + 1 < |batch| && batch[m].PtrEnter? && Repeats(batch[m], batch[n])
      ensures batch[n] == batch[m]
    {
      assert !(events[i + m].PtrEnter? && events[i + n].PtrEnter?);
    }
    MergeKeepsAll(c, batch);
  }

  // ---- What is never merged ----

  /** The kinds of events of which every one has to arrive. */
  predicate Kept(ev: Event) {
    ev.PtrAxis? || ev.RelMotion? || ev.PtrLeave? || ev.KbdEnter? || ev.KbdLeave? || ev.KbdModifiers?
  }

  function OnlyKept(events: seq<Event>): seq<Event> {
    if events == [] then []
    else OnlyKept(events[..|events| - 1]) + if Kept(events[|events| - 1]) then [events[|events| - 1]] else []
  }

  /** Scrolling, relative motion, leaves, keyboard focus and modifiers all arrive, in order. */
  lemma {:induction false} MergeDropsNoneOfThese(batch: seq<Event>)
    ensures OnlyKept(Merge(batch)) == OnlyKept(batch)
  {
    if batch != [] {
      var init, ev := batch[..|batch| - 1], batch[|batch| - 1];
      var m := Merge(init);
      MergeDropsNoneOfThese(init);
      assert (m + [ev])[..|m|] == m;
      if m != [] {
        assert (m[..|m| - 1] + [ev])[..|m| - 1] == m[..|m| - 1];
      }
    }
  }
}
