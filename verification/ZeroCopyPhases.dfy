/** The renderer's side of the protocol with every call taken as a whole. Between two calls the renderer is in one
    of four phases, whatever other threads do between its single writes; what a call does to the phase is a small
    table. */
module ZeroCopyPhases {
  import opened Wrappers
  import opened ZeroCopyProtocol

  /** No surface is bound; one is bound and waits for a GPU frame; its GPU frames are shown; or they have failed and the
      last one stays until the client commits a frame of its own. `failed` counts the failed updates since the last one
      that did not fail, or since the bind. */
  datatype Phase = Unbound | Waiting(key: Key, failed: nat) | Published(key: Key, failed: nat)
                 | Fallback(key: Key, failed: nat)

  /** What one more failed update does: the eighth in a row ends the publication. */
  function OneMoreFailed(p: Phase): Phase {
    match p
    case Unbound => Unbound
    case Waiting(k, n) => Waiting(k, n + 1)
    case Published(k, n) => if n == 7 then Fallback(k, 8) else Published(k, n + 1)
    case Fallback(k, n) => Fallback(k, n + 1)
  }

  /** The table. A poll compares the layer's serial with the baseline of the fallback. */
  function NextPhase(p: Phase, call: Call, baseline: nat): Phase {
    match call
    case Poll(None) => Unbound
    case Poll(Some(serial)) => if p.Fallback? && serial > baseline then Waiting(p.key, p.failed) else p
    case SourceChanged => Unbound
    case BindFails(_) => p
    case Bind(k, _) => if p.Unbound? && k != 0 then Waiting(k, 0) else p
    case Update(Failed(_)) => OneMoreFailed(p)
    case Update(LayerGone) => Unbound
    case Update(Shown(_)) => if p.Unbound? then p else Published(p.key, 0)
    case Shutdown => Unbound
  }

  /** The phase that the calls of a run lead to. */
  function PhaseAfter(steps: seq<Step>): Phase
    requires Reached(steps).Some?
    decreases |steps|
  {
    if steps == [] then Unbound
    else
      var init, last := steps[..|steps| - 1], steps[|steps| - 1];
      if last.Begin? then NextPhase(PhaseAfter(init), last.call, Reached(init).value.s.baseline) else PhaseAfter(init)
  }

  /** The renderer's flags, its key and its count are those of the phase. */
  predicate Shows(s: State, p: Phase) {
    && s.registered == s.image == !p.Unbound?
    && s.ready == p.Published? && s.pending == p.Fallback? && s.hasFrame == (p.Published? || p.Fallback?)
    && s.key == (if p.Unbound? then 0 else p.key)
    && (!p.Unbound? ==> s.failures == p.failed % 0x1_0000_0000)
    && (p.Published? ==> p.failed < 8)
  }

  // ---- Other threads change none of this ----

  predicate SameFields(s: State, t: State) {
    && s.registered == t.registered && s.ready == t.ready && s.hasFrame == t.hasFrame && s.pending == t.pending
    && s.image == t.image && s.key == t.key && s.failures == t.failures
  }

  lemma SameFieldsExec(s: State, t: State, w: Write)
    requires SameFields(s, t)
    ensures SameFields(Exec(s, w), Exec(t, w))
  {
    match w
    case SetRegistered(_) =>
    case SetReady(_) =>
    case _ =>
  }

  lemma {:induction false} SameFieldsAll(s: State, t: State, todo: Todo)
    requires SameFields(s, t)
    ensures SameFields(ExecAll(s, todo), ExecAll(t, todo))
    decreases todo
  {
    if todo.Do? {
      SameFieldsExec(s, t, todo.first);
      SameFieldsAll(Exec(s, todo.first), Exec(t, todo.first), todo.rest);
    }
  }

  // ---- What each call does to the fields ----

  lemma DoEffect(s: State, w: Write, rest: Todo)
    ensures ExecAll(s, Do(w, rest)) == ExecAll(Exec(s, w), rest)
  {
  }

  lemma ResetFields(s: State)
    ensures SameFields(ExecAll(s, Reset()), s.(hasFrame := false, failures := 0, key := 0))
    ensures ExecAll(s, Reset()).attached == s.attached
  {
    var t := Exec(Exec(s, SetHasFrame(false)), SetFailures(0));
    DoEffect(s, SetHasFrame(false), Reset().rest);
    DoEffect(Exec(s, SetHasFrame(false)), SetFailures(0), Reset().rest.rest);
    DoEffect(t, SetBaseline(0), Do(SetKey(0), Done));
  }

  lemma DropFields(s: State, bound: State)
    requires s.image == bound.image
    ensures SameFields(ExecAll(s, Drop(bound)),
                       s.(registered := false, image := false, hasFrame := false, failures := 0, key := 0))
    ensures ExecAll(s, Drop(bound)).attached == s.attached
  {
    var t := Exec(s, SetRegistered(false));
    DoEffect(s, SetRegistered(false), Drop(bound).rest);
    if s.image {
      DoEffect(t, SetImage(false), Reset());
    }
    ResetFields(Exec(t, SetImage(false)));
    assert s.image || Exec(t, SetImage(false)) == t;
  }

  lemma UnbindFields(s: State, bound: State)
    requires s.image == bound.image && s.registered == bound.registered && (s.registered ==> s.key != 0)
    ensures SameFields(ExecAll(s, Unbind(bound)),
                       s.(registered := false, image := false, hasFrame := false, failures := 0, key := 0))
    ensures ExecAll(s, Unbind(bound)).attached == if s.registered then s.attached - {s.key} else s.attached
  {
    if s.registered {
      DoEffect(s, Detach, Drop(bound));
      DropFields(Exec(s, Detach), bound);
    } else {
      DropFields(s, bound);
    }
  }

  /** Whatever was bound, a release leaves nothing of it. */
  lemma ReleaseFields(s: State)
    requires s.ready || s.registered ==> s.key != 0
    ensures SameFields(ExecAll(s, Release(s)), INIT)
    ensures ExecAll(s, Release(s)).attached == if s.registered then s.attached - {s.key} else s.attached
  {
    var t := if s.ready then Exec(Exec(s, RemoveMarker), SetReady(false)) else s;
    var u := if s.key != 0 then Exec(t, EraseKey) else s;
    var v := Exec(u, SetPending(false));
    var unbind := Do(SetPending(false), Unbind(s));
    if s.key != 0 {
      if s.ready {
        DoEffect(s, RemoveMarker, Do(SetReady(false), Do(EraseKey, unbind)));
        DoEffect(Exec(s, RemoveMarker), SetReady(false), Do(EraseKey, unbind));
      }
      DoEffect(t, EraseKey, unbind);
    }
    DoEffect(u, SetPending(false), Unbind(s));
    UnbindFields(v, s);
  }

  lemma BindFailsFields(s: State)
    requires AtRest(s) && !s.registered
    ensures SameFields(ExecAll(s, Writes(s, BindFails(true))), INIT)
    ensures ExecAll(s, Writes(s, BindFails(true))).attached == s.attached
  {
    var t := Exec(s, SetImage(true));
    DoEffect(s, SetImage(true), Release(t));
    ReleaseFields(t);
  }

  lemma BindFields(s: State, k: Key)
    requires AtRest(s) && !s.registered && k != 0
    ensures SameFields(ExecAll(s, Writes(s, Bind(k, s.serial))),
                       s.(image := true, registered := true, key := k, failures := 0))
    ensures ExecAll(s, Writes(s, Bind(k, s.serial))).attached == s.attached + {k}
  {
    BindEffect(s, k);
  }

  lemma FallbackFields(s: State)
    ensures SameFields(ExecAll(s, CpuFallback()), s.(pending := false, hasFrame := false))
    ensures ExecAll(s, CpuFallback()).attached == s.attached
  {
    DoEffect(s, EraseKey, CpuFallback().rest);
    var t := Exec(s, EraseKey);
    DoEffect(t, SetPending(false), Do(SetHasFrame(false), Done));
  }

  lemma PublishFields(s: State, created: bool)
    ensures SameFields(ExecAll(s, PublishActive(s, created, Done)), s.(ready := true))
    ensures ExecAll(s, PublishActive(s, created, Done)).attached == s.attached
  {
    if !s.ready {
      var t := Exec(s, InsertKey);
      DoEffect(s, InsertKey, Do(CreateMarker(created), Do(SetReady(true), Done)));
      DoEffect(t, CreateMarker(created), Do(SetReady(true), Done));
      var u := Exec(t, CreateMarker(created));
      DoEffect(u, SetReady(true), Done);
      assert SameFields(u, s) && u.attached == s.attached;
    }
  }

  lemma ShownFields(s: State, created: bool)
    requires s.registered && s.image
    ensures SameFields(ExecAll(s, Writes(s, Update(Shown(created)))),
                       s.(failures := 0, hasFrame := true, pending := false, ready := true))
    ensures ExecAll(s, Writes(s, Update(Shown(created)))).attached == s.attached
  {
    var t := Exec(s, SetFailures(0));
    var u := Exec(t, SetHasFrame(true));
    var v := Exec(u, SetPending(false));
    var publish := PublishActive(s, created, Done);
    DoEffect(s, SetFailures(0), Do(SetHasFrame(true), Recover(s, created)));
    DoEffect(t, SetHasFrame(true), Recover(s, created));
    PublishFields(v, created);
    if s.pending {
      DoEffect(u, SetPending(false), publish);
    } else {
      assert v == u;
    }
  }

  lemma LayerGoneFields(s: State)
    requires AtRest(s) && s.registered
    ensures SameFields(ExecAll(s, Writes(s, Update(LayerGone))), INIT)
    ensures ExecAll(s, Writes(s, Update(LayerGone))).attached == s.attached - {s.key}
  {
    var t := Exec(s, SetFailures(0));
    DoEffect(s, SetFailures(0), Release(s));
    ReleaseIgnoresFailures(s, 0);
    ReleaseFields(t);
  }

  /** Any failure but the eighth of a published surface is only counted. */
  lemma CountedOnly(s: State, n: nat, layerKnown: bool)
    requires Safe(s, Done) && AtRest(s) && s.registered
    requires n == (s.failures + 1) % 0x1_0000_0000 && !(s.ready && s.failures == 7)
    ensures ExecAll(s, Writes(s, Update(Failed(layerKnown)))) == s.(failures := n)
  {
    var todo := Writes(s, Update(Failed(layerKnown)));
    assert todo == CountFailure(s, n, layerKnown);
    assert todo == Do(SetFailures(n), Done);
    DoEffect(s, SetFailures(n), Done);
  }

  // ---- The table is right ----

  lemma RevokedShows(s: State, p: Phase, layerKnown: bool)
    requires Shows(s, p) && s.ready && s.failures == 7
    ensures Shows(Revoked(s, layerKnown), OneMoreFailed(p))
  {
  }

  lemma CountShows(s: State, p: Phase, n: nat)
    requires AtRest(s) && Shows(s, p) && s.registered
    requires n == (s.failures + 1) % 0x1_0000_0000 && !(s.ready && s.failures == 7)
    ensures Shows(s.(failures := n), OneMoreFailed(p))
  {
  }

  lemma FailedStep(s: State, p: Phase, layerKnown: bool)
    requires Safe(s, Done) && AtRest(s) && Shows(s, p)
    ensures Shows(ExecAll(s, Writes(s, Update(Failed(layerKnown)))), OneMoreFailed(p))
    ensures ExecAll(s, Writes(s, Update(Failed(layerKnown)))).attached == s.attached
  {
    if s.registered && s.ready && s.failures == 7 {
      RevokeEffect(s, layerKnown);
      RevokedShows(s, p, layerKnown);
    } else if s.registered {
      var n := (s.failures + 1) % 0x1_0000_0000;
      CountedOnly(s, n, layerKnown);
      CountShows(s, p, n);
    }
  }

  /** The key of the bound surface, if there is one. */
  function BoundKey(s: State): set<Key> {
    if s.registered then {s.key} else {}
  }

  predicate AttachedAlike(s: State, t: State) {
    && (s.attached <= BoundKey(s) ==> t.attached <= BoundKey(t))
    && (s.attached == BoundKey(s) ==> t.attached == BoundKey(t))
  }

  lemma CallStep(s: State, p: Phase, call: Call)
    requires Safe(s, Done) && AtRest(s) && Shows(s, p) && (call.Bind? ==> call.serial == s.serial)
    ensures Shows(ExecAll(s, Writes(s, call)), NextPhase(p, call, s.baseline))
    ensures AttachedAlike(s, ExecAll(s, Writes(s, call)))
  {
    match call
    case Poll(layer) =>
      if layer.None? {
        ReleaseFields(s);
      } else if s.pending {
        FallbackFields(s);
      }
    case BindFails(imageCreated) =>
      if !s.registered && imageCreated {
        BindFailsFields(s);
      } else if !s.registered {
        ReleaseFields(s);
      }
    case Bind(k, _) => if !s.registered && k != 0 { BindFields(s, k); }
    case Update(outcome) => UpdateStep(s, p, outcome);
    case _ => ReleaseFields(s);
  }

  lemma UpdateStep(s: State, p: Phase, outcome: UpdateOutcome)
    requires Safe(s, Done) && AtRest(s) && Shows(s, p)
    ensures Shows(ExecAll(s, Writes(s, Update(outcome))), NextPhase(p, Update(outcome), s.baseline))
    ensures AttachedAlike(s, ExecAll(s, Writes(s, Update(outcome))))
  {
    match outcome
    case Failed(layerKnown) => FailedStep(s, p, layerKnown);
    case LayerGone => if s.registered { LayerGoneFields(s); }
    case Shown(created) => if s.registered { ShownFields(s, created); }
  }

  /** At every point of every run, what is left of the running call will lead to the phase of the table. */
  lemma {:induction false} PhaseIsComing(steps: seq<Step>)
    requires Reached(steps).Some?
    ensures var c := Reached(steps).value; Shows(ExecAll(c.s, c.todo), PhaseAfter(steps))
    decreases |steps|
  {
    if steps != [] {
      var init, last := steps[..|steps| - 1], steps[|steps| - 1];
      var c := Reached(init).value;
      PhaseIsComing(init);
      AlwaysGood(init);
      match last
      case Begin(call) => CallStep(c.s, PhaseAfter(init), call);
      case Next => DoEffect(c.s, c.todo.first, c.todo.rest);
      case _ => SameFieldsAll(c.s, Interfere(c.s, last), c.todo);
    }
  }

  /** Between two calls of any run, the renderer shows exactly the phase that the table gives for its calls so far: the
      single writes, with other threads between any two of them, come to no more than the table says. */
  lemma PhaseOfRun(steps: seq<Step>)
    requires Reached(steps).Some? && Reached(steps).value.todo == Done
    ensures Shows(Reached(steps).value.s, PhaseAfter(steps))
  {
    PhaseIsComing(steps);
  }

  // ---- What the broker has attached ----

  lemma LessAttachedExec(s: State, t: State, w: Write)
    requires SameFields(s, t) && s.attached <= t.attached
    ensures Exec(s, w).attached <= Exec(t, w).attached
  {
    match w
    case Attach(_) =>
    case Detach =>
    case _ => assert Exec(s, w).attached == s.attached && Exec(t, w).attached == t.attached;
  }

  lemma {:induction false} LessAttachedAll(s: State, t: State, todo: Todo)
    requires SameFields(s, t) && s.attached <= t.attached
    ensures ExecAll(s, todo).attached <= ExecAll(t, todo).attached
    decreases todo
  {
    if todo.Do? {
      SameFieldsExec(s, t, todo.first);
      LessAttachedExec(s, t, todo.first);
      LessAttachedAll(Exec(s, todo.first), Exec(t, todo.first), todo.rest);
    }
  }

  lemma {:induction false} AttachedIsComing(steps: seq<Step>)
    requires Reached(steps).Some?
    ensures var c := Reached(steps).value;
            var t := ExecAll(c.s, c.todo);
            t.attached <= BoundKey(t) && (BrokerShutdown !in steps ==> t.attached == BoundKey(t))
    decreases |steps|
  {
    if steps != [] {
      var init, last := steps[..|steps| - 1], steps[|steps| - 1];
      var c := Reached(init).value;
      AttachedIsComing(init);
      PhaseIsComing(init);
      AlwaysGood(init);
      assert steps == init + [last];
      match last
      case Begin(call) => CallStep(c.s, PhaseAfter(init), call);
      case Next => DoEffect(c.s, c.todo.first, c.todo.rest);
      case _ => AttachedUnderInterference(c, last);
    }
  }

  lemma AttachedUnderInterference(c: Config, step: Step)
    requires !step.Begin? && !step.Next?
    ensures var t, u := ExecAll(c.s, c.todo), ExecAll(Interfere(c.s, step), c.todo);
            && BoundKey(u) == BoundKey(t) && u.attached <= t.attached
            && (step != BrokerShutdown ==> u.attached == t.attached)
  {
    var s := Interfere(c.s, step);
    SameFieldsAll(s, c.s, c.todo);
    LessAttachedAll(s, c.s, c.todo);
    if step != BrokerShutdown {
      LessAttachedAll(c.s, s, c.todo);
    }
  }

  /** Between two calls the broker has attached nothing but the bound surface, and that one unless it has been shut
      down. */
  lemma AttachedIsBound(steps: seq<Step>)
    requires Reached(steps).Some? && Reached(steps).value.todo == Done
    ensures var s := Reached(steps).value.s;
            s.attached <= BoundKey(s) && (BrokerShutdown !in steps ==> s.attached == BoundKey(s))
  {
    AttachedIsComing(steps);
  }

  // ---- Consecutive failures ----

  /** The failed updates of the run since its last update that did not fail, or since its last bind. */
  function FailedInARow(steps: seq<Step>): nat
    requires Reached(steps).Some?
    decreases |steps|
  {
    if steps == [] then 0
    else
      var init, last := steps[..|steps| - 1], steps[|steps| - 1];
      match last
      case Begin(Update(Failed(_))) => FailedInARow(init) + 1
      case Begin(Update(_)) => 0
      case Begin(Bind(_, _)) => if Reached(init).value.s.registered then FailedInARow(init) else 0
      case _ => FailedInARow(init)
  }

  lemma {:induction false} PhaseCounts(steps: seq<Step>)
    requires Reached(steps).Some?
    ensures !PhaseAfter(steps).Unbound? ==> PhaseAfter(steps).failed == FailedInARow(steps)
    decreases |steps|
  {
    if steps != [] {
      var init, last := steps[..|steps| - 1], steps[|steps| - 1];
      PhaseCounts(init);
      PhaseIsComing(init);
      assert last.Begin? ==> Reached(init).value.todo == Done;
    }
  }

  /** Whenever a surface is bound and no method is running, the renderer's counter is the number of consecutive
      failures, cut to 32 bits. */
  lemma FailuresAreCounted(steps: seq<Step>)
    requires Reached(steps).Some? && Reached(steps).value.todo == Done && Reached(steps).value.s.registered
    ensures Reached(steps).value.s.failures == FailedInARow(steps) % 0x1_0000_0000
  {
    PhaseOfRun(steps);
    PhaseCounts(steps);
  }

  /** Wherever a run lets the renderer process a failed update, that update takes the marker back exactly if the surface
      is published and exactly seven updates have failed since the last one that did not, or since the bind. */
  lemma RevokedOnEighth(steps: seq<Step>, layerKnown: bool)
    requires Reached(steps).Some? && Reached(steps).value.todo == Done
    ensures var s := Reached(steps).value.s;
            Contains(Writes(s, Update(Failed(layerKnown))), RemoveMarker) <==> s.ready && FailedInARow(steps) == 7
  {
    AlwaysGood(steps);
    PhaseOfRun(steps);
    PhaseCounts(steps);
    if Reached(steps).value.s.ready {
      SevenCounted(Reached(steps).value.s, PhaseAfter(steps));
    }
    RevokesExactly(Reached(steps).value.s, layerKnown);
  }

  lemma SevenCounted(s: State, p: Phase)
    requires Shows(s, p) && s.ready
    ensures s.failures == p.failed
  {
  }
}
