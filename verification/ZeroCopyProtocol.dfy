/** The zero-copy presentation protocol, one shared write at a time. Three parties keep one surface consistent: the
    renderer thread (its flags), the compositor (the keys it leaves out of CPU composition) and the broker (the ready
    markers the guest looks for, and its attached set). The renderer's methods are lists of single writes; between any
    two of them a client may commit a frame, a surface may be destroyed, and the broker may shut down or sweep. */
module ZeroCopyProtocol {
  import opened Wrappers

  /** A surface key; 0 stands for none. */
  type Key = nat

  const REVOKE_AFTER := 8

  /** What the protocol reads and writes for the keys one renderer binds. `lost` and `missing` are history: the keys
      that the compositor dropped because their surface was destroyed, and those whose marker could not be made or was
      taken by another thread. */
  datatype State = State(
    registered: bool, ready: bool, hasFrame: bool, pending: bool, image: bool, key: Key, failures: nat, baseline: nat,
    skipped: set<Key>, markers: set<Key>, attached: set<Key>, serial: nat, lost: set<Key>,
    missing: set<Key>)

  const INIT := State(false, false, false, false, false, 0, 0, 0, {}, {}, {}, 0, {}, {})

  /** The single writes. `InsertKey`/`EraseKey` edit the compositor's set, `CreateMarker`/`RemoveMarker` the marker
      file, `Attach`/`Detach` the broker's bookkeeping; the others assign a renderer field. */
  datatype Write =
    | SetRegistered(on: bool) | SetReady(on: bool) | SetHasFrame(on: bool) | SetPending(on: bool) | SetImage(on: bool)
    | SetKey(key: Key) | SetFailures(n: nat) | SetBaseline(n: nat) | ReadBaseline
    | InsertKey | EraseKey | CreateMarker(created: bool) | RemoveMarker | Attach(key: Key) | Detach

  function Exec(s: State, w: Write): State {
    match w
    case SetRegistered(on) => s.(registered := on)
    case SetReady(on) => s.(ready := on)
    case SetHasFrame(on) => s.(hasFrame := on)
    case SetPending(on) => s.(pending := on)
    case SetImage(on) => s.(image := on)
    case SetKey(k) => s.(key := k)
    case SetFailures(n) => s.(failures := n)
    case SetBaseline(n) => s.(baseline := n)
    case ReadBaseline => s.(baseline := s.serial)
    case InsertKey => if s.key == 0 then s else s.(skipped := s.skipped + {s.key}, lost := s.lost - {s.key})
    case EraseKey => if s.key == 0 then s else s.(skipped := s.skipped - {s.key}, lost := s.lost - {s.key})
    case CreateMarker(created) =>
      if s.key == 0 then s
      else if created then s.(markers := s.markers + {s.key}, missing := s.missing - {s.key})
      else s.(missing := s.missing + ({s.key} - s.markers))
    case RemoveMarker =>
      if s.key == 0 then s else s.(markers := s.markers - {s.key}, missing := s.missing - {s.key})
    case Attach(k) => s.(attached := s.attached + {k})
    case Detach =>
      if s.key != 0 && s.key in s.attached then s.(attached := s.attached - {s.key}, markers := s.markers - {s.key})
      else s
  }

  /** The writes a method has still to do. */
  datatype Todo = Done | Do(first: Write, rest: Todo)

  function ExecAll(s: State, todo: Todo): State
    decreases todo
  {
    match todo
    case Done => s
    case Do(w, rest) => ExecAll(Exec(s, w), rest)
  }

  /** What is left behind by performing writes: the state, and every state on the way, one for each write. */
  datatype Performance = Performance(s: State, trace: seq<State>)

  function Perform(p: Performance, todo: Todo): Performance
    decreases todo
  {
    match todo
    case Done => p
    case Do(w, rest) =>
      var t := Exec(p.s, w);
      Perform(Performance(t, p.trace + [t]), rest)
  }

  // ---- The renderer's methods as lists of writes, each followed by what its caller does next ----

  function PublishActive(s: State, created: bool, next: Todo): Todo {
    if s.ready then next else Do(InsertKey, Do(CreateMarker(created), Do(SetReady(true), next)))
  }

  function UnpublishReady(s: State, next: Todo): Todo {
    if s.ready then Do(RemoveMarker, Do(SetReady(false), next)) else next
  }

  function Release(s: State): Todo {
    var unbind := Do(SetPending(false), Unbind(s));
    if s.key != 0 then UnpublishReady(s, Do(EraseKey, unbind)) else unbind
  }

  /** What release does once nothing is published any more. */
  function Unbind(s: State): Todo {
    if s.registered then Do(Detach, Drop(s)) else Drop(s)
  }

  function Drop(s: State): Todo {
    Do(SetRegistered(false), if s.image then Do(SetImage(false), Reset()) else Reset())
  }

  function Reset(): Todo {
    Do(SetHasFrame(false), Do(SetFailures(0), Do(SetBaseline(0), Do(SetKey(0), Done))))
  }

  datatype UpdateOutcome = Failed(layerKnown: bool) | LayerGone | Shown(markerCreated: bool)

  /** What the renderer thread may call when it is idle, with the answers of the platform. `Poll` is the registered half
      of the attach method: the layer's SHM serial, or none when the layer is gone. */
  datatype Call =
    | Poll(layer: Option<nat>) | SourceChanged | BindFails(imageCreated: bool) | Bind(key: Key, serial: nat)
    | Update(outcome: UpdateOutcome) | Shutdown

  function Writes(s: State, call: Call): Todo {
    match call
    case Poll(layer) =>
      if !s.registered then Done
      else if layer.None? then Release(s)
      else if s.pending && layer.value > s.baseline then CpuFallback()
      else Done
    case SourceChanged => if s.registered then Release(s) else Done
    case BindFails(imageCreated) =>
      if s.registered then Done
      else if imageCreated then Do(SetImage(true), Release(s.(image := true)))
      else Release(s)
    case Bind(k, serial) =>
      if s.registered || k == 0 then Done
      else Do(SetImage(true), Do(Attach(k), Adopt(k, serial)))
    case Update(outcome) => if s.registered && s.image then UpdateWrites(s, outcome) else Done
    case Shutdown => Release(s)
  }

  /** What a bind does once the broker has accepted the target. */
  function Adopt(k: Key, serial: nat): Todo {
    Do(SetKey(k), Do(SetRegistered(true), FreshFallback(serial)))
  }

  function FreshFallback(serial: nat): Todo {
    Do(SetPending(false), Do(SetBaseline(serial), Do(SetFailures(0), Done)))
  }

  function CpuFallback(): Todo {
    Do(EraseKey, Do(SetPending(false), Do(SetHasFrame(false), Done)))
  }

  function RevokeWrites(s: State, layerKnown: bool): Todo {
    var revoke := UnpublishReady(s, Do(SetPending(true), Done));
    if layerKnown then Do(ReadBaseline, revoke) else revoke
  }

  function CountFailure(s: State, n: nat, layerKnown: bool): Todo {
    Do(SetFailures(n), if !s.ready || s.pending || n < REVOKE_AFTER then Done else RevokeWrites(s, layerKnown))
  }

  function UpdateWrites(s: State, outcome: UpdateOutcome): Todo {
    match outcome
    case Failed(layerKnown) =>
      CountFailure(s, (s.failures + 1) % 0x1_0000_0000, layerKnown)
    case LayerGone => Do(SetFailures(0), Release(s))
    case Shown(created) =>
      Do(SetFailures(0), Do(SetHasFrame(true), Recover(s, created)))
  }

  function Recover(s: State, created: bool): Todo {
    var publish := PublishActive(s, created, Done);
    if s.pending then Do(SetPending(false), publish) else publish
  }

  // ---- Runs ----

  /** The state together with the writes the running method has still to do. */
  datatype Config = Config(s: State, todo: Todo)

  /** One step of anybody. */
  datatype Step = Begin(call: Call) | Next | ShmCommit | BrokerShutdown | MarkerSweep | SurfaceDestroyed(key: Key)

  /** A method begins only when the previous one is done, and `Poll` and `Bind` read the serial of that moment. */
  predicate Enabled(c: Config, step: Step) {
    match step
    case Begin(call) =>
      && c.todo == Done
      && (call.Poll? && call.layer.Some? ==> call.layer.value == c.s.serial)
      && (call.Bind? ==> call.serial == c.s.serial)
    case Next => c.todo != Done
    case _ => true
  }

  function After(c: Config, step: Step): Config
    requires Enabled(c, step)
  {
    match step
    case Begin(call) => Config(c.s, Writes(c.s, call))
    case Next => Config(Exec(c.s, c.todo.first), c.todo.rest)
    case _ => Config(Interfere(c.s, step), c.todo)
  }

  /** What the other threads do to the shared state. A surface that is created again counts its commits from zero; while
      none is bound, any may be the next. */
  function Interfere(s: State, step: Step): State
    requires !step.Begin? && !step.Next?
  {
    match step
    case ShmCommit => s.(serial := s.serial + 1)
    case BrokerShutdown =>
      s.(markers := s.markers - s.attached, missing := s.missing + s.markers * s.attached, attached := {})
    case MarkerSweep => s.(markers := {}, missing := s.missing + s.markers)
    case SurfaceDestroyed(k) =>
      var t := if k in s.skipped then s.(skipped := s.skipped - {k}, lost := s.lost + {k}) else s;
      if k == s.key || s.key == 0 then t.(serial := 0) else t
  }

  /** Where a run ends; none if one of its steps was not possible. */
  function Reached(steps: seq<Step>): Option<Config>
    decreases |steps|
  {
    if steps == [] then Some(Config(INIT, Done))
    else
      match Reached(steps[..|steps| - 1])
      case None => None
      case Some(c) => if Enabled(c, steps[|steps| - 1]) then Some(After(c, steps[|steps| - 1])) else None
  }

  // ---- Safety ----

  /** A key is accounted for: the compositor leaves it out, or dropped it when its surface was destroyed. */
  predicate Covered(s: State, k: Key) {
    k in s.skipped || k in s.lost
  }

  /** What holds between any two writes. A ready marker or a skipped key belongs to the bound surface and means that the
      renderer is registered, holds an image and has a GPU frame; a marker means its key is covered; a pending fallback
      has no marker, and its key is covered until the write that ends it is next; the broker detaches only what has no
      marker any more. */
  predicate Safe(s: State, todo: Todo) {
    && (forall k | k in s.markers :: k == s.key != 0 && s.registered && s.hasFrame && s.image && Covered(s, k))
    && (forall k | k in s.skipped :: k == s.key != 0 && s.registered && s.hasFrame && s.image)
    && (s.pending ==> !s.ready && s.markers == {})
    && (s.pending && !(todo.Do? && todo.first == SetPending(false)) ==> Covered(s, s.key))
    && (todo.Do? && todo.first == Detach ==> s.markers == {})
    && s.skipped !! s.lost && s.markers !! s.missing
    && (forall k | k in s.missing :: k == s.key != 0)
    && (s.pending ==> s.missing == {})
  }

  /** What holds between two methods. */
  predicate AtRest(s: State) {
    && (s.registered ==> s.key != 0 && s.image)
    && (!s.registered ==> s.key == 0 && !s.ready && !s.pending && !s.hasFrame && !s.image)
    && (s.ready ==> Covered(s, s.key) && s.failures < REVOKE_AFTER && s.hasFrame)
    && (s.pending ==> s.hasFrame)
    && (s.ready ==> s.key in s.markers || s.key in s.missing)
    && (!s.ready ==> s.markers == {} && s.missing == {})
    && (!s.ready && !s.pending ==> s.skipped == {})
  }

  /** Every state on the way through `todo` is safe, and the last one is at rest. */
  predicate Good(s: State, todo: Todo)
    decreases todo
  {
    && Safe(s, todo)
    && match todo
       case Done => AtRest(s)
       case Do(w, rest) => Good(Exec(s, w), rest)
  }

  predicate Unpublished(s: State) {
    s.markers == {} && s.missing == {} && s.skipped == {} && !s.ready && !s.pending
  }

  lemma ResetGood(s: State)
    requires Unpublished(s) && !s.registered && !s.image
    ensures Good(s, Reset())
  {
    var t := Exec(Exec(s, SetHasFrame(false)), SetFailures(0));
    assert Good(t, Do(SetBaseline(0), Do(SetKey(0), Done)));
  }

  lemma UnbindGood(s: State)
    requires Unpublished(s)
    ensures Good(s, Unbind(s))
  {
    var t := if s.registered then Exec(s, Detach) else s;
    var u := Exec(t, SetRegistered(false));
    ResetGood(Exec(u, SetImage(false)));
    assert Exec(u, SetImage(false)) == u || s.image;
  }

  lemma DoGood(s: State, w: Write, rest: Todo)
    requires Safe(s, Do(w, rest)) && Good(Exec(s, w), rest)
    ensures Good(s, Do(w, rest))
  {
  }

  lemma ReleaseGood(s: State)
    requires Safe(s, Done) && AtRest(s)
    ensures Good(s, Release(s))
  {
    var t := if s.ready then Exec(Exec(s, RemoveMarker), SetReady(false)) else s;
    var u := Exec(t, EraseKey);
    var v := Exec(u, SetPending(false));
    UnbindGood(v);
    assert Unbind(v) == Unbind(s);
    DoGood(u, SetPending(false), Unbind(s));
    if s.key != 0 {
      var erase := Do(EraseKey, Do(SetPending(false), Unbind(s)));
      DoGood(t, EraseKey, erase.rest);
      if s.ready {
        DoGood(Exec(s, RemoveMarker), SetReady(false), erase);
        DoGood(s, RemoveMarker, Do(SetReady(false), erase));
      }
    } else {
      assert u == s;
    }
  }

  lemma BindFailsGood(s: State)
    requires Safe(s, Done) && AtRest(s) && !s.registered
    ensures Good(s, Writes(s, BindFails(true)))
  {
    var t := Exec(s, SetImage(true));
    UnbindGood(Exec(t, SetPending(false)));
    assert Unbind(Exec(t, SetPending(false))) == Unbind(t);
  }

  lemma BindGood(s: State, k: Key, serial: nat)
    requires Safe(s, Done) && AtRest(s) && !s.registered && k != 0
    ensures Good(s, Writes(s, Bind(k, serial)))
  {
    var t := Exec(Exec(Exec(s, SetImage(true)), Attach(k)), SetKey(k));
    var u := Exec(Exec(t, SetRegistered(true)), SetPending(false));
    var tail := Do(SetBaseline(serial), Do(SetFailures(0), Done));
    assert Good(u, tail);
    assert Good(t, Do(SetRegistered(true), Do(SetPending(false), tail)));
  }

  lemma PublishGood(s: State, created: bool)
    requires Safe(s, Done) && s.registered && s.image && s.key != 0 && s.hasFrame && !s.pending && !s.ready
    requires s.failures == 0 && s.markers == {} && s.missing == {}
    ensures Good(s, PublishActive(s, created, Done))
  {
    var t := Exec(Exec(s, InsertKey), CreateMarker(created));
    assert Good(t, Do(SetReady(true), Done));
  }

  lemma RecoverGood(s: State, created: bool)
    requires Safe(s, Done) && AtRest(s.(failures := 0)) && s.registered && s.failures == 0 && s.hasFrame
    ensures Good(s, Recover(s, created))
  {
    var t := Exec(s, SetPending(false));
    if !s.ready {
      PublishGood(t, created);
    }
    if s.pending {
      DoGood(s, SetPending(false), PublishActive(s, created, Done));
    } else {
      assert t == s;
    }
  }

  lemma ShownGood(s: State, created: bool)
    requires Safe(s, Done) && AtRest(s) && s.registered
    ensures Good(s, UpdateWrites(s, Shown(created)))
  {
    var t := Exec(s, SetFailures(0));
    var u := Exec(t, SetHasFrame(true));
    RecoverGood(u, created);
    assert Recover(u, created) == Recover(s, created);
    DoGood(t, SetHasFrame(true), Recover(s, created));
    DoGood(s, SetFailures(0), Do(SetHasFrame(true), Recover(s, created)));
  }

  lemma RevokeGood(s: State)
    requires Safe(s, Done) && s.registered && s.image && s.key != 0 && s.hasFrame && !s.pending && s.ready
    requires Covered(s, s.key)
    ensures Good(s, UnpublishReady(s, Do(SetPending(true), Done)))
  {
    var t := Exec(s, RemoveMarker);
    assert Good(t, Do(SetReady(false), Do(SetPending(true), Done)));
  }

  lemma RevokeWritesGood(s: State, layerKnown: bool)
    requires Safe(s, Done) && s.registered && s.image && s.key != 0 && s.hasFrame && !s.pending && s.ready
    requires Covered(s, s.key)
    ensures Good(s, RevokeWrites(s, layerKnown))
  {
    var t := if layerKnown then Exec(s, ReadBaseline) else s;
    RevokeGood(t);
    if layerKnown {
      DoGood(s, ReadBaseline, UnpublishReady(s, Do(SetPending(true), Done)));
    }
  }

  lemma FailedGood(s: State, layerKnown: bool)
    requires Safe(s, Done) && AtRest(s) && s.registered
    ensures Good(s, UpdateWrites(s, Failed(layerKnown)))
  {
    var n := (s.failures + 1) % 0x1_0000_0000;
    var todo := CountFailure(s, n, layerKnown);
    assert UpdateWrites(s, Failed(layerKnown)) == todo;
    CountGood(s, n, layerKnown, todo);
  }

  lemma CountGood(s: State, n: nat, layerKnown: bool, todo: Todo)
    requires Safe(s, Done) && AtRest(s) && s.registered && todo == CountFailure(s, n, layerKnown)
    ensures Good(s, todo)
  {
    var t := Exec(s, SetFailures(n));
    if !s.ready || s.pending || n < REVOKE_AFTER {
      DoGood(s, SetFailures(n), Done);
    } else {
      RevokeWritesGood(t, layerKnown);
      DoGood(s, SetFailures(n), RevokeWrites(s, layerKnown));
    }
  }

  lemma FallbackGood(s: State)
    requires Safe(s, Done) && AtRest(s) && s.pending
    ensures Good(s, CpuFallback())
  {
    var t := Exec(s, EraseKey);
    assert Good(t, Do(SetPending(false), Do(SetHasFrame(false), Done)));
  }

  lemma ReleaseIgnoresFailures(s: State, n: nat)
    ensures Release(Exec(s, SetFailures(n))) == Release(s)
  {
  }

  lemma LayerGoneGood(s: State, t: State, todo: Todo)
    requires Safe(s, Done) && AtRest(s) && s.registered
    requires t == Exec(s, SetFailures(0)) && todo == Release(t)
    ensures Good(s, Do(SetFailures(0), todo))
  {
    ReleaseGood(t);
    DoGood(s, SetFailures(0), todo);
  }

  lemma UpdateGood(s: State, outcome: UpdateOutcome)
    requires Safe(s, Done) && AtRest(s) && s.registered
    ensures Good(s, UpdateWrites(s, outcome))
  {
    match outcome
    case Failed(layerKnown) => FailedGood(s, layerKnown);
    case LayerGone =>
      var t := Exec(s, SetFailures(0));
      LayerGoneGood(s, t, Release(t));
      ReleaseIgnoresFailures(s, 0);
    case Shown(created) => ShownGood(s, created);
  }

  /** Whatever the idle renderer calls, every write on the way is safe and the method ends at rest. */
  lemma CallGood(s: State, call: Call)
    requires Safe(s, Done) && AtRest(s)
    ensures Good(s, Writes(s, call))
  {
    match call
    case Poll(layer) =>
      if layer.None? {
        ReleaseGood(s);
      } else if s.pending {
        FallbackGood(s);
      }
    case BindFails(imageCreated) =>
      if s.registered || !imageCreated {
        ReleaseGood(s);
      } else {
        BindFailsGood(s);
      }
    case Bind(k, serial) => if !s.registered && k != 0 { BindGood(s, k, serial); }
    case Update(outcome) => if s.registered { UpdateGood(s, outcome); }
    case _ => ReleaseGood(s);
  }

  /** A marker or a skipped key belongs to a registered renderer with an image and a GPU frame of that surface. */
  predicate Backed(s: State) {
    forall k | k in s.markers + s.skipped :: k == s.key != 0 && s.registered && s.hasFrame && s.image
  }

  /** Everything that a performance of good writes leaves behind is backed, and at its end the renderer is at rest. */
  lemma {:induction false} PerformanceIsSafe(p: Performance, todo: Todo)
    requires Good(p.s, todo)
    ensures var q := Perform(p, todo);
            && q.s == ExecAll(p.s, todo) && AtRest(q.s) && p.trace <= q.trace
            && forall i | |p.trace| <= i < |q.trace| :: Backed(q.trace[i])
    decreases todo
  {
    if todo.Do? {
      var t := Exec(p.s, todo.first);
      PerformanceIsSafe(Performance(t, p.trace + [t]), todo.rest);
    }
  }

  // ---- Interference ----

  /** Some of `a` has been taken away, and `b` accounts for it. */
  predicate Moved(a': set<Key>, b': set<Key>, a: set<Key>, b: set<Key>) {
    a' <= a && b <= b' && b' <= a + b && a' !! b' && a <= a' + b'
  }

  /** `t` is `s` after other threads have acted: they only take markers and keys away, which is on record. */
  predicate Weaker(t: State, s: State) {
    && t.registered == s.registered && t.ready == s.ready && t.hasFrame == s.hasFrame && t.pending == s.pending
    && t.image == s.image && t.key == s.key && t.failures == s.failures
    && Moved(t.skipped, t.lost, s.skipped, s.lost) && Moved(t.markers, t.missing, s.markers, s.missing)
  }

  lemma WeakerSafe(t: State, s: State, todo: Todo)
    requires Weaker(t, s) && Safe(s, todo)
    ensures Safe(t, todo)
    ensures AtRest(s) ==> AtRest(t)
  {
  }

  lemma MovedInsert(a': set<Key>, b': set<Key>, a: set<Key>, b: set<Key>, k: Key)
    requires Moved(a', b', a, b)
    ensures Moved(a' + {k}, b' - {k}, a + {k}, b - {k}) && Moved(a' - {k}, b' - {k}, a - {k}, b - {k})
    ensures Moved(a', b' + ({k} - a'), a, b + ({k} - a))
  {
  }

  /** Writes of the renderer's own fields. */
  predicate IsField(w: Write) {
    || w.SetRegistered? || w.SetReady? || w.SetHasFrame? || w.SetPending? || w.SetImage? || w.SetKey? || w.SetFailures?
    || w.SetBaseline? || w.ReadBaseline? || w.Attach?
  }

  lemma FieldWrite(s: State, w: Write)
    requires IsField(w)
    ensures Exec(s, w).skipped == s.skipped && Exec(s, w).lost == s.lost
    ensures Exec(s, w).markers == s.markers && Exec(s, w).missing == s.missing
  {
    match w
    case SetRegistered(_) =>
    case _ =>
  }

  lemma WeakerField(t: State, s: State, w: Write)
    requires Weaker(t, s) && IsField(w)
    ensures Weaker(Exec(t, w), Exec(s, w))
  {
    FieldWrite(t, w);
    FieldWrite(s, w);
    match w
    case SetRegistered(_) =>
    case SetReady(_) =>
    case _ =>
  }

  lemma WeakerKeys(t: State, s: State)
    requires Weaker(t, s)
    ensures Weaker(Exec(t, InsertKey), Exec(s, InsertKey)) && Weaker(Exec(t, EraseKey), Exec(s, EraseKey))
  {
    MovedInsert(t.skipped, t.lost, s.skipped, s.lost, s.key);
  }

  lemma WeakerMarkers(t: State, s: State, created: bool)
    requires Weaker(t, s)
    ensures Weaker(Exec(t, CreateMarker(created)), Exec(s, CreateMarker(created)))
    ensures Weaker(Exec(t, RemoveMarker), Exec(s, RemoveMarker))
  {
    MovedInsert(t.markers, t.missing, s.markers, s.missing, s.key);
  }

  lemma WeakerDetach(t: State, s: State)
    requires Weaker(t, s) && s.markers == {}
    ensures Weaker(Exec(t, Detach), Exec(s, Detach))
  {
    DetachEffect(t);
    DetachEffect(s);
  }

  lemma DetachEffect(s: State)
    requires s.markers == {}
    ensures Exec(s, Detach) == s.(attached := Exec(s, Detach).attached)
  {
    assert {} - {s.key} == {};
  }

  lemma WeakerExec(t: State, s: State, w: Write)
    requires Weaker(t, s) && (w == Detach ==> s.markers == {})
    ensures Weaker(Exec(t, w), Exec(s, w))
  {
    match w
    case InsertKey => WeakerKeys(t, s);
    case EraseKey => WeakerKeys(t, s);
    case CreateMarker(created) => WeakerMarkers(t, s, created);
    case RemoveMarker => WeakerMarkers(t, s, true);
    case Detach => WeakerDetach(t, s);
    case _ => WeakerField(t, s, w);
  }

  lemma {:induction false} WeakerGood(t: State, s: State, todo: Todo)
    requires Weaker(t, s) && Good(s, todo)
    ensures Good(t, todo)
    decreases todo
  {
    WeakerSafe(t, s, todo);
    if todo.Do? {
      WeakerExec(t, s, todo.first);
      WeakerGood(Exec(t, todo.first), Exec(s, todo.first), todo.rest);
    }
  }

  /** Safety at every single write of every run. */
  lemma {:induction false} AlwaysGood(steps: seq<Step>)
    requires Reached(steps).Some?
    ensures Good(Reached(steps).value.s, Reached(steps).value.todo)
    decreases |steps|
  {
    if steps != [] {
      var before, last := steps[..|steps| - 1], steps[|steps| - 1];
      AlwaysGood(before);
      var c := Reached(before).value;
      match last
      case Begin(call) => CallGood(c.s, call);
      case Next =>
      case _ => WeakerGood(Interfere(c.s, last), c.s, c.todo);
    }
  }

  // ---- What the runs guarantee ----

  /** A guest that finds a ready marker, or a compositor that leaves a surface to the GPU, can rely on a registered
      renderer that holds an image and a frame of that very surface: at every write of every run. */
  lemma PublishedIsBacked(steps: seq<Step>, k: Key)
    requires Reached(steps).Some?
    ensures var s := Reached(steps).value.s;
            k in s.markers || k in s.skipped ==> k == s.key != 0 && s.registered && s.hasFrame && s.image
  {
    AlwaysGood(steps);
  }

  /** Every ready marker has its compositor key, exactly while no published surface was destroyed under it. */
  lemma MarkerMeansKey(steps: seq<Step>)
    requires Reached(steps).Some?
    ensures var s := Reached(steps).value.s; s.markers <= s.skipped <==> s.markers !! s.lost
  {
    AlwaysGood(steps);
  }

  /** The step is the renderer editing the compositor key `k`. */
  predicate Edits(c: Config, step: Step, k: Key) {
    step == Next && c.todo.Do? && (c.todo.first == InsertKey || c.todo.first == EraseKey) && c.s.key == k != 0
  }

  /** The surface of `k` was destroyed while the compositor left it to the GPU, and the renderer has not edited its key
      since. */
  predicate Dropped(steps: seq<Step>, k: Key)
    requires Reached(steps).Some?
    decreases |steps|
  {
    && steps != []
    && var init, last := steps[..|steps| - 1], steps[|steps| - 1];
       var c := Reached(init).value;
       if last == SurfaceDestroyed(k) && k in c.s.skipped then true else !Edits(c, last, k) && Dropped(init, k)
  }

  lemma LostStep(c: Config, step: Step, k: Key)
    requires Enabled(c, step) && (k in c.s.skipped ==> k == c.s.key != 0)
    ensures k in After(c, step).s.lost <==>
            if step == SurfaceDestroyed(k) && k in c.s.skipped then true else !Edits(c, step, k) && k in c.s.lost
  {
    match step
    case Begin(call) =>
    case Next => if IsField(c.todo.first) { FieldWrite(c.s, c.todo.first); }
    case _ =>
  }

  /** The keys on record as lost are exactly those that a run has dropped this way. */
  lemma {:induction false} LostIffDropped(steps: seq<Step>, k: Key)
    requires Reached(steps).Some?
    ensures k in Reached(steps).value.s.lost <==> Dropped(steps, k)
    decreases |steps|
  {
    if steps != [] {
      var init, last := steps[..|steps| - 1], steps[|steps| - 1];
      LostIffDropped(init, k);
      AlwaysGood(init);
      LostStep(Reached(init).value, last, k);
    }
  }

  /** Every ready marker has its compositor key exactly if the run has dropped the key of none. */
  lemma MarkerMeansKeyInRun(steps: seq<Step>)
    requires Reached(steps).Some?
    ensures var s := Reached(steps).value.s; s.markers <= s.skipped <==> forall k | k in s.markers :: !Dropped(steps, k)
  {
    MarkerMeansKey(steps);
    var s := Reached(steps).value.s;
    forall k ensures k in s.lost <==> Dropped(steps, k) {
      LostIffDropped(steps, k);
    }
  }

  // ---- Keys without a marker ----

  /** The step is the renderer making the marker of `k`, or taking it back. */
  predicate Marks(c: Config, step: Step, k: Key) {
    && step == Next && c.todo.Do? && (c.todo.first == CreateMarker(true) || c.todo.first == RemoveMarker)
    && c.s.key == k != 0
  }

  /** The step leaves `k` without the marker it should have: it could not be made, or another thread takes it. */
  predicate Takes(c: Config, step: Step, k: Key) {
    match step
    case Next => c.todo.Do? && c.todo.first == CreateMarker(false) && c.s.key == k != 0 && k !in c.s.markers
    case BrokerShutdown => k in c.s.markers && k in c.s.attached
    case MarkerSweep => k in c.s.markers
    case _ => false
  }

  /** The marker of `k` could not be made or was taken, and the renderer has not made it, or taken it back, since. */
  predicate Taken(steps: seq<Step>, k: Key)
    requires Reached(steps).Some?
    decreases |steps|
  {
    && steps != []
    && var init, last := steps[..|steps| - 1], steps[|steps| - 1];
       var c := Reached(init).value;
       Takes(c, last, k) || (!Marks(c, last, k) && Taken(init, k))
  }

  lemma MissingStep(c: Config, step: Step, k: Key)
    requires Enabled(c, step)
    ensures k in After(c, step).s.missing <==> Takes(c, step, k) || (!Marks(c, step, k) && k in c.s.missing)
  {
    match step
    case Begin(call) =>
    case Next => if IsField(c.todo.first) { FieldWrite(c.s, c.todo.first); }
    case _ =>
  }

  /** The keys on record as missing their marker are exactly those. */
  lemma {:induction false} MissingIffTaken(steps: seq<Step>, k: Key)
    requires Reached(steps).Some?
    ensures k in Reached(steps).value.s.missing <==> Taken(steps, k)
    decreases |steps|
  {
    if steps != [] {
      var init, last := steps[..|steps| - 1], steps[|steps| - 1];
      MissingIffTaken(init, k);
      MissingStep(Reached(init).value, last, k);
    }
  }

  /** Between two methods, every key that CPU composition leaves out has a ready marker or a pending fallback, exactly
      if none of them has lost its marker this way. */
  lemma KeyMeansMarkerInRun(steps: seq<Step>)
    requires Reached(steps).Some? && Reached(steps).value.todo == Done
    ensures var s := Reached(steps).value.s;
            (forall k | k in s.skipped :: k in s.markers || s.pending) <==>
            (forall k | k in s.skipped :: !Taken(steps, k))
  {
    AlwaysGood(steps);
    var s := Reached(steps).value.s;
    forall k | k in s.skipped ensures k in s.markers || s.pending <==> !Taken(steps, k) {
      MissingIffTaken(steps, k);
    }
  }

  /** A key without marker and fallback stays so: polls and shown frames do not repair it, because the ready flag says
      that it is published. */
  lemma StrandedKeyStays(s: State, call: Call)
    requires Safe(s, Done) && AtRest(s) && s.key in s.skipped && s.key !in s.markers && !s.pending
    requires (call.Poll? && call.layer.Some?) || (call.Update? && call.outcome.Shown?)
    ensures var t := ExecAll(s, Writes(s, call));
            && t.key == s.key && t.key in t.skipped && t.key !in t.markers && !t.pending && Safe(t, Done) && AtRest(t)
  {
    if call.Update? {
      var t := Exec(s, SetFailures(0));
      assert ExecAll(s, Writes(s, call)) == ExecAll(t, Do(SetHasFrame(true), Done));
    }
  }

  lemma ExecLosesNothing(s: State, w: Write)
    ensures Exec(s, w).lost <= s.lost
  {
    if IsField(w) {
      FieldWrite(s, w);
    }
  }

  lemma {:induction false} NeverLost(steps: seq<Step>)
    requires Reached(steps).Some? && forall step | step in steps :: !step.SurfaceDestroyed?
    ensures Reached(steps).value.s.lost == {}
    decreases |steps|
  {
    if steps != [] {
      NeverLost(steps[..|steps| - 1]);
      assert steps[|steps| - 1] in steps;
      var c := Reached(steps[..|steps| - 1]).value;
      match steps[|steps| - 1]
      case Next => ExecLosesNothing(c.s, c.todo.first);
      case _ =>
    }
  }

  /** In runs that destroy no surface every marker has its key. */
  lemma MarkerMeansKeyUndestroyed(steps: seq<Step>)
    requires Reached(steps).Some? && forall step | step in steps :: !step.SurfaceDestroyed?
    ensures Reached(steps).value.s.markers <= Reached(steps).value.s.skipped
  {
    NeverLost(steps);
    MarkerMeansKey(steps);
  }

  /** A pending fallback has no ready marker, and its key stays out of CPU composition, unless the surface was
      destroyed, until the write that clears the flag is the next one. */
  lemma PendingKeepsKey(steps: seq<Step>)
    requires Reached(steps).Some? && Reached(steps).value.s.pending
    ensures var Config(s, todo) := Reached(steps).value;
            && !s.ready && s.markers == {}
            && (s.key in s.skipped || s.key in s.lost || (todo.Do? && todo.first == SetPending(false)))
  {
    AlwaysGood(steps);
  }

  predicate Contains(todo: Todo, w: Write) {
    todo.Do? && (todo.first == w || Contains(todo.rest, w))
  }

  /** A failed update revokes the marker of a published surface exactly if seven failures have been counted. */
  lemma RevokesExactly(s: State, layerKnown: bool)
    requires Safe(s, Done) && AtRest(s)
    ensures Contains(Writes(s, Update(Failed(layerKnown))), RemoveMarker) <==> s.ready && s.failures == REVOKE_AFTER - 1
  {
    var ws := Writes(s, Update(Failed(layerKnown)));
    if s.ready && s.failures == REVOKE_AFTER - 1 {
      var revoke := UnpublishReady(s, Do(SetPending(true), Done));
      assert Contains(revoke, RemoveMarker);
      assert ws.rest == if layerKnown then Do(ReadBaseline, revoke) else revoke;
    }
  }

  /** `n` failed updates in a row; `layerKnown` tells whether the compositor knows the layer. */
  function FailTimes(s: State, n: nat, layerKnown: bool): State {
    if n == 0 then s else
      var t := FailTimes(s, n - 1, layerKnown);
      ExecAll(t, Writes(t, Update(Failed(layerKnown))))
  }

  /** Counted from the last good frame: seven failures change nothing that others can see, the eighth revokes the
      marker and leaves the key for the pending fallback. */
  lemma {:induction false} EightFailures(s: State, n: nat, layerKnown: bool)
    requires AtRest(s) && s.registered && s.ready && !s.pending && s.failures == 0 && n <= REVOKE_AFTER
    ensures FailTimes(s, n, layerKnown) == if n < REVOKE_AFTER then s.(failures := n) else Revoked(s, layerKnown)
  {
    if n > 0 {
      EightFailures(s, n - 1, layerKnown);
      if n == REVOKE_AFTER {
        RevokeEffect(s.(failures := n - 1), layerKnown);
      } else {
        var t := s.(failures := n - 1);
        assert Writes(t, Update(Failed(layerKnown))) == Do(SetFailures(n), Done);
        assert ExecAll(t, Do(SetFailures(n), Done)) == ExecAll(Exec(t, SetFailures(n)), Done);
      }
    }
  }

  /** The state that a revocation leaves behind. */
  function Revoked(s: State, layerKnown: bool): State {
    s.(failures := REVOKE_AFTER, baseline := if layerKnown then s.serial else s.baseline,
       markers := s.markers - {s.key}, missing := s.missing - {s.key}, ready := false, pending := true)
  }

  lemma RevokeEffect(s: State, layerKnown: bool)
    requires AtRest(s) && s.registered && s.ready && !s.pending && s.failures == REVOKE_AFTER - 1
    ensures ExecAll(s, Writes(s, Update(Failed(layerKnown)))) == Revoked(s, layerKnown)
  {
    var t := Exec(s, SetFailures(REVOKE_AFTER));
    var u := if layerKnown then Exec(t, ReadBaseline) else t;
    var revoke := Do(RemoveMarker, Do(SetReady(false), Do(SetPending(true), Done)));
    var rest := if layerKnown then Do(ReadBaseline, revoke) else revoke;
    assert Writes(s, Update(Failed(layerKnown))) == Do(SetFailures(REVOKE_AFTER), rest);
    UnpublishEffect(u, revoke);
    assert ExecAll(t, rest) == ExecAll(u, revoke);
  }

  lemma UnpublishEffect(s: State, revoke: Todo)
    requires s.key != 0 && revoke == Do(RemoveMarker, Do(SetReady(false), Do(SetPending(true), Done)))
    ensures ExecAll(s, revoke) ==
            s.(markers := s.markers - {s.key}, missing := s.missing - {s.key}, ready := false, pending := true)
  {
    var t := Exec(s, RemoveMarker);
    assert ExecAll(s, revoke) == ExecAll(t, revoke.rest);
    assert ExecAll(t, revoke.rest) == ExecAll(Exec(t, SetReady(false)), Do(SetPending(true), Done));
  }

  // ---- The fallback waits for a new frame ----

  /** What step `m` of the run writes, if it is a renderer write. */
  function WriteAt(steps: seq<Step>, m: nat): Option<Write>
    requires m < |steps|
  {
    match Reached(steps[..m])
    case Some(c) => if steps[m] == Next && c.todo.Do? then Some(c.todo.first) else None
    case None => None
  }

  predicate KeepsBaseline(steps: seq<Step>, m: nat)
    requires m < |steps|
  {
    match WriteAt(steps, m)
    case Some(ReadBaseline) => false
    case Some(SetBaseline(_)) => false
    case _ => true
  }

  lemma {:induction false} PrefixReached(steps: seq<Step>, m: nat)
    requires Reached(steps).Some? && m <= |steps|
    ensures Reached(steps[..m]).Some?
    decreases |steps|
  {
    if m < |steps| {
      PrefixReached(steps[..|steps| - 1], m);
      assert steps[..|steps| - 1][..m] == steps[..m];
    } else {
      assert steps[..m] == steps;
    }
  }

  lemma StepAt(steps: seq<Step>, m: nat)
    requires Reached(steps).Some? && m < |steps|
    ensures Reached(steps[..m]).Some? && Enabled(Reached(steps[..m]).value, steps[m])
    ensures Reached(steps[..m + 1]) == Some(After(Reached(steps[..m]).value, steps[m]))
  {
    PrefixReached(steps, m);
    PrefixReached(steps, m + 1);
    assert steps[..m + 1][..m] == steps[..m];
  }

  /** The state before step `m` of a run. */
  function StateAt(steps: seq<Step>, m: nat): State
    requires Reached(steps).Some? && m <= |steps|
  {
    PrefixReached(steps, m);
    Reached(steps[..m]).value.s
  }

  /** Between the revocation and a later point without commits, the serial has not passed the baseline. */
  lemma {:induction false} BaselineFresh(steps: seq<Step>, i: nat, j: nat)
    requires Reached(steps).Some? && i < j <= |steps|
    requires WriteAt(steps, i) == Some(ReadBaseline)
    requires forall m | i < m < j :: KeepsBaseline(steps, m) && steps[m] != ShmCommit
    ensures StateAt(steps, j).serial <= StateAt(steps, j).baseline
    decreases j
  {
    if i < j - 1 {
      BaselineFresh(steps, i, j - 1);
      BaselineStep(steps, j - 1);
    } else {
      BaselineRead(steps, i);
    }
  }

  lemma BaselineRead(steps: seq<Step>, i: nat)
    requires Reached(steps).Some? && i < |steps| && WriteAt(steps, i) == Some(ReadBaseline)
    ensures StateAt(steps, i + 1).serial == StateAt(steps, i + 1).baseline
  {
    StepAt(steps, i);
    var c := Reached(steps[..i]).value;
    assert steps[i] == Next && c.todo.first == ReadBaseline;
  }

  /** What a step that keeps the baseline does to the serial. */
  lemma BaselineStep(steps: seq<Step>, m: nat)
    requires Reached(steps).Some? && m < |steps| && KeepsBaseline(steps, m)
    ensures StateAt(steps, m + 1).baseline == StateAt(steps, m).baseline
    ensures steps[m] == ShmCommit ==> StateAt(steps, m + 1).serial == StateAt(steps, m).serial + 1
    ensures steps[m] != ShmCommit ==> StateAt(steps, m + 1).serial <= StateAt(steps, m).serial
    ensures steps[m] != ShmCommit && !steps[m].SurfaceDestroyed? ==>
              StateAt(steps, m + 1).serial == StateAt(steps, m).serial
  {
    StepAt(steps, m);
    var c := Reached(steps[..m]).value;
    if steps[m] == Next {
      assert WriteAt(steps, m) == Some(c.todo.first);
      SerialStays(c.s, c.todo.first);
    }
  }

  lemma SerialStays(s: State, w: Write)
    ensures Exec(s, w).serial == s.serial
    ensures w != ReadBaseline && !w.SetBaseline? ==> Exec(s, w).baseline == s.baseline
  {
    match w
    case SetRegistered(_) =>
    case SetReady(_) =>
    case _ =>
  }

  /** The CPU fallback after a revocation that found the layer never shows a frame older than the revocation: when a
      poll begins to drop the key, a client has committed a frame since the baseline was read. */
  lemma FallbackWaitsForCommit(steps: seq<Step>, i: nat, j: nat, layer: Option<nat>)
    requires Reached(steps).Some? && i < j < |steps|
    requires WriteAt(steps, i) == Some(ReadBaseline)
    requires forall m | i < m < j :: KeepsBaseline(steps, m)
    requires steps[j] == Begin(Poll(layer)) && layer.Some?
    requires Writes(StateAt(steps, j), Poll(layer)) != Done
    ensures exists m | i < m < j :: steps[m] == ShmCommit
  {
    StepAt(steps, j);
    if forall m | i < m < j :: steps[m] != ShmCommit {
      BaselineFresh(steps, i, j);
    }
  }

  /** How many frames the client has committed from step `i` on, before step `j`. */
  function Commits(steps: seq<Step>, i: nat, j: nat): nat
    requires i <= j <= |steps|
  {
    if i == j then 0 else Commits(steps, i, j - 1) + if steps[j - 1] == ShmCommit then 1 else 0
  }

  lemma {:induction false} SerialCounts(steps: seq<Step>, i: nat, j: nat)
    requires Reached(steps).Some? && i <= j <= |steps|
    requires forall m | i <= m < j :: KeepsBaseline(steps, m) && !steps[m].SurfaceDestroyed?
    ensures StateAt(steps, j).baseline == StateAt(steps, i).baseline
    ensures StateAt(steps, j).serial == StateAt(steps, i).serial + Commits(steps, i, j)
    decreases j
  {
    if i < j {
      SerialCounts(steps, i, j - 1);
      BaselineStep(steps, j - 1);
    }
  }

  /** Exactly when a poll ends a pending fallback, counted from any point since which the baseline has been kept and no
      surface destroyed: once the commits have carried the serial past the baseline. */
  lemma FallbackIff(steps: seq<Step>, i: nat, layer: Option<nat>)
    requires Reached(steps).Some? && i <= |steps| && layer.Some?
    requires forall m | i <= m < |steps| :: KeepsBaseline(steps, m) && !steps[m].SurfaceDestroyed?
    requires Reached(steps).value.s.pending && Enabled(Reached(steps).value, Begin(Poll(layer)))
    ensures var s := StateAt(steps, i);
            Writes(Reached(steps).value.s, Poll(layer)) ==
            if s.serial + Commits(steps, i, |steps|) > s.baseline then CpuFallback() else Done
  {
    AlwaysGood(steps);
    SerialCounts(steps, i, |steps|);
    assert steps[..|steps|] == steps;
  }

  /** So a revocation waits for a new frame if and only if it finds the layer, or the baseline is not behind the serial
      anyway: otherwise the very next poll ends the fallback, and CPU composition shows the old frame. */
  lemma FallbackWaitsIff(s: State, layerKnown: bool)
    requires AtRest(s) && s.registered && s.ready && !s.pending && s.failures == REVOKE_AFTER - 1
    ensures var t := ExecAll(s, Writes(s, Update(Failed(layerKnown))));
            && t.pending && t.serial == s.serial
            && (Writes(t, Poll(Some(t.serial))) == Done <==> layerKnown || s.serial <= s.baseline)
            && (Writes(t, Poll(Some(t.serial))) == CpuFallback() <==> !layerKnown && s.serial > s.baseline)
  {
    RevokeEffect(s, layerKnown);
  }

  /** A frame that arrives while a fallback is pending cancels it: the flag is cleared first, then key, marker and
      ready flag are back together, and no later commit makes a poll drop the key. */
  lemma RecoveryRestoresBoth(s: State, created: bool, serial: nat)
    requires Safe(s, Done) && AtRest(s) && s.pending
    ensures Writes(s, Update(Shown(created))) ==
            Do(SetFailures(0), Do(SetHasFrame(true), Do(SetPending(false), PublishActive(s, created, Done))))
    ensures var t := ExecAll(s, Writes(s, Update(Shown(created))));
            && t.ready && !t.pending && t.hasFrame && t.key == s.key
            && t.key in t.skipped && (t.key in t.markers <==> created)
            && Writes(t, Poll(Some(serial))) == Done
  {
    var t := s.(failures := 0, hasFrame := true, pending := false);
    var publish := PublishActive(s, created, Done);
    assert ExecAll(s, Writes(s, Update(Shown(created)))) == ExecAll(t, publish);
    assert publish == Do(InsertKey, Do(CreateMarker(created), Do(SetReady(true), Done)));
    var u := Exec(Exec(t, InsertKey), CreateMarker(created));
    assert ExecAll(t, publish) == ExecAll(u, Do(SetReady(true), Done)) == Exec(u, SetReady(true));
  }

  /** What holds once a recovery has run its course: published again, fallback over, key covered. */
  predicate Recovered(s: State, key: Key) {
    s.registered && s.ready && !s.pending && s.hasFrame && s.key == key && Covered(s, key)
  }

  predicate LeadsToRecovery(s: State, todo: Todo, key: Key)
    decreases todo
  {
    match todo
    case Done => Recovered(s, key)
    case Do(w, rest) => LeadsToRecovery(Exec(s, w), rest, key)
  }

  lemma {:induction false} WeakerLeads(t: State, s: State, todo: Todo, key: Key)
    requires Weaker(t, s) && Good(s, todo) && LeadsToRecovery(s, todo, key)
    ensures LeadsToRecovery(t, todo, key)
    decreases todo
  {
    if todo.Do? {
      WeakerExec(t, s, todo.first);
      WeakerLeads(Exec(t, todo.first), Exec(s, todo.first), todo.rest, key);
    }
  }

  lemma {:induction false} LeadsToEffect(s: State, todo: Todo, key: Key)
    requires Recovered(ExecAll(s, todo), key)
    ensures LeadsToRecovery(s, todo, key)
    decreases todo
  {
    if todo.Do? {
      LeadsToEffect(Exec(s, todo.first), todo.rest, key);
    }
  }

  lemma RecoveryStep(c: Config, step: Step, key: Key)
    requires Good(c.s, c.todo) && LeadsToRecovery(c.s, c.todo, key)
    requires Enabled(c, step) && !step.Begin?
    ensures LeadsToRecovery(After(c, step).s, After(c, step).todo, key)
  {
    if step != Next {
      WeakerLeads(Interfere(c.s, step), c.s, c.todo, key);
    }
  }

  lemma {:induction false} RecoveryLeads(steps: seq<Step>, n: nat, created: bool)
    requires Reached(steps).Some? && n < |steps| && steps[n] == Begin(Update(Shown(created)))
    requires Reached(steps[..n]).Some? && Reached(steps[..n]).value.s.pending
    requires forall m | n < m < |steps| :: !steps[m].Begin?
    ensures LeadsToRecovery(Reached(steps).value.s, Reached(steps).value.todo, Reached(steps[..n]).value.s.key)
    decreases |steps|
  {
    var init, last := steps[..|steps| - 1], steps[|steps| - 1];
    var key := Reached(steps[..n]).value.s.key;
    AlwaysGood(init);
    if n == |init| {
      assert init == steps[..n];
      RecoveryRestoresBoth(Reached(init).value.s, created, 0);
      LeadsToEffect(Reached(init).value.s, Reached(steps).value.todo, key);
    } else {
      assert init[..n] == steps[..n];
      RecoveryLeads(init, n, created);
      RecoveryStep(Reached(init).value, last, key);
    }
  }

  /** The same with other threads acting between any two writes: whenever the update that a pending fallback met is
      done, the surface is published again, the fallback is over, and a poll has nothing to do. */
  lemma RecoveryUnderInterference(steps: seq<Step>, n: nat, created: bool, serial: nat)
    requires Reached(steps).Some? && n < |steps| && steps[n] == Begin(Update(Shown(created)))
    requires Reached(steps[..n]).Some? && Reached(steps[..n]).value.s.pending
    requires forall m | n < m < |steps| :: !steps[m].Begin?
    requires Reached(steps).value.todo == Done
    ensures Recovered(Reached(steps).value.s, Reached(steps[..n]).value.s.key)
    ensures Writes(Reached(steps).value.s, Poll(Some(serial))) == Done
  {
    RecoveryLeads(steps, n, created);
  }

  // ---- The one way a marker loses its key ----

  /** A surface that was destroyed while published and created again under the same key stays without its compositor
      key: frames and polls keep the marker and do not put the key back, because the ready flag says it is published. */
  lemma RecreatedSurfaceStaysUncovered(s: State, call: Call)
    requires Safe(s, Done) && AtRest(s) && s.ready && s.key in s.markers && s.key in s.lost
    requires (call.Poll? && call.layer.Some?) || (call.Update? && call.outcome.Shown?)
    ensures var t := ExecAll(s, Writes(s, call));
            && t.ready && t.key == s.key && t.key in t.markers && t.key !in t.skipped && t.key in t.lost
            && t.registered && AtRest(t)
  {
    if call.Update? {
      var t := Exec(s, SetFailures(0));
      assert ExecAll(s, Writes(s, call)) == ExecAll(t, Do(SetHasFrame(true), Done));
    }
  }

  /** A method call that nobody interrupts is a run that ends in the method's net effect. */
  lemma {:induction false} Drains(steps: seq<Step>, c: Config) returns (longer: seq<Step>)
    requires Reached(steps) == Some(c)
    ensures Reached(longer) == Some(Config(ExecAll(c.s, c.todo), Done))
    decreases c.todo
  {
    longer := steps;
    if c.todo.Do? {
      longer := steps + [Next];
      assert longer[..|longer| - 1] == steps;
      longer := Drains(longer, Config(Exec(c.s, c.todo.first), c.todo.rest));
    }
  }

  lemma Performs(steps: seq<Step>, s: State, call: Call) returns (longer: seq<Step>)
    requires Reached(steps) == Some(Config(s, Done)) && Enabled(Config(s, Done), Begin(call))
    ensures Reached(longer) == Some(Config(ExecAll(s, Writes(s, call)), Done))
  {
    longer := steps + [Begin(call)];
    assert longer[..|longer| - 1] == steps;
    longer := Drains(longer, Config(s, Writes(s, call)));
  }

  lemma AdoptEffect(s: State, k: Key, serial: nat)
    ensures ExecAll(s, Adopt(k, serial)) ==
            s.(key := k, registered := true, pending := false, baseline := serial, failures := 0)
  {
    var t := s.(key := k, registered := true);
    var rest := Do(SetPending(false), Do(SetBaseline(serial), Do(SetFailures(0), Done)));
    assert ExecAll(s, Adopt(k, serial)) == ExecAll(t, rest);
    assert ExecAll(t, rest) == ExecAll(t.(pending := false, baseline := serial), Do(SetFailures(0), Done));
  }

  lemma BindEffect(s: State, k: Key)
    requires !s.registered && k != 0
    ensures ExecAll(s, Writes(s, Bind(k, s.serial))) ==
            s.(image := true, attached := s.attached + {k}, key := k, registered := true, pending := false,
               baseline := s.serial, failures := 0)
  {
    AdoptEffect(s.(image := true, attached := s.attached + {k}), k, s.serial);
  }

  lemma ShownEffect(s: State)
    requires s.registered && s.image && s.key != 0 && !s.pending && !s.ready
    ensures ExecAll(s, Writes(s, Update(Shown(true)))) ==
            s.(failures := 0, hasFrame := true, skipped := s.skipped + {s.key}, lost := s.lost - {s.key},
               markers := s.markers + {s.key}, missing := s.missing - {s.key}, ready := true)
  {
    var w := Writes(s, Update(Shown(true)));
    var t := s.(failures := 0, hasFrame := true);
    assert ExecAll(s, w) == ExecAll(t, w.rest.rest);
    assert w.rest.rest == Do(InsertKey, Do(CreateMarker(true), Do(SetReady(true), Done)));
    assert ExecAll(t, w.rest.rest) == ExecAll(Exec(Exec(t, InsertKey), CreateMarker(true)), Do(SetReady(true), Done));
  }

  /** A bound surface with a published frame. */
  const PUBLISHED := INIT.(registered := true, ready := true, hasFrame := true, image := true, key := 5, skipped := {5},
                           markers := {5}, attached := {5})

  lemma PublishedIsReachable() returns (steps: seq<Step>)
    ensures Reached(steps) == Some(Config(PUBLISHED, Done))
  {
    var bound := INIT.(registered := true, image := true, key := 5, attached := {5});
    BindEffect(INIT, 5);
    assert ExecAll(INIT, Writes(INIT, Bind(5, 0))) == bound by {
      assert {} + {5} == {5};
    }
    steps := Performs([], INIT, Bind(5, 0));
    ShownEffect(bound);
    assert ExecAll(bound, Writes(bound, Update(Shown(true)))) == PUBLISHED by {
      PublishedSets();
    }
    steps := Performs(steps, bound, Update(Shown(true)));
  }

  lemma PublishedSets()
    ensures PUBLISHED.skipped == {} + {5} && PUBLISHED.markers == {} + {5}
    ensures PUBLISHED.lost == {} - {5} && PUBLISHED.missing == {} - {5}
  {
  }

  lemma Extend(steps: seq<Step>, step: Step) returns (longer: seq<Step>)
    requires Reached(steps).Some? && Enabled(Reached(steps).value, step)
    ensures longer == steps + [step] && Reached(longer) == Some(After(Reached(steps).value, step))
  {
    longer := steps + [step];
    assert longer[..|longer| - 1] == steps;
  }

  /** Such a state is reached: bind, show a frame, destroy the surface. */
  lemma MarkerWithoutKeyIsReachable() returns (steps: seq<Step>)
    ensures Reached(steps).Some? && Reached(steps).value.todo == Done
    ensures var s := Reached(steps).value.s; s.ready && s.key in s.markers && s.key !in s.skipped
  {
    steps := PublishedIsReachable();
    steps := Extend(steps, SurfaceDestroyed(5));
  }

  /** So is a key without marker and fallback: sweep the markers. */
  lemma StrandedKeyIsReachable() returns (steps: seq<Step>)
    ensures Reached(steps).Some? && Reached(steps).value.todo == Done
    ensures var s := Reached(steps).value.s; s.key in s.skipped && s.key !in s.markers && !s.pending
  {
    steps := PublishedIsReachable();
    steps := Extend(steps, MarkerSweep);
  }

  lemma {:induction false} FailsInARow(steps: seq<Step>, s: State, n: nat) returns (longer: seq<Step>)
    requires Reached(steps) == Some(Config(s, Done))
    ensures Reached(longer) == Some(Config(FailTimes(s, n, false), Done))
  {
    if n == 0 {
      longer := steps;
    } else {
      longer := FailsInARow(steps, s, n - 1);
      longer := Performs(longer, FailTimes(s, n - 1, false), Update(Failed(false)));
    }
  }

  /** And a fallback that does not wait: commit a frame, then fail eight times while the layer is not found. */
  lemma HastyFallbackIsReachable() returns (steps: seq<Step>)
    ensures Reached(steps).Some? && Reached(steps).value.todo == Done
    ensures var s := Reached(steps).value.s; s.pending && Writes(s, Poll(Some(s.serial))) == CpuFallback()
  {
    steps := PublishedIsReachable();
    steps := Extend(steps, ShmCommit);
    var s := PUBLISHED.(serial := 1);
    steps := FailsInARow(steps, s, REVOKE_AFTER);
    EightFailures(s, REVOKE_AFTER, false);
  }
}
