/** What the audio broker's commands do to its stream table, its two published snapshots and its capturer, and what
    every run of connections and commands keeps. */
module AudioBrokerSpec {
  import opened MachineInts
  import opened Wrappers
  import opened AudioStreams

  const OK := 0
  const EPERM := -1
  const ENOENT := -2
  const EIO := -5
  const EINVAL := -22

  datatype Stream = Stream(owner: u32, direction: Direction, state: StreamState)

  datatype State = State(
    streams: map<u32, Stream>, nextStreamId: u32, running: bool, renderer: bool, capturer: bool, capturerRunning: bool,
    renderSnapshot: set<u32>, captureSnapshot: set<u32>)

  const INIT := State(map[], 1, false, false, false, false, {}, {})

  function OfDirection(streams: map<u32, Stream>, d: Direction): (ids: set<u32>)
    ensures forall id :: id in ids <==> id in streams && streams[id].direction == d
  {
    set id | id in streams && streams[id].direction == d
  }

  function Publish(s: State): State {
    s.(renderSnapshot := OfDirection(s.streams, Render), captureSnapshot := OfDirection(s.streams, Capture))
  }

  predicate HasStartedCapture(streams: map<u32, Stream>) {
    exists id | id in streams :: streams[id].direction == Capture && streams[id].state == Started
  }

  /** The owner check that precedes every command on a stream. */
  function OwnerStatus(s: State, connection: u32, id: u32): int {
    if id !in s.streams then ENOENT else if s.streams[id].owner != connection then EPERM else OK
  }

  /** A client's command, with the answers of the platform. */
  datatype Command =
    | Open(capture: bool, formatOk: bool, capturerReady: bool, ringCreated: bool)
    | Start(id: u32, capturerStarts: bool) | Stop(id: u32) | Reset(id: u32) | Close(id: u32)

  function Outcome(s: State, connection: u32, command: Command): int {
    match command
    case Open(capture, formatOk, capturerReady, ringCreated) =>
      if !s.running then EIO
      else if !formatOk then EINVAL
      else if capture && !s.capturer && !capturerReady then EIO
      else if !capture && !s.renderer then EIO
      else if !ringCreated then EIO
      else OK
    case Start(id, capturerStarts) =>
      if OwnerStatus(s, connection, id) != OK then OwnerStatus(s, connection, id)
      else if NeedsCapturer(s, id) && !capturerStarts then EIO
      else OK
    case _ => OwnerStatus(s, connection, command.id)
  }

  /** Starting this stream has to start the shared capturer first. */
  predicate NeedsCapturer(s: State, id: u32)
    requires id in s.streams
  {
    s.streams[id].direction == Capture && s.capturer && !s.capturerRunning
  }

  function SetState(s: State, id: u32, state: StreamState): State
    requires id in s.streams
  {
    s.(streams := s.streams[id := s.streams[id].(state := state)])
  }

  /** The shared capturer stops when no capture stream is started any more. */
  function StopIdleCapturer(s: State): State {
    if s.capturer && !HasStartedCapture(s.streams) then s.(capturerRunning := false) else s
  }

  /** The stream that an open creates once its checks have passed. */
  function Created(s: State, connection: u32, direction: Direction, ringCreated: bool): State {
    var id := s.nextStreamId;
    var t := s.(nextStreamId := (id + 1) % 0x1_0000_0000);
    if !ringCreated then t
    else Publish(if id in t.streams then t else t.(streams := t.streams[id := Stream(connection, direction, Stopped)]))
  }

  function Opened(s: State, connection: u32, command: Command): State
    requires command.Open?
  {
    if !s.running || !command.formatOk then s
    else if command.capture then
      if s.capturer then Created(s, connection, Capture, command.ringCreated)
      else if command.capturerReady then
        Created(s.(capturer := true, capturerRunning := false), connection, Capture, command.ringCreated)
      else s
    else if s.renderer then Created(s, connection, Render, command.ringCreated)
    else s
  }

  /** A stream that has just been started starts the capturer it needs, or is stopped again. */
  function CapturerStarted(s: State, id: u32, capturerStarts: bool): State
    requires id in s.streams
  {
    if !NeedsCapturer(s, id) then s
    else if capturerStarts then s.(capturerRunning := true)
    else SetState(s, id, Stopped)
  }

  function StoppedStream(s: State, id: u32): State
    requires id in s.streams
  {
    var t := SetState(s, id, Stopped);
    if s.streams[id].direction == Capture then StopIdleCapturer(t) else t
  }

  function ClosedStream(s: State, id: u32): State
    requires id in s.streams
  {
    var t := Publish(s.(streams := s.streams - {id}));
    if s.streams[id].direction == Capture then StopIdleCapturer(t) else t
  }

  function Effect(s: State, connection: u32, command: Command): State {
    if command.Open? then Opened(s, connection, command)
    else if OwnerStatus(s, connection, command.id) != OK then s
    else
      match command
      case Start(id, capturerStarts) => CapturerStarted(SetState(s, id, Started), id, capturerStarts)
      case Stop(id) => StoppedStream(s, id)
      case Reset(id) => SetState(s, id, Stopped)
      case Close(id) => ClosedStream(s, id)
  }

  function OwnedBy(streams: map<u32, Stream>, connection: u32): (ids: set<u32>)
    ensures forall id :: id in ids <==> id in streams && streams[id].owner == connection
  {
    set id | id in streams && streams[id].owner == connection
  }

  /** The cleanup a connection's handler ends with. */
  function Cleanup(s: State, connection: u32): State {
    var owned := OwnedBy(s.streams, connection);
    if owned == {} then s
    else
      var t := Publish(s.(streams := s.streams - owned));
      if HasStartedCapture(t.streams) then t else t.(capturerRunning := false)
  }

  /** The second half of stopping the broker, after its server has joined every handler. */
  function Shutdown(s: State): State {
    Publish(s.(streams := map[])).(capturer := false, capturerRunning := false, renderer := false)
  }

  // ---- Runs ----

  /** A connection that a server accepted: which server, and how many that server had accepted before. Every server
      counts its 32-bit ids from one. */
  datatype Connection = Connection(server: nat, serial: nat) {
    function Id(): u32 {
      (serial + 1) % 0x1_0000_0000
    }
  }

  /** The broker with its servers: the connections whose handlers have not finished their cleanup, how many connections
      each server has accepted, the servers whose stop has not finished, the stream ids handed out so far, and
      who opened which stream. */
  datatype Config = Config(
    s: State, live: set<Connection>, accepted: seq<nat>, stopping: set<nat>, given: seq<u32>,
    openers: map<u32, Connection>)

  const START := Config(INIT, {}, [], {}, [], map[])

  datatype Step =
    | Launch(rendererReady: bool, serverReady: bool)
    | Connect(server: nat, threadStarted: bool) | Request(connection: Connection, command: Command)
    | Disconnect(connection: Connection)
    | BeginStop | FinishStop(server: nat)

  /** The current server accepts connections, and so does one that is told to stop later. A request needs its handler,
      and the last half of a stop needs every handler of its server to be done. The broker may be launched again between
      the two halves of a stop, which hold its lock only one at a time. */
  predicate Enabled(c: Config, step: Step) {
    match step
    case Launch(_, _) => true
    case Connect(server, _) => Serves(c, server)
    case Request(connection, _) => connection in c.live
    case Disconnect(connection) => connection in c.live
    case BeginStop => c.s.running && c.accepted != []
    case FinishStop(server) => server in c.stopping && !HasHandlers(c, server)
  }

  predicate Serves(c: Config, server: nat) {
    server < |c.accepted| && (server in c.stopping || (c.s.running && server == |c.accepted| - 1))
  }

  predicate HasHandlers(c: Config, server: nat) {
    exists connection | connection in c.live :: connection.server == server
  }

  function After(c: Config, step: Step): Config
    requires Enabled(c, step)
  {
    match step
    case Launch(rendererReady, serverReady) =>
      if c.s.running || (!c.s.renderer && !rendererReady) then c
      else if !serverReady then c.(s := c.s.(renderer := false))
      else c.(s := c.s.(running := true, renderer := true), accepted := c.accepted + [0])
    case Connect(server, threadStarted) =>
      c.(accepted := c.accepted[server := c.accepted[server] + 1],
         live := if threadStarted then c.live + {Connection(server, c.accepted[server])} else c.live)
    case Request(connection, command) =>
      var t := Effect(c.s, connection.Id(), command);
      c.(s := t,
         given := if t.nextStreamId != c.s.nextStreamId then c.given + [c.s.nextStreamId] else c.given,
         openers := c.openers + map id | id in t.streams && id !in c.s.streams :: connection)
    case Disconnect(connection) => c.(s := Cleanup(c.s, connection.Id()), live := c.live - {connection})
    case BeginStop => c.(s := c.s.(running := false), stopping := c.stopping + {|c.accepted| - 1})
    case FinishStop(server) => c.(s := Shutdown(c.s), stopping := c.stopping - {server})
  }

  function Reached(steps: seq<Step>): Option<Config>
    decreases |steps|
  {
    if steps == [] then Some(START)
    else
      match Reached(steps[..|steps| - 1])
      case None => None
      case Some(c) => if Enabled(c, steps[|steps| - 1]) then Some(After(c, steps[|steps| - 1])) else None
  }

  // ---- Snapshots and the capturer ----

  /** The two snapshots are the table, split by direction. */
  predicate Published(s: State) {
    s.renderSnapshot == OfDirection(s.streams, Render) && s.captureSnapshot == OfDirection(s.streams, Capture)
  }

  /** A started capture stream means a running capturer, and a running capturer means a capturer and a capture stream in
      the table. */
  predicate CapturerSound(s: State) {
    && (HasStartedCapture(s.streams) ==> s.capturerRunning)
    && (s.capturerRunning ==> s.capturer && OfDirection(s.streams, Capture) != {})
    && (OfDirection(s.streams, Capture) != {} ==> s.capturer)
  }

  predicate Sound(s: State) {
    Published(s) && CapturerSound(s)
  }

  /** Changing the state of one stream moves no stream to another snapshot. */
  lemma SetStateKeeps(s: State, id: u32, state: StreamState)
    requires Sound(s) && id in s.streams
    ensures Published(SetState(s, id, state))
    ensures forall d :: OfDirection(SetState(s, id, state).streams, d) == OfDirection(s.streams, d)
    ensures HasStartedCapture(SetState(s, id, state).streams) ==>
              HasStartedCapture(s.streams) || (state == Started && s.streams[id].direction == Capture)
  {
    var t := SetState(s, id, state);
    forall d ensures OfDirection(t.streams, d) == OfDirection(s.streams, d) {
    }
    if HasStartedCapture(t.streams) {
      var at :| at in t.streams && t.streams[at].direction == Capture && t.streams[at].state == Started;
      assert at in s.streams;
    }
  }

  /** Creating a stream changes no other and, at most, adds one that is stopped. */
  lemma CreatedAdds(s: State, connection: u32, d: Direction, ringCreated: bool)
    ensures var t := Created(s, connection, d, ringCreated);
            && (forall id | id in s.streams :: id in t.streams && t.streams[id] == s.streams[id])
            && (forall id | id in t.streams ::
                  id in s.streams || (id == s.nextStreamId && t.streams[id] == Stream(connection, d, Stopped)))
            && t.running == s.running && t.renderer == s.renderer && t.capturer == s.capturer
            && t.capturerRunning == s.capturerRunning && t.nextStreamId == (s.nextStreamId + 1) % 0x1_0000_0000
    ensures HasStartedCapture(Created(s, connection, d, ringCreated).streams) <==> HasStartedCapture(s.streams)
  {
    var t := Created(s, connection, d, ringCreated);
    if HasStartedCapture(t.streams) {
      var at :| at in t.streams && t.streams[at].direction == Capture && t.streams[at].state == Started;
      assert at in s.streams;
    }
  }

  /** So does an open. */
  lemma OpenedAdds(s: State, connection: u32, command: Command)
    requires command.Open?
    ensures var t := Opened(s, connection, command);
            && (forall id | id in s.streams :: id in t.streams && t.streams[id] == s.streams[id])
            && (forall id | id in t.streams :: id in s.streams ||
                  (t.streams[id].owner == connection && id == s.nextStreamId &&
                   t.nextStreamId == (s.nextStreamId + 1) % 0x1_0000_0000))
            && t.running == s.running && t.renderer == s.renderer
            && (t.nextStreamId == s.nextStreamId || t.nextStreamId == (s.nextStreamId + 1) % 0x1_0000_0000)
    ensures HasStartedCapture(Opened(s, connection, command).streams) <==> HasStartedCapture(s.streams)
  {
    var u := s.(capturer := true, capturerRunning := false);
    CreatedAdds(if command.capture && !s.capturer then u else s, connection,
                if command.capture then Capture else Render, command.ringCreated);
  }

  lemma CreatedKeeps(s: State, connection: u32, d: Direction, ringCreated: bool)
    requires Sound(s) && (d == Capture ==> s.capturer)
    ensures Sound(Created(s, connection, d, ringCreated))
  {
    var t := Created(s, connection, d, ringCreated);
    CreatedAdds(s, connection, d, ringCreated);
    if OfDirection(s.streams, Capture) != {} {
      var at :| at in OfDirection(s.streams, Capture);
      assert at in OfDirection(t.streams, Capture);
    }
    if OfDirection(t.streams, Capture) != {} {
      var at :| at in OfDirection(t.streams, Capture);
      assert at in s.streams ==> at in OfDirection(s.streams, Capture);
    }
  }

  lemma OpenKeeps(s: State, connection: u32, command: Command)
    requires Sound(s) && command.Open?
    ensures Sound(Opened(s, connection, command))
  {
    var d := if command.capture then Capture else Render;
    if d == Capture && !s.capturer {
      var u := s.(capturer := true, capturerRunning := false);
      CreatedKeeps(u, connection, d, command.ringCreated);
    } else {
      CreatedKeeps(s, connection, d, command.ringCreated);
    }
  }

  lemma CloseKeeps(s: State, id: u32)
    requires Sound(s) && id in s.streams
    ensures Sound(ClosedStream(s, id))
  {
    RemovalKeeps(s, {id});
    var t := Publish(s.(streams := s.streams - {id}));
    if s.streams[id].direction == Render {
      assert forall other | other in OfDirection(s.streams, Capture) :: other in OfDirection(t.streams, Capture);
    } else if HasStartedCapture(t.streams) {
      var at :| at in t.streams && t.streams[at].direction == Capture && t.streams[at].state == Started;
      assert at in OfDirection(t.streams, Capture);
    }
  }

  lemma StopKeeps(s: State, id: u32)
    requires Sound(s) && id in s.streams
    ensures Sound(StoppedStream(s, id))
  {
    SetStateKeeps(s, id, Stopped);
  }

  lemma StartKeeps(s: State, id: u32, capturerStarts: bool)
    requires Sound(s) && id in s.streams
    ensures Sound(CapturerStarted(SetState(s, id, Started), id, capturerStarts))
  {
    var t := SetState(s, id, Started);
    SetStateKeeps(s, id, Started);
    SetStateKeeps(s, id, Stopped);
    assert SetState(t, id, Stopped) == SetState(s, id, Stopped);
    if s.streams[id].direction == Capture {
      assert id in OfDirection(s.streams, Capture);
    }
  }

  /** Removing streams starts none and leaves the rest as they are. */
  lemma RemovalKeeps(s: State, gone: set<u32>)
    ensures HasStartedCapture(s.streams - gone) ==> HasStartedCapture(s.streams)
    ensures HasStartedCapture(s.streams - gone) ==> OfDirection(s.streams - gone, Capture) != {}
    ensures OfDirection(s.streams - gone, Capture) != {} ==> OfDirection(s.streams, Capture) != {}
  {
    if HasStartedCapture(s.streams - gone) {
      var at :| at in s.streams - gone && (s.streams - gone)[at].direction == Capture &&
                (s.streams - gone)[at].state == Started;
      assert at in OfDirection(s.streams - gone, Capture);
    }
    if OfDirection(s.streams - gone, Capture) != {} {
      var at :| at in OfDirection(s.streams - gone, Capture);
      assert at in OfDirection(s.streams, Capture);
    }
  }

  lemma CommandKeeps(s: State, connection: u32, command: Command)
    requires Sound(s)
    ensures Sound(Effect(s, connection, command))
  {
    if command.Open? {
      OpenKeeps(s, connection, command);
    } else if OwnerStatus(s, connection, command.id) == OK {
      match command
      case Start(id, capturerStarts) => StartKeeps(s, id, capturerStarts);
      case Stop(id) => StopKeeps(s, id);
      case Reset(id) => SetStateKeeps(s, id, Stopped);
      case Close(id) => CloseKeeps(s, id);
    }
  }

  lemma CleanupKeeps(s: State, connection: u32)
    requires Sound(s)
    ensures Sound(Cleanup(s, connection))
  {
    RemovalKeeps(s, OwnedBy(s.streams, connection));
  }

  /** In every run the snapshots are the table split by direction, and the capturer runs for a reason. */
  lemma {:induction false} AlwaysSound(steps: seq<Step>)
    requires Reached(steps).Some?
    ensures Sound(Reached(steps).value.s)
    decreases |steps|
  {
    if steps != [] {
      AlwaysSound(steps[..|steps| - 1]);
      var c := Reached(steps[..|steps| - 1]).value;
      match steps[|steps| - 1]
      case Request(connection, command) => CommandKeeps(c.s, connection.Id(), command);
      case Disconnect(connection) => CleanupKeeps(c.s, connection.Id());
      case _ =>
    }
  }

  // ---- Without reset the capturer runs exactly when needed ----

  predicate Exact(s: State) {
    s.capturerRunning <==> HasStartedCapture(s.streams)
  }

  predicate OnlyStartedCapture(streams: map<u32, Stream>, id: u32) {
    && id in streams && streams[id].direction == Capture && streams[id].state == Started
    && forall other | other in streams && other != id ::
         streams[other].direction != Capture || streams[other].state != Started
  }

  lemma ResetStopsOnly(s: State, id: u32)
    requires id in s.streams
    ensures HasStartedCapture(s.streams) && !HasStartedCapture(SetState(s, id, Stopped).streams) <==>
            OnlyStartedCapture(s.streams, id)
  {
    var t := SetState(s, id, Stopped);
    assert forall other | other in s.streams && other != id :: t.streams[other] == s.streams[other];
    if HasStartedCapture(s.streams) && !HasStartedCapture(t.streams) {
      var at :| at in s.streams && s.streams[at].direction == Capture && s.streams[at].state == Started;
      assert at == id;
    }
  }

  /** A capturer that a reset left running is stopped by the next stop or close of a capture stream, and by the next
      cleanup of a connection that has streams. */
  lemma CapturerRecovers(s: State, connection: u32, command: Command)
    requires Sound(s)
    requires command.Stop? || command.Close?
    requires OwnerStatus(s, connection, command.id) == OK && s.streams[command.id].direction == Capture
    ensures Exact(Effect(s, connection, command))
    ensures Exact(Cleanup(s, connection))
  {
    CommandKeeps(s, connection, command);
    CleanupKeeps(s, connection);
    assert command.id in OwnedBy(s.streams, connection);
    assert command.id in OfDirection(s.streams, Capture);
  }

  /** Every command but a reset keeps the capturer exact; a reset does exactly unless it stops the only started capture
      stream. */
  lemma ExactCommand(s: State, connection: u32, command: Command)
    requires Sound(s) && Exact(s)
    ensures !command.Reset? ==> Exact(Effect(s, connection, command))
    ensures command.Reset? ==>
              (Exact(Effect(s, connection, command)) <==>
               !(OwnerStatus(s, connection, command.id) == OK && OnlyStartedCapture(s.streams, command.id)))
  {
    CommandKeeps(s, connection, command);
    if command.Open? {
      OpenExact(s, connection, command);
    } else if OwnerStatus(s, connection, command.id) == OK {
      match command
      case Start(id, _) => StartExact(s, connection, command);
      case Stop(id) => StopExact(s, id);
      case Reset(id) =>
        SetStateKeeps(s, id, Stopped);
        ResetStopsOnly(s, id);
      case Close(id) => CloseExact(s, id);
    }
  }

  lemma OpenExact(s: State, connection: u32, command: Command)
    requires Sound(s) && Exact(s) && command.Open?
    ensures Exact(Opened(s, connection, command))
  {
    var u := s.(capturer := true, capturerRunning := false);
    OpenedAdds(s, connection, command);
    CreatedAdds(if command.capture && !s.capturer then u else s, connection,
                if command.capture then Capture else Render, command.ringCreated);
  }

  lemma CloseExact(s: State, id: u32)
    requires Sound(s) && Exact(s) && id in s.streams
    ensures Exact(ClosedStream(s, id))
  {
    CloseKeeps(s, id);
    var t := ClosedStream(s, id);
    if s.streams[id].direction == Render {
      assert forall other | other in s.streams && other != id ::
          other in t.streams && t.streams[other] == s.streams[other];
    }
  }

  lemma StartExact(s: State, connection: u32, command: Command)
    requires Sound(s) && Exact(s) && command.Start? && OwnerStatus(s, connection, command.id) == OK
    ensures Exact(Effect(s, connection, command))
  {
    var id := command.id;
    var t := Effect(s, connection, command);
    SetStateKeeps(s, id, Started);
    SetStateKeeps(s, id, Stopped);
    if s.streams[id].direction == Capture {
      assert id in OfDirection(s.streams, Capture);
      assert t.streams[id].state == Started ==> HasStartedCapture(t.streams);
    } else {
      assert forall other | other in s.streams && s.streams[other].direction == Capture ::
          t.streams[other] == s.streams[other];
    }
  }

  lemma StopExact(s: State, id: u32)
    requires Sound(s) && Exact(s) && id in s.streams
    ensures Exact(Effect(s, s.streams[id].owner, Stop(id)))
  {
    var t := SetState(s, id, Stopped);
    SetStateKeeps(s, id, Stopped);
    if s.streams[id].direction == Capture {
      assert id in OfDirection(s.streams, Capture);
    } else {
      assert forall other | other in s.streams && s.streams[other].direction == Capture ::
          t.streams[other] == s.streams[other];
    }
  }

  /** In runs without a reset the capturer runs exactly while some capture stream is started. */
  lemma {:induction false} AlwaysExact(steps: seq<Step>)
    requires Reached(steps).Some?
    requires forall step | step in steps :: !(step.Request? && step.command.Reset?)
    ensures Exact(Reached(steps).value.s)
    decreases |steps|
  {
    if steps != [] {
      var before, last := steps[..|steps| - 1], steps[|steps| - 1];
      assert last in steps && forall step | step in before :: step in steps;
      AlwaysExact(before);
      AlwaysSound(before);
      var c := Reached(before).value;
      match last
      case Request(connection, command) => ExactCommand(c.s, connection.Id(), command);
      case Disconnect(connection) => RemovalKeeps(c.s, OwnedBy(c.s.streams, connection.Id()));
      case _ =>
    }
  }

  // ---- Isolation ----

  /** A connection's command leaves every other connection's streams alone. */
  lemma CommandIsolated(s: State, connection: u32, command: Command, other: u32)
    requires other in s.streams && s.streams[other].owner != connection
    ensures var t := Effect(s, connection, command).streams; other in t && t[other] == s.streams[other]
  {
    if command.Open? {
      OpenedAdds(s, connection, command);
    }
  }

  /** A command that names another connection's stream is refused and changes nothing at all. */
  lemma ForeignCommandRefused(s: State, connection: u32, command: Command)
    requires !command.Open? && command.id in s.streams && s.streams[command.id].owner != connection
    ensures Outcome(s, connection, command) == EPERM && Effect(s, connection, command) == s
  {
  }

  /** So does its cleanup, which on the other hand leaves nothing of its own behind. */
  lemma CleanupIsolated(s: State, connection: u32, other: u32)
    ensures var t := Cleanup(s, connection);
            && (other in t.streams <==> other in s.streams && s.streams[other].owner != connection)
            && (other in t.streams ==> t.streams[other] == s.streams[other])
  {
  }

  // ---- Who owns a stream ----

  /** Every handler belongs to a server that runs or stops, and was accepted once. */
  predicate Accounted(c: Config) {
    && (c.s.running ==> c.accepted != [] && |c.accepted| - 1 !in c.stopping)
    && (forall server | server in c.stopping :: server < |c.accepted|)
    && forall connection | connection in c.live ::
         && connection.server < |c.accepted| && connection.serial < c.accepted[connection.server]
         && (connection.server in c.stopping || (c.s.running && connection.server == |c.accepted| - 1))
  }

  /** Every stream in the table was opened by a connection whose handler has not finished, under the id of which it is
      kept. */
  predicate Owned(c: Config) {
    forall id | id in c.s.streams ::
      id in c.openers && c.openers[id] in c.live && c.s.streams[id].owner == c.openers[id].Id()
  }

  lemma OwnersComeFromHere(s: State, connection: u32, command: Command, id: u32)
    requires id in Effect(s, connection, command).streams
    ensures var owner := Effect(s, connection, command).streams[id].owner;
            owner == if id in s.streams then s.streams[id].owner else connection
  {
    if command.Open? {
      OpenedAdds(s, connection, command);
    }
  }

  /** A command takes at most one stream id and touches nothing of the broker's own state. */
  lemma CommandCounts(s: State, connection: u32, command: Command)
    ensures var t := Effect(s, connection, command);
            && t.running == s.running && t.renderer == s.renderer
            && (t.nextStreamId == s.nextStreamId || t.nextStreamId == (s.nextStreamId + 1) % 0x1_0000_0000)
            && forall id | id in t.streams :: id in s.streams ||
                 (id == s.nextStreamId && t.nextStreamId == (s.nextStreamId + 1) % 0x1_0000_0000)
  {
    if command.Open? {
      OpenedAdds(s, connection, command);
    }
  }

  lemma AccountedStep(c: Config, step: Step)
    requires Accounted(c) && Enabled(c, step)
    ensures Accounted(After(c, step))
  {
    if step.Request? {
      CommandCounts(c.s, step.connection.Id(), step.command);
    }
  }

  lemma RequestOwned(c: Config, connection: Connection, command: Command)
    requires Owned(c) && Enabled(c, Request(connection, command))
    ensures Owned(After(c, Request(connection, command)))
  {
    var t := Effect(c.s, connection.Id(), command);
    forall id | id in t.streams
      ensures t.streams[id].owner == if id in c.s.streams then c.s.streams[id].owner else connection.Id()
    {
      OwnersComeFromHere(c.s, connection.Id(), command, id);
    }
    OwnedAfter(c, t, connection, After(c, Request(connection, command)).given);
  }

  lemma OwnedAfter(c: Config, t: State, connection: Connection, given: seq<u32>)
    requires Owned(c) && connection in c.live
    requires forall id | id in t.streams ::
               t.streams[id].owner == if id in c.s.streams then c.s.streams[id].owner else connection.Id()
    ensures Owned(c.(s := t, given := given,
                     openers := c.openers + map id | id in t.streams && id !in c.s.streams :: connection))
  {
  }

  lemma DisconnectOwned(c: Config, connection: Connection)
    requires Owned(c) && Enabled(c, Disconnect(connection))
    ensures Owned(After(c, Disconnect(connection)))
  {
    forall id | id in Cleanup(c.s, connection.Id()).streams
      ensures id in c.s.streams && c.openers[id] != connection
      ensures Cleanup(c.s, connection.Id()).streams[id] == c.s.streams[id]
    {
      CleanupIsolated(c.s, connection.Id(), id);
    }
  }

  /** In every run the streams in the table were opened by live connections, even where servers overlap. */
  lemma {:induction false} StreamsHaveLiveOwners(steps: seq<Step>)
    requires Reached(steps).Some?
    ensures Accounted(Reached(steps).value) && Owned(Reached(steps).value)
    decreases |steps|
  {
    if steps != [] {
      StreamsHaveLiveOwners(steps[..|steps| - 1]);
      var c := Reached(steps[..|steps| - 1]).value;
      AccountedStep(c, steps[|steps| - 1]);
      match steps[|steps| - 1]
      case Request(connection, command) => RequestOwned(c, connection, command);
      case Disconnect(connection) => DisconnectOwned(c, connection);
      case _ =>
    }
  }

  /** A cleanup takes exactly the streams that its own connection opened, if and only if no other live connection with
      the same id has one. */
  lemma CleanupIsItsOwnIff(c: Config, connection: Connection)
    requires Owned(c) && Enabled(c, Disconnect(connection))
    ensures (forall id | id in c.s.streams ::
               id in After(c, Disconnect(connection)).s.streams <==> c.openers[id] != connection) <==>
            (forall id | id in c.s.streams :: c.openers[id].Id() == connection.Id() ==> c.openers[id] == connection)
  {
    forall id ensures id in After(c, Disconnect(connection)).s.streams <==>
                      id in c.s.streams && c.s.streams[id].owner != connection.Id() {
      CleanupIsolated(c.s, connection.Id(), id);
    }
  }

  /** No launch comes between the two halves of a stop. */
  predicate Separate(steps: seq<Step>)
    requires Reached(steps).Some?
    decreases |steps|
  {
    steps != [] ==>
      var before, last := steps[..|steps| - 1], steps[|steps| - 1];
      Separate(before) && (last.Launch? ==> Reached(before).value.stopping == {})
  }

  /** At most one server has handlers, and a running broker has its renderer. */
  predicate OneServer(c: Config) {
    && (c.s.running ==> c.stopping == {} && c.s.renderer)
    && (forall server | server in c.stopping :: server == |c.accepted| - 1)
    && forall connection | connection in c.live :: connection.server == |c.accepted| - 1
  }

  lemma {:induction false} AlwaysOneServer(steps: seq<Step>)
    requires Reached(steps).Some? && Separate(steps)
    ensures OneServer(Reached(steps).value)
    decreases |steps|
  {
    if steps != [] {
      AlwaysOneServer(steps[..|steps| - 1]);
      StreamsHaveLiveOwners(steps[..|steps| - 1]);
      var c := Reached(steps[..|steps| - 1]).value;
      match steps[|steps| - 1]
      case Request(connection, command) => CommandCounts(c.s, connection.Id(), command);
      case _ =>
    }
  }

  /** In such runs, while no server has accepted more than 2^32 connections, no two live connections share an id; so a
      stream obeys exactly the connection that opened it. */
  lemma ConnectionsAreNew(steps: seq<Step>)
    requires Reached(steps).Some? && Separate(steps)
    requires forall count | count in Reached(steps).value.accepted :: count <= 0x1_0000_0000
    ensures var c := Reached(steps).value;
            && (forall j, k | j in c.live && k in c.live :: j.Id() == k.Id() ==> j == k)
            && Owned(c)
            && (forall id, k | id in c.s.streams && k in c.live ::
                 OwnerStatus(c.s, k.Id(), id) == OK <==> c.openers[id] == k)
  {
    var c := Reached(steps).value;
    AlwaysOneServer(steps);
    StreamsHaveLiveOwners(steps);
    forall j, k | j in c.live && k in c.live && j.Id() == k.Id() ensures j == k {
      assert c.accepted[j.server] in c.accepted;
    }
  }

  /** One more step of a run. */
  lemma Grow(steps: seq<Step>, step: Step) returns (more: seq<Step>)
    requires Reached(steps).Some? && Enabled(Reached(steps).value, step)
    ensures more == steps + [step] && Reached(more) == Some(After(Reached(steps).value, step))
  {
    more := steps + [step];
    assert more[..|more| - 1] == steps;
  }

  const OPEN_RENDER := Open(false, true, true, true)
  const OPEN_CAPTURE := Open(true, true, true, true)

  const OVERLAP := [Launch(true, true), Connect(0, true), BeginStop, Launch(true, true), Connect(1, true)]

  /** Launched between the two halves of a stop, a broker has connections of two servers. */
  lemma ServersOverlap()
    ensures Reached(OVERLAP) ==
            Some(START.(s := INIT.(running := true, renderer := true), live := {Connection(0, 0), Connection(1, 0)},
                        accepted := [1, 1], stopping := {0}))
  {
    var run := Grow([], OVERLAP[0]);
    run := Grow(run, OVERLAP[1]);
    run := Grow(run, OVERLAP[2]);
    run := Grow(run, OVERLAP[3]);
    assert Reached(run).value.live == {Connection(0, 0)} && Reached(run).value.accepted == [1, 0];
    run := Grow(run, OVERLAP[4]);
    assert run == OVERLAP;
    assert Reached(run).value.live == {Connection(0, 0), Connection(1, 0)} && Reached(run).value.accepted == [1, 1];
    assert Reached(run).value.stopping == {0};
  }

  lemma OverlapOpens(open: Step)
    requires open == Request(Connection(1, 0), OPEN_RENDER)
    ensures var c := Reached(OVERLAP + [open]);
            && c.Some? && c.value.s.streams == map[1 := Stream(1, Render, Stopped)]
            && c.value.openers == map[1 := Connection(1, 0)] && c.value.live == {Connection(0, 0), Connection(1, 0)}
  {
    ServersOverlap();
    var run := Grow(OVERLAP, open);
    assert Reached(run).value.s.streams == map[1 := Stream(1, Render, Stopped)];
  }

  /** The new server hands out the old ids again: the cleanup of the old connection takes the stream of the new one,
      which is still served. */
  lemma OverlapLosesStream(open: Step, steps: seq<Step>)
    requires open == Request(Connection(1, 0), OPEN_RENDER)
    requires steps == OVERLAP + [open, Disconnect(Connection(0, 0))]
    ensures var before := Reached(OVERLAP + [open]);
            before.Some? && before.value.s.streams == map[1 := Stream(1, Render, Stopped)] &&
            before.value.openers == map[1 := Connection(1, 0)]
    ensures Reached(steps).Some? && Reached(steps).value.s.streams == map[]
    ensures Reached(steps).value.live == {Connection(1, 0)}
  {
    OverlapOpens(open);
    var c := Reached(OVERLAP + [open]).value;
    var run := Grow(OVERLAP + [open], Disconnect(Connection(0, 0)));
    assert run == steps;
    CleanupOfOne(c.s, 1, c.s.streams[1]);
    assert c.live - {Connection(0, 0)} == {Connection(1, 0)};
  }

  lemma CleanupOfOne(s: State, id: u32, stream: Stream)
    requires s.streams == map[id := stream]
    ensures Cleanup(s, stream.owner).streams == map[]
  {
    assert OwnedBy(s.streams, stream.owner) == {id};
  }

  /** There the old stop also releases the device of the broker that runs already. It goes on running without a
      renderer, launching it again changes nothing, and it refuses every render stream. */
  lemma OverlapSilences(steps: seq<Step>, connection: u32, command: Command)
    requires steps == [Launch(true, true), BeginStop, Launch(true, true), FinishStop(0)]
    requires command.Open? && command.formatOk && !command.capture
    ensures Reached(steps).Some? && Reached(steps).value.s.running
    ensures forall rendererReady, serverReady ::
              After(Reached(steps).value, Launch(rendererReady, serverReady)) == Reached(steps).value
    ensures Outcome(Reached(steps).value.s, connection, command) == EIO
  {
    var run := Grow([], steps[0]);
    run := Grow(run, steps[1]);
    run := Grow(run, steps[2]);
    run := Grow(run, steps[3]);
    assert run == steps;
  }

  /** Every step keeps the renderer of a running broker, except the end of a stop that finds the broker running. */
  lemma RendererKeptIff(c: Config, step: Step)
    requires Enabled(c, step) && (c.s.running ==> c.s.renderer)
    ensures var t := After(c, step).s; (t.running ==> t.renderer) <==> !(step.FinishStop? && c.s.running)
  {
    if step.Request? {
      CommandCounts(c.s, step.connection.Id(), step.command);
    }
  }

  const CAPTURING := [Launch(true, true), Connect(0, true), Request(Connection(0, 0), OPEN_CAPTURE)]

  lemma CaptureIsOpened()
    ensures var c := Reached(CAPTURING);
            && c.Some? && c.value.live == {Connection(0, 0)}
            && c.value.s.streams == map[1 := Stream(1, Capture, Stopped)]
            && c.value.s.capturer && !c.value.s.capturerRunning
  {
    var run := Grow([], CAPTURING[0]);
    run := Grow(run, CAPTURING[1]);
    run := Grow(run, CAPTURING[2]);
    assert run == CAPTURING;
    assert Reached(run).value.s.streams == map[1 := Stream(1, Capture, Stopped)];
  }

  /** A reset can leave the capturer running for nobody. */
  lemma ResetLeavesCapturer(steps: seq<Step>)
    requires steps == CAPTURING + [Request(Connection(0, 0), Start(1, true)), Request(Connection(0, 0), Reset(1))]
    ensures Reached(steps).Some? && Reached(steps).value.s.capturerRunning
    ensures !HasStartedCapture(Reached(steps).value.s.streams)
  {
    CaptureIsOpened();
    var run := Grow(CAPTURING, Request(Connection(0, 0), Start(1, true)));
    run := Grow(run, Request(Connection(0, 0), Reset(1)));
    assert run == steps;
  }

  // ---- Stream ids ----

  /** The id of the open number `n`, counted from zero: a 32-bit counter that starts at one. */
  function IdOf(n: nat): u32 {
    (n + 1) % 0x1_0000_0000
  }

  /** The ids were handed out in that order, and the table has no others. */
  predicate IdsInOrder(c: Config) {
    && c.s.nextStreamId == IdOf(|c.given|)
    && (forall n | 0 <= n < |c.given| :: c.given[n] == IdOf(n))
    && forall id | id in c.s.streams :: id in c.given
  }

  lemma RequestInOrder(c: Config, connection: Connection, command: Command)
    requires Enabled(c, Request(connection, command)) && IdsInOrder(c)
    ensures IdsInOrder(After(c, Request(connection, command)))
  {
    var d := After(c, Request(connection, command));
    CommandCounts(c.s, connection.Id(), command);
    assert d.given != c.given ==> d.given == c.given + [c.s.nextStreamId];
    forall id | id in d.s.streams ensures id in d.given {
      assert id in c.s.streams ==> id in c.given;
    }
  }

  lemma DisconnectInOrder(c: Config, connection: Connection)
    requires Enabled(c, Disconnect(connection)) && IdsInOrder(c)
    ensures IdsInOrder(After(c, Disconnect(connection)))
  {
    forall id | id in Cleanup(c.s, connection.Id()).streams ensures id in c.s.streams {
      CleanupIsolated(c.s, connection.Id(), id);
    }
  }

  lemma {:induction false} AlwaysInOrder(steps: seq<Step>)
    requires Reached(steps).Some?
    ensures IdsInOrder(Reached(steps).value)
    decreases |steps|
  {
    if steps != [] {
      AlwaysInOrder(steps[..|steps| - 1]);
      var c := Reached(steps[..|steps| - 1]).value;
      match steps[|steps| - 1]
      case Request(connection, command) => RequestInOrder(c, connection, command);
      case Disconnect(connection) => DisconnectInOrder(c, connection);
      case _ =>
    }
  }

  /** In every run, the id that the next open gets was never handed out before, to a stream that is still open or to one
      that is closed, if and only if there were fewer than 2^32 opens. */
  lemma StreamIdsAreNewIff(steps: seq<Step>)
    requires Reached(steps).Some?
    ensures var c := Reached(steps).value; c.s.nextStreamId !in c.given <==> |c.given| < 0x1_0000_0000
  {
    AlwaysInOrder(steps);
    var given := Reached(steps).value.given;
    NextIsNewIff(given, IdOf(|given|));
  }

  lemma NextIsNewIff(given: seq<u32>, next: u32)
    requires next == IdOf(|given|) && forall n | 0 <= n < |given| :: given[n] == IdOf(n)
    ensures next !in given <==> |given| < 0x1_0000_0000
  {
    if |given| < 0x1_0000_0000 {
      forall n | 0 <= n < |given| ensures given[n] != next {
        IdsRepeatIff(n, |given| - n);
      }
    } else {
      var n := |given| - 0x1_0000_0000;
      IdsRepeatIff(n, 0x1_0000_0000);
      assert given[n] == next;
    }
  }

  lemma IdsRepeatIff(n: nat, k: nat)
    requires 0 < k <= 0x1_0000_0000
    ensures IdOf(n + k) == IdOf(n) <==> k == 0x1_0000_0000
  {
  }
}
