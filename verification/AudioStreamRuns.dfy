/** What the commands of a run mean for one stream: the broker's table, stream by stream, in the terms of the commands
    that were accepted for it. Status codes and conditions are written out. */
module AudioStreamRuns {
  import opened MachineInts
  import opened Wrappers
  import opened AudioStreams
  import opened AudioBrokerSpec

  /** The command names the stream, which is in the table and belongs to the connection. */
  predicate Accepted(s: State, connection: Connection, command: Command, id: u32) {
    && !command.Open? && command.id == id
    && id in s.streams && s.streams[id].owner == connection.Id()
  }

  /** The open has the format and the device that it asks for. */
  predicate Checked(s: State, command: Command) {
    && command.Open? && s.running && command.formatOk
    && if command.capture then s.capturer || command.capturerReady else s.renderer
  }

  /** The open passes every check and gets this id. */
  predicate Opens(s: State, command: Command, id: u32) {
    Checked(s, command) && command.ringCreated && s.nextStreamId == id
  }

  /** The stream was opened, and neither it nor its connection nor the broker has been closed since. */
  predicate OpenInRun(steps: seq<Step>, id: u32)
    requires Reached(steps).Some?
    decreases |steps|
  {
    && steps != []
    && var init, last := steps[..|steps| - 1], steps[|steps| - 1];
       var s := Reached(init).value.s;
       match last
       case Request(connection, command) =>
         if Opens(s, command, id) then true
         else if Accepted(s, connection, command, id) && command.Close? then false
         else OpenInRun(init, id)
       case Disconnect(connection) =>
         OpenInRun(init, id) && !(id in s.streams && s.streams[id].owner == connection.Id())
       case FinishStop(_) => false
       case _ => OpenInRun(init, id)
  }

  /** The open that put the stream into the table asked for capture. */
  predicate CapturesInRun(steps: seq<Step>, id: u32)
    requires Reached(steps).Some?
    decreases |steps|
  {
    && steps != []
    && var init, last := steps[..|steps| - 1], steps[|steps| - 1];
       var s := Reached(init).value.s;
       if last.Request? && Opens(s, last.command, id) && id !in s.streams then last.command.capture
       else CapturesInRun(init, id)
  }

  /** The last start, stop or reset that was accepted for the stream was a start, and its capturer started if it needed
      one. */
  predicate StartedInRun(steps: seq<Step>, id: u32)
    requires Reached(steps).Some?
    decreases |steps|
  {
    && steps != []
    && var init, last := steps[..|steps| - 1], steps[|steps| - 1];
       var s := Reached(init).value.s;
       if last.Request? && Opens(s, last.command, id) && id !in s.streams then false
       else if last.Request? && Accepted(s, last.connection, last.command, id) then
         match last.command
         case Start(_, capturerStarts) =>
           s.streams[id].direction == Capture && s.capturer && !s.capturerRunning ==> capturerStarts
         case Stop(_) => false
         case Reset(_) => false
         case _ => StartedInRun(init, id)
       else StartedInRun(init, id)
  }

  /** What the table says of a stream is what the run says of it. */
  predicate IsStream(stream: Stream, captures: bool, started: bool) {
    && stream.direction == (if captures then Capture else Render)
    && stream.state == (if started then Started else Stopped)
  }

  // ---- One command ----

  /** A command leaves every stream alone but the one it names, also those of its own connection. */
  lemma OthersUntouched(s: State, connection: u32, command: Command, other: u32)
    requires other in s.streams && (command.Open? || command.id != other)
    ensures var t := Effect(s, connection, command).streams; other in t && t[other] == s.streams[other]
  {
    if command.Open? {
      OpenedAdds(s, connection, command);
    }
  }

  /** An open puts its stream into the table exactly if every check passes, unless the id is taken, and no other. */
  lemma OpenAddsIff(s: State, connection: u32, command: Command, id: u32)
    requires command.Open? && id !in s.streams
    ensures var t := Effect(s, connection, command).streams;
            && (id in t <==> Opens(s, command, id))
            && (id in t ==> t[id] == Stream(connection, if command.capture then Capture else Render, Stopped))
  {
  }

  /** What the other commands do to the stream they name. */
  lemma NamedStream(s: State, connection: u32, command: Command)
    requires !command.Open? && command.id in s.streams && s.streams[command.id].owner == connection
    ensures var id, t := command.id, Effect(s, connection, command).streams;
            && (id in t <==> !command.Close?)
            && (command.Start? ==>
                  var failed := s.streams[id].direction == Capture && s.capturer && !s.capturerRunning &&
                                !command.capturerStarts;
                  t[id] == s.streams[id].(state := if failed then Stopped else Started))
            && (command.Stop? || command.Reset? ==> t[id] == s.streams[id].(state := Stopped))
  {
  }

  /** The status that a client gets: -5 when the platform fails or the broker does not run, -22 for a foreign format, -2
      for a stream that is not there, -1 for one of another connection, and 0 exactly when the command has been done. */
  lemma StatusOfOpen(s: State, connection: u32, command: Command)
    requires command.Open?
    ensures Outcome(s, connection, command) == 0 <==> Opens(s, command, s.nextStreamId)
    ensures Outcome(s, connection, command) == -22 <==> s.running && !command.formatOk
    ensures Outcome(s, connection, command) in {0, -5, -22}
  {
  }

  lemma StatusOfOthers(s: State, connection: u32, command: Command)
    requires !command.Open?
    ensures var id, status := command.id, Outcome(s, connection, command);
            && (status == -2 <==> id !in s.streams)
            && (status == -1 <==> id in s.streams && s.streams[id].owner != connection)
            && (status == -5 <==> id in s.streams && s.streams[id].owner == connection && command.Start? &&
                                  Effect(s, connection, command).streams[id].state != Started)
            && status in {0, -1, -2, -5}
  {
  }

  /** Only an open takes an id, and it does once its format and its device are there, even if its ring then fails. A
      capture open makes the capturer first. */
  lemma IdsAndDevices(s: State, connection: u32, command: Command)
    ensures var t := Effect(s, connection, command);
            && t.nextStreamId == (if Checked(s, command) then (s.nextStreamId + 1) % 0x1_0000_0000 else s.nextStreamId)
            && (t.capturer <==> s.capturer || (Checked(s, command) && command.capture))
            && t.renderer == s.renderer && t.running == s.running
  {
    match command
    case Open(_, _, _, _) =>
    case _ => IdsAndDevicesKept(s, connection, command);
  }

  lemma IdsAndDevicesKept(s: State, connection: u32, command: Command)
    requires !command.Open?
    ensures var t := Effect(s, connection, command);
            && t.nextStreamId == s.nextStreamId && t.capturer == s.capturer
            && t.renderer == s.renderer && t.running == s.running
  {
  }

  /** The command names a capture stream of its own. */
  predicate NamesCapture(s: State, connection: u32, command: Command) {
    && !command.Open? && command.id in s.streams
    && s.streams[command.id].owner == connection && s.streams[command.id].direction == Capture
  }

  /** The capturer starts for the stream that needs it, and stops with the last started capture stream, by a stop or a
      close but not by a reset. */
  lemma CapturerAfter(s: State, connection: u32, command: Command)
    requires Sound(s)
    ensures var t, named := Effect(s, connection, command), NamesCapture(s, connection, command);
            match command
            case Start(_, ready) => t.capturerRunning <==> s.capturerRunning || (named && ready && s.capturer)
            case Stop(_) => t.capturerRunning <==> s.capturerRunning && (named ==> HasStartedCapture(t.streams))
            case Close(_) => t.capturerRunning <==> s.capturerRunning && (named ==> HasStartedCapture(t.streams))
            case _ => t.capturerRunning == s.capturerRunning
  {
  }

  /** The end of a stop leaves neither streams nor devices. */
  lemma NothingAfterShutdown(s: State)
    ensures var t := Shutdown(s);
            && t.streams == map[] && t.renderSnapshot == {} && t.captureSnapshot == {}
            && !t.renderer && !t.capturer && !t.capturerRunning
            && t.running == s.running && t.nextStreamId == s.nextStreamId
  {
  }

  // ---- Runs ----

  predicate AsInRun(steps: seq<Step>, id: u32)
    requires Reached(steps).Some?
  {
    var s := Reached(steps).value.s;
    && (id in s.streams <==> OpenInRun(steps, id))
    && (id in s.streams ==> IsStream(s.streams[id], CapturesInRun(steps, id), StartedInRun(steps, id)))
  }

  lemma RequestInRun(steps: seq<Step>, id: u32)
    requires Reached(steps).Some? && steps != [] && steps[|steps| - 1].Request?
    requires AsInRun(steps[..|steps| - 1], id)
    ensures AsInRun(steps, id)
  {
    var init, last := steps[..|steps| - 1], steps[|steps| - 1];
    var s, connection, command := Reached(init).value.s, last.connection, last.command;
    if id !in s.streams {
      if command.Open? {
        OpenAddsIff(s, connection.Id(), command, id);
      } else {
        OwnersComeFrom(s, connection.Id(), command, id);
      }
    } else if command.Open? || command.id != id {
      OthersUntouched(s, connection.Id(), command, id);
    } else if s.streams[id].owner == connection.Id() {
      NamedStream(s, connection.Id(), command);
    } else {
      CommandIsolated(s, connection.Id(), command, id);
    }
  }

  lemma OwnersComeFrom(s: State, connection: u32, command: Command, id: u32)
    requires !command.Open? && id !in s.streams
    ensures id !in Effect(s, connection, command).streams
  {
  }

  /** In every run a stream is in the table if and only if it was opened and nothing has closed it since, it is a
      capture stream if and only if it was opened as one, and it is started if and only if the last command for it
      that counts was a start that succeeded. */
  lemma {:induction false} StreamInRun(steps: seq<Step>, id: u32)
    requires Reached(steps).Some?
    ensures AsInRun(steps, id)
    decreases |steps|
  {
    if steps != [] {
      var init, last := steps[..|steps| - 1], steps[|steps| - 1];
      StreamInRun(init, id);
      var c := Reached(init).value;
      match last
      case Request(_, _) => RequestInRun(steps, id);
      case Disconnect(connection) => CleanupIsolated(c.s, connection.Id(), id);
      case _ =>
    }
  }
}
