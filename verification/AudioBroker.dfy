/** The audio broker as an object: its stream table, the snapshots its callbacks read, and the commands under its lock,
    each shown to do what the specification says. */
module AudioBroker {
  import opened MachineInts
  import opened BitMask
  import opened AudioStreams
  import opened AudioMixer
  import opened AudioTable
  import AudioCapture
  import opened Spec = AudioBrokerSpec

  class Broker {
    const table: Table
    var nextStreamId: u32
    var running: bool
    var renderer: bool
    var capturer: bool
    var capturerRunning: bool
    var renderSnapshot: seq<AudioStream>
    var captureSnapshot: seq<AudioStream>

    /** The snapshots list streams of the table, each once. */
    ghost predicate Valid()
      reads this, table, table.streams.Values
    {
      && table.Valid()
      && IsSnapshot(renderSnapshot, table.streams) && IsSnapshot(captureSnapshot, table.streams)
    }

    ghost function Abs(): State
      reads this, table
    {
      State(table.described, nextStreamId, running, renderer, capturer, capturerRunning,
            Ids(renderSnapshot), Ids(captureSnapshot))
    }

    constructor ()
      ensures Valid() && Abs() == INIT
    {
      table := new Table();
      nextStreamId, renderSnapshot, captureSnapshot := 1, [], [];
      running, renderer, capturer, capturerRunning := false, false, false, false;
    }

    /** What the snapshots promise to the callbacks: `MixStreamsS16` and `DistributeCaptureFramesS16` may take them. */
    lemma SnapshotsAreDistinct()
      requires Valid()
      ensures Distinct(renderSnapshot) && AudioCapture.Separate(captureSnapshot)
    {
      table.SnapshotIsDistinct(renderSnapshot);
      table.SnapshotIsDistinct(captureSnapshot);
    }

    /** A stream that is not started is silent: the mixer reads nothing from it, whatever its ring holds. */
    lemma StoppedIsSilent(id: u32, frames: nat)
      requires Valid() && id in table.streams && table.described[id].state != Started
      ensures Input(table.streams[id], frames) == []
    {
      assert table.Describes(id);
      ReadsOldest(table.streams[id], frames);
    }

    /** Rebuilds both snapshots from the table. */
    method PublishSnapshots()
      requires table.Valid()
      modifies this`renderSnapshot, this`captureSnapshot
      ensures Valid() && Abs() == Publish(old(Abs()))
    {
      renderSnapshot, captureSnapshot := table.Snapshots();
    }

    method CheckOwner(connectionId: u32, streamId: u32) returns (status: int)
      requires table.Valid()
      ensures status == OwnerStatus(Abs(), connectionId, streamId)
    {
      if streamId !in table.streams {
        return ENOENT;
      }
      assert table.Describes(streamId);
      return if table.streams[streamId].ownerConnectionId == connectionId then OK else EPERM;
    }

    method IsCapture(streamId: u32) returns (capture: bool)
      requires table.Valid() && streamId in table.streams
      ensures capture <==> table.described[streamId].direction == Capture
    {
      assert table.Describes(streamId);
      return table.streams[streamId].direction == Capture;
    }

    method SetStarted(streamId: u32, on: bool)
      requires Valid() && streamId in table.streams
      modifies table, table.streams.Values
      ensures Valid() && table.streams == old(table.streams)
      ensures Abs() == SetState(old(Abs()), streamId, if on then Started else Stopped)
    {
      table.SetStarted(streamId, on);
    }

    /** Stops the shared capturer if no capture stream needs it any more. */
    method StopCapturerIfIdle()
      requires Valid()
      modifies this`capturerRunning
      ensures Valid() && Abs() == StopIdleCapturer(old(Abs()))
    {
      if capturerRunning && capturer {
        var still := table.HasStartedCaptureStream();
        if !still {
          capturerRunning := false;
        }
      }
    }

    /** `ready` and `created` are the answers of the platform. */
    method OpenStream(connectionId: u32, capture: bool, formatOk: bool, ready: bool, created: bool, capacity: nat)
      returns (status: int, streamId: u32)
      requires Valid() && IsPow2(capacity) && capacity > 0
      modifies this, table
      ensures Valid()
      ensures Abs() == Effect(old(Abs()), connectionId, Open(capture, formatOk, ready, created))
      ensures status == Outcome(old(Abs()), connectionId, Open(capture, formatOk, ready, created))
      ensures status == OK ==> streamId == old(nextStreamId)
    {
      streamId := 0;
      if !running {
        return EIO, streamId;
      }
      if !formatOk {
        return EINVAL, streamId;
      }
      if capture {
        if !capturer {
          if !ready {
            return EIO, streamId;
          }
          capturer, capturerRunning := true, false;
        }
      } else if !renderer {
        return EIO, streamId;
      }
      status, streamId := CreateStream(connectionId, if capture then Capture else Render, created, capacity);
    }

    /** The part behind the checks. */
    method CreateStream(connectionId: u32, direction: Direction, created: bool, capacity: nat)
      returns (status: int, streamId: u32)
      requires Valid() && IsPow2(capacity) && capacity > 0
      modifies this, table
      ensures Valid() && Abs() == Created(old(Abs()), connectionId, direction, created)
      ensures status == (if created then OK else EIO) && streamId == old(nextStreamId)
    {
      streamId := nextStreamId;
      nextStreamId := (nextStreamId + 1) % 0x1_0000_0000;
      if !created {
        return EIO, streamId;
      }
      AddStream(streamId, connectionId, direction, capacity);
      return OK, streamId;
    }

    method AddStream(streamId: u32, connectionId: u32, direction: Direction, capacity: nat)
      requires Valid() && IsPow2(capacity) && capacity > 0
      modifies this`renderSnapshot, this`captureSnapshot, table
      ensures Valid()
      ensures var s := old(Abs());
              Abs() == Publish(if streamId in s.streams then s
                               else s.(streams := s.streams[streamId := Stream(connectionId, direction, Stopped)]))
    {
      table.Emplace(streamId, connectionId, direction, capacity);
      PublishSnapshots();
    }

    method StartStream(connectionId: u32, streamId: u32, capturerStarts: bool) returns (status: int)
      requires Valid()
      modifies this, table, table.streams.Values
      ensures Valid()
      ensures Abs() == Effect(old(Abs()), connectionId, Start(streamId, capturerStarts))
      ensures status == Outcome(old(Abs()), connectionId, Start(streamId, capturerStarts))
    {
      status := CheckOwner(connectionId, streamId);
      if status != OK {
        return;
      }
      SetStarted(streamId, true);
      status := StartCapturerFor(streamId, capturerStarts);
    }

    /** The capturer for a stream that has just been started; if it does not start, neither does the stream. */
    method StartCapturerFor(streamId: u32, capturerStarts: bool) returns (status: int)
      requires Valid() && streamId in table.streams
      modifies this`capturerRunning, table, table.streams.Values
      ensures Valid()
      ensures var s := old(Abs()); var needs := NeedsCapturer(s, streamId);
              && status == (if needs && !capturerStarts then EIO else OK)
              && Abs() == CapturerStarted(s, streamId, capturerStarts)
    {
      var capture := IsCapture(streamId);
      if capture && capturer {
        if !capturerRunning {
          if !capturerStarts {
            SetStarted(streamId, false);
            return EIO;
          }
          capturerRunning := true;
        }
      }
      return OK;
    }

    method StopStream(connectionId: u32, streamId: u32) returns (status: int)
      requires Valid()
      modifies this, table, table.streams.Values
      ensures Valid()
      ensures Abs() == Effect(old(Abs()), connectionId, Stop(streamId))
      ensures status == Outcome(old(Abs()), connectionId, Stop(streamId))
    {
      status := CheckOwner(connectionId, streamId);
      if status != OK {
        return;
      }
      StopOwned(streamId);
    }

    method StopOwned(streamId: u32)
      requires Valid() && streamId in table.streams
      modifies this`capturerRunning, table, table.streams.Values
      ensures Valid() && Abs() == StoppedStream(old(Abs()), streamId)
    {
      SetStarted(streamId, false);
      var capture := IsCapture(streamId);
      if capture {
        StopCapturerIfIdle();
      }
    }

    /** Also empties the stream's ring. */
    method ResetStream(connectionId: u32, streamId: u32) returns (status: int)
      requires Valid()
      modifies this, table, table.streams.Values, set s | s in table.streams.Values :: s.ring
      ensures Valid()
      ensures Abs() == Effect(old(Abs()), connectionId, Reset(streamId))
      ensures status == Outcome(old(Abs()), connectionId, Reset(streamId))
      ensures status == OK ==> streamId in table.streams && table.streams[streamId].ring.contents == []
    {
      status := CheckOwner(connectionId, streamId);
      if status != OK {
        return;
      }
      table.Reset(streamId);
    }

    method CloseStream(connectionId: u32, streamId: u32) returns (status: int)
      requires Valid()
      modifies this, table, table.streams.Values
      ensures Valid()
      ensures Abs() == Effect(old(Abs()), connectionId, Close(streamId))
      ensures status == Outcome(old(Abs()), connectionId, Close(streamId))
    {
      status := CheckOwner(connectionId, streamId);
      if status != OK {
        return;
      }
      assert Effect(Abs(), connectionId, Close(streamId)) == ClosedStream(Abs(), streamId);
      CloseOwned(streamId);
    }

    method CloseOwned(streamId: u32)
      requires Valid() && streamId in table.streams
      modifies this, table, table.streams.Values
      ensures Valid() && Abs() == ClosedStream(old(Abs()), streamId)
    {
      var wasCapture := IsCapture(streamId);
      table.Close(streamId);
      PublishSnapshots();
      if wasCapture {
        StopCapturerIfIdle();
      }
    }

    /** What a connection's handler ends with: the walk that erases its streams, then one publication. */
    method CleanupClientStreams(connectionId: u32)
      requires Valid()
      modifies this, table, table.streams.Values
      ensures Valid()
      ensures Abs() == Cleanup(old(Abs()), connectionId)
    {
      var changed := table.CloseOwned(connectionId);
      if changed {
        PublishRemaining();
      }
    }

    /** The publication behind that walk, and the capturer if no stream needs it any more. */
    method PublishRemaining()
      requires table.Valid()
      modifies this
      ensures Valid()
      ensures var t := Publish(old(Abs()));
              Abs() == if HasStartedCapture(t.streams) then t else t.(capturerRunning := false)
    {
      PublishSnapshots();
      var still := table.HasStartedCaptureStream();
      if !still {
        capturerRunning := false;
      }
    }

    /** The second half of stopping the broker. */
    method FinishStop()
      requires Valid()
      modifies this, table, table.streams.Values
      ensures Valid() && Abs() == Shutdown(old(Abs()))
    {
      table.CloseAll();
      PublishSnapshots();
      capturer, capturerRunning, renderer := false, false, false;
    }
  }
}
