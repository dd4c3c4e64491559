/** A broker stream: its identity, its state and the ring it shares with its client. */
module AudioStreams {
  import opened MachineInts
  import opened BitMask
  import opened AudioRing

  datatype Direction = Render | Capture

  datatype StreamState = Stopped | Started | Closed

  class AudioStream {
    const streamId: u32
    const ownerConnectionId: u32
    const direction: Direction
    const ring: Ring
    var state: StreamState

    constructor (id: u32, owner: u32, dir: Direction, capacity: nat)
      requires IsPow2(capacity) && capacity > 0
      ensures streamId == id && ownerConnectionId == owner && direction == dir && state == Stopped
      ensures fresh(ring) && fresh(ring.data) && ring.Valid() && ring.contents == []
    {
      streamId, ownerConnectionId, direction, state := id, owner, dir, Stopped;
      ring := new Ring(capacity);
    }

    method SetStarted(on: bool)
      modifies this
      ensures state == if on then Started else Stopped
    {
      state := if on then Started else Stopped;
    }

    method MarkClosed()
      modifies this
      ensures state == Closed
    {
      state := Closed;
    }

    /** Stops the stream and empties its ring. */
    method Reset()
      requires ring.IsShaped()
      modifies this, ring
      ensures state == Stopped && ring.Valid() && ring.contents == []
    {
      ring.Reset();
      state := Stopped;
    }
  }
}
