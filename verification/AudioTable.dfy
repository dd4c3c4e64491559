/** The broker's stream table as a map of objects: every stream has a ring of its own, so a snapshot never reads or
    fills one ring for two streams. */
module AudioTable {
  import opened MachineInts
  import opened BitMask
  import opened AudioStreams
  import opened AudioMixer
  import opened AudioCapture
  import Spec = AudioBrokerSpec

  /** Two streams share neither their ring nor the memory behind it. */
  ghost predicate Apart(a: AudioStream, b: AudioStream) {
    && a != b && a.ring != b.ring && a.ring.data != b.ring.data
    && a.ring as object != b.ring.data && b.ring as object != a.ring.data
  }

  /** Every stream is listed under its own id, with a ring of its own. */
  ghost predicate IsTable(streams: map<u32, AudioStream>) {
    && (forall id | id in streams :: streams[id].streamId == id && streams[id].ring.IsShaped())
    && forall i, j | i in streams && j in streams && i != j :: Apart(streams[i], streams[j])
  }

  lemma TableGrows(streams: map<u32, AudioStream>, stream: AudioStream)
    requires IsTable(streams) && stream.streamId !in streams && stream.ring.IsShaped()
    requires forall id | id in streams :: Apart(streams[id], stream)
    ensures IsTable(streams[stream.streamId := stream])
  {
  }

  /** A snapshot lists streams of the table, none of them twice. */
  ghost predicate IsSnapshot(snapshot: seq<AudioStream>, streams: map<u32, AudioStream>) {
    && (forall s | s in snapshot :: s.streamId in streams && streams[s.streamId] == s)
    && forall j, k | 0 <= j < k < |snapshot| :: snapshot[j] != snapshot[k]
  }

  ghost function Ids(snapshot: seq<AudioStream>): (ids: set<u32>)
    ensures forall id :: id in ids <==> exists s | s in snapshot :: s.streamId == id
  {
    set s | s in snapshot :: s.streamId
  }

  /** The streams of one direction among those walked so far. */
  ghost predicate Listed(list: seq<AudioStream>, streams: map<u32, AudioStream>, walked: set<u32>, d: Direction) {
    && IsSnapshot(list, streams)
    && (forall s | s in list :: s.streamId in walked && s.direction == d)
    && forall id | id in walked && id in streams :: streams[id].direction == d ==> streams[id] in list
  }

  lemma ListedNext(list: seq<AudioStream>, streams: map<u32, AudioStream>, walked: set<u32>, d: Direction, id: u32)
    requires IsTable(streams) && Listed(list, streams, walked, d) && id in streams && id !in walked
    ensures Listed(if streams[id].direction == d then list + [streams[id]] else list, streams, walked + {id}, d)
  {
    assert streams[id] !in list;
  }

  lemma MinusTwice<T>(m: map<u32, T>, a: set<u32>, b: set<u32>)
    ensures m - a - b == m - (a + b)
  {
  }

  lemma Walked(all: set<u32>, left: set<u32>, id: u32)
    requires id in left
    ensures all - (left - {id}) == if id in all then all - left + {id} else all - left
  {
  }

  class Table {
    var streams: map<u32, AudioStream>
    ghost var described: map<u32, Spec.Stream>  // what the streams say of themselves

    ghost predicate Describes(id: u32)
      reads this, streams.Values
      requires id in streams
    {
      && id in described && streams[id].state != Closed
      && described[id] == Spec.Stream(streams[id].ownerConnectionId, streams[id].direction, streams[id].state)
    }

    /** No stream of the table is closed. */
    ghost predicate Valid()
      reads this, streams.Values
    {
      IsTable(streams) && described.Keys == streams.Keys && forall id | id in streams :: Describes(id)
    }

    constructor ()
      ensures Valid() && described == map[] && streams == map[]
    {
      streams, described := map[], map[];
    }

    /** What a snapshot promises to its callback: `MixStreamsS16` and `DistributeCaptureFramesS16` may take it. */
    lemma SnapshotIsDistinct(snapshot: seq<AudioStream>)
      requires Valid() && IsSnapshot(snapshot, streams)
      ensures Distinct(snapshot) && Separate(snapshot)
    {
      forall j, k | 0 <= j < |snapshot| && 0 <= k < |snapshot| && j != k ensures Apart(snapshot[j], snapshot[k]) {
        var a, b := snapshot[j], snapshot[k];
        assert a in snapshot && b in snapshot && a != b;
        assert streams[a.streamId] == a && streams[b.streamId] == b;
      }
      forall j | 0 <= j < |snapshot| ensures snapshot[j].ring.IsShaped() {
        assert snapshot[j] in snapshot;
      }
    }

    /** The scan over the table. */
    method HasStartedCaptureStream() returns (found: bool)
      requires Valid()
      ensures found <==> Spec.HasStartedCapture(described)
    {
      var left := streams.Keys;
      while left != {}
        invariant left <= streams.Keys
        invariant forall id | id in streams && id !in left ::
                    described[id].direction != Capture || described[id].state != Started
        decreases left
      {
        var id :| id in left;
        assert Describes(id);
        if streams[id].direction == Capture && streams[id].state == Started {
          return true;
        }
        left := left - {id};
      }
      return false;
    }

    /** Both snapshots, in whatever order the table is walked. */
    method Snapshots() returns (render: seq<AudioStream>, capture: seq<AudioStream>)
      requires Valid()
      ensures IsSnapshot(render, streams) && Ids(render) == Spec.OfDirection(described, Render)
      ensures IsSnapshot(capture, streams) && Ids(capture) == Spec.OfDirection(described, Capture)
    {
      var left := streams.Keys;
      render, capture := [], [];
      while left != {}
        invariant left <= streams.Keys
        invariant Listed(render, streams, streams.Keys - left, Render)
        invariant Listed(capture, streams, streams.Keys - left, Capture)
        decreases left
      {
        var id :| id in left;
        assert Describes(id);
        ListedNext(render, streams, streams.Keys - left, Render, id);
        ListedNext(capture, streams, streams.Keys - left, Capture, id);
        if streams[id].state != Closed {
          if streams[id].direction == Capture {
            capture := capture + [streams[id]];
          } else {
            render := render + [streams[id]];
          }
        }
        assert streams.Keys - left + {id} == streams.Keys - (left - {id});
        left := left - {id};
      }
      assert streams.Keys - left == streams.Keys;
      ListedIds(render, Render);
      ListedIds(capture, Capture);
    }

    lemma ListedIds(list: seq<AudioStream>, d: Direction)
      requires Valid() && Listed(list, streams, streams.Keys, d)
      ensures Ids(list) == Spec.OfDirection(described, d)
    {
      forall id ensures id in Ids(list) <==> id in Spec.OfDirection(described, d) {
        if id in streams {
          assert Describes(id);
        }
      }
    }

    /** Puts a new stream, with a new ring, into the table, unless its id is taken. */
    method Emplace(id: u32, owner: u32, direction: Direction, capacity: nat)
      requires Valid() && IsPow2(capacity) && capacity > 0
      modifies this
      ensures Valid()
      ensures described == if id in old(described) then old(described)
                           else old(described)[id := Spec.Stream(owner, direction, Stopped)]
      ensures id !in old(streams) ==> streams[id].ring.Valid() && streams[id].ring.contents == []
    {
      var stream := new AudioStream(id, owner, direction, capacity);
      if id !in streams {
        TableGrows(streams, stream);
        streams := streams[id := stream];
        described := described[id := Spec.Stream(owner, direction, Stopped)];
      }
    }

    method SetStarted(id: u32, on: bool)
      requires Valid() && id in streams
      modifies this`described, streams[id]
      ensures Valid()
      ensures described == old(described)[id := old(described)[id].(state := if on then Started else Stopped)]
    {
      assert Describes(id);
      streams[id].SetStarted(on);
      described := described[id := described[id].(state := streams[id].state)];
    }

    /** Stops a stream and empties its ring. */
    method Reset(id: u32)
      requires Valid() && id in streams
      modifies this`described, streams[id], streams[id].ring
      ensures Valid() && streams[id].ring.Valid() && streams[id].ring.contents == []
      ensures described == old(described)[id := old(described)[id].(state := Stopped)]
    {
      assert Describes(id);
      streams[id].Reset();
      described := described[id := described[id].(state := Stopped)];
    }

    /** Closes a stream, for callbacks that still hold an older snapshot, and takes it out of the table. */
    method Close(id: u32)
      requires Valid() && id in streams
      modifies this, streams[id]
      ensures Valid() && streams == old(streams) - {id} && described == old(described) - {id}
      ensures old(streams[id]).state == Closed
    {
      streams[id].MarkClosed();
      streams, described := streams - {id}, described - {id};
    }

    method CloseIfOwned(connectionId: u32, id: u32) returns (closed: bool)
      requires Valid() && id in streams
      modifies this, streams[id]
      ensures Valid() && (closed <==> old(described)[id].owner == connectionId)
      ensures streams == if closed then old(streams) - {id} else old(streams)
      ensures described == if closed then old(described) - {id} else old(described)
    {
      assert Describes(id);
      closed := streams[id].ownerConnectionId == connectionId;
      if closed {
        Close(id);
      }
    }

    /** The walk that closes the streams of a connection. */
    method CloseOwned(connectionId: u32) returns (changed: bool)
      requires Valid()
      modifies this, streams.Values
      ensures Valid() && described == old(described) - Spec.OwnedBy(old(described), connectionId)
      ensures changed <==> Spec.OwnedBy(old(described), connectionId) != {}
      ensures !changed ==> streams == old(streams)
    {
      ghost var before, was := described, streams;
      ghost var owned, gone := Spec.OwnedBy(described, connectionId), {};
      var left := streams.Keys;
      changed := false;
      while left != {}
        invariant Valid() && left <= streams.Keys && gone == owned - left
        invariant streams == was - gone && described == before - gone
        invariant changed <==> gone != {}
        decreases left
      {
        var id :| id in left;
        Walked(owned, left, id);
        MinusTwice(was, gone, {id});
        MinusTwice(before, gone, {id});
        var closed := CloseIfOwned(connectionId, id);
        if closed {
          gone, changed := gone + {id}, true;
        }
        left := left - {id};
      }
    }

    /** Closes every stream. */
    method CloseAll()
      modifies this, streams.Values
      ensures Valid() && described == map[] && streams == map[]
      ensures forall s | s in old(streams.Values) :: s.state == Closed
    {
      var left := streams.Keys;
      while left != {}
        invariant left <= streams.Keys && streams == old(streams)
        invariant forall id | id in streams && id !in left :: streams[id].state == Closed
        decreases left
      {
        var id :| id in left;
        streams[id].MarkClosed();
        left := left - {id};
      }
      streams, described := map[], map[];
    }
  }
}
