/** The capture callback's fan-out: every started capture stream of the snapshot gets as much of the block as its ring
    has room for, and counts an overflow when that is less than all of it. */
module AudioCapture {
  import opened AudioRing
  import opened AudioStreams
  import opened AudioMixer

  /** Streams share neither rings nor the memory behind them. */
  ghost predicate Separate(snapshot: seq<AudioStream>) {
    forall j, k | 0 <= j < |snapshot| && 0 <= k < |snapshot| ::
      && snapshot[j].ring as object != snapshot[k].ring.data
      && (j == k || (snapshot[j].ring != snapshot[k].ring && snapshot[j].ring.data != snapshot[k].ring.data))
  }

  /** A block of frames appended to a queue of bounded capacity: the frames that fit. */
  function Appended(contents: seq<Frame>, capacity: nat, block: seq<Frame>): (r: seq<Frame>)
    requires |contents| <= capacity
    ensures |r| <= capacity && contents <= r <= contents + block
    ensures |r| == capacity || r == contents + block
  {
    contents + block[..Min(|block|, capacity - |contents|)]
  }

  /** What one stream holds before and after its turn; the ledger says what it held at first. */
  ghost predicate StreamWritten(s: AudioStream, block: seq<Frame>, overflows: nat, contents: seq<Frame>, done: bool)
    reads s, s.ring
  {
    && |contents| <= s.ring.capacityFrames
    && if done && s.direction == Capture && s.state == Started
       then
         && s.ring.contents == Appended(contents, s.ring.capacityFrames, block)
         && s.ring.overflowCount == overflows + (if s.ring.contents == contents + block then 0 else 1)
       else
         s.ring.contents == contents && s.ring.overflowCount == overflows
  }

  ghost predicate WrittenUpTo(snapshot: seq<AudioStream>, block: seq<Frame>, before: seq<(seq<Frame>, nat)>, j: nat)
    reads snapshot, set s | s in snapshot :: s.ring
  {
    && |before| == |snapshot|
    && forall k | 0 <= k < |snapshot| :: StreamWritten(snapshot[k], block, before[k].1, before[k].0, k < j)
  }

  method GiveTo(s: AudioStream, src: array<Frame>, frames: nat, ghost contents: seq<Frame>, ghost overflows: nat)
    requires s.ring.Valid() && frames <= src.Length && src != s.ring.data
    requires StreamWritten(s, src[..frames], overflows, contents, false)
    modifies s.ring, s.ring.data
    ensures s.ring.Valid() && StreamWritten(s, src[..frames], overflows, contents, true)
  {
    if s.direction == Capture && s.state == Started {
      var written := s.ring.WriteFrames(src, frames);
      assert src[..frames][..written] == src[..written];
      if written < frames {
        s.ring.overflowCount := s.ring.overflowCount + 1;
      }
    }
  }

  method DistributeCaptureFramesS16(snapshot: seq<AudioStream>, src: array<Frame>, frames: nat,
                                    ghost before: seq<(seq<Frame>, nat)>)
    requires Separate(snapshot) && RingsValid(snapshot) && frames <= src.Length
    requires forall j | 0 <= j < |snapshot| :: snapshot[j].ring.data != src
    requires WrittenUpTo(snapshot, src[..frames], before, 0)
    modifies set s | s in snapshot :: s.ring, set s | s in snapshot :: s.ring.data
    ensures RingsValid(snapshot) && WrittenUpTo(snapshot, src[..frames], before, |snapshot|)
  {
    ghost var block := src[..frames];
    var j := 0;
    while j < |snapshot|
      invariant 0 <= j <= |snapshot|
      invariant src[..frames] == block
      invariant RingsValid(snapshot) && WrittenUpTo(snapshot, block, before, j)
    {
      assert StreamWritten(snapshot[j], block, before[j].1, before[j].0, false);
      GiveTo(snapshot[j], src, frames, before[j].0, before[j].1);
      j := j + 1;
    }
  }
}
