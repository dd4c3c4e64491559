/** The shared ring of an audio stream: free-running read and write indices over a power-of-two number of frames, copied
    in at most two pieces. Seen from outside it is a bounded queue of frames. */
module AudioRing {
  import opened BitMask

  type Sample = x: int | -32768 <= x <= 32767

  datatype Frame = Frame(left: Sample, right: Sample)

  const SILENCE := Frame(0, 0)

  function Min(a: nat, b: nat): nat {
    if a <= b then a else b
  }

  // ---- Slots ----

  lemma SlotIsRemainder(index: nat, capacity: nat)
    requires IsPow2(capacity) && capacity >= 1
    ensures And(index, capacity - 1) == index % capacity
  {
    var k: nat :| Pow2(k) == capacity;
    AndIsRemainder(index, k);
  }

  /** Counting on from an index wraps around at most once within one capacity. */
  lemma SlotAfter(index: nat, i: nat, c: nat)
    requires c > 0 && i < c
    ensures var o := index % c; (index + i) % c == if o + i < c then o + i else o + i - c
  {
    DivisionEquation(index, c);
    var q, o := index / c, index % c;
    if o + i < c {
      RemainderUnique(index + i, c, q, o + i);
    } else {
      assert c * (q + 1) == c * q + c;
      RemainderUnique(index + i, c, q + 1, o + i - c);
    }
  }

  /** Indices less than a capacity apart have different slots. */
  lemma SlotsDiffer(a: nat, b: nat, c: nat)
    requires c > 0 && a < b < a + c
    ensures a % c != b % c
  {
    SlotAfter(a, b - a, c);
  }

  /** The `n` frames from an index on. */
  function Window(d: seq<Frame>, index: nat, n: nat): (w: seq<Frame>)
    requires |d| > 0
    ensures |w| == n
  {
    seq(n, i requires 0 <= i < n => d[(index + i) % |d|])
  }

  /** `d` with `s` stored from slot `o` on, wrapping around at the end. */
  function Stored(d: seq<Frame>, o: nat, s: seq<Frame>): (r: seq<Frame>)
    requires o < |d| && |s| <= |d|
    ensures |r| == |d|
  {
    seq(|d|, k requires 0 <= k < |d| =>
      if o <= k < o + |s| then s[k - o] else if k + |d| < o + |s| then s[k + |d| - o] else d[k])
  }

  lemma StoredInWindow(d: seq<Frame>, index: nat, s: seq<Frame>)
    requires 0 < |d| && |s| <= |d|
    ensures Window(Stored(d, index % |d|, s), index, |s|) == s
  {
    forall i | 0 <= i < |s| ensures Window(Stored(d, index % |d|, s), index, |s|)[i] == s[i] {
      SlotAfter(index, i, |d|);
      StoredSlot(d, index % |d|, s, i);
    }
  }

  lemma StoredSlot(d: seq<Frame>, o: nat, s: seq<Frame>, i: nat)
    requires o < |d| && |s| <= |d| && i < |s|
    ensures Stored(d, o, s)[if o + i < |d| then o + i else o + i - |d|] == s[i]
  {
  }

  /** Storing behind a window leaves it alone, as long as both fit the ring together. */
  lemma StoredOutsideWindow(d: seq<Frame>, index: nat, n: nat, s: seq<Frame>)
    requires 0 < |d| && n + |s| <= |d|
    ensures Window(Stored(d, (index + n) % |d|, s), index, n) == Window(d, index, n)
  {
    var stored := Stored(d, (index + n) % |d|, s);
    forall i | 0 <= i < n ensures Window(stored, index, n)[i] == Window(d, index, n)[i] {
      OutsideSlot(d, index + i, index + n, s);
    }
  }

  lemma OutsideSlot(d: seq<Frame>, at: nat, index: nat, s: seq<Frame>)
    requires 0 < |d| && |s| <= |d| && at < index && index + |s| <= at + |d|
    ensures Stored(d, index % |d|, s)[at % |d|] == d[at % |d|]
  {
    var c, o, k := |d|, index % |d|, at % |d|;
    if o <= k < o + |s| {
      SlotAfter(index, k - o, c);
      SlotsDiffer(at, index + (k - o), c);
    } else if k + c < o + |s| {
      SlotAfter(index, k + c - o, c);
      SlotsDiffer(at, index + (k + c - o), c);
    }
  }

  lemma WindowSplit(d: seq<Frame>, index: nat, m: nat, n: nat)
    requires |d| > 0
    ensures Window(d, index, m + n) == Window(d, index, m) + Window(d, index + m, n)
  {
  }

  /** Storing right behind a window appends to it. */
  lemma StoredAppends(d: seq<Frame>, index: nat, n: nat, s: seq<Frame>)
    requires 0 < |d| && n + |s| <= |d|
    ensures Window(Stored(d, (index + n) % |d|, s), index, n + |s|) == Window(d, index, n) + s
  {
    StoredInWindow(d, index + n, s);
    StoredOutsideWindow(d, index, n, s);
    WindowSplit(Stored(d, (index + n) % |d|, s), index, n, |s|);
  }

  /** A window is at most two contiguous pieces. */
  lemma WindowInPieces(d: seq<Frame>, index: nat, n: nat, offset: nat, first: nat)
    requires 0 < |d| && n <= |d| && offset == index % |d|
    requires first == if |d| - offset > n then n else |d| - offset
    ensures Window(d, index, n) == d[offset..offset + first] + d[..n - first]
  {
    forall i | 0 <= i < n ensures Window(d, index, n)[i] == (d[offset..offset + first] + d[..n - first])[i] {
      WindowAt(d, index, n, i);
      SlotInPieces(d, n, offset, first, i);
    }
  }

  lemma WindowAt(d: seq<Frame>, index: nat, n: nat, i: nat)
    requires i < n <= |d|
    ensures var o := index % |d|; Window(d, index, n)[i] == d[if o + i < |d| then o + i else o + i - |d|]
  {
    SlotAfter(index, i, |d|);
  }

  lemma SlotInPieces(d: seq<Frame>, n: nat, offset: nat, first: nat, i: nat)
    requires i < n <= |d| && offset < |d| && first == if |d| - offset > n then n else |d| - offset
    ensures (d[offset..offset + first] + d[..n - first])[i] ==
            d[if offset + i < |d| then offset + i else offset + i - |d|]
  {
  }

  /** Frames as interleaved samples. */
  function Interleaved(frames: seq<Frame>): (samples: seq<Sample>)
    ensures |samples| == 2 * |frames|
  {
    seq(2 * |frames|, i requires 0 <= i < 2 * |frames| => SampleOf(frames[i / 2], i))
  }

  /** A frame's sample at an even or an odd place. */
  function SampleOf(frame: Frame, i: nat): Sample {
    if i % 2 == 0 then frame.left else frame.right
  }

  lemma InterleavedAppend(a: seq<Frame>, b: seq<Frame>)
    ensures Interleaved(a + b) == Interleaved(a) + Interleaved(b)
  {
  }

  // ---- The ring ----

  class Ring {
    const capacityFrames: nat
    const data: array<Frame>
    var readIndex: nat
    var writeIndex: nat
    var underrunCount: nat
    var overflowCount: nat
    ghost var contents: seq<Frame>  // the queued frames, oldest first

    ghost predicate IsShaped() {
      IsPow2(capacityFrames) && capacityFrames > 0 && data.Length == capacityFrames && this as object != data
    }

    ghost predicate Valid()
      reads this, data
    {
      && IsShaped()
      && readIndex <= writeIndex <= readIndex + capacityFrames
      && contents == Window(data[..], readIndex, writeIndex - readIndex)
    }

    constructor (capacity: nat)
      requires IsPow2(capacity) && capacity > 0
      ensures Valid() && fresh(data) && capacityFrames == capacity && contents == []
    {
      contents := [];
      capacityFrames := capacity;
      data := new Frame[capacity](_ => SILENCE);
      readIndex, writeIndex, underrunCount, overflowCount := 0, 0, 0, 0;
    }

    /** The slot of an index: the mask is the remainder because the capacity is a power of two. */
    method Slot(index: nat) returns (slot: nat)
      requires IsPow2(capacityFrames) && capacityFrames > 0
      ensures slot == index % capacityFrames < capacityFrames
    {
      SlotIsRemainder(index, capacityFrames);
      DivisionEquation(index, capacityFrames);
      slot := And(index, capacityFrames - 1);
    }

    /** The two copies into the ring. */
    method CopyIn(offset: nat, src: array<Frame>, n: nat)
      requires data.Length == capacityFrames && offset < capacityFrames && n <= src.Length && n <= capacityFrames
      requires src != data
      modifies data
      ensures data[..] == Stored(old(data[..]), offset, src[..n])
    {
      var first := if capacityFrames - offset > n then n else capacityFrames - offset;
      forall i | 0 <= i < first {
        data[offset + i] := src[i];
      }
      forall i | 0 <= i < n - first {
        data[i] := src[first + i];
      }
    }

    /** `winehua_audio_ring_write_frames`: what fits is appended to the queue. */
    method WriteFrames(src: array<Frame>, frames: nat) returns (written: nat)
      requires Valid() && frames <= src.Length && src != data
      modifies this`writeIndex, this`contents, data
      ensures Valid()
      ensures written == Min(frames, capacityFrames - |old(contents)|)
      ensures contents == old(contents) + src[..written]
    {
      var used := writeIndex - readIndex;
      var free := if used >= capacityFrames then 0 else capacityFrames - used;
      written := if frames > free then free else frames;
      if written == 0 {
        assert src[..0] == [];
        return;
      }
      Append(src, written);
    }

    /** The frames that fit. */
    method Append(src: array<Frame>, n: nat)
      requires Valid() && n <= src.Length && src != data && |contents| + n <= capacityFrames
      modifies this`writeIndex, this`contents, data
      ensures Valid() && contents == old(contents) + src[..n]
    {
      ghost var before, used := data[..], writeIndex - readIndex;
      var offset := Slot(writeIndex);
      CopyIn(offset, src, n);
      StoredAppends(before, readIndex, used, src[..n]);
      writeIndex, contents := writeIndex + n, contents + src[..n];
    }

    /** The two copies out of the ring. */
    method CopyOut(index: nat, dst: array<Sample>, n: nat)
      requires Valid() && n <= capacityFrames && 2 * n <= dst.Length
      modifies dst
      ensures dst[..2 * n] == Interleaved(Window(data[..], index, n))
      ensures dst[2 * n..] == old(dst[2 * n..])
    {
      var offset := Slot(index);
      ghost var first := CopyPieces(offset, dst, n);
      WindowInPieces(data[..], index, n, offset, first);
      InterleavedAppend(data[offset..offset + first], data[..n - first]);
    }

    /** The piece up to the end of the ring, and the rest from its start. */
    method CopyPieces(offset: nat, dst: array<Sample>, n: nat) returns (ghost first: nat)
      requires data.Length == capacityFrames && offset < capacityFrames && n <= capacityFrames && 2 * n <= dst.Length
      modifies dst
      ensures first == if capacityFrames - offset > n then n else capacityFrames - offset
      ensures dst[..2 * n] == Interleaved(data[offset..offset + first]) + Interleaved(data[..n - first])
      ensures dst[2 * n..] == old(dst[2 * n..])
    {
      var head := if capacityFrames - offset > n then n else capacityFrames - offset;
      first := head;
      CopyFrames(offset, dst, 0, head);
      CopyFrames(0, dst, head, n - head);
      assert dst[..2 * n] == dst[..2 * head] + dst[2 * head..2 * n];
    }

    /** One contiguous copy of `n` frames, to the place of frame `at` in an interleaved buffer. */
    method CopyFrames(from: nat, dst: array<Sample>, at: nat, n: nat)
      requires from + n <= data.Length && 2 * (at + n) <= dst.Length
      modifies dst
      ensures dst[2 * at..2 * (at + n)] == Interleaved(data[from..from + n])
      ensures dst[..2 * at] == old(dst[..2 * at])
      ensures dst[2 * (at + n)..] == old(dst[2 * (at + n)..])
    {
      ghost var samples := Interleaved(data[from..from + n]);
      forall i | 0 <= i < 2 * n ensures SampleOf(data[from + i / 2], i) == samples[i] {
        assert data[from + i / 2] == data[from..from + n][i / 2];
      }
      forall i | 0 <= i < 2 * n {
        dst[2 * at + i] := SampleOf(data[from + i / 2], i);
      }
      assert forall i | 0 <= i < 2 * n :: dst[2 * at..2 * (at + n)][i] == samples[i];
      assert data[from..from + n] == old(data[from..from + n]);
    }

    /** `winehua_audio_ring_read_frames`: the oldest frames leave the queue. */
    method ReadFrames(dst: array<Sample>, frames: nat) returns (got: nat)
      requires Valid() && 2 * frames <= dst.Length
      modifies this`readIndex, this`contents, dst
      ensures Valid()
      ensures got == Min(frames, |old(contents)|)
      ensures contents == old(contents)[got..]
      ensures dst[..2 * got] == Interleaved(old(contents)[..got])
      ensures dst[2 * got..] == old(dst[2 * got..])
    {
      var available := writeIndex - readIndex;
      got := if frames > available then available else frames;
      if got == 0 {
        return;
      }
      CopyOut(readIndex, dst, got);
      WindowSplit(data[..], readIndex, got, available - got);
      readIndex, contents := readIndex + got, contents[got..];
    }

    method Reset()
      requires IsShaped()
      modifies this
      ensures Valid() && contents == [] && underrunCount == 0 && overflowCount == 0
    {
      readIndex, writeIndex, underrunCount, overflowCount, contents := 0, 0, 0, 0, [];
    }
  }
}
