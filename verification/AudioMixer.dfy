/** The render callback's mixer: it reads every started render stream once, adds the samples in 32-bit accumulators and
    clamps the sums to 16 bits. */
module AudioMixer {
  import opened MachineInts
  import opened Sequences
  import opened AudioRing
  import opened AudioStreams

  type Int32 = x: int | -0x8000_0000 <= x < 0x8000_0000

  const CHANNELS := 2
  const FRAME_SIZE := 4
  const MAX_CALLBACK_FRAMES := 4096
  const MAX_STREAMS := 65536

  function Distance(x: int, y: int): nat {
    if x <= y then y - x else x - y
  }

  /** No sample is nearer to the sum than this one: the mix saturates. */
  ghost predicate IsNearest(s: Sample, x: int) {
    forall y: Sample :: Distance(x, s) <= Distance(x, y)
  }

  function Clamp16(x: int): (s: Sample)
    ensures IsNearest(s, x)
  {
    if x > 32767 then 32767 else if x < -32768 then -32768 else x
  }

  /** So sums within the range of a sample come through unchanged, larger and smaller ones end at its limits, and louder
      sums never give quieter samples. */
  lemma NearestSaturates(s: Sample, x: int, t: Sample, y: int)
    requires IsNearest(s, x) && IsNearest(t, y)
    ensures -32768 <= x <= 32767 ==> s == x
    ensures x > 32767 ==> s == 32767
    ensures x < -32768 ==> s == -32768
    ensures x <= y ==> s <= t
  {
    NearestIs(s, x);
    NearestIs(t, y);
  }

  lemma NearestIs(s: Sample, x: int)
    requires IsNearest(s, x)
    ensures s == if x > 32767 then 32767 else if x < -32768 then -32768 else x
  {
    var limit: Sample := if x > 32767 then 32767 else if x < -32768 then -32768 else x;
    assert Distance(x, s) <= Distance(x, limit);
  }

  /** Sample `i` of what was read from a stream; a short read counts as silence. */
  function SampleAt(frames: seq<Frame>, i: nat): Sample {
    if i < 2 * |frames| then Interleaved(frames)[i] else 0
  }

  function Sum(inputs: seq<seq<Frame>>, i: nat): int {
    if inputs == [] then 0 else Sum(inputs[..|inputs| - 1], i) + SampleAt(inputs[|inputs| - 1], i)
  }

  /** The left samples of frame `k`, or the right ones, added up; a stream without that frame is silent. */
  function Total(inputs: seq<seq<Frame>>, k: nat, right: bool): int {
    if inputs == [] then 0
    else
      var last := inputs[|inputs| - 1];
      Total(inputs[..|inputs| - 1], k, right) +
      if k >= |last| then 0 else if right then last[k].right else last[k].left
  }

  /** The samples of the mix are those totals, left and right in turn. */
  lemma {:induction false} SumsTheChannels(inputs: seq<seq<Frame>>, k: nat)
    ensures Sum(inputs, 2 * k) == Total(inputs, k, false) && Sum(inputs, 2 * k + 1) == Total(inputs, k, true)
  {
    if inputs != [] {
      SumsTheChannels(inputs[..|inputs| - 1], k);
      assert (2 * k) / 2 == k && (2 * k + 1) / 2 == k;
    }
  }

  /** How many streams contribute at all. */
  function Active(inputs: seq<seq<Frame>>): nat {
    if inputs == [] then 0 else Active(inputs[..|inputs| - 1]) + if inputs[|inputs| - 1] == [] then 0 else 1
  }

  lemma {:induction false} SumBounded(inputs: seq<seq<Frame>>, i: nat)
    ensures -32768 * Active(inputs) <= Sum(inputs, i) <= 32767 * Active(inputs)
  {
    if inputs != [] {
      SumBounded(inputs[..|inputs| - 1], i);
    }
  }

  lemma SilentSum(inputs: seq<seq<Frame>>, sampleCount: nat)
    requires Active(inputs) == 0
    ensures forall i | 0 <= i < sampleCount :: Sum(inputs, i) == 0
  {
    forall i | 0 <= i < sampleCount ensures Sum(inputs, i) == 0 {
      SumBounded(inputs, i);
    }
  }

  lemma {:induction false} ActivePrefix(inputs: seq<seq<Frame>>, j: nat)
    requires j <= |inputs|
    ensures Active(inputs[..j]) <= Active(inputs)
  {
    if j < |inputs| {
      assert inputs[..|inputs| - 1][..j] == inputs[..j];
      ActivePrefix(inputs[..|inputs| - 1], j);
    } else {
      assert inputs[..j] == inputs;
    }
  }

  /** No accumulator overflows for up to 65536 contributing streams, at any point of the accumulation. */
  lemma AccumulatorFits(inputs: seq<seq<Frame>>, j: nat, i: nat)
    requires Active(inputs) <= MAX_STREAMS && j <= |inputs|
    ensures -0x8000_0000 <= Sum(inputs[..j], i) < 0x8000_0000
  {
    ActivePrefix(inputs, j);
    SumBounded(inputs[..j], i);
  }

  /** The bound is tight: 65537 streams at the lowest sample do not fit. */
  lemma {:induction false} LoudStreams(n: nat)
    ensures var inputs := seq(n, _ => [Frame(-32768, -32768)]);
            Sum(inputs, 0) == -32768 * n && Active(inputs) == n
  {
    if n > 0 {
      var inputs := seq(n, _ => [Frame(-32768, -32768)]);
      assert inputs[..n - 1] == seq(n - 1, _ => [Frame(-32768, -32768)]);
      LoudStreams(n - 1);
    }
  }

  lemma BoundIsTight()
    ensures exists inputs: seq<seq<Frame>> :: Active(inputs) == MAX_STREAMS + 1 && Sum(inputs, 0) < -0x8000_0000
  {
    LoudStreams(MAX_STREAMS + 1);
  }

  lemma {:induction false} SumAppend(a: seq<seq<Frame>>, b: seq<seq<Frame>>, i: nat)
    ensures Sum(a + b, i) == Sum(a, i) + Sum(b, i)
  {
    if b == [] {
      assert a + b == a;
    } else {
      assert (a + b)[..|a + b| - 1] == a + b[..|b| - 1];
      SumAppend(a, b[..|b| - 1], i);
    }
  }

  /** The order in which the snapshot lists the streams does not matter. */
  lemma {:induction false} SumOrderFree(a: seq<seq<Frame>>, b: seq<seq<Frame>>, i: nat)
    requires multiset(a) == multiset(b)
    ensures Sum(a, i) == Sum(b, i)
    decreases |a|
  {
    if a == [] {
      assert |b| == |multiset(b)| == |multiset(a)| == 0;
    } else {
      var k := TakeOut(a, b);
      var last, left, right := a[|a| - 1], b[..k], b[k + 1..];
      SumOrderFree(a[..|a| - 1], left + right, i);
      SumAppend(left, right, i);
      SumAppend(left + [last], right, i);
      SumAppend(left, [last], i);
      assert [last][..0] == [];
    }
  }

  /** A snapshot lists no stream twice, and its streams share no ring. */
  ghost predicate Distinct(snapshot: seq<AudioStream>) {
    forall j, k | 0 <= j < k < |snapshot| :: snapshot[j] != snapshot[k] && snapshot[j].ring != snapshot[k].ring
  }

  ghost predicate RingsValid(snapshot: seq<AudioStream>)
    reads set s | s in snapshot :: s.ring, set s | s in snapshot :: s.ring.data
  {
    forall j | 0 <= j < |snapshot| :: snapshot[j].ring.Valid()
  }

  /** What a callback of `frames` frames reads from a stream. */
  ghost function Input(s: AudioStream, frames: nat): seq<Frame>
    reads s, s.ring
  {
    if s.direction == Render && s.state == Started
    then s.ring.contents[..Min(frames, |s.ring.contents|)] else []
  }

  /** A started render stream that has less than the callback asks for counts an underrun. */
  ghost function Underruns(s: AudioStream, frames: nat, input: seq<Frame>): nat
    reads s
  {
    if s.direction == Render && s.state == Started && |input| < frames then 1 else 0
  }

  /** A stream that is not a started render stream is not read and misses nothing. From any other the callback takes as
      many of the oldest frames as it asks for or as there are, and it counts an underrun exactly if there are fewer. */
  lemma ReadsOldest(s: AudioStream, frames: nat)
    ensures s.direction != Render || s.state != Started ==>
              Input(s, frames) == [] && Underruns(s, frames, Input(s, frames)) == 0
    ensures s.direction == Render && s.state == Started ==>
              && Input(s, frames) <= s.ring.contents
              && (|Input(s, frames)| == frames || (Input(s, frames) == s.ring.contents && |s.ring.contents| < frames))
              && Underruns(s, frames, Input(s, frames)) == if |s.ring.contents| < frames then 1 else 0
  {
  }

  /** What a ring held, and how many underruns it had counted. */
  datatype Ledger = Ledger(contents: seq<Frame>, underruns: nat)

  /** Before its turn a stream is as the ledger says and its input is still to be read; after it, it has lost exactly
      its input and has counted its underrun. */
  ghost predicate StreamRead(s: AudioStream, frames: nat, input: seq<Frame>, ledger: Ledger, done: bool)
    reads s, s.ring
  {
    && |input| <= |ledger.contents|
    && s.ring.contents == (if done then ledger.contents[|input|..] else ledger.contents)
    && s.ring.underrunCount == ledger.underruns + (if done then Underruns(s, frames, input) else 0)
    && (done || input == Input(s, frames))
  }

  /** The first `j` streams of the snapshot have had their turn. */
  ghost predicate ReadUpTo(snapshot: seq<AudioStream>, frames: nat, inputs: seq<seq<Frame>>, before: seq<Ledger>,
                           j: nat)
    reads snapshot, set s | s in snapshot :: s.ring
  {
    && |inputs| == |before| == |snapshot|
    && forall k | 0 <= k < |snapshot| :: StreamRead(snapshot[k], frames, inputs[k], before[k], k < j)
  }

  /** The whole frames of a callback's buffer. */
  function CallbackFrames(audioDataSize: Int32): (frames: nat)
    ensures audioDataSize > 0 ==> 4 * frames <= audioDataSize < 4 * frames + 4
    ensures audioDataSize <= 0 ==> frames == 0
  {
    if audioDataSize <= 0 then 0 else audioDataSize / FRAME_SIZE
  }

  class Mixer {
    const scratch: array<Sample>
    const accum: array<Int32>

    constructor ()
      ensures fresh(scratch) && fresh(accum)
      ensures scratch.Length == accum.Length == MAX_CALLBACK_FRAMES * CHANNELS
    {
      scratch := new Sample[MAX_CALLBACK_FRAMES * CHANNELS](_ => 0);
      accum := new Int32[MAX_CALLBACK_FRAMES * CHANNELS](_ => 0);
    }

    /** Adds the first samples of the scratch buffer to the accumulators. */
    method Accumulate(samples: nat, ghost inputs: seq<seq<Frame>>, ghost j: nat, sampleCount: nat)
      requires samples <= sampleCount <= scratch.Length == accum.Length
      requires j < |inputs| && samples == 2 * |inputs[j]| && scratch[..samples] == Interleaved(inputs[j])
      requires Active(inputs) <= MAX_STREAMS
      requires forall i | 0 <= i < sampleCount :: accum[i] == Sum(inputs[..j], i)
      modifies accum
      ensures forall i | 0 <= i < sampleCount :: accum[i] == Sum(inputs[..j + 1], i)
    {
      assert inputs[..j + 1][..j] == inputs[..j];
      var i := 0;
      while i < samples
        invariant 0 <= i <= samples
        invariant forall k | 0 <= k < i :: accum[k] == Sum(inputs[..j + 1], k)
        invariant forall k | i <= k < sampleCount :: accum[k] == Sum(inputs[..j], k)
      {
        AccumulatorFits(inputs, j + 1, i);
        assert scratch[i] == scratch[..samples][i];
        accum[i] := accum[i] + scratch[i];
        i := i + 1;
      }
      assert forall k | samples <= k < sampleCount :: Sum(inputs[..j + 1], k) == Sum(inputs[..j], k);
    }

    /** The final pass: sums become samples. */
    method Store(dst: array<Sample>, sampleCount: nat)
      requires sampleCount <= accum.Length && sampleCount <= dst.Length
      modifies dst
      ensures forall i | 0 <= i < sampleCount :: dst[i] == Clamp16(accum[i])
      ensures dst[sampleCount..] == old(dst[sampleCount..])
    {
      var i := 0;
      while i < sampleCount
        invariant 0 <= i <= sampleCount
        invariant forall k | 0 <= k < i :: dst[k] == Clamp16(accum[k])
        invariant dst[sampleCount..] == old(dst[sampleCount..])
      {
        var mixed := accum[i];
        if mixed > 32767 {
          mixed := 32767;
        }
        if mixed < -32768 {
          mixed := -32768;
        }
        dst[i] := mixed;
        i := i + 1;
      }
    }

    /** Reads one stream and adds what it had. */
    method AddStream(s: AudioStream, frames: nat, ghost inputs: seq<seq<Frame>>, ghost j: nat) returns (any: bool)
      requires 2 * frames <= scratch.Length == accum.Length && s.ring.Valid()
      requires j < |inputs| && Active(inputs) <= MAX_STREAMS && inputs[j] == Input(s, frames)
      requires forall i | 0 <= i < 2 * frames :: accum[i] == Sum(inputs[..j], i)
      modifies scratch, accum, s.ring
      ensures forall i | 0 <= i < 2 * frames :: accum[i] == Sum(inputs[..j + 1], i)
      ensures any <==> inputs[j] != []
      ensures s.ring.Valid() && s.ring.contents == old(s.ring.contents)[|inputs[j]|..]
      ensures s.ring.underrunCount == old(s.ring.underrunCount) + Underruns(s, frames, inputs[j])
    {
      assert inputs[..j + 1][..j] == inputs[..j];
      if s.direction != Render || s.state != Started {
        return false;
      }
      var got := s.ring.ReadFrames(scratch, frames);
      if got < frames {
        s.ring.underrunCount := s.ring.underrunCount + 1;
      }
      if got == 0 {
        return false;
      }
      Accumulate(2 * got, inputs, j, 2 * frames);
      return true;
    }

    /** The loop over the snapshot. */
    method AddAll(snapshot: seq<AudioStream>, frames: nat, ghost inputs: seq<seq<Frame>>, ghost before: seq<Ledger>)
      returns (any: bool)
      requires 2 * frames <= scratch.Length == accum.Length
      requires Distinct(snapshot) && RingsValid(snapshot) && Active(inputs) <= MAX_STREAMS
      requires ReadUpTo(snapshot, frames, inputs, before, 0)
      requires forall i | 0 <= i < 2 * frames :: accum[i] == 0
      modifies scratch, accum, set s | s in snapshot :: s.ring
      ensures forall i | 0 <= i < 2 * frames :: accum[i] == Sum(inputs, i)
      ensures any <==> Active(inputs) > 0
      ensures RingsValid(snapshot) && ReadUpTo(snapshot, frames, inputs, before, |snapshot|)
    {
      any := false;
      var j := 0;
      while j < |snapshot|
        invariant 0 <= j <= |snapshot|
        invariant forall i | 0 <= i < 2 * frames :: accum[i] == Sum(inputs[..j], i)
        invariant any <==> Active(inputs[..j]) > 0
        invariant RingsValid(snapshot) && ReadUpTo(snapshot, frames, inputs, before, j)
      {
        var more := AddNth(snapshot, frames, inputs, before, j);
        any := any || more;
        j := j + 1;
      }
      assert inputs[..j] == inputs;
    }

    /** One turn of that loop. */
    method AddNth(snapshot: seq<AudioStream>, frames: nat, ghost inputs: seq<seq<Frame>>, ghost before: seq<Ledger>,
                  j: nat) returns (any: bool)
      requires 2 * frames <= scratch.Length == accum.Length && j < |snapshot|
      requires Distinct(snapshot) && RingsValid(snapshot) && Active(inputs) <= MAX_STREAMS
      requires ReadUpTo(snapshot, frames, inputs, before, j)
      requires forall i | 0 <= i < 2 * frames :: accum[i] == Sum(inputs[..j], i)
      modifies scratch, accum, snapshot[j].ring
      ensures forall i | 0 <= i < 2 * frames :: accum[i] == Sum(inputs[..j + 1], i)
      ensures Active(inputs[..j + 1]) == Active(inputs[..j]) + if any then 1 else 0
      ensures RingsValid(snapshot) && ReadUpTo(snapshot, frames, inputs, before, j + 1)
    {
      assert StreamRead(snapshot[j], frames, inputs[j], before[j], false);
      any := AddStream(snapshot[j], frames, inputs, j);
      assert inputs[..j + 1][..j] == inputs[..j];
      assert StreamRead(snapshot[j], frames, inputs[j], before[j], true);
    }

    /** `MixStreamsS16`: the output is the clamped sum of what the started render streams had, each of them loses
        exactly that, and a stream that had less than a whole callback counts an underrun. */
    method MixStreamsS16(snapshot: seq<AudioStream>, dst: array<Sample>, frames: nat, ghost inputs: seq<seq<Frame>>,
                         ghost before: seq<Ledger>)
      requires scratch.Length == accum.Length && 2 * frames <= dst.Length && dst != scratch
      requires Distinct(snapshot) && RingsValid(snapshot) && Active(inputs) <= MAX_STREAMS
      requires ReadUpTo(snapshot, frames, inputs, before, 0)
      modifies dst, scratch, accum, set s | s in snapshot :: s.ring
      ensures forall i | 0 <= i < 2 * frames ::
                if 2 * frames <= scratch.Length then IsNearest(dst[i], Sum(inputs, i)) else dst[i] == 0
      ensures dst[2 * frames..] == old(dst[2 * frames..])
      ensures RingsValid(snapshot)
      ensures ReadUpTo(snapshot, frames, inputs, before, if 2 * frames <= scratch.Length then |snapshot| else 0)
    {
      Silence(dst, 2 * frames);
      if |snapshot| == 0 || 2 * frames > scratch.Length {
        return;
      }
      MixInto(snapshot, dst, frames, inputs, before);
    }

    /** `OnWriteData`, the callback itself: a buffer of 1 to 4096 frames gets the mix and keeps the bytes behind the
        last whole frame, any other buffer is silenced without touching a ring, and a size that is not positive is
        refused. The buffer is its whole samples and, if its size is odd, one more byte. */
    method OnWriteData(snapshot: seq<AudioStream>, audioData: array<Sample>, oddByte: array<u8>, audioDataSize: Int32,
                       ghost inputs: seq<seq<Frame>>, ghost before: seq<Ledger>) returns (valid: bool)
      requires scratch.Length == accum.Length == MAX_CALLBACK_FRAMES * CHANNELS && audioData != scratch
      requires audioDataSize > 0 ==> audioData.Length == audioDataSize / 2 && oddByte.Length == audioDataSize % 2
      requires Distinct(snapshot) && RingsValid(snapshot) && Active(inputs) <= MAX_STREAMS
      requires ReadUpTo(snapshot, CallbackFrames(audioDataSize), inputs, before, 0)
      modifies audioData, oddByte, scratch, accum, set s | s in snapshot :: s.ring
      ensures valid <==> audioDataSize > 0
      ensures RingsValid(snapshot)
      ensures var frames := CallbackFrames(audioDataSize);
              if 1 <= frames <= MAX_CALLBACK_FRAMES
              then
                && (forall i | 0 <= i < 2 * frames :: IsNearest(audioData[i], Sum(inputs, i)))
                && audioData[2 * frames..] == old(audioData[2 * frames..]) && oddByte[..] == old(oddByte[..])
                && ReadUpTo(snapshot, frames, inputs, before, |snapshot|)
              else
                && (forall i | 0 <= i < audioData.Length :: audioData[i] == if valid then 0 else old(audioData[i]))
                && (forall i | 0 <= i < oddByte.Length :: oddByte[i] == if valid then 0 else old(oddByte[i]))
                && ReadUpTo(snapshot, frames, inputs, before, 0)
    {
      if audioDataSize <= 0 {
        return false;
      }
      var frames := audioDataSize / FRAME_SIZE;
      if frames == 0 || frames > MAX_CALLBACK_FRAMES {
        Silence(audioData, audioData.Length);
        forall i | 0 <= i < oddByte.Length {
          oddByte[i] := 0;
        }
        return true;
      }
      MixStreamsS16(snapshot, audioData, frames, inputs, before);
      return true;
    }

    /** The part of the mixer behind its guards; the output is already silent. */
    method MixInto(snapshot: seq<AudioStream>, dst: array<Sample>, frames: nat, ghost inputs: seq<seq<Frame>>,
                   ghost before: seq<Ledger>)
      requires 2 * frames <= scratch.Length == accum.Length && 2 * frames <= dst.Length && dst != scratch
      requires Distinct(snapshot) && RingsValid(snapshot) && Active(inputs) <= MAX_STREAMS
      requires ReadUpTo(snapshot, frames, inputs, before, 0)
      requires forall i | 0 <= i < 2 * frames :: dst[i] == 0
      modifies dst, scratch, accum, set s | s in snapshot :: s.ring
      ensures forall i | 0 <= i < 2 * frames :: IsNearest(dst[i], Sum(inputs, i))
      ensures dst[2 * frames..] == old(dst[2 * frames..])
      ensures RingsValid(snapshot) && ReadUpTo(snapshot, frames, inputs, before, |snapshot|)
    {
      ClearAccumulators(2 * frames);
      var any := AddAll(snapshot, frames, inputs, before);
      if any {
        Store(dst, 2 * frames);
      } else {
        SilentSum(inputs, 2 * frames);
      }
    }

    method Silence(dst: array<Sample>, sampleCount: nat)
      requires sampleCount <= dst.Length
      modifies dst
      ensures forall i | 0 <= i < sampleCount :: dst[i] == 0
      ensures dst[sampleCount..] == old(dst[sampleCount..])
    {
      forall i | 0 <= i < sampleCount {
        dst[i] := 0;
      }
    }

    method ClearAccumulators(sampleCount: nat)
      requires sampleCount <= accum.Length
      modifies accum
      ensures forall i | 0 <= i < sampleCount :: accum[i] == 0
    {
      forall i | 0 <= i < sampleCount {
        accum[i] := 0;
      }
    }
  }
}
