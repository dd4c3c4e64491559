/** Ring capacities and the conversions between client frames and 48 kHz mix frames, in the 32- and 64-bit arithmetic
    of the source. */
module RateConversion {
  import opened MachineInts
  import opened BitMask

  const MIX_SAMPLE_RATE: u32 := 48000
  const MINIMUM_RING_FRAMES: u32 := 4096
  const TARGET_CALLBACK_FRAMES: u32 := 480
  const RING_DEPTH_MULTIPLIER: u32 := 8

  function Max(a: nat, b: nat): nat {
    if a >= b then a else b
  }

  /** `aligned` is the least doubling of `start` that is not below `value`. */
  ghost predicate LeastDoubling(aligned: nat, start: nat, value: nat) {
    && value <= aligned
    && (exists k: nat :: aligned == start * Pow2(k))
    && (forall k: nat :: value <= start * Pow2(k) ==> aligned <= start * Pow2(k))
  }

  /** Doublings below the `k`-th are below the value and doublings above it at least twice as large. */
  lemma DoublingsAround(start: nat, k: nat, value: nat)
    requires k > 0 ==> start * Pow2(k - 1) < value
    ensures forall j: nat :: j < k ==> start * Pow2(j) < value
    ensures forall j: nat :: j > k ==> start * Pow2(j) >= 2 * (start * Pow2(k))
  {
    forall j: nat | j < k ensures start * Pow2(j) < value {
      Pow2Grows(j, k - 1);
      MulMonotone(start, Pow2(j), Pow2(k - 1));
    }
    forall j: nat | j > k ensures start * Pow2(j) >= 2 * (start * Pow2(k)) {
      Pow2Grows(k + 1, j);
      MulMonotone(start, Pow2(k + 1), Pow2(j));
      assert start * (2 * Pow2(k)) == 2 * (start * Pow2(k));
    }
  }

  /** The doubling loop. It stops at the least doubling of the minimum that reaches the value; if that does not fit 32
      bits, the value itself comes back. */
  method AlignUpPowerOfTwo(value: u32, minimum: u32) returns (r: u32)
    ensures LeastDoubling(r, Max(minimum, 1), value) || (r == value && NoDoublingFits(Max(minimum, 1), value))
  {
    var start: u32 := Max(minimum, 1);
    var aligned: u32 := start;
    ghost var k := 0;
    while aligned < value && aligned <= UINT32_MAX / 2
      invariant aligned == start * Pow2(k)
      invariant k > 0 ==> start * Pow2(k - 1) < value
      decreases UINT32_MAX - aligned
    {
      Double(Pow2(k), start);
      aligned := aligned * 2;
      k := k + 1;
    }
    DoublingsAround(start, k, value);
    r := if aligned < value then value else aligned;
    if aligned < value {
      TooLarge(start, k, value);
    } else {
      Least(start, k, value);
    }
  }

  ghost predicate NoDoublingFits(start: nat, value: nat) {
    forall k: nat :: value <= start * Pow2(k) ==> UINT32_MAX < start * Pow2(k)
  }

  lemma Least(start: nat, k: nat, value: nat)
    requires start >= 1 && value <= start * Pow2(k) && (k > 0 ==> start * Pow2(k - 1) < value)
    ensures LeastDoubling(start * Pow2(k), start, value)
  {
    DoublingsAround(start, k, value);
  }

  lemma TooLarge(start: nat, k: nat, value: nat)
    requires start >= 1 && UINT32_MAX / 2 < start * Pow2(k) < value && (k > 0 ==> start * Pow2(k - 1) < value)
    ensures NoDoublingFits(start, value)
  {
    DoublingsAround(start, k, value);
  }

  /** The frames a ring is asked to hold: eight callbacks, in 32-bit arithmetic. */
  function RequestedFrames(callbackFrames: u32): u32 {
    (if callbackFrames != 0 then callbackFrames else TARGET_CALLBACK_FRAMES) * RING_DEPTH_MULTIPLIER % 0x1_0000_0000
  }

  /** A power of two that holds the request and the minimum, and the least such. */
  ghost predicate LeastPow2(capacity: nat, requested: nat) {
    && IsPow2(capacity) && requested <= capacity && 4096 <= capacity
    && forall k: nat :: requested <= Pow2(k) && 4096 <= Pow2(k) ==> capacity <= Pow2(k)
  }

  lemma Doubled(k: nat)
    ensures MINIMUM_RING_FRAMES * Pow2(k) == Pow2(12 + k) >= MINIMUM_RING_FRAMES
  {
    Powers();
    Pow2Sum(12, k);
    Pow2Grows(12, 12 + k);
  }

  lemma DoublingIsPow2(capacity: nat, requested: nat)
    requires LeastDoubling(capacity, MINIMUM_RING_FRAMES, requested)
    ensures LeastPow2(capacity, requested)
  {
    var k: nat :| capacity == MINIMUM_RING_FRAMES * Pow2(k);
    Doubled(k);
    forall j: nat | requested <= Pow2(j) && MINIMUM_RING_FRAMES <= Pow2(j) ensures capacity <= Pow2(j) {
      AtLeastTwelve(j);
      Doubled(j - 12);
    }
  }

  lemma AtLeastTwelve(j: nat)
    requires MINIMUM_RING_FRAMES <= Pow2(j)
    ensures j >= 12
  {
    Powers();
    if j < 12 {
      Pow2Grows(j + 1, 12);
    }
  }

  lemma SmallRequestFits(requested: u32)
    requires requested <= 0x8000_0000
    ensures !NoDoublingFits(MINIMUM_RING_FRAMES, requested)
  {
    Powers();
    assert MINIMUM_RING_FRAMES * Pow2(19) == 0x8000_0000;
  }

  lemma NoPow2Above(capacity: u32)
    requires 0x8000_0000 < capacity
    ensures !IsPow2(capacity)
  {
    Powers();
    forall j: nat ensures Pow2(j) != capacity {
      if j <= 31 {
        Pow2Grows(j, 31);
      } else {
        Pow2Grows(32, j);
      }
    }
  }

  lemma LargeRequestOverflows(capacity: u32, requested: u32)
    requires 0x8000_0000 < requested
    ensures !LeastDoubling(capacity, MINIMUM_RING_FRAMES, requested)
  {
    if LeastDoubling(capacity, MINIMUM_RING_FRAMES, requested) {
      DoublingIsPow2(capacity, requested);
      NoPow2Above(capacity);
    }
  }

  /** The ring capacity is a power of two, as the ring's index mask needs, exactly if the request does not exceed half
      the 32-bit range; then it is the least one that holds both the request and the minimum. */
  method ComputeRingCapacityFrames(callbackFrames: u32) returns (capacity: u32)
    ensures IsPow2(capacity) <==> RequestedFrames(callbackFrames) <= 0x8000_0000
    ensures IsPow2(capacity) ==> LeastPow2(capacity, RequestedFrames(callbackFrames))
    ensures !IsPow2(capacity) ==> capacity == RequestedFrames(callbackFrames)
  {
    var normalized: u32 := if callbackFrames != 0 then callbackFrames else TARGET_CALLBACK_FRAMES;
    var requested: u32 := normalized * RING_DEPTH_MULTIPLIER % 0x1_0000_0000;
    capacity := AlignUpPowerOfTwo(requested, MINIMUM_RING_FRAMES);
    if requested <= 0x8000_0000 {
      SmallRequestFits(requested);
      DoublingIsPow2(capacity, requested);
    } else {
      LargeRequestOverflows(capacity, requested);
      NoPow2Above(capacity);
    }
  }

  /** For every callback size up to 2^28 frames the request is exactly eight callbacks and its ring is a power of
      two; an unknown size counts as 480 frames. */
  lemma CallbackSizesThatFit(callbackFrames: u32)
    ensures callbackFrames == 0 ==> RequestedFrames(callbackFrames) == 3840
    ensures 1 <= callbackFrames <= 0x1000_0000 ==>
              RequestedFrames(callbackFrames) == 8 * callbackFrames <= 0x8000_0000
    ensures 0x1000_0000 < callbackFrames < 0x2000_0000 ==> 0x8000_0000 < RequestedFrames(callbackFrames)
  {
  }

  lemma Powers()
    ensures Pow2(12) == 4096 && Pow2(19) == 0x8_0000 && Pow2(31) == 0x8000_0000 && Pow2(32) == 0x1_0000_0000
  {
    Pow2Sum(8, 4);
    Pow2Sum(12, 7);
    Pow2Sum(19, 12);
  }

  // ---- Rates ----

  /** The exact conversions, before any truncation to 32 bits. */
  function FloorExact(mixFrames: u32, clientRate: u32): nat {
    mixFrames * clientRate / MIX_SAMPLE_RATE
  }

  function CeilExact(clientFrames: u32, clientRate: u32): nat
    requires clientRate != 0
  {
    (clientFrames * MIX_SAMPLE_RATE + clientRate - 1) / clientRate
  }

  lemma ProductFits(a: u32, b: u32)
    ensures 0 <= a * b + 0xFFFF_FFFF < 0x1_0000_0000_0000_0000
  {
    MulMonotone(a, b, 0xFFFF_FFFF);
  }

  function MixFramesToClientFramesFloor(mixFrames: u32, clientRate: u32): u32 {
    if mixFrames == 0 || clientRate == 0 then 0
    else if clientRate == MIX_SAMPLE_RATE then mixFrames
    else
      ProductFits(mixFrames, clientRate);
      var product: u64 := mixFrames * clientRate;
      product / MIX_SAMPLE_RATE % 0x1_0000_0000
  }

  function MixFramesToClientFramesCeil(mixFrames: u32, clientRate: u32): u32 {
    if mixFrames == 0 || clientRate == 0 then 0
    else if clientRate == MIX_SAMPLE_RATE then mixFrames
    else
      ProductFits(mixFrames, clientRate);
      var product: u64 := mixFrames * clientRate + MIX_SAMPLE_RATE - 1;
      product / MIX_SAMPLE_RATE % 0x1_0000_0000
  }

  function ClientFramesToMixFramesCeil(clientFrames: u32, clientRate: u32): u32 {
    if clientFrames == 0 || clientRate == 0 then 0
    else if clientRate == MIX_SAMPLE_RATE then clientFrames
    else
      ProductFits(clientFrames, MIX_SAMPLE_RATE);
      var product: u64 := clientFrames * MIX_SAMPLE_RATE + clientRate - 1;
      var quotient: nat := product / clientRate;
      quotient % 0x1_0000_0000
  }

  /** `ceil(a / b) <= m` if and only if `a <= m * b`. */
  lemma CeilAtMost(a: nat, b: nat, m: nat)
    requires b > 0
    ensures (a + b - 1) / b <= m <==> a <= m * b
  {
    var q, r := (a + b - 1) / b, (a + b - 1) % b;
    DivisionEquation(a + b - 1, b);
    if q <= m {
      MulMonotone(b, q, m);
    } else {
      MulMonotone(b, m + 1, q);
      assert b * (m + 1) == b * m + b;
    }
  }

  /** `c <= floor(x / d)` if and only if `c * d <= x`. */
  lemma FloorAtLeast(x: nat, d: nat, c: nat)
    requires d > 0
    ensures c <= x / d <==> c * d <= x
  {
    DivisionEquation(x, d);
    if c <= x / d {
      MulMonotone(d, c, x / d);
    } else {
      MulMonotone(d, x / d + 1, c);
      assert d * (x / d + 1) == d * (x / d) + d;
    }
  }

  lemma ExactGalois(clientFrames: u32, mixFrames: u32, clientRate: u32)
    requires clientRate != 0
    ensures CeilExact(clientFrames, clientRate) <= mixFrames <==> clientFrames <= FloorExact(mixFrames, clientRate)
  {
    CeilAtMost(clientFrames * MIX_SAMPLE_RATE, clientRate, mixFrames);
    FloorAtLeast(mixFrames * clientRate, MIX_SAMPLE_RATE, clientFrames);
  }

  /** The special cases of the conversions agree with the exact formulas, so each result is the exact one cut to 32
      bits. */
  lemma ConversionsAreExact(frames: u32, clientRate: u32)
    requires clientRate != 0
    ensures MixFramesToClientFramesFloor(frames, clientRate) == FloorExact(frames, clientRate) % 0x1_0000_0000
    ensures ClientFramesToMixFramesCeil(frames, clientRate) == CeilExact(frames, clientRate) % 0x1_0000_0000
  {
    if frames == 0 {
      RemainderUnique(clientRate - 1, clientRate, 0, clientRate - 1);
    }
  }

  /** Client-to-mix ceiling and mix-to-client floor are a Galois connection wherever both results fit 32 bits: asking
      for enough mix frames is the same as having enough client frames. */
  lemma RatesGalois(clientFrames: u32, mixFrames: u32, clientRate: u32)
    requires clientRate != 0
    requires CeilExact(clientFrames, clientRate) <= UINT32_MAX && FloorExact(mixFrames, clientRate) <= UINT32_MAX
    ensures ClientFramesToMixFramesCeil(clientFrames, clientRate) <= mixFrames <==>
            clientFrames <= MixFramesToClientFramesFloor(mixFrames, clientRate)
  {
    ExactGalois(clientFrames, mixFrames, clientRate);
    ConversionsAreExact(clientFrames, clientRate);
    ConversionsAreExact(mixFrames, clientRate);
  }

  /** So converting to mix frames and back never loses a client frame, and converting to client frames and back never
      asks for more mix frames than there were. */
  lemma RoundTrips(clientFrames: u32, mixFrames: u32, clientRate: u32)
    requires clientRate != 0
    requires CeilExact(clientFrames, clientRate) <= UINT32_MAX && FloorExact(mixFrames, clientRate) <= UINT32_MAX
    ensures FloorExact(ClientFramesToMixFramesCeil(clientFrames, clientRate), clientRate) <= UINT32_MAX ==>
              clientFrames <=
                MixFramesToClientFramesFloor(ClientFramesToMixFramesCeil(clientFrames, clientRate), clientRate)
    ensures ClientFramesToMixFramesCeil(MixFramesToClientFramesFloor(mixFrames, clientRate), clientRate) <= mixFrames
  {
    var there := ClientFramesToMixFramesCeil(clientFrames, clientRate);
    if FloorExact(there, clientRate) <= UINT32_MAX {
      RatesGalois(clientFrames, there, clientRate);
    }
    var back := MixFramesToClientFramesFloor(mixFrames, clientRate);
    ConversionsAreExact(mixFrames, clientRate);
    ExactGalois(back, mixFrames, clientRate);
    RatesGalois(back, mixFrames, clientRate);
  }

  /** The rounded-down client frames are the most that fit the duration of the mix frames, and the rounded-up mix frames
      the fewest that cover the duration of the client frames, at 48000 mix frames to a second. */
  lemma RatesAre(clientFrames: u32, mixFrames: u32, clientRate: u32)
    requires clientRate != 0
    ensures FloorExact(mixFrames, clientRate) <= UINT32_MAX ==>
              (clientFrames <= MixFramesToClientFramesFloor(mixFrames, clientRate) <==>
               clientFrames * 48000 <= mixFrames * clientRate)
    ensures CeilExact(clientFrames, clientRate) <= UINT32_MAX ==>
              (ClientFramesToMixFramesCeil(clientFrames, clientRate) <= mixFrames <==>
               clientFrames * 48000 <= mixFrames * clientRate)
  {
    ConversionsAreExact(clientFrames, clientRate);
    ConversionsAreExact(mixFrames, clientRate);
    FloorAtLeast(mixFrames * clientRate, MIX_SAMPLE_RATE, clientFrames);
    CeilAtMost(clientFrames * MIX_SAMPLE_RATE, clientRate, mixFrames);
  }

  function MixCeilExact(mixFrames: u32, clientRate: u32): nat {
    (mixFrames * clientRate + MIX_SAMPLE_RATE - 1) / MIX_SAMPLE_RATE
  }

  /** Here, too, the special cases agree with the exact formula. */
  lemma MixCeilIsExact(mixFrames: u32, clientRate: u32)
    requires clientRate != 0
    ensures MixFramesToClientFramesCeil(mixFrames, clientRate) == MixCeilExact(mixFrames, clientRate) % 0x1_0000_0000
  {
    if clientRate == MIX_SAMPLE_RATE {
      RemainderUnique(mixFrames * clientRate + MIX_SAMPLE_RATE - 1, MIX_SAMPLE_RATE, mixFrames, MIX_SAMPLE_RATE - 1);
    } else if mixFrames == 0 {
      RemainderUnique(MIX_SAMPLE_RATE - 1, MIX_SAMPLE_RATE, 0, MIX_SAMPLE_RATE - 1);
    }
  }

  /** The rounded-up client frames are the least number whose duration covers the mix frames. */
  lemma MixCeilCovers(clientFrames: u32, mixFrames: u32, clientRate: u32)
    requires clientRate != 0 && MixCeilExact(mixFrames, clientRate) <= UINT32_MAX
    ensures MixFramesToClientFramesCeil(mixFrames, clientRate) <= clientFrames <==>
            mixFrames * clientRate <= clientFrames * 48000
  {
    MixCeilIsExact(mixFrames, clientRate);
    CeilAtMost(mixFrames * clientRate, MIX_SAMPLE_RATE, clientFrames);
  }
}
