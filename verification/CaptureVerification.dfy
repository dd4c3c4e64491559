/** Verification of a captured replay: hashing every input where it was read back, counting mismatches, and the
    checksum of the output. */
module CaptureVerification {
  import opened MachineInts
  import opened BitMask
  import opened Fnv
  import opened StagingLayout

  function Mismatch(memory: seq<u8>, r: Region, expected: u32): bool
    requires r.End() <= |memory|
  {
    Hash(Slice(memory, r)) != expected
  }

  function Mismatches(memory: seq<u8>, regions: seq<Region>, expected: seq<u32>): nat
    requires |expected| == |regions| && forall r | r in regions :: r.End() <= |memory|
  {
    if regions == [] then 0
    else
      var n := |regions| - 1;
      Mismatches(memory, regions[..n], expected[..n]) + if Mismatch(memory, regions[n], expected[n]) then 1 else 0
  }

  class InputChecks {
    var checkedCount: nat
    var mismatchCount: nat

    constructor ()
      ensures checkedCount == 0 && mismatchCount == 0
    {
      checkedCount, mismatchCount := 0, 0;
    }

    /** What has been checked so far, and how often it was wrong. */
    ghost predicate Counted(memory: seq<u8>, done: seq<Region>, expected: seq<u32>)
      reads this
    {
      && |expected| == |done| && (forall r | r in done :: r.End() <= |memory|)
      && checkedCount == |done| && mismatchCount == Mismatches(memory, done, expected)
    }

    /** Hashes one more input where it was read back, and records the result. */
    method Check(mapped: array<u8>, offset: nat, size: nat, hash: u32, ghost r: Region, ghost done: seq<Region>,
                 ghost expected: seq<u32>)
      requires Counted(mapped[..], done, expected)
      requires r.End() <= mapped.Length && offset == r.offset && size == r.size
      modifies this
      ensures Counted(mapped[..], done + [r], expected + [hash])
    {
      var actual := Fnv1a32(mapped, offset, size);
      assert mapped[offset..offset + size] == Slice(mapped[..], r);
      RecordInputHash(hash, actual);
      assert (done + [r])[..|done|] == done && (expected + [hash])[..|done|] == expected;
    }

    /** `record_input_hash`. */
    method RecordInputHash(expected: u32, actual: u32)
      modifies this
      ensures checkedCount == old(checkedCount) + 1
      ensures mismatchCount == old(mismatchCount) + if expected == actual then 0 else 1
    {
      checkedCount := checkedCount + 1;
      if expected != actual {
        mismatchCount := mismatchCount + 1;
      }
    }
  }

  lemma {:induction false} CountIsZero(memory: seq<u8>, regions: seq<Region>, expected: seq<u32>)
    requires |expected| == |regions| && forall r | r in regions :: r.End() <= |memory|
    ensures Mismatches(memory, regions, expected) == 0 <==>
            forall k | 0 <= k < |regions| :: !Mismatch(memory, regions[k], expected[k])
    decreases |regions|
  {
    if regions != [] {
      var n := |regions| - 1;
      CountIsZero(memory, regions[..n], expected[..n]);
      assert forall k | 0 <= k < n :: regions[..n][k] == regions[k] && expected[..n][k] == expected[k];
    }
  }

  lemma {:induction false} CountIsOne(memory: seq<u8>, regions: seq<Region>, expected: seq<u32>, at: nat)
    requires |expected| == |regions| && forall r | r in regions :: r.End() <= |memory|
    requires at < |regions|
    requires forall k | 0 <= k < |regions| :: Mismatch(memory, regions[k], expected[k]) <==> k == at
    ensures Mismatches(memory, regions, expected) == 1
    decreases |regions|
  {
    var n := |regions| - 1;
    assert forall k | 0 <= k < n :: regions[..n][k] == regions[k] && expected[..n][k] == expected[k];
    if at < n {
      CountIsOne(memory, regions[..n], expected[..n], at);
    } else {
      CountIsZero(memory, regions[..n], expected[..n]);
    }
  }

  // ---- What verification finds ----

  ghost predicate SafeRegions(regions: seq<Region>, size: nat) {
    && (forall r | r in regions :: r.End() <= size)
    && forall j, k | 0 <= j < k < |regions| :: Disjoint(regions[j], regions[k])
  }

  ghost function Hashes(data: seq<seq<u8>>): (hashes: seq<u32>)
    ensures |hashes| == |data|
    ensures forall k | 0 <= k < |data| :: hashes[k] == Hash(data[k])
  {
    seq(|data|, k requires 0 <= k < |data| => Hash(data[k]))
  }

  /** A region mismatches exactly when what was copied into it hashes differently from what was expected. */
  lemma MismatchIsItsOwn(memory: seq<u8>, regions: seq<Region>, copied: seq<seq<u8>>, expected: seq<u32>, k: nat)
    requires SafeRegions(regions, |memory|) && SizesMatch(regions, copied) && |expected| == |regions| && k < |regions|
    ensures Mismatch(WriteAll(memory, regions, copied), regions[k], expected[k]) <==> Hash(copied[k]) != expected[k]
  {
    EveryCopySurvives(memory, regions, copied, k);
  }

  /** Copies into disjoint regions verify exactly if each of them hashes to what was expected of it. */
  lemma VerifiesIff(memory: seq<u8>, regions: seq<Region>, copied: seq<seq<u8>>, expected: seq<u32>)
    requires SafeRegions(regions, |memory|) && SizesMatch(regions, copied) && |expected| == |regions|
    ensures Mismatches(WriteAll(memory, regions, copied), regions, expected) == 0 <==>
            forall k | 0 <= k < |regions| :: Hash(copied[k]) == expected[k]
  {
    var after := WriteAll(memory, regions, copied);
    forall k | 0 <= k < |regions| ensures Mismatch(after, regions[k], expected[k]) <==> Hash(copied[k]) != expected[k] {
      MismatchIsItsOwn(memory, regions, copied, expected, k);
    }
    CountIsZero(after, regions, expected);
  }

  /** So faithful copies verify. */
  lemma FaithfulCopiesVerify(memory: seq<u8>, regions: seq<Region>, data: seq<seq<u8>>)
    requires SafeRegions(regions, |memory|) && SizesMatch(regions, data)
    ensures Mismatches(WriteAll(memory, regions, data), regions, Hashes(data)) == 0
  {
    VerifiesIff(memory, regions, data, Hashes(data));
  }

  /** One input that comes back changed, within three adjacent bytes, is counted, once. */
  lemma OneChangeIsCountedOnce(memory: seq<u8>, regions: seq<Region>, data: seq<seq<u8>>, copied: seq<seq<u8>>,
                               j: nat, at: nat)
    requires SafeRegions(regions, |memory|) && SizesMatch(regions, data) && SizesMatch(regions, copied)
    requires j < |regions| && copied[j] != data[j] && DifferInWindow(copied[j], data[j], at)
    requires forall k | 0 <= k < |regions| && k != j :: copied[k] == data[k]
    ensures Mismatches(WriteAll(memory, regions, copied), regions, Hashes(data)) == 1
  {
    var after := WriteAll(memory, regions, copied);
    SmallChangesAreSeen(copied[j], data[j], at);
    forall k | 0 <= k < |regions| ensures Mismatch(after, regions[k], Hashes(data)[k]) <==> k == j {
      MismatchIsItsOwn(memory, regions, copied, Hashes(data), k);
    }
    CountIsOne(after, regions, Hashes(data), j);
  }

  // ---- The output ----

  function CountPixels(pixels: seq<u8>, counted: (u8, u8, u8, u8) -> bool): nat {
    var n := |pixels| - 4;
    if n < 0 then 0
    else
      var last := if counted(pixels[n], pixels[n + 1], pixels[n + 2], pixels[n + 3]) then 1 else 0;
      CountPixels(pixels[..n], counted) + last
  }

  /** Not the colour that the target is cleared to. */
  const CHANGED: (u8, u8, u8, u8) -> bool := (r, g, b, a) => r != 255 || g != 0 || b != 255 || a != 255
  const OPAQUE: (u8, u8, u8, u8) -> bool := (r, g, b, a) => a == 255

  /** The places of the pixels that are counted. */
  ghost function Places(pixels: seq<u8>, count: nat, counted: (u8, u8, u8, u8) -> bool): (places: set<nat>)
    requires 4 * count <= |pixels|
  {
    set i: nat | i < count && counted(pixels[4 * i], pixels[4 * i + 1], pixels[4 * i + 2], pixels[4 * i + 3])
  }

  lemma {:induction false} CountsPlaces(pixels: seq<u8>, count: nat, counted: (u8, u8, u8, u8) -> bool)
    requires |pixels| == 4 * count
    ensures CountPixels(pixels, counted) == |Places(pixels, count, counted)|
    decreases count
  {
    if count > 0 {
      var n := count - 1;
      CountsPlaces(pixels[..4 * n], n, counted);
      PlacesNext(pixels, n, counted);
    }
  }

  lemma PlacesNext(pixels: seq<u8>, n: nat, counted: (u8, u8, u8, u8) -> bool)
    requires |pixels| == 4 * (n + 1)
    ensures var here := counted(pixels[4 * n], pixels[4 * n + 1], pixels[4 * n + 2], pixels[4 * n + 3]);
            && Places(pixels, n + 1, counted) == Places(pixels[..4 * n], n, counted) + (if here then {n} else {})
            && n !in Places(pixels[..4 * n], n, counted)
  {
    var before := pixels[..4 * n];
    forall i: nat | i < n ensures i in Places(pixels, n + 1, counted) <==> i in Places(before, n, counted) {
      assert before[4 * i] == pixels[4 * i] && before[4 * i + 1] == pixels[4 * i + 1];
      assert before[4 * i + 2] == pixels[4 * i + 2] && before[4 * i + 3] == pixels[4 * i + 3];
    }
  }

  /** The counters count the pixels that are not the colour the target is cleared to, and those of full alpha. */
  lemma CountersMean(pixels: seq<u8>, count: nat, i: nat)
    requires |pixels| == 4 * count && i < count
    ensures CountPixels(pixels, CHANGED) == |Places(pixels, count, CHANGED)|
    ensures CountPixels(pixels, OPAQUE) == |Places(pixels, count, OPAQUE)|
    ensures i !in Places(pixels, count, CHANGED) <==> pixels[4 * i..4 * i + 4] == [255, 0, 255, 255]
    ensures i in Places(pixels, count, OPAQUE) <==> pixels[4 * i + 3] == 255
  {
    CountsPlaces(pixels, count, CHANGED);
    CountsPlaces(pixels, count, OPAQUE);
    var pixel := pixels[4 * i..4 * i + 4];
    assert pixel[0] == pixels[4 * i] && pixel[1] == pixels[4 * i + 1];
    assert pixel[2] == pixels[4 * i + 2] && pixel[3] == pixels[4 * i + 3];
    assert pixel == [pixel[0], pixel[1], pixel[2], pixel[3]];
  }

  /** The pass over the pixels of the output: the checksum, unrolled four ways, is the hash of the whole image. */
  method AnalyzeOutput(pixels: array<u8>, count: nat) returns (checksum: u32, changed: nat, opaquePixels: nat)
    requires 4 * count <= pixels.Length
    ensures checksum == Hash(pixels[..4 * count])
    ensures changed == CountPixels(pixels[..4 * count], CHANGED)
    ensures opaquePixels == CountPixels(pixels[..4 * count], OPAQUE)
  {
    checksum, changed, opaquePixels := OFFSET, 0, 0;
    var i := 0;
    while i < count
      invariant 0 <= i <= count
      invariant checksum == Hash(pixels[..4 * i])
      invariant changed == CountPixels(pixels[..4 * i], CHANGED)
      invariant opaquePixels == CountPixels(pixels[..4 * i], OPAQUE)
    {
      assert pixels[..4 * (i + 1)][..4 * i] == pixels[..4 * i];
      var p := 4 * i;
      if pixels[p] != 255 || pixels[p + 1] != 0 || pixels[p + 2] != 255 || pixels[p + 3] != 255 {
        changed := changed + 1;
      }
      if pixels[p + 3] == 255 {
        opaquePixels := opaquePixels + 1;
      }
      checksum := HashOn(checksum, pixels, p);
      checksum := HashOn(checksum, pixels, p + 1);
      checksum := HashOn(checksum, pixels, p + 2);
      checksum := HashOn(checksum, pixels, p + 3);
      i := i + 1;
    }
  }

  /** One line of the unrolled loop. */
  method HashOn(checksum: u32, pixels: array<u8>, p: nat) returns (next: u32)
    requires p < pixels.Length && checksum == Hash(pixels[..p])
    ensures next == Hash(pixels[..p + 1])
  {
    assert pixels[..p + 1][..p] == pixels[..p];
    XorWord(checksum, pixels[p]);
    next := Xor(checksum, pixels[p]);
    next := (next * PRIME) % MODULUS;
  }
}
