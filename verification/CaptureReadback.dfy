/** A captured replay from its layout to its verdict: every input has its own place in the readback buffer, and is
    hashed there. */
module CaptureReadback {
  import opened MachineInts
  import opened StagingLayout
  import opened StagingSlots
  import opened CaptureImages
  import opened CaptureStaging
  import opened CaptureVerification
  import opened Fnv

  /** Where the inputs are read back to. */
  datatype Inputs = Inputs(mips: seq<Region>, others: Others) {
    function All(): seq<Region> {
      mips + others.List()
    }
  }

  /** What the inputs should hash to. */
  datatype Expectations =
    Expectations(images: seq<seq<u32>>, vertex: u32, index: u32, uniforms: seq<u32>, upload: u32) {
    ghost predicate For(r: Replay) {
      && |images| == IMAGE_CAPACITY && (forall row | row in images :: |row| == MAX_MIPS)
      && |uniforms| == |r.uboSizes|
    }
  }

  ghost function MipHashes(images: seq<seq<u32>>, slots: seq<Slot>): (hashes: seq<u32>)
    ensures |hashes| == |slots|
    ensures forall k | 0 <= k < |slots| :: hashes[k] == HashAt(images, slots[k])
  {
    seq(|slots|, k requires 0 <= k < |slots| => HashAt(images, slots[k]))
  }

  ghost function HashAt(images: seq<seq<u32>>, s: Slot): u32 {
    if s.image < |images| && s.mip < |images[s.image]| then images[s.image][s.mip] else 0
  }

  /** The input of this size, at the offset on record, lies in the buffer. */
  ghost predicate At(offset: u64, bytes: nat, region: Region, size: nat) {
    region == Region(offset, bytes, 4) && region.End() <= size
  }

  ghost predicate MipsAt(r: Replay, slots: seq<Slot>, mips: seq<Region>, size: nat)
    reads r.uploadOffsets
  {
    && |mips| == |slots|
    && forall k | 0 <= k < |slots| ::
         && slots[k].image < r.uploadOffsets.Length0 && slots[k].mip < r.uploadOffsets.Length1
         && At(r.uploadOffsets[slots[k].image, slots[k].mip], slots[k].bytes, mips[k], size)
  }

  ghost predicate UniformsAt(r: Replay, uniforms: seq<Region>, size: nat)
    reads r.uboOffsets
  {
    && |uniforms| == |r.uboSizes| <= r.uboOffsets.Length
    && forall k | 0 <= k < |uniforms| :: At(r.uboOffsets[k], r.uboSizes[k], uniforms[k], size)
  }

  /** The offsets on record are those of inputs that lie in a buffer. */
  ghost predicate Placed(r: Replay, inputs: Inputs, size: nat)
    reads r, r.uploadOffsets, r.uboOffsets
  {
    && MipsAt(r, AllSlots(r.levels), inputs.mips, size)
    && At(r.inputVertexOffset, r.vertexBytes, inputs.others.vertex, size)
    && At(r.inputIndexOffset, r.indexBytes, inputs.others.index, size)
    && UniformsAt(r, inputs.others.uniforms, size)
    && At(r.inputUploadOffset, r.targetUploadOffset, inputs.others.upload, size)
  }

  ghost function Expected(r: Replay, e: Expectations): seq<u32> {
    MipHashes(e.images, AllSlots(r.levels)) + [e.vertex, e.index] + e.uniforms + [e.upload]
  }

  /** The upload buffer and then the readback buffer. If the readback buffer ends within 64 bits, as it does for small
      images, every input has its own place in it. */
  method LayOut(r: Replay) returns (uploadSize: u64, size: u64, ghost inputs: Inputs, ghost exact: nat)
    requires r.Fits()
    modifies r, r.uploadOffsets, r.uboOffsets
    ensures size == exact % WORD
    ensures exact < WORD ==> Placed(r, inputs, size) && SafeRegions(inputs.All(), size)
    ensures Small(r.images) ==> exact < WORD
  {
    ghost var mips, target, depth, others;
    uploadSize, mips, target, depth := r.LayOutUploads();
    BeforeTarget(mips, target, depth);
    size, others, exact := r.LayOutReadback(mips + [Region(target, 0, 8)]);
    inputs := Inputs(mips, others);
    LayoutHolds(r, inputs, target, depth, size, exact);
  }

  lemma LayoutHolds(r: Replay, inputs: Inputs, target: nat, depth: nat, size: u64, exact: nat)
    requires r.Fits() && r.targetUploadOffset == target % WORD && Chained(inputs.mips + Outputs(target, depth))
    requires r.Recorded(AllSlots(r.levels), inputs.mips) && r.OthersRecorded(inputs.others)
    requires Chained(inputs.mips + [Region(target, 0, 8)] + inputs.others.List())
    requires size == exact % WORD && LeastMultiple(exact, inputs.others.upload.End(), 4)
    ensures exact < WORD ==> Placed(r, inputs, size) && SafeRegions(inputs.All(), size)
    ensures Small(r.images) ==> exact < WORD
  {
    if exact < WORD {
      LayoutIsSafe(r, inputs, target, size);
    }
    if Small(r.images) {
      r.SmallReadbackFits(inputs.mips, target, depth, inputs.others);
      LeastIsNear(exact, inputs.others.upload.End(), 4);
    }
  }

  lemma LayoutIsSafe(r: Replay, inputs: Inputs, target: nat, size: u64)
    requires inputs.others.upload.End() <= size && r.Recorded(AllSlots(r.levels), inputs.mips)
    requires r.OthersRecorded(inputs.others) && Chained(inputs.mips + [Region(target, 0, 8)] + inputs.others.List())
    ensures Placed(r, inputs, size) && SafeRegions(inputs.All(), size)
  {
    SkippingIsSafe(inputs.mips, Region(target, 0, 8), inputs.others.List(), size);
    forall k | 0 <= k < |inputs.All()| ensures inputs.All()[k].End() <= size {
      assert inputs.All()[k] in inputs.All();
    }
    PartsAreInside(inputs, size);
    InputsArePlaced(r, inputs, size);
  }

  /** Every input ends inside the buffer. */
  ghost predicate Inside(inputs: Inputs, size: nat) {
    && (forall k | 0 <= k < |inputs.mips| :: inputs.mips[k].End() <= size)
    && (forall k | 0 <= k < |inputs.others.uniforms| :: inputs.others.uniforms[k].End() <= size)
    && inputs.others.vertex.End() <= size && inputs.others.index.End() <= size && inputs.others.upload.End() <= size
  }

  lemma PartsAreInside(inputs: Inputs, size: nat)
    requires forall k | 0 <= k < |inputs.All()| :: inputs.All()[k].End() <= size
    ensures Inside(inputs, size)
  {
    var all, n, m := inputs.All(), |inputs.mips|, |inputs.others.uniforms|;
    assert forall k | 0 <= k < n :: all[k] == inputs.mips[k];
    assert all[n] == inputs.others.vertex && all[n + 1] == inputs.others.index;
    assert all[n + m + 2] == inputs.others.upload;
    forall k | 0 <= k < m ensures inputs.others.uniforms[k].End() <= size {
      assert all[n + (k + 2)] == inputs.others.List()[k + 2];
    }
  }

  /** Below 2^64 an offset on record is exact. */
  lemma StandsAt(offset: u64, bytes: nat, region: Region, size: u64)
    requires Stands(offset, bytes, region) && region.End() <= size
    ensures At(offset, bytes, region, size)
  {
  }

  lemma MipsPlaced(r: Replay, slots: seq<Slot>, mips: seq<Region>, size: u64)
    requires r.Recorded(slots, mips) && forall k | 0 <= k < |mips| :: mips[k].End() <= size
    ensures MipsAt(r, slots, mips, size)
  {
    forall k | 0 <= k < |slots|
      ensures At(r.uploadOffsets[slots[k].image, slots[k].mip], slots[k].bytes, mips[k], size)
    {
      StandsAt(r.uploadOffsets[slots[k].image, slots[k].mip], slots[k].bytes, mips[k], size);
    }
  }

  lemma UniformsPlaced(r: Replay, uniforms: seq<Region>, size: u64)
    requires |uniforms| == |r.uboSizes| && r.UniformsRecorded(uniforms)
    requires forall k | 0 <= k < |uniforms| :: uniforms[k].End() <= size
    ensures UniformsAt(r, uniforms, size)
  {
    forall k | 0 <= k < |uniforms| ensures At(r.uboOffsets[k], r.uboSizes[k], uniforms[k], size) {
      StandsAt(r.uboOffsets[k], r.uboSizes[k], uniforms[k], size);
    }
  }

  lemma InputsArePlaced(r: Replay, inputs: Inputs, size: u64)
    requires r.Recorded(AllSlots(r.levels), inputs.mips) && r.OthersRecorded(inputs.others)
    requires Inside(inputs, size)
    ensures Placed(r, inputs, size)
  {
    var o := inputs.others;
    MipsPlaced(r, AllSlots(r.levels), inputs.mips, size);
    StandsAt(r.inputVertexOffset, r.vertexBytes, o.vertex, size);
    StandsAt(r.inputIndexOffset, r.indexBytes, o.index, size);
    StandsAt(r.inputUploadOffset, r.targetUploadOffset, o.upload, size);
    UniformsPlaced(r, o.uniforms, size);
  }

  lemma BeforeTarget(mips: seq<Region>, target: nat, depth: nat)
    requires Chained(mips + Outputs(target, depth))
    ensures Chained(mips + [Region(target, 0, 8)])
  {
    assert mips + Outputs(target, depth) == mips + [Outputs(target, depth)[0]] + [Outputs(target, depth)[1]];
    ChainedSnoc(mips + [Outputs(target, depth)[0]], Outputs(target, depth)[1]);
    ChainedSnoc(mips, Outputs(target, depth)[0]);
    ChainedSnoc(mips, Region(target, 0, 8));
  }

  /** A chain without one of its regions is as safe. */
  lemma SkippingIsSafe(before: seq<Region>, skipped: Region, behind: seq<Region>, size: nat)
    requires Chained(before + [skipped] + behind) && behind != [] && behind[|behind| - 1].End() <= size
    ensures SafeRegions(before + behind, size)
  {
    var chain, all, n := before + [skipped] + behind, before + behind, |before|;
    ChainedIsSafe(chain);
    forall k | 0 <= k < |all| ensures all[k] == chain[if k < n then k else k + 1] {
    }
    forall j, k | 0 <= j < k < |all| ensures Disjoint(all[j], all[k]) {
      assert Disjoint(chain[if j < n then j else j + 1], chain[if k < n then k else k + 1]);
    }
  }

  /** A level that is in the buffer. */
  lemma MipInBuffer(r: Replay, table: seq<seq<nat>>, mips: seq<Region>, size: nat, i: nat, mip: nat)
    requires MipsAt(r, AllSlots(table), mips, size) && i < |table| && mip < |table[i]|
    ensures i < r.uploadOffsets.Length0 && mip < r.uploadOffsets.Length1
    ensures r.uploadOffsets[i, mip] + table[i][mip] <= size
  {
    SlotAt(table, i, mip);
    var k := |UpTo(table, i, mip)|;
    assert At(r.uploadOffsets[i, mip], table[i][mip], mips[k], size);
  }

  /** The levels that have been checked, and what they should hash to. */
  ghost predicate MipsChecked(r: Replay, checks: InputChecks, memory: seq<u8>, e: Expectations, slots: seq<Slot>,
                              done: seq<Region>)
    reads checks, r.uploadOffsets
  {
    MipsAt(r, slots, done, |memory|) && checks.Counted(memory, done, MipHashes(e.images, slots))
  }

  method VerifyMip(r: Replay, checks: InputChecks, mapped: array<u8>, e: Expectations, i: nat, mip: nat, bytes: nat,
                   ghost table: seq<seq<nat>>, ghost done: seq<Region>)
    returns (ghost more: seq<Region>)
    requires i < |table| && mip < |table[i]| && table[i][mip] == bytes
    requires i < r.uploadOffsets.Length0 && mip < r.uploadOffsets.Length1 && i < |e.images| && mip < |e.images[i]|
    requires r.uploadOffsets[i, mip] + bytes <= mapped.Length
    requires MipsChecked(r, checks, mapped[..], e, UpTo(table, i, mip), done)
    modifies checks
    ensures MipsChecked(r, checks, mapped[..], e, UpTo(table, i, mip + 1), more)
  {
    var at, hash := r.uploadOffsets[i, mip], e.images[i][mip];
    ghost var region := Region(at, bytes, 4);
    OneMoreMip(r, e.images, UpTo(table, i, mip), Slot(i, mip, bytes), done, mapped.Length);
    checks.Check(mapped, at, bytes, hash, region, done, MipHashes(e.images, UpTo(table, i, mip)));
    more := done + [region];
  }

  lemma OneMoreMip(r: Replay, images: seq<seq<u32>>, slots: seq<Slot>, s: Slot, done: seq<Region>, size: nat)
    requires s.image < r.uploadOffsets.Length0 && s.mip < r.uploadOffsets.Length1 && MipsAt(r, slots, done, size)
    requires r.uploadOffsets[s.image, s.mip] + s.bytes <= size
    ensures MipsAt(r, slots + [s], done + [Region(r.uploadOffsets[s.image, s.mip], s.bytes, 4)], size)
    ensures MipHashes(images, slots + [s]) == MipHashes(images, slots) + [HashAt(images, s)]
  {
  }

  /** The levels of one image. */
  method VerifyImage(r: Replay, checks: InputChecks, mapped: array<u8>, e: Expectations, i: nat, image: ImageSpec,
                     ghost table: seq<seq<nat>>, ghost mips: seq<Region>, ghost done: seq<Region>)
    returns (ghost more: seq<Region>)
    requires i < |table| && |table[i]| == image.mips && mapped.Length < WORD
    requires IsRow(image, table[i])
    requires i < |e.images| && image.mips <= |e.images[i]|
    requires MipsAt(r, AllSlots(table), mips, mapped.Length)
    requires MipsChecked(r, checks, mapped[..], e, UpTo(table, i, 0), done)
    modifies checks
    ensures MipsChecked(r, checks, mapped[..], e, UpTo(table, i + 1, 0), more)
  {
    more := done;
    var mip := 0;
    while mip < image.mips
      invariant 0 <= mip <= image.mips
      invariant MipsChecked(r, checks, mapped[..], e, UpTo(table, i, mip), more)
    {
      MipInBuffer(r, table, mips, mapped.Length, i, mip);
      more := VerifyNext(r, checks, mapped, e, i, image, mip, table, more);
      mip := mip + 1;
    }
  }

  method VerifyNext(r: Replay, checks: InputChecks, mapped: array<u8>, e: Expectations, i: nat, image: ImageSpec,
                    mip: nat, ghost table: seq<seq<nat>>, ghost done: seq<Region>)
    returns (ghost more: seq<Region>)
    requires i < |table| && mip < |table[i]| && IsRow(image, table[i])
    requires i < r.uploadOffsets.Length0 && mip < r.uploadOffsets.Length1 && i < |e.images| && mip < |e.images[i]|
    requires r.uploadOffsets[i, mip] + table[i][mip] <= mapped.Length < WORD
    requires MipsChecked(r, checks, mapped[..], e, UpTo(table, i, mip), done)
    modifies checks
    ensures MipsChecked(r, checks, mapped[..], e, UpTo(table, i, mip + 1), more)
  {
    var bytes := r.MipSize(image, mip);
    more := VerifyMip(r, checks, mapped, e, i, mip, bytes, table, done);
  }

  method VerifyUnlessAliased(r: Replay, checks: InputChecks, mapped: array<u8>, e: Expectations, i: nat,
                             ghost mips: seq<Region>,
                             ghost done: seq<Region>)
    returns (ghost more: seq<Region>)
    requires r.Fits() && e.For(r) && mapped.Length < WORD && i < |r.images|
    requires MipsAt(r, AllSlots(r.levels), mips, mapped.Length)
    requires MipsChecked(r, checks, mapped[..], e, UpTo(r.levels, i, 0), done)
    modifies checks
    ensures MipsChecked(r, checks, mapped[..], e, UpTo(r.levels, i + 1, 0), more)
  {
    more := done;
    var alias := CaptureAliasIndex(r.images, i);
    RowOf(r.images, i);
    if alias < 0 {
      assert e.images[i] in e.images;
      more := VerifyImage(r, checks, mapped, e, i, r.images[i], r.levels, mips, done);
    }
  }

  /** One level after another, image by image, unless the image is an alias. */
  method WalkImages(r: Replay, checks: InputChecks, mapped: array<u8>, e: Expectations, ghost mips: seq<Region>)
    returns (ghost done: seq<Region>)
    requires r.Fits() && e.For(r) && mapped.Length < WORD && MipsAt(r, AllSlots(r.levels), mips, mapped.Length)
    requires MipsChecked(r, checks, mapped[..], e, [], [])
    modifies checks
    ensures MipsChecked(r, checks, mapped[..], e, AllSlots(r.levels), done)
  {
    done := [];
    var i := 0;
    while i < |r.images|
      invariant 0 <= i <= |r.images|
      invariant MipsChecked(r, checks, mapped[..], e, UpTo(r.levels, i, 0), done)
    {
      done := VerifyUnlessAliased(r, checks, mapped, e, i, mips, done);
      i := i + 1;
    }
  }

  /** What that walk has checked is the levels. */
  method VerifyImages(r: Replay, checks: InputChecks, mapped: array<u8>, e: Expectations, ghost mips: seq<Region>)
    requires r.Fits() && e.For(r) && mapped.Length < WORD && MipsAt(r, AllSlots(r.levels), mips, mapped.Length)
    requires checks.checkedCount == checks.mismatchCount == 0
    modifies checks
    ensures checks.Counted(mapped[..], mips, MipHashes(e.images, AllSlots(r.levels)))
  {
    ghost var done := WalkImages(r, checks, mapped, e, mips);
    SamePlaces(r, AllSlots(r.levels), done, mips, mapped.Length);
  }

  lemma SamePlaces(r: Replay, slots: seq<Slot>, a: seq<Region>, b: seq<Region>, size: nat)
    requires MipsAt(r, slots, a, size) && MipsAt(r, slots, b, size)
    ensures a == b
  {
    forall k | 0 <= k < |slots| ensures a[k] == b[k] {
      assert At(r.uploadOffsets[slots[k].image, slots[k].mip], slots[k].bytes, a[k], size);
    }
  }

  method VerifyUniforms(r: Replay, checks: InputChecks, mapped: array<u8>, e: Expectations, ghost uniforms: seq<Region>,
                        ghost done: seq<Region>, ghost expected: seq<u32>)
    requires UniformsAt(r, uniforms, mapped.Length) && |e.uniforms| == |r.uboSizes|
    requires checks.Counted(mapped[..], done, expected)
    modifies checks
    ensures checks.Counted(mapped[..], done + uniforms, expected + e.uniforms)
  {
    var k := 0;
    assert done + uniforms[..0] == done && expected + e.uniforms[..0] == expected;
    while k < |r.uboSizes|
      invariant 0 <= k <= |r.uboSizes|
      invariant checks.Counted(mapped[..], done + uniforms[..k], expected + e.uniforms[..k])
    {
      UpToNext(done, uniforms, k);
      UpToNext(expected, e.uniforms, k);
      checks.Check(mapped, r.uboOffsets[k], r.uboSizes[k], e.uniforms[k], uniforms[k], done + uniforms[..k],
                   expected + e.uniforms[..k]);
      k := k + 1;
    }
    assert uniforms[..k] == uniforms && e.uniforms[..k] == e.uniforms;
  }

  lemma UpToNext<T>(before: seq<T>, list: seq<T>, k: nat)
    requires k < |list|
    ensures before + list[..k] + [list[k]] == before + list[..k + 1]
  {
  }

  method VerifyBuffers(r: Replay, checks: InputChecks, mapped: array<u8>, e: Expectations, ghost o: Others,
                       ghost done: seq<Region>, ghost expected: seq<u32>)
    requires At(r.inputVertexOffset, r.vertexBytes, o.vertex, mapped.Length)
    requires At(r.inputIndexOffset, r.indexBytes, o.index, mapped.Length)
    requires checks.Counted(mapped[..], done, expected)
    modifies checks
    ensures checks.Counted(mapped[..], done + [o.vertex] + [o.index], expected + [e.vertex] + [e.index])
  {
    checks.Check(mapped, r.inputVertexOffset, r.vertexBytes, e.vertex, o.vertex, done, expected);
    checks.Check(mapped, r.inputIndexOffset, r.indexBytes, e.index, o.index, done + [o.vertex], expected + [e.vertex]);
  }

  /** Hashes every input where it was read back; succeeds exactly without a mismatch. */
  method VerifyInputs(r: Replay, checks: InputChecks, mapped: array<u8>, e: Expectations, ghost inputs: Inputs)
    returns (ok: bool)
    requires r.Fits() && Placed(r, inputs, mapped.Length) && mapped.Length < WORD && e.For(r)
    requires checks.checkedCount == checks.mismatchCount == 0
    modifies checks
    ensures checks.Counted(mapped[..], inputs.All(), Expected(r, e))
    ensures ok <==> Mismatches(mapped[..], inputs.All(), Expected(r, e)) == 0
  {
    VerifyImages(r, checks, mapped, e, inputs.mips);
    VerifyOthers(r, checks, mapped, e, inputs.others, inputs.mips, MipHashes(e.images, AllSlots(r.levels)));
    ok := checks.mismatchCount == 0;
  }

  method VerifyOthers(r: Replay, checks: InputChecks, mapped: array<u8>, e: Expectations, ghost o: Others,
                      ghost mips: seq<Region>, ghost hashes: seq<u32>)
    requires At(r.inputVertexOffset, r.vertexBytes, o.vertex, mapped.Length)
    requires At(r.inputIndexOffset, r.indexBytes, o.index, mapped.Length)
    requires UniformsAt(r, o.uniforms, mapped.Length) && |e.uniforms| == |r.uboSizes|
    requires At(r.inputUploadOffset, r.targetUploadOffset, o.upload, mapped.Length)
    requires checks.Counted(mapped[..], mips, hashes)
    modifies checks
    ensures checks.Counted(mapped[..], mips + o.List(), hashes + [e.vertex, e.index] + e.uniforms + [e.upload])
  {
    VerifyBuffers(r, checks, mapped, e, o, mips, hashes);
    ghost var done, expected := mips + [o.vertex] + [o.index], hashes + [e.vertex] + [e.index];
    VerifyUniforms(r, checks, mapped, e, o.uniforms, done, expected);
    done, expected := done + o.uniforms, expected + e.uniforms;
    checks.Check(mapped, r.inputUploadOffset, r.targetUploadOffset, e.upload, o.upload, done, expected);
    OneByOne(mips, o);
    HashesOneByOne(hashes, e);
  }

  lemma HashesOneByOne(hashes: seq<u32>, e: Expectations)
    ensures hashes + [e.vertex] + [e.index] + e.uniforms + [e.upload] ==
            hashes + [e.vertex, e.index] + e.uniforms + [e.upload]
  {
    assert hashes + [e.vertex] + [e.index] == hashes + [e.vertex, e.index];
  }

  /** Where each input is in the list of all of them. */
  lemma WhereInputsAre(inputs: Inputs)
    ensures var all, n, m, o := inputs.All(), |inputs.mips|, |inputs.others.uniforms|, inputs.others;
            && |all| == n + m + 3
            && (forall k | 0 <= k < n :: all[k] == inputs.mips[k])
            && all[n] == o.vertex && all[n + 1] == o.index && all[n + m + 2] == o.upload
            && (forall k | 0 <= k < m :: all[n + 2 + k] == o.uniforms[k])
  {
    forall k | 0 <= k < |inputs.others.uniforms|
      ensures inputs.All()[|inputs.mips| + 2 + k] == inputs.others.uniforms[k]
    {
      assert inputs.All()[|inputs.mips| + (k + 2)] == inputs.others.List()[k + 2];
    }
  }

  /** The copy of every input hashes to what was expected of that input: level by level, of the vertices, the indices,
      of every uniform buffer, and of the upload buffer. */
  ghost predicate EachAsExpected(r: Replay, e: Expectations, copied: seq<seq<u8>>)
    requires |copied| == |AllSlots(r.levels)| + |e.uniforms| + 3
  {
    var hashes, n, m := Hashes(copied), |AllSlots(r.levels)|, |e.uniforms|;
    && (forall k | 0 <= k < n :: hashes[k] == HashAt(e.images, AllSlots(r.levels)[k]))
    && hashes[n] == e.vertex && hashes[n + 1] == e.index
    && hashes[n + 2..n + 2 + m] == e.uniforms && hashes[n + 2 + m] == e.upload
  }

  /** A list is made of these parts exactly if each of them is in its place. */
  lemma InPlaces(list: seq<u32>, mips: seq<u32>, vertex: u32, index: u32, uniforms: seq<u32>, upload: u32)
    requires |list| == |mips| + |uniforms| + 3
    ensures var n, m := |mips|, |uniforms|;
            list == mips + [vertex, index] + uniforms + [upload] <==>
            && list[..n] == mips && list[n] == vertex && list[n + 1] == index
            && list[n + 2..n + 2 + m] == uniforms && list[n + 2 + m] == upload
  {
    var n, m, all := |mips|, |uniforms|, mips + [vertex, index] + uniforms + [upload];
    assert list == list[..n] + [list[n], list[n + 1]] + list[n + 2..n + 2 + m] + [list[n + 2 + m]];
    assert all[..n] == mips && all[n] == vertex && all[n + 1] == index;
    assert all[n + 2..n + 2 + m] == uniforms && all[n + 2 + m] == upload;
  }

  lemma ExpectedOfEach(r: Replay, e: Expectations, copied: seq<seq<u8>>)
    requires |copied| == |AllSlots(r.levels)| + |e.uniforms| + 3
    ensures |Expected(r, e)| == |copied|
    ensures Hashes(copied) == Expected(r, e) <==> EachAsExpected(r, e, copied)
  {
    var mips := MipHashes(e.images, AllSlots(r.levels));
    InPlaces(Hashes(copied), mips, e.vertex, e.index, e.uniforms, e.upload);
    assert Hashes(copied)[..|mips|] == mips <==> forall k | 0 <= k < |mips| :: Hashes(copied)[k] == mips[k];
  }

  lemma HashesMatch(copied: seq<seq<u8>>, expected: seq<u32>)
    requires |expected| == |copied|
    ensures Hashes(copied) == expected <==> forall k | 0 <= k < |copied| :: Hash(copied[k]) == expected[k]
  {
    if forall k | 0 <= k < |copied| :: Hash(copied[k]) == expected[k] {
      forall k | 0 <= k < |copied| ensures Hashes(copied)[k] == expected[k] {
      }
    }
  }

  /** Whatever the device copies into the places of a layout, `VerifyInputs` counts no mismatch exactly if the copy of
      every input hashes to what was expected of that input. */
  lemma ReplayVerifiesIff(r: Replay, inputs: Inputs, e: Expectations, memory: seq<u8>, copied: seq<seq<u8>>)
    requires r.Fits() && Placed(r, inputs, |memory|) && SafeRegions(inputs.All(), |memory|) && e.For(r)
    requires SizesMatch(inputs.All(), copied)
    ensures |Expected(r, e)| == |inputs.All()| == |inputs.mips| + |e.uniforms| + 3
    ensures Mismatches(WriteAll(memory, inputs.All(), copied), inputs.All(), Expected(r, e)) == 0 <==>
            EachAsExpected(r, e, copied)
  {
    WhereInputsAre(inputs);
    ExpectedOfEach(r, e, copied);
    HashesMatch(copied, Expected(r, e));
    VerifiesIff(memory, inputs.All(), copied, Expected(r, e));
  }
}
