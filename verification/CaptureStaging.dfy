/** The staging buffers of a captured replay: where its image levels, its target and its depth image are uploaded
    from, and where its inputs are read back to for verification. Sizes and offsets are 64 bits wide and wrap around;
    the layout they stand for is exact. */
module CaptureStaging {
  import opened MachineInts
  import opened BitMask
  import opened StagingLayout
  import opened StagingSlots
  import opened CaptureImages

  const UBO_CAPACITY := 12
  const OUTPUT_BYTES: u64 := 640 * 360 * 8
  const DEPTH_BYTES: u64 := 640 * 360 * 4

  /** `r` is where `size` bytes at the offset on record belong, on a boundary of four bytes. */
  ghost predicate Stands(offset: u64, size: nat, r: Region) {
    offset == r.offset % WORD && r.size == size && r.alignment == 4
  }

  /** The target and the depth image, behind the levels. */
  function Outputs(target: nat, depth: nat): seq<Region> {
    [Region(target, OUTPUT_BYTES, 8), Region(depth, DEPTH_BYTES, 4)]
  }

  /** Levels of a layout, and what comes behind them. */
  lemma BeforeOutputs(regions: seq<Region>, target: nat, depth: nat, k: nat, l: nat)
    requires Chained(regions + Outputs(target, depth)) && k < |regions| && l < |regions|
    ensures regions[k].End() <= target && (regions[k].alignment == 4 ==> regions[k].offset % 4 == 0)
    ensures k != l ==> Disjoint(regions[k], regions[l])
    ensures target % 8 == 0 && target + OUTPUT_BYTES <= depth && depth % 4 == 0
  {
    var all, n := regions + Outputs(target, depth), |regions|;
    assert all[k] == regions[k] && all[l] == regions[l];
    assert all[n] == Outputs(target, depth)[0] && all[n + 1] == Outputs(target, depth)[1];
    InOrder(all, k, n);
    InOrder(all, n, n + 1);
    InOrder(all, if k < l then k else l, if k < l then l else k);
    InOrder(all, k, k);
  }

  /** What is read back besides the levels: vertices, indices, every uniform buffer and the upload buffer up to the
      target. */
  datatype Others = Others(vertex: Region, index: Region, uniforms: seq<Region>, upload: Region) {
    function List(): (list: seq<Region>)
      ensures |list| == |uniforms| + 3
      ensures list[0] == vertex && list[1] == index && list[|uniforms| + 2] == upload
      ensures forall k | 0 <= k < |uniforms| :: list[k + 2] == uniforms[k]
    {
      [vertex, index] + uniforms + [upload]
    }
  }

  lemma OneByOne(before: seq<Region>, o: Others)
    ensures before + [o.vertex, o.index] + o.uniforms + [o.upload] == before + o.List()
    ensures before + [o.vertex] + [o.index] + o.uniforms + [o.upload] == before + o.List()
  {
  }

  lemma Exact(x: nat)
    requires x < WORD
    ensures x % WORD == x
  {
  }

  lemma AddWraps(a: u64, b: u64, x: nat, y: nat)
    requires a == x % WORD && b == y % WORD
    ensures (a + b) % WORD == (x + y) % WORD
  {
  }

  /** No extent is over 65536 texels. */
  predicate Small(images: seq<ImageSpec>) {
    forall image | image in images :: image.width <= 0x1_0000 && image.height <= 0x1_0000
  }

  lemma {:induction false} SmallMips(width: nat, height: nat, texel: nat, mip: nat)
    requires width <= 0x1_0000 && height <= 0x1_0000 && texel <= 8
    ensures MipBytes(width, height, texel, mip) <= 0x8_0000_0000
    decreases mip
  {
    if mip == 0 {
      var w, h := if width == 0 then 1 else width, if height == 0 then 1 else height;
      TimesIs(w, h);
      TimesIs(w * h, texel);
      MulMonotone(w, h, 0x1_0000);
      MulMonotone(texel, w * h, 0x1_0000_0000);
    } else {
      SmallMips(width / 2, height / 2, texel, mip - 1);
    }
  }

  /** The levels of small images are at most 77, and small. */
  lemma SmallSlots(images: seq<ImageSpec>, s: Slot)
    requires Small(images) && |images| <= IMAGE_CAPACITY
    requires forall i | 0 <= i < |images| :: images[i].mips <= MAX_MIPS
    ensures |AllSlots(LevelTable(images))| <= IMAGE_CAPACITY * MAX_MIPS
    ensures s in AllSlots(LevelTable(images)) ==> s.bytes <= 0x8_0000_0000
  {
    var levels := LevelTable(images);
    forall i | 0 <= i < |levels| ensures |levels[i]| <= MAX_MIPS {
      RowOf(images, i);
    }
    SlotsFitRows(levels, |levels|, 0, MAX_MIPS);
    SlotsAreTheLevels(levels, |levels|, 0, s);
    if s in AllSlots(levels) {
      var image := images[s.image];
      assert image in images;
      RowOf(images, s.image);
      SmallMips(image.width, image.height, BytesPerTexel(image.format), s.mip);
    }
  }

  lemma FewRegionsFit(regions: seq<Region>, target: nat, depth: nat)
    requires |regions| <= 77 && forall r | r in regions :: r.size <= 0x8_0000_0000 && r.alignment == 4
    requires Chained(regions + Outputs(target, depth))
    ensures target <= depth && depth + DEPTH_BYTES <= 0x400_0000_0000
  {
    var all, n := regions + Outputs(target, depth), |regions|;
    EndWithin(all, 0x8_0000_0000);
    MulMonotone(0x8_0000_0007, |all|, 79);
    assert all[n] == Outputs(target, depth)[0] && all[n + 1] == Outputs(target, depth)[1];
    InOrder(all, n, n + 1);
  }

  lemma ManyRegionsFit(regions: seq<Region>, target: Region, others: seq<Region>)
    requires |regions| <= 77 && target.size == 0 && target.alignment == 8 && 1 <= |others| <= 15
    requires forall r | r in regions || r in others :: r.size <= 0x400_0000_0000 && r.alignment == 4
    requires Chained(regions + [target] + others)
    ensures others[|others| - 1].End() + 4 < WORD
  {
    EndWithin(regions + [target] + others, 0x400_0000_0000);
    MulMonotone(0x400_0000_0007, |regions + [target] + others|, 93);
  }

  class Replay {
    const images: seq<ImageSpec>
    const uboSizes: seq<u32>
    const vertexBytes: u32
    const indexBytes: u32
    const uploadOffsets: array2<u64>
    const uboOffsets: array<u64>
    var targetUploadOffset: u64
    var depthUploadOffset: u64
    var inputVertexOffset: u64
    var inputIndexOffset: u64
    var inputUploadOffset: u64

    ghost const levels: seq<seq<nat>>  // the sizes of the image levels

    /** The fixed capacities of the tables. */
    ghost predicate Fits() {
      && |images| <= IMAGE_CAPACITY && |uboSizes| <= UBO_CAPACITY
      && (forall i | 0 <= i < |images| :: images[i].mips <= MAX_MIPS)
      && uploadOffsets.Length0 == IMAGE_CAPACITY && uploadOffsets.Length1 == MAX_MIPS
      && uboOffsets.Length == UBO_CAPACITY
      && levels == LevelTable(images)
    }

    constructor (images: seq<ImageSpec>, uboSizes: seq<u32>, vertexBytes: u32, indexBytes: u32)
      requires |images| <= IMAGE_CAPACITY && |uboSizes| <= UBO_CAPACITY
      requires forall i | 0 <= i < |images| :: images[i].mips <= MAX_MIPS
      ensures Fits() && fresh(uploadOffsets) && fresh(uboOffsets)
      ensures this.images == images && this.uboSizes == uboSizes
      ensures this.vertexBytes == vertexBytes && this.indexBytes == indexBytes
    {
      this.images, this.uboSizes, this.vertexBytes, this.indexBytes := images, uboSizes, vertexBytes, indexBytes;
      uploadOffsets := new u64[IMAGE_CAPACITY, MAX_MIPS];
      uboOffsets := new u64[UBO_CAPACITY];
      targetUploadOffset, depthUploadOffset, inputVertexOffset, inputIndexOffset, inputUploadOffset := 0, 0, 0, 0, 0;
      levels := LevelTable(images);
    }

    /** The offsets on record are those of the regions, cut to 64 bits. */
    ghost predicate Recorded(slots: seq<Slot>, regions: seq<Region>)
      reads uploadOffsets
    {
      && |regions| == |slots|
      && forall k | 0 <= k < |slots| ::
           && slots[k].image < uploadOffsets.Length0 && slots[k].mip < uploadOffsets.Length1
           && Stands(uploadOffsets[slots[k].image, slots[k].mip], slots[k].bytes, regions[k])
    }

    /** The levels up to this one are laid out and on record; the next may begin at `end`. */
    ghost predicate LaidOut(slots: seq<Slot>, regions: seq<Region>, end: u64)
      reads uploadOffsets
    {
      Recorded(slots, regions) && Chained(regions) && end == EndOf(regions) % WORD
    }

    /** Puts the offset of one more level on record. */
    method Record(i: nat, mip: nat, at: u64, ghost table: seq<seq<nat>>, ghost regions: seq<Region>, ghost r: Region)
      requires i < |table| && mip < |table[i]|
      requires i < uploadOffsets.Length0 && mip < uploadOffsets.Length1
      requires Recorded(UpTo(table, i, mip), regions) && Stands(at, table[i][mip], r)
      modifies uploadOffsets
      ensures Recorded(UpTo(table, i, mip + 1), regions + [r])
    {
      ghost var slots := UpTo(table, i, mip);
      forall k | 0 <= k < |slots| ensures slots[k].image != i || slots[k].mip != mip {
        SlotsAreTheLevels(table, i, mip, slots[k]);
      }
      uploadOffsets[i, mip] := at;
    }

    /** The offset and the size of one more level. */
    method PlaceLevel(i: nat, mip: nat, bytes: u64, start: u64, ghost table: seq<seq<nat>>, ghost regions: seq<Region>)
      returns (end: u64, ghost more: seq<Region>)
      requires i < |table| && mip < |table[i]| && bytes == table[i][mip] % WORD
      requires i < uploadOffsets.Length0 && mip < uploadOffsets.Length1
      requires LaidOut(UpTo(table, i, mip), regions, start)
      modifies uploadOffsets
      ensures LaidOut(UpTo(table, i, mip + 1), more, end)
    {
      var at := Align4(start, EndOf(regions));
      end := (at + bytes) % WORD;
      ghost var r := Region(Least(EndOf(regions), 4), table[i][mip], 4);
      Record(i, mip, at, table, regions, r);
      more := regions + [r];
      ChainedSnoc(regions, r);
      AddWraps(at, bytes, r.offset, table[i][mip]);
    }

    /** The size of a level: the product of the extents fits 64 bits, and the texel size may carry it out of them. */
    method MipSize(image: ImageSpec, mip: nat) returns (bytes: u64)
      ensures bytes == LevelBytes(image, mip) % WORD
    {
      MipBytesAre(image.width, image.height, BytesPerTexel(image.format), mip);
      var width, height := Extent(image.width, mip), Extent(image.height, mip);
      bytes := ((width * height) * BytesPerTexel(image.format)) % WORD;
    }

    /** The levels of one image, behind those before it. */
    method PlaceImage(i: nat, image: ImageSpec, start: u64, ghost table: seq<seq<nat>>, ghost regions: seq<Region>)
      returns (end: u64, ghost more: seq<Region>)
      requires i < |table| && |table[i]| == image.mips
      requires IsRow(image, table[i])
      requires i < uploadOffsets.Length0 && image.mips <= uploadOffsets.Length1
      requires LaidOut(UpTo(table, i, 0), regions, start)
      modifies uploadOffsets
      ensures LaidOut(UpTo(table, i + 1, 0), more, end)
    {
      end, more := start, regions;
      var mip := 0;
      while mip < image.mips
        invariant 0 <= mip <= image.mips
        invariant LaidOut(UpTo(table, i, mip), more, end)
      {
        end, more := PlaceMip(i, image, mip, end, table, more);
        mip := mip + 1;
      }
    }

    method PlaceMip(i: nat, image: ImageSpec, mip: nat, start: u64, ghost table: seq<seq<nat>>,
                    ghost regions: seq<Region>)
      returns (end: u64, ghost more: seq<Region>)
      requires i < |table| && mip < |table[i]| && IsRow(image, table[i])
      requires i < uploadOffsets.Length0 && mip < uploadOffsets.Length1
      requires LaidOut(UpTo(table, i, mip), regions, start)
      modifies uploadOffsets
      ensures LaidOut(UpTo(table, i, mip + 1), more, end)
    {
      var bytes := MipSize(image, mip);
      end, more := PlaceLevel(i, mip, bytes, start, table, regions);
    }

    method PlaceUnlessAliased(i: nat, start: u64, ghost regions: seq<Region>)
      returns (end: u64, ghost more: seq<Region>)
      requires Fits() && i < |images|
      requires LaidOut(UpTo(levels, i, 0), regions, start)
      modifies uploadOffsets
      ensures LaidOut(UpTo(levels, i + 1, 0), more, end)
    {
      var alias := CaptureAliasIndex(images, i);
      RowOf(images, i);
      if alias >= 0 {
        return start, regions;
      }
      end, more := PlaceImage(i, images[i], start, levels, regions);
    }

    method PlaceImages() returns (end: u64, ghost regions: seq<Region>)
      requires Fits()
      modifies uploadOffsets
      ensures LaidOut(AllSlots(levels), regions, end)
    {
      end, regions := 0, [];
      var i := 0;
      while i < |images|
        invariant 0 <= i <= |images|
        invariant LaidOut(UpTo(levels, i, 0), regions, end)
      {
        end, regions := PlaceUnlessAliased(i, end, regions);
        i := i + 1;
      }
    }

    /** The upload buffer: every level, then the target behind a multiple of its texel size, then the depth image. */
    method LayOutUploads() returns (uploadSize: u64, ghost regions: seq<Region>, ghost target: nat, ghost depth: nat)
      requires Fits()
      modifies this`targetUploadOffset, this`depthUploadOffset, uploadOffsets
      ensures Recorded(AllSlots(levels), regions)
      ensures targetUploadOffset == target % WORD && depthUploadOffset == depth % WORD
      ensures Chained(regions + Outputs(target, depth)) && uploadSize == (depth + DEPTH_BYTES) % WORD
    {
      var end;
      end, regions := PlaceImages();
      uploadSize, target, depth := PlaceOutputs(end, regions);
    }

    method PlaceOutputs(end: u64, ghost regions: seq<Region>)
      returns (uploadSize: u64, ghost target: nat, ghost depth: nat)
      requires Chained(regions) && end == EndOf(regions) % WORD
      modifies this`targetUploadOffset, this`depthUploadOffset
      ensures targetUploadOffset == target % WORD && depthUploadOffset == depth % WORD
      ensures Chained(regions + Outputs(target, depth)) && uploadSize == (depth + DEPTH_BYTES) % WORD
    {
      SmallPowers();
      targetUploadOffset := AlignTo(end, BytesPerTexel(R16G16B16A16_SFLOAT), EndOf(regions));
      target := Least(EndOf(regions), 8);
      ghost var more := regions + [Region(target, OUTPUT_BYTES, 8)];
      ChainedSnoc(regions, Region(target, OUTPUT_BYTES, 8));
      uploadSize := (targetUploadOffset + OUTPUT_BYTES) % WORD;
      AddWraps(targetUploadOffset, OUTPUT_BYTES, target, OUTPUT_BYTES);
      depthUploadOffset := Align4(uploadSize, EndOf(more));
      depth := Least(EndOf(more), 4);
      ChainedSnoc(more, Region(depth, DEPTH_BYTES, 4));
      assert more + [Region(depth, DEPTH_BYTES, 4)] == regions + Outputs(target, depth);
      uploadSize := (depthUploadOffset + DEPTH_BYTES) % WORD;
      AddWraps(depthUploadOffset, DEPTH_BYTES, depth, DEPTH_BYTES);
    }

    /** If the layout ends within 64 bits, the levels have regions of their own at the offsets on record: inside the
        part before the target, disjoint from each other, and on boundaries of four bytes. */
    lemma LevelsAreSafe(regions: seq<Region>, target: nat, depth: nat, k: nat, l: nat)
      requires Recorded(AllSlots(levels), regions) && k < |regions| && l < |regions|
      requires targetUploadOffset == target % WORD && depthUploadOffset == depth % WORD
      requires Chained(regions + Outputs(target, depth)) && depth < WORD
      ensures IsAt(regions[k], AllSlots(levels)[k])
      ensures regions[k].End() <= targetUploadOffset && regions[k].offset % 4 == 0
      ensures k != l ==> Disjoint(regions[k], regions[l])
      ensures targetUploadOffset % 8 == 0 && targetUploadOffset + 640 * 360 * 8 <= depthUploadOffset
      ensures depthUploadOffset % 4 == 0
    {
      BeforeOutputs(regions, target, depth, k, l);
      Exact(target);
      Exact(depth);
      SlotStands(AllSlots(levels), regions, k);
    }

    /** The region of a level is the one at the offset on record. */
    ghost predicate IsAt(r: Region, s: Slot)
      reads uploadOffsets
    {
      && s.image < uploadOffsets.Length0 && s.mip < uploadOffsets.Length1
      && r == Region(uploadOffsets[s.image, s.mip], s.bytes, 4)
    }

    lemma SlotStands(slots: seq<Slot>, regions: seq<Region>, k: nat)
      requires Recorded(slots, regions) && k < |regions|
      ensures regions[k].alignment == 4 && (regions[k].offset < WORD ==> IsAt(regions[k], slots[k]))
    {
      assert Stands(uploadOffsets[slots[k].image, slots[k].mip], slots[k].bytes, regions[k]);
      if regions[k].offset < WORD {
        Exact(regions[k].offset);
      }
    }

    /** These levels are the mip levels of the images that alias no other, each once. */
    lemma SlotsAreTheMips(s: Slot)
      requires levels == LevelTable(images)
      ensures s in AllSlots(levels) <==>
              && s.image < |images| && !Aliased(images, s.image) && s.mip < images[s.image].mips
              && s.bytes == LevelBytes(images[s.image], s.mip)
    {
      SlotsAreTheLevels(levels, |levels|, 0, s);
      if s.image < |images| {
        RowOf(images, s.image);
      }
    }

    ghost predicate UniformsRecorded(uniforms: seq<Region>)
      reads uboOffsets
    {
      |uniforms| <= |uboSizes| && |uniforms| <= uboOffsets.Length
      && forall k | 0 <= k < |uniforms| :: Stands(uboOffsets[k], uboSizes[k], uniforms[k])
    }

    ghost predicate OthersRecorded(o: Others)
      reads this, uboOffsets
    {
      && Stands(inputVertexOffset, vertexBytes, o.vertex) && Stands(inputIndexOffset, indexBytes, o.index)
      && |o.uniforms| == |uboSizes| && UniformsRecorded(o.uniforms)
      && Stands(inputUploadOffset, targetUploadOffset, o.upload)
    }

    /** The readback buffer: the levels where they were uploaded from, then everything else behind the target's
        offset. */
    method LayOutReadback(ghost before: seq<Region>) returns (size: u64, ghost others: Others, ghost exact: nat)
      requires Fits() && Chained(before) && targetUploadOffset == EndOf(before) % WORD
      modifies this`inputVertexOffset, this`inputIndexOffset, this`inputUploadOffset, uboOffsets
      ensures OthersRecorded(others) && Chained(before + others.List())
      ensures size == exact % WORD && LeastMultiple(exact, others.upload.End(), 4)
    {
      ghost var vertex, index := PlaceVerticesAndIndices(before);
      ghost var rest := before + [vertex, index];
      var end := (inputIndexOffset + indexBytes) % WORD;
      ghost var at, uniforms, upload;
      inputUploadOffset, uniforms, at := PlaceUniforms(end, rest);
      size, upload, exact := PlaceUpload(rest + uniforms, at);
      others := Others(vertex, index, uniforms, upload);
      OneByOne(before, others);
    }

    /** The copy of the upload buffer. */
    method PlaceUpload(ghost before: seq<Region>, ghost at: nat)
      returns (size: u64, ghost upload: Region, ghost exact: nat)
      requires Chained(before) && inputUploadOffset == at % WORD && LeastMultiple(at, EndOf(before), 4)
      ensures Stands(inputUploadOffset, targetUploadOffset, upload) && Chained(before + [upload])
      ensures size == exact % WORD && LeastMultiple(exact, upload.End(), 4)
    {
      upload := Region(at, targetUploadOffset, 4);
      ChainedSnoc(before, upload);
      AddWraps(inputUploadOffset, targetUploadOffset, at, targetUploadOffset);
      size := Align4((inputUploadOffset + targetUploadOffset) % WORD, upload.End());
      exact := Least(upload.End(), 4);
    }

    method PlaceVerticesAndIndices(ghost before: seq<Region>) returns (ghost vertex: Region, ghost index: Region)
      requires Chained(before) && targetUploadOffset == EndOf(before) % WORD
      modifies this`inputVertexOffset, this`inputIndexOffset
      ensures Stands(inputVertexOffset, vertexBytes, vertex) && Stands(inputIndexOffset, indexBytes, index)
      ensures Chained(before + [vertex, index]) && (inputIndexOffset + indexBytes) % WORD == index.End() % WORD
    {
      vertex := PlaceVertices(before);
      index := PlaceIndices(before + [vertex]);
      assert before + [vertex] + [index] == before + [vertex, index];
    }

    method PlaceVertices(ghost before: seq<Region>) returns (ghost vertex: Region)
      requires Chained(before) && targetUploadOffset == EndOf(before) % WORD
      modifies this`inputVertexOffset
      ensures Stands(inputVertexOffset, vertexBytes, vertex) && Chained(before + [vertex])
      ensures (inputVertexOffset + vertexBytes) % WORD == vertex.End() % WORD
    {
      inputVertexOffset := Align4(targetUploadOffset, EndOf(before));
      vertex := Region(Least(EndOf(before), 4), vertexBytes, 4);
      ChainedSnoc(before, vertex);
      AddWraps(inputVertexOffset, vertexBytes, vertex.offset, vertexBytes);
    }

    method PlaceIndices(ghost before: seq<Region>) returns (ghost index: Region)
      requires Chained(before) && (inputVertexOffset + vertexBytes) % WORD == EndOf(before) % WORD
      modifies this`inputIndexOffset
      ensures Stands(inputIndexOffset, indexBytes, index) && Chained(before + [index])
      ensures (inputIndexOffset + indexBytes) % WORD == index.End() % WORD
    {
      inputIndexOffset := Align4((inputVertexOffset + vertexBytes) % WORD, EndOf(before));
      index := Region(Least(EndOf(before), 4), indexBytes, 4);
      ChainedSnoc(before, index);
      AddWraps(inputIndexOffset, indexBytes, index.offset, indexBytes);
    }

    /** The uniform buffers; the offset returned is the next aligned one behind them. */
    method PlaceUniforms(end: u64, ghost before: seq<Region>)
      returns (at: u64, ghost uniforms: seq<Region>, ghost exact: nat)
      requires Fits() && Chained(before) && end == EndOf(before) % WORD
      modifies uboOffsets
      ensures |uniforms| == |uboSizes| && UniformsRecorded(uniforms) && Chained(before + uniforms)
      ensures at == exact % WORD && LeastMultiple(exact, EndOf(before + uniforms), 4)
    {
      uniforms := [];
      at := Align4(end, EndOf(before));
      exact := Least(EndOf(before), 4);
      assert before + [] == before;
      var i := 0;
      while i < |uboSizes|
        invariant 0 <= i <= |uboSizes|
        invariant |uniforms| == i && UniformsRecorded(uniforms) && Chained(before + uniforms)
        invariant at == exact % WORD && LeastMultiple(exact, EndOf(before + uniforms), 4)
      {
        at, uniforms, exact := PlaceUniform(i, at, before, uniforms, exact);
        i := i + 1;
      }
    }

    method PlaceUniform(i: nat, start: u64, ghost before: seq<Region>, ghost placed: seq<Region>, ghost place: nat)
      returns (next: u64, ghost uniforms: seq<Region>, ghost exact: nat)
      requires i < |uboSizes| && i < uboOffsets.Length
      requires |placed| == i && UniformsRecorded(placed) && Chained(before + placed)
      requires start == place % WORD && LeastMultiple(place, EndOf(before + placed), 4)
      modifies uboOffsets
      ensures |uniforms| == i + 1 && UniformsRecorded(uniforms) && Chained(before + uniforms)
      ensures next == exact % WORD && LeastMultiple(exact, EndOf(before + uniforms), 4)
    {
      uboOffsets[i] := start;
      ghost var r := Region(place, uboSizes[i], 4);
      ChainedSnoc(before + placed, r);
      uniforms := placed + [r];
      assert before + uniforms == before + placed + [r];
      AddWraps(start, uboSizes[i], place, uboSizes[i]);
      next := Align4((start + uboSizes[i]) % WORD, r.End());
      exact := Least(r.End(), 4);
    }

    lemma SmallRegions(regions: seq<Region>)
      requires Fits() && Small(images) && Recorded(AllSlots(levels), regions)
      ensures |regions| <= 77 && forall r | r in regions :: r.size <= 0x8_0000_0000 && r.alignment == 4
    {
      SmallSlots(images, Slot(0, 0, 0));
      forall r | r in regions ensures r.size <= 0x8_0000_0000 && r.alignment == 4 {
        var k :| 0 <= k < |regions| && r == regions[k];
        SmallSlots(images, AllSlots(levels)[k]);
      }
    }

    /** Small images are far within 64 bits: the offset of the depth image is exact. */
    lemma SmallUploadsFit(regions: seq<Region>, target: nat, depth: nat)
      requires Fits() && Small(images)
      requires Recorded(AllSlots(levels), regions) && Chained(regions + Outputs(target, depth))
      ensures target <= depth && depth + DEPTH_BYTES <= 0x400_0000_0000
    {
      SmallRegions(regions);
      FewRegionsFit(regions, target, depth);
    }

    /** So is the end of the readback buffer. */
    lemma SmallReadbackFits(regions: seq<Region>, target: nat, depth: nat, others: Others)
      requires Fits() && Small(images) && targetUploadOffset == target % WORD
      requires Recorded(AllSlots(levels), regions) && Chained(regions + Outputs(target, depth))
      requires OthersRecorded(others) && Chained(regions + [Region(target, 0, 8)] + others.List())
      ensures others.upload.End() + 4 < WORD
    {
      SmallRegions(regions);
      SmallUploadsFit(regions, target, depth);
      Exact(target);
      SmallOthers(others);
      ManyRegionsFit(regions, Region(target, 0, 8), others.List());
    }

    lemma SmallOthers(others: Others)
      requires Fits() && OthersRecorded(others) && targetUploadOffset <= 0x400_0000_0000
      ensures |others.uniforms| <= 12
      ensures forall r | r in others.List() :: r.size <= 0x400_0000_0000 && r.alignment == 4
    {
      forall k | 0 <= k < |others.List()|
        ensures others.List()[k].size <= 0x400_0000_0000 && others.List()[k].alignment == 4
      {
        if 2 <= k < |others.uniforms| + 2 {
          assert Stands(uboOffsets[k - 2], uboSizes[k - 2], others.uniforms[k - 2]);
        }
      }
    }
  }
}
