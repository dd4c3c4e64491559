/** The images of a captured draw: their formats, mip levels and which of them alias an earlier one. */
module CaptureImages {
  import opened MachineInts
  import opened BitMask

  const IMAGE_CAPACITY := 7
  const MAX_MIPS := 11

  datatype Format = R8_UNORM | R8G8_SNORM | R8G8B8A8_UNORM | D24_UNORM_S8_UINT | R16G16B16A16_SFLOAT | Other

  function BytesPerTexel(format: Format): nat {
    match format
    case R8_UNORM => 1
    case R8G8_SNORM => 2
    case R8G8B8A8_UNORM => 4
    case D24_UNORM_S8_UINT => 4
    case R16G16B16A16_SFLOAT => 8
    case Other => 0
  }

  /** The channels of a texel, in bits. */
  function ChannelBits(format: Format): seq<nat> {
    match format
    case R8_UNORM => [8]
    case R8G8_SNORM => [8, 8]
    case R8G8B8A8_UNORM => [8, 8, 8, 8]
    case D24_UNORM_S8_UINT => [24, 8]
    case R16G16B16A16_SFLOAT => [16, 16, 16, 16]
    case Other => []
  }

  function Sum(bits: seq<nat>): nat {
    if bits == [] then 0 else bits[0] + Sum(bits[1..])
  }

  /** A texel has exactly the bytes of its channels. */
  lemma TexelIsItsChannels(format: Format)
    ensures 8 * BytesPerTexel(format) == Sum(ChannelBits(format))
  {
    match format
    case R8_UNORM =>
    case R8G8_SNORM => assert [8, 8][1..] == [8];
    case R8G8B8A8_UNORM =>
      assert [8, 8, 8, 8][1..] == [8, 8, 8] && [8, 8, 8][1..] == [8, 8] && [8, 8][1..] == [8];
    case D24_UNORM_S8_UINT => assert [24, 8][1..] == [8];
    case R16G16B16A16_SFLOAT =>
      assert [16, 16, 16, 16][1..] == [16, 16, 16] && [16, 16, 16][1..] == [16, 16] && [16, 16][1..] == [16];
    case Other =>
  }

  /** Alignment to four bytes puts every level on a texel boundary exactly for the formats of at most four bytes; levels
      with eight bytes to a texel can miss it, which is why the target is aligned to eight. */
  lemma FourBytesSuffice(format: Format)
    requires BytesPerTexel(format) > 0
    ensures (forall offset: nat | offset % 4 == 0 :: offset % BytesPerTexel(format) == 0) <==>
            format != R16G16B16A16_SFLOAT
  {
    var t := BytesPerTexel(format);
    if format == R16G16B16A16_SFLOAT {
      RemainderUnique(4, t, 0, 4);
    } else {
      forall offset: nat | offset % 4 == 0 ensures offset % t == 0 {
        RemainderUnique(offset, t, offset / 4 * (4 / t), 0);
      }
    }
  }

  datatype ImageSpec = ImageSpec(binding: u32, sourceBinding: u32, format: Format, width: u32, height: u32, mips: nat)

  function SourceBinding(image: ImageSpec): u32 {
    if image.sourceBinding != 0 then image.sourceBinding else image.binding
  }

  /** The size of a mip level along one axis. */
  function Extent(size: u32, mip: nat): nat {
    if Shift(size, mip) == 0 then 1 else Shift(size, mip)
  }

  /** A product, as a sum. */
  ghost function Times(a: nat, b: nat): nat {
    if b == 0 then 0 else Times(a, b - 1) + a
  }

  lemma {:induction false} TimesIs(a: nat, b: nat)
    ensures Times(a, b) == a * b
  {
    if b > 0 {
      TimesIs(a, b - 1);
      assert a * b == a * (b - 1) + a;
    }
  }

  /** The bytes of a mip level: level `mip` of an image is level `mip - 1` of one of half the size. */
  ghost function MipBytes(width: nat, height: nat, texel: nat, mip: nat): nat
    decreases mip
  {
    if mip == 0 then Times(Times(if width == 0 then 1 else width, if height == 0 then 1 else height), texel)
    else MipBytes(width / 2, height / 2, texel, mip - 1)
  }

  lemma {:induction false} MipBytesAre(width: u32, height: u32, texel: nat, mip: nat)
    ensures MipBytes(width, height, texel, mip) == Extent(width, mip) * Extent(height, mip) * texel
    decreases mip
  {
    if mip == 0 {
      TimesIs(Extent(width, 0), Extent(height, 0));
      TimesIs(Extent(width, 0) * Extent(height, 0), texel);
    } else {
      MipBytesAre(width / 2, height / 2, texel, mip - 1);
    }
  }

  ghost function LevelBytes(image: ImageSpec, mip: nat): nat {
    MipBytes(image.width, image.height, BytesPerTexel(image.format), mip)
  }

  /** Image `i` names another binding than its own to be captured from; zero names none. */
  ghost predicate NamesSource(images: seq<ImageSpec>, i: nat)
    requires i < |images|
  {
    images[i].sourceBinding != 0 && images[i].sourceBinding != images[i].binding
  }

  /** Image `i` shares the resources of image `j`: the first earlier one with the binding that `i` is captured from. */
  ghost predicate AliasOf(images: seq<ImageSpec>, i: nat, j: nat)
    requires i < |images|
  {
    && j < i && NamesSource(images, i) && images[j].binding == images[i].sourceBinding
    && forall k | 0 <= k < j :: images[k].binding != images[i].sourceBinding
  }

  ghost predicate Aliased(images: seq<ImageSpec>, i: nat)
    requires i < |images|
  {
    NamesSource(images, i) && exists j | 0 <= j < i :: images[j].binding == images[i].sourceBinding
  }

  /** `capture_alias_index`. */
  method CaptureAliasIndex(images: seq<ImageSpec>, index: nat) returns (r: int)
    requires index < |images|
    ensures -1 <= r < index
    ensures r >= 0 ==> AliasOf(images, index, r)
    ensures r >= 0 <==> Aliased(images, index)
  {
    var source := SourceBinding(images[index]);
    if source == images[index].binding {
      return -1;
    }
    r := 0;
    while r < index
      invariant 0 <= r <= index
      invariant forall k | 0 <= k < r :: images[k].binding != source
    {
      if images[r].binding == source {
        assert AliasOf(images, index, r);
        return;
      }
      r := r + 1;
    }
    return -1;
  }

  /** The sizes of all levels that are uploaded: an image that aliases another has none. */
  ghost function LevelTable(images: seq<ImageSpec>): (table: seq<seq<nat>>)
    ensures |table| == |images|
  {
    seq(|images|, i requires 0 <= i < |images| => Levels(images, i))
  }

  ghost function Levels(images: seq<ImageSpec>, i: nat): (sizes: seq<nat>)
    requires i < |images|
    ensures |sizes| == if Aliased(images, i) then 0 else images[i].mips
  {
    if Aliased(images, i) then []
    else seq(images[i].mips, mip requires 0 <= mip < images[i].mips => LevelBytes(images[i], mip))
  }

  /** The sizes of an image's levels, or none. */
  ghost predicate IsRow(image: ImageSpec, sizes: seq<nat>) {
    forall mip | 0 <= mip < |sizes| :: sizes[mip] == LevelBytes(image, mip)
  }

  lemma RowOf(images: seq<ImageSpec>, i: nat)
    requires i < |images|
    ensures |LevelTable(images)[i]| == if Aliased(images, i) then 0 else images[i].mips
    ensures IsRow(images[i], LevelTable(images)[i])
  {
    assert LevelTable(images)[i] == Levels(images, i);
  }
}
