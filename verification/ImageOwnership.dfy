/** The images of a captured replay as objects of the device: aliases share the handles of an earlier image, only the
    owner destroys them, and cleanup destroys every handle once, however far creation got. */
module ImageOwnership {
  import opened CaptureImages

  /** A handle of the device; zero is the null handle. */
  type Handle = nat

  class Device {
    var next: Handle
    ghost var live: set<Handle>

    ghost predicate Valid()
      reads this
    {
      next > 0 && forall h | h in live :: 0 < h < next
    }

    constructor ()
      ensures Valid() && live == {}
    {
      next, live := 1, {};
    }

    method Create() returns (h: Handle)
      requires Valid()
      modifies this
      ensures Valid() && h != 0 && h !in old(live) && live == old(live) + {h}
    {
      h := next;
      next, live := next + 1, live + {h};
    }

    /** Only a live handle may be destroyed: never null, never one that is gone already. */
    method Destroy(h: Handle)
      requires Valid() && h in live
      modifies this
      ensures Valid() && live == old(live) - {h}
    {
      live := live - {h};
    }
  }

  datatype ReplayImage = ReplayImage(image: Handle, memory: Handle, view: Handle, sampler: Handle, ownsImage: bool)

  const EMPTY := ReplayImage(0, 0, 0, 0, false)

  /** The handles that cleanup destroys for an image. */
  ghost function Owned(r: ReplayImage): set<Handle> {
    ({r.sampler} + if r.ownsImage then {r.image, r.memory, r.view} else {}) - {0}
  }

  ghost predicate DistinctHandles(r: ReplayImage) {
    && (r.image != 0 ==> r.image != r.memory && r.image != r.view && r.image != r.sampler)
    && (r.memory != 0 ==> r.memory != r.view && r.memory != r.sampler)
    && (r.view != 0 ==> r.view != r.sampler)
  }

  ghost function OwnedFrom(images: seq<ReplayImage>, i: nat): set<Handle>
    requires i <= |images|
    decreases |images| - i
  {
    if i == |images| then {} else Owned(images[i]) + OwnedFrom(images, i + 1)
  }

  /** No handle has two owners. */
  ghost predicate Separate(images: seq<ReplayImage>) {
    && (forall i | 0 <= i < |images| :: DistinctHandles(images[i]))
    && forall i, j | 0 <= i < j < |images| :: Owned(images[i]) !! Owned(images[j])
  }

  lemma {:induction false} OwnedFromIs(images: seq<ReplayImage>, i: nat, h: Handle)
    requires i <= |images|
    ensures h in OwnedFrom(images, i) <==> exists j | i <= j < |images| :: h in Owned(images[j])
    decreases |images| - i
  {
    if i < |images| {
      OwnedFromIs(images, i + 1, h);
    }
  }

  /** Changing one image changes what is owned by what that image owns. */
  lemma OwnedAfterUpdate(images: seq<ReplayImage>, i: nat, r: ReplayImage)
    requires i < |images| && Separate(images) && Owned(images[i]) <= Owned(r)
    requires (Owned(r) - Owned(images[i])) !! OwnedFrom(images, 0)
    ensures OwnedFrom(images[i := r], 0) == OwnedFrom(images, 0) + Owned(r)
    ensures DistinctHandles(r) ==> Separate(images[i := r])
  {
    var after := images[i := r];
    forall h ensures h in OwnedFrom(after, 0) <==> h in OwnedFrom(images, 0) + Owned(r) {
      OwnedFromIs(images, 0, h);
      OwnedFromIs(after, 0, h);
      if h in OwnedFrom(images, 0) {
        var j :| 0 <= j < |images| && h in Owned(images[j]);
        assert h in Owned(after[j]);
      }
      if h in Owned(r) {
        assert h in Owned(after[i]);
      }
    }
    forall j, h | 0 <= j < |images| && j != i && h in Owned(images[j]) ensures h !in Owned(r) {
      OwnedFromIs(images, 0, h);
      assert j < i ==> Owned(images[j]) !! Owned(images[i]);
    }
  }

  /** The answers of the platform while one image is created. */
  datatype Answers = Answers(format: bool, image: bool, memoryType: bool,
      memory: bool, bind: bool, view: bool, sampler: bool)

  /** The device does everything that image `i` needs. */
  ghost predicate Succeeds(specs: seq<ImageSpec>, i: nat, a: Answers)
    requires i < |specs|
  {
    a.format && a.sampler && (Aliased(specs, i) || (a.image && a.memoryType && a.memory && a.bind && a.view))
  }

  /** The device makes the image, but does not finish it. */
  ghost predicate Strands(specs: seq<ImageSpec>, i: nat, a: Answers)
    requires i < |specs|
  {
    a.format && !Aliased(specs, i) && a.image && !(a.memoryType && a.memory && a.bind)
  }

  /** The first image that the device fails; their number if it fails none. */
  ghost function FirstFailure(specs: seq<ImageSpec>, answers: seq<Answers>, from: nat): (i: nat)
    requires from <= |specs| == |answers|
    ensures from <= i <= |specs| && forall k | from <= k < i :: Succeeds(specs, k, answers[k])
    ensures i < |specs| ==> !Succeeds(specs, i, answers[i])
    decreases |specs| - from
  {
    if from == |specs| || !Succeeds(specs, from, answers[from]) then from else FirstFailure(specs, answers, from + 1)
  }

  /** Something is left over: the first image that the device fails is one that it had already made. */
  ghost predicate LeavesOrphans(specs: seq<ImageSpec>, answers: seq<Answers>)
    requires |specs| == |answers|
  {
    var i := FirstFailure(specs, answers, 0);
    i < |specs| && Strands(specs, i, answers[i])
  }

  class Replay {
    const specs: seq<ImageSpec>
    const images: array<ReplayImage>
    const device: Device

    constructor (specs: seq<ImageSpec>)
      requires |specs| <= IMAGE_CAPACITY
      ensures Valid() && this.specs == specs && device.live == {} && fresh(device) && fresh(images)
      ensures forall i | 0 <= i < images.Length :: images[i] == EMPTY
    {
      this.specs := specs;
      device := new Device();
      images := new ReplayImage[IMAGE_CAPACITY](_ => EMPTY);
      new;
      forall h ensures h !in OwnedFrom(images[..], 0) {
        OwnedFromIs(images[..], 0, h);
      }
    }

    ghost predicate Valid()
      reads device, images
    {
      && |specs| <= IMAGE_CAPACITY == images.Length && device.Valid()
      && Separate(images[..]) && OwnedFrom(images[..], 0) <= device.live
    }

    /** `create_image_levels`: whatever was created before a failure stays in the image's fields. */
    method CreateImageLevels(i: nat, a: Answers) returns (ok: bool)
      requires i < images.Length && device.Valid() && images[i] == EMPTY
      modifies device, images
      ensures device.Valid() && ok == (a.image && a.memoryType && a.memory && a.bind)
      ensures images[..] == old(images[..])[i := images[i]]
      ensures images[i] == EMPTY.(image := images[i].image, memory := images[i].memory) && DistinctHandles(images[i])
      ensures device.live == old(device.live) + ({images[i].image, images[i].memory} - {0})
      ensures ({images[i].image, images[i].memory} - {0}) !! old(device.live)
      ensures images[i].image != 0 <==> a.image
      ensures images[i].memory != 0 <==> a.image && a.memoryType && a.memory
    {
      if !a.image {
        return false;
      }
      var image := device.Create();
      images[i] := images[i].(image := image);
      if !a.memoryType {
        return false;
      }
      if !a.memory {
        return false;
      }
      var memory := device.Create();
      images[i] := images[i].(memory := memory);
      return a.bind;
    }

    /** The handles of an image whose creation failed half-way: it does not own them yet, so nobody does. */
    ghost function Orphans(i: nat, a: Answers): (orphans: set<Handle>)
      requires i < |specs| && i < images.Length
      reads images
    {
      if Strands(specs, i, a) then {images[i].image, images[i].memory} - {0} else {}
    }

    /** Image `i` has everything, and shares it with the image it aliases. */
    ghost predicate Complete(i: nat)
      requires i < |specs| && i < images.Length
      reads images, device
    {
      && images[i].image != 0 && images[i].memory != 0 && images[i].view != 0 && images[i].sampler != 0
      && {images[i].image, images[i].memory, images[i].view, images[i].sampler} <= device.live
      && DistinctHandles(images[i]) && (images[i].ownsImage <==> !Aliased(specs, i))
      && forall j | 0 <= j < images.Length && AliasOf(specs, i, j) ::
           images[i] == images[j].(ownsImage := false, sampler := images[i].sampler)
    }

    /** What the creation of one image, finished or not, leaves behind: new handles, owned by it or by nobody. */
    twostate predicate ImageMade(i: nat, a: Answers)
      requires i < |specs| && i < images.Length
      reads images, device
    {
      && images[..] == old(images[..])[i := images[i]] && DistinctHandles(images[i])
      && Owned(images[i]) + Orphans(i, a) !! old(device.live)
      && Owned(images[i]) !! Orphans(i, a) && (Strands(specs, i, a) ==> images[i].image != 0)
      && device.live == old(device.live) + Owned(images[i]) + Orphans(i, a)
    }

    /** The image itself: shared, or created and then owned. */
    method CreateOrShare(i: nat, a: Answers) returns (ok: bool)
      requires device.Valid() && i < |specs| <= images.Length && images[i] == EMPTY && a.format
      requires forall j | 0 <= j < i :: Complete(j)
      modifies device, images
      ensures device.Valid() && ImageMade(i, a) && images[i].sampler == 0
      ensures ok <==> Aliased(specs, i) || (a.image && a.memoryType && a.memory && a.bind && a.view)
      ensures ok ==> {images[i].image, images[i].memory, images[i].view} <= device.live - {0}
      ensures ok ==> (images[i].ownsImage <==> !Aliased(specs, i))
      ensures forall j | 0 <= j < images.Length && AliasOf(specs, i, j) ::
                images[i] == images[j].(ownsImage := false, sampler := 0)
    {
      var alias := CaptureAliasIndex(specs, i);
      if alias >= 0 {
        assert Complete(alias);
        images[i] := images[i].(image := images[alias].image, memory := images[alias].memory,
                                  view := images[alias].view,
                                ownsImage := false);
        return true;
      }
      ok := CreateImageLevels(i, a);
      if !ok {
        return;
      }
      images[i] := images[i].(ownsImage := true);
      if !a.view {
        return false;
      }
      var view := device.Create();
      images[i] := images[i].(view := view);
    }

    /** The whole step for one image. */
    method CreateImage(i: nat, a: Answers) returns (ok: bool)
      requires device.Valid() && i < |specs| <= images.Length && images[i] == EMPTY
      requires forall j | 0 <= j < i :: Complete(j)
      modifies device, images
      ensures device.Valid() && ImageMade(i, a)
      ensures ok <==> Succeeds(specs, i, a)
      ensures ok ==> Complete(i)
      ensures Orphans(i, a) != {} <==> Strands(specs, i, a)
    {
      if !a.format {
        return false;
      }
      ok := CreateOrShare(i, a);
      if !ok {
        assert Strands(specs, i, a) ==> images[i].image in Orphans(i, a);
        return;
      }
      if !a.sampler {
        return false;
      }
      var sampler := device.Create();
      images[i] := images[i].(sampler := sampler);
    }

    /** The same step, seen in the whole table. */
    method AddImage(i: nat, a: Answers) returns (ok: bool)
      requires Valid() && i < |specs| && images[i] == EMPTY && device.live == OwnedFrom(images[..], 0)
      requires forall j | 0 <= j < i :: Complete(j)
      modifies device, images
      ensures Valid() && images[..] == old(images[..])[i := images[i]] && old(device.live) <= device.live
      ensures device.live == OwnedFrom(images[..], 0) + Orphans(i, a) && OwnedFrom(images[..], 0) !! Orphans(i, a)
      ensures ok <==> Succeeds(specs, i, a)
      ensures forall j | 0 <= j < if ok then i + 1 else i :: Complete(j)
      ensures forall j | i < j < images.Length :: images[j] == old(images[j])
      ensures Orphans(i, a) != {} <==> Strands(specs, i, a)
    {
      ghost var before := images[..];
      ok := CreateImage(i, a);
      assert forall j | 0 <= j < images.Length && j != i :: images[j] == before[j];
      forall j | 0 <= j < i ensures Complete(j) {
        assert old(Complete(j));
      }
      OwnedAfterUpdate(before, i, images[i]);
    }

    /** The images in order, up to the first failure. Every live handle has exactly one owner, but for the orphans of
        that failure. */
    method CreateImages(answers: seq<Answers>) returns (ok: bool, done: nat)
      requires Valid() && device.live == {} && |answers| == |specs|
      requires forall i | 0 <= i < images.Length :: images[i] == EMPTY
      modifies device, images
      ensures Valid() && done <= |specs| && (ok <==> done == |specs|)
      ensures forall i | 0 <= i < done :: Succeeds(specs, i, answers[i])
      ensures forall i | 0 <= i < done :: Complete(i)
      ensures ok ==> device.live == OwnedFrom(images[..], 0)
      ensures !ok ==> !Succeeds(specs, done, answers[done])
      ensures !ok ==> device.live == OwnedFrom(images[..], 0) + Orphans(done, answers[done])
      ensures !ok ==> OwnedFrom(images[..], 0) !! Orphans(done, answers[done])
      ensures !ok ==> (Orphans(done, answers[done]) != {} <==> Strands(specs, done, answers[done]))
    {
      done, ok := 0, true;
      while done < |specs|
        invariant 0 <= done <= |specs| && Valid() && ok
        invariant forall i | done <= i < images.Length :: images[i] == EMPTY
        invariant forall i | 0 <= i < done :: Succeeds(specs, i, answers[i])
        invariant forall i | 0 <= i < done :: Complete(i)
        invariant device.live == OwnedFrom(images[..], 0)
      {
        ok := AddImage(done, answers[done]);
        if !ok {
          return;
        }
        done := done + 1;
      }
    }

    /** What one image owns goes, in the order of the source. */
    method DestroyImage(r: ReplayImage)
      requires device.Valid() && Owned(r) <= device.live && DistinctHandles(r)
      modifies device
      ensures device.Valid() && device.live == old(device.live) - Owned(r)
    {
      if r.sampler != 0 {
        device.Destroy(r.sampler);
      }
      if r.ownsImage && r.view != 0 {
        device.Destroy(r.view);
      }
      if r.ownsImage && r.image != 0 {
        device.Destroy(r.image);
      }
      if r.ownsImage && r.memory != 0 {
        device.Destroy(r.memory);
      }
    }

    /** `cleanup`: every owned handle is destroyed, none twice. */
    method Cleanup()
      requires Valid()
      modifies device
      ensures device.Valid() && device.live == old(device.live) - OwnedFrom(images[..], 0)
    {
      ghost var all := images[..];
      var i := 0;
      while i < images.Length
        invariant 0 <= i <= images.Length && device.Valid()
        invariant OwnedFrom(all, i) <= device.live
        invariant device.live == old(device.live) - (OwnedFrom(all, 0) - OwnedFrom(all, i))
      {
        OwnedLater(all, i);
        DestroyImage(images[i]);
        i := i + 1;
      }
    }
  }

  lemma OwnedLater(images: seq<ReplayImage>, i: nat)
    requires i < |images| && Separate(images)
    ensures Owned(images[i]) !! OwnedFrom(images, i + 1)
    ensures OwnedFrom(images, i) <= OwnedFrom(images, 0)
  {
    forall h ensures h in Owned(images[i]) ==> h !in OwnedFrom(images, i + 1)
             ensures h in OwnedFrom(images, i) ==> h in OwnedFrom(images, 0)
    {
      OwnedFromIs(images, i + 1, h);
      OwnedFromIs(images, i, h);
      OwnedFromIs(images, 0, h);
    }
  }

  /** Creation and cleanup together, for any answers of the device: no handle is destroyed twice, and nothing is left
      over, if and only if the first image that the device fails, if any, was not half-way made. */
  method CreateAndCleanUp(specs: seq<ImageSpec>, answers: seq<Answers>) returns (replay: Replay, ok: bool, done: nat)
    requires |answers| == |specs| <= IMAGE_CAPACITY
    ensures fresh(replay) && replay.specs == specs && |specs| <= replay.images.Length
    ensures done == FirstFailure(specs, answers, 0) && (ok <==> done == |specs|)
    ensures replay.device.live == if ok then {} else replay.Orphans(done, answers[done])
    ensures replay.device.live == {} <==> !LeavesOrphans(specs, answers)
  {
    replay := new Replay(specs);
    ok, done := replay.CreateImages(answers);
    replay.Cleanup();
  }

  /** A device that makes an image and then has no memory for it. */
  lemma OrphansHappen()
    ensures var specs := [ImageSpec(1, 0, R8_UNORM, 4, 4, 1)];
            LeavesOrphans(specs, [Answers(true, true, true, false, false, false, false)])
  {
    var specs := [ImageSpec(1, 0, R8_UNORM, 4, 4, 1)];
    var answers := [Answers(true, true, true, false, false, false, false)];
    assert !Aliased(specs, 0);
    assert !Succeeds(specs, 0, answers[0]);
  }
}
