/** The order in which the levels of a table of images are laid out: image by image, level by level. */
module StagingSlots {
  datatype Slot = Slot(image: nat, mip: nat, bytes: nat)

  ghost predicate InTable(table: seq<seq<nat>>, image: nat, mip: nat) {
    if image < |table| then mip <= |table[image]| else image == |table| && mip == 0
  }

  /** The levels that come before level `mip` of an image. */
  ghost function UpTo(table: seq<seq<nat>>, image: nat, mip: nat): seq<Slot>
    requires InTable(table, image, mip)
    decreases image, mip
  {
    if mip > 0 then UpTo(table, image, mip - 1) + [Slot(image, mip - 1, table[image][mip - 1])]
    else if image > 0 then UpTo(table, image - 1, |table[image - 1]|)
    else []
  }

  ghost function AllSlots(table: seq<seq<nat>>): seq<Slot> {
    UpTo(table, |table|, 0)
  }

  /** They are exactly the levels of the table that are lexicographically smaller. */
  lemma {:induction false} SlotsAreTheLevels(table: seq<seq<nat>>, image: nat, mip: nat, s: Slot)
    requires InTable(table, image, mip)
    ensures s in UpTo(table, image, mip) <==>
            && (s.image < image || (s.image == image && s.mip < mip))
            && s.mip < |table[s.image]| && s.bytes == table[s.image][s.mip]
    decreases image, mip
  {
    if mip > 0 {
      SlotsAreTheLevels(table, image, mip - 1, s);
    } else if image > 0 {
      SlotsAreTheLevels(table, image - 1, |table[image - 1]|, s);
    }
  }

  lemma {:induction false} SlotsGrow(table: seq<seq<nat>>, image: nat, mip: nat)
    requires InTable(table, image, mip)
    ensures UpTo(table, image, mip) <= AllSlots(table)
    decreases |table| - image, if image < |table| then |table[image]| - mip else 0
  {
    if image < |table| {
      if mip < |table[image]| {
        SlotsGrow(table, image, mip + 1);
      } else {
        SlotsGrow(table, image + 1, 0);
      }
    }
  }

  /** Behind the levels before it comes a level itself. */
  lemma SlotAt(table: seq<seq<nat>>, image: nat, mip: nat)
    requires image < |table| && mip < |table[image]|
    ensures |UpTo(table, image, mip + 1)| == |UpTo(table, image, mip)| + 1 <= |AllSlots(table)|
    ensures AllSlots(table)[|UpTo(table, image, mip)|] == Slot(image, mip, table[image][mip])
  {
    SlotsGrow(table, image, mip + 1);
    assert UpTo(table, image, mip + 1)[|UpTo(table, image, mip)|] == Slot(image, mip, table[image][mip]);
  }

  /** As many as fit rows of a fixed length. */
  lemma {:induction false} SlotsFitRows(table: seq<seq<nat>>, image: nat, mip: nat, row: nat)
    requires InTable(table, image, mip) && forall i | 0 <= i < |table| :: |table[i]| <= row
    ensures |UpTo(table, image, mip)| <= row * image + mip
    decreases image, mip
  {
    if mip > 0 {
      SlotsFitRows(table, image, mip - 1, row);
    } else if image > 0 {
      SlotsFitRows(table, image - 1, |table[image - 1]|, row);
      assert row * image == row * (image - 1) + row;
    }
  }
}
