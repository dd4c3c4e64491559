/** Regions laid out one after another in a buffer, each at the least aligned offset behind the one before: they are
    aligned, inside the buffer and pairwise disjoint, and writing one leaves the others alone. */
module StagingLayout {
  import opened MachineInts
  import opened BitMask

  datatype Region = Region(offset: nat, size: nat, alignment: nat) {
    function End(): nat {
      offset + size
    }
  }

  function EndOf(regions: seq<Region>): nat {
    if regions == [] then 0 else regions[|regions| - 1].End()
  }

  /** `r` is the least multiple of `a` that is not below `v`. */
  ghost predicate LeastMultiple(r: nat, v: nat, a: nat) {
    IsMultiple(r, a) && v <= r && forall m: nat | IsMultiple(m, a) && v <= m :: r <= m
  }

  ghost predicate IsMultiple(m: nat, a: nat) {
    a > 0 && m % a == 0
  }

  /** There is always one. */
  ghost function Least(v: nat, a: nat): (r: nat)
    requires a > 0
    ensures LeastMultiple(r, v, a)
  {
    LeastExists(v, a);
    var r: nat :| LeastMultiple(r, v, a);
    r
  }

  lemma LeastExists(v: nat, a: nat)
    requires a > 0
    ensures exists r: nat :: LeastMultiple(r, v, a)
  {
    var n := (v + a - 1) / a;
    DivisionEquation(v + a - 1, a);
    RemainderUnique(a * n, a, n, 0);
    forall m: nat | IsMultiple(m, a) && v <= m ensures a * n <= m {
      NoMultipleBetween(a, n, m);
    }
    assert LeastMultiple(a * n, v, a);
  }

  /** Every region starts at the least aligned offset behind the one before it. */
  ghost predicate Chained(regions: seq<Region>) {
    && (regions != [] ==> LeastMultiple(regions[0].offset, 0, regions[0].alignment))
    && forall j, k | 0 <= j && k == j + 1 < |regions| ::
         LeastMultiple(regions[k].offset, regions[j].End(), regions[k].alignment)
  }

  lemma ChainedSnoc(regions: seq<Region>, r: Region)
    ensures Chained(regions + [r]) <==> Chained(regions) && LeastMultiple(r.offset, EndOf(regions), r.alignment)
  {
    var all := regions + [r];
    assert forall k | 0 <= k < |regions| :: all[k] == regions[k];
    assert all[|regions|] == r;
    if regions != [] {
      assert EndOf(regions) == all[|regions| - 1].End();
    }
    if Chained(all) {
      forall j, k | 0 <= j && k == j + 1 < |regions|
        ensures LeastMultiple(regions[k].offset, regions[j].End(), regions[k].alignment)
      {
        assert LeastMultiple(all[k].offset, all[j].End(), all[k].alignment);
      }
    }
  }

  ghost predicate Aligned(r: Region) {
    IsMultiple(r.offset, r.alignment)
  }

  lemma {:induction false} InOrder(regions: seq<Region>, j: nat, k: nat)
    requires Chained(regions) && j <= k < |regions|
    ensures Aligned(regions[k]) && regions[j].End() <= regions[k].End()
    ensures j < k ==> regions[j].End() <= regions[k].offset
    decreases k
  {
    if k > 0 {
      assert LeastMultiple(regions[k].offset, regions[k - 1].End(), regions[k].alignment);
    }
    if j < k {
      InOrder(regions, j, k - 1);
    }
  }

  ghost predicate Disjoint(a: Region, b: Region) {
    a.End() <= b.offset || b.End() <= a.offset
  }

  /** What a chain promises: aligned, inside, pairwise disjoint. */
  lemma ChainedIsSafe(regions: seq<Region>)
    requires Chained(regions)
    ensures forall k | 0 <= k < |regions| :: Aligned(regions[k]) && regions[k].End() <= EndOf(regions)
    ensures forall j, k | 0 <= j < k < |regions| :: Disjoint(regions[j], regions[k])
  {
    forall j, k | 0 <= j <= k < |regions|
      ensures Aligned(regions[k]) && regions[k].End() <= EndOf(regions)
      ensures j < k ==> Disjoint(regions[j], regions[k])
    {
      InOrder(regions, j, k);
      InOrder(regions, k, |regions| - 1);
    }
  }

  /** A chain aligned to four or eight bytes wastes at most seven before each region. */
  lemma {:induction false} EndWithin(regions: seq<Region>, size: nat)
    requires Chained(regions)
    requires forall r | r in regions :: r.size <= size && (r.alignment == 4 || r.alignment == 8)
    ensures EndOf(regions) <= |regions| * (size + 7)
    decreases |regions|
  {
    if regions != [] {
      var before, last := regions[..|regions| - 1], regions[|regions| - 1];
      assert regions == before + [last];
      ChainedSnoc(before, last);
      EndWithin(before, size);
      LeastIsNear(last.offset, EndOf(before), last.alignment);
      assert EndOf(regions) <= EndOf(before) + (size + 7);
      OneMore(|before|, size + 7);
    }
  }

  lemma OneMore(n: nat, x: nat)
    ensures (n + 1) * x == n * x + x
  {
  }

  lemma LeastIsNear(r: nat, v: nat, a: nat)
    requires LeastMultiple(r, v, a) && (a == 4 || a == 8)
    ensures r < v + a
  {
    if a == 4 {
      NextOfFour(v);
    } else {
      NextOfEight(v);
    }
  }

  lemma NextOfFour(v: nat)
    ensures var m := (v + 3) / 4 * 4; IsMultiple(m, 4) && v <= m < v + 4
  {
  }

  lemma NextOfEight(v: nat)
    ensures var m := (v + 7) / 8 * 8; IsMultiple(m, 8) && v <= m < v + 8
  {
  }

  // ---- Alignment by mask, in 64 bits ----

  const WORD := 0x1_0000_0000_0000_0000

  /** `align_to`, for a 64-bit value that stands for some exact one: the mask finds the least multiple of the exact
      value, cut to 64 bits, whether or not the sum wraps around. */
  method AlignTo(value: u64, alignment: u64, ghost exact: nat) returns (r: u64)
    requires IsPow2(alignment) && value == exact % WORD
    ensures r == Least(exact, alignment) % WORD
  {
    ghost var k: nat :| Pow2(k) == alignment;
    r := AndNot((value + alignment - 1) % WORD, alignment - 1);
    ghost var least := AlignWraps(value, k, exact);
    LeastIsUnique(least, Least(exact, alignment), exact, alignment);
  }

  lemma LeastIsUnique(r: nat, q: nat, v: nat, a: nat)
    requires LeastMultiple(r, v, a) && LeastMultiple(q, v, a)
    ensures r == q
  {
  }

  lemma AlignWraps(value: u64, k: nat, exact: nat) returns (least: nat)
    requires Pow2(k) < WORD && value == exact % WORD
    ensures LeastMultiple(least, exact, Pow2(k))
    ensures AndNot((value + Pow2(k) - 1) % WORD, Pow2(k) - 1) == least % WORD
  {
    var near := AndNot(value + Pow2(k) - 1, Pow2(k) - 1);
    MaskWraps(value, k);
    MaskIsLeast(value, k);
    WordIsMultiple(k);
    least := LeastOfExact(value, exact, Pow2(k), near);
  }

  /** Whole words aside, the least multiple of the value is that of the exact one. */
  lemma LeastOfExact(value: nat, exact: nat, a: nat, near: nat) returns (least: nat)
    requires value == exact % WORD && LeastMultiple(near, value, a) && WORD % a == 0
    ensures LeastMultiple(least, exact, a) && least % WORD == near % WORD
  {
    var n := exact / WORD;
    least := near + WORD * n;
    WordsAside(value, exact, near);
    LeastMultipleShift(near, value, a, n);
  }

  lemma WordsAside(value: nat, exact: nat, near: nat)
    requires value == exact % WORD
    ensures exact == value + WORD * (exact / WORD) && (near + WORD * (exact / WORD)) % WORD == near % WORD
  {
  }

  lemma MaskIsLeast(value: nat, k: nat)
    ensures LeastMultiple(AndNot(value + Pow2(k) - 1, Pow2(k) - 1), value, Pow2(k))
  {
    AlignUp(value, k);
  }

  /** The mask and the cut to 64 bits commute. */
  lemma MaskWraps(value: u64, k: nat)
    requires Pow2(k) < WORD
    ensures AndNot((value + Pow2(k) - 1) % WORD, Pow2(k) - 1) == AndNot(value + Pow2(k) - 1, Pow2(k) - 1) % WORD
  {
    var x := value + Pow2(k) - 1;
    if x >= WORD {
      WordIsMultiple(k);
      MaskOfWrapped(x, k);
      WrapsOnce(x);
      WrapsOnce(WORD);
    } else {
      WrapsOnce(x);
      WrapsOnce(AndNot(x, Pow2(k) - 1));
    }
  }

  lemma WrapsOnce(x: nat)
    requires x < 2 * WORD
    ensures x % WORD == if x < WORD then x else x - WORD
  {
  }

  /** A sum that wraps around is rounded to 2^64, and what is left of it to zero. */
  lemma MaskOfWrapped(x: nat, k: nat)
    requires WORD <= x < WORD + Pow2(k) && WORD % Pow2(k) == 0
    ensures AndNot(x, Pow2(k) - 1) == WORD && AndNot(x - WORD, Pow2(k) - 1) == 0
  {
    var p := Pow2(k);
    DivisionEquation(WORD, p);
    RemainderUnique(x, p, WORD / p, x - WORD);
    RemainderUnique(x - WORD, p, 0, x - WORD);
    AndIsRemainder(x, k);
    AndIsRemainder(x - WORD, k);
    AndSplits(x, p - 1);
    AndSplits(x - WORD, p - 1);
  }

  lemma WordIsMultiple(k: nat)
    requires Pow2(k) < WORD
    ensures WORD % Pow2(k) == 0
  {
    PowerOfWord();
    if k > 64 {
      Pow2Grows(64, k);
    }
    Pow2Sum(k, 64 - k);
    RemainderUnique(WORD, Pow2(k), Pow2(64 - k), 0);
  }

  lemma PowerOfWord()
    ensures Pow2(64) == WORD
  {
    assert Pow2(8) == 0x100;
    Pow2Sum(8, 8);
    Pow2Sum(16, 16);
    assert Pow2(32) == 0x1_0000_0000;
    Pow2Sum(32, 32);
  }

  lemma LeastMultipleShift(r: nat, v: nat, a: nat, n: nat)
    requires LeastMultiple(r, v, a) && WORD % a == 0
    ensures LeastMultiple(r + WORD * n, v + WORD * n, a)
  {
    ShiftMultiple(r, a, n);
    forall m: nat | IsMultiple(m, a) && v + WORD * n <= m ensures r + WORD * n <= m {
      UnshiftMultiple(m - WORD * n, a, n);
    }
  }

  lemma ShiftMultiple(m: nat, a: nat, n: nat)
    requires IsMultiple(m, a) && WORD % a == 0
    ensures IsMultiple(m + WORD * n, a)
  {
    WordsAreMultiples(a, n);
    DivisionEquation(m, a);
    assert m + WORD * n == a * (m / a + WORD / a * n);
    RemainderUnique(m + WORD * n, a, m / a + WORD / a * n, 0);
  }

  lemma UnshiftMultiple(m: nat, a: nat, n: nat)
    requires IsMultiple(m + WORD * n, a) && WORD % a == 0
    ensures IsMultiple(m, a)
  {
    var q, p := WORD / a * n, (m + WORD * n) / a;
    WordsAreMultiples(a, n);
    DivisionEquation(m + WORD * n, a);
    assert m == a * (p - q);
    Quotient(m, a, p - q);
  }

  lemma Quotient(m: nat, a: nat, q: int)
    requires a > 0 && m == a * q
    ensures m % a == 0
  {
    if q >= 0 {
      RemainderUnique(m, a, q, 0);
    } else {
      MulAtLeast(a, -q);
    }
  }

  lemma WordsAreMultiples(a: nat, n: nat)
    requires a > 0 && WORD % a == 0
    ensures a * (WORD / a * n) == WORD * n
  {
    DivisionEquation(WORD, a);
    assert a * (WORD / a * n) == (a * (WORD / a)) * n;
  }

  lemma SmallPowers()
    ensures IsPow2(1) && IsPow2(2) && IsPow2(4) && IsPow2(8)
  {
    assert Pow2(0) == 1 && Pow2(1) == 2 && Pow2(2) == 4 && Pow2(3) == 8;
  }

  /** `align4`. */
  method Align4(value: u64, ghost exact: nat) returns (r: u64)
    requires value == exact % WORD
    ensures r == Least(exact, 4) % WORD
  {
    SmallPowers();
    r := AlignTo(value, 4, exact);
  }

  // ---- Contents ----

  function Slice(memory: seq<u8>, r: Region): seq<u8>
    requires r.End() <= |memory|
  {
    memory[r.offset..r.End()]
  }

  function Write(memory: seq<u8>, r: Region, data: seq<u8>): (m: seq<u8>)
    requires r.End() <= |memory| && |data| == r.size
    ensures |m| == |memory|
  {
    memory[..r.offset] + data + memory[r.End()..]
  }

  lemma WriteElsewhere(memory: seq<u8>, r: Region, data: seq<u8>, q: Region)
    requires r.End() <= |memory| && |data| == r.size && q.End() <= |memory| && Disjoint(r, q)
    ensures Slice(Write(memory, r, data), q) == Slice(memory, q)
  {
    var m := Write(memory, r, data);
    forall i | q.offset <= i < q.End() ensures m[i] == memory[i] {
    }
  }

  ghost predicate SizesMatch(regions: seq<Region>, data: seq<seq<u8>>) {
    |data| == |regions| && forall k | 0 <= k < |regions| :: |data[k]| == regions[k].size
  }

  /** The copies into a buffer, one after another. */
  ghost function WriteAll(memory: seq<u8>, regions: seq<Region>, data: seq<seq<u8>>): (m: seq<u8>)
    requires SizesMatch(regions, data) && forall r | r in regions :: r.End() <= |memory|
    ensures |m| == |memory|
    decreases |regions|
  {
    if regions == [] then memory
    else
      var n := |regions| - 1;
      Write(WriteAll(memory, regions[..n], data[..n]), regions[n], data[n])
  }

  /** Copies into disjoint regions do not overwrite each other: at the end every region holds its own data. */
  lemma {:induction false} EveryCopySurvives(memory: seq<u8>, regions: seq<Region>, data: seq<seq<u8>>, k: nat)
    requires SizesMatch(regions, data) && k < |regions|
    requires forall r | r in regions :: r.End() <= |memory|
    requires forall i, j | 0 <= i < j < |regions| :: Disjoint(regions[i], regions[j])
    ensures Slice(WriteAll(memory, regions, data), regions[k]) == data[k]
    decreases |regions|
  {
    var n := |regions| - 1;
    var before := WriteAll(memory, regions[..n], data[..n]);
    if k < n {
      assert regions[..n][k] == regions[k] && data[..n][k] == data[k];
      EveryCopySurvives(memory, regions[..n], data[..n], k);
      WriteElsewhere(before, regions[n], data[n], regions[k]);
    } else {
      assert Slice(Write(before, regions[n], data[n]), regions[n]) == data[n];
    }
  }
}
