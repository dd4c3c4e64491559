/** The descriptor pool the replay sizes from a contract: one entry per descriptor type, counting its bindings. */
module DescriptorPool {
  import opened MachineInts
  import opened Sequences
  import opened SpirvModule
  import opened SpirvContract

  datatype PoolSize = PoolSize(descriptorType: DescriptorType, descriptorCount: nat)

  /** How many bindings have the type. */
  function Count(bs: seq<Binding>, t: DescriptorType): nat {
    if bs == [] then 0
    else Count(bs[..|bs| - 1], t) + if bs[|bs| - 1].descriptorType == t then 1 else 0
  }

  /** The sum of the pool's counts: how many descriptors it can hand out. */
  function Capacity(pool: seq<PoolSize>): nat {
    if pool == [] then 0 else Capacity(pool[..|pool| - 1]) + pool[|pool| - 1].descriptorCount
  }

  /** `pool` is the histogram of `bs` by type: every type that occurs has exactly one entry, with its exact count. */
  ghost predicate Histogram(pool: seq<PoolSize>, bs: seq<Binding>) {
    && (forall j | 0 <= j < |pool| :: pool[j].descriptorCount == Count(bs, pool[j].descriptorType) > 0)
    && (forall i, j | 0 <= i < j < |pool| :: pool[i].descriptorType != pool[j].descriptorType)
    && (forall t | Count(bs, t) > 0 :: exists j :: 0 <= j < |pool| && pool[j].descriptorType == t)
  }

  lemma {:induction false} CapacityUpdate(pool: seq<PoolSize>, j: nat)
    requires j < |pool|
    ensures Capacity(pool[j := pool[j].(descriptorCount := pool[j].descriptorCount + 1)]) == Capacity(pool) + 1
  {
    var updated := pool[j := pool[j].(descriptorCount := pool[j].descriptorCount + 1)];
    if j < |pool| - 1 {
      CapacityUpdate(pool[..|pool| - 1], j);
      assert updated[..|pool| - 1] ==
             pool[..|pool| - 1][j := pool[j].(descriptorCount := pool[j].descriptorCount + 1)];
    } else {
      assert updated[..j] == pool[..j];
    }
  }

  lemma CountSnoc(bs: seq<Binding>, b: Binding, t: DescriptorType)
    ensures Count(bs + [b], t) == Count(bs, t) + if b.descriptorType == t then 1 else 0
  {
    assert (bs + [b])[..|bs|] == bs;
  }

  /** The search for the pool entry of a type. */
  method FindType(sizes: array<PoolSize>, poolCount: nat, t: DescriptorType) returns (j: nat)
    requires poolCount <= sizes.Length
    ensures j <= poolCount
    ensures forall k | 0 <= k < j :: sizes[k].descriptorType != t
    ensures j < poolCount ==> sizes[j].descriptorType == t
  {
    j := 0;
    while j < poolCount && sizes[j].descriptorType != t
      invariant 0 <= j <= poolCount
      invariant forall k | 0 <= k < j :: sizes[k].descriptorType != t
    {
      j := j + 1;
    }
  }

  /** The pool after one more binding of type `t`, whose entry is at `j` if there is one. */
  function Counted(pool: seq<PoolSize>, t: DescriptorType, j: nat): seq<PoolSize>
    requires j <= |pool|
  {
    if j == |pool| then pool + [PoolSize(t, 1)]
    else pool[j := pool[j].(descriptorCount := pool[j].descriptorCount + 1)]
  }

  /** Increments the entry at `j`, or appends a new one. */
  method Increment(sizes: array<PoolSize>, poolCount: nat, t: DescriptorType, j: nat) returns (count: nat)
    requires j <= poolCount < sizes.Length
    modifies sizes
    ensures count == if j == poolCount then poolCount + 1 else poolCount
    ensures sizes[..count] == Counted(old(sizes[..poolCount]), t, j)
  {
    count := poolCount;
    if j == poolCount {
      sizes[poolCount] := PoolSize(t, 1);
      count := poolCount + 1;
    } else {
      sizes[j] := sizes[j].(descriptorCount := sizes[j].descriptorCount + 1);
    }
  }

  /** The pool of some bindings: their histogram, with as many descriptors as there are bindings. */
  ghost predicate IsPool(pool: seq<PoolSize>, bs: seq<Binding>) {
    Histogram(pool, bs) && Capacity(pool) == |bs|
  }

  /** One turn of the loop: the entry of the type is looked up, and counts one more binding. */
  method CountBinding(sizes: array<PoolSize>, poolCount: nat, ghost bs: seq<Binding>, b: Binding) returns (count: nat)
    requires poolCount < sizes.Length && IsPool(sizes[..poolCount], bs)
    modifies sizes
    ensures poolCount <= count <= poolCount + 1
    ensures IsPool(sizes[..count], bs + [b])
  {
    var t := b.descriptorType;
    ghost var before := sizes[..poolCount];
    var j := FindType(sizes, poolCount, t);
    assert forall k | 0 <= k < poolCount :: before[k] == sizes[k];
    HistogramStep(before, bs, b, j);
    CapacityStep(before, t, j);
    count := Increment(sizes, poolCount, t, j);
  }

  /** The loop of `replay_one` over the contract's bindings. */
  method SizePool(bindings: seq<Binding>) returns (pool: seq<PoolSize>)
    requires |bindings| <= MAX_SHADER_BINDINGS
    ensures Histogram(pool, bindings)
    ensures Capacity(pool) == |bindings|
    ensures |pool| <= |bindings|
  {
    var sizes := new PoolSize[MAX_SHADER_BINDINGS](_ => PoolSize(Sampler, 0));
    var poolCount := 0;
    var i := 0;
    while i < |bindings|
      invariant 0 <= i <= |bindings| && poolCount <= i
      invariant IsPool(sizes[..poolCount], bindings[..i])
    {
      assert bindings[..i + 1] == bindings[..i] + [bindings[i]];
      poolCount := CountBinding(sizes, poolCount, bindings[..i], bindings[i]);
      i := i + 1;
    }
    assert bindings[..i] == bindings;
    pool := sizes[..poolCount];
  }

  lemma CapacityStep(pool: seq<PoolSize>, t: DescriptorType, j: nat)
    requires j <= |pool|
    ensures Capacity(Counted(pool, t, j)) == Capacity(pool) + 1
  {
    if j == |pool| {
      assert (pool + [PoolSize(t, 1)])[..|pool|] == pool;
    } else {
      CapacityUpdate(pool, j);
    }
  }

  lemma HistogramStep(pool: seq<PoolSize>, bs: seq<Binding>, b: Binding, j: nat)
    requires Histogram(pool, bs) && j <= |pool|
    requires forall k | 0 <= k < j :: pool[k].descriptorType != b.descriptorType
    requires j < |pool| ==> pool[j].descriptorType == b.descriptorType
    ensures Histogram(Counted(pool, b.descriptorType, j), bs + [b])
  {
    var updated := Counted(pool, b.descriptorType, j);
    forall k | 0 <= k < |updated|
      ensures updated[k].descriptorCount == Count(bs + [b], updated[k].descriptorType) > 0
    {
      CountSnoc(bs, b, updated[k].descriptorType);
      if j == |pool| && k == j {
        NotListed(pool, bs, b.descriptorType);
      }
    }
    EveryTypeIsListed(pool, bs, b, j);
  }

  lemma NotListed(pool: seq<PoolSize>, bs: seq<Binding>, t: DescriptorType)
    requires Histogram(pool, bs) && forall k | 0 <= k < |pool| :: pool[k].descriptorType != t
    ensures Count(bs, t) == 0
  {
  }

  lemma EveryTypeIsListed(pool: seq<PoolSize>, bs: seq<Binding>, b: Binding, j: nat)
    requires Histogram(pool, bs) && j <= |pool| && (j < |pool| ==> pool[j].descriptorType == b.descriptorType)
    ensures var updated := Counted(pool, b.descriptorType, j);
            forall t | Count(bs + [b], t) > 0 :: exists k :: 0 <= k < |updated| && updated[k].descriptorType == t
  {
    var updated := Counted(pool, b.descriptorType, j);
    forall t | Count(bs + [b], t) > 0 ensures exists k :: 0 <= k < |updated| && updated[k].descriptorType == t {
      CountSnoc(bs, b, t);
      if t == b.descriptorType {
        assert updated[j].descriptorType == t;
      } else {
        var k :| 0 <= k < |pool| && pool[k].descriptorType == t;
        assert updated[k].descriptorType == t;
      }
    }
  }

  /** A histogram of a contract's bindings does not depend on how the sort ordered them. */
  lemma {:induction false} CountOrderFree(a: seq<Binding>, b: seq<Binding>, t: DescriptorType)
    requires multiset(a) == multiset(b)
    ensures Count(a, t) == Count(b, t)
    decreases |a|
  {
    if a == [] {
      assert |b| == |multiset(b)| == |multiset(a)| == 0;
    } else {
      var k := TakeOut(a, b);
      var last, left, right := a[|a| - 1], b[..k], b[k + 1..];
      CountOrderFree(a[..|a| - 1], left + right, t);
      CountAppend(left, right, t);
      CountAppend(left, [last], t);
      CountAppend(left + [last], right, t);
    }
  }

  lemma {:induction false} CountAppend(a: seq<Binding>, b: seq<Binding>, t: DescriptorType)
    ensures Count(a + b, t) == Count(a, t) + Count(b, t)
  {
    if b == [] {
      assert a + b == a;
    } else {
      assert (a + b)[..|a + b| - 1] == a + b[..|b| - 1];
      CountAppend(a, b[..|b| - 1], t);
    }
  }

  /** Every contract the reflection accepts can be served: the output names one of its storage bindings, so the replay
      always finds an output image or an output buffer, and any pool sized for it has an entry of that type. */
  lemma OutputIsServed(c: Contract, p: seq<Instruction>, bound: u32, pool: seq<PoolSize>)
    requires Describes(c, p, bound) && c.outputBinding >= 0 && Histogram(pool, c.bindings)
    ensures exists b, j | b in c.bindings && 0 <= j < |pool| ::
              Storage(b) && AsSigned32(b.binding) == c.outputBinding && pool[j].descriptorType == b.descriptorType
  {
    var kept := Kept(p, bound);
    var i := IndexOfPreferred(kept);
    var k := if i < |kept| then i else IndexOfStorage(kept);
    var b := kept[k];
    assert b in multiset(c.bindings);
    var at :| 0 <= at < |c.bindings| && c.bindings[at] == b;
    CountPositive(c.bindings, at);
  }

  lemma {:induction false} CountPositive(bs: seq<Binding>, at: nat)
    requires at < |bs|
    ensures Count(bs, bs[at].descriptorType) > 0
  {
    if at < |bs| - 1 {
      CountPositive(bs[..|bs| - 1], at);
    }
  }
}
