/** What a SPIR-V module says about its descriptors, stated over the instruction list: for every id and every fact
    about it, the last instruction that states the fact decides. */
module SpirvContract {
  import opened MachineInts
  import opened Sequences
  import opened Wrappers
  import opened SpirvModule

  const OP_TYPE_IMAGE := 25
  const OP_TYPE_SAMPLER := 26
  const OP_TYPE_SAMPLED_IMAGE := 27
  const OP_TYPE_POINTER := 32
  const OP_VARIABLE := 59
  const OP_DECORATE := 71

  const DECORATION_SPEC_ID: u32 := 1
  const DECORATION_NON_READABLE: u32 := 25
  const DECORATION_BINDING: u32 := 33
  const DECORATION_DESCRIPTOR_SET: u32 := 34

  const STORAGE_UNIFORM_CONSTANT: u32 := 0
  const STORAGE_STORAGE_BUFFER: u32 := 12

  const MAX_BOUND: u32 := 65536
  const MAX_SHADER_BINDINGS := 16

  const KIND_NONE: u32 := 0
  const KIND_IMAGE: u32 := 1
  const KIND_SAMPLER: u32 := 2
  const KIND_SAMPLED_IMAGE: u32 := 3
  const KIND_POINTER: u32 := 4

  /** The facts the reflection records about an id. */
  datatype Fact = Kind | Sampled | Pointee | VariableType | VariableStorage | BindingNumber | SetNumber | NonReadable

  /** What `ins` states about `fact` of `id`, if anything. */
  function Stated(ins: Instruction, fact: Fact, id: u32): Option<u32>
  {
    if |ins| < 2 then None
    else
      var op := Opcode(ins[0]);
      match fact
      case Kind =>
        if ins[1] != id then None
        else if op == OP_TYPE_IMAGE && |ins| >= 9 then Some(KIND_IMAGE)
        else if op == OP_TYPE_SAMPLER then Some(KIND_SAMPLER)
        else if op == OP_TYPE_SAMPLED_IMAGE && |ins| >= 3 then Some(KIND_SAMPLED_IMAGE)
        else if op == OP_TYPE_POINTER && |ins| >= 4 then Some(KIND_POINTER)
        else None
      case Sampled =>
        if ins[1] == id && op == OP_TYPE_IMAGE && |ins| >= 9 then Some(ins[7]) else None
      case Pointee =>
        if ins[1] != id then None
        else if op == OP_TYPE_SAMPLED_IMAGE && |ins| >= 3 then Some(ins[2])
        else if op == OP_TYPE_POINTER && |ins| >= 4 then Some(ins[3])
        else None
      case VariableType =>
        if op == OP_VARIABLE && |ins| >= 4 && ins[2] == id then Some(ins[1]) else None
      case VariableStorage =>
        if op == OP_VARIABLE && |ins| >= 4 && ins[2] == id then Some(ins[3]) else None
      case BindingNumber =>
        if op == OP_DECORATE && |ins| >= 4 && ins[1] == id && ins[2] == DECORATION_BINDING then Some(ins[3]) else None
      case SetNumber =>
        if op == OP_DECORATE && |ins| >= 4 && ins[1] == id && ins[2] == DECORATION_DESCRIPTOR_SET
        then Some(ins[3]) else None
      case NonReadable =>
        if op == OP_DECORATE && |ins| >= 3 && ins[1] == id && ins[2] == DECORATION_NON_READABLE then Some(1) else None
  }

  /** The last word on `fact` of `id` in the instruction list. */
  function LastStated(p: seq<Instruction>, fact: Fact, id: u32): Option<u32> {
    if p == [] then None
    else
      var last := Stated(p[|p| - 1], fact, id);
      if last.Some? then last else LastStated(p[..|p| - 1], fact, id)
  }

  function Or(o: Option<u32>, default: u32): u32 {
    if o.Some? then o.value else default
  }

  /** One row of the id-indexed tables. */
  datatype Entry = Entry(kind: u32, sampled: u32, pointee: u32, valid: bool, varType: u32, varStorage: u32,
                         binding: u32, descriptorSet: u32, nonReadable: bool)

  const BLANK := Entry(KIND_NONE, 0, 0, false, 0, 0, UINT32_MAX, UINT32_MAX, false)

  function EntryOf(p: seq<Instruction>, id: u32): Entry {
    Entry(Or(LastStated(p, Kind, id), KIND_NONE), Or(LastStated(p, Sampled, id), 0), Or(LastStated(p, Pointee, id), 0),
          LastStated(p, VariableType, id).Some?, Or(LastStated(p, VariableType, id), 0),
          Or(LastStated(p, VariableStorage, id), 0), Or(LastStated(p, BindingNumber, id), UINT32_MAX),
          Or(LastStated(p, SetNumber, id), UINT32_MAX), LastStated(p, NonReadable, id).Some?)
  }

  function Table(p: seq<Instruction>, bound: u32): seq<Entry> {
    seq(bound, id requires 0 <= id < bound => EntryOf(p, id))
  }

  datatype DescriptorType = Sampler | SampledImage | CombinedImageSampler | StorageImage | StorageBuffer

  datatype Binding = Binding(binding: u32, descriptorType: DescriptorType, nonReadable: bool)

  /** The descriptor type a resolved pointee stands for; `None` for what the replay does not support. */
  function DescriptorTypeFor(pointee: Entry, storage: u32): Option<DescriptorType> {
    if storage == STORAGE_STORAGE_BUFFER then Some(StorageBuffer)
    else if storage != STORAGE_UNIFORM_CONSTANT then None
    else if pointee.kind == KIND_SAMPLER then Some(Sampler)
    else if pointee.kind == KIND_SAMPLED_IMAGE then Some(CombinedImageSampler)
    else if pointee.kind == KIND_IMAGE && pointee.sampled == 1 then Some(SampledImage)
    else if pointee.kind == KIND_IMAGE && pointee.sampled == 2 then Some(StorageImage)
    else None
  }

  /** The binding declared by `id`: a variable in set 0 with a binding number whose type is a pointer to a
      supported type. */
  function Declared(table: seq<Entry>, id: nat): Option<Binding>
    requires id < |table|
  {
    var e := table[id];
    if !e.valid || e.binding == UINT32_MAX || e.descriptorSet != 0 then None
    else if e.varType >= |table| || table[e.varType].kind != KIND_POINTER then None
    else if table[e.varType].pointee >= |table| then None
    else
      match DescriptorTypeFor(table[table[e.varType].pointee], e.varStorage)
      case None => None
      case Some(t) => Some(Binding(e.binding, t, e.nonReadable))
  }

  /** The declared bindings of the ids below `n`, in id order. */
  function DeclaredBelow(table: seq<Entry>, n: nat): seq<Binding>
    requires n <= |table|
  {
    if n == 0 then []
    else
      var before := DeclaredBelow(table, n - 1);
      match Declared(table, n - 1)
      case None => before
      case Some(b) => before + [b]
  }

  function First16<T>(s: seq<T>): (r: seq<T>)
    ensures r <= s && |r| == if |s| <= MAX_SHADER_BINDINGS then |s| else MAX_SHADER_BINDINGS
  {
    if |s| <= MAX_SHADER_BINDINGS then s else s[..MAX_SHADER_BINDINGS]
  }

  /** The bindings the contract keeps. */
  function Kept(p: seq<Instruction>, bound: u32): seq<Binding> {
    First16(DeclaredBelow(Table(p, bound), bound))
  }

  predicate Preferred(b: Binding) {
    b.descriptorType == StorageImage && b.nonReadable && b.binding < 0x8000_0000
  }

  predicate Storage(b: Binding) {
    b.descriptorType == StorageImage || b.descriptorType == StorageBuffer
  }

  function IndexOfPreferred(bs: seq<Binding>): (i: nat)
    ensures i <= |bs|
    ensures forall k | 0 <= k < i :: !Preferred(bs[k])
    ensures i < |bs| ==> Preferred(bs[i])
  {
    if bs == [] then 0 else if Preferred(bs[0]) then 0 else 1 + IndexOfPreferred(bs[1..])
  }

  function IndexOfStorage(bs: seq<Binding>): (i: nat)
    ensures i <= |bs|
    ensures forall k | 0 <= k < i :: !Storage(bs[k])
    ensures i < |bs| ==> Storage(bs[i])
  {
    if bs == [] then 0 else if Storage(bs[0]) then 0 else 1 + IndexOfStorage(bs[1..])
  }

  /** The output: the first NonReadable storage image whose number fits an `int`, else the first storage resource;
      negative when there is none that fits. */
  function ChosenOutput(bs: seq<Binding>): (out: int)
  {
    var i := IndexOfPreferred(bs);
    if i < |bs| then bs[i].binding
    else
      var j := IndexOfStorage(bs);
      if j < |bs| then AsSigned32(bs[j].binding) else -1
  }

  /** The SpecId an instruction decorates an id below `bound` with. */
  function SpecIdOf(ins: Instruction, bound: u32): Option<u32> {
    if |ins| >= 4 && Opcode(ins[0]) == OP_DECORATE && ins[1] < bound && ins[2] == DECORATION_SPEC_ID
    then Some(ins[3]) else None
  }

  function SpecIds(p: seq<Instruction>, bound: u32): seq<u32> {
    if p == [] then []
    else
      var before := SpecIds(p[..|p| - 1], bound);
      match SpecIdOf(p[|p| - 1], bound)
      case None => before
      case Some(x) => before + [x]
  }

  predicate Sorted(bs: seq<Binding>) {
    forall i, j | 0 <= i < j < |bs| :: bs[i].binding <= bs[j].binding
  }

  datatype Contract = Contract(bindings: seq<Binding>, outputBinding: int, specIds: seq<u32>)

  predicate HeaderOk(words: seq<u32>) {
    |words| >= HEADER_WORDS && words[0] == MAGIC && 0 < words[3] <= MAX_BOUND
  }

  /** The instruction list of a module with a good header, if its words can be walked. */
  function Instructions(words: seq<u32>): Option<seq<Instruction>>
    requires HeaderOk(words)
  {
    Parse(words[HEADER_WORDS..])
  }

  /** Reflection succeeds: the module can be walked and it has an output whose number fits an `int`. */
  predicate Reflects(words: seq<u32>) {
    && HeaderOk(words)
    && Instructions(words).Some?
    && ChosenOutput(Kept(Instructions(words).value, words[3])) >= 0
  }

  /** `c` describes the module: its bindings are a sorted permutation of the kept ones. */
  predicate Describes(c: Contract, p: seq<Instruction>, bound: u32) {
    && multiset(c.bindings) == multiset(Kept(p, bound))
    && Sorted(c.bindings)
    && c.outputBinding == ChosenOutput(Kept(p, bound))
    && c.specIds == First16(SpecIds(p, bound))
  }

  // ---- The last word and the order of the instructions ----

  /** The last word is the word of some instruction, and there is none only if no instruction speaks. */
  lemma {:induction false} LastStatedIsStated(p: seq<Instruction>, fact: Fact, id: u32)
    ensures LastStated(p, fact, id).Some? ==>
              exists ins | ins in p :: Stated(ins, fact, id) == LastStated(p, fact, id)
    ensures LastStated(p, fact, id).None? ==> forall ins | ins in p :: Stated(ins, fact, id).None?
  {
    if p != [] {
      var last := p[|p| - 1];
      assert last in p;
      if Stated(last, fact, id).None? {
        var before := p[..|p| - 1];
        LastStatedIsStated(before, fact, id);
        assert p == before + [last];
        assert forall ins | ins in before :: ins in p;
      }
    }
  }

  /** No two instructions disagree about a fact of an id. Modules without two type declarations, two variables or
      two decorations of the same kind for one id meet this. */
  predicate Agree(ins: Instruction, other: Instruction, fact: Fact, id: u32) {
    Stated(ins, fact, id).Some? && Stated(other, fact, id).Some? ==> Stated(ins, fact, id) == Stated(other, fact, id)
  }

  ghost predicate Consistent(p: seq<Instruction>) {
    forall ins, other, fact, id: u32 | ins in p && other in p :: Agree(ins, other, fact, id)
  }

  /** With no disagreement the last word does not depend on the order of the instructions. */
  lemma LastStatedOrderFree(p: seq<Instruction>, q: seq<Instruction>, fact: Fact, id: u32)
    requires multiset(p) == multiset(q) && Consistent(p)
    ensures LastStated(p, fact, id) == LastStated(q, fact, id)
  {
    LastStatedIsStated(p, fact, id);
    LastStatedIsStated(q, fact, id);
    assert forall ins :: ins in p <==> ins in multiset(p);
    assert forall ins :: ins in q <==> ins in multiset(q);
    if LastStated(p, fact, id).Some? && LastStated(q, fact, id).Some? {
      var ins :| ins in p && Stated(ins, fact, id) == LastStated(p, fact, id);
      var other :| other in q && Stated(other, fact, id) == LastStated(q, fact, id);
      assert Agree(ins, other, fact, id);
    }
  }

  lemma EntryOrderFree(p: seq<Instruction>, q: seq<Instruction>, id: u32)
    requires multiset(p) == multiset(q) && Consistent(p)
    ensures EntryOf(p, id) == EntryOf(q, id)
  {
    forall fact: Fact ensures LastStated(p, fact, id) == LastStated(q, fact, id) {
      LastStatedOrderFree(p, q, fact, id);
    }
  }

  lemma TableOrderFree(p: seq<Instruction>, q: seq<Instruction>, bound: u32)
    requires multiset(p) == multiset(q) && Consistent(p)
    ensures Table(p, bound) == Table(q, bound)
  {
    forall id: u32 | id < bound ensures EntryOf(p, id) == EntryOf(q, id) {
      EntryOrderFree(p, q, id);
    }
  }

  lemma {:induction false} SpecIdsAppend(p: seq<Instruction>, q: seq<Instruction>, bound: u32)
    ensures SpecIds(p + q, bound) == SpecIds(p, bound) + SpecIds(q, bound)
  {
    if q == [] {
      assert p + q == p;
    } else {
      var init := q[..|q| - 1];
      assert (p + q)[..|p + q| - 1] == p + init;
      SpecIdsAppend(p, init, bound);
    }
  }

  /** The SpecIds, as a multiset, never depend on the order of the instructions. */
  lemma {:induction false} SpecIdsOrderFree(p: seq<Instruction>, q: seq<Instruction>, bound: u32)
    requires multiset(p) == multiset(q)
    ensures multiset(SpecIds(p, bound)) == multiset(SpecIds(q, bound))
    decreases |p|
  {
    if p == [] {
      assert |q| == |multiset(q)| == |multiset(p)| == 0;
    } else {
      var k := TakeOut(p, q);
      var init, last, left, right := p[..|p| - 1], p[|p| - 1], q[..k], q[k + 1..];
      assert p == init + [last];
      SpecIdsOrderFree(init, left + right, bound);
      SpecIdsAppend(init, [last], bound);
      SpecIdsAppend(left, right, bound);
      SpecIdsAppend(left, [last], bound);
      SpecIdsAppend(left + [last], right, bound);
    }
  }

  /** Reordering the instructions of a module without disagreements changes neither success nor the output nor which
      bindings are kept. */
  lemma ReflectionOrderFree(words: seq<u32>, reordered: seq<u32>, p: seq<Instruction>, q: seq<Instruction>)
    requires HeaderOk(words) && HeaderOk(reordered) && words[3] == reordered[3]
    requires AllWellFormed(p) && words[HEADER_WORDS..] == Flatten(p)
    requires AllWellFormed(q) && reordered[HEADER_WORDS..] == Flatten(q)
    requires multiset(p) == multiset(q) && Consistent(p)
    ensures Reflects(words) <==> Reflects(reordered)
    ensures Kept(p, words[3]) == Kept(q, words[3])
  {
    ParseFlatten(p);
    ParseFlatten(q);
    TableOrderFree(p, q, words[3]);
  }

  /** Any two contracts for the two orders agree: the same bindings with the same numbers in the same places, so only
      bindings that share a number may change places; the same output; and the same SpecIds if none was dropped. */
  lemma ContractsOrderFree(c: Contract, d: Contract, p: seq<Instruction>, q: seq<Instruction>, bound: u32)
    requires multiset(p) == multiset(q) && Consistent(p)
    requires Describes(c, p, bound) && Describes(d, q, bound)
    ensures multiset(c.bindings) == multiset(d.bindings)
    ensures Numbers(c.bindings) == Numbers(d.bindings)
    ensures c.outputBinding == d.outputBinding
    ensures |SpecIds(p, bound)| <= MAX_SHADER_BINDINGS ==> multiset(c.specIds) == multiset(d.specIds)
  {
    TableOrderFree(p, q, bound);
    SpecIdsOrderFree(p, q, bound);
    var ps, qs := SpecIds(p, bound), SpecIds(q, bound);
    assert |ps| == |multiset(ps)| && |qs| == |multiset(qs)|;
    NumbersOrderFree(c.bindings, d.bindings);
    SortedNumbersOf(c.bindings);
    SortedNumbersOf(d.bindings);
    SortedUnique(Numbers(c.bindings), Numbers(d.bindings));
  }

  // ---- Sorting ----

  function Numbers(a: seq<Binding>): (r: seq<u32>)
    ensures |r| == |a|
  {
    if a == [] then [] else Numbers(a[..|a| - 1]) + [a[|a| - 1].binding]
  }

  lemma {:induction false} NumberAt(a: seq<Binding>, k: nat)
    requires k < |a|
    ensures Numbers(a)[k] == a[k].binding
  {
    if k < |a| - 1 {
      NumberAt(a[..|a| - 1], k);
    }
  }

  lemma {:induction false} NumbersAppend(a: seq<Binding>, b: seq<Binding>)
    ensures Numbers(a + b) == Numbers(a) + Numbers(b)
  {
    if b == [] {
      assert a + b == a;
    } else {
      assert (a + b)[..|a + b| - 1] == a + b[..|b| - 1];
      NumbersAppend(a, b[..|b| - 1]);
    }
  }

  lemma {:induction false} NumbersOrderFree(a: seq<Binding>, b: seq<Binding>)
    requires multiset(a) == multiset(b)
    ensures multiset(Numbers(a)) == multiset(Numbers(b))
    decreases |a|
  {
    if a == [] {
      assert |b| == |multiset(b)| == |multiset(a)| == 0;
    } else {
      var k := TakeOut(a, b);
      var init, last, left, right := a[..|a| - 1], a[|a| - 1], b[..k], b[k + 1..];
      NumbersOrderFree(init, left + right);
      NumbersAppend(left, right);
      NumbersAppend(left, [last]);
      NumbersAppend(left + [last], right);
    }
  }

  ghost predicate SortedNumbers(x: seq<u32>) {
    forall i, j | 0 <= i < j < |x| :: x[i] <= x[j]
  }

  lemma SortedNumbersOf(a: seq<Binding>)
    requires Sorted(a)
    ensures SortedNumbers(Numbers(a))
  {
    forall i, j | 0 <= i < j < |a| ensures Numbers(a)[i] <= Numbers(a)[j] {
      NumberAt(a, i);
      NumberAt(a, j);
    }
  }

  lemma LastIsLargest(x: seq<u32>, y: seq<u32>)
    requires multiset(x) == multiset(y) && x != [] && y != []
    requires SortedNumbers(y)
    ensures x[|x| - 1] <= y[|y| - 1]
  {
    assert x[|x| - 1] in multiset(y);
    assert x[|x| - 1] in y;
  }

  lemma DropLast(x: seq<u32>)
    requires x != []
    ensures multiset(x[..|x| - 1]) == multiset(x) - multiset{x[|x| - 1]}
  {
    assert x == x[..|x| - 1] + [x[|x| - 1]];
  }

  /** A multiset of numbers has only one sorted arrangement. */
  lemma {:induction false} SortedUnique(x: seq<u32>, y: seq<u32>)
    requires multiset(x) == multiset(y)
    requires SortedNumbers(x) && SortedNumbers(y)
    ensures x == y
    decreases |x|
  {
    assert |x| == |multiset(x)| && |y| == |multiset(y)|;
    if x != [] {
      SameLast(x, y);
      SortedUnique(x[..|x| - 1], y[..|y| - 1]);
      assert x == x[..|x| - 1] + [x[|x| - 1]] && y == y[..|y| - 1] + [y[|y| - 1]];
    }
  }

  lemma SameLast(x: seq<u32>, y: seq<u32>)
    requires multiset(x) == multiset(y) && |x| == |y| > 0 && SortedNumbers(x) && SortedNumbers(y)
    ensures x[|x| - 1] == y[|y| - 1] && multiset(x[..|x| - 1]) == multiset(y[..|y| - 1])
  {
    LastIsLargest(x, y);
    LastIsLargest(y, x);
    DropLast(x);
    DropLast(y);
  }
}
