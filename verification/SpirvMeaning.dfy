/** What a reflected contract says in the terms of the SPIR-V Specification (sections 3.32.2, 3.32.6 and 3.32.8 for
    types, pointers and variables, 3.20 for decorations): opcodes, operand words and decorations are written out. */
module SpirvMeaning {
  import opened MachineInts
  import opened Wrappers
  import opened SpirvModule
  import opened SpirvContract

  // ---- Instructions, word by word ----

  /** An instruction with this opcode and at least this many words. */
  predicate Is(ins: Instruction, opcode: u32, words: nat) {
    |ins| >= words >= 1 && ins[0] % 0x1_0000 == opcode
  }

  predicate TypesImage(ins: Instruction, id: u32, sampled: u32) {
    Is(ins, 25, 9) && ins[1] == id && ins[7] == sampled
  }

  predicate TypesSampler(ins: Instruction, id: u32) {
    Is(ins, 26, 2) && ins[1] == id
  }

  predicate TypesSampledImage(ins: Instruction, id: u32) {
    Is(ins, 27, 3) && ins[1] == id
  }

  predicate TypesPointer(ins: Instruction, id: u32, pointee: u32) {
    Is(ins, 32, 4) && ins[1] == id && ins[3] == pointee
  }

  predicate DeclaresVariable(ins: Instruction, id: u32, pointer: u32, storage: u32) {
    Is(ins, 59, 4) && ins[1] == pointer && ins[2] == id && ins[3] == storage
  }

  predicate Decorates(ins: Instruction, id: u32, decoration: u32, value: u32) {
    Is(ins, 71, 4) && ins[1] == id && ins[2] == decoration && ins[3] == value
  }

  predicate DecoratesNonReadable(ins: Instruction, id: u32) {
    Is(ins, 71, 3) && ins[1] == id && ins[2] == 25
  }

  predicate HasImage(p: seq<Instruction>, id: u32, sampled: u32) {
    exists ins | ins in p :: TypesImage(ins, id, sampled)
  }

  predicate HasSampler(p: seq<Instruction>, id: u32) {
    exists ins | ins in p :: TypesSampler(ins, id)
  }

  predicate HasSampledImage(p: seq<Instruction>, id: u32) {
    exists ins | ins in p :: TypesSampledImage(ins, id)
  }

  predicate HasPointer(p: seq<Instruction>, id: u32, pointee: u32) {
    exists ins | ins in p :: TypesPointer(ins, id, pointee)
  }

  predicate HasVariable(p: seq<Instruction>, id: u32, pointer: u32, storage: u32) {
    exists ins | ins in p :: DeclaresVariable(ins, id, pointer, storage)
  }

  predicate HasDecoration(p: seq<Instruction>, id: u32, decoration: u32, value: u32) {
    exists ins | ins in p :: Decorates(ins, id, decoration, value)
  }

  predicate IsNonReadable(p: seq<Instruction>, id: u32) {
    exists ins | ins in p :: DecoratesNonReadable(ins, id)
  }

  /** What a variable of this storage class that points to `pointee` is to a descriptor set: anything in class 12 is a
      storage buffer; in class 0, a sampler, a sampled image, an image that is sampled (1) or one that is stored to
      (2). */
  predicate IsResource(p: seq<Instruction>, pointee: u32, storage: u32, t: DescriptorType) {
    match t
    case StorageBuffer => storage == 12
    case Sampler => storage == 0 && HasSampler(p, pointee)
    case CombinedImageSampler => storage == 0 && HasSampledImage(p, pointee)
    case SampledImage => storage == 0 && HasImage(p, pointee, 1)
    case StorageImage => storage == 0 && HasImage(p, pointee, 2)
  }

  /** The module declares this binding as variable `id`, in descriptor set 0. */
  ghost predicate Declares(p: seq<Instruction>, bound: u32, id: u32, b: Binding) {
    && HasDecoration(p, id, 33, b.binding) && b.binding != 0xFFFF_FFFF && HasDecoration(p, id, 34, 0)
    && (b.nonReadable <==> IsNonReadable(p, id))
    && exists pointer: u32, pointee: u32, storage: u32 ::
         && HasVariable(p, id, pointer, storage) && HasPointer(p, pointer, pointee)
         && pointer < bound && pointee < bound && IsResource(p, pointee, storage, b.descriptorType)
  }

  // ---- The tables say the same ----

  /** In a consistent module the last word on a fact is any word on it. */
  lemma WordIff(p: seq<Instruction>, fact: Fact, id: u32, v: u32)
    requires Consistent(p)
    ensures LastStated(p, fact, id) == Some(v) <==> exists ins | ins in p :: Stated(ins, fact, id) == Some(v)
  {
    LastStatedIsStated(p, fact, id);
    if ins :| ins in p && Stated(ins, fact, id) == Some(v) {
      var other :| other in p && Stated(other, fact, id) == LastStated(p, fact, id);
      assert Agree(ins, other, fact, id);
    }
  }

  lemma ImageIff(p: seq<Instruction>, id: u32, sampled: u32)
    requires Consistent(p) && sampled != 0
    ensures EntryOf(p, id).kind == KIND_IMAGE && EntryOf(p, id).sampled == sampled <==> HasImage(p, id, sampled)
  {
    WordIff(p, Kind, id, KIND_IMAGE);
    WordIff(p, Sampled, id, sampled);
    if HasImage(p, id, sampled) {
      var ins :| ins in p && TypesImage(ins, id, sampled);
      assert Stated(ins, Kind, id) == Some(KIND_IMAGE) && Stated(ins, Sampled, id) == Some(sampled);
    }
    if EntryOf(p, id).sampled == sampled {
      var ins :| ins in p && Stated(ins, Sampled, id) == Some(sampled);
      assert TypesImage(ins, id, sampled);
    }
  }

  lemma SamplerIff(p: seq<Instruction>, id: u32)
    requires Consistent(p)
    ensures EntryOf(p, id).kind == KIND_SAMPLER <==> HasSampler(p, id)
  {
    WordIff(p, Kind, id, KIND_SAMPLER);
    if ins :| ins in p && Stated(ins, Kind, id) == Some(KIND_SAMPLER) {
      assert TypesSampler(ins, id);
    }
    if ins :| ins in p && TypesSampler(ins, id) {
      assert Stated(ins, Kind, id) == Some(KIND_SAMPLER);
    }
  }

  lemma SampledImageIff(p: seq<Instruction>, id: u32)
    requires Consistent(p)
    ensures EntryOf(p, id).kind == KIND_SAMPLED_IMAGE <==> HasSampledImage(p, id)
  {
    WordIff(p, Kind, id, KIND_SAMPLED_IMAGE);
    if ins :| ins in p && Stated(ins, Kind, id) == Some(KIND_SAMPLED_IMAGE) {
      assert TypesSampledImage(ins, id);
    }
    if ins :| ins in p && TypesSampledImage(ins, id) {
      assert Stated(ins, Kind, id) == Some(KIND_SAMPLED_IMAGE);
    }
  }

  lemma PointerIff(p: seq<Instruction>, id: u32, pointee: u32)
    requires Consistent(p)
    ensures EntryOf(p, id).kind == KIND_POINTER && EntryOf(p, id).pointee == pointee <==> HasPointer(p, id, pointee)
  {
    WordIff(p, Kind, id, KIND_POINTER);
    WordIff(p, Pointee, id, pointee);
    if ins :| ins in p && TypesPointer(ins, id, pointee) {
      assert Stated(ins, Kind, id) == Some(KIND_POINTER) && Stated(ins, Pointee, id) == Some(pointee);
    }
    if EntryOf(p, id).kind == KIND_POINTER && EntryOf(p, id).pointee == pointee {
      var ins :| ins in p && Stated(ins, Kind, id) == Some(KIND_POINTER);
      WordIff(p, Pointee, id, ins[3]);
      assert Stated(ins, Pointee, id) == Some(ins[3]);
      assert TypesPointer(ins, id, pointee);
    }
  }

  lemma VariableIff(p: seq<Instruction>, id: u32, pointer: u32, storage: u32)
    requires Consistent(p)
    ensures EntryOf(p, id).valid && EntryOf(p, id).varType == pointer && EntryOf(p, id).varStorage == storage <==>
            HasVariable(p, id, pointer, storage)
  {
    WordIff(p, VariableType, id, pointer);
    WordIff(p, VariableStorage, id, storage);
    if ins :| ins in p && DeclaresVariable(ins, id, pointer, storage) {
      assert Stated(ins, VariableType, id) == Some(pointer) && Stated(ins, VariableStorage, id) == Some(storage);
    }
    if EntryOf(p, id).valid && EntryOf(p, id).varType == pointer && EntryOf(p, id).varStorage == storage {
      var ins :| ins in p && Stated(ins, VariableType, id) == Some(pointer);
      WordIff(p, VariableStorage, id, ins[3]);
      assert Stated(ins, VariableStorage, id) == Some(ins[3]);
      assert DeclaresVariable(ins, id, pointer, storage);
    }
  }

  lemma DecorationsIff(p: seq<Instruction>, id: u32, number: u32)
    requires Consistent(p)
    ensures number != 0xFFFF_FFFF ==> (EntryOf(p, id).binding == number <==> HasDecoration(p, id, 33, number))
    ensures EntryOf(p, id).descriptorSet == 0 <==> HasDecoration(p, id, 34, 0)
    ensures EntryOf(p, id).nonReadable <==> IsNonReadable(p, id)
  {
    DecorationIff(p, BindingNumber, id, 33, number);
    DecorationIff(p, SetNumber, id, 34, 0);
    WordIff(p, NonReadable, id, 1);
    LastStatedIsStated(p, NonReadable, id);
    if ins :| ins in p && Stated(ins, NonReadable, id).Some? {
      assert DecoratesNonReadable(ins, id);
    }
    if ins :| ins in p && DecoratesNonReadable(ins, id) {
      assert Stated(ins, NonReadable, id) == Some(1);
    }
  }

  lemma DecorationIff(p: seq<Instruction>, fact: Fact, id: u32, decoration: u32, v: u32)
    requires Consistent(p)
    requires (fact == BindingNumber && decoration == 33) || (fact == SetNumber && decoration == 34)
    ensures LastStated(p, fact, id) == Some(v) <==> HasDecoration(p, id, decoration, v)
  {
    WordIff(p, fact, id, v);
    if ins :| ins in p && Stated(ins, fact, id) == Some(v) {
      assert Decorates(ins, id, decoration, v);
    }
    if ins :| ins in p && Decorates(ins, id, decoration, v) {
      assert Stated(ins, fact, id) == Some(v);
    }
  }

  lemma ResourceIff(p: seq<Instruction>, pointee: u32, storage: u32, t: DescriptorType)
    requires Consistent(p)
    ensures DescriptorTypeFor(EntryOf(p, pointee), storage) == Some(t) <==> IsResource(p, pointee, storage, t)
  {
    SamplerIff(p, pointee);
    SampledImageIff(p, pointee);
    ImageIff(p, pointee, 1);
    ImageIff(p, pointee, 2);
  }

  /** The binding that the tables declare for an id is the one that the module declares. */
  lemma DeclaredIff(p: seq<Instruction>, bound: u32, id: u32, b: Binding)
    requires Consistent(p) && id < bound
    ensures Declared(Table(p, bound), id) == Some(b) <==> Declares(p, bound, id, b)
  {
    var e := EntryOf(p, id);
    DecorationsIff(p, id, b.binding);
    if Declared(Table(p, bound), id) == Some(b) {
      var pointee := EntryOf(p, e.varType).pointee;
      VariableIff(p, id, e.varType, e.varStorage);
      PointerIff(p, e.varType, pointee);
      ResourceIff(p, pointee, e.varStorage, b.descriptorType);
    }
    if Declares(p, bound, id, b) {
      var pointer: u32, pointee: u32, storage: u32 :|
        && HasVariable(p, id, pointer, storage) && HasPointer(p, pointer, pointee)
        && pointer < bound && pointee < bound && IsResource(p, pointee, storage, b.descriptorType);
      VariableIff(p, id, pointer, storage);
      PointerIff(p, pointer, pointee);
      ResourceIff(p, pointee, storage, b.descriptorType);
    }
  }

  lemma {:induction false} DeclaredBelowMembers(table: seq<Entry>, n: nat, b: Binding)
    requires n <= |table|
    ensures b in DeclaredBelow(table, n) <==> exists id: nat | id < n :: Declared(table, id) == Some(b)
  {
    if n > 0 {
      DeclaredBelowMembers(table, n - 1, b);
    }
  }

  /** The bindings that the reflection collects are exactly those that the module declares. */
  lemma CollectedIff(p: seq<Instruction>, bound: u32, b: Binding)
    requires Consistent(p)
    ensures b in DeclaredBelow(Table(p, bound), bound) <==> exists id: u32 | id < bound :: Declares(p, bound, id, b)
  {
    DeclaredBelowMembers(Table(p, bound), bound, b);
    forall id: u32 | id < bound ensures Declared(Table(p, bound), id) == Some(b) <==> Declares(p, bound, id, b) {
      DeclaredIff(p, bound, id, b);
    }
    if b in DeclaredBelow(Table(p, bound), bound) {
      var id: nat :| id < bound && Declared(Table(p, bound), id) == Some(b);
      assert Declares(p, bound, id, b);
    }
  }

  /** `ids` are the ids below `n` that declare a binding, in ascending order, one for each. */
  ghost predicate DeclaringIds(table: seq<Entry>, n: nat, ids: seq<nat>)
    requires n <= |table|
  {
    && |ids| == |DeclaredBelow(table, n)|
    && (forall k | 0 <= k < |ids| :: ids[k] < n && Declared(table, ids[k]) == Some(DeclaredBelow(table, n)[k]))
    && (forall j, k | 0 <= j < k < |ids| :: ids[j] < ids[k])
    && forall id: nat | id < n && Declared(table, id).Some? :: id in ids
  }

  lemma {:induction false} InOrderBelow(table: seq<Entry>, n: nat) returns (ids: seq<nat>)
    requires n <= |table|
    ensures DeclaringIds(table, n, ids)
  {
    if n == 0 {
      return [];
    }
    var before := InOrderBelow(table, n - 1);
    if Declared(table, n - 1).None? {
      return before;
    }
    ids := before + [n - 1];
    OneMoreDeclaring(table, n, before);
  }

  lemma OneMoreDeclaring(table: seq<Entry>, n: nat, before: seq<nat>)
    requires 0 < n <= |table| && DeclaringIds(table, n - 1, before) && Declared(table, n - 1).Some?
    ensures DeclaringIds(table, n, before + [n - 1])
  {
    var ids, declared := before + [n - 1], DeclaredBelow(table, n);
    assert declared == DeclaredBelow(table, n - 1) + [Declared(table, n - 1).value];
    forall k | 0 <= k < |ids| ensures ids[k] < n && Declared(table, ids[k]) == Some(declared[k]) {
      if k < |before| {
        assert ids[k] == before[k];
      }
    }
    forall id: nat | id < n && Declared(table, id).Some? ensures id in ids {
      if id < n - 1 {
        assert id in before;
      } else {
        assert ids[|before|] == id;
      }
    }
  }

  /** In the order of their ids, and one for each: the bindings come from ascending ids, from every id that declares
      one. */
  lemma DeclaredInOrder(p: seq<Instruction>, bound: u32) returns (ids: seq<nat>)
    requires Consistent(p)
    ensures var declared := DeclaredBelow(Table(p, bound), bound);
            && |ids| == |declared|
            && (forall k | 0 <= k < |ids| :: ids[k] < bound && Declares(p, bound, ids[k], declared[k]))
    ensures forall j, k | 0 <= j < k < |ids| :: ids[j] < ids[k]
    ensures forall id: u32, b: Binding | id < bound && Declares(p, bound, id, b) :: id in ids
  {
    ids := InOrderBelow(Table(p, bound), bound);
    forall id: u32, b: Binding | id < bound
      ensures Declared(Table(p, bound), id) == Some(b) <==> Declares(p, bound, id, b)
    {
      DeclaredIff(p, bound, id, b);
    }
  }

  /** A contract has the first sixteen of them, or all if there are fewer, and as many SpecIds. */
  lemma KeepsTheFirst(c: Contract, p: seq<Instruction>, bound: u32)
    requires Describes(c, p, bound)
    ensures var declared, n := DeclaredBelow(Table(p, bound), bound), |c.bindings|;
            && n <= |declared| && n <= 16 && (n < |declared| ==> n == 16)
            && multiset(c.bindings) == multiset(declared[..n])
    ensures var all, n := SpecIds(p, bound), |c.specIds|;
            n <= |all| && n <= 16 && (n < |all| ==> n == 16) && c.specIds == all[..n]
  {
    assert |c.bindings| == |multiset(c.bindings)| == |Kept(p, bound)|;
    assert Kept(p, bound) == DeclaredBelow(Table(p, bound), bound)[..|c.bindings|];
    assert c.specIds == SpecIds(p, bound)[..|c.specIds|];
  }

  /** Which modules are reflected: the header says so, the words can be walked, and the output has a number. */
  lemma ReflectsIff(words: seq<u32>)
    ensures Reflects(words) <==>
            && |words| >= 5 && words[0] == 0x0723_0203 && 1 <= words[3] <= 65536 && Parse(words[5..]).Some?
            && ChosenOutput(Kept(Parse(words[5..]).value, words[3])) >= 0
  {
  }

  // ---- The output ----

  /** A storage image that no shader reads, with a number that an `int` holds. */
  predicate WritesOnly(b: Binding) {
    b.descriptorType == StorageImage && b.nonReadable && b.binding <= 0x7FFF_FFFF
  }

  /** The output is the first binding that is only written to, if there is one; otherwise the first storage image or
      buffer, and there is no output if that one's number does not fit an `int`. */
  lemma OutputIff(kept: seq<Binding>, output: nat)
    ensures ChosenOutput(kept) == output <==>
            exists k | 0 <= k < |kept| && kept[k].binding == output <= 0x7FFF_FFFF ::
              if exists j :: 0 <= j < |kept| && WritesOnly(kept[j])
              then WritesOnly(kept[k]) && forall j | 0 <= j < k :: !WritesOnly(kept[j])
              else kept[k].descriptorType in {StorageImage, StorageBuffer} &&
                   forall j | 0 <= j < k :: kept[j].descriptorType !in {StorageImage, StorageBuffer}
  {
  }

  lemma BindingsAreKept(c: Contract, p: seq<Instruction>, bound: u32, b: Binding)
    requires Describes(c, p, bound)
    ensures b in c.bindings <==> b in Kept(p, bound)
    ensures b in Kept(p, bound) ==> b in DeclaredBelow(Table(p, bound), bound)
  {
    assert b in c.bindings <==> b in multiset(c.bindings);
    assert b in Kept(p, bound) <==> b in multiset(Kept(p, bound));
  }

  /** A contract in those terms: every binding is declared by the module, and every declared one is there unless there
      are more than sixteen. */
  lemma ContractMeans(c: Contract, p: seq<Instruction>, bound: u32, b: Binding)
    requires Consistent(p) && Describes(c, p, bound)
    ensures b in c.bindings ==> exists id: u32 | id < bound :: Declares(p, bound, id, b)
    ensures |DeclaredBelow(Table(p, bound), bound)| <= 16 ==>
              (b in c.bindings <==> exists id: u32 | id < bound :: Declares(p, bound, id, b))
  {
    BindingsAreKept(c, p, bound, b);
    CollectedIff(p, bound, b);
  }

  /** The output is the number of a storage buffer, or of an image whose Sampled word is 2. */
  lemma OutputIsStored(c: Contract, p: seq<Instruction>, bound: u32) returns (id: u32, out: Binding)
    requires Consistent(p) && Describes(c, p, bound) && c.outputBinding >= 0
    ensures id < bound && Declares(p, bound, id, out) && out.binding == c.outputBinding && out in c.bindings
    ensures exists pointer: u32, pointee: u32, storage: u32 ::
              && HasVariable(p, id, pointer, storage) && HasPointer(p, pointer, pointee)
              && (storage == 12 || (storage == 0 && HasImage(p, pointee, 2)))
  {
    var kept := Kept(p, bound);
    OutputIff(kept, c.outputBinding);
    var k :| 0 <= k < |kept| && kept[k].binding == c.outputBinding &&
             kept[k].descriptorType in {StorageImage, StorageBuffer};
    out := kept[k];
    BindingsAreKept(c, p, bound, out);
    CollectedIff(p, bound, out);
    id :| id < bound && Declares(p, bound, id, out);
    StoredResource(p, bound, id, out);
  }

  lemma StoredResource(p: seq<Instruction>, bound: u32, id: u32, b: Binding)
    requires Declares(p, bound, id, b) && b.descriptorType in {StorageImage, StorageBuffer}
    ensures exists pointer: u32, pointee: u32, storage: u32 ::
              && HasVariable(p, id, pointer, storage) && HasPointer(p, pointer, pointee)
              && (storage == 12 || (storage == 0 && HasImage(p, pointee, 2)))
  {
    var pointer: u32, pointee: u32, storage: u32 :|
      && HasVariable(p, id, pointer, storage) && HasPointer(p, pointer, pointee)
      && pointer < bound && pointee < bound && IsResource(p, pointee, storage, b.descriptorType);
  }

  /** The collected SpecIds are the values of the decorations with 1. */
  lemma {:induction false} SpecIdIff(p: seq<Instruction>, bound: u32, x: u32)
    ensures x in SpecIds(p, bound) <==> exists id: u32 | id < bound :: HasDecoration(p, id, 1, x)
    decreases |p|
  {
    if p != [] {
      var init, last := p[..|p| - 1], p[|p| - 1];
      assert p == init + [last];
      SpecIdIff(init, bound, x);
      if id: u32 :| id < bound && HasDecoration(init, id, 1, x) {
        assert HasDecoration(p, id, 1, x);
      }
      if SpecIdOf(last, bound) == Some(x) {
        assert Decorates(last, last[1], 1, x);
        assert HasDecoration(p, last[1], 1, x);
      }
      if id: u32 :| id < bound && HasDecoration(p, id, 1, x) {
        var ins :| ins in p && Decorates(ins, id, 1, x);
        assert ins in init ==> HasDecoration(init, id, 1, x);
        assert ins == last ==> SpecIdOf(last, bound) == Some(x);
      }
    }
  }
}
