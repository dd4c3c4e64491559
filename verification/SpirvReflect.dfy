/** The table-driven reflection of the replay program: one pass over the words fills id-indexed tables, one pass over
    the ids collects the bindings, and an in-place sort finishes the contract. */
module SpirvReflect {
  import opened MachineInts
  import opened Wrappers
  import opened SpirvModule
  import opened SpirvContract

  /** What one instruction does to the row of `id`. */
  function Apply(e: Entry, ins: Instruction, id: u32): Entry {
    Entry(Or(Stated(ins, Kind, id), e.kind), Or(Stated(ins, Sampled, id), e.sampled),
          Or(Stated(ins, Pointee, id), e.pointee), e.valid || Stated(ins, VariableType, id).Some?,
          Or(Stated(ins, VariableType, id), e.varType), Or(Stated(ins, VariableStorage, id), e.varStorage),
          Or(Stated(ins, BindingNumber, id), e.binding), Or(Stated(ins, SetNumber, id), e.descriptorSet),
          e.nonReadable || Stated(ins, NonReadable, id).Some?)
  }

  function ApplyAll(table: seq<Entry>, ins: Instruction): (r: seq<Entry>)
    requires |table| <= MAX_BOUND
  {
    seq(|table|, id requires 0 <= id < |table| => Apply(table[id], ins, id))
  }

  lemma TableSnoc(p: seq<Instruction>, ins: Instruction, bound: u32)
    requires bound <= MAX_BOUND
    ensures Table(p + [ins], bound) == ApplyAll(Table(p, bound), ins)
  {
    var q := p + [ins];
    assert q[|q| - 1] == ins && q[..|q| - 1] == p;
  }

  lemma SpecIdsSnoc(p: seq<Instruction>, ins: Instruction, bound: u32)
    ensures SpecIds(p + [ins], bound) == SpecIds(p, bound) + Listed(ins, bound)
  {
    var q := p + [ins];
    assert q[|q| - 1] == ins && q[..|q| - 1] == p;
  }

  function Listed(ins: Instruction, bound: u32): seq<u32> {
    match SpecIdOf(ins, bound)
    case None => []
    case Some(x) => [x]
  }

  /** The switch over the opcode: every write goes to a row below `bound` and to the row the instruction names. */
  method RecordInstruction(code: array<u32>, offset: nat, ghost ins: Instruction, bound: u32, table: array<Entry>,
                           specIds: array<u32>, specCount: nat) returns (count: nat)
    requires offset + |ins| <= code.Length && code[offset..offset + |ins|] == ins && WellFormed(ins)
    requires table.Length == bound && specIds.Length == MAX_SHADER_BINDINGS && specCount <= MAX_SHADER_BINDINGS
    requires specIds != code && bound <= MAX_BOUND
    modifies table, specIds
    ensures table[..] == ApplyAll(old(table[..]), ins)
    ensures count <= MAX_SHADER_BINDINGS
    ensures specIds[..count] == First16(old(specIds[..specCount]) + Listed(ins, bound))
  {
    count := specCount;
    var words, opcode := WordCount(code[offset]), Opcode(code[offset]);
    assert forall k | 0 <= k < |ins| :: ins[k] == code[offset + k];
    if opcode == OP_TYPE_IMAGE {
      if words >= 9 && code[offset + 1] < bound {
        var id := code[offset + 1];
        table[id] := table[id].(kind := KIND_IMAGE, sampled := code[offset + 7]);
      }
    } else if opcode == OP_TYPE_SAMPLER {
      if words >= 2 && code[offset + 1] < bound {
        var id := code[offset + 1];
        table[id] := table[id].(kind := KIND_SAMPLER);
      }
    } else if opcode == OP_TYPE_SAMPLED_IMAGE {
      if words >= 3 && code[offset + 1] < bound {
        var id := code[offset + 1];
        table[id] := table[id].(kind := KIND_SAMPLED_IMAGE, pointee := code[offset + 2]);
      }
    } else if opcode == OP_TYPE_POINTER {
      if words >= 4 && code[offset + 1] < bound {
        var id := code[offset + 1];
        table[id] := table[id].(kind := KIND_POINTER, pointee := code[offset + 3]);
      }
    } else if opcode == OP_VARIABLE {
      if words >= 4 && code[offset + 2] < bound {
        var id := code[offset + 2];
        table[id] := table[id].(valid := true, varType := code[offset + 1], varStorage := code[offset + 3]);
      }
    } else if opcode == OP_DECORATE {
      if words >= 3 && code[offset + 1] < bound {
        var id := code[offset + 1];
        if code[offset + 2] == DECORATION_SPEC_ID && words >= 4 {
          if specCount < MAX_SHADER_BINDINGS {
            specIds[specCount] := code[offset + 3];
            count := specCount + 1;
          }
        } else if code[offset + 2] == DECORATION_BINDING && words >= 4 {
          table[id] := table[id].(binding := code[offset + 3]);
        } else if code[offset + 2] == DECORATION_DESCRIPTOR_SET && words >= 4 {
          table[id] := table[id].(descriptorSet := code[offset + 3]);
        } else if code[offset + 2] == DECORATION_NON_READABLE {
          table[id] := table[id].(nonReadable := true);
        }
      }
    }
  }

  /** Recording one more instruction keeps the tables at the last word of every id. */
  method RecordNext(code: array<u32>, offset: nat, ghost done: seq<Instruction>, ghost ins: Instruction, bound: u32,
                    table: array<Entry>, specIds: array<u32>, specCount: nat) returns (count: nat)
    requires offset + |ins| <= code.Length && code[offset..offset + |ins|] == ins && WellFormed(ins)
    requires table.Length == bound && specIds.Length == MAX_SHADER_BINDINGS && specCount <= MAX_SHADER_BINDINGS
    requires specIds != code && bound <= MAX_BOUND
    requires table[..] == Table(done, bound)
    requires specIds[..specCount] == First16(SpecIds(done, bound))
    modifies table, specIds
    ensures table[..] == Table(done + [ins], bound)
    ensures count <= MAX_SHADER_BINDINGS
    ensures specIds[..count] == First16(SpecIds(done + [ins], bound))
  {
    count := RecordInstruction(code, offset, ins, bound, table, specIds, specCount);
    TableSnoc(done, ins, bound);
    SpecIdsSnoc(done, ins, bound);
  }

  /** The walk over `all` has recorded `done` and still has `rest` before it. */
  ghost predicate Reached(all: seq<u32>, done: seq<Instruction>, rest: seq<u32>) {
    Parse(all) == match Parse(rest)
                  case None => None
                  case Some(p) => Some(done + p)
  }

  lemma ReachedStart(all: seq<u32>)
    ensures Reached(all, [], all)
  {
    assert Parse(all).Some? ==> [] + Parse(all).value == Parse(all).value;
  }

  lemma ReachedEnd(all: seq<u32>, done: seq<Instruction>)
    requires Reached(all, done, [])
    ensures Parse(all) == Some(done)
  {
    assert done + [] == done;
  }

  lemma ReachedStep(all: seq<u32>, done: seq<Instruction>, rest: seq<u32>)
    requires Reached(all, done, rest) && rest != []
    ensures var n := WordCount(rest[0]);
            if n == 0 || n > |rest| then Parse(all).None?
            else Reached(all, done + [rest[..n]], rest[n..])
  {
    var n := WordCount(rest[0]);
    if 0 < n <= |rest| && Parse(rest[n..]).Some? {
      var p := Parse(rest[n..]).value;
      assert done + ([rest[..n]] + p) == (done + [rest[..n]]) + p;
    }
  }

  lemma ReachedNext(all: seq<u32>, done: seq<Instruction>, code: seq<u32>, offset: nat, end: nat)
    requires offset < end <= |code| && Reached(all, done, code[offset..end])
    ensures var n := WordCount(code[offset]);
            if n == 0 || offset + n > end then Parse(all).None?
            else Reached(all, done + [code[offset..offset + n]], code[offset + n..end])
  {
    var n := WordCount(code[offset]);
    ReachedStep(all, done, code[offset..end]);
    if 0 < n && offset + n <= end {
      SliceOfSlice(code, offset, end, n);
    }
  }

  lemma SliceOfSlice(code: seq<u32>, offset: nat, end: nat, n: nat)
    requires offset + n <= end <= |code|
    ensures code[offset..end][..n] == code[offset..offset + n] && code[offset..end][n..] == code[offset + n..end]
  {
  }

  /** The sum of the source's test for an instruction that runs past the end, on 32 bits. */
  function Sum32(offset: nat, words: nat): u32 {
    (offset + words) % 0x1_0000_0000
  }

  /** The test is right for all instructions at all offsets if and only if the module is short enough. */
  lemma SizeLimitIsExact(wordCount: u32)
    ensures (forall offset: nat, words: nat | offset < wordCount && 1 <= words <= 0xFFFF ::
               Sum32(offset, words) > wordCount <==> offset + words > wordCount) <==>
            wordCount + 0xFFFE <= UINT32_MAX
  {
    if wordCount + 0xFFFE > UINT32_MAX {
      assert Sum32(wordCount - 1, 0xFFFF) == wordCount + 0xFFFE - 0x1_0000_0000;
    }
  }

  /** The test finds whatever there is to find: the words are few enough, or nothing runs past their end. */
  ghost predicate SumsFit(words: seq<u32>) {
    |words| + HEADER_WORDS + 0xFFFE <= UINT32_MAX || (|words| + HEADER_WORDS <= UINT32_MAX && Parse(words).Some?)
  }

  /** That test, where the sum does not wrap around. */
  method RunsPastTheEnd(offset: nat, words: nat, wordCount: u32) returns (past: bool)
    requires offset + words <= UINT32_MAX
    ensures past <==> words == 0 || offset + words > wordCount
  {
    past := words == 0 || Sum32(offset, words) > wordCount;
  }

  /** The pass over the words. It fails exactly when the words cannot be walked; otherwise the tables hold the last
      word of every id and the first sixteen SpecIds are kept. */
  method WalkInstructions(code: array<u32>, wordCount: nat, bound: u32, table: array<Entry>, specIds: array<u32>)
    returns (ok: bool, specCount: nat)
    requires HEADER_WORDS <= wordCount <= code.Length && SumsFit(code[HEADER_WORDS..wordCount]) && bound <= MAX_BOUND
    requires table.Length == bound && specIds.Length == MAX_SHADER_BINDINGS && specIds != code
    requires table[..] == Table([], bound)
    modifies table, specIds
    ensures ok <==> Parse(code[HEADER_WORDS..wordCount]).Some?
    ensures ok ==> table[..] == Table(Parse(code[HEADER_WORDS..wordCount]).value, bound)
    ensures ok ==> specCount <= MAX_SHADER_BINDINGS
    ensures ok ==> specIds[..specCount] == First16(SpecIds(Parse(code[HEADER_WORDS..wordCount]).value, bound))
  {
    ghost var all := code[HEADER_WORDS..wordCount];
    ghost var done: seq<Instruction> := [];
    ReachedStart(all);
    var offset := HEADER_WORDS;
    specCount := 0;
    while offset < wordCount
      invariant HEADER_WORDS <= offset <= wordCount
      invariant code[HEADER_WORDS..wordCount] == all
      invariant Reached(all, done, code[offset..wordCount])
      invariant table[..] == Table(done, bound)
      invariant specCount <= MAX_SHADER_BINDINGS
      invariant specIds[..specCount] == First16(SpecIds(done, bound))
      decreases wordCount - offset
    {
      ok, offset, specCount, done := WalkOne(code, offset, wordCount, all, done, bound, table, specIds, specCount);
      if !ok {
        return;
      }
    }
    assert code[offset..wordCount] == [];
    ReachedEnd(all, done);
    ok := true;
  }

  /** One turn of that loop. */
  method WalkOne(code: array<u32>, offset: nat, wordCount: nat, ghost all: seq<u32>, ghost done: seq<Instruction>,
                 bound: u32, table: array<Entry>, specIds: array<u32>, specCount: nat)
    returns (ok: bool, next: nat, count: nat, ghost more: seq<Instruction>)
    requires offset < wordCount <= code.Length && wordCount == |all| + HEADER_WORDS && SumsFit(all)
    requires bound <= MAX_BOUND
    requires table.Length == bound && specIds.Length == MAX_SHADER_BINDINGS && specIds != code
    requires Reached(all, done, code[offset..wordCount])
    requires table[..] == Table(done, bound)
    requires specCount <= MAX_SHADER_BINDINGS && specIds[..specCount] == First16(SpecIds(done, bound))
    modifies table, specIds
    ensures !ok ==> Parse(all).None?
    ensures ok ==> offset < next <= wordCount && Reached(all, more, code[next..wordCount])
    ensures ok ==> table[..] == Table(more, bound) && count <= MAX_SHADER_BINDINGS
    ensures ok ==> specIds[..count] == First16(SpecIds(more, bound))
  {
    next, count, more := offset, specCount, done;
    var words := WordCount(code[offset]);
    ReachedNext(all, done, code[..], offset, wordCount);
    var past := RunsPastTheEnd(offset, words, wordCount);
    ok := !past;
    if past {
      return;
    }
    ghost var ins := code[offset..offset + words];
    count := RecordNext(code, offset, done, ins, bound, table, specIds, specCount);
    next, more := offset + words, done + [ins];
  }

  // ---- Collecting the bindings ----

  /** Where the running output stands after the kept bindings `bs`: at the first preferred one once there is one,
      below zero before. */
  predicate OutputSoFar(output: int, bs: seq<Binding>) {
    var i := IndexOfPreferred(bs);
    if i < |bs| then output == bs[i].binding else output < 0
  }

  lemma {:induction false} IndexOfPreferredSnoc(bs: seq<Binding>, b: Binding)
    ensures IndexOfPreferred(bs + [b]) ==
            if IndexOfPreferred(bs) < |bs| || Preferred(b) then IndexOfPreferred(bs) else |bs| + 1
  {
    var i := IndexOfPreferred(bs + [b]);
    var j := IndexOfPreferred(bs);
    assert forall k | 0 <= k < |bs| :: (bs + [b])[k] == bs[k];
    assert (bs + [b])[|bs|] == b;
    assert i < |bs| ==> Preferred(bs[i]);
    assert j < |bs| ==> Preferred((bs + [b])[j]);
  }

  /** The pass over the ids. */
  method CollectBindings(bound: u32, table: array<Entry>, bindings: array<Binding>)
    returns (count: nat, output: int)
    requires table.Length == bound && bindings.Length == MAX_SHADER_BINDINGS
    modifies bindings
    ensures count <= MAX_SHADER_BINDINGS
    ensures bindings[..count] == First16(DeclaredBelow(table[..], bound))
    ensures OutputSoFar(output, bindings[..count])
  {
    count, output := 0, -1;
    var i := 0;
    while i < bound
      invariant 0 <= i <= bound
      invariant count <= MAX_SHADER_BINDINGS
      invariant bindings[..count] == First16(DeclaredBelow(table[..], i))
      invariant OutputSoFar(output, bindings[..count])
    {
      var declared := DeclaredAt(table, i);
      i := i + 1;
      if declared.None? || count >= MAX_SHADER_BINDINGS {
        continue;
      }
      output := KeepBinding(bindings, count, output, declared.value);
      count := count + 1;
    }
  }

  /** One more binding, and the output if it is the first preferred one. */
  method KeepBinding(bindings: array<Binding>, count: nat, output: int, b: Binding) returns (next: int)
    requires count < bindings.Length && OutputSoFar(output, bindings[..count])
    modifies bindings
    ensures bindings[..count + 1] == old(bindings[..count]) + [b]
    ensures OutputSoFar(next, bindings[..count + 1])
  {
    ghost var before := bindings[..count];
    next := output;
    bindings[count] := b;
    if b.descriptorType == StorageImage && output < 0 && b.nonReadable {
      next := AsSigned32(b.binding);
    }
    assert bindings[..count + 1] == before + [b];
    IndexOfPreferredSnoc(before, b);
  }

  /** The tests a variable has to pass, read off the tables; no read leaves them. */
  method DeclaredAt(table: array<Entry>, i: nat) returns (declared: Option<Binding>)
    requires i < table.Length
    ensures declared == Declared(table[..], i)
  {
    var e := table[i];
    if !e.valid || e.binding == UINT32_MAX || e.descriptorSet == UINT32_MAX || e.descriptorSet != 0 {
      return None;
    }
    if e.varType >= table.Length || table[e.varType].kind != KIND_POINTER {
      return None;
    }
    var pointee := table[e.varType].pointee;
    if pointee >= table.Length {
      return None;
    }
    var descriptorType := DescriptorTypeFor(table[pointee], e.varStorage);
    if descriptorType.None? {
      return None;
    }
    return Some(Binding(e.binding, descriptorType.value, e.nonReadable));
  }

  /** The fallback: without a fitting NonReadable storage image the first storage resource is the output. */
  method ChooseOutput(bindings: array<Binding>, count: nat, collected: int) returns (output: int)
    requires count <= bindings.Length && OutputSoFar(collected, bindings[..count])
    ensures output >= 0 <==> ChosenOutput(bindings[..count]) >= 0
    ensures output >= 0 ==> output == ChosenOutput(bindings[..count])
  {
    output := collected;
    if output < 0 {
      var i := 0;
      while i < count
        invariant 0 <= i <= count
        invariant output < 0
        invariant forall k | 0 <= k < i :: !Storage(bindings[k])
      {
        if bindings[i].descriptorType == StorageImage || bindings[i].descriptorType == StorageBuffer {
          output := AsSigned32(bindings[i].binding);
          assert IndexOfStorage(bindings[..count]) == i;
          return;
        }
        i := i + 1;
      }
    }
  }

  // ---- Sorting in place ----

  /** The first `n` elements are sorted. */
  ghost predicate SortedUpTo(s: seq<Binding>, n: nat)
    requires n <= |s|
  {
    forall i, j | 0 <= i < j < n :: s[i].binding <= s[j].binding
  }

  /** The first `n + 1` elements are sorted but for the one at `k`, which may belong further left. */
  ghost predicate SortedBut(s: seq<Binding>, n: nat, k: nat)
    requires k <= n < |s|
  {
    forall i, j | 0 <= i < j <= n && j != k :: s[i].binding <= s[j].binding
  }

  function Swapped(s: seq<Binding>, k: nat): seq<Binding>
    requires 0 < k < |s|
  {
    s[k - 1 := s[k]][k := s[k - 1]]
  }

  lemma SwapKeepsSortedBut(s: seq<Binding>, n: nat, k: nat)
    requires 0 < k <= n < |s| && SortedBut(s, n, k) && s[k - 1].binding > s[k].binding
    ensures SortedBut(Swapped(s, k), n, k - 1)
  {
  }

  method SwapWithPrevious(a: array<Binding>, k: nat)
    requires 0 < k < a.Length
    modifies a
    ensures a[..] == Swapped(old(a[..]), k)
    ensures multiset(a[..]) == old(multiset(a[..]))
  {
    a[k - 1], a[k] := a[k], a[k - 1];
  }

  /** Puts `a[n]` into its place in the sorted prefix before it. */
  method Insert(a: array<Binding>, n: nat)
    requires n < a.Length && SortedUpTo(a[..], n)
    modifies a
    ensures SortedUpTo(a[..], n + 1)
    ensures multiset(a[..]) == old(multiset(a[..]))
    ensures a[n + 1..] == old(a[n + 1..])
  {
    var k := n;
    while k > 0 && a[k - 1].binding > a[k].binding
      invariant 0 <= k <= n
      invariant SortedBut(a[..], n, k)
      invariant multiset(a[..]) == old(multiset(a[..]))
      invariant a[n + 1..] == old(a[n + 1..])
    {
      SwapKeepsSortedBut(a[..], n, k);
      SwapWithPrevious(a, k);
      k := k - 1;
    }
  }

  lemma SamePrefix(before: seq<Binding>, after: seq<Binding>, count: nat)
    requires count <= |before| == |after| && multiset(before) == multiset(after)
    requires before[count..] == after[count..]
    ensures multiset(after[..count]) == multiset(before[..count])
  {
    assert before == before[..count] + before[count..] && after == after[..count] + after[count..];
    assert multiset(before[..count]) == multiset(before) - multiset(before[count..]);
    assert multiset(after[..count]) == multiset(after) - multiset(after[count..]);
  }

  /** What the C library's `qsort` promises with `compare_binding`: some sorted arrangement of the same elements. */
  method SortBindings(a: array<Binding>, count: nat)
    requires count <= a.Length
    modifies a
    ensures Sorted(a[..count])
    ensures multiset(a[..count]) == old(multiset(a[..count]))
  {
    ghost var before := a[..];
    var n := 0;
    while n < count
      invariant 0 <= n <= count
      invariant SortedUpTo(a[..], n)
      invariant multiset(a[..]) == multiset(before)
      invariant a[count..] == before[count..]
    {
      ghost var was := a[..];
      Insert(a, n);
      assert a[count..] == a[n + 1..][count - n - 1..] == was[n + 1..][count - n - 1..];
      n := n + 1;
    }
    assert a[..][count..] == a[count..];
    SamePrefix(before, a[..], count);
    assert a[..][..count] == a[..count] && before[..count] == old(a[..count]);
  }

  // ---- The whole reflection ----

  /** The words a buffer of `codeSize` bytes holds. */
  /** The number of words, cut to 32 bits. */
  function WordsIn(codeSize: nat): u32 {
    codeSize / 4 % 0x1_0000_0000
  }

  ghost function Words(code: array<u32>, codeSize: nat): seq<u32>
    requires codeSize / 4 <= code.Length
    reads code
  {
    code[..WordsIn(codeSize)]
  }

  /** The two passes, the choice of the output and the sort, for a module whose header has been accepted. */
  method ReflectBody(code: array<u32>, wordCount: nat, bound: u32) returns (ok: bool, contract: Contract)
    requires HEADER_WORDS <= wordCount <= code.Length && SumsFit(code[HEADER_WORDS..wordCount]) && bound <= MAX_BOUND
    ensures ok <==> var p := Parse(code[HEADER_WORDS..wordCount]);
                    p.Some? && ChosenOutput(Kept(p.value, bound)) >= 0
    ensures ok ==> Describes(contract, Parse(code[HEADER_WORDS..wordCount]).value, bound)
  {
    contract := Contract([], -1, []);
    var table := new Entry[bound](_ => BLANK);
    var specIds := new u32[MAX_SHADER_BINDINGS](_ => 0);
    var bindings := new Binding[MAX_SHADER_BINDINGS](_ => Binding(0, Sampler, false));
    assert table[..] == Table([], bound);
    var walked, specCount := WalkInstructions(code, wordCount, bound, table, specIds);
    if !walked {
      return false, contract;
    }
    ok, contract := DescribeTables(table, bound, bindings, specIds, specCount,
                                   Parse(code[HEADER_WORDS..wordCount]).value);
  }

  /** The part behind the walk. */
  method DescribeTables(table: array<Entry>, bound: u32, bindings: array<Binding>, specIds: array<u32>, specCount: nat,
                        ghost p: seq<Instruction>)
    returns (ok: bool, contract: Contract)
    requires bound <= MAX_BOUND && table.Length == bound && table[..] == Table(p, bound)
    requires bindings.Length == MAX_SHADER_BINDINGS && specCount <= specIds.Length
    requires specIds[..specCount] == First16(SpecIds(p, bound))
    modifies bindings
    ensures ok <==> ChosenOutput(Kept(p, bound)) >= 0
    ensures ok ==> Describes(contract, p, bound)
  {
    contract := Contract([], -1, []);
    var count, collected := CollectBindings(bound, table, bindings);
    var output := ChooseOutput(bindings, count, collected);
    if count == 0 || output < 0 {
      return false, contract;
    }
    SortBindings(bindings, count);
    contract := Contract(bindings[..count], output, specIds[..specCount]);
    return true, contract;
  }

  /** `reflect_contract`. `tablesReady` tells whether the table allocations succeeded. Every module is admitted whose
      walk does not depend on a sum that wraps around. */
  method ReflectContract(code: array?<u32>, codeSize: nat, tablesReady: bool) returns (ok: bool, contract: Contract)
    requires code != null ==> codeSize / 4 <= code.Length
    requires code != null && WordsIn(codeSize) >= HEADER_WORDS ==> SumsFit(Words(code, codeSize)[HEADER_WORDS..])
    ensures ok <==> code != null && codeSize % 4 == 0 && tablesReady && Reflects(Words(code, codeSize))
    ensures ok ==> var words := Words(code, codeSize); Describes(contract, Instructions(words).value, words[3])
  {
    if code == null || codeSize < 20 || codeSize % 4 != 0 || code[0] != MAGIC {
      return false, Contract([], -1, []);
    }
    var bound := code[3];
    if bound == 0 || bound > MAX_BOUND || !tablesReady {
      return false, Contract([], -1, []);
    }
    var wordCount := WordsIn(codeSize);
    if wordCount < HEADER_WORDS {
      return false, Contract([], -1, []);
    }
    assert Words(code, codeSize)[HEADER_WORDS..] == code[HEADER_WORDS..wordCount];
    ok, contract := ReflectBody(code, wordCount, bound);
  }
}
