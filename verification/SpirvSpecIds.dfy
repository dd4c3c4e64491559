/** The second walker over SPIR-V words: the material replay asks whether a module decorates anything with a given
    SpecId. It stops at the first hit or at the first malformed instruction. */
module SpirvSpecIds {
  import opened MachineInts
  import opened Wrappers
  import opened SpirvModule
  import opened SpirvContract

  predicate Decorates(ins: Instruction, specId: u32) {
    |ins| >= 4 && Opcode(ins[0]) == OP_DECORATE && ins[2] == DECORATION_SPEC_ID && ins[3] == specId
  }

  /** The instructions before the first malformed one. */
  function Walkable(words: seq<u32>): (p: seq<Instruction>)
    ensures AllWellFormed(p)
    ensures Flatten(p) <= words
    decreases |words|
  {
    if words == [] then []
    else
      var n := WordCount(words[0]);
      if n == 0 || n > |words| then []
      else
        var rest := Walkable(words[n..]);
        var p := [words[..n]] + rest;
        assert p[1..] == rest && words[..n] + words[n..] == words;
        assert forall k | 0 < k < |p| :: p[k] == rest[k - 1];
        p
  }

  lemma {:induction false} WalkableParse(words: seq<u32>)
    ensures Parse(words).Some? ==> Parse(words).value == Walkable(words)
    decreases |words|
  {
    if words != [] {
      var n := WordCount(words[0]);
      if 0 < n <= |words| {
        WalkableParse(words[n..]);
      }
    }
  }

  /** The second walker's question, asked of the words from some offset on. */
  predicate Finds(words: seq<u32>, specId: u32)
    decreases |words|
  {
    && words != []
    && var n := WordCount(words[0]);
       0 < n <= |words| && (Decorates(words[..n], specId) || Finds(words[n..], specId))
  }

  /** The answer is about the walkable instructions and about nothing else. */
  lemma {:induction false} FindsIff(words: seq<u32>, specId: u32)
    ensures Finds(words, specId) <==> exists ins | ins in Walkable(words) :: Decorates(ins, specId)
    decreases |words|
  {
    if words != [] {
      var n := WordCount(words[0]);
      if 0 < n <= |words| {
        FindsIff(words[n..], specId);
        assert forall ins :: ins in Walkable(words) <==> ins == words[..n] || ins in Walkable(words[n..]);
        assert words[..n] in Walkable(words);
      }
    }
  }

  /** `spirv_has_spec_id`. */
  method HasSpecId(code: array?<u32>, size: nat, specId: u32) returns (found: bool)
    requires code != null ==> size / 4 <= code.Length
    ensures found <==> && code != null && size >= 20 && size % 4 == 0 && code[0] == MAGIC
                       && Finds(code[HEADER_WORDS..size / 4], specId)
  {
    if code == null || size < 20 || size % 4 != 0 || code[0] != MAGIC {
      return false;
    }
    var words := size / 4;
    var offset := HEADER_WORDS;
    while offset < words
      invariant HEADER_WORDS <= offset <= words
      invariant Finds(code[HEADER_WORDS..words], specId) <==> Finds(code[offset..words], specId)
      decreases words - offset
    {
      var wordCount, opcode := WordCount(code[offset]), Opcode(code[offset]);
      ghost var rest := code[offset..words];
      if wordCount == 0 || offset + wordCount > words {
        return false;
      }
      assert rest[wordCount..] == code[offset + wordCount..words];
      assert Decorates(rest[..wordCount], specId) <==>
             wordCount >= 4 && opcode == OP_DECORATE && rest[2] == DECORATION_SPEC_ID && rest[3] == specId;
      if opcode == OP_DECORATE && wordCount >= 4 && code[offset + 2] == DECORATION_SPEC_ID &&
         code[offset + 3] == specId {
        return true;
      }
      offset := offset + wordCount;
    }
    return false;
  }

  lemma {:induction false} SpecIdsMembers(p: seq<Instruction>, bound: u32, specId: u32)
    ensures specId in SpecIds(p, bound) <==> exists ins | ins in p :: Decorates(ins, specId) && ins[1] < bound
  {
    if p != [] {
      var init, last := p[..|p| - 1], p[|p| - 1];
      assert p == init + [last];
      SpecIdsMembers(init, bound, specId);
      assert forall ins :: ins in p <==> ins in init || ins == last;
      assert SpecIdOf(last, bound) == Some(specId) <==> Decorates(last, specId) && last[1] < bound;
    }
  }

  /** Every SpecId decoration names an id below `bound`, as a valid module requires of all ids. */
  ghost predicate TargetsBelow(p: seq<Instruction>, bound: u32) {
    forall ins, specId: u32 | ins in p && Decorates(ins, specId) :: ins[1] < bound
  }

  /** The two walkers agree: over a module the reflection can walk, the second walker finds every SpecId the first
      kept; and if the first had room to spare and all decorated ids are below `bound`, it finds no other. */
  lemma WalkersAgree(words: seq<u32>, specId: u32)
    requires HeaderOk(words) && Instructions(words).Some?
    ensures var kept := First16(SpecIds(Instructions(words).value, words[3]));
            var found := Finds(words[HEADER_WORDS..], specId);
            && (specId in kept ==> found)
            && (|kept| < MAX_SHADER_BINDINGS && TargetsBelow(Instructions(words).value, words[3]) ==>
                  (found <==> specId in kept))
  {
    var p := Instructions(words).value;
    WalkableParse(words[HEADER_WORDS..]);
    FindsIff(words[HEADER_WORDS..], specId);
    SpecIdsMembers(p, words[3], specId);
    assert First16(SpecIds(p, words[3])) <= SpecIds(p, words[3]);
  }

  /** Some instruction of the walkable part decorates with the id. */
  ghost predicate Decorated(p: seq<Instruction>, specId: u32) {
    exists ins | ins in p :: Decorates(ins, specId)
  }

  /** Every id that decorates anything also decorates an id below `bound`. */
  ghost predicate AllCollected(p: seq<Instruction>, bound: u32) {
    forall specId: u32 | Decorated(p, specId) :: specId in SpecIds(p, bound)
  }

  /** Every collected id has an occurrence among the first sixteen. */
  ghost predicate AllKept(p: seq<Instruction>, bound: u32) {
    forall specId | specId in SpecIds(p, bound) :: specId in First16(SpecIds(p, bound))
  }

  /** The two walkers agree on all ids if and only if the first one loses none: neither to the bound nor to the limit of
      sixteen. */
  lemma WalkersAgreeIff(words: seq<u32>)
    requires HeaderOk(words) && Instructions(words).Some?
    ensures var p, bound := Instructions(words).value, words[3];
            (forall specId: u32 :: Finds(words[HEADER_WORDS..], specId) <==> specId in First16(SpecIds(p, bound))) <==>
            AllCollected(p, bound) && AllKept(p, bound)
  {
    var p, bound := Instructions(words).value, words[3];
    var kept := First16(SpecIds(p, bound));
    assert kept <= SpecIds(p, bound);
    forall specId: u32
      ensures Finds(words[HEADER_WORDS..], specId) <==> Decorated(p, specId)
      ensures specId in SpecIds(p, bound) ==> Decorated(p, specId)
    {
      WalkableParse(words[HEADER_WORDS..]);
      FindsIff(words[HEADER_WORDS..], specId);
      SpecIdsMembers(p, bound, specId);
    }
    assert forall specId | specId in kept :: specId in SpecIds(p, bound);
    if forall specId: u32 :: Finds(words[HEADER_WORDS..], specId) <==> specId in kept {
      assert AllCollected(p, bound) && AllKept(p, bound);
    } else {
      var specId: u32 :| !(Finds(words[HEADER_WORDS..], specId) <==> specId in kept);
      assert Decorated(p, specId) && specId !in kept;
    }
  }

  /** A decoration of an id that is not below `bound` is one way to lose it: in this module only the second walker
      sees it. */
  lemma StrayTargetDisagrees()
    ensures var words := [MAGIC, 0, 0, 1, 0, 0x4_0047, 1, DECORATION_SPEC_ID, 7];
            && HeaderOk(words) && Instructions(words).Some?
            && SpecIds(Instructions(words).value, words[3]) == []
            && Finds(words[HEADER_WORDS..], 7)
  {
    var words: seq<u32> := [MAGIC, 0, 0, 1, 0, 0x4_0047, 1, DECORATION_SPEC_ID, 7];
    var ins: Instruction := [0x4_0047, 1, DECORATION_SPEC_ID, 7];
    assert Flatten([ins]) == words[HEADER_WORDS..] by {
      assert [ins][1..] == [] && ins + [] == ins;
    }
    assert WellFormed(ins) by {
      assert ins[0] / 0x1_0000 == 4;
    }
    ParseFlatten([ins]);
    assert [ins][..0] == [];
    assert Decorates(words[HEADER_WORDS..][..4], 7);
  }

  /** A module with `n` decorations of id 0, by the SpecIds from 0 on. */
  function Decorations(n: u32): seq<Instruction> {
    if n == 0 then [] else Decorations(n - 1) + [[0x4_0047, 0, DECORATION_SPEC_ID, n - 1]]
  }

  lemma {:induction false} DecorationsAre(n: u32)
    ensures AllWellFormed(Decorations(n)) && |SpecIds(Decorations(n), 1)| == n
    ensures forall k: u32 | k < n :: SpecIds(Decorations(n), 1)[k] == k
    decreases n
  {
    if n > 0 {
      DecorationsAre(n - 1);
      var ins: Instruction := [0x4_0047, 0, DECORATION_SPEC_ID, n - 1];
      assert WordCount(ins[0]) == 4 && Opcode(ins[0]) == OP_DECORATE;
      assert Decorations(n)[..n - 1] == Decorations(n - 1) by { DecorationsLength(n - 1); }
      DecorationsLength(n);
    }
  }

  lemma {:induction false} DecorationsLength(n: u32)
    ensures |Decorations(n)| == n
    decreases n
  {
    if n > 0 {
      DecorationsLength(n - 1);
    }
  }

  /** The limit is the other way: of seventeen SpecIds only the second walker sees the last. */
  lemma SeventeenDisagree()
    ensures var words := [MAGIC, 0, 0, 1, 0] + Flatten(Decorations(17));
            && HeaderOk(words) && Instructions(words) == Some(Decorations(17))
            && 16 !in First16(SpecIds(Decorations(17), 1)) && Finds(words[HEADER_WORDS..], 16)
  {
    var p := Decorations(17);
    var words := [MAGIC, 0, 0, 1, 0] + Flatten(p);
    DecorationsAre(17);
    ParseFlatten(p);
    assert words[HEADER_WORDS..] == Flatten(p);
    WalkableParse(Flatten(p));
    FindsIff(Flatten(p), 16);
    SpecIdsMembers(p, 1, 16);
    assert SpecIds(p, 1)[16] == 16;
    forall k: u32 | k < 16 ensures First16(SpecIds(p, 1))[k] == k {
    }
  }
}
