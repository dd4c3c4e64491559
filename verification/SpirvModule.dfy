/** The word stream of a SPIR-V module (section 2.3 of the SPIR-V Specification): five header words followed by
    instructions whose first word holds the word count in its high half and the opcode in its low half. */
module SpirvModule {
  import opened MachineInts
  import opened Wrappers

  type Instruction = seq<u32>

  const MAGIC: u32 := 0x0723_0203
  const HEADER_WORDS := 5

  function WordCount(first: u32): nat {
    first / 0x1_0000
  }

  function Opcode(first: u32): nat {
    first % 0x1_0000
  }

  predicate WellFormed(ins: Instruction) {
    |ins| > 0 && WordCount(ins[0]) == |ins|
  }

  predicate AllWellFormed(p: seq<Instruction>) {
    forall k | 0 <= k < |p| :: WellFormed(p[k])
  }

  /** The words of an instruction list, one instruction after the other. */
  function Flatten(p: seq<Instruction>): seq<u32> {
    if p == [] then [] else p[0] + Flatten(p[1..])
  }

  /** The walk over the words that follow the header; `None` when an instruction is empty or runs past the end. */
  function Parse(words: seq<u32>): Option<seq<Instruction>>
    decreases |words|
  {
    if words == [] then Some([])
    else
      var n := WordCount(words[0]);
      if n == 0 || n > |words| then None
      else
        match Parse(words[n..])
        case None => None
        case Some(rest) => Some([words[..n]] + rest)
  }

  /** Walking the concatenation of well-formed instructions returns exactly those instructions. */
  lemma {:induction false} ParseFlatten(p: seq<Instruction>)
    requires AllWellFormed(p)
    ensures Parse(Flatten(p)) == Some(p)
  {
    if p != [] {
      var words := Flatten(p);
      var n := |p[0]|;
      assert WellFormed(p[0]) && words[0] == p[0][0];
      assert words[..n] == p[0] && words[n..] == Flatten(p[1..]);
      assert AllWellFormed(p[1..]) by {
        forall k | 0 <= k < |p[1..]| ensures WellFormed(p[1..][k]) { assert p[1..][k] == p[k + 1]; }
      }
      ParseFlatten(p[1..]);
      assert [p[0]] + p[1..] == p;
    }
  }

  /** Whatever the walk returns is well formed and re-assembles to the words it was given. */
  lemma {:induction false} FlattenParse(words: seq<u32>)
    requires Parse(words).Some?
    ensures AllWellFormed(Parse(words).value)
    ensures Flatten(Parse(words).value) == words
    decreases |words|
  {
    if words != [] {
      var n := WordCount(words[0]);
      FlattenParse(words[n..]);
      var rest := Parse(words[n..]).value;
      var p := [words[..n]] + rest;
      assert p[1..] == rest && words[..n] + words[n..] == words;
      forall k | 0 <= k < |p| ensures WellFormed(p[k]) {
        if k > 0 { assert p[k] == rest[k - 1]; }
      }
    }
  }

  /** The walk succeeds exactly on concatenations of well-formed instructions. */
  lemma ParseSucceedsIff(words: seq<u32>)
    ensures Parse(words).Some? <==> exists p :: AllWellFormed(p) && Flatten(p) == words
  {
    if Parse(words).Some? {
      FlattenParse(words);
    }
    forall p | AllWellFormed(p) && Flatten(p) == words ensures Parse(words).Some? {
      ParseFlatten(p);
    }
  }
}
