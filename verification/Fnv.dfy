/** The FNV-1a hash, 32 bits wide, and what it can and cannot miss. */
module Fnv {
  import opened MachineInts
  import opened BitMask

  const OFFSET: u32 := 2166136261
  const PRIME: u32 := 16777619
  const INVERSE: u32 := 899433627  // of the prime, modulo 2^32

  const MODULUS := 0x1_0000_0000

  /** One round: the byte is mixed into the low bits, then the state is multiplied. */
  function Step(h: u32, b: u8): u32 {
    Times(Xor(h, b))
  }

  function Times(x: nat): u32 {
    (x * PRIME) % MODULUS
  }

  function Fold(h: u32, data: seq<u8>): u32 {
    if data == [] then h else Step(Fold(h, data[..|data| - 1]), data[|data| - 1])
  }

  function Hash(data: seq<u8>): u32 {
    Fold(OFFSET, data)
  }

  /** `fnv1a32`. */
  method Fnv1a32(bytes: array<u8>, from: nat, size: nat) returns (hash: u32)
    requires from + size <= bytes.Length
    ensures hash == Hash(bytes[from..from + size])
  {
    hash := OFFSET;
    var i := 0;
    while i < size
      invariant 0 <= i <= size
      invariant hash == Hash(bytes[from..from + i])
    {
      assert bytes[from..from + i + 1][..i] == bytes[from..from + i];
      XorWord(hash, bytes[from + i]);
      hash := Xor(hash, bytes[from + i]);
      hash := (hash * PRIME) % MODULUS;
      i := i + 1;
    }
  }

  /** The hash of no bytes and of one, in numbers: the byte goes into the low eight bits, then the prime multiplies. */
  lemma ShortHashes(b: u8)
    ensures Hash([]) == 0x811c9dc5
    ensures Hash([b]) == ((0x811c9d00 + Xor(0xc5, b)) * 0x01000193) % 0x1_0000_0000
  {
    assert [b][..0] == [];
    XorOfByte(Hash([]), 0x811c9d, 0xc5, b);
  }

  // ---- Every round is a bijection ----

  lemma Powers()
    ensures Pow2(8) == 0x100 && Pow2(32) == MODULUS
  {
    assert Pow2(4) == 16;
    Pow2Sum(4, 4);
    Pow2Sum(8, 8);
    Pow2Sum(16, 16);
  }

  lemma XorWord(h: u32, b: u8)
    ensures Xor(h, b) < MODULUS
  {
    Powers();
    XorFits(h, b, 32);
  }

  /** The round backwards. */
  function Undo(h: u32, b: u8): nat {
    Xor((h * INVERSE) % MODULUS, b)
  }

  lemma TimesInverse(x: u32)
    ensures (Times(x) * INVERSE) % MODULUS == x
    ensures Times((x * INVERSE) % MODULUS) == x
  {
    var q := x * PRIME / MODULUS;
    RemainderUnique(Times(x) * INVERSE, MODULUS, x * 3513497 - q * INVERSE, x);
    var p := x * INVERSE / MODULUS;
    RemainderUnique((x * INVERSE) % MODULUS * PRIME, MODULUS, x * 3513497 - p * PRIME, x);
  }

  lemma StepIsBijective(h: u32, b: u8)
    ensures Undo(Step(h, b), b) == h
    ensures Undo(h, b) < MODULUS && Step(Undo(h, b), b) == h
  {
    XorWord(h, b);
    TimesInverse(Xor(h, b));
    XorCancels(h, b);
    TimesInverse(h);
    XorWord((h * INVERSE) % MODULUS, b);
    XorCancels((h * INVERSE) % MODULUS, b);
  }

  lemma {:induction false} FoldAppend(h: u32, a: seq<u8>, b: seq<u8>)
    ensures Fold(h, a + b) == Fold(Fold(h, a), b)
  {
    if b == [] {
      assert a + b == a;
    } else {
      assert (a + b)[..|a + b| - 1] == a + b[..|b| - 1];
      FoldAppend(h, a, b[..|b| - 1]);
    }
  }

  /** Hashing on with the same bytes never merges two different states. */
  lemma {:induction false} FoldInjective(g: u32, h: u32, data: seq<u8>)
    ensures Fold(g, data) == Fold(h, data) <==> g == h
  {
    if data != [] {
      var init, last := data[..|data| - 1], data[|data| - 1];
      FoldInjective(g, h, init);
      StepIsBijective(Fold(g, init), last);
      StepIsBijective(Fold(h, init), last);
    }
  }

  /** Two buffers that differ only in a window collide exactly when the window alone leads from the state before it to
      one state. */
  lemma CollisionsAreLocal(prefix: seq<u8>, a: seq<u8>, b: seq<u8>, suffix: seq<u8>)
    ensures Hash(prefix + a + suffix) == Hash(prefix + b + suffix) <==> Fold(Hash(prefix), a) == Fold(Hash(prefix), b)
  {
    FoldAppend(OFFSET, prefix + a, suffix);
    FoldAppend(OFFSET, prefix + b, suffix);
    FoldAppend(OFFSET, prefix, a);
    FoldAppend(OFFSET, prefix, b);
    FoldInjective(Fold(Hash(prefix), a), Fold(Hash(prefix), b), suffix);
  }

  // ---- Windows of up to three bytes ----

  /** A byte changes the low eight bits of the state only. */
  lemma XorLow(h: u32, b: u8)
    ensures Xor(h, b) / 0x100 == h / 0x100
  {
    Powers();
    XorKeepsHigh(h, b, 8);
    LowByte(h);
    LowByte(Xor(h, b));
  }

  lemma LowByte(x: nat)
    ensures Shift(x, 8) == x / 0x100
  {
    Powers();
    AndDivides(x, 8);
    RemainderUnique(x, 0x100, Shift(x, 8), And(x, 0xFF));
  }

  /** No three small differences cancel out, the middle one being the sum of two. */
  lemma NoSmallRelation(d: int, e: int, f: int, k: int)
    requires -0x100 < d < 0x100 && -0x1FF < e < 0x1FF && -0x100 < f < 0x100
    requires d * 637696617 + e * PRIME == f + k * MODULUS
    ensures d == 0 && e == 0 && f == 0
  {
    var j := 0x100 * k - 38 * d - e;
    assert 162409 * d + 403 * e - f == j * 0x100_0000;
    assert -3 <= j <= 3;
    if j == 0 {
      assert d == 0 || d == 1 || d == -1;
    } else if j == 1 {
    } else if j == -1 {
    } else if j == 2 {
    } else if j == -2 {
    }
  }

  /** From one state, two different windows of three bytes lead to two different states. */
  lemma ThreeBytes(h: u32, a: u8, b: u8, c: u8, a': u8, b': u8, c': u8)
    requires Fold(h, [a, b, c]) == Fold(h, [a', b', c'])
    ensures a == a' && b == b' && c == c'
  {
    FoldThree(h, a, b, c);
    FoldThree(h, a', b', c');
    var x, x' := Xor(h, a), Xor(h, a');
    var v, v' := Times(x), Times(x');
    var y, y' := Xor(v, b), Xor(v', b');
    var w, w' := Times(y), Times(y');
    XorLow(h, a);
    XorLow(h, a');
    XorLow(v, b);
    XorLow(v', b');
    XorLow(w, c);
    XorLow(w', c');
    Undone(w, c, w', c');
    Differences(x, v, y, w, x', v', y', w');
    XorInjective(h, a, a');
    XorInjective(v, b, b');
    XorInjective(w, c, c');
  }

  lemma FoldSnoc(h: u32, s: seq<u8>, b: u8)
    ensures Fold(h, s + [b]) == Step(Fold(h, s), b)
  {
    assert (s + [b])[..|s + [b]| - 1] == s;
  }

  lemma FoldThree(h: u32, a: u8, b: u8, c: u8)
    ensures Fold(h, [a, b, c]) == Step(Step(Step(h, a), b), c)
  {
    FoldSnoc(h, [a, b], c);
    FoldSnoc(h, [a], b);
    FoldSnoc(h, [], a);
    assert [a, b, c] == [a, b] + [c] && [a, b] == [a] + [b] && [a] == [] + [a];
  }

  lemma Undone(w: u32, c: u8, w': u32, c': u8)
    requires Step(w, c) == Step(w', c')
    ensures Xor(w, c) == Xor(w', c')
  {
    XorWord(w, c);
    XorWord(w', c');
    TimesInverse(Xor(w, c));
    TimesInverse(Xor(w', c'));
  }

  /** States whose high bits agree before the first round and after the second are the same states. */
  lemma Differences(x: nat, v: nat, y: nat, w: nat, x': nat, v': nat, y': nat, w': nat)
    requires v == Times(x) && w == Times(y) && v' == Times(x') && w' == Times(y')
    requires x / 0x100 == x' / 0x100 && w / 0x100 == w' / 0x100
    requires y / 0x100 == v / 0x100 && y' / 0x100 == v' / 0x100
    ensures x == x' && y == y' && v == v' && w == w'
  {
    var d, e, f := x - x', y - y' - (v - v'), w - w';
    var p, q := x * PRIME / MODULUS - x' * PRIME / MODULUS, y * PRIME / MODULUS - y' * PRIME / MODULUS;
    assert v - v' == d * PRIME - p * MODULUS;
    assert f == (d * PRIME - p * MODULUS + e) * PRIME - q * MODULUS;
    assert d * 637696617 + e * PRIME == f + (q + p * PRIME - 65539 * d) * MODULUS;
    NoSmallRelation(d, e, f, q + p * PRIME - 65539 * d);
  }

  /** The buffers agree except in at most three adjacent bytes. */
  ghost predicate DifferInWindow(x: seq<u8>, y: seq<u8>, at: nat) {
    && |x| == |y|
    && forall i | 0 <= i < |x| && (i < at || at + 3 <= i) :: x[i] == y[i]
  }

  /** A change confined to three adjacent bytes is always seen. */
  lemma SmallChangesAreSeen(x: seq<u8>, y: seq<u8>, at: nat)
    requires DifferInWindow(x, y, at)
    ensures Hash(x) == Hash(y) <==> x == y
  {
    if Hash(x) == Hash(y) {
      if |x| < 3 {
        Pad(x, y);
      } else {
        var k := if at + 3 <= |x| then at else |x| - 3;
        assert x == x[..k] + [x[k], x[k + 1], x[k + 2]] + x[k + 3..];
        assert y == x[..k] + [y[k], y[k + 1], y[k + 2]] + x[k + 3..];
        CollisionsAreLocal(x[..k], [x[k], x[k + 1], x[k + 2]], [y[k], y[k + 1], y[k + 2]], x[k + 3..]);
        ThreeBytes(Hash(x[..k]), x[k], x[k + 1], x[k + 2], y[k], y[k + 1], y[k + 2]);
      }
    }
  }

  /** Shorter buffers, by hashing on with zeros. */
  lemma Pad(x: seq<u8>, y: seq<u8>)
    requires |x| == |y| < 3 && Hash(x) == Hash(y)
    ensures x == y
  {
    var zeros: seq<u8> := seq(3 - |x|, _ => 0);
    FoldAppend(OFFSET, x, zeros);
    FoldAppend(OFFSET, y, zeros);
    var x3, y3 := x + zeros, y + zeros;
    assert x3 == [x3[0], x3[1], x3[2]] && y3 == [y3[0], y3[1], y3[2]];
    ThreeBytes(OFFSET, x3[0], x3[1], x3[2], y3[0], y3[1], y3[2]);
    assert x == x3[..|x|] && y == y3[..|x|];
  }
}
