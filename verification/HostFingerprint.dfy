/** The fingerprint of a host configuration: one FNV-1a hash, 64 bits wide, of all fields with a terminator behind
    each. */
module HostFingerprint {
  import opened MachineInts
  import opened BitMask
  import opened HostConfig

  const OFFSET64: u64 := 1469598103934665603
  const PRIME64: u64 := 1099511628211
  const TERMINATOR: u8 := 0xFF
  const INVERSE64: u64 := 14886173955864302971  // of the prime, modulo 2^64
  const WORD := 0x1_0000_0000_0000_0000

  function Round(h: u64, b: u8): u64 {
    Times64(Xor(h, b))
  }

  function Times64(x: nat): u64 {
    (x * PRIME64) % WORD
  }

  function Hash64(data: seq<u8>): u64 {
    if data == [] then OFFSET64 else Round(Hash64(data[..|data| - 1]), data[|data| - 1])
  }

  // ---- What the hash cannot miss ----

  lemma Powers64()
    ensures Pow2(8) == 0x100 && Pow2(64) == WORD
  {
    assert Pow2(4) == 16;
    Pow2Sum(4, 4);
    Pow2Sum(8, 8);
    Pow2Sum(16, 16);
    Pow2Sum(32, 32);
  }

  lemma XorWord64(h: u64, b: u8)
    ensures Xor(h, b) < WORD
  {
    Powers64();
    XorFits(h, b, 64);
  }

  lemma TimesInverse64(x: u64)
    ensures (Times64(x) * INVERSE64) % WORD == x
  {
    var q := x * PRIME64 / WORD;
    RemainderUnique(Times64(x) * INVERSE64, WORD, x * 887285111055 - q * INVERSE64, x);
  }

  /** A round merges nothing: neither two states under one byte nor two bytes from one state. */
  lemma RoundInjective(g: u64, h: u64, a: u8, b: u8)
    ensures Round(g, a) == Round(h, a) <==> g == h
    ensures Round(h, a) == Round(h, b) <==> a == b
  {
    XorWord64(g, a);
    XorWord64(h, a);
    XorWord64(h, b);
    TimesInverse64(Xor(g, a));
    TimesInverse64(Xor(h, a));
    TimesInverse64(Xor(h, b));
    XorCancels(g, a);
    XorCancels(h, a);
    XorInjective(h, a, b);
  }

  lemma HashSnoc(data: seq<u8>, b: u8)
    ensures Hash64(data + [b]) == Round(Hash64(data), b)
  {
    assert (data + [b])[..|data + [b]| - 1] == data;
  }

  /** Equal hashes stay equal, and different ones different, under the same further bytes. */
  lemma {:induction false} HashOnInjective(p: seq<u8>, q: seq<u8>, suffix: seq<u8>)
    ensures Hash64(p + suffix) == Hash64(q + suffix) <==> Hash64(p) == Hash64(q)
    decreases |suffix|
  {
    if suffix == [] {
      assert p + suffix == p && q + suffix == q;
    } else {
      var init, last := suffix[..|suffix| - 1], suffix[|suffix| - 1];
      HashOnInjective(p, q, init);
      assert p + suffix == p + init + [last] && q + suffix == q + init + [last];
      HashSnoc(p + init, last);
      HashSnoc(q + init, last);
      RoundInjective(Hash64(p + init), Hash64(q + init), last, last);
    }
  }

  /** Two configurations that differ in one byte of one field never have one fingerprint, whatever the byte. */
  lemma OneByteIsSeen(before: seq<seq<u8>>, x: seq<u8>, a: u8, b: u8, y: seq<u8>, after: seq<seq<u8>>)
    ensures Hash64(Framing(before + [x + [a] + y] + after)) == Hash64(Framing(before + [x + [b] + y] + after)) <==>
            a == b
  {
    var p, suffix := Framing(before) + x, y + [TERMINATOR] + Framing(after);
    FramingAround(before, x, a, y, after);
    FramingAround(before, x, b, y, after);
    HashOnInjective(p + [a], p + [b], suffix);
    HashSnoc(p, a);
    HashSnoc(p, b);
    RoundInjective(Hash64(p), Hash64(p), a, b);
  }

  lemma FramingAround(before: seq<seq<u8>>, x: seq<u8>, b: u8, y: seq<u8>, after: seq<seq<u8>>)
    ensures Framing(before + [x + [b] + y] + after) ==
            Framing(before) + x + [b] + (y + [TERMINATOR] + Framing(after))
  {
    var field := x + [b] + y;
    FramingAppend(before + [field], after);
    FramingAppend(before, [field]);
    FramingOfOne(field);
    Regroup(Framing(before), x, [b], y, [TERMINATOR], Framing(after));
  }

  lemma Regroup(a: seq<u8>, b: seq<u8>, c: seq<u8>, d: seq<u8>, e: seq<u8>, f: seq<u8>)
    ensures a + (b + c + d + e) + f == a + b + c + (d + e + f)
  {
  }

  /** The hash of no bytes and of one, in numbers: the byte goes into the low eight bits, then the prime multiplies. */
  lemma ShortHashes(b: u8)
    ensures Hash64([]) == 1469598103934665603
    ensures Hash64([b]) == ((1469598103934665472 + Xor(0x83, b)) * 1099511628211) % 0x1_0000_0000_0000_0000
  {
    assert [b][..0] == [];
    XorOfByte(Hash64([]), 1469598103934665603 / 0x100, 0x83, b);
  }

  // ---- Framing ----

  /** A string as bytes: its characters are bytes. */
  function Bytes(s: string): (bytes: seq<u8>)
    ensures |bytes| == |s|
    ensures forall i | 0 <= i < |s| :: bytes[i] == s[i] as int % 0x100
  {
    seq(|s|, i requires 0 <= i < |s| => s[i] as int % 0x100)
  }

  function FieldBytes(c: Config): (fields: seq<seq<u8>>)
    ensures |fields| == 11
    ensures forall i | 0 <= i < 11 :: fields[i] == Bytes(Fields(c)[i])
  {
    seq(11, i requires 0 <= i < 11 => Bytes(Fields(c)[i]))
  }

  /** The fields as one sequence of bytes. */
  function Framing(fields: seq<seq<u8>>): seq<u8> {
    if fields == [] then [] else Framing(fields[..|fields| - 1]) + fields[|fields| - 1] + [TERMINATOR]
  }

  /** One more byte. */
  method HashOn(hash: u64, ghost data: seq<u8>, b: u8) returns (next: u64)
    requires hash == Hash64(data)
    ensures next == Hash64(data + [b])
  {
    assert (data + [b])[..|data + [b]| - 1] == data;
    next := (Xor(hash, b) * PRIME64) % WORD;
  }

  /** `FingerprintVirglHostConfig`: the nested loops hash the framing, byte by byte. */
  method Fingerprint(fields: seq<seq<u8>>) returns (hash: u64)
    ensures hash == Hash64(Framing(fields))
  {
    hash := OFFSET64;
    var i := 0;
    while i < |fields|
      invariant 0 <= i <= |fields|
      invariant hash == Hash64(Framing(fields[..i]))
    {
      ghost var before := Framing(fields[..i]);
      var j := 0;
      assert before + fields[i][..0] == before;
      while j < |fields[i]|
        invariant 0 <= j <= |fields[i]|
        invariant hash == Hash64(before + fields[i][..j])
      {
        assert before + fields[i][..j + 1] == before + fields[i][..j] + [fields[i][j]];
        hash := HashOn(hash, before + fields[i][..j], fields[i][j]);
        j := j + 1;
      }
      assert fields[i][..j] == fields[i];
      hash := HashOn(hash, before + fields[i], TERMINATOR);
      assert fields[..i + 1][..i] == fields[..i];
      i := i + 1;
    }
    assert fields[..i] == fields;
  }

  ghost predicate NoTerminator(fields: seq<seq<u8>>) {
    forall f | f in fields :: TERMINATOR !in f
  }

  /** Fields without the terminator can be told apart by their framing. */
  lemma {:induction false} FramingIsInjective(a: seq<seq<u8>>, b: seq<seq<u8>>)
    requires NoTerminator(a) && NoTerminator(b)
    ensures Framing(a) == Framing(b) <==> a == b
    decreases |a|
  {
    if Framing(a) == Framing(b) {
      if a == [] || b == [] {
        FramingEmpty(a);
        FramingEmpty(b);
      } else {
        var a', b', x, y := a[..|a| - 1], b[..|b| - 1], a[|a| - 1], b[|b| - 1];
        assert x in a && y in b;
        LastFieldIs(a', x, b', y);
        FramingIsInjective(a', b');
        assert a == a' + [x] && b == b' + [y];
      }
    }
  }

  lemma FramingEmpty(fields: seq<seq<u8>>)
    ensures Framing(fields) == [] <==> fields == []
  {
  }

  /** Where the terminators are fixes the last field: what comes before it ends with one, or is empty. */
  lemma LastFieldIs(a: seq<seq<u8>>, x: seq<u8>, b: seq<seq<u8>>, y: seq<u8>)
    requires Framing(a) + x + [TERMINATOR] == Framing(b) + y + [TERMINATOR]
    requires TERMINATOR !in x && TERMINATOR !in y
    ensures x == y && Framing(a) == Framing(b)
  {
    var p, q := Framing(a), Framing(b);
    assert p + x == (p + x + [TERMINATOR])[..|p + x|] == q + y;
    if |p| < |q| {
      EndsInside(p, x, q, y);
    }
    if |q| < |p| {
      EndsInside(q, y, p, x);
    }
    assert p == (p + x)[..|p|] == q && x == (p + x)[|p|..] == y;
  }

  /** The end of the longer of two beginnings is in what follows the shorter. */
  lemma EndsInside(p: seq<u8>, x: seq<u8>, q: seq<u8>, y: seq<u8>)
    requires p + x == q + y && |p| < |q|
    ensures q[|q| - 1] in x
  {
    assert q[|q| - 1] == (q + y)[|q| - 1] == (p + x)[|q| - 1] == x[|q| - 1 - |p|];
  }

  /** Framing puts one terminator behind every field, besides those inside. */
  lemma {:induction false} TerminatorsIn(fields: seq<seq<u8>>)
    ensures multiset(Framing(fields))[TERMINATOR] >= |fields|
    ensures multiset(Framing(fields))[TERMINATOR] == |fields| <==> NoTerminator(fields)
    decreases |fields|
  {
    if fields != [] {
      var before, last := fields[..|fields| - 1], fields[|fields| - 1];
      TerminatorsIn(before);
      assert fields == before + [last];
      assert NoTerminator(fields) <==> NoTerminator(before) && TERMINATOR !in last by {
        assert forall f :: f in fields <==> f in before || f == last;
      }
      assert multiset(Framing(fields)) == multiset(Framing(before)) + multiset(last) + multiset{TERMINATOR};
    }
  }

  lemma {:induction false} FramingAppend(a: seq<seq<u8>>, b: seq<seq<u8>>)
    ensures Framing(a + b) == Framing(a) + Framing(b)
    decreases |b|
  {
    if b == [] {
      assert a + b == a;
    } else {
      var n := |b| - 1;
      FramingAppend(a, b[..n]);
      assert (a + b)[..|a + b| - 1] == a + b[..n];
    }
  }

  /** Two fields that meet at one of two terminators. */
  lemma Meeting(before: seq<seq<u8>>, x: seq<u8>, y: seq<u8>, z: seq<u8>, after: seq<seq<u8>>)
    ensures Framing(before + [x + [TERMINATOR] + y, z] + after) == Framing(before + [x, y + [TERMINATOR] + z] + after)
  {
    var left, right := [x + [TERMINATOR] + y, z], [x, y + [TERMINATOR] + z];
    FramingOfTwo(x + [TERMINATOR] + y, z);
    FramingOfTwo(x, y + [TERMINATOR] + z);
    assert Framing(left) == Framing(right);
    FramingAppend(before, left);
    FramingAppend(before, right);
    FramingAppend(before + left, after);
    FramingAppend(before + right, after);
  }

  /** Among the lists of its length, a list of two or more fields is determined by its framing if and only if none of
      its fields holds the terminator. */
  lemma DeterminedIff(a: seq<seq<u8>>)
    requires |a| >= 2
    ensures (forall b: seq<seq<u8>> | |b| == |a| && Framing(b) == Framing(a) :: b == a) <==> NoTerminator(a)
  {
    if NoTerminator(a) {
      forall b: seq<seq<u8>> | |b| == |a| && Framing(b) == Framing(a) ensures b == a {
        TerminatorsIn(a);
        TerminatorsIn(b);
        FramingIsInjective(a, b);
      }
    } else {
      var b := Confused(a);
    }
  }

  /** A terminator inside a field can end the field, and the rest of it begins the next one; inside the last field, it
      can belong to the one before. */
  lemma Confused(a: seq<seq<u8>>) returns (b: seq<seq<u8>>)
    requires |a| >= 2 && !NoTerminator(a)
    ensures |b| == |a| && Framing(b) == Framing(a) && b != a
  {
    var i :| 0 <= i < |a| && TERMINATOR in a[i];
    var j :| 0 <= j < |a[i]| && a[i][j] == TERMINATOR;
    var x, y := a[i][..j], a[i][j + 1..];
    assert a[i] == x + [TERMINATOR] + y;
    if i + 1 < |a| {
      assert a == a[..i] + [x + [TERMINATOR] + y, a[i + 1]] + a[i + 2..];
      b := a[..i] + [x, y + [TERMINATOR] + a[i + 1]] + a[i + 2..];
      Meeting(a[..i], x, y, a[i + 1], a[i + 2..]);
      assert b[i] == x != a[i];
    } else {
      assert a == a[..i - 1] + [a[i - 1], x + [TERMINATOR] + y] + [];
      b := a[..i - 1] + [a[i - 1] + [TERMINATOR] + x, y] + [];
      Meeting(a[..i - 1], a[i - 1], x, y, []);
      assert b[i] == y != a[i];
    }
  }

  /** Two lists of eleven fields, none of them empty and both paths absolute, have one fingerprint. */
  lemma TerminatorConfuses(rest: seq<seq<u8>>)
    requires |rest| == 9
    ensures Framing([[0x2F, TERMINATOR, 0x2F], [0x2F]] + rest) == Framing([[0x2F], [0x2F, TERMINATOR, 0x2F]] + rest)
    ensures [[0x2F, TERMINATOR, 0x2F], [0x2F]] + rest != [[0x2F], [0x2F, TERMINATOR, 0x2F]] + rest
  {
    var long, short: seq<u8> := [0x2F, TERMINATOR, 0x2F], [0x2F];
    Meeting([], short, short, short, rest);
    assert short + [TERMINATOR] + short == long;
    assert [] + [long, short] + rest == [long, short] + rest && [] + [short, long] + rest == [short, long] + rest;
    assert ([long, short] + rest)[0] == long && ([short, long] + rest)[0] == short && |long| != |short|;
  }

  lemma FramingOfOne(x: seq<u8>)
    ensures Framing([x]) == x + [TERMINATOR]
  {
    assert [x][..0] == [];
    assert Framing([x]) == Framing([]) + x + [TERMINATOR];
    assert Framing([]) + x == x;
  }

  lemma FramingOfTwo(x: seq<u8>, y: seq<u8>)
    ensures Framing([x, y]) == x + [TERMINATOR] + y + [TERMINATOR]
  {
    assert [x, y][..1] == [x] && [x][..0] == [];
    assert Framing([x]) == Framing([]) + x + [TERMINATOR];
  }

  // ---- Configurations ----

  /** The fields consist of bytes other than the terminator, as text in UTF-8 does. */
  ghost predicate IsText(c: Config) {
    forall f | f in Fields(c) :: TextOnly(f)
  }

  predicate TextOnly(s: string) {
    forall ch | ch in s :: ch as int < 0xFF
  }

  lemma BytesOfText(s: string)
    requires TextOnly(s)
    ensures forall i | 0 <= i < |s| :: Bytes(s)[i] == s[i] as int < 0xFF
  {
    forall i | 0 <= i < |s| ensures Bytes(s)[i] == s[i] as int < 0xFF {
      assert s[i] in s;
    }
  }

  lemma BytesTell(s: string, t: string)
    requires TextOnly(s) && TextOnly(t)
    ensures Bytes(s) == Bytes(t) <==> s == t
    ensures TERMINATOR !in Bytes(s)
  {
    BytesOfText(s);
    BytesOfText(t);
    if Bytes(s) == Bytes(t) {
      assert |s| == |Bytes(s)| == |t|;
      forall i | 0 <= i < |s| ensures s[i] == t[i] {
        assert Bytes(s)[i] == Bytes(t)[i];
      }
      assert s == t;
    }
  }

  lemma TextHasNoTerminator(c: Config)
    requires IsText(c)
    ensures NoTerminator(FieldBytes(c))
  {
    var all := FieldBytes(c);
    forall i | 0 <= i < |all| ensures TERMINATOR !in all[i] {
      assert Fields(c)[i] in Fields(c);
      BytesTell(Fields(c)[i], Fields(c)[i]);
    }
  }

  lemma FieldsTell(c: Config, d: Config)
    ensures Fields(c) == Fields(d) <==> c == d
  {
    if Fields(c) == Fields(d) {
      assert forall i | 0 <= i < 11 :: Fields(c)[i] == Fields(d)[i];
    }
  }

  /** What is hashed tells any two configurations of text apart, whichever of the eleven fields differ. */
  lemma ConfigsAreTold(c: Config, d: Config)
    requires IsText(c) && IsText(d)
    ensures Framing(FieldBytes(c)) == Framing(FieldBytes(d)) <==> c == d
  {
    TextHasNoTerminator(c);
    TextHasNoTerminator(d);
    FramingIsInjective(FieldBytes(c), FieldBytes(d));
    if FieldBytes(c) == FieldBytes(d) {
      forall i | 0 <= i < 11 ensures Fields(c)[i] == Fields(d)[i] {
        assert Fields(c)[i] in Fields(c) && Fields(d)[i] in Fields(d);
        BytesTell(Fields(c)[i], Fields(d)[i]);
      }
      FieldsTell(c, d);
    }
  }
}
