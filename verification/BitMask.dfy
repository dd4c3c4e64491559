/** Bit masks on naturals, defined bit by bit, and what they compute for powers of two: `x & (p - 1)` is the remainder
    and `x & ~(p - 1)` the largest multiple. */
module BitMask {
  function Pow2(k: nat): (p: nat)
    ensures p >= 1
  {
    if k == 0 then 1 else 2 * Pow2(k - 1)
  }

  ghost predicate IsPow2(p: nat) {
    exists k: nat :: Pow2(k) == p
  }

  /** `x & y`. */
  function And(x: nat, y: nat): (r: nat)
    ensures r <= x
    decreases x
  {
    if x == 0 then 0 else 2 * And(x / 2, y / 2) + (if x % 2 == 1 && y % 2 == 1 then 1 else 0)
  }

  /** `x & ~y`. */
  function AndNot(x: nat, y: nat): (r: nat)
    ensures r <= x
    decreases x
  {
    if x == 0 then 0 else 2 * AndNot(x / 2, y / 2) + (if x % 2 == 1 && y % 2 == 0 then 1 else 0)
  }

  lemma {:induction false} MulAtLeast(d: nat, z: nat)
    requires z >= 1
    ensures d * z >= d
  {
    assert d * z == d * (z - 1) + d;
  }

  /** Quotient and remainder are determined by the division equation. */
  lemma RemainderUnique(x: nat, d: nat, q: nat, r: nat)
    requires d > 0 && r < d && x == d * q + r
    ensures x % d == r && x / d == q
  {
    var q', r' := x / d, x % d;
    DivisionEquation(x, d);
    if q' < q {
      MulAtLeast(d, q - q');
    } else if q' > q {
      MulAtLeast(d, q' - q);
    }
  }

  lemma DivisionEquation(x: nat, d: nat)
    requires d > 0
    ensures x == d * (x / d) + x % d && 0 <= x % d < d && 0 <= x / d
  {
  }

  lemma AndOdd(x: nat, y: nat)
    ensures And(x, 2 * y + 1) == 2 * And(x / 2, y) + x % 2
  {
    assert (2 * y + 1) / 2 == y && (2 * y + 1) % 2 == 1;
  }

  /** `x >> k`. */
  function Shift(x: nat, k: nat): nat {
    if k == 0 then x else Shift(x / 2, k - 1)
  }

  lemma Double(p: nat, q: nat)
    ensures (2 * p) * q == 2 * (p * q)
  {
  }

  lemma {:induction false} AndDivides(x: nat, k: nat)
    ensures x == Pow2(k) * Shift(x, k) + And(x, Pow2(k) - 1)
    ensures And(x, Pow2(k) - 1) < Pow2(k)
    decreases k
  {
    if k == 0 {
      AndZero(x);
    } else {
      var p := Pow2(k - 1);
      AndDivides(x / 2, k - 1);
      AndOdd(x, p - 1);
      Double(p, Shift(x / 2, k - 1));
    }
  }

  lemma AndIsRemainder(x: nat, k: nat)
    ensures And(x, Pow2(k) - 1) == x % Pow2(k)
  {
    AndDivides(x, k);
    RemainderUnique(x, Pow2(k), Shift(x, k), And(x, Pow2(k) - 1));
  }

  lemma {:induction false} AndZero(x: nat)
    ensures And(x, 0) == 0 && AndNot(x, 0) == x
  {
    if x != 0 {
      AndZero(x / 2);
    }
  }

  lemma {:induction false} AndSplits(x: nat, y: nat)
    ensures And(x, y) + AndNot(x, y) == x
  {
    if x != 0 {
      AndSplits(x / 2, y / 2);
    }
  }

  /** Rounding up with a mask gives the least multiple of the alignment that is not below the value. */
  lemma AlignUp(value: nat, k: nat)
    ensures var p, r := Pow2(k), AndNot(value + Pow2(k) - 1, Pow2(k) - 1);
            && r % p == 0
            && value <= r < value + p
            && forall m: nat | m % p == 0 && value <= m :: r <= m
  {
    var p, x := Pow2(k), value + Pow2(k) - 1;
    var r := AndNot(x, p - 1);
    AndDivides(x, k);
    AndSplits(x, p - 1);
    RemainderUnique(r, p, Shift(x, k), 0);
    forall m: nat | m % p == 0 && value <= m ensures r <= m {
      NoMultipleBetween(p, Shift(x, k), m);
    }
  }

  /** There is no multiple of `p` strictly between two successive ones. */
  lemma NoMultipleBetween(p: nat, b: nat, m: nat)
    requires p > 0 && m % p == 0 && m > p * b - p
    ensures p * b <= m
  {
    DivisionEquation(m, p);
    var a := m / p;
    if a < b {
      MulAtLeast(p, b - a);
    } else {
      MulMonotone(p, b, a);
    }
  }

  lemma MulMonotone(a: nat, x: nat, y: nat)
    requires x <= y
    ensures a * x <= a * y
  {
    assert a * y == a * x + a * (y - x);
  }

  lemma {:induction false} Pow2Grows(j: nat, k: nat)
    requires j <= k
    ensures Pow2(j) <= Pow2(k)
    decreases k - j
  {
    if j < k {
      Pow2Grows(j, k - 1);
    }
  }

  lemma {:induction false} Pow2Sum(a: nat, b: nat)
    ensures Pow2(a) * Pow2(b) == Pow2(a + b)
  {
    if b > 0 {
      Pow2Sum(a, b - 1);
      assert Pow2(a) * Pow2(b) == Pow2(a) * (2 * Pow2(b - 1)) == 2 * (Pow2(a) * Pow2(b - 1));
    }
  }

  /** `x ^ y`. */
  function Xor(x: nat, y: nat): nat
    decreases x + y
  {
    if x == 0 && y == 0 then 0 else 2 * Xor(x / 2, y / 2) + (if x % 2 == y % 2 then 0 else 1)
  }

  lemma {:induction false} XorCancels(x: nat, y: nat)
    ensures Xor(Xor(x, y), y) == x
    decreases x + y
  {
    if x != 0 || y != 0 {
      XorCancels(x / 2, y / 2);
      var z := Xor(x, y);
      assert z / 2 == Xor(x / 2, y / 2) && (z % 2 == if x % 2 == y % 2 then 0 else 1);
    }
  }

  lemma {:induction false} XorSymmetric(x: nat, y: nat)
    ensures Xor(x, y) == Xor(y, x)
    decreases x + y
  {
    if x != 0 || y != 0 {
      XorSymmetric(x / 2, y / 2);
    }
  }

  lemma XorOfDouble(m: nat, low: nat, y: nat)
    ensures Xor(2 * m + low, y) == 2 * Xor(m + low / 2, y / 2) + (if low % 2 == y % 2 then 0 else 1)
    ensures Xor(low, y) == 2 * Xor(low / 2, y / 2) + (if low % 2 == y % 2 then 0 else 1)
  {
    assert (2 * m + low) / 2 == m + low / 2 && (2 * m + low) % 2 == low % 2;
  }

  /** `x << k`. */
  function Left(x: nat, k: nat): nat {
    if k == 0 then x else 2 * Left(x, k - 1)
  }

  lemma {:induction false} LeftIs(x: nat, k: nat)
    ensures Left(x, k) == Pow2(k) * x
  {
    if k > 0 {
      LeftIs(x, k - 1);
      Double(Pow2(k - 1), x);
    }
  }

  /** A number of `k` bits is mixed into the low `k` bits. */
  lemma {:induction false} XorLowBits(high: nat, low: nat, y: nat, k: nat)
    requires low < Pow2(k) && y < Pow2(k)
    ensures Xor(Left(high, k) + low, y) == Left(high, k) + Xor(low, y)
    decreases k
  {
    if k == 0 {
      XorZero(high);
    } else {
      XorOfDouble(Left(high, k - 1), low, y);
      XorLowBits(high, low / 2, y / 2, k - 1);
    }
  }

  lemma XorOfByte(x: nat, high: nat, low: nat, y: nat)
    requires x == 0x100 * high + low && low < 0x100 && y < 0x100
    ensures Xor(x, y) == 0x100 * high + Xor(low, y)
  {
    assert Pow2(4) == 16;
    Pow2Sum(4, 4);
    LeftIs(high, 8);
    XorLowBits(high, low, y, 8);
  }

  lemma XorInjective(h: nat, a: nat, b: nat)
    ensures Xor(h, a) == Xor(h, b) <==> a == b
  {
    XorSymmetric(h, a);
    XorSymmetric(h, b);
    XorCancels(a, h);
    XorCancels(b, h);
  }

  lemma {:induction false} XorZero(x: nat)
    ensures Xor(x, 0) == x
  {
    if x != 0 {
      XorZero(x / 2);
    }
  }

  lemma {:induction false} XorHalf(x: nat, y: nat)
    ensures Xor(x, y) / 2 == Xor(x / 2, y / 2)
  {
  }

  /** A mask of `k` bits leaves the bits above it alone. */
  lemma {:induction false} XorKeepsHigh(x: nat, y: nat, k: nat)
    requires y < Pow2(k)
    ensures Shift(Xor(x, y), k) == Shift(x, k)
    decreases k
  {
    if k == 0 {
      XorZero(x);
    } else {
      XorHalf(x, y);
      XorKeepsHigh(x / 2, y / 2, k - 1);
    }
  }

  lemma {:induction false} XorFits(x: nat, y: nat, k: nat)
    requires x < Pow2(k) && y < Pow2(k)
    ensures Xor(x, y) < Pow2(k)
    decreases k
  {
    if k > 0 && (x != 0 || y != 0) {
      XorFits(x / 2, y / 2, k - 1);
    }
  }
}
