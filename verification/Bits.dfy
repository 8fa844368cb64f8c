/** Natural numbers read as bit strings: the shifts, masks and exclusive-or that
    the Python sources apply to their unbounded integers. Bit 0 is the parity. */
module Bits {

  function Pow2(n: nat): (p: nat)
    ensures p >= 1
  {
    if n == 0 then 1 else 2 * Pow2(n - 1)
  }

  /** `a ^ b`. */
  function Xor(a: nat, b: nat): nat
    decreases a + b
  {
    if a == 0 && b == 0 then 0 else (if a % 2 == b % 2 then 0 else 1) + 2 * Xor(a / 2, b / 2)
  }

  /** `a | b`. */
  function Or(a: nat, b: nat): nat
    decreases a + b
  {
    if a == 0 && b == 0 then 0 else (if a % 2 == 0 && b % 2 == 0 then 0 else 1) + 2 * Or(a / 2, b / 2)
  }

  /** `v >> n`. */
  function Shr(v: nat, n: nat): nat {
    if n == 0 then v else Shr(v / 2, n - 1)
  }

  /** `v << n`. */
  function Shl(v: nat, n: nat): nat {
    if n == 0 then v else 2 * Shl(v, n - 1)
  }

  /** `v & ((1 << n) - 1)`. */
  function Low(v: nat, n: nat): nat {
    if n == 0 then 0 else v % 2 + 2 * Low(v / 2, n - 1)
  }

  /** `(v >> n) & 1`. */
  predicate Bit(v: nat, n: nat) {
    Shr(v, n) % 2 == 1
  }

  // ----- powers of two -----

  lemma {:induction false} Pow2Add(m: nat, n: nat)
    ensures Pow2(m + n) == Pow2(m) * Pow2(n)
  {
    if m != 0 {
      Pow2Add(m - 1, n);
      assert Pow2(m + n) == 2 * (Pow2(m - 1) * Pow2(n)) == (2 * Pow2(m - 1)) * Pow2(n);
    }
  }

  lemma {:induction false} Pow2Monotone(m: nat, n: nat)
    requires m <= n
    ensures Pow2(m) <= Pow2(n)
  {
    if m < n {
      Pow2Monotone(m, n - 1);
    }
  }

  // ----- shifts and masks -----

  lemma {:induction false} ShrStep(v: nat, n: nat)
    ensures Shr(v, n + 1) == Shr(v, n) / 2
  {
    if n != 0 {
      ShrStep(v / 2, n - 1);
    }
  }

  lemma {:induction false} ShrBound(v: nat, m: nat, n: nat)
    requires v < Pow2(m + n)
    ensures Shr(v, m) < Pow2(n)
  {
    if m != 0 {
      ShrBound(v / 2, m - 1, n);
    }
  }

  lemma {:induction false} ShrAdd(v: nat, m: nat, n: nat)
    ensures Shr(Shr(v, m), n) == Shr(v, m + n)
  {
    if m != 0 {
      ShrAdd(v / 2, m - 1, n);
    }
  }

  lemma {:induction false} LowBound(v: nat, n: nat)
    ensures Low(v, n) < Pow2(n)
  {
    if n != 0 {
      LowBound(v / 2, n - 1);
    }
  }

  /** Shift and mask split a number. */
  lemma {:induction false} LowPlusShr(v: nat, n: nat)
    ensures Low(v, n) + Pow2(n) * Shr(v, n) == v
  {
    if n != 0 {
      LowPlusShr(v / 2, n - 1);
      assert 2 * (Pow2(n - 1) * Shr(v, n)) == Pow2(n) * Shr(v, n);
    }
  }

  lemma {:induction false} LowSplit(v: nat, m: nat, n: nat)
    ensures Low(v, m + n) == Low(v, m) + Pow2(m) * Low(Shr(v, m), n)
  {
    if m != 0 {
      LowSplit(v / 2, m - 1, n);
      assert Pow2(m) == 2 * Pow2(m - 1) && Shr(v, m) == Shr(v / 2, m - 1);
      assert Low(v, m + n) == v % 2 + 2 * Low(v / 2, m - 1 + n) && Low(v, m) == v % 2 + 2 * Low(v / 2, m - 1);
      hide Pow2, Low, Shr;
      TwiceProduct(Pow2(m - 1), Low(Shr(v, m), n));
    }
  }

  lemma TwiceProduct(p: nat, x: nat)
    ensures 2 * (p * x) == (2 * p) * x
  {
  }

  lemma {:induction false} LowSmall(v: nat, n: nat)
    requires v < Pow2(n)
    ensures Low(v, n) == v
  {
    if n != 0 {
      LowSmall(v / 2, n - 1);
    }
  }

  lemma {:induction false} LowDropsTop(v: nat, n: nat)
    requires v < Pow2(n)
    ensures Low(Pow2(n) + v, n) == v
  {
    if n != 0 {
      LowDropsTop(v / 2, n - 1);
      assert (Pow2(n) + v) / 2 == Pow2(n - 1) + v / 2;
    }
  }

  lemma {:induction false} TopBit(v: nat, n: nat)
    requires v < Pow2(n + 1)
    ensures Bit(v, n) <==> v >= Pow2(n)
  {
    if n != 0 {
      TopBit(v / 2, n - 1);
    }
  }

  lemma {:induction false} ShlIsProduct(v: nat, n: nat)
    ensures Shl(v, n) == v * Pow2(n)
  {
    if n != 0 {
      ShlIsProduct(v, n - 1);
    }
  }

  // ----- exclusive-or is an abelian group of exponent two -----

  lemma {:induction false} XorZero(a: nat)
    ensures Xor(a, 0) == a == Xor(0, a)
  {
    if a != 0 {
      XorZero(a / 2);
    }
  }

  lemma {:induction false} XorSelf(a: nat)
    ensures Xor(a, a) == 0
  {
    if a != 0 {
      XorSelf(a / 2);
    }
  }

  lemma {:induction false} XorCommutes(a: nat, b: nat)
    ensures Xor(a, b) == Xor(b, a)
    decreases a + b
  {
    if a != 0 || b != 0 {
      XorCommutes(a / 2, b / 2);
    }
  }

  lemma {:induction false} XorHalf(a: nat, b: nat)
    ensures Xor(a, b) % 2 == if a % 2 == b % 2 then 0 else 1
    ensures Xor(a, b) / 2 == Xor(a / 2, b / 2)
  {
    SplitLow(if a % 2 == b % 2 then 0 else 1, Xor(a / 2, b / 2));
  }

  lemma SplitLow(bit: nat, rest: nat)
    requires bit < 2
    ensures (bit + 2 * rest) % 2 == bit && (bit + 2 * rest) / 2 == rest
  {
  }

  lemma {:induction false} XorDouble(a: nat, b: nat)
    ensures Xor(2 * a, 2 * b) == 2 * Xor(a, b)
  {
    assert (2 * a) / 2 == a && (2 * b) / 2 == b;
  }

  lemma {:induction false} XorAssociates(a: nat, b: nat, c: nat)
    ensures Xor(Xor(a, b), c) == Xor(a, Xor(b, c))
    decreases a + b + c
  {
    if a != 0 || b != 0 || c != 0 {
      XorHalf(a, b);
      XorHalf(b, c);
      XorAssociates(a / 2, b / 2, c / 2);
    }
  }

  /** Middle four interchange. */
  lemma XorInterchange(a: nat, b: nat, c: nat, d: nat)
    ensures Xor(Xor(a, b), Xor(c, d)) == Xor(Xor(a, c), Xor(b, d))
  {
    XorAssociates(a, b, Xor(c, d));
    XorAssociates(b, c, d);
    XorCommutes(b, c);
    XorAssociates(c, b, d);
    XorAssociates(a, c, Xor(b, d));
  }

  lemma XorCancels(a: nat, b: nat)
    ensures Xor(Xor(a, b), b) == a
    ensures Xor(a, Xor(a, b)) == b
  {
    XorAssociates(a, b, b);
    XorSelf(b);
    XorZero(a);
    XorAssociates(a, a, b);
    XorSelf(a);
    XorZero(b);
  }

  lemma XorInjective(a: nat, b: nat)
    requires Xor(a, b) == 0
    ensures a == b
  {
    XorCancels(a, b);
    XorZero(b);
  }

  lemma {:induction false} XorBound(a: nat, b: nat, n: nat)
    requires a < Pow2(n) && b < Pow2(n)
    ensures Xor(a, b) < Pow2(n)
  {
    if n == 0 {
      XorZero(0);
    } else {
      XorBound(a / 2, b / 2, n - 1);
    }
  }

  /** Two numbers whose highest bit is bit `n` cancel it. */
  lemma {:induction false} XorTopClears(a: nat, b: nat, n: nat)
    requires Pow2(n) <= a < Pow2(n + 1) && Pow2(n) <= b < Pow2(n + 1)
    ensures Xor(a, b) < Pow2(n)
  {
    if n == 0 {
      XorSelf(1);
    } else {
      XorTopClears(a / 2, b / 2, n - 1);
    }
  }

  /** A set bit above everything in `v` is simply added. */
  lemma {:induction false} XorTopBit(v: nat, n: nat)
    requires v < Pow2(n)
    ensures Xor(v, Pow2(n)) == v + Pow2(n)
  {
    if n == 0 {
      XorZero(1);
    } else {
      XorTopBit(v / 2, n - 1);
      assert Pow2(n) % 2 == 0 && Pow2(n) / 2 == Pow2(n - 1);
    }
  }

  /** Placing `u` above the `n` low bits already in use. */
  lemma {:induction false} OrPlaces(v: nat, u: nat, n: nat)
    requires v < Pow2(n)
    ensures Or(v, Shl(u, n)) == v + Shl(u, n)
  {
    if n == 0 {
      OrZero(u);
    } else {
      OrPlaces(v / 2, u, n - 1);
    }
  }

  lemma {:induction false} OrZero(u: nat)
    ensures Or(0, u) == u
  {
    if u != 0 {
      OrZero(u / 2);
    }
  }
}
