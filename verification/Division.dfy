/** Division of polynomials over GF(2): every number has one remainder modulo `x^width + low`, and the
    product of `BinaryField` is the remainder of the carry-less product. */
module Division {
  import opened Bits
  import opened BinaryField
  import opened Ghash

  // ----- remainders -----

  /** `r` is what is left of `b` after taking away a multiple of the modulus. */
  ghost predicate IsRemainder(f: Field, b: nat, r: nat) {
    f.Holds(r) && exists q: nat :: Leaves(f, b, q, r)
  }

  predicate Leaves(f: Field, b: nat, q: nat, r: nat) {
    Xor(CarrylessMul(f.Modulus(), q), r) == b
  }

  lemma {:induction false} CarrylessDouble(a: nat, b: nat)
    ensures CarrylessMul(2 * a, b) == 2 * CarrylessMul(a, b)
    decreases b
  {
    if b != 0 {
      CarrylessDouble(2 * a, b / 2);
      XorDouble(Term(a, b), CarrylessMul(2 * a, b / 2));
    }
  }

  lemma CarrylessDigit(a: nat, q: nat, top: bool)
    ensures CarrylessMul(a, 2 * q + if top then 1 else 0) == Xor(if top then a else 0, 2 * CarrylessMul(a, q))
  {
    var b := 2 * q + if top then 1 else 0;
    assert b / 2 == q && (b % 2 == 1 <==> top);
    CarrylessUnfold(a, b);
    CarrylessDouble(a, q);
  }

  /** One more digit: the remainder doubles, is reduced, and takes the digit. */
  lemma RemainderDigit(f: Field, b: nat, q: nat, r: nat, digit: nat) returns (more: nat)
    requires f.Holds(r) && Leaves(f, b, q, r) && digit < 2
    ensures Leaves(f, 2 * b + digit, more, Xor(Xtime(f, r), digit))
  {
    var top, m := r >= Pow2(f.width - 1), f.Modulus();
    more := 2 * q + if top then 1 else 0;
    CarrylessDigit(m, q, top);
    XtimeAsXor(f, r);
    XorDouble(CarrylessMul(m, q), r);
    DigitAdds(b, digit);
    hide Xor, CarrylessMul, Xtime, Bit, Parameters.Modulus, Pow2;
    XorRegroups(Carry(f, r), 2 * CarrylessMul(m, q), 2 * r, digit);
  }

  lemma DigitAdds(b: nat, digit: nat)
    requires digit < 2
    ensures Xor(2 * b, digit) == 2 * b + digit
  {
    XorHalf(2 * b, digit);
    XorZero(b);
    assert (2 * b) / 2 == b && digit / 2 == 0;
  }

  lemma XorRegroups(t: nat, x: nat, y: nat, d: nat)
    ensures Xor(Xor(t, x), Xor(Xor(y, t), d)) == Xor(Xor(x, y), d)
  {
    XorCommutes(t, x);
    XorCommutes(y, t);
    XorAssociates(Xor(x, t), Xor(t, y), d);
    XorAssociates(x, t, Xor(t, y));
    XorCancels(y, t);
    XorCommutes(t, Xor(t, y));
    XorCancels(t, y);
  }

  /** Applied to one, the operator `b` of the field is the remainder of `b`. */
  lemma {:induction false} OperatorDivides(f: Field, b: nat) returns (q: nat)
    ensures f.Holds(1) && Leaves(f, b, q, Mul(f, 1, b))
    decreases b
  {
    OneHolds(f);
    if b == 0 {
      q := 0;
      XorZero(0);
    } else {
      var half, digit := b / 2, b % 2;
      q := OperatorDivides(f, half);
      q := RemainderDigit(f, half, q, Mul(f, 1, half), digit);
      XtimeMul(f, 1, half);
      MulUnfold(f, 1, b);
      hide Mul, Xtime, Leaves, Xor;
      assert Term(1, b) == digit;
      XorCommutes(digit, Xtime(f, Mul(f, 1, half)));
    }
  }

  /** There is exactly one remainder. */
  lemma RemainderIs(f: Field, b: nat, r: nat)
    ensures f.Holds(1) && (IsRemainder(f, b, r) <==> r == Mul(f, 1, b))
  {
    OneHolds(f);
    var q := OperatorDivides(f, b);
    if IsRemainder(f, b, r) {
      var p: nat :| Leaves(f, b, p, r);
      hide Mul, CarrylessMul, Xor, Parameters.Modulus;
      MulLinearRight(f, 1, CarrylessMul(f.Modulus(), p), r);
      MulCarryless(f, 1, f.Modulus(), p);
      ModulusVanishes(f, 1, 0);
      MulZeroLeft(f, p);
      MulOneLeft(f, r);
      XorZero(r);
    }
  }

  /** The product of the field is the remainder of the carry-less product. */
  lemma ProductIsRemainder(f: Field, a: nat, b: nat, r: nat)
    requires f.Holds(a)
    ensures IsRemainder(f, CarrylessMul(a, b), r) <==> r == Mul(f, a, b)
  {
    RemainderIs(f, CarrylessMul(a, b), r);
    MulCarryless(f, 1, a, b);
    MulOneLeft(f, a);
  }

  /** The field of the endpoint: products modulo x^128 + x^7 + x^2 + x + 1. */
  lemma FieldProduct(a: F128, b: F128) returns (q: nat)
    ensures FieldMul(a, b) < Pow2(128)
    ensures Xor(CarrylessMul(Pow2(128) + Pow2(7) + Pow2(2) + Pow2(1) + Pow2(0), q), FieldMul(a, b)) == CarrylessMul(a, b)
  {
    var f := Ghash.Ghash();
    SmallPowers();
    hide Pow2, Xor, CarrylessMul;
    ProductIsRemainder(f, a, b, FieldMul(a, b));
    q :| Leaves(f, CarrylessMul(a, b), q, FieldMul(a, b));
  }

  /** The powers of the generator are the powers of x. */
  lemma GeneratorPowers(n: nat)
    ensures IsRemainder(Ghash.Ghash(), Pow2(n), GPower(n))
  {
    OneHolds(Ghash.Ghash());
    MulPowerOfTwo(Ghash.Ghash(), 1, n);
    RemainderIs(Ghash.Ghash(), Pow2(n), GPower(n));
  }

  lemma SmallPowers()
    ensures Pow2(7) + Pow2(2) + Pow2(1) + Pow2(0) == 0x87
  {
    assert Pow2(2) == 4;
    assert Pow2(4) == 16;
    assert Pow2(6) == 64;
  }
}
