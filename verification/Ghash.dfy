/** GF(2^128) as the endpoint, the host and the scalar oracle use it: the field of
    section 6.3 of NIST SP 800-38D with unreflected bit order, its generator
    `g = x`, pointers as powers of `g`, and inverses as powers. */
module Ghash {
  import opened Outcomes
  import opened Bits
  import opened BinaryField

  const TWO_TO_128: nat := 0x1_0000_0000_0000_0000_0000_0000_0000_0000
  const INDEX_BITS: nat := 16
  const INDEX_LIMIT: nat := 0x1_0000

  /** A field element, as the 128-bit integer the sources store. */
  type F128 = v: nat | v < TWO_TO_128

  lemma Pow2At16()
    ensures Pow2(16) == 0x1_0000
  {
    assert Pow2(4) == 16;
    Pow2Add(4, 4);
    Pow2Add(8, 8);
  }

  lemma Pow2At128()
    ensures Pow2(128) == TWO_TO_128
    ensures Pow2(INDEX_BITS) == INDEX_LIMIT
  {
    hide Pow2;
    Pow2At16();
    Pow2Add(16, 16);
    Pow2Add(32, 32);
    Pow2Add(64, 64);
  }

  function Ghash(): (f: Field)
    ensures f.width == 128 && f.low == 0x87
    ensures forall v: nat {:trigger f.Holds(v)} :: f.Holds(v) <==> v < TWO_TO_128
  {
    Pow2At128();
    Parameters(128, 0x87)
  }

  function Add(a: F128, b: F128): F128 {
    Pow2At128();
    XorBound(a, b, 128);
    Xor(a, b)
  }

  function FieldXtime(v: F128): F128 {
    Xtime(Ghash(), v)
  }

  function FieldMul(a: F128, b: F128): F128 {
    Mul(Ghash(), a, b)
  }

  /** `g^n`, the pointer that encodes index `n`. */
  function GPower(n: nat): F128 {
    XtimePower(Ghash(), 1, n)
  }

  function Power(a: F128, e: nat): F128 {
    if e == 0 then 1 else FieldMul(Power(a, e - 1), a)
  }

  // ----- ring laws, as the protocol uses them -----

  lemma AddCancels(a: F128, b: F128)
    ensures Add(Add(a, b), b) == a && Add(b, Add(a, b)) == a && Add(a, b) == Add(b, a)
  {
    XorCancels(a, b);
    XorCommutes(a, b);
    XorCommutes(b, Xor(a, b));
  }

  lemma FieldMulCommutes(a: F128, b: F128)
    ensures FieldMul(a, b) == FieldMul(b, a)
  {
    MulCommutes(Ghash(), a, b);
  }

  lemma FieldMulAssociates(a: F128, b: F128, c: F128)
    ensures FieldMul(FieldMul(a, b), c) == FieldMul(a, FieldMul(b, c))
  {
    MulAssociates(Ghash(), a, b, c);
  }

  lemma FieldMulOne(a: F128)
    ensures FieldMul(a, 1) == a == FieldMul(1, a)
  {
    MulOneLeft(Ghash(), a);
    MulOneRight(Ghash(), a);
  }

  lemma FieldMulZero(a: F128)
    ensures FieldMul(a, 0) == 0 == FieldMul(0, a)
  {
    MulZeroLeft(Ghash(), a);
  }

  /** A checked witness solves the equation, and the solution does not depend on the witness. */
  lemma WitnessSolves(known: F128, inverse: F128, product: F128)
    requires FieldMul(known, inverse) == 1
    ensures FieldMul(known, FieldMul(product, inverse)) == product
    ensures FieldMul(FieldMul(product, inverse), known) == product
    ensures forall x: F128 :: FieldMul(known, x) == product ==> x == FieldMul(product, inverse)
  {
    FieldMulCommutes(known, inverse);
    FieldMulAssociates(product, inverse, known);
    FieldMulOne(product);
    FieldMulCommutes(known, FieldMul(product, inverse));
    forall x: F128 | FieldMul(known, x) == product
      ensures x == FieldMul(product, inverse)
    {
      FieldMulCommutes(known, x);
      FieldMulAssociates(x, known, inverse);
      FieldMulOne(x);
    }
  }

  // ----- powers of the generator -----

  lemma {:induction false} XtimePowerMul(v: F128, n: nat)
    ensures FieldMul(GPower(n), v) == XtimePower(Ghash(), v, n)
  {
    if n == 0 {
      FieldMulOne(v);
    } else {
      XtimePowerMul(v, n - 1);
      XtimeMul(Ghash(), GPower(n - 1), v);
    }
  }

  lemma {:induction false} XtimePowerAdd(v: F128, m: nat, n: nat)
    ensures XtimePower(Ghash(), XtimePower(Ghash(), v, m), n) == XtimePower(Ghash(), v, m + n)
  {
    if n != 0 {
      XtimePowerAdd(v, m, n - 1);
    }
  }

  lemma GPowerAdd(m: nat, n: nat)
    ensures FieldMul(GPower(m), GPower(n)) == GPower(m + n)
  {
    XtimePowerMul(GPower(n), m);
    XtimePowerAdd(1, n, m);
  }

  /** No power of the generator is zero, so the zero word is never a pointer. */
  lemma {:induction false} GPowerNonzero(n: nat)
    ensures GPower(n) != 0
  {
    if n != 0 {
      GPowerNonzero(n - 1);
      XtimeNonzero(GPower(n - 1));
    }
  }

  lemma XtimeNonzero(v: F128)
    requires v != 0
    ensures FieldXtime(v) != 0
  {
    Pow2At128();
    XtimeCases(Ghash(), v);
    if v >= Pow2(127) {
      var d := v - Pow2(127);
      assert 2 * d != 0x87;
      if Xor(2 * d, 0x87) == 0 {
        XorInjective(2 * d, 0x87);
      }
    }
  }

  // ----- the endpoint's arithmetic -----

  /** `field_xtime`. */
  method FieldXtimeStep(value: F128) returns (r: F128)
    ensures r == FieldXtime(value)
  {
    r := DoubleReduced(Ghash(), value);
  }

  /** `field_mul`: the bit-serial product. */
  method SerialProduct(left: F128, right: F128) returns (r: F128)
    ensures r == FieldMul(left, right)
  {
    r := AccumulateBits(Ghash(), left, right);
  }

  /** `multiply` of the oracle and of the packet executor: schoolbook product and long division. */
  method SchoolbookProduct(left: F128, right: F128) returns (r: F128)
    ensures r == FieldMul(left, right)
  {
    r := DivideProduct(Ghash(), left, right);
  }

  /** `field_encode` over a window of `bits` index bits: square and multiply, top bit first. */
  method FieldEncode(bits: nat, index: nat) returns (r: Option<F128>)
    ensures index < Pow2(bits) ==> r == Some(GPower(index))
    ensures index >= Pow2(bits) ==> r == None
  {
    if index >= Pow2(bits) {
      return None;
    }
    var result: F128 := 1;
    var bit := bits;
    ShrBound(index, bits, 0);
    while bit > 0
      invariant 0 <= bit <= bits
      invariant result == GPower(Shr(index, bit))
    {
      bit := bit - 1;
      ghost var high := Shr(index, bit + 1);
      ShrStep(index, bit);
      GPowerAdd(high, high);
      result := SerialProduct(result, result);
      if Bit(index, bit) {
        result := FieldXtimeStep(result);
      }
    }
    return Some(result);
  }

  // ----- the host's inverse and the oracle's -----

  /** `a^(2^128 - 2)`. */
  ghost function Inverse(a: F128): F128 {
    Pow2At128();
    Power(a, Pow2(128) - 2)
  }

  lemma {:induction false} PowerAdd(a: F128, m: nat, n: nat)
    ensures Power(a, m + n) == FieldMul(Power(a, m), Power(a, n))
  {
    if n == 0 {
      FieldMulOne(Power(a, m));
    } else {
      PowerAdd(a, m, n - 1);
      FieldMulAssociates(Power(a, m), Power(a, n - 1), a);
    }
  }

  lemma {:induction false} PowerSquare(a: F128, n: nat)
    ensures Power(FieldMul(a, a), n) == Power(a, 2 * n)
  {
    if n != 0 {
      PowerSquare(a, n - 1);
      FieldMulAssociates(Power(a, 2 * n - 2), a, a);
      assert Power(a, 2 * n - 1) == FieldMul(Power(a, 2 * n - 2), a);
    }
  }

  /** `field_inverse`: 127 squarings, skipping exponent bit 0; `None` is the division by zero. */
  method FieldInverse(value: F128) returns (r: Option<F128>)
    ensures r == if value == 0 then None else Some(Inverse(value))
  {
    if value == 0 {
      return None;
    }
    var result: F128 := 1;
    var square := value;
    var bit := 0;
    InverseStart(value);
    while bit < 128
      invariant 0 <= bit <= 128
      invariant InverseSoFar(value, bit, result, square)
    {
      InverseRound(value, bit, result, square);
      if bit > 0 {
        result := SerialProduct(result, square);
      }
      square := SerialProduct(square, square);
      bit := bit + 1;
    }
    return Some(result);
  }

  /** After `bit` rounds: the square is `value^(2^bit)`, the result `value^(2^bit - 2)`. */
  ghost predicate InverseSoFar(value: F128, bit: nat, result: F128, square: F128) {
    && square == Power(value, Pow2(bit))
    && (if bit == 0 then result == 1 else Pow2(bit) >= 2 && result == Power(value, Pow2(bit) - 2))
  }

  lemma InverseStart(value: F128)
    ensures InverseSoFar(value, 0, 1, value)
  {
    FieldMulOne(value);
    assert Power(value, 0) == 1;
    assert Power(value, 1) == FieldMul(Power(value, 0), value);
  }

  lemma InverseRound(value: F128, bit: nat, result: F128, square: F128)
    requires InverseSoFar(value, bit, result, square)
    ensures InverseSoFar(value, bit + 1, if bit > 0 then FieldMul(result, square) else result, FieldMul(square, square))
  {
    PowerAdd(value, Pow2(bit), Pow2(bit));
    if bit > 0 {
      PowerAdd(value, Pow2(bit) - 2, Pow2(bit));
    } else {
      assert Power(value, 0) == 1;
    }
  }

  /** `inverse` of the oracle: right-to-left binary exponentiation. */
  method OracleInverse(value: F128) returns (result: F128)
    ensures result == if value == 0 then 0 else Inverse(value)
  {
    if value == 0 {
      return 0;
    }
    hide FieldMul, Power, Pow2;
    result := 1;
    var base := value;
    Pow2At128();
    var exponent: nat := TWO_TO_128 - 2;
    ghost var target := Power(value, exponent);
    FieldMulOne(target);
    while exponent != 0
      invariant FieldMul(result, Power(base, exponent)) == target
      decreases exponent
    {
      ExponentHalves(result, base, exponent / 2, exponent % 2 == 1);
      if exponent % 2 == 1 {
        result := SchoolbookProduct(result, base);
      }
      base := SchoolbookProduct(base, base);
      exponent := exponent / 2;
    }
    PowerOne(base);
    FieldMulOne(result);
  }

  /** One bit off the exponent. */
  lemma ExponentHalves(result: F128, base: F128, half: nat, odd: bool)
    ensures var more := if odd then FieldMul(result, base) else result;
            FieldMul(more, Power(FieldMul(base, base), half)) == FieldMul(result, Power(base, if odd then 1 + 2 * half else 2 * half))
  {
    hide FieldMul, Power;
    PowerSquare(base, half);
    if odd {
      PowerAdd(base, 1, 2 * half);
      PowerOne(base);
      FieldMulAssociates(result, base, Power(base, 2 * half));
    }
  }

  lemma PowerOne(a: F128)
    ensures Power(a, 0) == 1 && Power(a, 1) == a
  {
    FieldMulOne(a);
    assert Power(a, 1) == FieldMul(Power(a, 0), a);
  }
}
