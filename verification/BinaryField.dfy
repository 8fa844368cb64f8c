/** GF(2)[x] modulo `x^width + low`, the polynomial-basis arithmetic of
    `sim/model.py`, for every width and every reduction polynomial.

    `Mul(f, a, b)` reads `b` as a polynomial in the operator `Xtime` and applies
    it to `a`. Because `b` may have any degree, "the modulus annihilates every
    element" is itself a statement about `Mul`, and the ring laws follow from
    the fact that two such operators commute. */
module BinaryField {
  import opened Outcomes
  import opened Bits

  datatype Parameters = Parameters(width: nat, low: nat) {
    predicate Valid() {
      width >= 1 && low < Pow2(width)
    }

    predicate Holds(v: nat) {
      v < Pow2(width)
    }

    /** The reduction polynomial with its leading term. */
    function Modulus(): nat {
      Pow2(width) + low
    }
  }

  type Field = f: Parameters | f.Valid() witness Parameters(1, 0)

  // ----- specification functions -----

  function Xtime(f: Field, v: nat): (r: nat)
    requires f.Holds(v)
    ensures f.Holds(r)
  {
    XtimeCases(f, v);
    var shifted := Low(2 * v, f.width);
    if Bit(v, f.width - 1) then Xor(shifted, f.low) else shifted
  }

  lemma XtimeCases(f: Field, v: nat)
    requires f.Holds(v)
    ensures Bit(v, f.width - 1) <==> v >= Pow2(f.width - 1)
    ensures v < Pow2(f.width - 1) ==> Low(2 * v, f.width) == 2 * v
    ensures v >= Pow2(f.width - 1) ==> 2 * v >= Pow2(f.width) && Low(2 * v, f.width) == 2 * v - Pow2(f.width)
    ensures f.Holds(Low(2 * v, f.width)) && f.Holds(Xor(Low(2 * v, f.width), f.low))
  {
    var n := f.width - 1;
    assert f.width == n + 1;
    DoubleLow(v, n);
    var shifted := Low(2 * v, f.width);
    XorBound(shifted, f.low, f.width);
  }

  lemma DoubleLow(v: nat, n: nat)
    requires v < Pow2(n + 1)
    ensures Bit(v, n) <==> v >= Pow2(n)
    ensures v < Pow2(n) ==> Low(2 * v, n + 1) == 2 * v
    ensures v >= Pow2(n) ==> 2 * v >= Pow2(n + 1) && Low(2 * v, n + 1) == 2 * v - Pow2(n + 1)
    ensures Low(2 * v, n + 1) < Pow2(n + 1)
  {
    TopBit(v, n);
    if v < Pow2(n) {
      LowSmall(2 * v, n + 1);
    } else {
      LowDropsTop(2 * v - Pow2(n + 1), n + 1);
    }
  }

  /** `x^n * v`. */
  function XtimePower(f: Field, v: nat, n: nat): (r: nat)
    requires f.Holds(v)
    ensures f.Holds(r)
  {
    if n == 0 then v else Xtime(f, XtimePower(f, v, n - 1))
  }

  /** The polynomial `b`, evaluated at the operator `Xtime`, applied to `a`. */
  function Mul(f: Field, a: nat, b: nat): (r: nat)
    requires f.Holds(a)
    ensures f.Holds(r)
    decreases b
  {
    if b == 0 then 0 else
    var rest := Mul(f, Xtime(f, a), b / 2);
    XorBound(a, rest, f.width);
    if b % 2 == 1 then Xor(a, rest) else rest
  }

  /** The carry-less product, before any reduction. */
  function CarrylessMul(a: nat, b: nat): nat
    decreases b
  {
    if b == 0 then 0 else Xor(if b % 2 == 1 then a else 0, CarrylessMul(2 * a, b / 2))
  }

  // ----- Xtime and Mul are linear, and all multiplications commute -----

  lemma XtimeLinear(f: Field, a: nat, b: nat)
    requires f.Holds(a) && f.Holds(b)
    ensures f.Holds(Xor(a, b)) && Xtime(f, Xor(a, b)) == Xor(Xtime(f, a), Xtime(f, b))
  {
    XorBound(a, b, f.width);
    XtimeAsXor(f, a);
    XtimeAsXor(f, b);
    XtimeAsXor(f, Xor(a, b));
    XorDouble(a, b);
    CarryLinear(f, a, b);
    XorInterchange(2 * a, Carry(f, a), 2 * b, Carry(f, b));
  }

  lemma CarryLinear(f: Field, a: nat, b: nat)
    requires f.Holds(a) && f.Holds(b)
    ensures Carry(f, Xor(a, b)) == Xor(Carry(f, a), Carry(f, b))
  {
    hide Xor, Pow2, Parameters.Modulus, Mul, Xtime;
    var n: nat := f.width - 1;
    assert Pow2(n + 1) == Pow2(f.width);
    TopBitLinear(a, b, n);
    XorOfChoices(f.Modulus(), a >= Pow2(n), b >= Pow2(n));
    assert Carry(f, Xor(a, b)) == if Xor(a, b) >= Pow2(n) then f.Modulus() else 0;
  }

  lemma XorOfChoices(m: nat, x: bool, y: bool)
    ensures Xor(if x then m else 0, if y then m else 0) == if x != y then m else 0
  {
    XorSelf(m);
    XorZero(m);
    XorZero(0);
    hide Xor;
  }

  /** What `Xtime` adds to the doubled value: the whole modulus, or nothing. */
  function Carry(f: Field, v: nat): nat {
    if v >= Pow2(f.width - 1) then f.Modulus() else 0
  }

  lemma XtimeAsXor(f: Field, v: nat)
    requires f.Holds(v)
    ensures Xtime(f, v) == Xor(2 * v, Carry(f, v))
  {
    hide Xor, Low, Bit, Pow2;
    XtimeCases(f, v);
    XorZero(2 * v);
    if v >= Pow2(f.width - 1) {
      XorBothTops(2 * v - Pow2(f.width), f.low, f.width);
    }
  }

  lemma XorBothTops(a: nat, b: nat, n: nat)
    requires a < Pow2(n) && b < Pow2(n)
    ensures Xor(a, b) == Xor(Pow2(n) + a, Pow2(n) + b)
  {
    XorTopBit(a, n);
    XorTopBit(b, n);
    XorInterchange(a, Pow2(n), b, Pow2(n));
    XorSelf(Pow2(n));
    XorZero(Xor(a, b));
  }

  lemma {:induction false} TopBitLinear(a: nat, b: nat, n: nat)
    requires a < Pow2(n + 1) && b < Pow2(n + 1)
    ensures Xor(a, b) >= Pow2(n) <==> (a >= Pow2(n)) != (b >= Pow2(n))
  {
    if n == 0 {
      XorZero(1);
      XorZero(0);
      XorSelf(1);
    } else {
      TopBitLinear(a / 2, b / 2, n - 1);
    }
  }

  lemma XtimeZero(f: Field)
    ensures Xtime(f, 0) == 0
  {
    XtimeAsXor(f, 0);
    XorZero(0);
  }

  lemma {:induction false} MulZeroLeft(f: Field, b: nat)
    ensures Mul(f, 0, b) == 0
    decreases b
  {
    if b != 0 {
      XtimeZero(f);
      MulZeroLeft(f, b / 2);
      XorZero(0);
    }
  }

  lemma {:induction false} MulLinearLeft(f: Field, a: nat, a': nat, b: nat)
    requires f.Holds(a) && f.Holds(a')
    ensures f.Holds(Xor(a, a')) && Mul(f, Xor(a, a'), b) == Xor(Mul(f, a, b), Mul(f, a', b))
    decreases b
  {
    XorBound(a, a', f.width);
    if b == 0 {
      XorZero(0);
    } else {
      XtimeLinear(f, a, a');
      MulLinearLeft(f, Xtime(f, a), Xtime(f, a'), b / 2);
      XorInterchange(a, a', Mul(f, Xtime(f, a), b / 2), Mul(f, Xtime(f, a'), b / 2));
    }
  }

  lemma {:induction false} MulLinearRight(f: Field, a: nat, b: nat, b': nat)
    requires f.Holds(a)
    ensures Mul(f, a, Xor(b, b')) == Xor(Mul(f, a, b), Mul(f, a, b'))
    decreases b + b'
  {
    if b == 0 {
      XorZero(b');
      XorZero(Mul(f, a, b'));
    } else if b' == 0 {
      XorZero(b);
      XorZero(Mul(f, a, b));
    } else {
      MulLinearRight(f, Xtime(f, a), b / 2, b' / 2);
      MulUnfold(f, a, b);
      MulUnfold(f, a, b');
      MulUnfold(f, a, Xor(b, b'));
      XorHalf(b, b');
      XorInterchange(Term(a, b), Mul(f, Xtime(f, a), b / 2), Term(a, b'), Mul(f, Xtime(f, a), b' / 2));
      XorSelf(a);
      XorZero(a);
    }
  }

  function Term(a: nat, b: nat): nat {
    if b % 2 == 1 then a else 0
  }

  lemma MulUnfold(f: Field, a: nat, b: nat)
    requires f.Holds(a)
    ensures Mul(f, a, b) == Xor(Term(a, b), Mul(f, Xtime(f, a), b / 2))
  {
    if b == 0 {
      assert b / 2 == 0;
      XorZero(0);
    } else {
      XorZero(Mul(f, Xtime(f, a), b / 2));
    }
  }

  lemma {:induction false} XtimeMul(f: Field, a: nat, b: nat)
    requires f.Holds(a)
    ensures Xtime(f, Mul(f, a, b)) == Mul(f, Xtime(f, a), b)
    decreases b
  {
    if b == 0 {
      XtimeZero(f);
    } else {
      XtimeMul(f, Xtime(f, a), b / 2);
      XtimeLinear(f, a, Mul(f, Xtime(f, a), b / 2));
    }
  }

  /** Multiplying by `b` and then by `c` is multiplying by `c` and then by `b`. */
  lemma {:induction false} MulSwap(f: Field, a: nat, b: nat, c: nat)
    requires f.Holds(a)
    ensures Mul(f, Mul(f, a, b), c) == Mul(f, Mul(f, a, c), b)
    decreases c
  {
    if c == 0 {
      MulZeroLeft(f, b);
    } else {
      var a' := Xtime(f, a);
      XtimeMul(f, a, b);
      MulSwap(f, a', b, c / 2);
      MulLinearLeft(f, a, Mul(f, a', c / 2), b);
    }
  }

  // ----- one and the powers of x -----

  lemma {:induction false} MulPowerOfTwo(f: Field, a: nat, n: nat)
    requires f.Holds(a)
    ensures Mul(f, a, Pow2(n)) == XtimePower(f, a, n)
  {
    if n == 0 {
      assert Mul(f, Xtime(f, a), 0) == 0;
      XorZero(a);
    } else {
      MulPowerOfTwo(f, a, n - 1);
      XtimeMul(f, a, Pow2(n - 1));
      assert Pow2(n) % 2 == 0 && Pow2(n) / 2 == Pow2(n - 1);
    }
  }

  lemma OneHolds(f: Field)
    ensures f.Holds(1)
  {
    Pow2Monotone(1, f.width);
  }

  /** While nothing overflows, multiplying a power of two shifts it. */
  lemma {:induction false} MulShiftedOne(f: Field, k: nat, b: nat, n: nat)
    requires k + n == f.width && n >= 1 && b < Pow2(n)
    ensures f.Holds(Pow2(k)) && Mul(f, Pow2(k), b) == Pow2(k) * b
    decreases n
  {
    Pow2Monotone(k + 1, f.width);
    var power := Pow2(k);
    if b == 1 {
      MulPowerOfTwo(f, power, 0);
    } else if b != 0 {
      var half := b / 2;
      XtimeCases(f, power);
      Pow2Monotone(k + 2, f.width);
      MulShiftedOne(f, k + 1, half, n - 1);
      ShiftedDigit(k, b % 2, half);
    }
  }

  lemma ShiftedDigit(k: nat, digit: nat, half: nat)
    requires digit < 2
    ensures Pow2(k + 1) * half == Pow2(k) * (2 * half)
    ensures digit == 1 ==> Xor(Pow2(k), Pow2(k + 1) * half) == Pow2(k) * (1 + 2 * half)
  {
    DoubledFactor(k + 1, half);
    hide Xor, Pow2;
    assert Pow2(k + 1) * half == Pow2(k) * (2 * half);
    if digit == 1 {
      XorShifted(1, 2 * half, k);
      XorOne(half);
    }
  }

  lemma {:induction false} XorShifted(a: nat, b: nat, k: nat)
    ensures Xor(Pow2(k) * a, Pow2(k) * b) == Pow2(k) * Xor(a, b)
  {
    if k != 0 {
      XorShifted(a, b, k - 1);
      XorDouble(Pow2(k - 1) * a, Pow2(k - 1) * b);
      DoubledFactor(k, a);
      DoubledFactor(k, b);
      DoubledFactor(k, Xor(a, b));
      hide Xor, Pow2;
    }
  }

  lemma DoubledFactor(k: nat, v: nat)
    requires k != 0
    ensures Pow2(k) * v == 2 * (Pow2(k - 1) * v)
  {
    var p := Pow2(k - 1);
    assert Pow2(k) == 2 * p;
    hide Pow2;
  }

  lemma XorOne(half: nat)
    ensures Xor(1, 2 * half) == 1 + 2 * half
  {
    XorZero(half);
    assert 1 / 2 == 0 && (2 * half) / 2 == half;
  }

  lemma MulOneLeft(f: Field, b: nat)
    requires f.Holds(b)
    ensures f.Holds(1) && Mul(f, 1, b) == b
  {
    MulShiftedOne(f, 0, b, f.width);
  }

  lemma MulOneRight(f: Field, a: nat)
    requires f.Holds(a)
    ensures Mul(f, a, 1) == a
  {
    MulPowerOfTwo(f, a, 0);
  }

  // ----- the ring laws -----

  lemma MulCommutes(f: Field, a: nat, b: nat)
    requires f.Holds(a) && f.Holds(b)
    ensures Mul(f, a, b) == Mul(f, b, a)
  {
    MulOneLeft(f, a);
    MulOneLeft(f, b);
    MulSwap(f, 1, a, b);
  }

  lemma MulAssociates(f: Field, a: nat, b: nat, c: nat)
    requires f.Holds(a) && f.Holds(b) && f.Holds(c)
    ensures Mul(f, Mul(f, a, b), c) == Mul(f, a, Mul(f, b, c))
  {
    MulCommutes(f, a, b);
    MulSwap(f, b, a, c);
    MulCommutes(f, Mul(f, b, c), a);
  }

  /** The modulus annihilates every element, at every shift. */
  lemma ModulusVanishes(f: Field, a: nat, n: nat)
    requires f.Holds(a)
    ensures Mul(f, a, Shl(f.Modulus(), n)) == 0
  {
    OneHolds(f);
    hide Xor, Mul, Low, Bit;
    var top := Pow2(f.width);
    MulPowerOfTwo(f, 1, f.width - 1);
    MulPowerOfTwo(f, 1, f.width);
    MulShiftedOne(f, f.width - 1, 1, 1);
    Pow2Monotone(f.width - 1, f.width);
    MulOneLeft(f, Pow2(f.width - 1));
    XtimeCases(f, Pow2(f.width - 1));
    XorZero(f.low);
    assert Mul(f, 1, top) == f.low;
    MulOneLeft(f, f.low);
    XorTopBit(f.low, f.width);
    MulLinearRight(f, 1, f.low, top);
    XorSelf(f.low);
    assert Mul(f, 1, f.Modulus()) == 0;
    MulOneLeft(f, a);
    MulSwap(f, 1, a, f.Modulus());
    MulZeroLeft(f, a);
    assert Mul(f, a, f.Modulus()) == 0;
    MulShl(f, a, f.Modulus(), n);
  }

  lemma {:induction false} MulShl(f: Field, a: nat, b: nat, n: nat)
    requires f.Holds(a) && Mul(f, a, b) == 0
    ensures Mul(f, a, Shl(b, n)) == 0
  {
    if n != 0 {
      MulShl(f, a, b, n - 1);
      MulDouble(f, a, Shl(b, n - 1));
      XtimeMul(f, a, Shl(b, n - 1));
      XtimeZero(f);
    }
  }

  lemma MulDouble(f: Field, a: nat, b: nat)
    requires f.Holds(a)
    ensures Mul(f, a, 2 * b) == Mul(f, Xtime(f, a), b)
  {
    MulUnfold(f, a, 2 * b);
    assert (2 * b) % 2 == 0 && (2 * b) / 2 == b;
    XorZero(Mul(f, Xtime(f, a), b));
  }

  /** Evaluating the unreduced product is multiplying twice. */
  lemma {:induction false} MulCarryless(f: Field, c: nat, a: nat, b: nat)
    requires f.Holds(c)
    ensures Mul(f, c, CarrylessMul(a, b)) == Mul(f, Mul(f, c, a), b)
    decreases b
  {
    if b != 0 {
      MulCarryless(f, c, 2 * a, b / 2);
      MulDouble(f, c, a);
      XtimeMul(f, c, a);
      MulLinearRight(f, c, Term(a, b), CarrylessMul(2 * a, b / 2));
      MulUnfold(f, Mul(f, c, a), b);
    }
  }

  // ----- the two multipliers -----

  /** One doubling with its conditional reduction. */
  method DoubleReduced(f: Field, value: nat) returns (r: nat)
    requires f.Holds(value)
    ensures r == Xtime(f, value)
    ensures f.Holds(r)
  {
    var carry := Bit(value, f.width - 1);
    var shifted := Low(Shl(value, 1), f.width);
    assert Shl(value, 1) == 2 * value;
    r := if carry then Xor(shifted, f.low) else shifted;
    if !carry {
      XtimeCases(f, value);
    }
  }

  /** Least significant bit of `b` first, `a` multiplied by x at every step. */
  method AccumulateBits(f: Field, a: nat, b: nat) returns (acc: nat)
    requires f.Holds(a) && f.Holds(b)
    ensures f.Holds(acc) && acc == Mul(f, a, b)
  {
    acc := 0;
    var shifted := a;
    var i := 0;
    XorZero(Mul(f, a, b));
    while i < f.width
      invariant 0 <= i <= f.width
      invariant f.Holds(acc) && f.Holds(shifted)
      invariant Xor(acc, Mul(f, shifted, Shr(b, i))) == Mul(f, a, b)
    {
      ghost var tail := Mul(f, Xtime(f, shifted), Shr(b, i) / 2);
      MulUnfold(f, shifted, Shr(b, i));
      XorAssociates(acc, Term(shifted, Shr(b, i)), tail);
      XorZero(acc);
      XorZero(tail);
      ShrStep(b, i);
      if Bit(b, i) {
        XorBound(acc, shifted, f.width);
        acc := Xor(acc, shifted);
      }
      shifted := DoubleReduced(f, shifted);
      i := i + 1;
    }
    ShrBound(b, f.width, 0);
    XorZero(acc);
  }

  /** Schoolbook carry-less product, then long division by the modulus. */
  method DivideProduct(f: Field, a: nat, b: nat) returns (r: nat)
    requires f.Holds(a) && f.Holds(b)
    ensures f.Holds(r) && r == Mul(f, a, b)
  {
    var product: nat := CarrylessProduct(f, a, b);
    OneHolds(f);
    MulCarryless(f, 1, a, b);
    MulOneLeft(f, a);
    ghost var target := Mul(f, a, b);

    var modulus := Or(f.low, Shl(1, f.width));
    ShlIsProduct(1, f.width);
    OrPlaces(f.low, 1, f.width);
    var degree: nat := 2 * f.width - 2;
    while degree >= f.width
      invariant 0 <= f.width - 1 <= degree <= 2 * f.width - 2
      invariant product < Pow2(degree + 1)
      invariant Mul(f, 1, product) == target
      decreases degree
    {
      TopBit(product, degree);
      if Bit(product, degree) {
        product := CancelTop(f, product, degree, modulus);
      }
      degree := degree - 1;
    }
    r := Low(product, f.width);
    LowSmall(product, f.width);
    MulOneLeft(f, product);
  }

  /** One step of the long division. */
  method CancelTop(f: Field, product: nat, degree: nat, modulus: nat) returns (r: nat)
    requires f.width <= degree && modulus == f.Modulus() && f.Holds(1)
    requires Pow2(degree) <= product < Pow2(degree + 1)
    ensures r < Pow2(degree)
    ensures Mul(f, 1, r) == Mul(f, 1, product)
  {
    var multiple := Shl(modulus, degree - f.width);
    r := Xor(product, multiple);
    ShlRange(modulus, f.width, degree - f.width);
    XorTopClears(product, multiple, degree);
    ModulusVanishes(f, 1, degree - f.width);
    MulLinearRight(f, 1, product, multiple);
    XorZero(Mul(f, 1, product));
  }

  lemma {:induction false} ShlRange(v: nat, m: nat, n: nat)
    requires Pow2(m) <= v < Pow2(m + 1)
    ensures Pow2(m + n) <= Shl(v, n) < Pow2(m + n + 1)
  {
    if n != 0 {
      ShlRange(v, m, n - 1);
    }
  }

  lemma {:induction false} ShlBound(v: nat, m: nat, n: nat)
    requires v < Pow2(m)
    ensures Shl(v, n) < Pow2(m + n)
  {
    if n != 0 {
      ShlBound(v, m, n - 1);
    }
  }

  method CarrylessProduct(f: Field, a: nat, b: nat) returns (product: nat)
    requires f.Holds(a) && f.Holds(b)
    ensures product == CarrylessMul(a, b)
    ensures product < Pow2(2 * f.width - 1)
  {
    hide Xor, CarrylessMul, Pow2;
    product := 0;
    var i := 0;
    XorZero(CarrylessMul(a, b));
    while i < f.width
      invariant 0 <= i <= f.width
      invariant if i == 0 then product == 0 else product < Pow2(f.width + i - 1)
      invariant Xor(product, CarrylessMul(Shl(a, i), Shr(b, i))) == CarrylessMul(a, b)
    {
      product := CarrylessStep(f, a, b, i, product);
      i := i + 1;
    }
    CarrylessSpent(f, a, b);
    XorZero(product);
  }

  lemma CarrylessSpent(f: Field, a: nat, b: nat)
    requires f.Holds(b)
    ensures CarrylessMul(Shl(a, f.width), Shr(b, f.width)) == 0
  {
    ShrBound(b, f.width, 0);
  }

  method CarrylessStep(f: Field, a: nat, b: nat, i: nat, product: nat) returns (r: nat)
    requires f.Holds(a)
    requires if i == 0 then product == 0 else product < Pow2(f.width + i - 1)
    ensures r < Pow2(f.width + i)
    ensures Xor(r, CarrylessMul(Shl(a, i + 1), Shr(b, i + 1))) == Xor(product, CarrylessMul(Shl(a, i), Shr(b, i)))
  {
    r := product;
    ghost var rest := Shr(b, i);
    ghost var tail := CarrylessMul(2 * Shl(a, i), rest / 2);
    ShrStep(b, i);
    CarrylessUnfold(Shl(a, i), rest);
    XorAssociates(product, Term(Shl(a, i), rest), tail);
    XorZero(product);
    XorZero(tail);
    ShlBound(a, f.width, i);
    if i != 0 {
      Pow2Monotone(f.width + i - 1, f.width + i);
    }
    if Bit(b, i) {
      XorBound(product, Shl(a, i), f.width + i);
      r := Xor(product, Shl(a, i));
    }
  }

  lemma CarrylessUnfold(a: nat, b: nat)
    ensures CarrylessMul(a, b) == Xor(Term(a, b), CarrylessMul(2 * a, b / 2))
  {
    if b == 0 {
      XorZero(0);
    }
  }

  // ----- the functions of `sim/model.py`; `None` where they raise over an operand that does not fit -----

  /** `mul_by_x`. */
  method MulByX(f: Field, value: nat) returns (r: Option<nat>)
    ensures r == if f.Holds(value) then Some(Xtime(f, value)) else None
  {
    if value >= Shl(1, f.width) {
      ShlIsProduct(1, f.width);
      return None;
    }
    ShlIsProduct(1, f.width);
    var doubled := DoubleReduced(f, value);
    return Some(doubled);
  }

  /** Both operands fit the mask. */
  method OperandsFit(f: Field, a: nat, b: nat) returns (fit: bool)
    ensures fit <==> f.Holds(a) && f.Holds(b)
  {
    var mask := Shl(1, f.width) - 1;
    ShlIsProduct(1, f.width);
    return a <= mask && b <= mask;
  }

  /** `gf_mul_bitserial`. */
  method GfMulBitserial(f: Field, a: nat, b: nat) returns (r: Option<nat>)
    ensures r == if f.Holds(a) && f.Holds(b) then Some(Mul(f, a, b)) else None
  {
    var fit := OperandsFit(f, a, b);
    if !fit {
      return None;
    }
    var product := AccumulateBits(f, a, b);
    return Some(product);
  }

  /** `gf_mul_polynomial`. */
  method GfMulPolynomial(f: Field, a: nat, b: nat) returns (r: Option<nat>)
    ensures r == if f.Holds(a) && f.Holds(b) then Some(Mul(f, a, b)) else None
  {
    var fit := OperandsFit(f, a, b);
    if !fit {
      return None;
    }
    var product := DivideProduct(f, a, b);
    return Some(product);
  }

  /** The two multipliers agree on all operands, and both are commutative. */
  method MultipliersAgree(f: Field, a: nat, b: nat) returns (serial: Option<nat>, schoolbook: Option<nat>, swapped: Option<nat>)
    ensures serial == schoolbook == swapped
    ensures serial.Some? <==> f.Holds(a) && f.Holds(b)
  {
    serial := GfMulBitserial(f, a, b);
    schoolbook := GfMulPolynomial(f, a, b);
    swapped := GfMulPolynomial(f, b, a);
    if serial.Some? {
      MulCommutes(f, a, b);
    }
  }
}
