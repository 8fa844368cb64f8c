/** What the CRC register computes: the remainder of the message, read as a polynomial. The published
    check value follows, and with it the polynomial, the initial value and the final complement. */
module CrcDivision {
  import opened Bits
  import opened Bytes
  import opened BinaryField
  import opened Crc32
  import opened Division

  // ----- reversed bits -----

  /** The `n` low bits of `v` in the opposite order. */
  function Reversed(v: nat, n: nat): (r: nat)
    ensures r < Pow2(n)
  {
    if n == 0 then 0 else (if v % 2 == 1 then Pow2(n - 1) else 0) + Reversed(v / 2, n - 1)
  }

  lemma {:induction false} ReversedXor(a: nat, b: nat, n: nat)
    ensures Reversed(Xor(a, b), n) == Xor(Reversed(a, n), Reversed(b, n))
  {
    hide Xor, Pow2;
    if n == 0 {
      XorZero(0);
    } else {
      XorHalf(a, b);
      ReversedXor(a / 2, b / 2, n - 1);
      XorTops(a % 2 == 1, b % 2 == 1, Reversed(a / 2, n - 1), Reversed(b / 2, n - 1), n - 1);
    }
  }

  lemma XorTops(x: bool, y: bool, r: nat, s: nat, n: nat)
    requires r < Pow2(n) && s < Pow2(n)
    ensures Xor(r, s) < Pow2(n)
    ensures Xor((if x then Pow2(n) else 0) + r, (if y then Pow2(n) else 0) + s) == (if x != y then Pow2(n) else 0) + Xor(r, s)
  {
    hide Xor, Pow2;
    XorBound(r, s, n);
    XorTopBit(r, n);
    XorTopBit(s, n);
    XorTopBit(Xor(r, s), n);
    XorBothTops(r, s, n);
    XorAssociates(r, s, Pow2(n));
    XorAssociates(r, Pow2(n), s);
    XorCommutes(Pow2(n), s);
  }

  /** With zeros on top the reversed bits move up. */
  lemma {:induction false} ReversedGrows(v: nat, n: nat)
    requires v < Pow2(n)
    ensures Reversed(v, n + 1) == 2 * Reversed(v, n)
  {
    if n != 0 {
      ReversedGrows(v / 2, n - 1);
    }
  }

  lemma {:induction false} ReversedShifts(v: nat, m: nat, n: nat)
    requires v < Pow2(m)
    ensures Reversed(v, m + n) == Shl(Reversed(v, m), n)
  {
    if n != 0 {
      ReversedShifts(v, m, n - 1);
      Pow2Monotone(m, m + n - 1);
      ReversedGrows(v, m + n - 1);
    }
  }

  lemma {:induction false} ReversedSplit(v: nat, m: nat, n: nat)
    ensures Reversed(v, m + n) == Xor(Shl(Reversed(v, m), n), Reversed(Shr(v, m), n))
  {
    if m == 0 {
      ShlIsProduct(0, n);
      XorZero(Reversed(v, n));
    } else {
      ReversedSplit(v / 2, m - 1, n);
      SplitStep(v % 2 == 1, Reversed(v / 2, m - 1), Reversed(Shr(v, m), n), m, n);
    }
  }

  lemma SplitStep(odd: bool, high: nat, low: nat, m: nat, n: nat)
    requires m > 0 && high < Pow2(m - 1) && low < Pow2(n)
    ensures (if odd then Pow2(m + n - 1) else 0) + Xor(Shl(high, n), low)
         == Xor(Shl((if odd then Pow2(m - 1) else 0) + high, n), low)
  {
    hide Xor, Pow2, Shl;
    ShlBound(high, m - 1, n);
    Pow2Monotone(n, m + n - 1);
    ShlIsProduct(high, n);
    ShlIsProduct(Pow2(m - 1) + high, n);
    Pow2Add(m - 1, n);
    assert Pow2(m - 1 + n) == Pow2(m + n - 1);
    Distributes(Pow2(m - 1), high, Pow2(n));
    XorTops(odd, false, Shl(high, n), low, m + n - 1);
  }

  lemma Distributes(a: nat, b: nat, c: nat)
    ensures (a + b) * c == a * c + b * c
  {
  }

  // ----- the register is a remainder -----

  /** x^32 + x^26 + x^23 + x^22 + x^16 + x^12 + x^11 + x^10 + x^8 + x^7 + x^5 + x^4 + x^2 + x + 1. */
  function Ieee(): Field {
    Pow2At32();
    Parameters(32, 0x04C1_1DB7)
  }

  lemma ReversedBit(q: nat, bit: bool, n: nat)
    ensures Reversed(2 * q + if bit then 1 else 0, n + 1) == (if bit then Pow2(n) else 0) + Reversed(q, n)
  {
    var v := 2 * q + if bit then 1 else 0;
    assert v / 2 == q && (v % 2 == 1 <==> bit);
  }

  function Nibble(a: bool, b: bool, c: bool, d: bool): nat {
    (if a then 8 else 0) + (if b then 4 else 0) + (if c then 2 else 0) + if d then 1 else 0
  }

  lemma ReversedNibble(q: nat, a: bool, b: bool, c: bool, d: bool, n: nat)
    ensures Reversed(16 * q + Nibble(a, b, c, d), n + 4) == Nibble(d, c, b, a) * Pow2(n) + Reversed(q, n)
  {
    hide Reversed, Pow2;
    var q1 := 2 * q + if a then 1 else 0;
    var q2 := 2 * q1 + if b then 1 else 0;
    var q3 := 2 * q2 + if c then 1 else 0;
    ReversedBit(q, a, n);
    ReversedBit(q1, b, n + 1);
    ReversedBit(q2, c, n + 2);
    ReversedBit(q3, d, n + 3);
    PowersAbove(n);
    NibbleTimes(d, c, b, a, Pow2(n));
  }

  lemma PowersAbove(n: nat)
    ensures Pow2(n + 3) == 8 * Pow2(n) && Pow2(n + 2) == 4 * Pow2(n) && Pow2(n + 1) == 2 * Pow2(n)
  {
  }

  lemma NibbleTimes(a: bool, b: bool, c: bool, d: bool, p: nat)
    ensures Nibble(a, b, c, d) * p == (if a then 8 * p else 0) + (if b then 4 * p else 0) + (if c then 2 * p else 0) + if d then p else 0
  {
  }

  lemma PolynomialReversed()
    ensures Reversed(0xEDB8_8320, 32) == 0x04C1_1DB7
  {
    hide Pow2, Reversed;
    Pow2At32();
    SixteenPowers();
    ReversedNibble(0xEDB8_832, false, false, false, false, 28);
    ReversedNibble(0xEDB8_83, false, false, true, false, 24);
    ReversedNibble(0xEDB8_8, false, false, true, true, 20);
    ReversedNibble(0xEDB8, true, false, false, false, 16);
    ReversedNibble(0xEDB, true, false, false, false, 12);
    ReversedNibble(0xED, true, false, true, true, 8);
    ReversedNibble(0xE, true, true, false, true, 4);
    ReversedNibble(0, true, true, true, false, 0);
    ReversedNone(0);
  }

  lemma ReversedNone(v: nat)
    ensures Reversed(v, 0) == 0
  {
  }

  lemma SixteenPowers()
    ensures Pow2(0) == 1 && Pow2(4) == 0x10 && Pow2(12) == 0x1000 && Pow2(16) == 0x1_0000
    ensures Pow2(20) == 0x10_0000 && Pow2(28) == 0x1000_0000
  {
    Pow2At32();
    assert Pow2(2) == 4;
    Pow2Add(4, 8);
    Pow2Add(8, 8);
    Pow2Add(4, 16);
    Pow2Add(4, 24);
  }

  lemma IeeeReduces()
    ensures Reversed(POLYNOMIAL, 32) == Ieee().low
  {
    PolynomialReversed();
  }

  /** One bit step of the register is one multiplication by x of its reversal. */
  lemma ShiftIsXtime(r: u32)
    ensures Ieee().Holds(Reversed(r, 32)) && Reversed(Shift(r), 32) == Xtime(Ieee(), Reversed(r, 32))
  {
    hide Xor, Low, Pow2, Bit;
    Pow2At32();
    IeeeReduces();
    ReversedXor(r / 2, if r % 2 == 1 then POLYNOMIAL else 0, 32);
    ReversedGrows(r / 2, 31);
    XtimeCases(Ieee(), Reversed(r, 32));
    TopBitReversed(r);
    XorZero(Reversed(r / 2, 32));
    ReversedZero(32);
  }

  lemma TopBitReversed(r: u32)
    ensures Reversed(r, 32) == (if r % 2 == 1 then Pow2(31) else 0) + Reversed(r / 2, 31) && Reversed(r / 2, 31) < Pow2(31)
  {
  }

  lemma {:induction false} ReversedZero(n: nat)
    ensures Reversed(0, n) == 0
  {
    if n != 0 {
      ReversedZero(n - 1);
    }
  }

  lemma {:induction false} ShiftsAreXtimes(r: u32, n: nat)
    ensures Ieee().Holds(Reversed(r, 32)) && Reversed(Shifts(r, n), 32) == XtimePower(Ieee(), Reversed(r, 32), n)
    decreases n
  {
    hide Shift, Xtime, Reversed, Pow2;
    if n != 0 {
      ShiftsAreXtimes(r, n - 1);
      ShiftsCompose(r, n - 1, 1);
      ShiftIsXtime(Shifts(r, n - 1));
      OneShift(Shifts(r, n - 1));
    }
  }

  lemma OneShift(r: u32)
    ensures Shifts(r, 1) == Shift(r)
  {
  }

  /** Operators of shifted polynomials. */
  lemma {:induction false} OperatorShifts(f: Field, b: nat, n: nat)
    ensures f.Holds(1) && Mul(f, 1, Shl(b, n)) == XtimePower(f, Mul(f, 1, b), n)
  {
    OneHolds(f);
    hide Mul, Xtime, Pow2;
    if n != 0 {
      OperatorShifts(f, b, n - 1);
      MulDouble(f, 1, Shl(b, n - 1));
      XtimeMul(f, 1, Shl(b, n - 1));
    }
  }

  lemma {:induction false} ShlXor(a: nat, b: nat, n: nat)
    ensures Shl(Xor(a, b), n) == Xor(Shl(a, n), Shl(b, n))
  {
    hide Xor;
    if n != 0 {
      ShlXor(a, b, n - 1);
      XorDouble(Shl(a, n - 1), Shl(b, n - 1));
    }
  }

  lemma {:induction false} ShlAdd(a: nat, m: nat, n: nat)
    ensures Shl(Shl(a, m), n) == Shl(a, m + n)
  {
    if n != 0 {
      ShlAdd(a, m, n - 1);
    }
  }

  lemma AbsorbDivides(r: u32, b: byte)
    ensures Ieee().Holds(1)
    ensures Reversed(Absorb(r, b), 32) == Mul(Ieee(), 1, Xor(Shl(Reversed(r, 32), 8), Shl(Reversed(b, 8), 32)))
  {
    hide Shifts, XtimePower, Mul, Xor, Shl, Reversed, Pow2;
    Pow2At32();
    var z := Xor(Reversed(r, 32), Shl(Reversed(b, 8), 24));
    ReversedXor(r, b, 32);
    ReversedShifts(b, 8, 24);
    ShiftsAreXtimes(Xor32(r, b), 8);
    MulOneLeft(Ieee(), z);
    OperatorShifts(Ieee(), z, 8);
    ShlXor(Reversed(r, 32), Shl(Reversed(b, 8), 24), 8);
    ShlAdd(Reversed(b, 8), 24, 8);
  }

  /** The message as a polynomial, its first bit the highest coefficient. */
  function Polynomial(data: seq<byte>): nat {
    Reversed(FromLittleEndian(data), 8 * |data|)
  }

  lemma {:induction false} ReversedLow(v: nat, n: nat)
    ensures Reversed(Low(v, n), n) == Reversed(v, n)
  {
    if n != 0 {
      ReversedLow(v / 2, n - 1);
    }
  }

  lemma ByteSplit(v: nat, m: nat)
    ensures Reversed(v, 8 + m) == Xor(Shl(Reversed(v % 256, 8), m), Reversed(v / 256, m))
  {
    hide Reversed, Xor, Shl, Low, Shr;
    Octet(v);
    ReversedLow(v, 8);
    ReversedSplit(v, 8, m);
  }

  lemma PolynomialSplit(b: byte, rest: seq<byte>)
    ensures Polynomial([b] + rest) == Xor(Shl(Reversed(b, 8), 8 * |rest|), Polynomial(rest))
  {
    hide Reversed, Xor, Shl, FromLittleEndian;
    FirstByte(b, rest);
    ByteSplit(FromLittleEndian([b] + rest), 8 * |rest|);
    assert 8 * |[b] + rest| == 8 + 8 * |rest|;
  }

  lemma FirstByte(b: byte, rest: seq<byte>)
    ensures FromLittleEndian([b] + rest) / 256 == FromLittleEndian(rest) && FromLittleEndian([b] + rest) % 256 == b
  {
    assert ([b] + rest)[1..] == rest;
  }

  /** What the register holds after the message, started at `start`. */
  function Dividend(start: nat, data: seq<byte>): nat {
    Xor(Shl(start, 8 * |data|), Shl(Polynomial(data), 32))
  }

  lemma DividendSplit(start: nat, b: byte, rest: seq<byte>)
    ensures var z := Xor(Shl(start, 8), Shl(Reversed(b, 8), 32));
            Dividend(start, [b] + rest) == Xor(Shl(z, 8 * |rest|), Shl(Polynomial(rest), 32))
  {
    hide Reversed, Xor, Shl, Polynomial;
    var m, high, low := 8 * |rest|, Reversed(b, 8), Polynomial(rest);
    PolynomialSplit(b, rest);
    ShlXor(Shl(high, m), low, 32);
    ShlXor(Shl(start, 8), Shl(high, 32), m);
    ShlAdd(high, m, 32);
    ShlAdd(high, 32, m);
    ShlAdd(start, 8, m);
    XorAssociates(Shl(start, 8 + m), Shl(high, 32 + m), Shl(low, 32));
  }

  /** The register, reversed, is the remainder of what has gone into it. */
  lemma {:induction false} FoldDivides(register: u32, data: seq<byte>)
    ensures Ieee().Holds(1)
    ensures Reversed(Fold(register, data), 32) == Mul(Ieee(), 1, Dividend(Reversed(register, 32), data))
    decreases |data|
  {
    hide Reversed, Mul, Xor, Absorb, XtimePower, Dividend, Polynomial, Pow2;
    Pow2At32();
    OneHolds(Ieee());
    var start := Reversed(register, 32);
    if data == [] {
      NothingDivided(start);
      MulOneLeft(Ieee(), start);
    } else {
      var b, rest, m := data[0], data[1..], 8 * |data| - 8;
      var next := Reversed(Absorb(register, b), 32);
      var z := Xor(Shl(start, 8), Shl(Reversed(b, 8), 32));
      assert data == [b] + rest;
      FoldDivides(Absorb(register, b), rest);
      AbsorbDivides(register, b);
      DividendSplit(start, b, rest);
      DividendIs(next, rest);
      MulOneLeft(Ieee(), next);
      OperatorShifts(Ieee(), next, m);
      OperatorShifts(Ieee(), z, m);
      MulLinearRight(Ieee(), 1, Shl(next, m), Shl(Polynomial(rest), 32));
      MulLinearRight(Ieee(), 1, Shl(z, m), Shl(Polynomial(rest), 32));
    }
  }

  lemma DividendIs(start: nat, data: seq<byte>)
    ensures Dividend(start, data) == Xor(Shl(start, 8 * |data|), Shl(Polynomial(data), 32))
  {
  }

  lemma NothingDivided(start: nat)
    ensures Dividend(start, []) == start
  {
    ShlIsProduct(0, 32);
    XorZero(start);
  }

  lemma {:induction false} OnesReversed(n: nat)
    ensures Reversed(Pow2(n) - 1, n) == Pow2(n) - 1
  {
    if n != 0 {
      OnesReversed(n - 1);
      assert (Pow2(n) - 1) / 2 == Pow2(n - 1) - 1 && (Pow2(n) - 1) % 2 == 1;
    }
  }

  /** The complement of the CRC, bits reversed, is the remainder modulo the polynomial of IEEE 802.3 of
      x^32 times the message, whose first 32 bits the all-ones start inverts. */
  lemma CrcIsRemainder(data: seq<byte>) returns (q: nat)
    ensures Xor(CarrylessMul(0x1_04C1_1DB7, q), Reversed(Xor(Crc(data), 0xFFFF_FFFF), 32))
         == Xor(Shl(0xFFFF_FFFF, 8 * |data|), Shl(Reversed(FromLittleEndian(data), 8 * |data|), 32))
  {
    hide Reversed, Xor, CarrylessMul, Mul, Fold, Shl, Pow2;
    Pow2At32();
    XorCancels(Fold(ALL_ONES, data), ALL_ONES);
    FoldDivides(ALL_ONES, data);
    OnesReversed(32);
    q := OperatorDivides(Ieee(), Dividend(0xFFFF_FFFF, data));
  }

  // ----- registers as machine words -----

  predicate Odd(v: bv32) {
    v & 1 == 1
  }

  function Halved(v: bv32): bv32 {
    v >> 1
  }

  function Mixed(a: bv32, b: bv32): bv32 {
    a ^ b
  }

  /** The number in the low `n` bits of a word. */
  function Value(v: bv32, n: nat): (r: nat)
    ensures r < Pow2(n)
    decreases n
  {
    if n == 0 then 0 else (if Odd(v) then 1 else 0) + 2 * Value(Halved(v), n - 1)
  }

  lemma HalfMixed(a: bv32, b: bv32)
    ensures Halved(Mixed(a, b)) == Mixed(Halved(a), Halved(b))
    ensures Odd(Mixed(a, b)) <==> Odd(a) != Odd(b)
  {
  }

  lemma DigitsXor(x: bool, y: bool, p: nat, q: nat)
    ensures Xor((if x then 1 else 0) + 2 * p, (if y then 1 else 0) + 2 * q) == (if x != y then 1 else 0) + 2 * Xor(p, q)
  {
    var a, b := (if x then 1 else 0) + 2 * p, (if y then 1 else 0) + 2 * q;
    assert a / 2 == p && b / 2 == q;
  }

  lemma {:induction false} ValueMixed(a: bv32, b: bv32, n: nat)
    ensures Value(Mixed(a, b), n) == Xor(Value(a, n), Value(b, n))
    decreases n
  {
    hide Xor, Odd, Halved, Mixed, Pow2;
    if n == 0 {
      XorZero(0);
    } else {
      HalfMixed(a, b);
      ValueMixed(Halved(a), Halved(b), n - 1);
      DigitsXor(Odd(a), Odd(b), Value(Halved(a), n - 1), Value(Halved(b), n - 1));
    }
  }

  lemma {:induction false} ValueZero(n: nat)
    ensures Value(0, n) == 0
  {
    if n != 0 {
      ValueZero(n - 1);
    }
  }

  function Digit(v: bv32): nat {
    (if v & 1 == 1 then 1 else 0) + (if v & 2 == 2 then 2 else 0) + (if v & 4 == 4 then 4 else 0) + (if v & 8 == 8 then 8 else 0)
  }

  function TwoDigits(v: bv32): nat {
    Digit(v) + 0x10 * Digit(v >> 4)
  }

  function Half(v: bv32): nat {
    TwoDigits(v) + 0x100 * TwoDigits(v >> 8)
  }

  /** The number a word stands for, digit by digit. */
  function Word(v: bv32): nat {
    Half(v) + 0x1_0000 * Half(v >> 16)
  }

  lemma ValueDigit(v: bv32, n: nat)
    ensures Value(v, n + 4) == Digit(v) + 0x10 * Value(v >> 4, n)
  {
    assert Odd(v >> 1) <==> v & 2 == 2;
    assert Odd(v >> 2) <==> v & 4 == 4;
    assert Odd(v >> 3) <==> v & 8 == 8;
    assert Halved(v >> 1) == v >> 2 && Halved(v >> 2) == v >> 3 && Halved(v >> 3) == v >> 4;
    hide Pow2;
    assert Value(v >> 3, n + 1) == (if Odd(v >> 3) then 1 else 0) + 2 * Value(v >> 4, n);
    assert Value(v >> 2, n + 2) == (if Odd(v >> 2) then 1 else 0) + 2 * Value(v >> 3, n + 1);
    assert Value(v >> 1, n + 3) == (if Odd(v >> 1) then 1 else 0) + 2 * Value(v >> 2, n + 2);
  }

  lemma ValueTwoDigits(v: bv32, n: nat)
    ensures Value(v, n + 8) == TwoDigits(v) + 0x100 * Value(v >> 8, n)
  {
    hide Digit, Value, Pow2;
    assert (v >> 4) >> 4 == v >> 8;
    ValueDigit(v, n + 4);
    ValueDigit(v >> 4, n);
  }

  lemma ValueHalf(v: bv32, n: nat)
    ensures Value(v, n + 16) == Half(v) + 0x1_0000 * Value(v >> 16, n)
  {
    hide TwoDigits, Value, Pow2;
    assert (v >> 8) >> 8 == v >> 16;
    ValueTwoDigits(v, n + 8);
    ValueTwoDigits(v >> 8, n);
  }

  lemma ValueWord(v: bv32, n: nat)
    ensures Value(v, n + 32) == Word(v)
  {
    hide Half, Value, Pow2;
    assert (v >> 16) >> 16 == 0;
    ValueHalf(v, n + 16);
    ValueHalf(v >> 16, n);
    ValueZero(n);
  }

  lemma ValueSplits(v: bv32)
    ensures Value(v, 32) == (if Odd(v) then 1 else 0) + 2 * Value(Halved(v), 32)
  {
    hide Word, Odd, Halved, Pow2;
    ValueWord(v, 0);
    ValueWord(v, 1);
    assert Value(v, 33) == (if Odd(v) then 1 else 0) + 2 * Value(Halved(v), 32);
  }

  // ----- the published check value -----

  function ShiftWord(r: bv32): bv32 {
    Mixed(Halved(r), if Odd(r) then 0xEDB8_8320 else 0)
  }

  function FourShifts(r: bv32): bv32 {
    ShiftWord(ShiftWord(ShiftWord(ShiftWord(r))))
  }

  function TakeByte(r: bv32, b: bv32): bv32 {
    FourShifts(FourShifts(Mixed(r, b)))
  }

  function Register(v: bv32): u32 {
    Pow2At32();
    Value(v, 32)
  }

  lemma ShiftIsWord(r: bv32)
    ensures Shift(Register(r)) == Register(ShiftWord(r))
  {
    hide Value, Xor, Odd, Halved, Mixed;
    ValueSplits(r);
    ValueWord(0xEDB8_8320, 0);
    ValueZero(32);
    ValueMixed(Halved(r), if Odd(r) then 0xEDB8_8320 else 0, 32);
  }

  lemma FourShiftsAreWord(r: bv32)
    ensures Shifts(Register(r), 4) == Register(FourShifts(r))
  {
    hide Register, Shift, ShiftWord;
    ShiftIsWord(r);
    ShiftIsWord(ShiftWord(r));
    ShiftIsWord(ShiftWord(ShiftWord(r)));
    ShiftIsWord(ShiftWord(ShiftWord(ShiftWord(r))));
    var r1, r2, r3 := Register(ShiftWord(r)), Register(ShiftWord(ShiftWord(r))), Register(ShiftWord(ShiftWord(ShiftWord(r))));
    assert Shifts(r3, 1) == Shift(r3);
    assert Shifts(r2, 2) == Shifts(r3, 1);
    assert Shifts(r1, 3) == Shifts(r2, 2);
  }

  lemma AbsorbIsWord(r: bv32, b: bv32)
    requires Register(b) < 256
    ensures Absorb(Register(r), Register(b)) == Register(TakeByte(r, b))
  {
    hide Value, Xor, Odd, Halved, Mixed, FourShifts, Shifts;
    ValueMixed(r, b, 32);
    FourShiftsAreWord(Mixed(r, b));
    FourShiftsAreWord(FourShifts(Mixed(r, b)));
    ShiftsCompose(Register(Mixed(r, b)), 4, 4);
  }

  /** One byte of a message on the register. */
  lemma FoldAt(r: bv32, b: bv32, s: seq<byte>, i: nat)
    requires i < |s| && s[i] == Register(b)
    ensures Fold(Register(r), s[i..]) == Fold(Register(TakeByte(r, b)), s[i + 1..])
  {
    hide Register, Absorb, TakeByte;
    AbsorbIsWord(r, b);
    assert s[i..][0] == s[i] && s[i..][1..] == s[i + 1..];
  }

  lemma ShortWord(b: bv32)
    requires b < 0x100
    ensures Register(b) == TwoDigits(b) < 0x100
  {
    hide Value, TwoDigits, Pow2;
    ValueWord(b, 0);
    assert b >> 8 == 0 && b >> 16 == 0;
    TwoDigitsBound(b);
    TwoDigitsBound(0);
    assert TwoDigits(0) == 0;
  }

  lemma TwoDigitsBound(b: bv32)
    ensures TwoDigits(b) < 0x100 && (b == 0 ==> TwoDigits(b) == 0)
  {
  }

  lemma DigitsOfText()
    ensures Register(0x31) == 0x31 && Register(0x32) == 0x32 && Register(0x33) == 0x33
    ensures Register(0x34) == 0x34 && Register(0x35) == 0x35 && Register(0x36) == 0x36
    ensures Register(0x37) == 0x37 && Register(0x38) == 0x38 && Register(0x39) == 0x39
  {
    hide Register;
    ShortWord(0x31);
    ShortWord(0x32);
    ShortWord(0x33);
    ShortWord(0x34);
    ShortWord(0x35);
    ShortWord(0x36);
    ShortWord(0x37);
    ShortWord(0x38);
    ShortWord(0x39);
  }

  lemma FirstThree()
    ensures TakeByte(TakeByte(TakeByte(0xFFFF_FFFF, 0x31), 0x32), 0x33) == 0x77B7_9C2D
  {
  }

  lemma NextThree()
    ensures TakeByte(TakeByte(TakeByte(0x77B7_9C2D, 0x34), 0x35), 0x36) == 0xF68D_2C9E
  {
  }

  lemma LastThree()
    ensures TakeByte(TakeByte(TakeByte(0xF68D_2C9E, 0x37), 0x38), 0x39) == 0x340B_C6D9
  {
  }

  lemma FoldText(s: seq<byte>)
    requires s == [0x31, 0x32, 0x33, 0x34, 0x35, 0x36, 0x37, 0x38, 0x39]
    ensures Fold(Register(0xFFFF_FFFF), s) == Register(0x340B_C6D9)
  {
    DigitsOfText();
    FirstThree();
    NextThree();
    LastThree();
    hide TakeByte, Value, Fold, Register;
    var r1 := TakeByte(0xFFFF_FFFF, 0x31);
    var r2 := TakeByte(r1, 0x32);
    var r4 := TakeByte(0x77B7_9C2D, 0x34);
    var r5 := TakeByte(r4, 0x35);
    var r7 := TakeByte(0xF68D_2C9E, 0x37);
    var r8 := TakeByte(r7, 0x38);
    FoldAt(0xFFFF_FFFF, 0x31, s, 0);
    FoldAt(r1, 0x32, s, 1);
    FoldAt(r2, 0x33, s, 2);
    FoldAt(0x77B7_9C2D, 0x34, s, 3);
    FoldAt(r4, 0x35, s, 4);
    FoldAt(r5, 0x36, s, 5);
    FoldAt(0xF68D_2C9E, 0x37, s, 6);
    FoldAt(r7, 0x38, s, 7);
    FoldAt(r8, 0x39, s, 8);
    NothingLeft(Register(0x340B_C6D9), s);
  }

  lemma NothingLeft(r: u32, s: seq<byte>)
    ensures Fold(r, s[|s|..]) == r && s[0..] == s
  {
  }

  /** The CRC of "123456789". */
  lemma CheckValue()
    ensures Crc([0x31, 0x32, 0x33, 0x34, 0x35, 0x36, 0x37, 0x38, 0x39]) == 0xCBF4_3926
  {
    var s: seq<byte> := [0x31, 0x32, 0x33, 0x34, 0x35, 0x36, 0x37, 0x38, 0x39];
    FoldText(s);
    RegisterWords();
    ValueMixed(0x340B_C6D9, 0xFFFF_FFFF, 32);
    hide Value, Fold, Xor;
  }

  lemma RegisterWords()
    ensures Register(0xFFFF_FFFF) == 0xFFFF_FFFF && Value(Mixed(0x340B_C6D9, 0xFFFF_FFFF), 32) == 0xCBF4_3926
  {
    hide Value, Pow2;
    ValueWord(0xFFFF_FFFF, 0);
    assert Mixed(0x340B_C6D9, 0xFFFF_FFFF) == 0xCBF4_3926;
    ValueWord(0xCBF4_3926, 0);
  }
}
