/** Field elements as machine words: a squaring that the verifier can compute. */
module FieldWords {
  import opened Bits
  import opened BinaryField
  import opened Ghash
  import opened Frobenius

  // ----- operations on machine words -----

  function Half(v: bv256): bv256 {
    v >> 1
  }

  function Sum(v: bv256, w: bv256): bv256 {
    v ^ w
  }

  function Shift1(v: bv256): bv256 {
    v << 1
  }

  function Shift4(v: bv256): bv256 {
    v << 4
  }

  function Shift16(v: bv256): bv256 {
    v << 16
  }

  function Shift64(v: bv256): bv256 {
    v << 64
  }

  function Shift128(v: bv256): bv256 {
    v << 128
  }

  function LowBits(v: bv256): bv256 {
    v & 0xFFFF_FFFF_FFFF_FFFF_FFFF_FFFF_FFFF_FFFF
  }

  function HighBits(v: bv256): bv256 {
    v >> 128
  }

  function HalfSum(v: bv256, w: bv256): bv256 {
    (v ^ w) >> 1
  }

  lemma HalfSumIs(v: bv256, w: bv256)
    ensures Sum(v >> 1, w >> 1) == HalfSum(v, w) == Half(v ^ w)
    ensures Half(v) == v >> 1 && Half(w) == w >> 1 && Sum(v, w) == v ^ w
  {
  }

  lemma HalvesMix(v: bv256, w: bv256)
    ensures Half(Sum(v, w)) == Sum(Half(v), Half(w))
  {
    HalfSumIs(v, w);
    hide Half, Sum, HalfSum;
  }

  // ----- field elements -----

  /** A polynomial of degree below 256. */
  datatype Word = Word(bits: bv256)

  const ZERO := Word(0)

  predicate Odd(w: Word) {
    w.bits & 1 == 1
  }

  function Halved(w: Word): Word {
    Word(Half(w.bits))
  }

  function Mixed(v: Word, w: Word): Word {
    Word(Sum(v.bits, w.bits))
  }

  function Coefficient(d: bool): F128 {
    if d then 1 else 0
  }

  /** The number of bits in use. */
  function Length(w: Word): nat
    decreases w.bits
  {
    if w == ZERO then 0 else
    HalvedLess(w.bits);
    1 + Length(Halved(w))
  }

  lemma HalvedLess(v: bv256)
    requires v != 0
    ensures v >> 1 < v
  {
  }

  /** The field element of a polynomial. */
  function Element(w: Word): F128
    decreases Length(w)
  {
    if w == ZERO then 0 else
    Add(Coefficient(Odd(w)), FieldXtime(Element(Halved(w))))
  }

  lemma ZeroHalves()
    ensures Halved(ZERO) == ZERO && !Odd(ZERO) && Mixed(ZERO, ZERO) == ZERO
  {
  }

  lemma ElementSplits(w: Word)
    ensures Element(w) == Add(Coefficient(Odd(w)), FieldXtime(Element(Halved(w))))
    ensures w != ZERO ==> Length(Halved(w)) < Length(w)
    ensures w == ZERO ==> Element(w) == 0 && Length(w) == 0 == Length(Halved(w))
  {
    ZeroHalves();
    hide Add, FieldXtime, Halved, Odd;
    XtimeOfZero();
    AddLaws(0, 0, 0);
  }

  lemma XtimeOfZero()
    ensures FieldXtime(0) == 0
  {
    XtimeZero(Ghash.Ghash());
  }

  // ----- sums -----

  lemma HalfMixed(v: Word, w: Word)
    ensures Halved(Mixed(v, w)) == Mixed(Halved(v), Halved(w))
  {
    HalvesMix(v.bits, w.bits);
    hide Half, Sum;
  }

  lemma OddMixed(v: Word, w: Word)
    ensures Odd(Mixed(v, w)) <==> Odd(v) != Odd(w)
  {
    LowBitsMix(v.bits, w.bits, Mixed(v, w).bits);
  }

  lemma LowBitsMix(v: bv256, w: bv256, sum: bv256)
    requires sum == Sum(v, w)
    ensures sum & 1 == 1 <==> (v & 1 == 1) != (w & 1 == 1)
  {
  }

  lemma {:induction false} ElementMixed(v: Word, w: Word)
    ensures Element(Mixed(v, w)) == Add(Element(v), Element(w))
    decreases Length(v) + Length(w)
  {
    hide Element, Add, FieldXtime, Halved, Odd, Mixed, Length;
    ElementSplits(v);
    ElementSplits(w);
    if v == ZERO && w == ZERO {
      ZeroHalves();
      AddLaws(0, 0, 0);
    } else {
      HalfMixed(v, w);
      OddMixed(v, w);
      ElementMixed(Halved(v), Halved(w));
      ElementSplits(Mixed(v, w));
      SumOfDigits(Element(Halved(v)), Element(Halved(w)), Odd(v), Odd(w));
    }
  }

  lemma SumOfDigits(x: F128, y: F128, c: bool, d: bool)
    ensures Add(Coefficient(c != d), FieldXtime(Add(x, y))) == Add(Add(Coefficient(c), FieldXtime(x)), Add(Coefficient(d), FieldXtime(y)))
  {
    XtimeLinear(Ghash.Ghash(), x, y);
    assert FieldXtime(Add(x, y)) == Add(FieldXtime(x), FieldXtime(y));
    hide Add, FieldXtime;
    AddInterchange(Coefficient(c), FieldXtime(x), Coefficient(d), FieldXtime(y));
    AddLaws(1, 0, 0);
    AddLaws(0, 0, 0);
  }

  // ----- shifts -----

  function Doubled(w: Word): Word {
    Word(Shift1(w.bits))
  }

  function Up4(w: Word): Word {
    Word(Shift4(w.bits))
  }

  function Up16(w: Word): Word {
    Word(Shift16(w.bits))
  }

  function Up64(w: Word): Word {
    Word(Shift64(w.bits))
  }

  function Up128(w: Word): Word {
    Word(Shift128(w.bits))
  }

  /** Room for one more bit, and for more. */
  predicate Room1(w: Word) {
    w.bits >> 255 == 0
  }

  predicate Room4(w: Word) {
    w.bits >> 252 == 0
  }

  predicate Room16(w: Word) {
    w.bits >> 240 == 0
  }

  predicate Room64(w: Word) {
    w.bits >> 192 == 0
  }

  /** Degree below 128. */
  predicate Short(w: Word) {
    w.bits >> 128 == 0
  }

  function Times(a: F128, n: nat): F128 {
    XtimePower(Ghash.Ghash(), a, n)
  }

  lemma TimesAdd(a: F128, m: nat, n: nat)
    ensures Times(Times(a, m), n) == Times(a, m + n)
  {
    XtimePowerAdd(a, m, n);
  }

  lemma TimesNext(a: F128, n: nat)
    ensures Times(a, n + 1) == FieldXtime(Times(a, n)) && Times(a, 0) == a
  {
  }

  lemma Shift1Halves(v: bv256)
    requires v >> 255 == 0
    ensures Shift1(v) == v << 1 && Half(v << 1) == v && (v << 1) & 1 != 1
  {
  }

  lemma DoubledSplits(w: Word)
    requires Room1(w)
    ensures Halved(Doubled(w)) == w && !Odd(Doubled(w))
  {
    Shift1Halves(w.bits);
    hide Shift1, Half;
  }

  lemma ElementDoubled(w: Word)
    requires Room1(w)
    ensures Element(Doubled(w)) == Times(Element(w), 1)
  {
    hide Element, Add, FieldXtime, Halved, Odd, Doubled, Times;
    DoubledSplits(w);
    ElementSplits(Doubled(w));
    AddLaws(FieldXtime(Element(w)), 0, 0);
    TimesNext(Element(w), 0);
  }

  lemma Shift4Shifts(v: bv256)
    ensures Shift1(v) == v << 1 && Shift1(v << 1) == v << 2 && Shift1(v << 2) == v << 3 && Shift1(v << 3) == v << 4
    ensures Shift4(v) == v << 4
  {
  }

  lemma Up4Is(w: Word)
    ensures Doubled(Doubled(Doubled(Doubled(w)))) == Up4(w)
  {
    Shift4Shifts(w.bits);
    hide Shift1, Shift4;
  }

  lemma Up4Rooms(w: Word)
    requires Room4(w)
    ensures Room1(w) && Room1(Doubled(w)) && Room1(Doubled(Doubled(w))) && Room1(Doubled(Doubled(Doubled(w))))
  {
  }

  lemma ElementUp4(w: Word)
    requires Room4(w)
    ensures Element(Up4(w)) == Times(Element(w), 4)
  {
    hide Element, Doubled, Up4, Times, Room1, Room4;
    Up4Is(w);
    Up4Rooms(w);
    ElementDoubled(w);
    ElementDoubled(Doubled(w));
    ElementDoubled(Doubled(Doubled(w)));
    ElementDoubled(Doubled(Doubled(Doubled(w))));
    TimesAdd(Element(w), 1, 1);
    TimesAdd(Element(w), 2, 1);
    TimesAdd(Element(w), 3, 1);
  }

  lemma Shift16Shifts(v: bv256)
    ensures Shift4(v) == v << 4 && Shift4(v << 4) == v << 8 && Shift4(v << 8) == v << 12 && Shift4(v << 12) == v << 16
    ensures Shift16(v) == v << 16
  {
  }

  lemma Up16Is(w: Word)
    ensures Up4(Up4(Up4(Up4(w)))) == Up16(w)
  {
    Shift16Shifts(w.bits);
    hide Shift4, Shift16;
  }

  lemma Up16Rooms(w: Word)
    requires Room16(w)
    ensures Room4(w) && Room4(Up4(w)) && Room4(Up4(Up4(w))) && Room4(Up4(Up4(Up4(w))))
  {
  }

  lemma ElementUp16(w: Word)
    requires Room16(w)
    ensures Element(Up16(w)) == Times(Element(w), 16)
  {
    hide Element, Up4, Up16, Times, Room4, Room16;
    Up16Is(w);
    Up16Rooms(w);
    ElementUp4(w);
    ElementUp4(Up4(w));
    ElementUp4(Up4(Up4(w)));
    ElementUp4(Up4(Up4(Up4(w))));
    TimesAdd(Element(w), 4, 4);
    TimesAdd(Element(w), 8, 4);
    TimesAdd(Element(w), 12, 4);
  }

  lemma Shift64Shifts(v: bv256)
    ensures Shift16(v) == v << 16 && Shift16(v << 16) == v << 32 && Shift16(v << 32) == v << 48 && Shift16(v << 48) == v << 64
    ensures Shift64(v) == v << 64
  {
  }

  lemma Up64Is(w: Word)
    ensures Up16(Up16(Up16(Up16(w)))) == Up64(w)
  {
    Shift64Shifts(w.bits);
    hide Shift16, Shift64;
  }

  lemma Up64Rooms(w: Word)
    requires Room64(w)
    ensures Room16(w) && Room16(Up16(w)) && Room16(Up16(Up16(w))) && Room16(Up16(Up16(Up16(w))))
  {
  }

  lemma ElementUp64(w: Word)
    requires Room64(w)
    ensures Element(Up64(w)) == Times(Element(w), 64)
  {
    hide Element, Up16, Up64, Times, Room16, Room64;
    Up64Is(w);
    Up64Rooms(w);
    ElementUp16(w);
    ElementUp16(Up16(w));
    ElementUp16(Up16(Up16(w)));
    ElementUp16(Up16(Up16(Up16(w))));
    TimesAdd(Element(w), 16, 16);
    TimesAdd(Element(w), 32, 16);
    TimesAdd(Element(w), 48, 16);
  }

  lemma Shift128Shifts(v: bv256)
    ensures Shift64(v) == v << 64 && Shift64(v << 64) == v << 128 && Shift128(v) == v << 128
  {
  }

  lemma Up128Is(w: Word)
    ensures Up64(Up64(w)) == Up128(w)
  {
    Shift128Shifts(w.bits);
    hide Shift64, Shift128;
  }

  lemma Up128Rooms(w: Word)
    requires Short(w)
    ensures Room64(w) && Room64(Up64(w))
  {
  }

  lemma ElementUp128(w: Word)
    requires Short(w)
    ensures Element(Up128(w)) == Times(Element(w), 128)
  {
    hide Element, Up64, Up128, Times, Room64, Short;
    Up128Is(w);
    Up128Rooms(w);
    ElementUp64(w);
    ElementUp64(Up64(w));
    TimesAdd(Element(w), 64, 64);
  }

  // ----- spreading the bits of a polynomial is squaring it -----

  /** A zero above every bit. */
  function SpreadBits(v: bv256): bv256 {
    var v64 := (v | (v << 64)) & 0x0000000000000000_FFFFFFFFFFFFFFFF_0000000000000000_FFFFFFFFFFFFFFFF;
    var v32 := (v64 | (v64 << 32)) & 0x00000000FFFFFFFF_00000000FFFFFFFF_00000000FFFFFFFF_00000000FFFFFFFF;
    var v16 := (v32 | (v32 << 16)) & 0x0000FFFF0000FFFF_0000FFFF0000FFFF_0000FFFF0000FFFF_0000FFFF0000FFFF;
    var v8 := (v16 | (v16 << 8)) & 0x00FF00FF00FF00FF_00FF00FF00FF00FF_00FF00FF00FF00FF_00FF00FF00FF00FF;
    var v4 := (v8 | (v8 << 4)) & 0x0F0F0F0F0F0F0F0F_0F0F0F0F0F0F0F0F_0F0F0F0F0F0F0F0F_0F0F0F0F0F0F0F0F;
    var v2 := (v4 | (v4 << 2)) & 0x3333333333333333_3333333333333333_3333333333333333_3333333333333333;
    (v2 | (v2 << 1)) & 0x5555555555555555_5555555555555555_5555555555555555_5555555555555555
  }

  function Spread(w: Word): Word {
    Word(SpreadBits(w.bits))
  }

  lemma SpreadSplits(w: Word)
    requires Short(w)
    ensures Short(Halved(w))
    ensures Halved(Halved(Spread(w))) == Spread(Halved(w))
    ensures !Odd(Halved(Spread(w))) && (Odd(Spread(w)) <==> Odd(w))
  {
  }

  lemma ZeroSpreads()
    ensures Spread(ZERO) == ZERO
  {
  }

  lemma {:induction false} SquareSpreads(w: Word)
    requires Short(w)
    ensures FieldMul(Element(w), Element(w)) == Element(Spread(w))
    decreases Length(w)
  {
    hide Element, FieldMul, Add, FieldXtime, Spread, Halved, Odd, Short, Length;
    ElementSplits(w);
    if w == ZERO {
      ZeroSpreads();
      FieldMulZero(0);
    } else {
      SpreadSplits(w);
      SquareSpreads(Halved(w));
      var far := Halved(Spread(w));
      ElementSplits(Spread(w));
      ElementSplits(far);
      SquareOfDigit(Element(Halved(w)), Odd(w));
      AddLaws(FieldXtime(Element(Halved(far))), 0, 0);
    }
  }

  lemma SquareOfDigit(a: F128, d: bool)
    ensures var v := Add(Coefficient(d), FieldXtime(a));
            FieldMul(v, v) == Add(Coefficient(d), FieldXtime(FieldXtime(FieldMul(a, a))))
  {
    hide FieldMul, Add, FieldXtime;
    SquareAdds(Coefficient(d), FieldXtime(a));
    FieldMulOne(1);
    FieldMulZero(0);
    XtimeMoves(a, FieldXtime(a));
    XtimeMoves(a, a);
    FieldMulCommutes(a, FieldXtime(a));
  }

  lemma XtimeMoves(a: F128, b: F128)
    ensures FieldMul(FieldXtime(a), b) == FieldXtime(FieldMul(a, b))
  {
    XtimeMul(Ghash.Ghash(), a, b);
  }

  // ----- reduction -----

  /** The terms of x^7 + x^2 + x + 1, applied to `a`. */
  function FoldedTerms(a: F128): F128 {
    Add(Add(a, Times(a, 1)), Add(Times(a, 2), Times(a, 7)))
  }

  /** A polynomial times x^7 + x^2 + x + 1. */
  function FoldedBits(v: bv256): bv256 {
    (v ^ (v << 1)) ^ ((v << 2) ^ (v << 7))
  }

  function Folded(w: Word): Word {
    Word(FoldedBits(w.bits))
  }

  lemma FoldedShifts(v: bv256)
    ensures Shift1(v) == v << 1 && Shift1(v << 1) == v << 2 && Shift4(v) == v << 4
    ensures Shift1(v << 4) == v << 5 && Shift1(v << 5) == v << 6 && Shift1(v << 6) == v << 7
  {
  }

  lemma FoldedSums(v: bv256)
    ensures Sum(v, v << 1) == v ^ (v << 1) && Sum(v << 2, v << 7) == (v << 2) ^ (v << 7)
    ensures Sum(v ^ (v << 1), (v << 2) ^ (v << 7)) == FoldedBits(v)
  {
  }

  lemma FoldedIs(w: Word)
    ensures Folded(w) == Mixed(Mixed(w, Doubled(w)), Mixed(Doubled(Doubled(w)), Doubled(Doubled(Doubled(Up4(w))))))
  {
    FoldedShifts(w.bits);
    FoldedSums(w.bits);
    hide FoldedBits, Sum, Shift1, Shift4;
  }

  lemma ShortHasRoom(w: Word)
    requires Short(w)
    ensures Room1(w) && Room1(Doubled(w)) && Room4(w)
    ensures Room1(Up4(w)) && Room1(Doubled(Up4(w))) && Room1(Doubled(Doubled(Up4(w))))
  {
  }

  lemma ElementFolded(w: Word)
    requires Short(w)
    ensures Element(Folded(w)) == FoldedTerms(Element(w))
  {
    hide Element, Add, Mixed, Doubled, Up4, Folded, Short, Room1, Room4, Times;
    var a, d, f := Element(w), Doubled(w), Up4(w);
    FoldedIs(w);
    ShortHasRoom(w);
    ElementDoubled(w);
    ElementDoubled(d);
    ElementUp4(w);
    ElementDoubled(f);
    ElementDoubled(Doubled(f));
    ElementDoubled(Doubled(Doubled(f)));
    ElementMixed(Mixed(w, d), Mixed(Doubled(d), Doubled(Doubled(Doubled(f)))));
    ElementMixed(w, d);
    ElementMixed(Doubled(d), Doubled(Doubled(Doubled(f))));
    TimesAdd(a, 1, 1);
    TimesAdd(a, 4, 1);
    TimesAdd(a, 5, 1);
    TimesAdd(a, 6, 1);
  }

  /** x^128 is x^7 + x^2 + x + 1. */
  lemma OverflowFolds(a: F128)
    ensures Times(a, 128) == FoldedTerms(a)
  {
    hide Times, FieldMul, Add, GPower, FoldedTerms;
    GeneratorAt128();
    TimesIsProduct(a, 128);
    FieldMulCommutes(0x87, a);
    TermsOf(a);
  }

  lemma TimesIsProduct(a: F128, n: nat)
    ensures Times(a, n) == FieldMul(GPower(n), a)
  {
    XtimePowerMul(a, n);
  }

  lemma GeneratorAt128()
    ensures GPower(128) == 0x87
  {
    hide Xor, Low, Bit, Mul;
    var f := Ghash.Ghash();
    OneHolds(f);
    MulPowerOfTwo(f, 1, 127);
    MulShiftedOne(f, 127, 1, 1);
    MulOneLeft(f, Pow2(127));
    XtimeCases(f, Pow2(127));
    XorZero(f.low);
    Pow2At128();
    assert GPower(128) == FieldXtime(GPower(127));
  }

  lemma TermsOf(a: F128)
    ensures FieldMul(a, 0x87) == FoldedTerms(a)
  {
    hide Times, FieldMul, Add;
    MulDigit(a, 0x43, true);
    MulDigit(Times(a, 1), 0x21, true);
    MulDigit(Times(a, 2), 0x10, true);
    MulDigit(Times(a, 3), 8, false);
    MulDigit(Times(a, 4), 4, false);
    MulDigit(Times(a, 5), 2, false);
    MulDigit(Times(a, 6), 1, false);
    FieldMulOne(Times(a, 7));
    TimesNext(a, 0);
    TimesNext(a, 1);
    TimesNext(a, 2);
    TimesNext(a, 3);
    TimesNext(a, 4);
    TimesNext(a, 5);
    TimesNext(a, 6);
    AddLaws(a, Times(a, 1), Add(Times(a, 2), Times(a, 7)));
  }

  lemma MulDigit(a: F128, b: nat, d: bool)
    requires 2 * b + 1 < TWO_TO_128
    ensures FieldMul(a, if d then 2 * b + 1 else 2 * b) == if d then Add(a, FieldMul(FieldXtime(a), b)) else FieldMul(FieldXtime(a), b)
  {
    var c := if d then 2 * b + 1 else 2 * b;
    assert c / 2 == b;
    MulUnfold(Ghash.Ghash(), a, c);
    XorZero(FieldMul(FieldXtime(a), b));
  }

  function LowHalf(w: Word): Word {
    Word(LowBits(w.bits))
  }

  function HighHalf(w: Word): Word {
    Word(HighBits(w.bits))
  }

  /** One round of reduction. */
  function ReducedBits(v: bv256): bv256 {
    var h := v >> 128;
    (v & 0xFFFF_FFFF_FFFF_FFFF_FFFF_FFFF_FFFF_FFFF) ^ ((h ^ (h << 1)) ^ ((h << 2) ^ (h << 7)))
  }

  function Reduced(w: Word): Word {
    Word(ReducedBits(w.bits))
  }

  lemma ReducedSums(v: bv256)
    ensures var h := v >> 128; FoldedBits(h) == (h ^ (h << 1)) ^ ((h << 2) ^ (h << 7))
    ensures var h := v >> 128;
            Sum(v & 0xFFFF_FFFF_FFFF_FFFF_FFFF_FFFF_FFFF_FFFF, (h ^ (h << 1)) ^ ((h << 2) ^ (h << 7))) == ReducedBits(v)
  {
  }

  lemma ReducedIs(w: Word)
    ensures Reduced(w) == Mixed(LowHalf(w), Folded(HighHalf(w)))
  {
    HalvesBits(w.bits);
    ReducedSums(w.bits);
    hide Sum, LowBits, HighBits, FoldedBits, ReducedBits;
  }

  lemma HalvesBits(v: bv256)
    ensures LowBits(v) == v & 0xFFFF_FFFF_FFFF_FFFF_FFFF_FFFF_FFFF_FFFF && HighBits(v) == v >> 128
    ensures Shift128(v >> 128) == (v >> 128) << 128
    ensures Sum(v & 0xFFFF_FFFF_FFFF_FFFF_FFFF_FFFF_FFFF_FFFF, (v >> 128) << 128) == v
  {
  }

  lemma Halves(w: Word)
    ensures Mixed(LowHalf(w), Up128(HighHalf(w))) == w
  {
    HalvesBits(w.bits);
    hide Sum, LowBits, HighBits, Shift128;
  }

  lemma HighIsShort(w: Word)
    ensures Short(HighHalf(w))
  {
  }

  lemma ReducedElement(w: Word)
    ensures Element(Reduced(w)) == Element(w)
  {
    hide Element, Add, Folded, Mixed, LowHalf, HighHalf, Reduced, Short, Up128, Times, FoldedTerms;
    var low, high := LowHalf(w), HighHalf(w);
    ReducedIs(w);
    Halves(w);
    HighIsShort(w);
    ElementFolded(high);
    ElementUp128(high);
    OverflowFolds(Element(high));
    ElementMixed(low, Folded(high));
    ElementMixed(low, Up128(high));
  }

  /** `a^2 + a`, on words. */
  function NextBits(v: bv256): bv256 {
    ReducedBits(ReducedBits(SpreadBits(v))) ^ v
  }

  function Next(w: Word): Word {
    Word(NextBits(w.bits))
  }

  lemma NextSums(v: bv256)
    ensures NextBits(v) == Sum(ReducedBits(ReducedBits(SpreadBits(v))), v)
  {
    hide ReducedBits, SpreadBits;
  }

  lemma NextIs(w: Word)
    ensures Next(w) == Mixed(Reduced(Reduced(Spread(w))), w)
  {
    NextSums(w.bits);
    hide NextBits, Sum, ReducedBits, SpreadBits;
  }

  lemma NextElement(w: Word)
    requires Short(w)
    ensures Element(Next(w)) == Add(FieldMul(Element(w), Element(w)), Element(w))
  {
    hide Element, Add, FieldMul, Mixed, Reduced, Spread, Next, Short;
    NextIs(w);
    SquareSpreads(w);
    ReducedElement(Spread(w));
    ReducedElement(Reduced(Spread(w)));
    ElementMixed(Reduced(Reduced(Spread(w))), w);
  }

  lemma NextShort(w: Word)
    requires Short(w)
    ensures Short(Next(w))
  {
    hide Sum;
    ReducedOnce(SpreadBits(w.bits));
    ReducedTwice(ReducedBits(SpreadBits(w.bits)));
    hide ReducedBits, SpreadBits;
    NextIs(w);
    SumShort(ReducedBits(ReducedBits(SpreadBits(w.bits))), w.bits);
  }

  lemma ReducedOnce(v: bv256)
    ensures ReducedBits(v) >> 135 == 0
  {
  }

  lemma ReducedTwice(v: bv256)
    requires v >> 135 == 0
    ensures ReducedBits(v) >> 128 == 0
  {
  }

  lemma SumShort(v: bv256, w: bv256)
    requires v >> 128 == 0 && w >> 128 == 0
    ensures Sum(v, w) >> 128 == 0
  {
  }
}
