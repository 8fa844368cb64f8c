/** CRC-32 of section 3.2.9 of IEEE 802.3 in the reflected, bit-at-a-time form both
    Python endpoints use, and the guarantee the frame check rests on: a burst
    of at most four bytes is always detected. */
module Crc32 {
  import opened Bits
  import opened Bytes

  const POLYNOMIAL: nat := 0xEDB8_8320
  const ALL_ONES: nat := 0xFFFF_FFFF

  /** `a ^ b` on 32-bit registers. */
  function Xor32(a: u32, b: u32): u32 {
    Pow2At32();
    XorBound(a, b, 32);
    Xor(a, b)
  }

  /** One bit step of the register. */
  function Shift(register: u32): u32 {
    Xor32(register / 2, if register % 2 == 1 then POLYNOMIAL else 0)
  }

  function Shifts(register: u32, n: nat): u32
    decreases n
  {
    if n == 0 then register else Shifts(Shift(register), n - 1)
  }

  /** Absorbing one byte: exclusive-or it into the low end, then eight bit steps. */
  function Absorb(register: u32, b: byte): u32 {
    Shifts(Xor32(register, b), 8)
  }

  function Fold(register: u32, data: seq<byte>): u32
    decreases |data|
  {
    if data == [] then register else Fold(Absorb(register, data[0]), data[1..])
  }

  function Crc(data: seq<byte>): u32 {
    Xor32(Fold(ALL_ONES, data), ALL_ONES)
  }

  /** `crc32`. */
  method ComputeCrc(data: seq<byte>) returns (crc: u32)
    ensures crc == Crc(data)
  {
    var register: u32 := ALL_ONES;
    for i := 0 to |data|
      invariant Fold(register, data[i..]) == Fold(ALL_ONES, data)
    {
      assert data[i..][0] == data[i] && data[i..][1..] == data[i + 1..];
      ghost var start := register;
      register := Xor32(register, data[i]);
      for bit := 0 to 8
        invariant Shifts(register, 8 - bit) == Absorb(start, data[i])
      {
        register := Shift(register);
      }
    }
    crc := Xor32(register, ALL_ONES);
  }

  // ----- the register evolves linearly and loses nothing -----

  lemma ShiftLinear(a: u32, b: u32)
    ensures Shift(Xor32(a, b)) == Xor32(Shift(a), Shift(b))
  {
    XorHalf(a, b);
    var pa, pb := if a % 2 == 1 then POLYNOMIAL else 0, if b % 2 == 1 then POLYNOMIAL else 0;
    XorInterchange(a / 2, pa, b / 2, pb);
    XorSelf(POLYNOMIAL);
    XorZero(POLYNOMIAL);
    XorZero(0);
  }

  lemma {:induction false} ShiftsLinear(a: u32, b: u32, n: nat)
    ensures Shifts(Xor32(a, b), n) == Xor32(Shifts(a, n), Shifts(b, n))
    decreases n
  {
    if n != 0 {
      ShiftLinear(a, b);
      ShiftsLinear(Shift(a), Shift(b), n - 1);
    }
  }

  lemma ShiftNonzero(d: u32)
    requires d != 0
    ensures Shift(d) != 0
  {
    if d % 2 == 1 {
      if Shift(d) == 0 {
        XorInjective(d / 2, POLYNOMIAL);
      }
    } else {
      XorZero(d / 2);
    }
  }

  lemma {:induction false} ShiftsNonzero(d: u32, n: nat)
    requires d != 0
    ensures Shifts(d, n) != 0
    decreases n
  {
    if n != 0 {
      ShiftNonzero(d);
      ShiftsNonzero(Shift(d), n - 1);
    }
  }

  /** A register whose low `n` bits are clear is only moved by `n` steps. */
  lemma {:induction false} ShiftsDrop(d: nat, n: nat)
    requires Shl(d, n) < U32_LIMIT
    ensures d < U32_LIMIT && Shifts(Shl(d, n), n) == d
  {
    if n != 0 {
      var half := Shl(d, n - 1);
      XorZero(half);
      assert Shl(d, n) == 2 * half && (2 * half) % 2 == 0 && (2 * half) / 2 == half;
      ShiftsDrop(d, n - 1);
    }
  }

  lemma {:induction false} ShiftsZero(n: nat)
    ensures Shifts(0, n) == 0
  {
    if n != 0 {
      XorZero(0);
      ShiftsZero(n - 1);
    }
  }

  // ----- differences -----

  function Difference(a: seq<byte>, b: seq<byte>): seq<byte>
    requires |a| == |b|
  {
    if a == [] then [] else [ByteXor(a[0], b[0])] + Difference(a[1..], b[1..])
  }

  /** The difference of two registers is the fold of the difference of the inputs. */
  lemma {:induction false} FoldLinear(ra: u32, rb: u32, a: seq<byte>, b: seq<byte>)
    requires |a| == |b|
    ensures Xor32(Fold(ra, a), Fold(rb, b)) == Fold(Xor32(ra, rb), Difference(a, b))
    decreases |a|
  {
    if a != [] {
      var d := ByteXor(a[0], b[0]);
      XorInterchange(ra, a[0], rb, b[0]);
      ShiftsLinear(Xor32(ra, a[0]), Xor32(rb, b[0]), 8);
      assert Absorb(Xor32(ra, rb), d) == Xor32(Absorb(ra, a[0]), Absorb(rb, b[0]));
      FoldLinear(Absorb(ra, a[0]), Absorb(rb, b[0]), a[1..], b[1..]);
      assert Difference(a, b)[0] == d && Difference(a, b)[1..] == Difference(a[1..], b[1..]);
    }
  }

  predicate AllZero(d: seq<byte>) {
    forall i :: 0 <= i < |d| ==> d[i] == 0
  }

  /** Zero bytes keep a zero register zero and a nonzero register nonzero. */
  lemma {:induction false} FoldZeros(register: u32, d: seq<byte>)
    requires AllZero(d)
    ensures Fold(register, d) == 0 <==> register == 0
    decreases |d|
  {
    if d != [] {
      XorZero(register);
      if register == 0 {
        ShiftsZero(8);
      } else {
        ShiftsNonzero(register, 8);
      }
      FoldZeros(Absorb(register, d[0]), d[1..]);
    }
  }

  lemma {:induction false} FoldAppend(register: u32, a: seq<byte>, b: seq<byte>)
    ensures Fold(register, a + b) == Fold(Fold(register, a), b)
    decreases |a|
  {
    if a == [] {
      assert a + b == b;
    } else {
      assert (a + b)[0] == a[0] && (a + b)[1..] == a[1..] + b;
      FoldAppend(Absorb(register, a[0]), a[1..], b);
    }
  }

  lemma {:induction false} ZeroWord(d: seq<byte>)
    ensures FromLittleEndian(d) == 0 <==> AllZero(d)
  {
    if d != [] {
      ZeroWord(d[1..]);
      if AllZero(d[1..]) && d[0] == 0 {
        assert forall i :: 0 < i < |d| ==> d[i] == d[1..][i - 1];
      }
      if AllZero(d) {
        assert forall i :: 0 <= i < |d| - 1 ==> d[1..][i] == d[i + 1];
      }
    }
  }

  /** Absorbing up to four bytes is absorbing them as one little-endian word. */
  lemma {:induction false} FoldIsWord(register: u32, d: seq<byte>)
    requires |d| <= 4
    ensures FromLittleEndian(d) < U32_LIMIT
    ensures Fold(register, d) == Shifts(Xor32(register, FromLittleEndian(d)), 8 * |d|)
    decreases |d|
  {
    hide Shifts, Xor32, Absorb;
    WordFits(d);
    if d == [] {
      NothingAbsorbed(register);
    } else {
      var rest := d[1..];
      WordFits(rest);
      AbsorbWord(register, d[0], FromLittleEndian(rest));
      FoldIsWord(Absorb(register, d[0]), rest);
      ShiftsCompose(Xor32(register, FromLittleEndian(d)), 8, 8 * |rest|);
      assert 8 * |d| == 8 + 8 * |rest|;
    }
  }

  lemma NothingAbsorbed(register: u32)
    ensures Shifts(Xor32(register, 0), 0) == register
  {
    XorZero(register);
  }

  lemma WordFits(d: seq<byte>)
    requires |d| <= 4
    ensures FromLittleEndian(d) < U32_LIMIT
    ensures |d| < 4 ==> FromLittleEndian(d) < 0x100_0000
  {
    ToFromLittleEndian(d);
    Pow2At32();
    Pow2Monotone(8 * |d|, 32);
    if |d| < 4 {
      Pow2Monotone(8 * |d|, 24);
    }
  }

  lemma AbsorbWord(register: u32, b: byte, rest: nat)
    requires rest < 0x100_0000
    ensures Shifts(Xor32(register, b + 256 * rest), 8) == Xor32(Absorb(register, b), rest)
  {
    hide Shifts, Pow2, Xor;
    Pow2At32();
    var high := Shl(rest, 8);
    ShlIsProduct(rest, 8);
    XorOfByte(b, rest);
    XorAssociates(register, b, high);
    ShiftsDrop(rest, 8);
    ShiftsLinear(Xor32(register, b), high, 8);
  }

  lemma XorOfByte(b: byte, rest: nat)
    ensures Xor(b, Shl(rest, 8)) == b + Shl(rest, 8)
  {
    Pow2At32();
    XorPlaces(b, rest, 8);
  }

  lemma {:induction false} XorPlaces(v: nat, u: nat, n: nat)
    requires v < Pow2(n)
    ensures Xor(v, Shl(u, n)) == v + Shl(u, n)
  {
    if n == 0 {
      XorZero(u);
    } else {
      XorPlaces(v / 2, u, n - 1);
    }
  }

  lemma {:induction false} ShiftsCompose(register: u32, m: nat, n: nat)
    ensures Shifts(register, m + n) == Shifts(Shifts(register, m), n)
    decreases m
  {
    if m != 0 {
      ShiftsCompose(Shift(register), m - 1, n);
    }
  }

  // ----- burst detection -----

  /** Two messages that agree outside a window of at most four bytes. */
  predicate DifferByBurst(a: seq<byte>, b: seq<byte>, start: nat, length: nat) {
    && |a| == |b|
    && length <= 4
    && start + length <= |a|
    && a[..start] == b[..start]
    && a[start + length..] == b[start + length..]
    && a != b
  }

  lemma {:induction false} DifferenceSplit(a: seq<byte>, b: seq<byte>, i: nat)
    requires |a| == |b| && i <= |a|
    ensures Difference(a, b) == Difference(a[..i], b[..i]) + Difference(a[i..], b[i..])
    decreases |a|
  {
    if i == 0 {
      assert a[0..] == a && b[0..] == b && a[..0] == b[..0] == [];
    } else {
      DifferenceSplit(a[1..], b[1..], i - 1);
      assert a[..i][1..] == a[1..][..i - 1] && b[..i][1..] == b[1..][..i - 1];
      assert a[1..][i - 1..] == a[i..] && b[1..][i - 1..] == b[i..];
    }
  }

  lemma {:induction false} DifferenceZero(a: seq<byte>, b: seq<byte>)
    requires |a| == |b|
    ensures |Difference(a, b)| == |a|
    ensures AllZero(Difference(a, b)) <==> a == b
    decreases |a|
  {
    if a != [] {
      DifferenceZero(a[1..], b[1..]);
      var d := Difference(a, b);
      assert d[0] == ByteXor(a[0], b[0]) && d[1..] == Difference(a[1..], b[1..]);
      if a == b {
        XorSelf(a[0]);
        assert forall i :: 0 < i < |d| ==> d[i] == d[1..][i - 1];
      }
      if AllZero(d) {
        XorInjective(a[0], b[0]);
        assert forall i :: 0 <= i < |d| - 1 ==> d[1..][i] == d[i + 1];
        assert a == [a[0]] + a[1..] && b == [b[0]] + b[1..];
      }
    }
  }

  /** A nonzero burst of at most four bytes, absorbed by the zero register, leaves it nonzero. */
  lemma BurstSurvives(before: seq<byte>, burst: seq<byte>, after: seq<byte>)
    requires AllZero(before) && AllZero(after) && |burst| <= 4 && !AllZero(burst)
    ensures Fold(0, before + burst + after) != 0
  {
    FoldAppend(0, before + burst, after);
    FoldAppend(0, before, burst);
    FoldZeros(0, before);
    FoldIsWord(0, burst);
    ZeroWord(burst);
    XorZero(FromLittleEndian(burst));
    ShiftsNonzero(FromLittleEndian(burst), 8 * |burst|);
    FoldZeros(Fold(0, burst), after);
  }

  lemma BurstDetected(a: seq<byte>, b: seq<byte>, start: nat, length: nat)
    requires DifferByBurst(a, b, start, length)
    ensures Crc(a) != Crc(b)
  {
    var a', b' := a[start..], b[start..];
    assert a'[length..] == b'[length..] by {
      assert a'[length..] == a[start + length..] && b'[length..] == b[start + length..];
    }
    DifferenceSplit(a, b, start);
    DifferenceSplit(a', b', length);
    DifferenceZero(a[..start], b[..start]);
    DifferenceZero(a'[length..], b'[length..]);
    DifferenceZero(a'[..length], b'[..length]);
    assert a == a[..start] + (a'[..length] + a'[length..]);
    assert b == b[..start] + (b'[..length] + b'[length..]);
    var before, burst, after :=
      Difference(a[..start], b[..start]), Difference(a'[..length], b'[..length]), Difference(a'[length..], b'[length..]);
    assert Difference(a, b) == before + burst + after;
    BurstSurvives(before, burst, after);
    XorSelf(ALL_ONES);
    FoldLinear(ALL_ONES, ALL_ONES, a, b);
    XorSelf(Fold(ALL_ONES, a));
    XorCancels(Fold(ALL_ONES, a), ALL_ONES);
    XorCancels(Fold(ALL_ONES, b), ALL_ONES);
  }
}
