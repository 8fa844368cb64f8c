/** Little-endian integers on the byte lane. */
module Bytes {
  import opened Bits

  type byte = b: nat | b < 256

  const U32_LIMIT: nat := 0x1_0000_0000

  type u32 = v: nat | v < U32_LIMIT

  lemma Pow2At32()
    ensures Pow2(32) == U32_LIMIT && Pow2(31) == 0x8000_0000 && Pow2(8) == 256 && Pow2(24) == 0x100_0000
  {
    assert Pow2(2) == 4;
    Pow2Add(2, 2);
    Pow2Add(4, 4);
    Pow2Add(8, 8);
    Pow2Add(8, 16);
    Pow2Add(16, 16);
  }

  function ByteXor(a: byte, b: byte): byte {
    Pow2At32();
    XorBound(a, b, 8);
    Xor(a, b)
  }

  /** `value.to_bytes(n, "little")`. */
  function LittleEndian(n: nat, value: nat): (r: seq<byte>)
    ensures |r| == n
  {
    if n == 0 then [] else [value % 256] + LittleEndian(n - 1, value / 256)
  }

  /** `int.from_bytes(data, "little")`. */
  function FromLittleEndian(data: seq<byte>): nat {
    if data == [] then 0 else data[0] + 256 * FromLittleEndian(data[1..])
  }

  lemma {:induction false} FromToLittleEndian(n: nat, value: nat)
    requires value < Pow2(8 * n)
    ensures FromLittleEndian(LittleEndian(n, value)) == value
  {
    if n != 0 {
      Pow2At32();
      Pow2Add(8, 8 * n - 8);
      FromToLittleEndian(n - 1, value / 256);
      var r := LittleEndian(n, value);
      assert r[1..] == LittleEndian(n - 1, value / 256);
    }
  }

  lemma {:induction false} ToFromLittleEndian(data: seq<byte>)
    ensures FromLittleEndian(data) < Pow2(8 * |data|)
    ensures LittleEndian(|data|, FromLittleEndian(data)) == data
  {
    if data != [] {
      Pow2At32();
      Pow2Add(8, 8 * |data| - 8);
      ToFromLittleEndian(data[1..]);
      var rest := FromLittleEndian(data[1..]);
      assert (data[0] + 256 * rest) % 256 == data[0] && (data[0] + 256 * rest) / 256 == rest;
    }
  }

  /** A byte off the low end is a shift by eight and a mask of eight. */
  lemma Octet(v: nat)
    ensures Shr(v, 8) == v / 256 && Low(v, 8) == v % 256
  {
    Pow2At32();
    LowPlusShr(v, 8);
    LowBound(v, 8);
  }

  lemma {:induction false} LittleEndianSplit(m: nat, n: nat, v: nat)
    ensures LittleEndian(m + n, v) == LittleEndian(m, v) + LittleEndian(n, Shr(v, 8 * m))
  {
    if m == 0 {
      assert [] + LittleEndian(n, v) == LittleEndian(n, v);
    } else {
      Octet(v);
      ShrAdd(v, 8, 8 * m - 8);
      LittleEndianSplit(m - 1, n, v / 256);
      var tail := LittleEndian(n, Shr(v, 8 * m));
      assert [v % 256] + (LittleEndian(m - 1, v / 256) + tail) == [v % 256] + LittleEndian(m - 1, v / 256) + tail;
    }
  }

  /** Encoding and decoding keep exactly the bits that fit. */
  lemma {:induction false} LittleEndianKeeps(n: nat, v: nat)
    ensures FromLittleEndian(LittleEndian(n, v)) == Low(v, 8 * n)
  {
    if n != 0 {
      Octet(v);
      Pow2At32();
      LowSplit(v, 8, 8 * n - 8);
      LittleEndianKeeps(n - 1, v / 256);
      assert LittleEndian(n, v)[1..] == LittleEndian(n - 1, v / 256);
    }
  }
}
