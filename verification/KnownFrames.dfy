/** Whole frames with their published bytes. */
module KnownFrames {
  import opened Bits
  import opened Bytes
  import opened Protocol
  import opened Wire
  import opened Requests
  import opened Frames
  import opened Crc32
  import opened CrcDivision
  import Endpoint

  /** The bytes that occur in the frames below, as words. */
  lemma ByteWords()
    ensures Register(0x00) == 0x00 && Register(0x01) == 0x01 && Register(0x05) == 0x05 && Register(0x13) == 0x13
    ensures Register(0x5A) == 0x5A && Register(0x84) == 0x84 && Register(0xA1) == 0xA1
  {
    hide Register;
    ShortWord(0x00);
    ShortWord(0x01);
    ShortWord(0x05);
    ShortWord(0x13);
    ShortWord(0x5A);
    ShortWord(0x84);
    ShortWord(0xA1);
  }

  /** Three bytes of a message on the register. */
  lemma FoldThree(r: bv32, a: bv32, b: bv32, c: bv32, s: seq<byte>, i: nat)
    requires i + 3 <= |s| && s[i] == Register(a) && s[i + 1] == Register(b) && s[i + 2] == Register(c)
    ensures Fold(Register(r), s[i..]) == Fold(Register(TakeByte(TakeByte(TakeByte(r, a), b), c)), s[i + 3..])
  {
    hide Register, TakeByte, Fold;
    FoldAt(r, a, s, i);
    FoldAt(TakeByte(r, a), b, s, i + 1);
    FoldAt(TakeByte(TakeByte(r, a), b), c, s, i + 2);
  }

  /** The CRC is the complement of the register. */
  lemma CrcOfRegister(s: seq<byte>, r: bv32, crc: bv32)
    requires Fold(Register(0xFFFF_FFFF), s) == Register(r) && Mixed(r, 0xFFFF_FFFF) == crc
    ensures Crc(s) == Register(crc)
  {
    hide Value, Fold, Bits.Xor, Mixed;
    RegisterWords();
    ValueMixed(r, 0xFFFF_FFFF, 32);
  }

  lemma QueryRegister()
    ensures TakeByte(TakeByte(TakeByte(0xFFFF_FFFF, 0xA1), 0x01), 0x13) == 0x45A1_6125
    ensures TakeByte(TakeByte(TakeByte(0x45A1_6125, 0x00), 0x00), 0x00) == 0xE3B1_4DD6
  {
  }

  lemma QueryCrc()
    ensures Crc([0xA1, 0x01, 0x13, 0x00, 0x00, 0x00]) == 0x1C4E_B229
  {
    hide TakeByte, Fold, Value, Register;
    var s: seq<byte> := [0xA1, 0x01, 0x13, 0x00, 0x00, 0x00];
    ByteWords();
    QueryRegister();
    FoldThree(0xFFFF_FFFF, 0xA1, 0x01, 0x13, s, 0);
    FoldThree(0x45A1_6125, 0x00, 0x00, 0x00, s, 3);
    NothingLeft(Register(0xE3B1_4DD6), s);
    CrcOfRegister(s, 0xE3B1_4DD6, 0x1C4E_B229);
    QueryWord();
  }

  lemma QueryWord()
    ensures Register(0x1C4E_B229) == 0x1C4E_B229 && Mixed(0xE3B1_4DD6, 0xFFFF_FFFF) == 0x1C4E_B229
  {
    hide Value, Pow2;
    ValueWord(0x1C4E_B229, 0);
  }

  /** The frame of a status query. */
  lemma StatusQueryFrame()
    ensures EncodeRequest(StatusQuery) == [0xA1, 0x01, 0x13, 0x00, 0x00, 0x00, 0x29, 0xB2, 0x4E, 0x1C]
  {
    hide Crc, Payload, U32Bytes, Request.Valid;
    QueryCrc();
    QueryPayload();
    WordBytes(0x29, 0xB2, 0x4E, 0x1C);
    assert RequestBody(0x13, []) == [0xA1, 0x01, 0x13, 0x00, 0x00, 0x00];
  }

  lemma QueryPayload()
    ensures StatusQuery.Valid() && Payload(StatusQuery) == [] && StatusQuery.Op().Code() == 0x13
  {
  }

  lemma WordBytes(a: byte, b: byte, c: byte, d: byte)
    ensures a + 0x100 * b + 0x1_0000 * c + 0x100_0000 * d < U32_LIMIT
    ensures U32Bytes(a + 0x100 * b + 0x1_0000 * c + 0x100_0000 * d) == [a, b, c, d]
  {
    assert LittleEndian(1, d) == [d] + LittleEndian(0, 0);
    assert LittleEndian(2, c + 0x100 * d) == [c] + LittleEndian(1, d);
    assert LittleEndian(3, b + 0x100 * c + 0x1_0000 * d) == [b] + LittleEndian(2, c + 0x100 * d);
  }

  // ----- a fault -----

  lemma FaultRegister()
    ensures TakeByte(TakeByte(TakeByte(0xFFFF_FFFF, 0x5A), 0x01), 0x84) == 0x925B_FBF3
    ensures TakeByte(TakeByte(TakeByte(0x925B_FBF3, 0x05), 0x00), 0x00) == 0xBAB8_BFFA
    ensures TakeByte(TakeByte(TakeByte(0xBAB8_BFFA, 0x00), 0x00), 0x00) == 0x1EB4_7F75
    ensures TakeByte(0x1EB4_7F75, 0x00) == 0x2071_31CC
  {
  }

  lemma FaultWord()
    ensures Register(0xDF8E_CE33) == 0xDF8E_CE33 && Mixed(0x2071_31CC, 0xFFFF_FFFF) == 0xDF8E_CE33
  {
    hide Value, Pow2;
    ValueWord(0xDF8E_CE33, 0);
  }

  lemma FaultCrc()
    ensures Crc([0x5A, 0x01, 0x84, 0x05, 0x00, 0x00, 0x00, 0x00, 0x00, 0x00]) == 0xDF8E_CE33
  {
    hide TakeByte, Fold, Value, Register;
    var s: seq<byte> := [0x5A, 0x01, 0x84, 0x05, 0x00, 0x00, 0x00, 0x00, 0x00, 0x00];
    ByteWords();
    FaultRegister();
    FoldThree(0xFFFF_FFFF, 0x5A, 0x01, 0x84, s, 0);
    FoldThree(0x925B_FBF3, 0x05, 0x00, 0x00, s, 3);
    FoldThree(0xBAB8_BFFA, 0x00, 0x00, 0x00, s, 6);
    FoldAt(0x1EB4_7F75, 0x00, s, 9);
    NothingLeft(Register(0x2071_31CC), s);
    CrcOfRegister(s, 0x2071_31CC, 0xDF8E_CE33);
    FaultWord();
  }

  /** The answer to a frame whose CRC does not match. */
  lemma BadCrcFrame()
    ensures EncodeResponse(Endpoint.FaultResponse(BAD_CRC, 0, 0))
         == [0x5A, 0x01, 0x84, 0x05, 0x00, 0x00, 0x00, 0x00, 0x00, 0x00, 0x33, 0xCE, 0x8E, 0xDF]
  {
    hide Crc;
    FaultCrc();
    WordBytes(0, 0, 0, 0);
    WordBytes(0x33, 0xCE, 0x8E, 0xDF);
    var r := Endpoint.FaultResponse(BAD_CRC, 0, 0);
    assert r.payload == [0x00, 0x00, 0x00, 0x00, 0x00];
    assert ResponseBody(r) == [0x5A, 0x01, 0x84, 0x05, 0x00, 0x00, 0x00, 0x00, 0x00, 0x00];
  }
}
