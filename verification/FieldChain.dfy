/** The generator of the field of the endpoint, taken to one by 126 steps `a^2 + a`. */
module FieldChain {
  import opened Bits
  import opened BinaryField
  import opened Ghash
  import opened Frobenius
  import opened FieldWords

  function Steps(a: F128, n: nat): F128
    decreases n
  {
    if n == 0 then a else Steps(Add(FieldMul(a, a), a), n - 1)
  }

  lemma {:induction false} StepsAdd(a: F128, m: nat, n: nat)
    ensures Steps(Steps(a, m), n) == Steps(a, m + n)
    decreases m
  {
    hide Add, FieldMul;
    if m != 0 {
      StepsAdd(Add(FieldMul(a, a), a), m - 1, n);
    }
  }

  // ----- on words, six steps at a time -----

  function SixBits(v: bv256): bv256 {
    NextBits(NextBits(NextBits(NextBits(NextBits(NextBits(v))))))
  }

  lemma SixIs(w: Word)
    ensures Word(SixBits(w.bits)) == Next(Next(Next(Next(Next(Next(w))))))
  {
    hide NextBits;
  }

  lemma OneStep(w: Word, n: nat) returns (next: Word)
    requires Short(w)
    ensures next == Next(w) && Short(next) && Steps(Element(w), n + 1) == Steps(Element(next), n)
  {
    hide Next, Short, Element, Add, FieldMul;
    next := Next(w);
    NextShort(w);
    NextElement(w);
  }

  /** Six steps of the element. */
  lemma SixSteps(v: bv256, u: bv256, n: nat)
    requires SixBits(v) == u && Short(Word(v))
    ensures Short(Word(u)) && Steps(Element(Word(v)), n + 6) == Steps(Element(Word(u)), n)
  {
    hide Next, SixBits, Short, Element, Steps;
    SixIs(Word(v));
    var w1 := OneStep(Word(v), n + 5);
    var w2 := OneStep(w1, n + 4);
    var w3 := OneStep(w2, n + 3);
    var w4 := OneStep(w3, n + 2);
    var w5 := OneStep(w4, n + 1);
    var w6 := OneStep(w5, n);
  }

  lemma StepsTo6()
    ensures SixBits(0x2) == 0x0001_0000_0000_0001_0012
  {
  }

  lemma StepsTo12()
    ensures SixBits(0x0001_0000_0000_0001_0012) == 0x0087_0000_0001_0000_0001_0001_4016
  {
  }

  lemma StepsTo18()
    ensures SixBits(0x0087_0000_0001_0000_0001_0001_4016) == 0x9B68_508A_203C_6C60_FBEE_6808_B67C_057C
  {
  }

  lemma StepsTo24()
    ensures SixBits(0x9B68_508A_203C_6C60_FBEE_6808_B67C_057C) == 0xD7F9_A406_47BC_682C_0B18_7572_0B77_E77A
  {
  }

  lemma StepsTo30()
    ensures SixBits(0xD7F9_A406_47BC_682C_0B18_7572_0B77_E77A) == 0x349E_72BF_6948_4788_2789_7C84_D996_CF9D
  {
  }

  lemma StepsTo36()
    ensures SixBits(0x349E_72BF_6948_4788_2789_7C84_D996_CF9D) == 0x589D_2878_9C02_0C10_28CC_D0F8_7C6B_128C
  {
  }

  lemma StepsTo42()
    ensures SixBits(0x589D_2878_9C02_0C10_28CC_D0F8_7C6B_128C) == 0x6D6A_E2CF_9786_787A_5092_1F18_C7A4_E4D7
  {
  }

  lemma StepsTo48()
    ensures SixBits(0x6D6A_E2CF_9786_787A_5092_1F18_C7A4_E4D7) == 0x8B3A_BC9F_3E50_BB61_CEE5_E4F7_B606_6BA5
  {
  }

  lemma StepsTo54()
    ensures SixBits(0x8B3A_BC9F_3E50_BB61_CEE5_E4F7_B606_6BA5) == 0xFA84_B7E4_F54E_79AF_FFF8_B3E3_1617_6C1C
  {
  }

  lemma StepsTo60()
    ensures SixBits(0xFA84_B7E4_F54E_79AF_FFF8_B3E3_1617_6C1C) == 0xB646_0313_CA29_B8E2_75B1_C7D8_3987_D7BD
  {
  }

  lemma StepsTo66()
    ensures SixBits(0xB646_0313_CA29_B8E2_75B1_C7D8_3987_D7BD) == 0xA3A0_61DB_B177_C4EA_909A_FDDA_0294_3A58
  {
  }

  lemma StepsTo72()
    ensures SixBits(0xA3A0_61DB_B177_C4EA_909A_FDDA_0294_3A58) == 0xAB98_10F7_8513_214D_BDF5_D67B_E975_1DF8
  {
  }

  lemma StepsTo78()
    ensures SixBits(0xAB98_10F7_8513_214D_BDF5_D67B_E975_1DF8) == 0xAE93_1FD3_B706_6DBB_5A06_F203_EA50_E19D
  {
  }

  lemma StepsTo84()
    ensures SixBits(0xAE93_1FD3_B706_6DBB_5A06_F203_EA50_E19D) == 0xEF40_1442_A95B_6A11_2E0E_33CB_BA76_1A97
  {
  }

  lemma StepsTo90()
    ensures SixBits(0xEF40_1442_A95B_6A11_2E0E_33CB_BA76_1A97) == 0x20A0_0942_3F84_16F7_74A8_1D3F_9864_C623
  {
  }

  lemma StepsTo96()
    ensures SixBits(0x20A0_0942_3F84_16F7_74A8_1D3F_9864_C623) == 0x59AA_CAB2_738D_1A6B_B93A_97D1_4517_41A5
  {
  }

  lemma StepsTo102()
    ensures SixBits(0x59AA_CAB2_738D_1A6B_B93A_97D1_4517_41A5) == 0x878F_A272_D9BC_E9ED_56E2_C9CD_7167_48A3
  {
  }

  lemma StepsTo108()
    ensures SixBits(0x878F_A272_D9BC_E9ED_56E2_C9CD_7167_48A3) == 0x39E1_EDB1_C729_F1BB_59FA_B520_CDF8_1FCB
  {
  }

  lemma StepsTo114()
    ensures SixBits(0x39E1_EDB1_C729_F1BB_59FA_B520_CDF8_1FCB) == 0xEE93_F01E_DE40_BF7A_708D_BB0B_AA75_EA33
  {
  }

  lemma StepsTo120()
    ensures SixBits(0xEE93_F01E_DE40_BF7A_708D_BB0B_AA75_EA33) == 0xF72D_D6CA_714A_BD6E_6AFD_8694_E8DD_A26E
  {
  }

  lemma StepsTo126()
    ensures SixBits(0xF72D_D6CA_714A_BD6E_6AFD_8694_E8DD_A26E) == 0x1
  {
  }

  lemma Ends()
    ensures Element(Word(2)) == 2 && Element(Word(1)) == 1 && Short(Word(2))
  {
    assert Half(2) == 1 && Half(1) == 0;
    hide FieldXtime, Add, Half;
    GeneratorWord();
    AddLaws(1, 0, 0);
    AddLaws(2, 0, 0);
    XtimeOfZero();
  }

  lemma GeneratorWord()
    ensures FieldXtime(1) == 2
  {
    var f := Ghash.Ghash();
    Pow2At128();
    MulOneLeft(f, 2);
    assert Pow2(1) == 2;
    MulPowerOfTwo(f, 1, 1);
    hide FieldXtime, Mul, Xtime;
    assert XtimePower(f, 1, 0) == 1;
    assert XtimePower(f, 1, 1) == Xtime(f, 1);
    XtimeIs(1);
  }

  lemma XtimeIs(a: F128)
    ensures FieldXtime(a) == Xtime(Ghash.Ghash(), a)
  {
  }

  /** 126 steps take the generator to one. */
  lemma GeneratorReachesOne()
    ensures Steps(2, 126) == 1
  {
    Ends();
    NoSteps();
    hide SixBits, Element, Short, Steps;
    StepsTo6();
    SixSteps(0x2, 0x0001_0000_0000_0001_0012, 120);
    StepsTo12();
    SixSteps(0x0001_0000_0000_0001_0012, 0x0087_0000_0001_0000_0001_0001_4016, 114);
    StepsTo18();
    SixSteps(0x0087_0000_0001_0000_0001_0001_4016, 0x9B68_508A_203C_6C60_FBEE_6808_B67C_057C, 108);
    StepsTo24();
    SixSteps(0x9B68_508A_203C_6C60_FBEE_6808_B67C_057C, 0xD7F9_A406_47BC_682C_0B18_7572_0B77_E77A, 102);
    StepsTo30();
    SixSteps(0xD7F9_A406_47BC_682C_0B18_7572_0B77_E77A, 0x349E_72BF_6948_4788_2789_7C84_D996_CF9D, 96);
    StepsTo36();
    SixSteps(0x349E_72BF_6948_4788_2789_7C84_D996_CF9D, 0x589D_2878_9C02_0C10_28CC_D0F8_7C6B_128C, 90);
    StepsTo42();
    SixSteps(0x589D_2878_9C02_0C10_28CC_D0F8_7C6B_128C, 0x6D6A_E2CF_9786_787A_5092_1F18_C7A4_E4D7, 84);
    StepsTo48();
    SixSteps(0x6D6A_E2CF_9786_787A_5092_1F18_C7A4_E4D7, 0x8B3A_BC9F_3E50_BB61_CEE5_E4F7_B606_6BA5, 78);
    StepsTo54();
    SixSteps(0x8B3A_BC9F_3E50_BB61_CEE5_E4F7_B606_6BA5, 0xFA84_B7E4_F54E_79AF_FFF8_B3E3_1617_6C1C, 72);
    StepsTo60();
    SixSteps(0xFA84_B7E4_F54E_79AF_FFF8_B3E3_1617_6C1C, 0xB646_0313_CA29_B8E2_75B1_C7D8_3987_D7BD, 66);
    StepsTo66();
    SixSteps(0xB646_0313_CA29_B8E2_75B1_C7D8_3987_D7BD, 0xA3A0_61DB_B177_C4EA_909A_FDDA_0294_3A58, 60);
    StepsTo72();
    SixSteps(0xA3A0_61DB_B177_C4EA_909A_FDDA_0294_3A58, 0xAB98_10F7_8513_214D_BDF5_D67B_E975_1DF8, 54);
    StepsTo78();
    SixSteps(0xAB98_10F7_8513_214D_BDF5_D67B_E975_1DF8, 0xAE93_1FD3_B706_6DBB_5A06_F203_EA50_E19D, 48);
    StepsTo84();
    SixSteps(0xAE93_1FD3_B706_6DBB_5A06_F203_EA50_E19D, 0xEF40_1442_A95B_6A11_2E0E_33CB_BA76_1A97, 42);
    StepsTo90();
    SixSteps(0xEF40_1442_A95B_6A11_2E0E_33CB_BA76_1A97, 0x20A0_0942_3F84_16F7_74A8_1D3F_9864_C623, 36);
    StepsTo96();
    SixSteps(0x20A0_0942_3F84_16F7_74A8_1D3F_9864_C623, 0x59AA_CAB2_738D_1A6B_B93A_97D1_4517_41A5, 30);
    StepsTo102();
    SixSteps(0x59AA_CAB2_738D_1A6B_B93A_97D1_4517_41A5, 0x878F_A272_D9BC_E9ED_56E2_C9CD_7167_48A3, 24);
    StepsTo108();
    SixSteps(0x878F_A272_D9BC_E9ED_56E2_C9CD_7167_48A3, 0x39E1_EDB1_C729_F1BB_59FA_B520_CDF8_1FCB, 18);
    StepsTo114();
    SixSteps(0x39E1_EDB1_C729_F1BB_59FA_B520_CDF8_1FCB, 0xEE93_F01E_DE40_BF7A_708D_BB0B_AA75_EA33, 12);
    StepsTo120();
    SixSteps(0xEE93_F01E_DE40_BF7A_708D_BB0B_AA75_EA33, 0xF72D_D6CA_714A_BD6E_6AFD_8694_E8DD_A26E, 6);
    StepsTo126();
    SixSteps(0xF72D_D6CA_714A_BD6E_6AFD_8694_E8DD_A26E, 0x1, 0);
  }

  lemma NoSteps()
    ensures Steps(1, 0) == 1
  {
  }
}
