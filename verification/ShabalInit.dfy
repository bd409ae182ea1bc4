/**
 The two blocks that the initialisation absorbs, followed word by word to the
 constants that the single-lane hash starts from.
 */
module ShabalInit {
  import opened ShabalKernels
  import opened ShabalTrace

  // ---------- the initial state ----------

  const ZEROS: Block := [
    0, 0, 0, 0, 0, 0, 0, 0,
    0, 0, 0, 0, 0, 0, 0, 0
  ]

  const FIRST_BLOCK: Block := [
    0x100, 0x101, 0x102, 0x103, 0x104, 0x105, 0x106, 0x107,
    0x108, 0x109, 0x10A, 0x10B, 0x10C, 0x10D, 0x10E, 0x10F
  ]

  const SECOND_BLOCK: Block := [
    0x110, 0x111, 0x112, 0x113, 0x114, 0x115, 0x116, 0x117,
    0x118, 0x119, 0x11A, 0x11B, 0x11C, 0x11D, 0x11E, 0x11F
  ]

  const MIDDLE_A: seq<Word> := [
    0x79F023D8, 0x708745B8, 0xB2D69F0A, 0xAB24079A, 0x4C77DDAC, 0xB4B92870, 0x88E6ECE2, 0x747657E4,
    0x3395A2D7, 0x5A9826A0, 0x0D578B50, 0x68F97918
  ]

  const MIDDLE_C: Block := [
    0xB555C7FE, 0x3E7106A7, 0xA72A6641, 0x93015272, 0xDA28C30E, 0x696FD97D, 0x9CB6C088, 0x0AFE4119,
    0xA6E0372D, 0x5138C2ED, 0xBE216420, 0xB38B89AB, 0x3EA8BA87, 0x3299AE01, 0x30924EF2, 0x55CB35C4
  ]

  /** The initial state of the single-lane hash: words A, B and C. */
  const IV_A: seq<Word> := [
    1392002386, 3846928793, 764339180, 3110359441, 3758590854, 3145483465, 3535126986, 2966612876,
    349067845, 581914844, 4026383467, 3944855370
  ]

  const IV_B: Block := [
    3042297582, 1047594390, 2804573487, 2466337119, 3660104186, 1768937576, 2629222258, 184434690,
    2799711765, 1362674132, 3189859078, 3012266128, 1051244907, 848932068, 814894548, 1439380645
  ]

  const IV_C: Block := [
    3020288049, 3290644154, 3010673017, 3235749205, 3306956974, 2737289441, 1455776103, 3982574643,
    2293603680, 1625476794, 1972063115, 2213030527, 3163981864, 3873442807, 3129187925, 2605259872
  ]

  /** What the first of the two initial blocks leaves. */
  const MIDDLE: Regs := Words(MIDDLE_A, Without(ZEROS, FIRST_BLOCK), MIDDLE_C)

  const BLANK: Regs := Words([0, 0, 0, 0, 0, 0, 0, 0, 0, 0, 0, 0], ZEROS, ZEROS)

  const IV: Regs := Words(IV_A, IV_B, IV_C)

  // ---------- the two blocks ----------

  lemma FirstBeginsA(t: FullTrace)
    requires Begins(t, BLANK, 0xFFFF_FFFF, 0xFFFF_FFFF, FIRST_BLOCK)
    ensures t.a[0] == 0xFFFFFFFF && t.a[1] == 0xFFFFFFFF && t.a[2] == 0x00000000 && t.a[3] == 0x00000000
    ensures t.a[4] == 0x00000000 && t.a[5] == 0x00000000 && t.a[6] == 0x00000000 && t.a[7] == 0x00000000
    ensures t.a[8] == 0x00000000 && t.a[9] == 0x00000000 && t.a[10] == 0x00000000 && t.a[11] == 0x00000000
  {
    hide Rot17, Plus, Without;
  }

  lemma FirstBeginsB(t: FullTrace)
    requires Begins(t, BLANK, 0xFFFF_FFFF, 0xFFFF_FFFF, FIRST_BLOCK)
    ensures t.b[0] == 0x02000000 && t.b[1] == 0x02020000 && t.b[2] == 0x02040000 && t.b[3] == 0x02060000
    ensures t.b[4] == 0x02080000 && t.b[5] == 0x020A0000 && t.b[6] == 0x020C0000 && t.b[7] == 0x020E0000
    ensures t.b[8] == 0x02100000 && t.b[9] == 0x02120000 && t.b[10] == 0x02140000 && t.b[11] == 0x02160000
    ensures t.b[12] == 0x02180000 && t.b[13] == 0x021A0000 && t.b[14] == 0x021C0000 && t.b[15] == 0x021E0000
  {
    hide Xor;
    assert t.b[0] == Rot17(Plus(ZEROS[0], FIRST_BLOCK[0])) && t.b[1] == Rot17(Plus(ZEROS[1], FIRST_BLOCK[1]));
    assert t.b[2] == Rot17(Plus(ZEROS[2], FIRST_BLOCK[2])) && t.b[3] == Rot17(Plus(ZEROS[3], FIRST_BLOCK[3]));
    assert t.b[4] == Rot17(Plus(ZEROS[4], FIRST_BLOCK[4])) && t.b[5] == Rot17(Plus(ZEROS[5], FIRST_BLOCK[5]));
    assert t.b[6] == Rot17(Plus(ZEROS[6], FIRST_BLOCK[6])) && t.b[7] == Rot17(Plus(ZEROS[7], FIRST_BLOCK[7]));
    assert t.b[8] == Rot17(Plus(ZEROS[8], FIRST_BLOCK[8])) && t.b[9] == Rot17(Plus(ZEROS[9], FIRST_BLOCK[9]));
    assert t.b[10] == Rot17(Plus(ZEROS[10], FIRST_BLOCK[10])) && t.b[11] == Rot17(Plus(ZEROS[11], FIRST_BLOCK[11]));
    assert t.b[12] == Rot17(Plus(ZEROS[12], FIRST_BLOCK[12])) && t.b[13] == Rot17(Plus(ZEROS[13], FIRST_BLOCK[13]));
    assert t.b[14] == Rot17(Plus(ZEROS[14], FIRST_BLOCK[14])) && t.b[15] == Rot17(Plus(ZEROS[15], FIRST_BLOCK[15]));
  }

  lemma FirstSteps(t: FullTrace)
    requires Begins(t, BLANK, 0xFFFF_FFFF, 0xFFFF_FFFF, FIRST_BLOCK) && Steps(t, ZEROS, FIRST_BLOCK)
    ensures t.a[48] == 0x79F023D8 && t.a[49] == 0x708745B8 && t.a[50] == 0xB2D69F0A && t.a[51] == 0xAB24079A
    ensures t.a[52] == 0x4C77DDAC && t.a[53] == 0xB4B92870 && t.a[54] == 0x88E6ECE2 && t.a[55] == 0x747657E4
    ensures t.a[56] == 0x3395A2D7 && t.a[57] == 0x5A9826A0 && t.a[58] == 0x0D578B50 && t.a[59] == 0x68F97918
    ensures t.b[48] == 0xB555C7FE && t.b[49] == 0x3E7106A7 && t.b[50] == 0xA72A6641 && t.b[51] == 0x93015272
    ensures t.b[52] == 0xDA28C30E && t.b[53] == 0x696FD97D && t.b[54] == 0x9CB6C088 && t.b[55] == 0x0AFE4119
    ensures t.b[56] == 0xA6E0372D && t.b[57] == 0x5138C2ED && t.b[58] == 0xBE216420 && t.b[59] == 0xB38B89AB
    ensures t.b[60] == 0x3EA8BA87 && t.b[61] == 0x3299AE01 && t.b[62] == 0x30924EF2 && t.b[63] == 0x55CB35C4
  {
    hide Begins, Ends;
    FirstBeginsA(t);
    FirstBeginsB(t);
  }

  lemma FirstEndsA(t: FullTrace, r: Regs)
    requires Ends(t, ZEROS, FIRST_BLOCK, r)
    requires t.a[48] == 0x79F023D8 && t.a[49] == 0x708745B8 && t.a[50] == 0xB2D69F0A && t.a[51] == 0xAB24079A
    requires t.a[52] == 0x4C77DDAC && t.a[53] == 0xB4B92870 && t.a[54] == 0x88E6ECE2 && t.a[55] == 0x747657E4
    requires t.a[56] == 0x3395A2D7 && t.a[57] == 0x5A9826A0 && t.a[58] == 0x0D578B50 && t.a[59] == 0x68F97918
    ensures r.a[0] == 0x79F023D8 && r.a[1] == 0x708745B8 && r.a[2] == 0xB2D69F0A && r.a[3] == 0xAB24079A
    ensures r.a[4] == 0x4C77DDAC && r.a[5] == 0xB4B92870 && r.a[6] == 0x88E6ECE2 && r.a[7] == 0x747657E4
    ensures r.a[8] == 0x3395A2D7 && r.a[9] == 0x5A9826A0 && r.a[10] == 0x0D578B50 && r.a[11] == 0x68F97918
  {
    hide Without;
    assert r.a[0] == Plus(Plus(Plus(t.a[48], ZEROS[11]), ZEROS[15]), ZEROS[3]);
    assert r.a[1] == Plus(Plus(Plus(t.a[49], ZEROS[12]), ZEROS[0]), ZEROS[4]);
    assert r.a[2] == Plus(Plus(Plus(t.a[50], ZEROS[13]), ZEROS[1]), ZEROS[5]);
    assert r.a[3] == Plus(Plus(Plus(t.a[51], ZEROS[14]), ZEROS[2]), ZEROS[6]);
    assert r.a[4] == Plus(Plus(Plus(t.a[52], ZEROS[15]), ZEROS[3]), ZEROS[7]);
    assert r.a[5] == Plus(Plus(Plus(t.a[53], ZEROS[0]), ZEROS[4]), ZEROS[8]);
    assert r.a[6] == Plus(Plus(Plus(t.a[54], ZEROS[1]), ZEROS[5]), ZEROS[9]);
    assert r.a[7] == Plus(Plus(Plus(t.a[55], ZEROS[2]), ZEROS[6]), ZEROS[10]);
    assert r.a[8] == Plus(Plus(Plus(t.a[56], ZEROS[3]), ZEROS[7]), ZEROS[11]);
    assert r.a[9] == Plus(Plus(Plus(t.a[57], ZEROS[4]), ZEROS[8]), ZEROS[12]);
    assert r.a[10] == Plus(Plus(Plus(t.a[58], ZEROS[5]), ZEROS[9]), ZEROS[13]);
    assert r.a[11] == Plus(Plus(Plus(t.a[59], ZEROS[6]), ZEROS[10]), ZEROS[14]);
  }

  lemma FirstIsA(r: Regs)
    requires r.a[0] == 0x79F023D8 && r.a[1] == 0x708745B8 && r.a[2] == 0xB2D69F0A && r.a[3] == 0xAB24079A
    requires r.a[4] == 0x4C77DDAC && r.a[5] == 0xB4B92870 && r.a[6] == 0x88E6ECE2 && r.a[7] == 0x747657E4
    requires r.a[8] == 0x3395A2D7 && r.a[9] == 0x5A9826A0 && r.a[10] == 0x0D578B50 && r.a[11] == 0x68F97918
    ensures r.a == MIDDLE_A
  {
  }

  lemma FirstEndsC(t: FullTrace, r: Regs)
    requires Ends(t, ZEROS, FIRST_BLOCK, r)
    requires t.b[48] == 0xB555C7FE && t.b[49] == 0x3E7106A7 && t.b[50] == 0xA72A6641 && t.b[51] == 0x93015272
    requires t.b[52] == 0xDA28C30E && t.b[53] == 0x696FD97D && t.b[54] == 0x9CB6C088 && t.b[55] == 0x0AFE4119
    requires t.b[56] == 0xA6E0372D && t.b[57] == 0x5138C2ED && t.b[58] == 0xBE216420 && t.b[59] == 0xB38B89AB
    requires t.b[60] == 0x3EA8BA87 && t.b[61] == 0x3299AE01 && t.b[62] == 0x30924EF2 && t.b[63] == 0x55CB35C4
    ensures r.b == Without(ZEROS, FIRST_BLOCK) && r.c == MIDDLE_C
  {
    hide Without, Plus;
  }

  lemma FirstCompressed()
    ensures Compressed(BLANK, 0xFFFF_FFFF, 0xFFFF_FFFF, FIRST_BLOCK) == MIDDLE
  {
    hide Compressed, Steps, Ends, Begins, Without, ZEROS, FIRST_BLOCK;
    var t := CompressedIs(BLANK, 0xFFFF_FFFF, 0xFFFF_FFFF, FIRST_BLOCK);
    var r := Compressed(BLANK, 0xFFFF_FFFF, 0xFFFF_FFFF, FIRST_BLOCK);
    FirstSteps(t);
    FirstEndsA(t, r);
    FirstIsA(r);
    FirstEndsC(t, r);
  }

  lemma SecondBeginsA(t: FullTrace)
    requires Begins(t, MIDDLE, 0, 0, SECOND_BLOCK)
    ensures t.a[0] == 0x79F023D8 && t.a[1] == 0x708745B8 && t.a[2] == 0xB2D69F0A && t.a[3] == 0xAB24079A
    ensures t.a[4] == 0x4C77DDAC && t.a[5] == 0xB4B92870 && t.a[6] == 0x88E6ECE2 && t.a[7] == 0x747657E4
    ensures t.a[8] == 0x3395A2D7 && t.a[9] == 0x5A9826A0 && t.a[10] == 0x0D578B50 && t.a[11] == 0x68F97918
  {
    hide Rot17, Plus, Without;
  }

  lemma SecondBeginsB(t: FullTrace)
    requires Begins(t, MIDDLE, 0, 0, SECOND_BLOCK)
    ensures t.b[0] == 0x00200000 && t.b[1] == 0x00200000 && t.b[2] == 0x00200000 && t.b[3] == 0x00200000
    ensures t.b[4] == 0x00200000 && t.b[5] == 0x00200000 && t.b[6] == 0x00200000 && t.b[7] == 0x00200000
    ensures t.b[8] == 0x00200000 && t.b[9] == 0x00200000 && t.b[10] == 0x00200000 && t.b[11] == 0x00200000
    ensures t.b[12] == 0x00200000 && t.b[13] == 0x00200000 && t.b[14] == 0x00200000 && t.b[15] == 0x00200000
  {
    hide Xor;
    assert t.b[0] == Rot17(Plus(Minus(ZEROS[0], FIRST_BLOCK[0]), SECOND_BLOCK[0]));
    assert t.b[1] == Rot17(Plus(Minus(ZEROS[1], FIRST_BLOCK[1]), SECOND_BLOCK[1]));
    assert t.b[2] == Rot17(Plus(Minus(ZEROS[2], FIRST_BLOCK[2]), SECOND_BLOCK[2]));
    assert t.b[3] == Rot17(Plus(Minus(ZEROS[3], FIRST_BLOCK[3]), SECOND_BLOCK[3]));
    assert t.b[4] == Rot17(Plus(Minus(ZEROS[4], FIRST_BLOCK[4]), SECOND_BLOCK[4]));
    assert t.b[5] == Rot17(Plus(Minus(ZEROS[5], FIRST_BLOCK[5]), SECOND_BLOCK[5]));
    assert t.b[6] == Rot17(Plus(Minus(ZEROS[6], FIRST_BLOCK[6]), SECOND_BLOCK[6]));
    assert t.b[7] == Rot17(Plus(Minus(ZEROS[7], FIRST_BLOCK[7]), SECOND_BLOCK[7]));
    assert t.b[8] == Rot17(Plus(Minus(ZEROS[8], FIRST_BLOCK[8]), SECOND_BLOCK[8]));
    assert t.b[9] == Rot17(Plus(Minus(ZEROS[9], FIRST_BLOCK[9]), SECOND_BLOCK[9]));
    assert t.b[10] == Rot17(Plus(Minus(ZEROS[10], FIRST_BLOCK[10]), SECOND_BLOCK[10]));
    assert t.b[11] == Rot17(Plus(Minus(ZEROS[11], FIRST_BLOCK[11]), SECOND_BLOCK[11]));
    assert t.b[12] == Rot17(Plus(Minus(ZEROS[12], FIRST_BLOCK[12]), SECOND_BLOCK[12]));
    assert t.b[13] == Rot17(Plus(Minus(ZEROS[13], FIRST_BLOCK[13]), SECOND_BLOCK[13]));
    assert t.b[14] == Rot17(Plus(Minus(ZEROS[14], FIRST_BLOCK[14]), SECOND_BLOCK[14]));
    assert t.b[15] == Rot17(Plus(Minus(ZEROS[15], FIRST_BLOCK[15]), SECOND_BLOCK[15]));
  }

  lemma SecondSteps(t: FullTrace)
    requires Begins(t, MIDDLE, 0, 0, SECOND_BLOCK) && Steps(t, MIDDLE_C, SECOND_BLOCK)
    ensures t.a[48] == 0xB6A03371 && t.a[49] == 0x17243406 && t.a[50] == 0x531455C7 && t.a[51] == 0x44F0DBD6
    ensures t.a[52] == 0xEC3CC237 && t.a[53] == 0x851D8290 && t.a[54] == 0xD99C1EB9 && t.a[55] == 0xAED060A3
    ensures t.a[56] == 0xC3433D0F && t.a[57] == 0x62FD9C1A && t.a[58] == 0x02BB7200 && t.a[59] == 0x5FB743B0
    ensures t.b[48] == 0xB405F031 && t.b[49] == 0xC4233EBA && t.b[50] == 0xB3733979 && t.b[51] == 0xC0DD9D55
    ensures t.b[52] == 0xC51C28AE && t.b[53] == 0xA327B8E1 && t.b[54] == 0x56C56167 && t.b[55] == 0xED614433
    ensures t.b[56] == 0x88B59D60 && t.b[57] == 0x60E2CEBA && t.b[58] == 0x758B4B8B && t.b[59] == 0x83E82A7F
    ensures t.b[60] == 0xBC968828 && t.b[61] == 0xE6E00BF7 && t.b[62] == 0xBA839E55 && t.b[63] == 0x9B491C60
  {
    hide Begins, Ends;
    SecondBeginsA(t);
    SecondBeginsB(t);
  }

  lemma SecondEndsA(t: FullTrace, r: Regs)
    requires Ends(t, MIDDLE_C, SECOND_BLOCK, r)
    requires t.a[48] == 0xB6A03371 && t.a[49] == 0x17243406 && t.a[50] == 0x531455C7 && t.a[51] == 0x44F0DBD6
    requires t.a[52] == 0xEC3CC237 && t.a[53] == 0x851D8290 && t.a[54] == 0xD99C1EB9 && t.a[55] == 0xAED060A3
    requires t.a[56] == 0xC3433D0F && t.a[57] == 0x62FD9C1A && t.a[58] == 0x02BB7200 && t.a[59] == 0x5FB743B0
    ensures r.a[0] == 0x52F84552 && r.a[1] == 0xE54B7999 && r.a[2] == 0x2D8EE3EC && r.a[3] == 0xB9645191
    ensures r.a[4] == 0xE0078B86 && r.a[5] == 0xBB7C44C9 && r.a[6] == 0xD2B5C1CA && r.a[7] == 0xB0D2EB8C
    ensures r.a[8] == 0x14CE5A45 && r.a[9] == 0x22AF50DC && r.a[10] == 0xEFFDBC6B && r.a[11] == 0xEB21B74A
  {
    hide Without;
    assert r.a[0] == Plus(Plus(Plus(t.a[48], MIDDLE_C[11]), MIDDLE_C[15]), MIDDLE_C[3]);
    assert r.a[1] == Plus(Plus(Plus(t.a[49], MIDDLE_C[12]), MIDDLE_C[0]), MIDDLE_C[4]);
    assert r.a[2] == Plus(Plus(Plus(t.a[50], MIDDLE_C[13]), MIDDLE_C[1]), MIDDLE_C[5]);
    assert r.a[3] == Plus(Plus(Plus(t.a[51], MIDDLE_C[14]), MIDDLE_C[2]), MIDDLE_C[6]);
    assert r.a[4] == Plus(Plus(Plus(t.a[52], MIDDLE_C[15]), MIDDLE_C[3]), MIDDLE_C[7]);
    assert r.a[5] == Plus(Plus(Plus(t.a[53], MIDDLE_C[0]), MIDDLE_C[4]), MIDDLE_C[8]);
    assert r.a[6] == Plus(Plus(Plus(t.a[54], MIDDLE_C[1]), MIDDLE_C[5]), MIDDLE_C[9]);
    assert r.a[7] == Plus(Plus(Plus(t.a[55], MIDDLE_C[2]), MIDDLE_C[6]), MIDDLE_C[10]);
    assert r.a[8] == Plus(Plus(Plus(t.a[56], MIDDLE_C[3]), MIDDLE_C[7]), MIDDLE_C[11]);
    assert r.a[9] == Plus(Plus(Plus(t.a[57], MIDDLE_C[4]), MIDDLE_C[8]), MIDDLE_C[12]);
    assert r.a[10] == Plus(Plus(Plus(t.a[58], MIDDLE_C[5]), MIDDLE_C[9]), MIDDLE_C[13]);
    assert r.a[11] == Plus(Plus(Plus(t.a[59], MIDDLE_C[6]), MIDDLE_C[10]), MIDDLE_C[14]);
  }

  lemma SecondIsA(r: Regs)
    requires r.a[0] == 0x52F84552 && r.a[1] == 0xE54B7999 && r.a[2] == 0x2D8EE3EC && r.a[3] == 0xB9645191
    requires r.a[4] == 0xE0078B86 && r.a[5] == 0xBB7C44C9 && r.a[6] == 0xD2B5C1CA && r.a[7] == 0xB0D2EB8C
    requires r.a[8] == 0x14CE5A45 && r.a[9] == 0x22AF50DC && r.a[10] == 0xEFFDBC6B && r.a[11] == 0xEB21B74A
    ensures r.a == IV_A
  {
  }

  lemma SecondEndsB()
    ensures Without(MIDDLE_C, SECOND_BLOCK) == IV_B
  {
    var b := Without(MIDDLE_C, SECOND_BLOCK);
    assert b[0] == Minus(MIDDLE_C[0], SECOND_BLOCK[0]) && b[1] == Minus(MIDDLE_C[1], SECOND_BLOCK[1]);
    assert b[2] == Minus(MIDDLE_C[2], SECOND_BLOCK[2]) && b[3] == Minus(MIDDLE_C[3], SECOND_BLOCK[3]);
    assert b[4] == Minus(MIDDLE_C[4], SECOND_BLOCK[4]) && b[5] == Minus(MIDDLE_C[5], SECOND_BLOCK[5]);
    assert b[6] == Minus(MIDDLE_C[6], SECOND_BLOCK[6]) && b[7] == Minus(MIDDLE_C[7], SECOND_BLOCK[7]);
    assert b[8] == Minus(MIDDLE_C[8], SECOND_BLOCK[8]) && b[9] == Minus(MIDDLE_C[9], SECOND_BLOCK[9]);
    assert b[10] == Minus(MIDDLE_C[10], SECOND_BLOCK[10]) && b[11] == Minus(MIDDLE_C[11], SECOND_BLOCK[11]);
    assert b[12] == Minus(MIDDLE_C[12], SECOND_BLOCK[12]) && b[13] == Minus(MIDDLE_C[13], SECOND_BLOCK[13]);
    assert b[14] == Minus(MIDDLE_C[14], SECOND_BLOCK[14]) && b[15] == Minus(MIDDLE_C[15], SECOND_BLOCK[15]);
  }

  lemma SecondEndsC(t: FullTrace, r: Regs)
    requires Ends(t, MIDDLE_C, SECOND_BLOCK, r)
    requires t.b[48] == 0xB405F031 && t.b[49] == 0xC4233EBA && t.b[50] == 0xB3733979 && t.b[51] == 0xC0DD9D55
    requires t.b[52] == 0xC51C28AE && t.b[53] == 0xA327B8E1 && t.b[54] == 0x56C56167 && t.b[55] == 0xED614433
    requires t.b[56] == 0x88B59D60 && t.b[57] == 0x60E2CEBA && t.b[58] == 0x758B4B8B && t.b[59] == 0x83E82A7F
    requires t.b[60] == 0xBC968828 && t.b[61] == 0xE6E00BF7 && t.b[62] == 0xBA839E55 && t.b[63] == 0x9B491C60
    ensures r.b == Without(MIDDLE_C, SECOND_BLOCK) && r.c == IV_C
  {
    hide Without, Plus;
  }

  lemma SecondCompressed()
    ensures Compressed(MIDDLE, 0, 0, SECOND_BLOCK) == IV
  {
    hide Compressed, Steps, Ends, Begins, Without, MIDDLE_C, SECOND_BLOCK;
    var t := CompressedIs(MIDDLE, 0, 0, SECOND_BLOCK);
    var r := Compressed(MIDDLE, 0, 0, SECOND_BLOCK);
    SecondSteps(t);
    SecondEndsA(t, r);
    SecondIsA(r);
    SecondEndsB();
    SecondEndsC(t, r);
  }
}
