/**
 The digest of the empty message, followed through the four compressions
 of its one padded block.
 */
module ShabalVector {
  import opened LittleEndian
  import opened Shabal
  import opened ShabalInit
  import opened ShabalKernels
  import opened ShabalTrace
  import opened ShabalDigests

  // ---------- the padded block ----------

  /** A padded tail is the tail, a byte of which only the top bit is set, and zeros. */
  lemma PaddedTailIs(tail: seq<byte>)
    requires |tail| < 64
    ensures PaddedTail(tail)[..|tail|] == tail && PaddedTail(tail)[|tail|] == 128
    ensures forall i :: |tail| < i < 64 ==> PaddedTail(tail)[i] == 0
  {
  }

  const TAIL: Block := [
    0x80, 0, 0, 0, 0, 0, 0, 0,
    0, 0, 0, 0, 0, 0, 0, 0
  ]

  lemma MarkWord()
    ensures FourBytes(128, 0, 0, 0) == 0x80 && FourBytes(0, 0, 0, 0) == 0
  {
  }

  lemma TailIs()
    ensures MessageOf(PaddedTail([])) == TAIL
  {
    hide FourBytes, PaddedTail, WordAt;
    var b := PaddedTail([]);
    PaddedTailIs([]);
    MarkWord();
    forall j | 0 <= j < 16 ensures MessageOf(b)[j] == if j == 0 then 0x80 else 0 {
      ShabalDigests.WordIs(b, 4 * j);
    }
  }

  // ---------- the states between the rounds ----------

  const OUTPUT: seq<Word> := [
    0xD150C7AE, 0xF1E9EE1F, 0x2F927162, 0xBEA9F5BA, 0x01622F14, 0x20D7F89E, 0x009458F8, 0x14908870
  ]

  const A1: seq<Word> := [
    0x96044400, 0x46F66EC8, 0x14524001, 0x59585D71, 0x80545736, 0xBA4EB460, 0x81863CAD, 0x0613C13B,
    0xEEE9483C, 0xF1A8AC11, 0x7385B77C, 0xE2961C85
  ]

  const C1: Block := [
    0x356F28EE, 0x7B7815B6, 0x8507B248, 0x32957189, 0xECA6E16D, 0x78ED13C6, 0x65E6EC47, 0xA9A86E6F,
    0xEACBB9AD, 0x3E39CFF3, 0x391B9120, 0x7C055D6E, 0xD963B897, 0xB611B171, 0xCED21E4C, 0x654ACE21
  ]

  const A2: seq<Word> := [
    0x41E8E77C, 0x0CF06C8A, 0x890ADFBA, 0xD02ABE5B, 0x669F8744, 0x425B092C, 0x264EF056, 0xD6D8DAC8,
    0xB1475A2A, 0x68EDDA24, 0x79E70B7E, 0xAAD07A0B
  ]

  const C2: Block := [
    0x92D75BD9, 0xEC20583E, 0xACBF5A44, 0x70D7DC99, 0x7F9BFBB4, 0x81C24C8F, 0x33BADE34, 0x95F40923,
    0x8DC31A0E, 0x9AF0A037, 0xE9DDBF28, 0x26EA1CF3, 0xE7D878B3, 0xDB48A28F, 0x1B0EA956, 0x316E016A
  ]

  const A3: seq<Word> := [
    0x9FAFD539, 0xF55C0901, 0xA4948749, 0xFDF8C82B, 0xAEDC35C0, 0x3FE60F77, 0x6E4E59E6, 0xBD6CAB57,
    0x605B9561, 0xAA94B09D, 0x8B15ABF5, 0xD153818B
  ]

  const C3: Block := [
    0xBFAE7DA8, 0x6E090CB6, 0xC53928D1, 0x31BE74B1, 0xE66BC2EA, 0x6DA33931, 0xA480C76D, 0xB52D0699,
    0x0009471B, 0xCDBE3790, 0x8F977B2D, 0xC99663F8, 0xB4CA415A, 0x8B4AEAC5, 0xDCFB53DB, 0x192FC6E8
  ]

  const AFTER1: Regs := Words(A1, Without(IV_C, TAIL), C1)

  const AFTER2: Regs := Words(A2, Without(C1, TAIL), C2)

  const AFTER3: Regs := Words(A3, Without(C2, TAIL), C3)

  // ---------- the four rounds ----------

  lemma Round1BeginsA(t: FullTrace)
    requires Begins(t, IV, 1, 0, TAIL)
    ensures t.a[0] == 0x52F84553 && t.a[1] == 0xE54B7999 && t.a[2] == 0x2D8EE3EC && t.a[3] == 0xB9645191
    ensures t.a[4] == 0xE0078B86 && t.a[5] == 0xBB7C44C9 && t.a[6] == 0xD2B5C1CA && t.a[7] == 0xB0D2EB8C
    ensures t.a[8] == 0x14CE5A45 && t.a[9] == 0x22AF50DC && t.a[10] == 0xEFFDBC6B && t.a[11] == 0xEB21B74A
  {
    hide Rot17, Plus, Without;
  }

  lemma Round1BeginsB(t: FullTrace)
    requires Begins(t, IV, 1, 0, TAIL)
    ensures t.b[0] == 0x8EDD6AAB && t.b[1] == 0x0B2C7CE2 && t.b[2] == 0xCA5F4E54 && t.b[3] == 0xA2BF2602
    ensures t.b[4] == 0x83F5B451 && t.b[5] == 0xB0D0D2DF && t.b[6] == 0x7EE5396D && t.b[7] == 0x800415FC
    ensures t.b[8] == 0x6C2B4DC0 && t.b[9] == 0x83A8A271 && t.b[10] == 0xC60D7C42 && t.b[11] == 0x11216717
    ensures t.b[12] == 0x72D67D51 && t.b[13] == 0x59C86533 && t.b[14] == 0x9BA86124 && t.b[15] == 0x694AAB96
  {
    hide Xor;
    assert t.b[0] == Rot17(Plus(IV_B[0], TAIL[0])) && t.b[1] == Rot17(Plus(IV_B[1], TAIL[1]));
    assert t.b[2] == Rot17(Plus(IV_B[2], TAIL[2])) && t.b[3] == Rot17(Plus(IV_B[3], TAIL[3]));
    assert t.b[4] == Rot17(Plus(IV_B[4], TAIL[4])) && t.b[5] == Rot17(Plus(IV_B[5], TAIL[5]));
    assert t.b[6] == Rot17(Plus(IV_B[6], TAIL[6])) && t.b[7] == Rot17(Plus(IV_B[7], TAIL[7]));
    assert t.b[8] == Rot17(Plus(IV_B[8], TAIL[8])) && t.b[9] == Rot17(Plus(IV_B[9], TAIL[9]));
    assert t.b[10] == Rot17(Plus(IV_B[10], TAIL[10])) && t.b[11] == Rot17(Plus(IV_B[11], TAIL[11]));
    assert t.b[12] == Rot17(Plus(IV_B[12], TAIL[12])) && t.b[13] == Rot17(Plus(IV_B[13], TAIL[13]));
    assert t.b[14] == Rot17(Plus(IV_B[14], TAIL[14])) && t.b[15] == Rot17(Plus(IV_B[15], TAIL[15]));
  }

  lemma Round1Steps(t: FullTrace)
    requires Begins(t, IV, 1, 0, TAIL) && Steps(t, IV_C, TAIL)
    ensures t.a[48] == 0xB5F55FCC && t.a[49] == 0x113DCDC1 && t.a[50] == 0xC6273C6F && t.a[51] == 0x949C243C
    ensures t.a[52] == 0x36CC594E && t.a[53] == 0xB876FE21 && t.a[54] == 0xB9587658 && t.a[55] == 0x864FDAD0
    ensures t.a[56] == 0xBCC23C35 && t.a[57] == 0xE7405DDB && t.a[58] == 0x889B23EA && t.a[59] == 0x5BC1D13E
    ensures t.b[48] == 0x356F28EE && t.b[49] == 0x7B7815B6 && t.b[50] == 0x8507B248 && t.b[51] == 0x32957189
    ensures t.b[52] == 0xECA6E16D && t.b[53] == 0x78ED13C6 && t.b[54] == 0x65E6EC47 && t.b[55] == 0xA9A86E6F
    ensures t.b[56] == 0xEACBB9AD && t.b[57] == 0x3E39CFF3 && t.b[58] == 0x391B9120 && t.b[59] == 0x7C055D6E
    ensures t.b[60] == 0xD963B897 && t.b[61] == 0xB611B171 && t.b[62] == 0xCED21E4C && t.b[63] == 0x654ACE21
  {
    hide Begins, Ends;
    Round1BeginsA(t);
    Round1BeginsB(t);
  }

  lemma Round1EndsA(t: FullTrace, r: Regs)
    requires Ends(t, IV_C, TAIL, r)
    requires t.a[48] == 0xB5F55FCC && t.a[49] == 0x113DCDC1 && t.a[50] == 0xC6273C6F && t.a[51] == 0x949C243C
    requires t.a[52] == 0x36CC594E && t.a[53] == 0xB876FE21 && t.a[54] == 0xB9587658 && t.a[55] == 0x864FDAD0
    requires t.a[56] == 0xBCC23C35 && t.a[57] == 0xE7405DDB && t.a[58] == 0x889B23EA && t.a[59] == 0x5BC1D13E
    ensures r.a[0] == 0x96044400 && r.a[1] == 0x46F66EC8 && r.a[2] == 0x14524001 && r.a[3] == 0x59585D71
    ensures r.a[4] == 0x80545736 && r.a[5] == 0xBA4EB460 && r.a[6] == 0x81863CAD && r.a[7] == 0x0613C13B
    ensures r.a[8] == 0xEEE9483C && r.a[9] == 0xF1A8AC11 && r.a[10] == 0x7385B77C && r.a[11] == 0xE2961C85
  {
    hide Without;
    assert r.a[0] == Plus(Plus(Plus(t.a[48], IV_C[11]), IV_C[15]), IV_C[3]);
    assert r.a[1] == Plus(Plus(Plus(t.a[49], IV_C[12]), IV_C[0]), IV_C[4]);
    assert r.a[2] == Plus(Plus(Plus(t.a[50], IV_C[13]), IV_C[1]), IV_C[5]);
    assert r.a[3] == Plus(Plus(Plus(t.a[51], IV_C[14]), IV_C[2]), IV_C[6]);
    assert r.a[4] == Plus(Plus(Plus(t.a[52], IV_C[15]), IV_C[3]), IV_C[7]);
    assert r.a[5] == Plus(Plus(Plus(t.a[53], IV_C[0]), IV_C[4]), IV_C[8]);
    assert r.a[6] == Plus(Plus(Plus(t.a[54], IV_C[1]), IV_C[5]), IV_C[9]);
    assert r.a[7] == Plus(Plus(Plus(t.a[55], IV_C[2]), IV_C[6]), IV_C[10]);
    assert r.a[8] == Plus(Plus(Plus(t.a[56], IV_C[3]), IV_C[7]), IV_C[11]);
    assert r.a[9] == Plus(Plus(Plus(t.a[57], IV_C[4]), IV_C[8]), IV_C[12]);
    assert r.a[10] == Plus(Plus(Plus(t.a[58], IV_C[5]), IV_C[9]), IV_C[13]);
    assert r.a[11] == Plus(Plus(Plus(t.a[59], IV_C[6]), IV_C[10]), IV_C[14]);
  }

  lemma Round1IsA(r: Regs)
    requires r.a[0] == 0x96044400 && r.a[1] == 0x46F66EC8 && r.a[2] == 0x14524001 && r.a[3] == 0x59585D71
    requires r.a[4] == 0x80545736 && r.a[5] == 0xBA4EB460 && r.a[6] == 0x81863CAD && r.a[7] == 0x0613C13B
    requires r.a[8] == 0xEEE9483C && r.a[9] == 0xF1A8AC11 && r.a[10] == 0x7385B77C && r.a[11] == 0xE2961C85
    ensures r.a == A1
  {
  }

  lemma Round1EndsC(t: FullTrace, r: Regs)
    requires Ends(t, IV_C, TAIL, r)
    requires t.b[48] == 0x356F28EE && t.b[49] == 0x7B7815B6 && t.b[50] == 0x8507B248 && t.b[51] == 0x32957189
    requires t.b[52] == 0xECA6E16D && t.b[53] == 0x78ED13C6 && t.b[54] == 0x65E6EC47 && t.b[55] == 0xA9A86E6F
    requires t.b[56] == 0xEACBB9AD && t.b[57] == 0x3E39CFF3 && t.b[58] == 0x391B9120 && t.b[59] == 0x7C055D6E
    requires t.b[60] == 0xD963B897 && t.b[61] == 0xB611B171 && t.b[62] == 0xCED21E4C && t.b[63] == 0x654ACE21
    ensures r.b == Without(IV_C, TAIL) && r.c == C1
  {
    hide Without, Plus;
  }

  lemma Round1Compressed()
    ensures Compressed(IV, 1, 0, TAIL) == AFTER1
  {
    hide Compressed, Steps, Ends, Begins, Without, IV_C, TAIL;
    var t := CompressedIs(IV, 1, 0, TAIL);
    var r := Compressed(IV, 1, 0, TAIL);
    Round1Steps(t);
    Round1EndsA(t, r);
    Round1IsA(r);
    Round1EndsC(t, r);
  }

  lemma Round2BeginsA(t: FullTrace)
    requires Begins(t, AFTER1, 1, 0, TAIL)
    ensures t.a[0] == 0x96044401 && t.a[1] == 0x46F66EC8 && t.a[2] == 0x14524001 && t.a[3] == 0x59585D71
    ensures t.a[4] == 0x80545736 && t.a[5] == 0xBA4EB460 && t.a[6] == 0x81863CAD && t.a[7] == 0x0613C13B
    ensures t.a[8] == 0xEEE9483C && t.a[9] == 0xF1A8AC11 && t.a[10] == 0x7385B77C && t.a[11] == 0xE2961C85
  {
    hide Rot17, Plus, Without;
  }

  lemma Round2BeginsB(t: FullTrace)
    requires Begins(t, AFTER1, 1, 0, TAIL)
    ensures t.b[0] == 0xE063680B && t.b[1] == 0x7D758846 && t.b[2] == 0x72F366E6 && t.b[3] == 0x3AAB81BB
    ensures t.b[4] == 0x515D8A38 && t.b[5] == 0x71C3464F && t.b[6] == 0xC2CEAD8A && t.b[7] == 0x8867DAC2
    ensures t.b[8] == 0x3AC1116B && t.b[9] == 0x9D74C1C5 && t.b[10] == 0x9716EB16 && t.b[11] == 0x54FF07D0
    ensures t.b[12] == 0x1051792D && t.b[13] == 0x17EFCDC0 && t.b[14] == 0x3CAB7507 && t.b[15] == 0x38C13692
  {
    hide Xor;
    assert t.b[0] == Rot17(Plus(Minus(IV_C[0], TAIL[0]), TAIL[0]));
    assert t.b[1] == Rot17(Plus(Minus(IV_C[1], TAIL[1]), TAIL[1]));
    assert t.b[2] == Rot17(Plus(Minus(IV_C[2], TAIL[2]), TAIL[2]));
    assert t.b[3] == Rot17(Plus(Minus(IV_C[3], TAIL[3]), TAIL[3]));
    assert t.b[4] == Rot17(Plus(Minus(IV_C[4], TAIL[4]), TAIL[4]));
    assert t.b[5] == Rot17(Plus(Minus(IV_C[5], TAIL[5]), TAIL[5]));
    assert t.b[6] == Rot17(Plus(Minus(IV_C[6], TAIL[6]), TAIL[6]));
    assert t.b[7] == Rot17(Plus(Minus(IV_C[7], TAIL[7]), TAIL[7]));
    assert t.b[8] == Rot17(Plus(Minus(IV_C[8], TAIL[8]), TAIL[8]));
    assert t.b[9] == Rot17(Plus(Minus(IV_C[9], TAIL[9]), TAIL[9]));
    assert t.b[10] == Rot17(Plus(Minus(IV_C[10], TAIL[10]), TAIL[10]));
    assert t.b[11] == Rot17(Plus(Minus(IV_C[11], TAIL[11]), TAIL[11]));
    assert t.b[12] == Rot17(Plus(Minus(IV_C[12], TAIL[12]), TAIL[12]));
    assert t.b[13] == Rot17(Plus(Minus(IV_C[13], TAIL[13]), TAIL[13]));
    assert t.b[14] == Rot17(Plus(Minus(IV_C[14], TAIL[14]), TAIL[14]));
    assert t.b[15] == Rot17(Plus(Minus(IV_C[15], TAIL[15]), TAIL[15]));
  }

  lemma Round2Steps(t: FullTrace)
    requires Begins(t, AFTER1, 1, 0, TAIL) && Steps(t, C1, TAIL)
    ensures t.a[48] == 0x2E034A64 && t.a[49] == 0x1176A998 && t.a[50] == 0xDE9404CD && t.a[51] == 0x166A0180
    ensures t.a[52] == 0x2516D92B && t.a[53] == 0x35794524 && t.a[54] == 0xF3AFF6E7 && t.a[55] == 0xB2CEAB19
    ensures t.a[56] == 0x59041CC4 && t.a[57] == 0xB8178673 && t.a[58] == 0x0CAE7654 && t.a[59] == 0x3CFBDE58
    ensures t.b[48] == 0x92D75BD9 && t.b[49] == 0xEC20583E && t.b[50] == 0xACBF5A44 && t.b[51] == 0x70D7DC99
    ensures t.b[52] == 0x7F9BFBB4 && t.b[53] == 0x81C24C8F && t.b[54] == 0x33BADE34 && t.b[55] == 0x95F40923
    ensures t.b[56] == 0x8DC31A0E && t.b[57] == 0x9AF0A037 && t.b[58] == 0xE9DDBF28 && t.b[59] == 0x26EA1CF3
    ensures t.b[60] == 0xE7D878B3 && t.b[61] == 0xDB48A28F && t.b[62] == 0x1B0EA956 && t.b[63] == 0x316E016A
  {
    hide Begins, Ends;
    Round2BeginsA(t);
    Round2BeginsB(t);
  }

  lemma Round2EndsA(t: FullTrace, r: Regs)
    requires Ends(t, C1, TAIL, r)
    requires t.a[48] == 0x2E034A64 && t.a[49] == 0x1176A998 && t.a[50] == 0xDE9404CD && t.a[51] == 0x166A0180
    requires t.a[52] == 0x2516D92B && t.a[53] == 0x35794524 && t.a[54] == 0xF3AFF6E7 && t.a[55] == 0xB2CEAB19
    requires t.a[56] == 0x59041CC4 && t.a[57] == 0xB8178673 && t.a[58] == 0x0CAE7654 && t.a[59] == 0x3CFBDE58
    ensures r.a[0] == 0x41E8E77C && r.a[1] == 0x0CF06C8A && r.a[2] == 0x890ADFBA && r.a[3] == 0xD02ABE5B
    ensures r.a[4] == 0x669F8744 && r.a[5] == 0x425B092C && r.a[6] == 0x264EF056 && r.a[7] == 0xD6D8DAC8
    ensures r.a[8] == 0xB1475A2A && r.a[9] == 0x68EDDA24 && r.a[10] == 0x79E70B7E && r.a[11] == 0xAAD07A0B
  {
    hide Without;
    assert r.a[0] == Plus(Plus(Plus(t.a[48], C1[11]), C1[15]), C1[3]);
    assert r.a[1] == Plus(Plus(Plus(t.a[49], C1[12]), C1[0]), C1[4]);
    assert r.a[2] == Plus(Plus(Plus(t.a[50], C1[13]), C1[1]), C1[5]);
    assert r.a[3] == Plus(Plus(Plus(t.a[51], C1[14]), C1[2]), C1[6]);
    assert r.a[4] == Plus(Plus(Plus(t.a[52], C1[15]), C1[3]), C1[7]);
    assert r.a[5] == Plus(Plus(Plus(t.a[53], C1[0]), C1[4]), C1[8]);
    assert r.a[6] == Plus(Plus(Plus(t.a[54], C1[1]), C1[5]), C1[9]);
    assert r.a[7] == Plus(Plus(Plus(t.a[55], C1[2]), C1[6]), C1[10]);
    assert r.a[8] == Plus(Plus(Plus(t.a[56], C1[3]), C1[7]), C1[11]);
    assert r.a[9] == Plus(Plus(Plus(t.a[57], C1[4]), C1[8]), C1[12]);
    assert r.a[10] == Plus(Plus(Plus(t.a[58], C1[5]), C1[9]), C1[13]);
    assert r.a[11] == Plus(Plus(Plus(t.a[59], C1[6]), C1[10]), C1[14]);
  }

  lemma Round2IsA(r: Regs)
    requires r.a[0] == 0x41E8E77C && r.a[1] == 0x0CF06C8A && r.a[2] == 0x890ADFBA && r.a[3] == 0xD02ABE5B
    requires r.a[4] == 0x669F8744 && r.a[5] == 0x425B092C && r.a[6] == 0x264EF056 && r.a[7] == 0xD6D8DAC8
    requires r.a[8] == 0xB1475A2A && r.a[9] == 0x68EDDA24 && r.a[10] == 0x79E70B7E && r.a[11] == 0xAAD07A0B
    ensures r.a == A2
  {
  }

  lemma Round2EndsC(t: FullTrace, r: Regs)
    requires Ends(t, C1, TAIL, r)
    requires t.b[48] == 0x92D75BD9 && t.b[49] == 0xEC20583E && t.b[50] == 0xACBF5A44 && t.b[51] == 0x70D7DC99
    requires t.b[52] == 0x7F9BFBB4 && t.b[53] == 0x81C24C8F && t.b[54] == 0x33BADE34 && t.b[55] == 0x95F40923
    requires t.b[56] == 0x8DC31A0E && t.b[57] == 0x9AF0A037 && t.b[58] == 0xE9DDBF28 && t.b[59] == 0x26EA1CF3
    requires t.b[60] == 0xE7D878B3 && t.b[61] == 0xDB48A28F && t.b[62] == 0x1B0EA956 && t.b[63] == 0x316E016A
    ensures r.b == Without(C1, TAIL) && r.c == C2
  {
    hide Without, Plus;
  }

  lemma Round2Compressed()
    ensures Compressed(AFTER1, 1, 0, TAIL) == AFTER2
  {
    hide Compressed, Steps, Ends, Begins, Without, C1, TAIL;
    var t := CompressedIs(AFTER1, 1, 0, TAIL);
    var r := Compressed(AFTER1, 1, 0, TAIL);
    Round2Steps(t);
    Round2EndsA(t, r);
    Round2IsA(r);
    Round2EndsC(t, r);
  }

  lemma Round3BeginsA(t: FullTrace)
    requires Begins(t, AFTER2, 1, 0, TAIL)
    ensures t.a[0] == 0x41E8E77D && t.a[1] == 0x0CF06C8A && t.a[2] == 0x890ADFBA && t.a[3] == 0xD02ABE5B
    ensures t.a[4] == 0x669F8744 && t.a[5] == 0x425B092C && t.a[6] == 0x264EF056 && t.a[7] == 0xD6D8DAC8
    ensures t.a[8] == 0xB1475A2A && t.a[9] == 0x68EDDA24 && t.a[10] == 0x79E70B7E && t.a[11] == 0xAAD07A0B
  {
    hide Rot17, Plus, Without;
  }

  lemma Round3BeginsB(t: FullTrace)
    requires Begins(t, AFTER2, 1, 0, TAIL)
    ensures t.b[0] == 0x51DC6ADE && t.b[1] == 0x2B6CF6F0 && t.b[2] == 0x64910A0F && t.b[3] == 0xE312652A
    ensures t.b[4] == 0xC2DBD94D && t.b[5] == 0x278CF1DA && t.b[6] == 0xD88ECBCD && t.b[7] == 0xDCDF5350
    ensures t.b[8] == 0x735BD597 && t.b[9] == 0x9FE67C73 && t.b[10] == 0x22407237 && t.b[11] == 0xBADCF80A
    ensures t.b[12] == 0x712FB2C7 && t.b[13] == 0x62E36C23 && t.b[14] == 0x3C999DA4 && t.b[15] == 0x9C42CA95
  {
    hide Xor;
    assert t.b[0] == Rot17(Plus(Minus(C1[0], TAIL[0]), TAIL[0]));
    assert t.b[1] == Rot17(Plus(Minus(C1[1], TAIL[1]), TAIL[1]));
    assert t.b[2] == Rot17(Plus(Minus(C1[2], TAIL[2]), TAIL[2]));
    assert t.b[3] == Rot17(Plus(Minus(C1[3], TAIL[3]), TAIL[3]));
    assert t.b[4] == Rot17(Plus(Minus(C1[4], TAIL[4]), TAIL[4]));
    assert t.b[5] == Rot17(Plus(Minus(C1[5], TAIL[5]), TAIL[5]));
    assert t.b[6] == Rot17(Plus(Minus(C1[6], TAIL[6]), TAIL[6]));
    assert t.b[7] == Rot17(Plus(Minus(C1[7], TAIL[7]), TAIL[7]));
    assert t.b[8] == Rot17(Plus(Minus(C1[8], TAIL[8]), TAIL[8]));
    assert t.b[9] == Rot17(Plus(Minus(C1[9], TAIL[9]), TAIL[9]));
    assert t.b[10] == Rot17(Plus(Minus(C1[10], TAIL[10]), TAIL[10]));
    assert t.b[11] == Rot17(Plus(Minus(C1[11], TAIL[11]), TAIL[11]));
    assert t.b[12] == Rot17(Plus(Minus(C1[12], TAIL[12]), TAIL[12]));
    assert t.b[13] == Rot17(Plus(Minus(C1[13], TAIL[13]), TAIL[13]));
    assert t.b[14] == Rot17(Plus(Minus(C1[14], TAIL[14]), TAIL[14]));
    assert t.b[15] == Rot17(Plus(Minus(C1[15], TAIL[15]), TAIL[15]));
  }

  lemma Round3Steps(t: FullTrace)
    requires Begins(t, AFTER2, 1, 0, TAIL) && Steps(t, C2, TAIL)
    ensures t.a[48] == 0xD67FDA43 && t.a[49] == 0xFB1038C1 && t.a[50] == 0x5B693FED && t.a[51] == 0x026FE65D
    ensures t.a[52] == 0x76A24E9A && t.a[53] == 0x9FAF9DDC && t.a[54] == 0x657B14E2 && t.a[55] == 0xF314B3B7
    ensures t.a[56] == 0x32A592B2 && t.a[57] == 0xB55D2228 && t.a[58] == 0x931A1CA0 && t.a[59] == 0x98AC3AD9
    ensures t.b[48] == 0xBFAE7DA8 && t.b[49] == 0x6E090CB6 && t.b[50] == 0xC53928D1 && t.b[51] == 0x31BE74B1
    ensures t.b[52] == 0xE66BC2EA && t.b[53] == 0x6DA33931 && t.b[54] == 0xA480C76D && t.b[55] == 0xB52D0699
    ensures t.b[56] == 0x0009471B && t.b[57] == 0xCDBE3790 && t.b[58] == 0x8F977B2D && t.b[59] == 0xC99663F8
    ensures t.b[60] == 0xB4CA415A && t.b[61] == 0x8B4AEAC5 && t.b[62] == 0xDCFB53DB && t.b[63] == 0x192FC6E8
  {
    hide Begins, Ends;
    Round3BeginsA(t);
    Round3BeginsB(t);
  }

  lemma Round3EndsA(t: FullTrace, r: Regs)
    requires Ends(t, C2, TAIL, r)
    requires t.a[48] == 0xD67FDA43 && t.a[49] == 0xFB1038C1 && t.a[50] == 0x5B693FED && t.a[51] == 0x026FE65D
    requires t.a[52] == 0x76A24E9A && t.a[53] == 0x9FAF9DDC && t.a[54] == 0x657B14E2 && t.a[55] == 0xF314B3B7
    requires t.a[56] == 0x32A592B2 && t.a[57] == 0xB55D2228 && t.a[58] == 0x931A1CA0 && t.a[59] == 0x98AC3AD9
    ensures r.a[0] == 0x9FAFD539 && r.a[1] == 0xF55C0901 && r.a[2] == 0xA4948749 && r.a[3] == 0xFDF8C82B
    ensures r.a[4] == 0xAEDC35C0 && r.a[5] == 0x3FE60F77 && r.a[6] == 0x6E4E59E6 && r.a[7] == 0xBD6CAB57
    ensures r.a[8] == 0x605B9561 && r.a[9] == 0xAA94B09D && r.a[10] == 0x8B15ABF5 && r.a[11] == 0xD153818B
  {
    hide Without;
    assert r.a[0] == Plus(Plus(Plus(t.a[48], C2[11]), C2[15]), C2[3]);
    assert r.a[1] == Plus(Plus(Plus(t.a[49], C2[12]), C2[0]), C2[4]);
    assert r.a[2] == Plus(Plus(Plus(t.a[50], C2[13]), C2[1]), C2[5]);
    assert r.a[3] == Plus(Plus(Plus(t.a[51], C2[14]), C2[2]), C2[6]);
    assert r.a[4] == Plus(Plus(Plus(t.a[52], C2[15]), C2[3]), C2[7]);
    assert r.a[5] == Plus(Plus(Plus(t.a[53], C2[0]), C2[4]), C2[8]);
    assert r.a[6] == Plus(Plus(Plus(t.a[54], C2[1]), C2[5]), C2[9]);
    assert r.a[7] == Plus(Plus(Plus(t.a[55], C2[2]), C2[6]), C2[10]);
    assert r.a[8] == Plus(Plus(Plus(t.a[56], C2[3]), C2[7]), C2[11]);
    assert r.a[9] == Plus(Plus(Plus(t.a[57], C2[4]), C2[8]), C2[12]);
    assert r.a[10] == Plus(Plus(Plus(t.a[58], C2[5]), C2[9]), C2[13]);
    assert r.a[11] == Plus(Plus(Plus(t.a[59], C2[6]), C2[10]), C2[14]);
  }

  lemma Round3IsA(r: Regs)
    requires r.a[0] == 0x9FAFD539 && r.a[1] == 0xF55C0901 && r.a[2] == 0xA4948749 && r.a[3] == 0xFDF8C82B
    requires r.a[4] == 0xAEDC35C0 && r.a[5] == 0x3FE60F77 && r.a[6] == 0x6E4E59E6 && r.a[7] == 0xBD6CAB57
    requires r.a[8] == 0x605B9561 && r.a[9] == 0xAA94B09D && r.a[10] == 0x8B15ABF5 && r.a[11] == 0xD153818B
    ensures r.a == A3
  {
  }

  lemma Round3EndsC(t: FullTrace, r: Regs)
    requires Ends(t, C2, TAIL, r)
    requires t.b[48] == 0xBFAE7DA8 && t.b[49] == 0x6E090CB6 && t.b[50] == 0xC53928D1 && t.b[51] == 0x31BE74B1
    requires t.b[52] == 0xE66BC2EA && t.b[53] == 0x6DA33931 && t.b[54] == 0xA480C76D && t.b[55] == 0xB52D0699
    requires t.b[56] == 0x0009471B && t.b[57] == 0xCDBE3790 && t.b[58] == 0x8F977B2D && t.b[59] == 0xC99663F8
    requires t.b[60] == 0xB4CA415A && t.b[61] == 0x8B4AEAC5 && t.b[62] == 0xDCFB53DB && t.b[63] == 0x192FC6E8
    ensures r.b == Without(C2, TAIL) && r.c == C3
  {
    hide Without, Plus;
  }

  lemma Round3Compressed()
    ensures Compressed(AFTER2, 1, 0, TAIL) == AFTER3
  {
    hide Compressed, Steps, Ends, Begins, Without, C2, TAIL;
    var t := CompressedIs(AFTER2, 1, 0, TAIL);
    var r := Compressed(AFTER2, 1, 0, TAIL);
    Round3Steps(t);
    Round3EndsA(t, r);
    Round3IsA(r);
    Round3EndsC(t, r);
  }

  lemma Round4BeginsA(t: FullTrace)
    requires Begins(t, AFTER3, 1, 0, TAIL)
    ensures t.a[0] == 0x9FAFD538 && t.a[1] == 0xF55C0901 && t.a[2] == 0xA4948749 && t.a[3] == 0xFDF8C82B
    ensures t.a[4] == 0xAEDC35C0 && t.a[5] == 0x3FE60F77 && t.a[6] == 0x6E4E59E6 && t.a[7] == 0xBD6CAB57
    ensures t.a[8] == 0x605B9561 && t.a[9] == 0xAA94B09D && t.a[10] == 0x8B15ABF5 && t.a[11] == 0xD153818B
  {
    hide Rot17, Plus, Without;
  }

  lemma Round4BeginsB(t: FullTrace)
    requires Begins(t, AFTER3, 1, 0, TAIL)
    ensures t.b[0] == 0xB7B325AE && t.b[1] == 0xB07DD840 && t.b[2] == 0xB489597E && t.b[3] == 0xB932E1AF
    ensures t.b[4] == 0xF768FF37 && t.b[5] == 0x991F0384 && t.b[6] == 0xBC686775 && t.b[7] == 0x12472BE8
    ensures t.b[8] == 0x341D1B86 && t.b[9] == 0x406F35E1 && t.b[10] == 0x7E51D3BB && t.b[11] == 0x39E64DD4
    ensures t.b[12] == 0xF167CFB0 && t.b[13] == 0x451FB691 && t.b[14] == 0x52AC361D && t.b[15] == 0x02D462DC
  {
    hide Xor;
    assert t.b[0] == Rot17(Plus(Minus(C2[0], TAIL[0]), TAIL[0]));
    assert t.b[1] == Rot17(Plus(Minus(C2[1], TAIL[1]), TAIL[1]));
    assert t.b[2] == Rot17(Plus(Minus(C2[2], TAIL[2]), TAIL[2]));
    assert t.b[3] == Rot17(Plus(Minus(C2[3], TAIL[3]), TAIL[3]));
    assert t.b[4] == Rot17(Plus(Minus(C2[4], TAIL[4]), TAIL[4]));
    assert t.b[5] == Rot17(Plus(Minus(C2[5], TAIL[5]), TAIL[5]));
    assert t.b[6] == Rot17(Plus(Minus(C2[6], TAIL[6]), TAIL[6]));
    assert t.b[7] == Rot17(Plus(Minus(C2[7], TAIL[7]), TAIL[7]));
    assert t.b[8] == Rot17(Plus(Minus(C2[8], TAIL[8]), TAIL[8]));
    assert t.b[9] == Rot17(Plus(Minus(C2[9], TAIL[9]), TAIL[9]));
    assert t.b[10] == Rot17(Plus(Minus(C2[10], TAIL[10]), TAIL[10]));
    assert t.b[11] == Rot17(Plus(Minus(C2[11], TAIL[11]), TAIL[11]));
    assert t.b[12] == Rot17(Plus(Minus(C2[12], TAIL[12]), TAIL[12]));
    assert t.b[13] == Rot17(Plus(Minus(C2[13], TAIL[13]), TAIL[13]));
    assert t.b[14] == Rot17(Plus(Minus(C2[14], TAIL[14]), TAIL[14]));
    assert t.b[15] == Rot17(Plus(Minus(C2[15], TAIL[15]), TAIL[15]));
  }

  lemma Round4Steps(t: FullTrace)
    requires Begins(t, AFTER3, 1, 0, TAIL) && Steps(t, C3, TAIL)
    ensures t.b[56] == 0xD150C7AE && t.b[57] == 0xF1E9EE1F && t.b[58] == 0x2F927162 && t.b[59] == 0xBEA9F5BA
    ensures t.b[60] == 0x01622F14 && t.b[61] == 0x20D7F89E && t.b[62] == 0x009458F8 && t.b[63] == 0x14908870
  {
    hide Begins, Ends;
    Round4BeginsA(t);
    Round4BeginsB(t);
  }

  lemma Round4Compressed()
    ensures Compressed(AFTER3, 1, 0, TAIL).c[8..] == OUTPUT
  {
    hide Compressed, Steps, Begins, Without, C3, TAIL;
    var t := CompressedIs(AFTER3, 1, 0, TAIL);
    Round4Steps(t);
    var c := Compressed(AFTER3, 1, 0, TAIL).c;
    assert forall j :: 8 <= j < 16 ==> c[j] == t.b[48 + j];
  }

  // ---------- the digest ----------

  lemma FinalStep(w: Regs)
    ensures GoCompression(LaneOf(w), Low(1), High(1), PaddedTail([])) == LaneOf(Compressed(w, 1, 0, TAIL))
  {
    hide RegsOf, LaneOf, MessageOf, PaddedTail, GoCompress, VectorCompress, Compressed, TAIL;
    RegsBack(w);
    TailIs();
    KernelsAgree(w, 1, 0, TAIL);
    FirstCounter();
  }

  lemma FirstCounter()
    ensures ToWord(Low(1)) == 1 && ToWord(High(1)) == 0
  {
  }

  lemma FinalIs()
    ensures Final(GoCompression, LaneOf(IV), 1, PaddedTail([]), 4) == LaneOf(Compressed(AFTER3, 1, 0, TAIL))
  {
    hide LaneOf, Low, High, PaddedTail, GoCompression, Compressed, TAIL, AFTER1, AFTER2, AFTER3, IV;
    FinalStep(IV);
    Round1Compressed();
    FinalStep(AFTER1);
    Round2Compressed();
    FinalStep(AFTER2);
    Round3Compressed();
    FinalStep(AFTER3);
    var (s, b) := (LaneOf(IV), PaddedTail([]));
    assert Final(GoCompression, s, 1, b, 1) == LaneOf(AFTER1);
    assert Final(GoCompression, s, 1, b, 2) == LaneOf(AFTER2);
    assert Final(GoCompression, s, 1, b, 3) == LaneOf(AFTER3);
  }

  lemma OutputWords(w: Regs)
    requires w.c[8..] == OUTPUT
    ensures LaneOf(w)[36..44] == seq(8, i requires 0 <= i < 8 => FromWord(OUTPUT[i]))
  {
    hide FromWord, OUTPUT;
    forall i | 0 <= i < 8 ensures LaneOf(w)[36..44][i] == FromWord(OUTPUT[i]) {
      assert OUTPUT[i] == w.c[8..][i] == w.c[8 + i];
    }
  }

  lemma DigestWords()
    ensures Digest(GoCompression, LaneOf(IV), []) == seq(8, i requires 0 <= i < 8 => FromWord(OUTPUT[i]))
  {
    hide LaneOf, GoCompression, Compressed, PaddedTail, Final, FromWord, OUTPUT, IV, AFTER3, TAIL;
    var m: seq<byte> := [];
    assert m[64 * 0..] == m;
    FinalIs();
    Round4Compressed();
    OutputWords(Compressed(AFTER3, 1, 0, TAIL));
  }

  lemma OutputNumbers()
    ensures FromWord(OUTPUT[0]) == 0xD150C7AE && FromWord(OUTPUT[1]) == 0xF1E9EE1F
    ensures FromWord(OUTPUT[2]) == 0x2F927162 && FromWord(OUTPUT[3]) == 0xBEA9F5BA
    ensures FromWord(OUTPUT[4]) == 0x01622F14 && FromWord(OUTPUT[5]) == 0x20D7F89E
    ensures FromWord(OUTPUT[6]) == 0x009458F8 && FromWord(OUTPUT[7]) == 0x14908870
  {
  }

  lemma EarlyBytes()
    ensures WordByte(0xD150C7AE, 0) == 174 && WordByte(0xD150C7AE, 1) == 199 && WordByte(0xD150C7AE, 2) == 80
    ensures WordByte(0xD150C7AE, 3) == 209 && WordByte(0xF1E9EE1F, 0) == 31 && WordByte(0xF1E9EE1F, 1) == 238
    ensures WordByte(0xF1E9EE1F, 2) == 233 && WordByte(0xF1E9EE1F, 3) == 241 && WordByte(0x2F927162, 0) == 98
    ensures WordByte(0x2F927162, 1) == 113 && WordByte(0x2F927162, 2) == 146 && WordByte(0x2F927162, 3) == 47
    ensures WordByte(0xBEA9F5BA, 0) == 186 && WordByte(0xBEA9F5BA, 1) == 245 && WordByte(0xBEA9F5BA, 2) == 169
    ensures WordByte(0xBEA9F5BA, 3) == 190
  {
  }

  lemma LateBytes()
    ensures WordByte(0x01622F14, 0) == 20 && WordByte(0x01622F14, 1) == 47 && WordByte(0x01622F14, 2) == 98
    ensures WordByte(0x01622F14, 3) == 1 && WordByte(0x20D7F89E, 0) == 158 && WordByte(0x20D7F89E, 1) == 248
    ensures WordByte(0x20D7F89E, 2) == 215 && WordByte(0x20D7F89E, 3) == 32 && WordByte(0x009458F8, 0) == 248
    ensures WordByte(0x009458F8, 1) == 88 && WordByte(0x009458F8, 2) == 148 && WordByte(0x009458F8, 3) == 0
    ensures WordByte(0x14908870, 0) == 112 && WordByte(0x14908870, 1) == 136 && WordByte(0x14908870, 2) == 144
    ensures WordByte(0x14908870, 3) == 20
  {
  }

  ghost function Quad(w: int): seq<byte>
  {
    [WordByte(w, 0), WordByte(w, 1), WordByte(w, 2), WordByte(w, 3)]
  }

  lemma WordBytesAre(d: seq<int>)
    requires |d| == 8
    ensures forall i :: 0 <= i < 8 ==> WordBytes(d)[4 * i..4 * (i + 1)] == Quad(d[i])
  {
    hide WordByte;
  }

  /** The digest of the empty message is the published one. */
  lemma EmptyDigest()
    ensures WordBytes(Digest(GoCompression, LaneOf(IV), [])) == [
      0xAE, 0xC7, 0x50, 0xD1, 0x1F, 0xEE, 0xE9, 0xF1, 0x62, 0x71, 0x92, 0x2F, 0xBA, 0xF5, 0xA9, 0xBE,
      0x14, 0x2F, 0x62, 0x01, 0x9E, 0xF8, 0xD7, 0x20, 0xF8, 0x58, 0x94, 0x00, 0x70, 0x88, 0x90, 0x14
    ]
  {
    hide Digest, LaneOf, GoCompression, IV, FromWord, WordByte;
    DigestWords();
    var d := Digest(GoCompression, LaneOf(IV), []);
    OutputNumbers();
    EarlyBytes();
    LateBytes();
    assert [d[0], d[1], d[2], d[3]] == [0xD150C7AE, 0xF1E9EE1F, 0x2F927162, 0xBEA9F5BA];
    assert [d[4], d[5], d[6], d[7]] == [0x01622F14, 0x20D7F89E, 0x009458F8, 0x14908870];
    WordBytesAre(d);
  }
}
