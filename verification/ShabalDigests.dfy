/** The multi-lane hash and the single-lane hash with their own compressions and initial states: one digest. */
module ShabalDigests {
  import opened LittleEndian
  import opened Shabal
  import opened ShabalInit
  import opened ShabalKernels

  // ---------- lanes and registers ----------

  function ToWord(x: int): Word
  {
    (x % 0x1_0000_0000) as bv32
  }

  function FromWord(w: Word): int
  {
    w as int
  }

  function RegsOf(s: LaneState): Regs
  {
    Words(seq(12, i requires 0 <= i < 12 => ToWord(s[i])),
          seq(16, i requires 0 <= i < 16 => ToWord(s[12 + i])),
          seq(16, i requires 0 <= i < 16 => ToWord(s[28 + i])))
  }

  function LaneOf(w: Regs): LaneState
  {
    seq(44, i requires 0 <= i < 44 => FromWord(if i < 12 then w.a[i] else if i < 28 then w.b[i - 12] else w.c[i - 28]))
  }

  /** Four bytes of a block, the lowest first. */
  function WordAt(b: seq<byte>, off: nat): Word
  {
    if off + 4 <= |b| then FourBytes(b[off] as bv32, b[off + 1] as bv32, b[off + 2] as bv32, b[off + 3] as bv32) else 0
  }

  function FourBytes(b0: Word, b1: Word, b2: Word, b3: Word): Word
  {
    b0 | (b1 << 8) | (b2 << 16) | (b3 << 24)
  }

  function MessageOf(b: seq<byte>): Block
  {
    seq(16, j requires 0 <= j < 16 => WordAt(b, 4 * j))
  }

  function VectorCompression(s: LaneState, lo: int, hi: int, b: seq<byte>): LaneState
  {
    LaneOf(VectorCompress(RegsOf(s), ToWord(lo), ToWord(hi), MessageOf(b)))
  }

  function GoCompression(s: LaneState, lo: int, hi: int, b: seq<byte>): LaneState
  {
    LaneOf(GoCompress(RegsOf(s), ToWord(lo), ToWord(hi), MessageOf(b)))
  }

  lemma CompressionsAgree(s: LaneState, lo: int, hi: int, b: seq<byte>)
    ensures VectorCompression(s, lo, hi, b) == GoCompression(s, lo, hi, b)
  {
    KernelsAgree(RegsOf(s), ToWord(lo), ToWord(hi), MessageOf(b));
  }

  // ---------- the initial state ----------

  lemma WordBack(w: Word)
    ensures ToWord(FromWord(w)) == w
  {
    hide ToWord;
    InRange(w as int);
    Back(w);
  }

  lemma InRange(x: int)
    requires 0 <= x < 0x1_0000_0000
    ensures ToWord(x) == x as bv32
  {
    assert x % 0x1_0000_0000 == x;
  }

  lemma Back(w: Word)
    ensures (w as int) as bv32 == w
  {
  }

  lemma RegsBack(w: Regs)
    ensures RegsOf(LaneOf(w)) == w
  {
    hide ToWord, FromWord;
    forall x: Word ensures ToWord(FromWord(x)) == x {
      WordBack(x);
    }
    var r := RegsOf(LaneOf(w));
    assert r.a == w.a && r.b == w.b && r.c == w.c;
  }

  lemma BlankRegs()
    ensures RegsOf(seq(44, _ => 0)) == BLANK
  {
  }

  lemma InitCounters()
    ensures ToWord(Low(-1)) == ToWord(High(-1)) == 0xFFFF_FFFF && ToWord(Low(0)) == ToWord(High(0)) == 0
  {
  }

  lemma InitBytes(first: nat, j: nat)
    requires 256 <= first <= 272 && j < 16
    ensures var b := InitBlock(first);
            b[4 * j] == first - 256 + j && b[4 * j + 1] == 1 && b[4 * j + 2] == 0 && b[4 * j + 3] == 0
  {
  }

  lemma InitFourBytes(first: nat, j: nat)
    requires 256 <= first <= 272 && j < 16
    ensures MessageOf(InitBlock(first))[j] == FourBytes((first - 256 + j) as bv32, 1, 0, 0)
  {
    hide FourBytes, InitBlock, WordAt;
    InitBytes(first, j);
    WordIs(InitBlock(first), 4 * j);
  }

  lemma WordIs(b: seq<byte>, off: nat)
    requires off + 4 <= |b|
    ensures WordAt(b, off) == FourBytes(b[off] as bv32, b[off + 1] as bv32, b[off + 2] as bv32, b[off + 3] as bv32)
  {
  }

  lemma InitWordAt(first: nat, j: nat, x: Word, r: Word)
    requires 256 <= first <= 272 && j < 16 && x as int == first - 256 + j && FourBytes(x, 1, 0, 0) == r
    ensures MessageOf(InitBlock(first))[j] == r
  {
    hide FourBytes, InitBlock, MessageOf;
    InitFourBytes(first, j);
    Back(x);
  }

  lemma FirstWords()
    ensures FourBytes(0, 1, 0, 0) == 0x100 && FourBytes(1, 1, 0, 0) == 0x101
    ensures FourBytes(2, 1, 0, 0) == 0x102 && FourBytes(3, 1, 0, 0) == 0x103
    ensures FourBytes(4, 1, 0, 0) == 0x104 && FourBytes(5, 1, 0, 0) == 0x105
    ensures FourBytes(6, 1, 0, 0) == 0x106 && FourBytes(7, 1, 0, 0) == 0x107
    ensures FourBytes(8, 1, 0, 0) == 0x108 && FourBytes(9, 1, 0, 0) == 0x109
    ensures FourBytes(10, 1, 0, 0) == 0x10A && FourBytes(11, 1, 0, 0) == 0x10B
    ensures FourBytes(12, 1, 0, 0) == 0x10C && FourBytes(13, 1, 0, 0) == 0x10D
    ensures FourBytes(14, 1, 0, 0) == 0x10E && FourBytes(15, 1, 0, 0) == 0x10F
  {
  }

  lemma SecondWords()
    ensures FourBytes(16, 1, 0, 0) == 0x110 && FourBytes(17, 1, 0, 0) == 0x111
    ensures FourBytes(18, 1, 0, 0) == 0x112 && FourBytes(19, 1, 0, 0) == 0x113
    ensures FourBytes(20, 1, 0, 0) == 0x114 && FourBytes(21, 1, 0, 0) == 0x115
    ensures FourBytes(22, 1, 0, 0) == 0x116 && FourBytes(23, 1, 0, 0) == 0x117
    ensures FourBytes(24, 1, 0, 0) == 0x118 && FourBytes(25, 1, 0, 0) == 0x119
    ensures FourBytes(26, 1, 0, 0) == 0x11A && FourBytes(27, 1, 0, 0) == 0x11B
    ensures FourBytes(28, 1, 0, 0) == 0x11C && FourBytes(29, 1, 0, 0) == 0x11D
    ensures FourBytes(30, 1, 0, 0) == 0x11E && FourBytes(31, 1, 0, 0) == 0x11F
  {
  }

  lemma FirstBlockIs()
    ensures MessageOf(InitBlock(256)) == FIRST_BLOCK
  {
    hide FourBytes, MessageOf, InitBlock, FIRST_BLOCK;
    FirstWords();
    InitWordAt(256, 0, 0, 0x100); InitWordAt(256, 1, 1, 0x101);
    InitWordAt(256, 2, 2, 0x102); InitWordAt(256, 3, 3, 0x103);
    InitWordAt(256, 4, 4, 0x104); InitWordAt(256, 5, 5, 0x105);
    InitWordAt(256, 6, 6, 0x106); InitWordAt(256, 7, 7, 0x107);
    InitWordAt(256, 8, 8, 0x108); InitWordAt(256, 9, 9, 0x109);
    InitWordAt(256, 10, 10, 0x10A); InitWordAt(256, 11, 11, 0x10B);
    InitWordAt(256, 12, 12, 0x10C); InitWordAt(256, 13, 13, 0x10D);
    InitWordAt(256, 14, 14, 0x10E); InitWordAt(256, 15, 15, 0x10F);
    IsFirstBlock(MessageOf(InitBlock(256)));
  }

  lemma IsFirstBlock(m: Block)
    requires m[0] == 0x100 && m[1] == 0x101 && m[2] == 0x102 && m[3] == 0x103
    requires m[4] == 0x104 && m[5] == 0x105 && m[6] == 0x106 && m[7] == 0x107
    requires m[8] == 0x108 && m[9] == 0x109 && m[10] == 0x10A && m[11] == 0x10B
    requires m[12] == 0x10C && m[13] == 0x10D && m[14] == 0x10E && m[15] == 0x10F
    ensures m == FIRST_BLOCK
  {
  }

  lemma SecondBlockIs()
    ensures MessageOf(InitBlock(272)) == SECOND_BLOCK
  {
    hide FourBytes, MessageOf, InitBlock, SECOND_BLOCK;
    SecondWords();
    InitWordAt(272, 0, 16, 0x110); InitWordAt(272, 1, 17, 0x111);
    InitWordAt(272, 2, 18, 0x112); InitWordAt(272, 3, 19, 0x113);
    InitWordAt(272, 4, 20, 0x114); InitWordAt(272, 5, 21, 0x115);
    InitWordAt(272, 6, 22, 0x116); InitWordAt(272, 7, 23, 0x117);
    InitWordAt(272, 8, 24, 0x118); InitWordAt(272, 9, 25, 0x119);
    InitWordAt(272, 10, 26, 0x11A); InitWordAt(272, 11, 27, 0x11B);
    InitWordAt(272, 12, 28, 0x11C); InitWordAt(272, 13, 29, 0x11D);
    InitWordAt(272, 14, 30, 0x11E); InitWordAt(272, 15, 31, 0x11F);
    IsSecondBlock(MessageOf(InitBlock(272)));
  }

  lemma IsSecondBlock(m: Block)
    requires m[0] == 0x110 && m[1] == 0x111 && m[2] == 0x112 && m[3] == 0x113
    requires m[4] == 0x114 && m[5] == 0x115 && m[6] == 0x116 && m[7] == 0x117
    requires m[8] == 0x118 && m[9] == 0x119 && m[10] == 0x11A && m[11] == 0x11B
    requires m[12] == 0x11C && m[13] == 0x11D && m[14] == 0x11E && m[15] == 0x11F
    ensures m == SECOND_BLOCK
  {
  }

  /** The constants of the single-lane hash are the state the lanes reach by absorbing the two initial blocks. */
  lemma InitStateIs()
    ensures InitState(VectorCompression) == LaneOf(IV)
  {
    hide RegsOf, LaneOf, MessageOf, ToWord, Low, High, InitBlock, VectorCompress, Compressed;
    BlankRegs();
    InitCounters();
    FirstBlockIs();
    SecondBlockIs();
    KernelsAgree(BLANK, 0xFFFF_FFFF, 0xFFFF_FFFF, FIRST_BLOCK);
    FirstCompressed();
    RegsBack(MIDDLE);
    KernelsAgree(MIDDLE, 0, 0, SECOND_BLOCK);
    SecondCompressed();
  }

  // ---------- the digests ----------

  lemma {:induction false} AbsorbedAgree(s: LaneState, n: int, data: seq<byte>, num: nat)
    requires 64 * num <= |data|
    ensures Absorbed(VectorCompression, s, n, data, num) == Absorbed(GoCompression, s, n, data, num)
  {
    hide Low, High, VectorCompression, GoCompression;
    if num > 0 {
      AbsorbedAgree(s, n, data, num - 1);
      CompressionsAgree(Absorbed(GoCompression, s, n, data, num - 1), Low(n + num - 1), High(n + num - 1),
                        data[64 * (num - 1)..64 * num]);
    }
  }

  lemma {:induction false} FinalAgree(s: LaneState, n: int, b: seq<byte>, rounds: nat)
    ensures Final(VectorCompression, s, n, b, rounds) == Final(GoCompression, s, n, b, rounds)
  {
    hide Low, High, VectorCompression, GoCompression;
    if rounds > 0 {
      FinalAgree(s, n, b, rounds - 1);
      CompressionsAgree(Final(GoCompression, s, n, b, rounds - 1), Low(n), High(n), b);
    }
  }

  lemma DigestsAgree(iv: LaneState, m: seq<byte>)
    ensures Digest(VectorCompression, iv, m) == Digest(GoCompression, iv, m)
  {
    hide Absorbed, Final, PaddedTail;
    var num := |m| / 64;
    AbsorbedAgree(iv, 1, m, num);
    FinalAgree(Absorbed(GoCompression, iv, 1, m, num), num + 1, PaddedTail(m[64 * num..]), 4);
  }

  /**
   The lanes, fed any chunks, and the single-lane hash, given the joined
   message at once: every lane's eight words are the digest's bytes.
   */
  method CompareDigests(lanes: nat, chunks: seq<seq<seq<byte>>>, i: nat, data: seq<byte>)
    returns (lane: seq<int>, single: seq<byte>)
    requires i < lanes && Aligned(chunks, lanes) && data == Joined(chunks, i) && |data| < WORD
    ensures |lane| == 8 && single == WordBytes(lane)
  {
    hide Digest, InitState, LaneOf;
    var out := HashChunks(lanes, VectorCompression, chunks);
    lane := out[i];
    single := Sum256(GoCompression, LaneOf(IV), data);
    InitStateIs();
    DigestsAgree(LaneOf(IV), data);
  }
}
