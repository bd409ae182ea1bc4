/** Writing instructions down as bytes, and that the machine's operand getters read them back. */
module AtAssembler {
  import opened LittleEndian
  import opened Modular
  import opened MachineWords
  import opened Encoding
  import opened AtMachine

  /** A signed number of n bytes, in two's complement. */
  ghost function SignedBytes(x: int, n: nat): (s: seq<byte>)
    ensures |s| == n
  {
    Bytes(x % Radix(n), n)
  }

  ghost function Assembled(sh: Shape, w: Operands): seq<byte>
  {
    match sh
    case Bare => []
    case NoSuch => []
    case Addr => SignedBytes(w.a1, 4)
    case AddrVal => SignedBytes(w.a1, 4) + SignedBytes(w.val, 8)
    case Addrs => SignedBytes(w.a1, 4) + SignedBytes(w.a2, 4)
    case Addrs3 => SignedBytes(w.a1, 4) + SignedBytes(w.a2, 4) + SignedBytes(w.a3, 4)
    case AddrOff => SignedBytes(w.a1, 4) + SignedBytes(w.off, 1)
    case AddrsOff => SignedBytes(w.a1, 4) + SignedBytes(w.a2, 4) + SignedBytes(w.off, 1)
    case Fun => SignedBytes(w.fun, 2)
    case FunAddr => SignedBytes(w.fun, 2) + SignedBytes(w.a1, 4)
    case FunAddrs => SignedBytes(w.fun, 2) + SignedBytes(w.a1, 4) + SignedBytes(w.a2, 4)
    case FunAddrs3 => SignedBytes(w.fun, 2) + SignedBytes(w.a1, 4) + SignedBytes(w.a2, 4) + SignedBytes(w.a3, 4)
  }

  /** Operands the machine accepts, with nothing in the places a shape does not use. */
  ghost predicate Usable(sh: Shape, w: Operands, pc: int)
  {
    && (if sh in {Bare, Fun} then w.a1 == 0 else InData(w.a1))
    && (if sh in {Addrs, Addrs3, AddrsOff, FunAddrs, FunAddrs3} then InData(w.a2) else w.a2 == 0)
    && (if sh in {Addrs3, FunAddrs3} then InData(w.a3) else w.a3 == 0)
    && (if sh == AddrVal then true else w.val == 0)
    && (if sh in {AddrOff, AddrsOff} then -128 <= w.off < 128 && pc + w.off < 512 else w.off == 0)
    && (if sh in {Fun, FunAddr, FunAddrs, FunAddrs3} then -0x8000 <= w.fun < 0x8000 else w.fun == 0)
  }

  lemma SignedBack(x: int, n: nat, half: int)
    requires half > 0 && -half <= x < half && Radix(n) == 2 * half
    ensures Wrap(Value(SignedBytes(x, n)), half) == x
  {
    hide Radix, Value, Wrap;
    var m := 2 * half;
    if x >= 0 {
      RemainderUnique(x, x, 0, m);
      WrapFits(x, half);
    } else {
      RemainderUnique(x, x + m, -1, m);
      WrapFits(x + m, half);
    }
    BytesValue(x % m, n);
  }

  /** The bytes of an operand, where the getters look for them. */
  ghost predicate Lies(code: Code, at: nat, s: seq<byte>)
  {
    at + |s| <= 512 && code[at..at + |s|] == s
  }

  lemma LiesSplit(code: Code, at: nat, s: seq<byte>, t: seq<byte>)
    requires Lies(code, at, s + t)
    ensures Lies(code, at, s) && Lies(code, at + |s|, t)
  {
    assert code[at..at + |s + t|][..|s|] == s;
    assert code[at..at + |s + t|][|s|..] == t;
  }

  lemma AddrRead(code: Code, at: nat, a: int)
    requires Lies(code, at, SignedBytes(a, 4)) && InData(a)
    ensures Int32At(code, at) == a && !InvalidAddr(a)
  {
    hide Value, Wrap, Radix;
    Radixes();
    SignedBack(a, 4, 0x8000_0000);
    ValidAddrIff(a);
  }

  lemma FunRead(code: Code, at: nat, f: int)
    requires Lies(code, at, SignedBytes(f, 2)) && -0x8000 <= f < 0x8000
    ensures Int16At(code, at) == f
  {
    hide Value, Wrap, Radix;
    Radixes();
    SignedBack(f, 2, 0x8000);
  }

  lemma ValRead(code: Code, at: nat, v: Word)
    requires Lies(code, at, SignedBytes(v, 8))
    ensures Int64At(code, at) == v
  {
    hide Value, Wrap, Radix;
    Radixes();
    SignedBack(v, 8, 0x8000_0000_0000_0000);
  }

  lemma OffRead(code: Code, at: nat, off: int)
    requires Lies(code, at, SignedBytes(off, 1)) && -128 <= off < 128
    ensures Int8At(code, at) == off
  {
    hide Wrap, Radix;
    Radixes();
    SignedBack(off, 1, 128);
    assert code[at..at + 1] == [code[at]];
    ValueSnoc([], code[at]);
    RadixStep(0);
  }

  /** Any instruction with usable operands, written down anywhere in the code, is fetched as it was written. */
  lemma FetchAssembled(code: Code, pc: int, sh: Shape, w: Operands)
    requires 0 <= pc && sh != NoSuch && Usable(sh, w, pc) && Lies(code, pc + 1, Assembled(sh, w))
    requires pc + Length(sh) <= 512
    ensures FetchOperands(code, pc, sh) == Fetched(w)
  {
    hide SignedBytes, Int32At, Int16At, Int64At, Int8At, InvalidAddr, Lies;
    var p := pc + 1;
    match sh
    case Bare =>
    case Addr => AddrRead(code, p, w.a1);
    case AddrVal =>
      LiesSplit(code, p, SignedBytes(w.a1, 4), SignedBytes(w.val, 8));
      AddrRead(code, p, w.a1);
      ValRead(code, p + 4, w.val);
    case Addrs => TwoRead(code, p, w);
    case Addrs3 =>
      LiesSplit(code, p, SignedBytes(w.a1, 4) + SignedBytes(w.a2, 4), SignedBytes(w.a3, 4));
      TwoRead(code, p, w);
      AddrRead(code, p + 8, w.a3);
    case AddrOff =>
      LiesSplit(code, p, SignedBytes(w.a1, 4), SignedBytes(w.off, 1));
      AddrRead(code, p, w.a1);
      OffRead(code, p + 4, w.off);
    case AddrsOff =>
      LiesSplit(code, p, SignedBytes(w.a1, 4) + SignedBytes(w.a2, 4), SignedBytes(w.off, 1));
      TwoRead(code, p, w);
      OffRead(code, p + 8, w.off);
    case Fun => FunRead(code, p, w.fun);
    case FunAddr =>
      LiesSplit(code, p, SignedBytes(w.fun, 2), SignedBytes(w.a1, 4));
      FunRead(code, p, w.fun);
      AddrRead(code, p + 2, w.a1);
    case FunAddrs => FunTwoRead(code, p, w);
    case FunAddrs3 =>
      LiesSplit(code, p, SignedBytes(w.fun, 2) + SignedBytes(w.a1, 4) + SignedBytes(w.a2, 4), SignedBytes(w.a3, 4));
      FunTwoRead(code, p, w);
      AddrRead(code, p + 10, w.a3);
  }

  lemma TwoRead(code: Code, p: nat, w: Operands)
    requires Lies(code, p, SignedBytes(w.a1, 4) + SignedBytes(w.a2, 4)) && InData(w.a1) && InData(w.a2)
    ensures p + 8 <= 512 && Int32At(code, p) == w.a1 && Int32At(code, p + 4) == w.a2
    ensures !InvalidAddr(w.a1) && !InvalidAddr(w.a2)
  {
    hide SignedBytes, Int32At, InvalidAddr;
    LiesSplit(code, p, SignedBytes(w.a1, 4), SignedBytes(w.a2, 4));
    AddrRead(code, p, w.a1);
    AddrRead(code, p + 4, w.a2);
  }

  lemma FunTwoRead(code: Code, p: nat, w: Operands)
    requires Lies(code, p, SignedBytes(w.fun, 2) + SignedBytes(w.a1, 4) + SignedBytes(w.a2, 4))
    requires InData(w.a1) && InData(w.a2) && -0x8000 <= w.fun < 0x8000
    ensures p + 10 <= 512 && Int16At(code, p) == w.fun && Int32At(code, p + 2) == w.a1 && Int32At(code, p + 6) == w.a2
    ensures !InvalidAddr(w.a1) && !InvalidAddr(w.a2)
  {
    hide SignedBytes, Int32At, Int16At, InvalidAddr;
    LiesSplit(code, p, SignedBytes(w.fun, 2) + SignedBytes(w.a1, 4), SignedBytes(w.a2, 4));
    LiesSplit(code, p, SignedBytes(w.fun, 2), SignedBytes(w.a1, 4));
    FunRead(code, p, w.fun);
    AddrRead(code, p + 2, w.a1);
    AddrRead(code, p + 6, w.a2);
  }
}
