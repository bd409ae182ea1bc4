/** What an address looks like: which place shows which digit of the number, and the addresses of some numbers. */
module PrintedAddress {
  import opened Modular
  import opened Powers
  import opened BaseConversion
  import opened GaloisField
  import opened RsCode
  import opened RsParity
  import opened BurstAddress

  // ---------- the alphabet ----------

  /** The digits from 2 on and the capital letters, but for I and O; increasing by AlphabetIncreasing. */
  lemma AlphabetIs(c: char)
    ensures InAlphabet(c) <==> '2' <= c <= '9' || ('A' <= c <= 'Z' && c != 'I' && c != 'O')
  {
    hide Letter;
    AlphabetRuns();
    if '2' <= c <= '9' {
      assert Letter(c as int - '2' as int) == c;
    } else if 'A' <= c <= 'H' {
      assert Letter(8 + (c as int - 'A' as int)) == c;
    } else if 'J' <= c <= 'N' {
      assert Letter(16 + (c as int - 'J' as int)) == c;
    } else if 'P' <= c <= 'Z' {
      assert Letter(21 + (c as int - 'P' as int)) == c;
    }
  }

  lemma AlphabetRuns()
    ensures forall i :: 0 <= i < 8 ==> Letter(i) as int == '2' as int + i
    ensures forall i :: 8 <= i < 16 ==> Letter(i) as int == 'A' as int + (i - 8)
    ensures forall i :: 16 <= i < 21 ==> Letter(i) as int == 'J' as int + (i - 16)
    ensures forall i :: 21 <= i < 32 ==> Letter(i) as int == 'P' as int + (i - 21)
  {
  }

  // ---------- the digits of a number ----------

  /** The base 32 digit of weight 32^i. */
  ghost function Digit(id: nat, i: nat): (d: int)
    ensures 0 <= d < 32
  {
    PowPositive(32, i);
    (id / Pow(32, i)) % 32
  }

  lemma {:induction false} WrittenDigit(v: nat, n: nat, i: nat)
    requires i < n
    ensures Written(v, n, 32)[n - 1 - i] == Digit(v, i)
    decreases n
  {
    hide Pow, Quotient, Remainder;
    if i == 0 {
      LowestDigit(v);
    } else {
      WrittenDigit(Quotient(v, 32), n - 1, i - 1);
      HigherDigit(v, i);
    }
  }

  lemma LowestDigit(v: nat)
    ensures Digit(v, 0) == Remainder(v, 32)
  {
  }

  lemma HigherDigit(v: nat, i: nat)
    requires i > 0
    ensures Digit(v, i) == Digit(Quotient(v, 32), i - 1)
  {
    PowPositive(32, i - 1);
    DivideTwice(v, 32, Pow(32, i - 1));
  }

  lemma DivideTwice(v: nat, a: int, b: int)
    requires a > 0 && b > 0
    ensures a * b > 0 && v / (a * b) == (v / a) / b
  {
    var q, r := v / a, v % a;
    var s, t := q / b, q % b;
    assert q == b * s + t && v == a * q + r;
    Nested(v, a, b, q, r, s, t);
    RemainderUnique(v, a * t + r, s, a * b);
  }

  lemma Nested(v: int, a: int, b: int, q: int, r: int, s: int, t: int)
    requires 0 <= r < a && 0 <= t < b && q == b * s + t && v == a * q + r
    ensures v == a * t + r + s * (a * b) && 0 <= a * t + r < a * b
  {
    assert a * (b * s + t) == s * (a * b) + a * t;
    assert a * (t + 1) <= a * b;
    assert 0 <= a * t;
  }

  lemma DataAt(id: nat, i: nat)
    requires i < 13
    ensures Data(id)[i] == Digit(id, i) as Sym
  {
    hide Digit, Written;
    WrittenDigit(id, 13, i);
  }

  // ---------- the layout ----------

  /** The letter for a digit of the number. */
  ghost function Shown(id: nat, i: nat): char
  {
    Letter(Digit(id, i))
  }

  /** The parity symbols of a number. */
  ghost function Parity(id: nat): Register
  {
    Cells(Data(id), 0)
  }

  lemma PlaceShows(id: nat, j: nat, i: nat)
    requires j < 20 && j != 4 && j != 9 && j != 14 && i < 13
    requires Mapped(SymbolAt(j)) == i
    ensures Address(id)[j] == Shown(id, i)
  {
    hide Cells, Digit, Letter, Mapped;
    DataAt(id, i);
    SymOfInt(Digit(id, i));
    var s := Permuted(Systematic(Data(id)));
    assert s[SymbolAt(j)] == Data(id)[i];
  }

  lemma ParityShows(id: nat, k: nat)
    requires k < 4
    ensures var p := Parity(id);
            |Address(id)| == 20 && Address(id)[10 + k] == Letter([p.p0, p.p1, p.p2, p.p3][k] as int)
  {
    hide Cells, Letter, Data;
    var s := Permuted(Systematic(Data(id)));
    assert Mapped(8 + k) == 13 + k && SymbolAt(10 + k) == 8 + k;
    assert s[8 + k] == Systematic(Data(id))[13 + k];
  }

  lemma Dashes(id: nat)
    ensures |Address(id)| == 20 && Address(id)[4] == Address(id)[9] == Address(id)[14] == '-'
  {
    hide Cells, Letter, Data;
  }

  /**
   The first two groups show the eight lowest digits, each group backwards; the
   third the parity symbols; the last the topmost digit and then the other four.
   */
  lemma Layout(id: nat)
    ensures |Address(id)| == 20
    ensures Address(id)[..4] == [Shown(id, 3), Shown(id, 2), Shown(id, 1), Shown(id, 0)]
    ensures Address(id)[5..9] == [Shown(id, 7), Shown(id, 6), Shown(id, 5), Shown(id, 4)]
    ensures var p := Parity(id);
            Address(id)[10..14] == [Letter(p.p0 as int), Letter(p.p1 as int), Letter(p.p2 as int), Letter(p.p3 as int)]
    ensures Address(id)[15..] == [Shown(id, 12), Shown(id, 8), Shown(id, 9), Shown(id, 10), Shown(id, 11)]
    ensures Address(id)[4] == Address(id)[9] == Address(id)[14] == '-'
  {
    hide Shown, Address, Parity, Letter;
    Dashes(id);
    PlaceShows(id, 0, 3); PlaceShows(id, 1, 2); PlaceShows(id, 2, 1); PlaceShows(id, 3, 0);
    PlaceShows(id, 5, 7); PlaceShows(id, 6, 6); PlaceShows(id, 7, 5); PlaceShows(id, 8, 4);
    PlaceShows(id, 15, 12); PlaceShows(id, 16, 8); PlaceShows(id, 17, 9); PlaceShows(id, 18, 10);
    PlaceShows(id, 19, 11);
    ParityShows(id, 0); ParityShows(id, 1); ParityShows(id, 2); ParityShows(id, 3);
  }

  // ---------- the register by shifts ----------

  lemma MultShifts(x: Sym)
    ensures Gmult(2, x) == Alpha(x) && Gmult(4, x) == Alpha(Alpha(x))
    ensures Gmult(8, x) == Alpha(Alpha(Alpha(x))) && Gmult(16, x) == Alpha(Alpha(Alpha(Alpha(x))))
  {
    hide Gmult, Log, Alpha;
    PowerLogs();
    MultIsPow(x, 2); MultIsPow(x, 4); MultIsPow(x, 8); MultIsPow(x, 16);
    MultComm(x, 2); MultComm(x, 4); MultComm(x, 8); MultComm(x, 16);
    FourAlphas(x);
  }

  lemma PowerLogs()
    ensures Log(2) == 1 && Log(4) == 2 && Log(8) == 3 && Log(16) == 4
  {
  }

  lemma FourAlphas(x: Sym)
    ensures AlphaPow(1, x) == Alpha(x) && AlphaPow(2, x) == Alpha(Alpha(x))
    ensures AlphaPow(3, x) == Alpha(Alpha(Alpha(x))) && AlphaPow(4, x) == Alpha(Alpha(Alpha(Alpha(x))))
  {
    hide Alpha;
  }

  /** One step of the register without tables: f, f2, f4, f8 and f16 are the feedback shifted up. */
  function Shifted(r: Register, f: Sym, f2: Sym, f4: Sym, f8: Sym, f16: Sym): Register
  {
    Register(Plus(f16, f), Plus(r.p0, Plus(f8, f)), Plus(r.p1, Plus(f4, f2)),
             Plus(r.p2, Plus(Plus(f16, f8), Plus(f4, f2))))
  }

  function ShiftClock(r: Register, c: Sym): Register
  {
    var f := Plus(c, r.p3);
    Shifted(r, f, Alpha(f), Alpha(Alpha(f)), Alpha(Alpha(Alpha(f))), Alpha(Alpha(Alpha(Alpha(f)))))
  }

  /** The generator's coefficients 17, 9, 6 and 30 as sums of powers of alpha: the register needs no table. */
  lemma ClockShifts(r: Register, c: Sym)
    ensures Clock(r, c) == ShiftClock(r, c)
  {
    hide Gmult, Alpha, Plus;
    var f := Plus(c, r.p3);
    MultShifts(f);
    Coefficients(f);
  }

  lemma Coefficients(f: Sym)
    ensures Gmult(17, f) == Plus(Gmult(16, f), f) && Gmult(9, f) == Plus(Gmult(8, f), f)
    ensures Gmult(6, f) == Plus(Gmult(4, f), Gmult(2, f))
    ensures Gmult(30, f) == Plus(Plus(Gmult(16, f), Gmult(8, f)), Plus(Gmult(4, f), Gmult(2, f)))
  {
    hide Gmult, Plus;
    MultOne(f);
    CoefficientSums();
    MultPlus(16, 1, f);
    MultPlus(8, 1, f);
    MultPlus(4, 2, f);
    MultPlus(Plus(16, 8), Plus(4, 2), f);
    MultPlus(16, 8, f);
  }

  lemma CoefficientSums()
    ensures Plus(16, 1) == 17 && Plus(8, 1) == 9 && Plus(4, 2) == 6 && Plus(Plus(16, 8), Plus(4, 2)) == 30
  {
  }

  // ---------- some addresses ----------

  lemma Weights()
    ensures Pow(32, 0) == 0x1 && Pow(32, 1) == 0x20 && Pow(32, 2) == 0x400
    ensures Pow(32, 3) == 0x8000 && Pow(32, 4) == 0x100000 && Pow(32, 5) == 0x2000000
    ensures Pow(32, 6) == 0x40000000 && Pow(32, 7) == 0x800000000 && Pow(32, 8) == 0x10000000000
    ensures Pow(32, 9) == 0x200000000000 && Pow(32, 10) == 0x4000000000000 && Pow(32, 11) == 0x80000000000000
    ensures Pow(32, 12) == 0x1000000000000000
  {
  }

  lemma FirstSteps()
    ensures ShiftClock(Register(0, 0, 0, 0), 8) == Register(28, 2, 21, 11)
    ensures ShiftClock(Register(28, 2, 21, 11), 0) == Register(10, 5, 29, 25)
    ensures ShiftClock(Register(10, 5, 29, 25), 2) == Register(23, 23, 21, 7)
    ensures ShiftClock(Register(23, 23, 21, 7), 7) == Register(0, 23, 23, 21)
    ensures ShiftClock(Register(0, 23, 23, 21), 19) == Register(9, 19, 3, 25)
    ensures ShiftClock(Register(9, 19, 3, 25), 21) == Register(18, 10, 30, 31)
    ensures ShiftClock(Register(18, 10, 30, 31), 9) == Register(20, 5, 17, 6)
    ensures ShiftClock(Register(20, 5, 17, 6), 30) == Register(1, 18, 31, 12)
    ensures ShiftClock(Register(1, 18, 31, 12), 27) == Register(5, 31, 15, 25)
    ensures ShiftClock(Register(5, 31, 15, 25), 6) == Register(25, 25, 23, 2)
    ensures ShiftClock(Register(25, 25, 23, 2), 17) == Register(11, 6, 28, 6)
    ensures ShiftClock(Register(11, 6, 28, 6), 18) == Register(19, 14, 17, 29)
    ensures ShiftClock(Register(19, 14, 17, 29), 18) == Register(4, 11, 9, 10)
  {
  }

  lemma FirstLowDigits()
    ensures Digit(9225891750247351890, 0) == 18 && Digit(9225891750247351890, 1) == 18
    ensures Digit(9225891750247351890, 2) == 17 && Digit(9225891750247351890, 3) == 6
    ensures Digit(9225891750247351890, 4) == 27 && Digit(9225891750247351890, 5) == 30
  {
    hide Pow;
    Weights();
  }

  lemma FirstHighDigits()
    ensures Digit(9225891750247351890, 6) == 9 && Digit(9225891750247351890, 7) == 21
    ensures Digit(9225891750247351890, 8) == 19 && Digit(9225891750247351890, 9) == 7
    ensures Digit(9225891750247351890, 10) == 2 && Digit(9225891750247351890, 11) == 0
    ensures Digit(9225891750247351890, 12) == 8
  {
    hide Pow;
    Weights();
  }

  lemma FirstParity()
    ensures Parity(9225891750247351890) == Register(4, 11, 9, 10)
  {
    hide Digit, ShiftClock, Clock, Data;
    var d := Data(9225891750247351890);
    FirstLowDigits();
    FirstHighDigits();
    FirstSteps();
    forall i | 0 <= i < 13 ensures d[i] == Digit(9225891750247351890, i) as Sym { DataAt(9225891750247351890, i); }
    forall r: Register, c: Sym ensures Clock(r, c) == ShiftClock(r, c) { ClockShifts(r, c); }
    assert Cells(d, 12) == Register(28, 2, 21, 11);
    assert Cells(d, 11) == Register(10, 5, 29, 25);
    assert Cells(d, 10) == Register(23, 23, 21, 7);
    assert Cells(d, 9) == Register(0, 23, 23, 21);
    assert Cells(d, 8) == Register(9, 19, 3, 25);
    assert Cells(d, 7) == Register(18, 10, 30, 31);
    assert Cells(d, 6) == Register(20, 5, 17, 6);
    assert Cells(d, 5) == Register(1, 18, 31, 12);
    assert Cells(d, 4) == Register(5, 31, 15, 25);
    assert Cells(d, 3) == Register(25, 25, 23, 2);
    assert Cells(d, 2) == Register(11, 6, 28, 6);
    assert Cells(d, 1) == Register(19, 14, 17, 29);
    assert Cells(d, 0) == Register(4, 11, 9, 10);
  }

  lemma FirstLetters()
    ensures Letter(0) == '2' && Letter(2) == '4' && Letter(4) == '6' && Letter(6) == '8' && Letter(7) == '9'
    ensures Letter(8) == 'A' && Letter(9) == 'B' && Letter(10) == 'C' && Letter(11) == 'D' && Letter(17) == 'K'
    ensures Letter(18) == 'L' && Letter(19) == 'M' && Letter(21) == 'P' && Letter(27) == 'V' && Letter(30) == 'Y'
  {
    hide Letter;
    AlphabetRuns();
  }

  lemma FirstAddress()
    ensures Address(9225891750247351890) == "8KLL-PBYV-6DBC-AM942"
  {
    hide Address, Digit, Letter, Parity;
    var a := Address(9225891750247351890);
    Layout(9225891750247351890);
    FirstLowDigits();
    FirstHighDigits();
    FirstParity();
    FirstLetters();
    assert a == a[..4] + [a[4]] + a[5..9] + [a[9]] + a[10..14] + [a[14]] + a[15..];
  }

  lemma SecondSteps()
    ensures ShiftClock(Register(0, 0, 0, 0), 1) == Register(17, 9, 6, 30)
    ensures ShiftClock(Register(17, 9, 6, 30), 31) == Register(17, 24, 15, 24)
    ensures ShiftClock(Register(17, 24, 15, 24), 21) == Register(3, 27, 19, 13)
    ensures ShiftClock(Register(3, 27, 19, 13), 2) == Register(4, 27, 28, 8)
    ensures ShiftClock(Register(4, 27, 28, 8), 5) == Register(3, 14, 16, 30)
    ensures ShiftClock(Register(3, 14, 16, 30), 24) == Register(9, 16, 26, 30)
    ensures ShiftClock(Register(9, 16, 26, 30), 20) == Register(27, 25, 9, 8)
    ensures ShiftClock(Register(27, 25, 9, 8), 8) == Register(0, 27, 25, 9)
    ensures ShiftClock(Register(0, 27, 25, 9), 22) == Register(25, 28, 19, 20)
    ensures ShiftClock(Register(25, 28, 19, 20), 9) == Register(30, 23, 24, 7)
    ensures ShiftClock(Register(30, 23, 24, 7), 8) == Register(4, 6, 16, 3)
    ensures ShiftClock(Register(4, 6, 16, 3), 20) == Register(5, 26, 27, 22)
    ensures ShiftClock(Register(5, 26, 27, 22), 17) == Register(24, 31, 8, 11)
  {
  }

  lemma SecondLowDigits()
    ensures Digit(2293534822941106833, 0) == 17 && Digit(2293534822941106833, 1) == 20
    ensures Digit(2293534822941106833, 2) == 8 && Digit(2293534822941106833, 3) == 9
    ensures Digit(2293534822941106833, 4) == 22 && Digit(2293534822941106833, 5) == 8
  {
    hide Pow;
    Weights();
  }

  lemma SecondHighDigits()
    ensures Digit(2293534822941106833, 6) == 20 && Digit(2293534822941106833, 7) == 24
    ensures Digit(2293534822941106833, 8) == 5 && Digit(2293534822941106833, 9) == 2
    ensures Digit(2293534822941106833, 10) == 21 && Digit(2293534822941106833, 11) == 31
    ensures Digit(2293534822941106833, 12) == 1
  {
    hide Pow;
    Weights();
  }

  lemma SecondParity()
    ensures Parity(2293534822941106833) == Register(24, 31, 8, 11)
  {
    hide Digit, ShiftClock, Clock, Data;
    var d := Data(2293534822941106833);
    SecondLowDigits();
    SecondHighDigits();
    SecondSteps();
    forall i | 0 <= i < 13 ensures d[i] == Digit(2293534822941106833, i) as Sym { DataAt(2293534822941106833, i); }
    forall r: Register, c: Sym ensures Clock(r, c) == ShiftClock(r, c) { ClockShifts(r, c); }
    assert Cells(d, 12) == Register(17, 9, 6, 30);
    assert Cells(d, 11) == Register(17, 24, 15, 24);
    assert Cells(d, 10) == Register(3, 27, 19, 13);
    assert Cells(d, 9) == Register(4, 27, 28, 8);
    assert Cells(d, 8) == Register(3, 14, 16, 30);
    assert Cells(d, 7) == Register(9, 16, 26, 30);
    assert Cells(d, 6) == Register(27, 25, 9, 8);
    assert Cells(d, 5) == Register(0, 27, 25, 9);
    assert Cells(d, 4) == Register(25, 28, 19, 20);
    assert Cells(d, 3) == Register(30, 23, 24, 7);
    assert Cells(d, 2) == Register(4, 6, 16, 3);
    assert Cells(d, 1) == Register(5, 26, 27, 22);
    assert Cells(d, 0) == Register(24, 31, 8, 11);
  }

  lemma SecondLetters()
    ensures Letter(1) == '3' && Letter(2) == '4' && Letter(5) == '7' && Letter(8) == 'A' && Letter(9) == 'B'
    ensures Letter(11) == 'D' && Letter(17) == 'K' && Letter(20) == 'N' && Letter(21) == 'P' && Letter(22) == 'Q'
    ensures Letter(24) == 'S' && Letter(31) == 'Z'
  {
    hide Letter;
    AlphabetRuns();
  }

  lemma SecondAddress()
    ensures Address(2293534822941106833) == "BANK-SNAQ-SZAD-374PZ"
  {
    hide Address, Digit, Letter, Parity;
    var a := Address(2293534822941106833);
    Layout(2293534822941106833);
    SecondLowDigits();
    SecondHighDigits();
    SecondParity();
    SecondLetters();
    assert a == a[..4] + [a[4]] + a[5..9] + [a[9]] + a[10..14] + [a[14]] + a[15..];
  }
}
