/** The address codec: account numbers as dashed, error-detecting strings, and back. */
module BurstAddress {
  import opened BaseConversion
  import opened Powers
  import opened GaloisField
  import opened RsCode
  import opened RsParity

  const MAX_UINT64 := 0xffff_ffff_ffff_ffff

  const ALPHABET: string := "23456789ABCDEFGHJKLMNPQRSTUVWXYZ"

  /** Where the k-th printed symbol stands in the codeword. */
  const CODEWORD_MAP: seq<nat> := [3, 2, 1, 0, 7, 6, 5, 4, 13, 14, 15, 16, 12, 8, 9, 10, 11]

  datatype Error = CodewordTooLong | CodewordInvalid | OutOfRange

  datatype Result = Ok(id: nat) | Err(error: Error)

  // ---------- the printed order ----------

  lemma MapInvolutes(k: nat)
    requires k < 17
    ensures CODEWORD_MAP[k] < 17 && CODEWORD_MAP[CODEWORD_MAP[k]] == k
  {
    assert k == 0 || k == 1 || k == 2 || k == 3 || k == 4 || k == 5 || k == 6 || k == 7 || k == 8 || k == 9
        || k == 10 || k == 11 || k == 12 || k == 13 || k == 14 || k == 15 || k == 16;
  }

  function Mapped(k: nat): (p: nat)
    requires k < 17
    ensures p < 17
  {
    MapInvolutes(k);
    CODEWORD_MAP[k]
  }

  /** A codeword in printed order, or printed symbols in codeword order: the map is its own inverse. */
  function Permuted(w: Word): (s: Word)
  {
    seq(17, k requires 0 <= k < 17 => w[Mapped(k)])
  }

  lemma PermutedTwice(w: Word)
    ensures Permuted(Permuted(w)) == w
  {
    forall k | 0 <= k < 17 ensures Permuted(Permuted(w))[k] == w[k] {
      MapInvolutes(k);
    }
  }

  // ---------- alphabet ----------

  function Letter(i: int): char
    requires 0 <= i < 32
  {
    ALPHABET[i]
  }

  lemma AlphabetSorted(i: nat)
    requires i < 31
    ensures Letter(i) < Letter(i + 1)
  {
    assert i == 0 || i == 1 || i == 2 || i == 3 || i == 4 || i == 5 || i == 6 || i == 7 || i == 8 || i == 9
        || i == 10 || i == 11 || i == 12 || i == 13 || i == 14 || i == 15 || i == 16 || i == 17 || i == 18
        || i == 19 || i == 20 || i == 21 || i == 22 || i == 23 || i == 24 || i == 25 || i == 26 || i == 27
        || i == 28 || i == 29 || i == 30;
  }

  lemma {:induction false} AlphabetIncreasing(i: nat, j: nat)
    requires i < j < 32
    ensures Letter(i) < Letter(j)
  {
    hide Letter;
    AlphabetSorted(j - 1);
    if i < j - 1 {
      AlphabetIncreasing(i, j - 1);
    }
  }

  ghost predicate InAlphabet(c: char)
  {
    exists i :: 0 <= i < 32 && Letter(i) == c
  }

  /** The place of a character in the alphabet. */
  ghost function Position(c: char): (i: int)
    requires InAlphabet(c)
    ensures 0 <= i < 32 && Letter(i) == c
  {
    var i :| 0 <= i < 32 && Letter(i) == c;
    i
  }

  lemma PositionOfLetter(i: int)
    requires 0 <= i < 32
    ensures InAlphabet(Letter(i)) && Position(Letter(i)) == i
  {
    hide Letter, Position;
    var j := Position(Letter(i));
    if i < j {
      AlphabetIncreasing(i, j);
    } else if j < i {
      AlphabetIncreasing(j, i);
    }
  }

  /** The symbols of the characters of a string that belong to the alphabet. */
  ghost function Symbols(a: string): seq<Sym>
  {
    if a == "" then []
    else
      var (rest, c) := (a[..|a| - 1], a[|a| - 1]);
      if InAlphabet(c) then Symbols(rest) + [Position(c) as Sym] else Symbols(rest)
  }

  method FindInAlphabet(c: char) returns (positionInAlphabet: int)
    ensures -1 <= positionInAlphabet < 32
    ensures positionInAlphabet == -1 <==> !InAlphabet(c)
    ensures positionInAlphabet >= 0 ==> InAlphabet(c) && positionInAlphabet == Position(c)
  {
    hide Letter, Position;
    positionInAlphabet := -1;
    for j := 0 to 32
      invariant forall i :: 0 <= i < j ==> Letter(i) != c
    {
      if Letter(j) == c {
        PositionOfLetter(j);
        return j;
      }
    }
  }

  // ---------- the specification ----------

  /** The data symbols as base 32 digits, most significant first. */
  ghost function DataDigits(w: seq<Sym>): (s: seq<int>)
    requires |w| >= 13
    ensures |s| == 13 && Digits(s, 32)
  {
    seq(13, i requires 0 <= i < 13 => w[12 - i] as int)
  }

  lemma SymOfInt(x: int)
    requires 0 <= x < 32
    ensures (x as Sym) as int == x
  {
  }

  /** The data symbols of a number. */
  ghost function Data(v: nat): (d: seq<Sym>)
    ensures |d| == 13
  {
    var s := Written(v, 13, 32);
    seq(13, i requires 0 <= i < 13 => s[12 - i] as Sym)
  }

  /** The symbol printed at a place of the string that is not a dash. */
  function SymbolAt(j: nat): (k: nat)
    requires j < 20
    ensures k < 17
  {
    if j <= 4 then j else if j <= 9 then j - 1 else if j <= 14 then j - 2 else j - 3
  }

  /** Four groups of four, four, four and five letters, with dashes between them. */
  function Dashed(s: Word): (a: string)
    ensures |a| == 20
  {
    seq(20, j requires 0 <= j < 20 => if j == 4 || j == 9 || j == 14 then '-' else Letter(s[SymbolAt(j)] as int))
  }

  /** The address of an account number. */
  ghost function Address(id: nat): string
  {
    Dashed(Permuted(Systematic(Data(id))))
  }

  /** What a string decodes to. */
  ghost function Decoded(a: string): Result
  {
    var s := Symbols(a);
    if |s| > 17 then Err(CodewordTooLong)
    else if |s| < 17 || !Valid(Permuted(s)) then Err(CodewordInvalid)
    else
      var v := Number(DataDigits(Permuted(s)), 32);
      NumberBound(DataDigits(Permuted(s)), 32);
      if v > MAX_UINT64 then Err(OutOfRange) else Ok(v)
  }

  // ---------- the round trips ----------

  lemma LetterSym(x: Sym)
    ensures InAlphabet(Letter(x as int)) && Position(Letter(x as int)) as Sym == x
  {
    hide Letter, Position, InAlphabet;
    PositionOfLetter(x as int);
  }

  lemma DashOutside()
    ensures !InAlphabet('-')
  {
    hide Letter;
    FirstLetter();
    forall i | 0 <= i < 32 ensures Letter(i) != '-' {
      if i > 0 {
        AlphabetIncreasing(0, i);
      }
    }
  }

  lemma FirstLetter()
    ensures Letter(0) > '-'
  {
  }

  /** The number of symbols printed before a place. */
  ghost function Before(j: nat): (k: nat)
    requires j <= 20
    ensures k <= 17
  {
    if j < 5 then j else if j < 10 then j - 1 else if j < 15 then j - 2 else j - 3
  }

  lemma {:induction false} SymbolsPrinted(s: Word, n: nat)
    requires n <= 20
    ensures Symbols(Dashed(s)[..n]) == s[..Before(n)]
  {
    hide Letter, Position, InAlphabet;
    if n > 0 {
      var m := n - 1;
      var a := Dashed(s);
      SymbolsPrinted(s, m);
      assert a[..n][..m] == a[..m] && a[..n][m] == a[m];
      if m == 4 || m == 9 || m == 14 {
        DashOutside();
        assert Before(n) == Before(m);
      } else {
        LetterSym(s[SymbolAt(m)]);
        assert Before(m) == SymbolAt(m) && Before(n) == Before(m) + 1;
        assert s[..Before(n)] == s[..Before(m)] + [s[Before(m)]];
      }
    }
  }

  lemma DataDigitsOfData(id: nat, p: seq<Sym>)
    ensures DataDigits(Data(id) + p) == Written(id, 13, 32)
  {
    hide Written;
    var s := Written(id, 13, 32);
    var d := DataDigits(Data(id) + p);
    forall i | 0 <= i < 13 ensures d[i] == s[i] {
      assert (Data(id) + p)[12 - i] == s[i] as Sym;
      SymOfInt(s[i]);
    }
  }

  lemma SymsEnough()
    ensures Pow(32, 13) == 0x2_0000_0000_0000_0000
  {
  }

  /** Every account number survives printing and reading. */
  lemma RoundTrip(id: nat)
    requires id <= MAX_UINT64
    ensures Decoded(Address(id)) == Ok(id)
  {
    hide Letter, Position, InAlphabet, Cells, Valid, Written, Number, Pow, Digits;
    var w := Systematic(Data(id));
    SymbolsPrinted(Permuted(w), 20);
    assert Dashed(Permuted(w))[..20] == Dashed(Permuted(w)) && Permuted(w)[..17] == Permuted(w);
    PermutedTwice(w);
    SystematicValid(Data(id));
    DataDigitsOfData(id, w[13..]);
    assert Data(id) + w[13..] == w;
    SymsEnough();
    NumberWritten(id, 13, 32);
  }

  lemma DataOfDigits(w: Word, id: nat)
    requires DataDigits(w) == Written(id, 13, 32)
    ensures w[..13] == Data(id)
  {
    var d := DataDigits(w);
    forall i | 0 <= i < 13 ensures w[..13][i] == Data(id)[i] {
      assert Data(id)[i] == d[12 - i] as Sym;
      assert d[12 - i] == w[12 - (12 - i)] as int;
    }
  }

  /** Whatever decodes is, dashes and foreign characters aside, the address of the number it decodes to. */
  lemma Canonical(a: string, id: nat)
    requires Decoded(a) == Ok(id)
    ensures |Symbols(a)| == 17 && id <= MAX_UINT64 && Address(id) == Dashed(Symbols(a))
  {
    hide Letter, Position, InAlphabet, Cells, Valid, Written, Number, Pow, Digits, Symbols;
    var s := Symbols(a);
    var w := Permuted(s);
    WrittenNumber(DataDigits(w), 32);
    DataOfDigits(w, id);
    DataDetermines(w);
    PermutedTwice(s);
  }

  /** A string whose symbols differ from those of a valid address in one to four places does not decode. */
  lemma MistypedRejected(a: string, b: string)
    requires |Symbols(a)| == 17 && Valid(Permuted(Symbols(a)))
    requires |Symbols(b)| == 17 && 1 <= |Differences(Symbols(a), Symbols(b))| <= 4
    ensures Decoded(b) == Err(CodewordInvalid)
  {
    hide Valid, Symbols;
    var s, t := Symbols(a), Symbols(b);
    DifferencesPermuted(s, t);
    FewErrorsDetected(Permuted(s), Permuted(t));
  }

  lemma DifferencesPermuted(s: Word, t: Word)
    requires 1 <= |Differences(s, t)|
    ensures 1 <= |Differences(Permuted(s), Permuted(t))| <= |Differences(s, t)|
  {
    hide CODEWORD_MAP;
    var d, e := Differences(s, t), Differences(Permuted(s), Permuted(t));
    forall k | k in e ensures k in Images(d) {
      MapInvolutes(k);
      assert Mapped(Mapped(k)) == k && Mapped(k) in d;
    }
    ImagesSize(d);
    SubsetSize(e, Images(d));
    var p :| p in d;
    MapInvolutes(p);
    assert Mapped(p) in e;
  }

  ghost function Images(d: set<nat>): set<nat>
    requires forall p :: p in d ==> p < 17
  {
    set p | p in d :: Mapped(p)
  }

  lemma {:induction false} ImagesSize(d: set<nat>)
    requires forall p :: p in d ==> p < 17
    ensures |Images(d)| <= |d|
  {
    if d != {} {
      var p :| p in d;
      ImagesSize(d - {p});
      assert Images(d) <= Images(d - {p}) + {Mapped(p)};
      SubsetSize(Images(d), Images(d - {p}) + {Mapped(p)});
    }
  }
}
