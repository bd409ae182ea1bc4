/** Encode and Decode as they run: two conversions in place, a shift register and a validity test. */
module AddressCodec {
  import opened BaseConversion
  import opened Powers
  import opened GaloisField
  import opened RsCode
  import opened RsParity
  import opened BurstAddress

  // ---------- numbers as decimal strings ----------

  /** The decimal digits of a number, most significant first. */
  method FormatUint(v: nat) returns (digits: seq<int>)
    requires v <= MAX_UINT64
    ensures 1 <= |digits| <= 20 && Digits(digits, 10) && Number(digits, 10) == v
    ensures |digits| > 1 ==> digits[0] != 0
  {
    hide Number, Pow;
    digits := [v % 10];
    ghost var n := v / 10;
    StartConversion(v, n, v % 10, 10);
    var rest := v / 10;
    DecimalLimit();
    while rest > 0
      invariant rest >= 0 && rest == n && |digits| >= 1
      invariant Digits(digits, 10) && Converting(v, n, digits, 10)
      invariant |digits| <= 20
      invariant rest == 0 && |digits| > 1 ==> digits[0] != 0
    {
      ConversionRuns(v, n, digits, 10, 20);
      ConversionStep(v, n, rest / 10, rest % 10, digits, 10);
      digits := [rest % 10] + digits;
      n := rest / 10;
      rest := rest / 10;
    }
    ConversionEnds(v, digits, 10);
  }

  method ParseUint(digits: seq<int>) returns (r: Result)
    requires Digits(digits, 10)
    ensures r == if Number(digits, 10) > MAX_UINT64 then Err(OutOfRange) else
                   (NumberBound(digits, 10); Ok(Number(digits, 10)))
  {
    hide Number;
    var v := 0;
    NoDigits(10);
    for i := 0 to |digits|
      invariant v == Number(digits[..i], 10) >= 0
    {
      assert digits[..i + 1] == digits[..i] + [digits[i]];
      NumberSnoc(digits[..i], digits[i], 10);
      v := v * 10 + digits[i];
    }
    assert digits[..|digits|] == digits;
    r := if v > MAX_UINT64 then Err(OutOfRange) else Ok(v);
  }

  // ---------- a conversion under way ----------

  /** Of the number v, the digits in low have been produced and n is still to be converted. */
  ghost predicate Converting(v: int, n: int, low: seq<int>, base: int)
  {
    v == n * Pow(base, |low|) + Number(low, base)
  }

  lemma ConversionBegins(v: int, base: int)
    ensures Converting(v, v, [], base)
  {
  }

  lemma StartConversion(v: int, n: int, d: int, base: int)
    requires v == n * base + d
    ensures Converting(v, n, [d], base)
  {
    ConversionBegins(v, base);
    ConversionStep(v, v, n, d, [], base);
    assert [d] + [] == [d];
  }

  lemma ConversionStep(v: int, n: int, n': int, d: int, low: seq<int>, base: int)
    requires Converting(v, n, low, base) && n == n' * base + d
    ensures Converting(v, n', [d] + low, base)
  {
    hide Number, Pow;
    NumberCons(d, low, base);
    PowStep(base, |low|);
    StepNumbers(v, n, n', d, Pow(base, |low|), Pow(base, |low| + 1), Number(low, base), base);
    assert |[d] + low| == |low| + 1;
  }

  lemma StepNumbers(v: int, n: int, n': int, d: int, p: int, p': int, low: int, base: int)
    requires v == n * p + low && n == n' * base + d && p' == p * base
    ensures v == n' * p' + (d * p + low)
  {
    assert (n' * base + d) * p == n' * (p * base) + d * p;
  }

  /** While something is left, fewer digits are out than the number needs. */
  lemma ConversionRuns(v: int, n: int, low: seq<int>, base: int, m: nat)
    requires Converting(v, n, low, base) && n >= 1 && 1 < base && Digits(low, base) && v < Pow(base, m)
    ensures |low| < m
  {
    hide Number, Pow;
    NumberBound(low, base);
    PowerMonotone(base, 0, |low|);
    LeadingPow(v, n, Pow(base, |low|), Number(low, base));
    if m <= |low| {
      PowerMonotone(base, m, |low|);
    }
  }

  lemma LeadingPow(v: int, n: int, p: int, low: int)
    requires v == n * p + low && n >= 1 && p >= 1 && low >= 0
    ensures v >= p
  {
    assert n * p >= 1 * p;
  }

  lemma ConversionEnds(v: int, low: seq<int>, base: int)
    requires Converting(v, 0, low, base)
    ensures Number(low, base) == v
  {
  }

  lemma DecimalLimit()
    ensures Pow(10, 20) > 0x2_0000_0000_0000_0000
  {
    assert Pow(10, 5) == 10_0000;
    assert Pow(10, 10) == 100_0000_0000;
    assert Pow(10, 15) == 1000_0000_0000_0000;
  }

  // ---------- Encode ----------

  /** The codeword holds the digits produced so far at the bottom, the newest uppermost. */
  ghost predicate Holds(codeword: seq<Sym>, low: seq<int>)
  {
    |codeword| == 17 && |low| <= 13
    && (forall i :: 0 <= i < |low| ==> codeword[i] as int == low[|low| - 1 - i])
    && (forall i :: |low| <= i < 17 ==> codeword[i] == 0)
  }

  lemma HoldsNext(codeword: seq<Sym>, low: seq<int>, d: int)
    requires Holds(codeword, low) && |low| < 13 && 0 <= d < 32
    ensures Holds(codeword[|low| := d as Sym], [d] + low)
  {
    SymOfInt(d);
    var c, l := codeword[|low| := d as Sym], [d] + low;
    forall i | 0 <= i < |l| ensures c[i] as int == l[|l| - 1 - i] {
      if i < |low| {
        assert l[|l| - 1 - i] == low[|low| - 1 - i];
      }
    }
  }

  lemma HoldsData(codeword: Word, low: seq<int>, v: nat)
    requires Holds(codeword, low) && Digits(low, 32) && Number(low, 32) == v
    ensures codeword[..13] == Data(v)
  {
    hide Number, Data, Written;
    var zeros: seq<int> := seq(13 - |low|, i => 0);
    assert DataDigits(codeword) == zeros + low;
    NumberZeros(13 - |low|, low, 32);
    WrittenNumber(DataDigits(codeword), 32);
    DataOfDigits(codeword, v);
  }

  /** The conversion loop of Encode: base 10 in place to base 32. */
  method CollectSymbols(plainString10: array<int>, length: nat, codeword: array<Sym>, ghost v: nat)
    requires 1 <= length <= plainString10.Length && Digits(plainString10[..length], 10)
    requires Number(plainString10[..length], 10) == v <= MAX_UINT64
    requires codeword.Length == 17 && Holds(codeword[..], []) && plainString10 as object != codeword as object
    modifies plainString10, codeword
    ensures codeword[..13] == Data(v)
  {
    hide Number, Pow, Holds, Data, Converting, Digits;
    var length, codewordLength := length, 0;
    ghost var low: seq<int> := [];
    ConversionBegins(v, 32);
    SymsEnough();
    NoneYet(32);
    while true
      invariant codewordLength == |low| && length <= plainString10.Length
      invariant Digits(plainString10[..length], 10) && Digits(low, 32)
      invariant Converting(v, Number(plainString10[..length], 10), low, 32)
      invariant codewordLength > 0 ==> Number(plainString10[..length], 10) > 0
      invariant Number(plainString10[..length], 10) >= 0
      invariant Holds(codeword[..], low)
      decreases Number(plainString10[..length], 10)
    {
      ghost var n := Number(plainString10[..length], 10);
      if codewordLength > 0 {
        ConversionRuns(v, n, low, 32, 13);
      }
      var newLength, digit32 := DivideInPlace(plainString10, length, 10, 32);
      ghost var n' := Number(plainString10[..newLength], 10);
      ConversionStep(v, n, n', digit32, low, 32);
      HoldsNext(codeword[..], low, digit32);
      DigitsCons(digit32, low, 32);
      low := [digit32] + low;
      length := newLength;
      codeword[codewordLength] := digit32 as Sym;
      codewordLength := codewordLength + 1;
      if length <= 0 {
        NoDigits(10);
        assert plainString10[..length] == [];
        break;
      }
      LeadingPositive(plainString10[..length], 10);
      QuotientShrinks(n, n', digit32, 32);
    }
    ConversionEnds(v, low, 32);
    HoldsData(codeword[..], low, v);
    assert codeword[..][..13] == codeword[..13];
  }

  lemma NoneYet(base: int)
    ensures Digits([], base)
  {
  }

  lemma DigitsCons(d: int, s: seq<int>, base: int)
    requires Digits(s, base) && 0 <= d < base
    ensures Digits([d] + s, base)
  {
  }

  lemma QuotientShrinks(n: int, n': int, d: int, base: int)
    requires n == n' * base + d && 0 <= d && n' > 0 && base > 1
    ensures n' < n
  {
    assert n' * base >= n' * 2;
  }

  /** The printing loop: letters in printed order, a dash after every fourth but the last. */
  method Print(codeword: array<Sym>) returns (buff: array<char>)
    requires codeword.Length == 17
    ensures fresh(buff) && buff[..] == Dashed(Permuted(codeword[..]))
  {
    hide Letter, CODEWORD_MAP;
    buff := new char[20](_ => ' ');
    ghost var s: Word := Permuted(codeword[..]);
    var i, j := 0, 0;
    while i < 17
      invariant 0 <= i <= 17
      invariant j == if i < 4 then i else if i < 8 then i + 1 else if i < 12 then i + 2 else i + 3
      invariant forall m :: 0 <= m < j ==> buff[m] == Dashed(s)[m]
    {
      var codewordIndex := Mapped(i);
      var alphabetIndex := codeword[codewordIndex];
      assert SymbolAt(j) == i && s[i] == alphabetIndex;
      buff[j] := Letter(alphabetIndex as int);
      if i % 4 == 3 && i < 13 {
        j := j + 1;
        buff[j] := '-';
      }
      i, j := i + 1, j + 1;
    }
  }

  method Encode(accountID: nat) returns (address: string)
    requires accountID <= MAX_UINT64
    ensures address == Address(accountID)
  {
    hide Letter, Number, Data, Systematic, Dashed, Permuted;
    var plainString := FormatUint(accountID);
    var length := |plainString|;
    var plainString10 := new int[20](i => 0);
    for i := 0 to length
      invariant plainString10[..i] == plainString[..i]
    {
      plainString10[i] := plainString[i];
    }
    assert plainString[..length] == plainString;
    var codeword := new Sym[17](_ => 0);
    CollectSymbols(plainString10, length, codeword, accountID);
    AppendParity(codeword);
    var buff := Print(codeword);
    address := buff[..];
  }

  // ---------- Decode ----------

  /** The reading loop of Decode: symbols of the alphabet, in printed order, everything else skipped. */
  method ReadSymbols(address: string, codeword: array<Sym>) returns (codewordLength: nat, tooLong: bool)
    requires codeword.Length == 17
    modifies codeword
    ensures tooLong <==> |Symbols(address)| > 17
    ensures !tooLong ==> codewordLength == |Symbols(address)|
    ensures codewordLength == 17 && !tooLong ==> codeword[..] == Permuted(Symbols(address))
  {
    hide Letter, Position, InAlphabet, CODEWORD_MAP;
    codewordLength, tooLong := 0, false;
    for i := 0 to |address|
      invariant codewordLength == |Symbols(address[..i])| <= 17
      invariant forall k :: 0 <= k < codewordLength ==> codeword[Mapped(k)] == Symbols(address[..i])[k]
    {
      assert address[..i + 1][..i] == address[..i];
      var positionInAlphabet := FindInAlphabet(address[i]);
      if positionInAlphabet < 0 {
        continue;
      }
      if codewordLength > 16 {
        SymbolsGrow(address, i + 1);
        tooLong := true;
        return;
      }
      var codewordIndex := Mapped(codewordLength);
      forall k | 0 <= k < codewordLength ensures Mapped(k) != codewordIndex {
        MapInvolutes(k);
        MapInvolutes(codewordLength);
      }
      codeword[codewordIndex] := positionInAlphabet as Sym;
      codewordLength := codewordLength + 1;
    }
    assert address[..|address|] == address;
    if codewordLength == 17 {
      forall p | 0 <= p < 17 ensures codeword[p] == Permuted(Symbols(address))[p] {
        MapInvolutes(p);
        assert codeword[Mapped(Mapped(p))] == Symbols(address)[Mapped(p)];
      }
    }
  }

  lemma {:induction false} SymbolsGrow(a: string, n: nat)
    requires n <= |a|
    ensures |Symbols(a[..n])| <= |Symbols(a)|
    decreases |a| - n
  {
    hide Position, InAlphabet;
    if n == |a| {
      assert a[..n] == a;
    } else {
      assert a[..n + 1][..n] == a[..n];
      SymbolsGrow(a, n + 1);
    }
  }

  /** The conversion loop of Decode: base 32 in place to base 10, the digits written from the end. */
  method CollectDecimals(cyperString32: array<int>, plainParts: array<int>, ghost v: nat) returns (plainPartsLen: nat)
    requires cyperString32.Length == 13 && plainParts.Length == 20 && plainParts != cyperString32
    requires Digits(cyperString32[..], 32) && Number(cyperString32[..], 32) == v
    modifies cyperString32, plainParts
    ensures plainPartsLen <= 19
    ensures Digits(plainParts[19 - plainPartsLen..], 10) && Number(plainParts[19 - plainPartsLen..], 10) == v
  {
    hide Number, Pow, Converting, Digits;
    assert cyperString32[..] == cyperString32[..13];
    NumberBound(cyperString32[..], 32);
    SymsEnough();
    DecimalLimit();
    ConversionBegins(v, 10);
    NoneYet(10);
    var length: nat := 13;
    plainPartsLen := 0;
    ghost var low: seq<int> := [];
    while true
      invariant plainPartsLen == |low| <= 20 && length <= 13
      invariant Digits(cyperString32[..length], 32) && Digits(low, 10)
      invariant Converting(v, Number(cyperString32[..length], 32), low, 10)
      invariant plainPartsLen > 0 ==> Number(cyperString32[..length], 32) > 0
      invariant Number(cyperString32[..length], 32) >= 0
      invariant plainParts[20 - plainPartsLen..] == low
      decreases Number(cyperString32[..length], 32)
    {
      ghost var n := Number(cyperString32[..length], 32);
      if plainPartsLen > 0 {
        ConversionRuns(v, n, low, 10, 20);
      }
      var newLength, digit10 := DivideInPlace(cyperString32, length, 32, 10);
      ghost var n' := Number(cyperString32[..newLength], 32);
      ConversionStep(v, n, n', digit10, low, 10);
      DigitsCons(digit10, low, 10);
      length := newLength;
      plainParts[19 - plainPartsLen] := digit10;
      assert plainParts[19 - plainPartsLen..] == [digit10] + plainParts[20 - plainPartsLen..];
      low := [digit10] + low;
      if length <= 0 {
        NoDigits(32);
        assert cyperString32[..length] == [];
        break;
      }
      LeadingPositive(cyperString32[..length], 32);
      QuotientShrinks(n, n', digit10, 10);
      plainPartsLen := plainPartsLen + 1;
    }
    ConversionEnds(v, low, 10);
  }

  method Decode(address: string) returns (r: Result)
    ensures r == Decoded(address)
  {
    hide Letter, Number, Symbols, Valid, Permuted, Digits;
    var codeword := new Sym[17](i => if i == 0 then 1 else 0);
    var codewordLength, tooLong := ReadSymbols(address, codeword);
    if tooLong {
      return Err(CodewordTooLong);
    }
    if codewordLength != 17 {
      return Err(CodewordInvalid);
    }
    ghost var w := codeword[..];
    assert w == Permuted(Symbols(address));
    var valid := IsCodewordValid(codeword[..]);
    if !valid {
      return Err(CodewordInvalid);
    }
    var length := 13;
    var cyperString32 := new int[13](i => 0);
    for i := 0 to length
      invariant codeword[..] == w
      invariant forall k :: 0 <= k < i ==> cyperString32[k] == codeword[length - k - 1] as int
    {
      cyperString32[i] := codeword[length - i - 1] as int;
    }
    assert codeword[..] == w && cyperString32[..] == DataDigits(w);
    NumberBound(DataDigits(w), 32);
    var plainParts := new int[20](i => 0);
    var plainPartsLen := CollectDecimals(cyperString32, plainParts, Number(DataDigits(w), 32));
    r := ParseUint(plainParts[19 - plainPartsLen..]);
  }
}
