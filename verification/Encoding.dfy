/** Cursor-based writing and reading of little-endian fields, and hexadecimal text. */
module Encoding {
  import opened LittleEndian
  import opened Modular
  import opened Options

  // ---------- fields ----------

  /** The n bytes of a number, least significant first. */
  function Bytes(v: nat, n: nat): (s: seq<byte>)
    ensures |s| == n
    decreases n
  {
    if n == 0 then [] else [v % 256] + Bytes(v / 256, n - 1)
  }

  /** Reading a written field gives the number back. */
  lemma {:induction false} BytesValue(v: nat, n: nat)
    requires v < Radix(n)
    ensures Value(Bytes(v, n)) == v
    decreases n
  {
    if n > 0 {
      var s := Bytes(v, n);
      assert v / 256 < Radix(n - 1);
      BytesValue(v / 256, n - 1);
      ValueCons(s);
      assert s[1..] == Bytes(v / 256, n - 1);
    }
  }

  /** A number too large for its field is cut to the field. */
  lemma {:induction false} BytesModulo(v: nat, n: nat)
    ensures Value(Bytes(v, n)) == v % Radix(n)
    decreases n
  {
    if n > 0 {
      var s := Bytes(v, n);
      BytesModulo(v / 256, n - 1);
      ValueCons(s);
      assert s[1..] == Bytes(v / 256, n - 1);
      RadixStep(n - 1);
      TakeByte(v, Radix(n - 1));
    }
  }

  lemma TakeByte(v: nat, m: nat)
    requires m > 0
    ensures v % (256 * m) == v % 256 + 256 * (v / 256 % m)
  {
    var q, k := v / 256, v / 256 / m;
    assert q == k * m + q % m;
    assert v == 256 * q + v % 256;
    assert v == k * (256 * m) + (v % 256 + 256 * (q % m));
    RemainderUnique(v, v % 256 + 256 * (q % m), k, 256 * m);
  }

  lemma Radixes()
    ensures Radix(1) == 0x100 && Radix(2) == 0x1_0000 && Radix(4) == 0x1_0000_0000
    ensures Radix(8) == 0x1_0000_0000_0000_0000
  {
    assert Radix(3) == 0x100_0000;
    assert Radix(5) == 0x100_0000_0000 && Radix(6) == 0x1_0000_0000_0000 && Radix(7) == 0x100_0000_0000_0000;
  }

  /** The low 32 bits of a length, with the sign bit set for text. */
  function LengthField(isText: bool, length: nat): (f: nat)
    ensures f < 0x1_0000_0000 && f % 0x8000_0000 == length % 0x8000_0000
    ensures length < 0x8000_0000 ==> (f >= 0x8000_0000 <==> isText)
  {
    length % 0x8000_0000 + if isText || length / 0x8000_0000 % 2 == 1 then 0x8000_0000 else 0
  }

  // ---------- hexadecimal ----------

  function HexValue(c: byte): Option<byte>
  {
    if 48 <= c <= 57 then Some(c - 48)
    else if 97 <= c <= 102 then Some(c - 87)
    else if 65 <= c <= 70 then Some(c - 55)
    else None
  }

  function HexDigit(x: byte): byte
    requires x < 16
  {
    if x < 10 then x + 48 else x + 87
  }

  predicate IsHex(s: seq<byte>)
  {
    |s| % 2 == 0 && forall i :: 0 <= i < |s| ==> HexValue(s[i]).Some?
  }

  lemma EvenHex(s: seq<byte>)
    requires IsHex(s)
    ensures |s| == 2 * (|s| / 2)
  {
  }

  function HexPair(a: byte, b: byte): byte
  {
    match (HexValue(a), HexValue(b))
    case (Some(h), Some(l)) => (h as int * 16 + l as int) % 256
    case _ => 0
  }

  function HexDecode(s: seq<byte>): (d: seq<byte>)
    requires IsHex(s)
    ensures |d| == |s| / 2
  {
    seq(|s| / 2, i requires 0 <= i < |s| / 2 => HexPair(s[2 * i], s[2 * i + 1]))
  }

  function HexEncode(d: seq<byte>): (s: seq<byte>)
    ensures |s| == 2 * |d|
  {
    seq(2 * |d|, i requires 0 <= i < 2 * |d| => HexDigit(if i % 2 == 0 then d[i / 2] / 16 else d[i / 2] % 16))
  }

  predicate IsLower(s: seq<byte>)
  {
    forall i :: 0 <= i < |s| ==> !(65 <= s[i] <= 70)
  }

  lemma DigitBack(a: byte, b: byte)
    requires HexValue(a).Some? && HexValue(b).Some?
    ensures HexDigit(HexPair(a, b) / 16) == a <==> !(65 <= a <= 70)
    ensures HexDigit(HexPair(a, b) % 16) == b <==> !(65 <= b <= 70)
    ensures HexPair(a, b) / 16 < 16 && HexPair(a, b) % 16 < 16
  {
    var (h, l) := (HexValue(a).value as int, HexValue(b).value as int);
    assert 0 <= h < 16 && 0 <= l < 16;
    Nibbles(h, l);
  }

  lemma Nibbles(h: int, l: int)
    requires 0 <= h < 16 && 0 <= l < 16
    ensures (h * 16 + l) % 256 / 16 == h && (h * 16 + l) % 256 % 16 == l
  {
    RemainderUnique(h * 16 + l, h * 16 + l, 0, 256);
    RemainderUnique(h * 16 + l, l, h, 16);
  }

  /** Decoding and encoding hexadecimal text gives it back exactly when it has no upper-case letters. */
  lemma HexRoundTripIff(s: seq<byte>)
    requires IsHex(s)
    ensures HexEncode(HexDecode(s)) == s <==> IsLower(s)
  {
    hide HexPair, HexDigit, HexValue;
    var t := HexEncode(HexDecode(s));
    forall i | 0 <= i < |s| ensures t[i] == s[i] <==> !(65 <= s[i] <= 70) {
      var k := i / 2;
      assert HexDecode(s)[k] == HexPair(s[2 * k], s[2 * k + 1]);
      DigitBack(s[2 * k], s[2 * k + 1]);
      assert i == 2 * k || i == 2 * k + 1;
    }
    if t == s {
      assert forall i :: 0 <= i < |s| ==> t[i] == s[i];
    }
  }

  /** The value of a digit, in either case. */
  lemma HexValues(n: nat)
    ensures n < 10 ==> HexValue(n + '0' as int) == Some(n)
    ensures 10 <= n < 16 ==> HexValue(n - 10 + 'a' as int) == HexValue(n - 10 + 'A' as int) == Some(n)
  {
  }

  lemma DigitReads(x: byte)
    requires x < 16
    ensures HexValue(HexDigit(x)) == Some(x) && !(65 <= HexDigit(x) <= 70)
  {
  }

  /** A byte is written as its high digit and then its low one, in lower case. */
  lemma HexWrites(d: seq<byte>, i: nat)
    requires i < |d|
    ensures var s := HexEncode(d);
            HexValue(s[2 * i]) == Some(d[i] / 16) && HexValue(s[2 * i + 1]) == Some(d[i] % 16)
            && IsLower(s[2 * i..2 * i + 2])
  {
    hide HexValue, HexDigit;
    DigitReads(d[i] / 16);
    DigitReads(d[i] % 16);
    assert 2 * i / 2 == i && (2 * i + 1) / 2 == i;
  }

  // ---------- the encoder ----------

  class Encoder {
    const bs: array<byte>
    var i: nat

    /** Nothing has been written past the cursor. */
    ghost predicate Valid()
      reads this, bs
    {
      i <= bs.Length && forall k :: i <= k < bs.Length ==> bs[k] == 0
    }

    ghost function Written(): seq<byte>
      requires i <= bs.Length
      reads this, bs
    {
      bs[..i]
    }

    constructor (l: nat)
      ensures Valid() && fresh(bs) && bs.Length == l && Written() == []
    {
      bs := new byte[l](_ => 0);
      i := 0;
    }

    method WriteBytes(val: seq<byte>)
      requires Valid() && i + |val| <= bs.Length
      modifies this, bs
      ensures Valid() && Written() == old(Written()) + val
    {
      ghost var before := Written();
      for k := 0 to |val|
        invariant i == old(i) && bs[..i] == before
        invariant bs[..i + k] == before + val[..k]
        invariant forall j :: i + k <= j < bs.Length ==> bs[j] == 0
      {
        bs[i + k] := val[k];
        assert bs[..i + k + 1] == bs[..i + k] + [val[k]];
        assert val[..k + 1] == val[..k] + [val[k]];
      }
      assert val[..|val|] == val;
      i := i + |val|;
    }

    /** A field of n bytes; what does not fit is cut off. */
    method WriteUint(val: nat, n: nat)
      requires Valid() && i + n <= bs.Length
      modifies this, bs
      ensures Valid() && Written() == old(Written()) + Bytes(val, n)
    {
      WriteBytes(Bytes(val, n));
    }

    method WriteZeros(l: nat)
      requires Valid() && i + l <= bs.Length
      modifies this
      ensures Valid() && Written() == old(Written()) + seq(l, _ => 0)
    {
      i := i + l;
    }

    /** Message content: text as it is, anything else decoded from hexadecimal; an error moves past the length only. */
    method WriteStringBytesWithInt32Len(isText: bool, val: seq<byte>) returns (ok: bool)
      requires Valid() && i + 4 + (if isText then |val| else |val| / 2) <= bs.Length
      modifies this, bs
      ensures ok <==> isText || IsHex(val)
      ensures i <= bs.Length && (ok ==> Valid())
      ensures Written() == old(Written()) + Bytes(LengthField(isText, if isText then |val| else |val| / 2), 4)
                           + (if isText then val else if IsHex(val) then HexDecode(val) else [])
    {
      ok := true;
      if isText {
        WriteUint(LengthField(true, |val|), 4);
        WriteBytes(val);
      } else {
        WriteUint(LengthField(false, |val| / 2), 4);
        if !IsHex(val) {
          return false;
        }
        WriteBytes(HexDecode(val));
      }
    }

    /** Encrypted data: in hexadecimal, twice the room it needs is taken; an error moves past the length only. */
    method WriteBytesWithInt32Len(isText: bool, val: seq<byte>) returns (ok: bool)
      requires Valid() && i + 4 + |val| <= bs.Length
      modifies this, bs
      ensures ok <==> isText || IsHex(val)
      ensures i <= bs.Length && (ok ==> Valid())
      ensures Written() == old(Written()) + Bytes(LengthField(isText, |val|), 4)
                           + (if isText then val
                              else if IsHex(val) then HexDecode(val) + seq(|val| / 2, _ => 0) else [])
    {
      ok := true;
      WriteUint(LengthField(isText, |val|), 4);
      if isText {
        WriteBytes(val);
      } else {
        if !IsHex(val) {
          return false;
        }
        EvenHex(val);
        WriteBytes(HexDecode(val));
        WriteZeros(|val| / 2);
      }
    }
  }

  // ---------- the decoder ----------

  lemma DropSlice(s: seq<byte>, q: nat, a: nat, b: nat)
    requires a <= b && q + b <= |s|
    ensures s[q..][a..b] == s[q + a..q + b]
  {
    assert forall i :: 0 <= i < b - a ==> s[q..][a..b][i] == s[q + a..q + b][i];
  }

  /** Reading past the end panics: None. */
  class Decoder {
    const bs: seq<byte>
    var i: nat

    constructor (bs: seq<byte>)
      ensures this.bs == bs && i == 0
    {
      this.bs, i := bs, 0;
    }

    method ReadBytes(l: nat) returns (r: Option<seq<byte>>)
      modifies this
      ensures r == if old(i) + l <= |bs| then Some(bs[old(i)..old(i) + l]) else None
      ensures i == if r.Some? then old(i) + l else old(i)
    {
      if i + l > |bs| {
        return None;
      }
      r := Some(bs[i..i + l]);
      i := i + l;
    }

    method ReadUint(n: nat) returns (r: Option<nat>)
      modifies this
      ensures r == if old(i) + n <= |bs| then Some(Value(bs[old(i)..old(i) + n])) else None
      ensures i == if r.Some? then old(i) + n else old(i)
    {
      if i + n > |bs| {
        return None;
      }
      r := Some(Value(bs[i..i + n]));
      i := i + n;
    }

    method Reset(at: nat)
      modifies this
      ensures i == at
    {
      i := at;
    }
  }
}
