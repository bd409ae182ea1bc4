/** Little-endian byte strings and the numbers they stand for. */
module LittleEndian {
  import opened Modular

  type byte = x: int | 0 <= x < 256

  /** 256 to the power n: the weight of byte n. */
  function Radix(n: nat): (r: int)
    ensures r > 0
  {
    if n == 0 then 1 else 256 * Radix(n - 1)
  }

  /** The number a byte string stands for, least significant byte first. */
  function Value(s: seq<byte>): (v: int)
    ensures v >= 0
  {
    if s == [] then 0 else Value(s[..|s| - 1]) + s[|s| - 1] * Radix(|s| - 1)
  }

  lemma RadixStep(n: nat)
    ensures Radix(n + 1) == 256 * Radix(n)
  {
  }

  lemma {:induction false} RadixAdd(m: nat, n: nat)
    ensures Radix(m + n) == Radix(m) * Radix(n)
  {
    if n > 0 {
      RadixAdd(m, n - 1);
      Regroup(Radix(m), Radix(n - 1));
    }
  }

  lemma Regroup(a: int, b: int)
    ensures 256 * (a * b) == a * (256 * b)
  {
  }

  lemma ValueSnoc(s: seq<byte>, x: byte)
    ensures Value(s + [x]) == Value(s) + x * Radix(|s|)
  {
    assert (s + [x])[..|s|] == s;
  }

  lemma ValueTake(s: seq<byte>, j: nat)
    requires j < |s|
    ensures Value(s[..j + 1]) == Value(s[..j]) + s[j] * Radix(j)
  {
    assert s[..j + 1][..j] == s[..j];
  }

  lemma {:induction false} ValueConcat(s: seq<byte>, t: seq<byte>)
    ensures Value(s + t) == Value(s) + Radix(|s|) * Value(t)
  {
    if t == [] {
      assert s + t == s;
    } else {
      var u, x := t[..|t| - 1], t[|t| - 1];
      assert t == u + [x];
      assert s + t == (s + u) + [x];
      ValueSnoc(s + u, x);
      ValueConcat(s, u);
      RadixAdd(|s|, |u|);
      calc {
        Value(s + t);
        Value(s) + Radix(|s|) * Value(u) + x * (Radix(|s|) * Radix(|u|));
        { Spread(Radix(|s|), Value(u), x, Radix(|u|)); }
        Value(s) + Radix(|s|) * (Value(u) + x * Radix(|u|));
      }
    }
  }

  lemma Spread(a: int, b: int, c: int, d: int)
    ensures a * (b + c * d) == a * b + c * (a * d)
  {
    calc {
      a * (b + c * d);
      a * b + a * (c * d);
      a * b + c * (a * d);
    }
  }

  lemma {:induction false} ValueBound(s: seq<byte>)
    ensures Value(s) < Radix(|s|)
  {
    if s != [] {
      var n := |s| - 1;
      ValueBound(s[..n]);
      MulLe(s[n], 255, Radix(n));
    }
  }

  /** A byte string is determined by its length and its value. */
  lemma {:induction false} ValueInjective(s: seq<byte>, t: seq<byte>)
    requires |s| == |t| && Value(s) == Value(t)
    ensures s == t
  {
    if s != [] {
      var n := |s| - 1;
      ValueBound(s[..n]);
      ValueBound(t[..n]);
      DigitUnique(Value(s[..n]), s[n], Value(t[..n]), t[n], Radix(n));
      ValueInjective(s[..n], t[..n]);
      assert s == s[..n] + [s[n]] && t == t[..n] + [t[n]];
    }
  }

  lemma DigitUnique(a: nat, x: int, b: nat, y: int, r: nat)
    requires a < r && b < r && a + x * r == b + y * r
    ensures a == b && x == y
  {
    if x < y {
      MulLe(x + 1, y, r);
    } else if y < x {
      MulLe(y + 1, x, r);
    }
  }

  lemma {:induction false} ValueZeros(s: seq<byte>)
    requires forall i :: 0 <= i < |s| ==> s[i] == 0
    ensures Value(s) == 0
  {
    if s != [] {
      ValueZeros(s[..|s| - 1]);
    }
  }

  lemma {:induction false} ValueZeroMeansZeros(s: seq<byte>)
    requires Value(s) == 0
    ensures forall i :: 0 <= i < |s| ==> s[i] == 0
  {
    if s != [] {
      var n := |s| - 1;
      assert s[n] * Radix(n) >= 0;
      if s[n] > 0 {
        assert s[n] * Radix(n) >= Radix(n);
      }
      ValueZeroMeansZeros(s[..n]);
      forall i | 0 <= i < |s| ensures s[i] == 0 {
        if i < n { assert s[i] == s[..n][i]; }
      }
    }
  }

  /** High zero bytes do not matter. */
  lemma ValueStrip(s: seq<byte>, n: nat)
    requires n <= |s|
    requires forall i :: n <= i < |s| ==> s[i] == 0
    ensures Value(s) == Value(s[..n])
  {
    assert s == s[..n] + s[n..];
    ValueConcat(s[..n], s[n..]);
    ValueZeros(s[n..]);
  }

  lemma ValueSplit(s: seq<byte>, n: nat)
    requires n <= |s|
    ensures Value(s) == Value(s[..n]) + Radix(n) * Value(s[n..])
  {
    assert s == s[..n] + s[n..];
    ValueConcat(s[..n], s[n..]);
  }

  lemma ValueCons(s: seq<byte>)
    requires s != []
    ensures Value(s) == s[0] as int + 256 * Value(s[1..])
  {
    ValueSplit(s, 1);
    assert s[..1] == [s[0]];
    ValueSnoc([], s[0]);
    RadixStep(0);
  }

  /** The two top bytes of a byte string weigh in together. */
  lemma ValueTopTwo(s: seq<byte>)
    requires |s| >= 2
    ensures Value(s) == Value(s[..|s| - 2]) + Radix(|s| - 2) * (s[|s| - 2] as int + 256 * (s[|s| - 1] as int))
  {
    hide Value, Radix;
    var low, a, b := s[..|s| - 2], s[|s| - 2], s[|s| - 1];
    assert s == (low + [a]) + [b];
    ValueSnoc(low + [a], b);
    ValueSnoc(low, a);
    RadixStep(|low|);
    TwoDigits(Radix(|low|), a, b, Radix(|low| + 1));
  }

  lemma TwoDigits(r: int, a: int, b: int, r': int)
    requires r' == 256 * r
    ensures a * r + b * r' == r * (a + 256 * b)
  {
  }
}
