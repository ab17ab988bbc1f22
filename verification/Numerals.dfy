/** Positional numerals, the vocabulary every codec of the library is specified in.

    A numeral is a big-endian sequence of digits.  `Value` reads one, `Digits` writes the
    canonical one (no leading zero, zero itself being empty) and `FixedDigits` the one of a
    given length. */
module Numerals {

  type byte = x: nat | x < 256

  const TWO32: nat := 0x1_0000_0000
  const TWO64: nat := 0x1_0000_0000_0000_0000
  const TWO128: nat := 0x1_0000_0000_0000_0000_0000_0000_0000_0000
  const TWO256: nat := 0x1_0000_0000_0000_0000_0000_0000_0000_0000_0000_0000_0000_0000_0000_0000_0000_0000

  /** Reduction to a width.  (The moduli are written out because the verifier reasons about literals.) */
  function Wrap32(x: int): (r: nat)
    ensures r < TWO32
  {
    x % 0x1_0000_0000
  }

  function Wrap64(x: int): (r: nat)
    ensures r < TWO64
  {
    x % 0x1_0000_0000_0000_0000
  }

  function Wrap128(x: int): (r: nat)
    ensures r < TWO128
  {
    x % 0x1_0000_0000_0000_0000_0000_0000_0000_0000
  }

  function Wrap256(x: int): (r: nat)
    ensures r < TWO256
  {
    x % 0x1_0000_0000_0000_0000_0000_0000_0000_0000_0000_0000_0000_0000_0000_0000_0000_0000
  }

  /** The number with the given high and low halves. */
  function Join64(upper: nat, lower: nat): nat { upper * 0x1_0000_0000_0000_0000 + lower }

  function Join128(upper: nat, lower: nat): nat {
    upper * 0x1_0000_0000_0000_0000_0000_0000_0000_0000 + lower
  }

  // ---------------------------------------------------------------- arithmetic

  lemma MulMono(a: nat, b: nat, c: nat)
    requires a <= b
    ensures a * c <= b * c
  {
  }

  /** A quotient and remainder are determined by their bounds. */
  lemma DivModUnique(n: int, d: int, q: int, r: int)
    requires d > 0 && 0 <= r < d && n == q * d + r
    ensures n / d == q && n % d == r
  {
    var e := n / d - q;
    assert e * d == r - n % d;
    MulSpread(e, d);
  }

  lemma MulSpread(e: int, d: int)
    requires d > 0
    ensures e >= 1 ==> e * d >= d
    ensures e <= -1 ==> e * d <= -d
  {
  }

  /** Division with remainder orders by quotient first. */
  lemma MulAddLt(q: nat, r: nat, p: nat, d: nat)
    requires r < d
    ensures q * d + r < p * d <==> q < p
  {
    if q < p {
      MulMono(q + 1, p, d);
    } else {
      MulMono(p, q, d);
    }
  }

  lemma DivIdentity(n: nat, d: nat)
    requires d > 0
    ensures n == n / d * d + n % d
    ensures 0 <= n % d < d && 0 <= n / d
  {
  }

  lemma QuotientBound(n: nat, d: nat)
    requires d > 0
    ensures 0 <= n / d <= n
  {
    DivIdentity(n, d);
    MulMono(1, d, n / d);
  }

  /** n / d < p exactly when n < d * p. */
  lemma DivBelow(n: nat, d: nat, p: nat)
    requires d > 0
    ensures n / d < p <==> n < d * p
  {
    var q, r := n / d, n % d;
    MulAddLt(q, r, p, d);
    assert d * p == p * d;
  }

  // ---------------------------------------------------------------- powers

  function Pow(base: nat, n: nat): (r: nat)
    ensures base > 0 ==> r > 0
  {
    if n == 0 then 1 else base * Pow(base, n - 1)
  }

  lemma MulAssoc(a: nat, b: nat, c: nat)
    ensures a * (b * c) == (a * b) * c
  {
  }

  lemma {:induction false} PowAdd(base: nat, m: nat, n: nat)
    ensures Pow(base, m + n) == Pow(base, m) * Pow(base, n)
  {
    if m == 0 {
    } else {
      PowAdd(base, m - 1, n);
      MulAssoc(base, Pow(base, m - 1), Pow(base, n));
    }
  }

  lemma {:induction false} PowMul(base: nat, m: nat, n: nat)
    ensures Pow(base, m * n) == Pow(Pow(base, m), n)
  {
    if n == 0 {
    } else {
      assert m * n == m + m * (n - 1);
      PowAdd(base, m, m * (n - 1));
      PowMul(base, m, n - 1);
    }
  }

  lemma {:induction false} PowMono(base: nat, m: nat, n: nat)
    requires base >= 1 && m <= n
    ensures Pow(base, m) <= Pow(base, n)
  {
    PowAdd(base, m, n - m);
    MulMono(1, Pow(base, n - m), Pow(base, m));
  }

  lemma PowStrict(base: nat, m: nat, n: nat)
    requires base >= 2 && m < n
    ensures Pow(base, m) < Pow(base, n)
  {
  }

  lemma {:induction false} PowBaseMono(a: nat, b: nat, n: nat)
    requires a <= b
    ensures Pow(a, n) <= Pow(b, n)
  {
    if n == 0 {
    } else {
      PowBaseMono(a, b, n - 1);
      MulMono(a, b, Pow(a, n - 1));
      MulMono(Pow(a, n - 1), Pow(b, n - 1), b);
    }
  }

  lemma {:induction false} PowBaseStrict(a: nat, b: nat, n: nat)
    requires a < b && n > 0
    ensures Pow(a, n) < Pow(b, n)
  {
    PowBaseMono(a, b, n - 1);
    var x, y := Pow(a, n - 1), Pow(b, n - 1);
    MulMono(x, y, a);
    assert y > 0;
    assert a * y < b * y;
  }

  // ---------------------------------------------------------------- reading numerals

  predicate IsNumeral(s: seq<nat>, base: nat) {
    forall i :: 0 <= i < |s| ==> s[i] < base
  }

  function Value(s: seq<nat>, base: nat): nat {
    if s == [] then 0 else Value(s[..|s| - 1], base) * base + s[|s| - 1]
  }

  lemma ValueSnoc(s: seq<nat>, d: nat, base: nat)
    ensures Value(s + [d], base) == Value(s, base) * base + d
  {
  }

  lemma Horner(x: nat, p: nat, y: nat, d: nat, base: nat)
    ensures (x * p + y) * base + d == x * (base * p) + (y * base + d)
  {
  }

  lemma {:induction false} ValueConcat(a: seq<nat>, b: seq<nat>, base: nat)
    ensures Value(a + b, base) == Value(a, base) * Pow(base, |b|) + Value(b, base)
  {
    if b == [] {
      assert a + b == a;
    } else {
      var k := |b| - 1;
      assert a + b == (a + b[..k]) + [b[k]];
      ValueSnoc(a + b[..k], b[k], base);
      ValueConcat(a, b[..k], base);
      Horner(Value(a, base), Pow(base, k), Value(b[..k], base), b[k], base);
    }
  }

  lemma ValueCons(d: nat, s: seq<nat>, base: nat)
    ensures Value([d] + s, base) == d * Pow(base, |s|) + Value(s, base)
  {
    ValueConcat([d], s, base);
    assert Value([d][..0], base) == 0;
  }

  lemma {:induction false} ValueBound(s: seq<nat>, base: nat)
    requires IsNumeral(s, base) && base > 0
    ensures Value(s, base) < Pow(base, |s|)
  {
    if s == [] {
    } else {
      var t := s[..|s| - 1];
      ValueBound(t, base);
      MulAddLt(Value(t, base), s[|s| - 1], Pow(base, |t|), base);
    }
  }

  function Zeros(n: nat): (s: seq<nat>)
    ensures |s| == n && forall i :: 0 <= i < n ==> s[i] == 0
  {
    seq(n, _ => 0)
  }

  lemma {:induction false} ValueZeros(s: seq<nat>, base: nat)
    requires forall i :: 0 <= i < |s| ==> s[i] == 0
    ensures Value(s, base) == 0
  {
    if s == [] {
    } else {
      ValueZeros(s[..|s| - 1], base);
    }
  }

  /** Leading zeros carry no value. */
  lemma ValueStrip(z: seq<nat>, s: seq<nat>, base: nat)
    requires forall i :: 0 <= i < |z| ==> z[i] == 0
    ensures Value(z + s, base) == Value(s, base)
  {
    ValueConcat(z, s, base);
    ValueZeros(z, base);
  }

  /** Numerals of equal length and value are equal. */
  lemma {:induction false} ValueInjective(a: seq<nat>, b: seq<nat>, base: nat)
    requires base > 0 && |a| == |b|
    requires IsNumeral(a, base) && IsNumeral(b, base)
    requires Value(a, base) == Value(b, base)
    ensures a == b
  {
    if a == [] {
    } else {
      var k := |a| - 1;
      DivModUnique(Value(a, base), base, Value(a[..k], base), a[k]);
      DivModUnique(Value(b, base), base, Value(b[..k], base), b[k]);
      ValueInjective(a[..k], b[..k], base);
      assert a == a[..k] + [a[k]] && b == b[..k] + [b[k]];
    }
  }

  // ---------------------------------------------------------------- writing numerals

  lemma DivSmaller(n: nat, base: nat)
    requires n > 0 && base >= 2
    ensures 0 <= n / base < n
  {
  }

  function Digits(n: nat, base: nat): seq<nat>
    requires base >= 2
    decreases n
  {
    if n == 0 then []
    else DivSmaller(n, base); Digits(n / base, base) + [n % base]
  }

  /** The canonical numeral of n reads back as n and starts with a non-zero digit. */
  lemma {:induction false} DigitsValue(n: nat, base: nat)
    requires base >= 2
    ensures IsNumeral(Digits(n, base), base)
    ensures Value(Digits(n, base), base) == n
    ensures n > 0 ==> |Digits(n, base)| > 0 && Digits(n, base)[0] != 0
    decreases n
  {
    if n == 0 {
    } else {
      DivSmaller(n, base);
      DivIdentity(n, base);
      var q, r := n / base, n % base;
      DigitsValue(q, base);
      ValueSnoc(Digits(q, base), r, base);
      if q == 0 {
        assert Digits(n, base) == [r];
      }
    }
  }

  /** A numeral without leading zero is the canonical one of its value. */
  lemma {:induction false} DigitsOfValue(s: seq<nat>, base: nat)
    requires base >= 2 && IsNumeral(s, base)
    requires s == [] || s[0] != 0
    ensures Digits(Value(s, base), base) == s
  {
    if s == [] {
    } else {
      var k := |s| - 1;
      DigitsOfValue(s[..k], base);
      DivModUnique(Value(s, base), base, Value(s[..k], base), s[k]);
      if k == 0 {
        assert s[..k] == [];
      } else {
        assert Digits(0, base) == [];
        MulMono(1, Value(s[..k], base), base);
      }
      assert Value(s, base) > 0;
      assert s == s[..k] + [s[k]];
    }
  }

  /** The canonical numeral has at most k digits exactly when n < base^k. */
  lemma {:induction false} DigitsCount(n: nat, base: nat, k: nat)
    requires base >= 2
    ensures |Digits(n, base)| <= k <==> n < Pow(base, k)
    decreases k
  {
    if n == 0 {
    } else if k == 0 {
    } else {
      DivSmaller(n, base);
      DigitsCount(n / base, base, k - 1);
      DivBelow(n, base, Pow(base, k - 1));
    }
  }

  /** The last len digits of n, padded with zeros. */
  function FixedDigits(n: nat, base: nat, len: nat): (s: seq<nat>)
    requires base > 0
    ensures |s| == len
    decreases len
  {
    if len == 0 then [] else FixedDigits(n / base, base, len - 1) + [n % base]
  }

  lemma {:induction false} FixedDigitsValue(n: nat, base: nat, len: nat)
    requires base > 0
    ensures IsNumeral(FixedDigits(n, base, len), base)
    ensures n < Pow(base, len) ==> Value(FixedDigits(n, base, len), base) == n
    decreases len
  {
    if len == 0 {
    } else {
      DivIdentity(n, base);
      DivBelow(n, base, Pow(base, len - 1));
      var q, r := n / base, n % base;
      var t := FixedDigits(q, base, len - 1);
      FixedDigitsValue(q, base, len - 1);
      assert FixedDigits(n, base, len) == t + [r];
      ValueSnoc(t, r, base);
    }
  }

  function LeadingZeros(s: seq<nat>): (z: nat)
    ensures z <= |s|
    ensures forall i :: 0 <= i < z ==> s[i] == 0
    ensures z < |s| ==> s[z] != 0
  {
    if s == [] || s[0] != 0 then 0 else 1 + LeadingZeros(s[1..])
  }

  lemma {:induction false} LeadingZerosConcat(a: seq<nat>, b: seq<nat>)
    ensures LeadingZeros(a + b) == if LeadingZeros(a) < |a| then LeadingZeros(a) else |a| + LeadingZeros(b)
  {
    if a == [] {
      assert a + b == b;
    } else if a[0] == 0 {
      LeadingZerosConcat(a[1..], b);
      assert (a + b)[1..] == a[1..] + b;
    }
  }

  /** The digits of a numeral behind its zeros are the canonical ones of its value. */
  lemma SkipZeros(s: seq<nat>, j: nat, base: nat)
    requires base >= 2 && IsNumeral(s, base) && j <= |s|
    requires forall k | 0 <= k < j :: s[k] == 0
    requires j < |s| ==> s[j] != 0
    ensures s[j..] == Digits(Value(s, base), base)
  {
    assert s == s[..j] + s[j..];
    ValueStrip(s[..j], s[j..], base);
    DigitsOfValue(s[j..], base);
  }

  /** Text of a number in a base: its canonical digits, zero being the single digit 0. */
  function TextDigits(n: nat, base: nat): (s: seq<nat>)
    requires base >= 2
    ensures |s| > 0
  {
    if n == 0 then [0] else DigitsValue(n, base); Digits(n, base)
  }

  lemma TextDigitsValue(n: nat, base: nat)
    requires base >= 2
    ensures IsNumeral(TextDigits(n, base), base)
    ensures Value(TextDigits(n, base), base) == n
    ensures |TextDigits(n, base)| > 1 ==> TextDigits(n, base)[0] != 0
  {
    DigitsValue(n, base);
    if n == 0 {
      ValueCons(0, [], base);
      assert [0] + [] == [0];
    }
  }
}
