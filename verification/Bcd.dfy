/** src/bignum.c, arithmetic of packed decimals: two digits a byte, and what one pass of "double dabble"
    does to them. */
module Bcd {
  import opened Numerals

  predicate IsBcd(b: byte) {
    b / 16 <= 9 && b % 16 <= 9
  }

  predicate AllBcd(s: seq<byte>) {
    forall i | 0 <= i < |s| :: IsBcd(s[i])
  }

  function DigitPair(b: byte): nat { 10 * (b / 16) + b % 16 }

  /** Adds 3 to every digit that doubling would carry out of its nibble. */
  function Fix(b: byte): byte {
    var tmp := b + (if b % 16 > 4 then 3 else 0) + (if b / 16 > 4 then 0x30 else 0);
    tmp % 256
  }

  function ShiftedByte(b: byte, carry: nat): byte
    requires carry <= 1
  {
    (2 * b + carry) % 256
  }

  function CarryOut(b: byte): (c: nat)
    ensures c <= 1
  {
    if b > 127 then 1 else 0
  }

  /** One digit: corrected and doubled, it is the doubled digit with its carry above. */
  lemma DoubleDigit(d: nat, carry: nat, fixed: nat, out: nat, rest: nat)
    requires d <= 9 && carry <= 1
    requires fixed == if d > 4 then d + 3 else d
    requires out == if d > 4 then 1 else 0
    requires rest == 2 * fixed + carry - 16 * out
    ensures rest <= 9 && rest + 10 * out == 2 * d + carry
  {
  }

  lemma ByteParts(b: nat, h: nat, l: nat)
    requires b == 16 * h + l && l < 16
    ensures b / 16 == h && b % 16 == l
  {
  }

  lemma CarryParts(x: nat, c: nat, low: nat)
    requires x == 256 * c + low && low < 256
    ensures x % 256 == low && (x > 255 <==> c > 0)
  {
  }

  /** A fixed byte shifted left by one bit is the doubled digit pair, its carry the hundreds. */
  lemma DoublePair(b: byte, carry: nat)
    requires IsBcd(b) && carry <= 1
    ensures var f := Fix(b);
            && IsBcd(ShiftedByte(f, carry))
            && DigitPair(ShiftedByte(f, carry)) + 100 * CarryOut(f) == 2 * DigitPair(b) + carry
  {
    var f, h, l := Fix(b), b / 16, b % 16;
    var lc, hc := if l > 4 then 1 else 0, if h > 4 then 1 else 0;
    var l', h' := l + 3 * lc, h + 3 * hc;
    assert f == 16 * h' + l' by { ByteParts(b, h, l); }
    var d, e := 2 * l' + carry - 16 * lc, 2 * h' + lc - 16 * hc;
    DoubleDigit(l, carry, l', lc, d);
    DoubleDigit(h, lc, h', hc, e);
    DoubledParts(f, carry, h', l', lc, hc, d, e);
  }

  lemma DoubledParts(f: byte, carry: nat, h: nat, l: nat, lc: nat, hc: nat, d: nat, e: nat)
    requires f == 16 * h + l && carry <= 1 && lc <= 1 && hc <= 1 && d <= 9 && e <= 9
    requires d + 16 * lc == 2 * l + carry && e + 16 * hc == 2 * h + lc
    ensures ShiftedByte(f, carry) / 16 == e && ShiftedByte(f, carry) % 16 == d && CarryOut(f) == hc
  {
    CarryParts(2 * f + carry, hc, 16 * e + d);
    ByteParts(16 * e + d, e, d);
  }

  // ---------------------------------------------------------------- the number a buffer denotes

  /** Value of digit pairs, least significant first. */
  function Weight(s: seq<byte>): nat {
    if s == [] then 0 else Weight(s[..|s| - 1]) + DigitPair(s[|s| - 1]) * Pow(100, |s| - 1)
  }

  lemma WeightSnoc(s: seq<byte>, b: byte)
    ensures Weight(s + [b]) == Weight(s) + DigitPair(b) * Pow(100, |s|)
  {
  }

  lemma {:induction false} WeightBound(s: seq<byte>)
    requires AllBcd(s)
    ensures Weight(s) < Pow(100, |s|)
  {
    if s != [] {
      var k := |s| - 1;
      WeightBound(s[..k]);
      MulMono(DigitPair(s[k]), 99, Pow(100, k));
    }
  }

  lemma {:induction false} WeightZeros(s: seq<byte>)
    requires forall i | 0 <= i < |s| :: s[i] == 0
    ensures Weight(s) == 0 && AllBcd(s)
  {
    if s != [] {
      WeightZeros(s[..|s| - 1]);
    }
  }

  /** The carry state of a pass over the pairs below j: those are doubled, the carry is still pending. */
  ghost predicate Doubling(was: seq<byte>, now: seq<byte>, carry: nat, bit: nat) {
    && |now| == |was| && carry <= 1 && AllBcd(now)
    && Weight(now) + carry * Pow(100, |now|) == 2 * Weight(was) + bit
  }

  lemma DoublingStep(was: seq<byte>, now: seq<byte>, carry: nat, bit: nat, b: byte)
    requires Doubling(was, now, carry, bit) && IsBcd(b)
    ensures Doubling(was + [b], now + [ShiftedByte(Fix(b), carry)], CarryOut(Fix(b)), bit)
  {
    hide Weight, Pow, DigitPair, ShiftedByte, Fix, CarryOut, IsBcd;
    DoublePair(b, carry);
    WeightSnoc(was, b);
    WeightSnoc(now, ShiftedByte(Fix(b), carry));
    PowHundred(|now|);
    DoublingAlgebra(DigitPair(ShiftedByte(Fix(b), carry)), CarryOut(Fix(b)), DigitPair(b), carry,
                    Pow(100, |now|), Pow(100, |now| + 1));
  }

  lemma PowHundred(k: nat)
    ensures Pow(100, k + 1) == 100 * Pow(100, k)
  {
  }

  lemma DoublingAlgebra(x: nat, c2: nat, y: nat, c: nat, p: nat, p100: nat)
    requires p100 == 100 * p && x + 100 * c2 == 2 * y + c
    ensures x * p + c2 * p100 == 2 * (y * p) + c * p
  {
  }

  /** A whole pass: new == 2 * old + bit, modulo what the buffer can hold. */
  lemma DoublingEnd(was: seq<byte>, now: seq<byte>, carry: nat, bit: nat, n: nat)
    requires Doubling(was, now, carry, bit)
    requires Weight(was) == n % Pow(100, |was|)
    ensures Weight(now) == (2 * n + bit) % Pow(100, |now|)
  {
    hide Weight, Pow;
    var m := Pow(100, |was|);
    WeightBound(now);
    DivIdentity(n, m);
    DoubledMod(n, n / m, n % m, Weight(now), carry, bit, m);
  }

  lemma DoubledMod(n: nat, q: nat, r: nat, w: nat, carry: nat, bit: nat, m: nat)
    requires m > 0 && n == q * m + r && w < m && w + carry * m == 2 * r + bit
    ensures w == (2 * n + bit) % m
  {
    assert 2 * n + bit == (2 * q + carry) * m + w;
    DivModUnique(2 * n + bit, m, 2 * q + carry, w);
  }

  // ---------------------------------------------------------------- reading bits

  /** Bit i of a byte, most significant first: `(b & (0x80 >> i)) > 0`. */
  function BitOf(b: byte, i: nat): (bit: nat)
    requires i < 8
    ensures bit <= 1
  {
    TopBits(b, i + 1) % 2
  }

  /** The first k bits of a byte. */
  function TopBits(b: byte, k: nat): (n: nat)
    requires k <= 8
    decreases 8 - k
  {
    if k == 8 then b else TopBits(b, k + 1) / 2
  }

  lemma TopBitsStep(b: byte, k: nat)
    requires k < 8
    ensures TopBits(b, k + 1) == 2 * TopBits(b, k) + BitOf(b, k)
  {
  }

  lemma TopBitsNone(b: byte)
    ensures TopBits(b, 0) == 0
  {
  }

  /** The number formed by the first n bits of big-endian bytes. */
  function BitPrefix(bin: seq<byte>, n: nat): nat
    requires n <= 8 * |bin|
  {
    if n == 0 then 0 else 2 * BitPrefix(bin, n - 1) + BitOf(bin[(n - 1) / 8], (n - 1) % 8)
  }

  /** What has been read is the whole bytes followed by the top bits of the next. */
  lemma {:induction false} BitPrefixParts(bin: seq<byte>, k: nat, i: nat)
    requires k < |bin| && i <= 8
    ensures BitPrefix(bin, 8 * k + i) == Pow(2, i) * Value(bin[..k], 256) + TopBits(bin[k], i)
    decreases k, i
  {
    hide TopBits, BitOf;
    if i > 0 {
      BitPrefixParts(bin, k, i - 1);
      assert (8 * k + i - 1) / 8 == k && (8 * k + i - 1) % 8 == i - 1;
      TopBitsStep(bin[k], i - 1);
      MulAssoc(2, Pow(2, i - 1), Value(bin[..k], 256));
    } else {
      TopBitsNone(bin[k]);
      BitPrefixBytes(bin, k);
    }
  }

  /** After whole bytes the bits read are the bytes read. */
  lemma {:induction false} BitPrefixBytes(bin: seq<byte>, k: nat)
    requires k <= |bin|
    ensures BitPrefix(bin, 8 * k) == Value(bin[..k], 256)
    decreases k, -1
  {
    if k > 0 {
      hide BitPrefix, Value, Pow;
      BitPrefixParts(bin, k - 1, 8);
      assert bin[..k] == bin[..k - 1] + [bin[k - 1]];
      ValueSnoc(bin[..k - 1], bin[k - 1], 256);
      PowersOfTwoSmall();
    }
  }

  lemma PowersOfTwoSmall()
    ensures Pow(2, 8) == 256
  {
  }

  // ---------------------------------------------------------------- decimal digits

  /** The nibbles of bytes given least significant first, most significant digit first. */
  function Nibbles(s: seq<byte>): (ds: seq<nat>)
    ensures |ds| == 2 * |s| && IsNumeral(ds, 16)
    ensures AllBcd(s) ==> IsNumeral(ds, 10)
  {
    if s == [] then [] else [s[|s| - 1] / 16, s[|s| - 1] % 16] + Nibbles(s[..|s| - 1])
  }

  lemma {:induction false} NibblesValue(s: seq<byte>)
    ensures Value(Nibbles(s), 10) == Weight(s)
  {
    if s != [] {
      var k := |s| - 1;
      var h, l := s[k] / 16, s[k] % 16;
      NibblesValue(s[..k]);
      ValueConcat([h, l], Nibbles(s[..k]), 10);
      PowMul(10, 2, k);
      assert Pow(10, 2) == 100;
      PairValue(h, l);
    }
  }

  lemma PairValue(h: nat, l: nat)
    ensures Value([h, l], 10) == 10 * h + l
  {
    assert [h, l] == [h] + [l] && [h] == [] + [h];
    ValueSnoc([h], l, 10);
    ValueSnoc([], h, 10);
  }
}
