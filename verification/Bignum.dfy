/** src/bignum.c: binary to packed decimal by "double dabble", and printing of packed decimals.

    In the big-endian pair of routines the decimal buffer has its least significant pair of digits
    first, in the little-endian pair last. */
module Bignum {
  import opened Numerals
  import opened DigitText
  import opened Bcd

  // ---------------------------------------------------------------- binary to packed decimal

  /** Corrects every digit before the next doubling. */
  method FixPairs(bcdOut: array<byte>)
    modifies bcdOut
    ensures forall j | 0 <= j < bcdOut.Length :: bcdOut[j] == Fix(old(bcdOut[j]))
  {
    hide Fix;
    for j := 0 to bcdOut.Length
      invariant forall k | 0 <= k < j :: bcdOut[k] == Fix(old(bcdOut[k]))
      invariant forall k | j <= k < bcdOut.Length :: bcdOut[k] == old(bcdOut[k])
    {
      bcdOut[j] := Fix(bcdOut[j]);
    }
  }

  /** Shifts the corrected buffer left by one bit, from its first byte on. */
  method ShiftUp(bcdOut: array<byte>, bit: nat, ghost was: seq<byte>) returns (carry: nat)
    requires bit <= 1 && |was| == bcdOut.Length && AllBcd(was)
    requires forall j | 0 <= j < bcdOut.Length :: bcdOut[j] == Fix(was[j])
    modifies bcdOut
    ensures Doubling(was, bcdOut[..], carry, bit)
  {
    hide Fix, ShiftedByte, CarryOut, IsBcd, Weight;
    carry := bit;
    DoublingStart(bit);
    for j := 0 to bcdOut.Length
      invariant forall k | j <= k < bcdOut.Length :: bcdOut[k] == Fix(was[k])
      invariant Doubling(was[..j], bcdOut[..j], carry, bit)
    {
      ghost var done := bcdOut[..j];
      DoublingStep(was[..j], done, carry, bit, was[j]);
      assert was[..j + 1] == was[..j] + [was[j]];
      var carry2 := CarryOut(bcdOut[j]);
      bcdOut[j] := ShiftedByte(bcdOut[j], carry);
      carry := carry2;
      assert bcdOut[..j + 1] == done + [bcdOut[j]];
    }
    assert was[..bcdOut.Length] == was && bcdOut[..bcdOut.Length] == bcdOut[..];
  }

  /** The same from the last byte on. */
  method ShiftDown(bcdOut: array<byte>, bit: nat, ghost was: seq<byte>) returns (carry: nat)
    requires bit <= 1 && |was| == bcdOut.Length && AllBcd(was)
    requires forall j | 0 <= j < bcdOut.Length :: bcdOut[j] == Fix(was[j])
    modifies bcdOut
    ensures Doubling(Reversed(was), Reversed(bcdOut[..]), carry, bit)
  {
    hide Fix, ShiftedByte, CarryOut, IsBcd, Weight;
    ghost var n := bcdOut.Length;
    carry := bit;
    DoublingStart(bit);
    for j := 0 to bcdOut.Length
      invariant forall k | 0 <= k < n - j :: bcdOut[k] == Fix(was[k])
      invariant Doubling(Reversed(was[n - j..]), Reversed(bcdOut[n - j..]), carry, bit)
    {
      var at := bcdOut.Length - j - 1;
      ghost var done := bcdOut[n - j..];
      DoublingStep(Reversed(was[n - j..]), Reversed(done), carry, bit, was[at]);
      assert Reversed(was[at..]) == Reversed(was[n - j..]) + [was[at]];
      var carry2 := CarryOut(bcdOut[at]);
      bcdOut[at] := ShiftedByte(bcdOut[at], carry);
      carry := carry2;
      assert bcdOut[n - j..] == done;
      assert Reversed(bcdOut[at..]) == Reversed(done) + [bcdOut[at]];
    }
    assert was[0..] == was && bcdOut[0..] == bcdOut[..];
  }

  /** The buffer denotes the first bits of the number, as far as it has room for them. */
  ghost predicate Denotes(pairs: seq<byte>, n: nat) {
    AllBcd(pairs) && Weight(pairs) == n % Pow(100, |pairs|)
  }

  lemma DenotesZero(pairs: seq<byte>)
    requires forall i | 0 <= i < |pairs| :: pairs[i] == 0
    ensures Denotes(pairs, 0)
  {
    WeightZeros(pairs);
    DivModUnique(0, Pow(100, |pairs|), 0, 0);
  }

  lemma NextBit(bin: seq<byte>, i: nat)
    requires i < 8 * |bin|
    ensures BitPrefix(bin, i + 1) == 2 * BitPrefix(bin, i) + BitOf(bin[i / 8], i % 8)
  {
  }

  lemma AllRead(bin: seq<byte>)
    ensures BitPrefix(bin, 8 * |bin|) == Value(bin, 256)
  {
    BitPrefixBytes(bin, |bin|);
    assert bin[..|bin|] == bin;
  }

  method BigEndianToBcd(bcdOut: array<byte>, binValue: seq<byte>)
    requires bcdOut.Length < 0x10000 && |binValue| < 0x10000
    modifies bcdOut
    ensures Denotes(bcdOut[..], Value(binValue, 256))
  {
    hide Fix, AllBcd, Weight, BitOf, BitPrefix, Value, Pow, Doubling;
    forall k | 0 <= k < bcdOut.Length {
      bcdOut[k] := 0;
    }
    DenotesZero(bcdOut[..]);
    NoBits(binValue);
    for bitIdx := 0 to 8 * |binValue|
      invariant Denotes(bcdOut[..], BitPrefix(binValue, bitIdx))
    {
      ghost var was := bcdOut[..];
      FixPairs(bcdOut);
      var bit := BitOf(binValue[bitIdx / 8], bitIdx % 8);
      ghost var carry := ShiftUp(bcdOut, bit, was);
      DoublingDenotes(was, bcdOut[..], carry, bit, BitPrefix(binValue, bitIdx));
      NextBit(binValue, bitIdx);
    }
    AllRead(binValue);
  }

  /** The number is given least significant byte first. */
  method LittleEndianToBcd(bcdOut: array<byte>, binValue: seq<byte>)
    requires bcdOut.Length < 0x10000 && |binValue| < 0x10000
    modifies bcdOut
    ensures Denotes(Reversed(bcdOut[..]), Value(Reversed(binValue), 256))
  {
    hide Fix, AllBcd, Weight, BitOf, BitPrefix, Value, Pow, Doubling;
    forall k | 0 <= k < bcdOut.Length {
      bcdOut[k] := 0;
    }
    ghost var number := Reversed(binValue);
    DenotesZero(Reversed(bcdOut[..]));
    NoBits(number);
    for bitIdx := 0 to 8 * |binValue|
      invariant Denotes(Reversed(bcdOut[..]), BitPrefix(number, bitIdx))
    {
      ghost var was := bcdOut[..];
      ReversedBcd(was);
      FixPairs(bcdOut);
      var bit := BitOf(binValue[|binValue| - bitIdx / 8 - 1], bitIdx % 8);
      ghost var carry := ShiftDown(bcdOut, bit, was);
      DoublingDenotes(Reversed(was), Reversed(bcdOut[..]), carry, bit, BitPrefix(number, bitIdx));
      NextBit(number, bitIdx);
    }
    AllRead(number);
  }

  lemma NoBits(bin: seq<byte>)
    ensures BitPrefix(bin, 0) == 0
  {
  }

  lemma DoublingStart(bit: nat)
    requires bit <= 1
    ensures Doubling([], [], bit, bit)
  {
  }

  lemma ReversedBcd(s: seq<byte>)
    ensures AllBcd(Reversed(s)) <==> AllBcd(s)
  {
    assert Reversed(Reversed(s)) == s;
  }

  lemma DoublingDenotes(was: seq<byte>, now: seq<byte>, carry: nat, bit: nat, n: nat)
    requires Denotes(was, n) && Doubling(was, now, carry, bit)
    ensures Denotes(now, 2 * n + bit)
  {
    hide Weight;
    DoublingEnd(was, now, carry, bit, n);
  }

  // ---------------------------------------------------------------- printing

  const HEXCHARS: string := "0123456789ABCDEF"

  function HexText(ds: seq<nat>): (s: string)
    requires IsNumeral(ds, 16)
    ensures |s| == |ds|
  {
    seq(|ds|, i requires 0 <= i < |ds| => HEXCHARS[ds[i]])
  }

  /** The characters themselves: 0 to 9, then A to F. */
  lemma HexCharCharacter(d: nat)
    requires d < 16
    ensures HEXCHARS[d] as int == if d < 10 then 48 + d else 55 + d
  {
  }

  /** The digits behind the leading zeros. */
  function Significant(ds: seq<nat>): seq<nat> {
    ds[LeadingZeros(ds)..]
  }

  lemma SignificantNumeral(ds: seq<nat>)
    requires IsNumeral(ds, 16)
    ensures IsNumeral(Significant(ds), 16) && |Significant(ds)| <= |ds|
  {
  }

  lemma SignificantPair(ds: seq<nat>, h: nat, l: nat)
    ensures Significant(ds + [h, l]) ==
            if Significant(ds) != [] || h != 0 then Significant(ds) + [h, l]
            else if l != 0 then [l] else []
  {
    LeadingZerosConcat(ds, [h, l]);
    assert LeadingZeros([h, l][1..]) == if l == 0 then 1 else 0;
  }

  lemma SignificantCanonical(ds: seq<nat>, base: nat)
    requires base >= 2 && IsNumeral(ds, base)
    ensures Significant(ds) == Digits(Value(ds, base), base)
  {
    SkipZeros(ds, LeadingZeros(ds), base);
  }

  /** The text of digit pairs, least significant pair first. */
  function Shown(s: seq<byte>): (text: string) {
    SignificantNumeral(Nibbles(s));
    var text := HexText(Significant(Nibbles(s)));
    if text == [] then "0" else text
  }

  /** The printed pairs are the canonical decimal text of the number they denote. */
  lemma ShownDecimal(s: seq<byte>)
    requires AllBcd(s)
    ensures Shown(s) == Text(Weight(s), 10)
  {
    var n, ds := Weight(s), Significant(Nibbles(s));
    NibblesValue(s);
    SignificantCanonical(Nibbles(s), 10);
    DigitsValue(n, 10);
    assert HexText(ds) == Chars(ds);
    if n == 0 {
      assert Digits(0, 10) == [];
      assert Chars([0]) == "0";
    }
  }

  /** Converting and then printing gives the decimal text of the number modulo the room for digits. */
  lemma ConvertThenPrint(pairs: seq<byte>, n: nat)
    requires Denotes(pairs, n)
    ensures Shown(pairs) == Text(n % Pow(10, 2 * |pairs|), 10)
  {
    ShownDecimal(pairs);
    PowMul(10, 2, |pairs|);
    assert Pow(10, 2) == 100;
    DivIdentity(n, Pow(100, |pairs|));
  }

  lemma {:induction false} NibblesTail(s: seq<byte>)
    requires s != []
    ensures Nibbles(s) == Nibbles(s[1..]) + [s[0] / 16, s[0] % 16]
  {
    var k := |s| - 1;
    if k > 0 {
      NibblesTail(s[..k]);
      assert s[..k][1..] == s[1..][..k - 1];
    } else {
      assert Nibbles(s[..0]) == [];
    }
  }

  /** The text of the pairs from m on, before the "0" of an empty text is added. */
  ghost function Started(s: seq<byte>, m: nat): (text: string)
    requires m <= |s|
    ensures |text| <= 2 * (|s| - m)
  {
    SignificantNumeral(Nibbles(s[m..]));
    HexText(Significant(Nibbles(s[m..])))
  }

  lemma StartedStep(s: seq<byte>, m: nat)
    requires m < |s|
    ensures var h, l := s[m] / 16, s[m] % 16;
            Started(s, m) ==
            if Started(s, m + 1) != [] || h != 0 then Started(s, m + 1) + [HEXCHARS[h], HEXCHARS[l]]
            else if l != 0 then [HEXCHARS[l]] else []
  {
    hide Nibbles, LeadingZeros, Significant;
    assert s[m..][1..] == s[m + 1..];
    NibblesTail(s[m..]);
    SignificantNumeral(Nibbles(s[m + 1..]));
    SignificantNumeral(Nibbles(s[m..]));
    SignificantPair(Nibbles(s[m + 1..]), s[m] / 16, s[m] % 16);
    HexTextPair(Significant(Nibbles(s[m + 1..])), s[m] / 16, s[m] % 16);
  }

  lemma HexTextPair(ds: seq<nat>, h: nat, l: nat)
    requires IsNumeral(ds, 16) && h < 16 && l < 16
    ensures IsNumeral(ds + [h, l], 16) && HexText(ds + [h, l]) == HexText(ds) + [HEXCHARS[h], HEXCHARS[l]]
    ensures HexText([l]) == [HEXCHARS[l]] && HexText([]) == []
    ensures HexText(ds) == [] <==> ds == []
  {
  }

  /** Prints one pair behind the text written so far. */
  method PrintPair(outBuffer: array<char>, at: nat, v: byte, ghost text: string) returns (next: nat)
    requires at == |text| && at + 2 <= outBuffer.Length
    requires outBuffer[..] == Filled(text, outBuffer.Length)
    modifies outBuffer
    ensures var h, l := v / 16, v % 16;
            var text' := if text != [] || h != 0 then text + [HEXCHARS[h], HEXCHARS[l]]
                         else if l != 0 then [HEXCHARS[l]] else [];
            next == |text'| && outBuffer[..] == Filled(text', outBuffer.Length)
  {
    next := at;
    var started := at > 0;
    if started || v != 0 {
      if started || v / 16 != 0 {
        outBuffer[next] := HEXCHARS[v / 16];
        next := next + 1;
      }
      outBuffer[next] := HEXCHARS[v % 16];
      next := next + 1;
    }
  }

  /** Zeroes the buffer and writes a short text. */
  method WriteShort(outBuffer: array<char>, text: string)
    requires |text| <= outBuffer.Length
    modifies outBuffer
    ensures outBuffer[..] == Filled(text, outBuffer.Length)
  {
    forall k | 0 <= k < outBuffer.Length {
      outBuffer[k] := if k < |text| then text[k] else '\0';
    }
  }

  method BigEndianPrint(outBuffer: array<char>, bcdIn: seq<byte>) returns (ok: bool)
    requires outBuffer.Length < 0x10000 && |bcdIn| < 0x10000
    modifies outBuffer
    ensures ok <==> 4 <= outBuffer.Length && 2 * |bcdIn| <= outBuffer.Length
    ensures ok ==> |Shown(bcdIn)| <= outBuffer.Length && outBuffer[..] == Filled(Shown(bcdIn), outBuffer.Length)
    ensures !ok ==> outBuffer[..] == Filled(if outBuffer.Length < 4 then "" else "ERR", outBuffer.Length)
  {
    hide Started, Filled, Shown, HexText, Significant, Nibbles;
    WriteShort(outBuffer, "");
    if outBuffer.Length < 4 {
      return false;
    }
    if 2 * |bcdIn| > outBuffer.Length {
      WriteShort(outBuffer, "ERR");
      return false;
    }
    var at := 0;
    StartedNone(bcdIn);
    for i := 0 to |bcdIn|
      invariant at == |Started(bcdIn, |bcdIn| - i)| <= 2 * i
      invariant outBuffer[..] == Filled(Started(bcdIn, |bcdIn| - i), outBuffer.Length)
    {
      StartedStep(bcdIn, |bcdIn| - i - 1);
      at := PrintPair(outBuffer, at, bcdIn[|bcdIn| - i - 1], Started(bcdIn, |bcdIn| - i));
    }
    StartedAll(bcdIn);
    if at == 0 {
      WriteShort(outBuffer, "0");
    }
    ok := true;
  }

  method LittleEndianPrint(outBuffer: array<char>, inBCD: seq<byte>) returns (ok: bool)
    requires outBuffer.Length < 0x10000 && |inBCD| < 0x10000
    modifies outBuffer
    ensures ok <==> 4 <= outBuffer.Length && 2 * |inBCD| <= outBuffer.Length
    ensures ok ==> var text := Shown(Reversed(inBCD));
                   |text| <= outBuffer.Length && outBuffer[..] == Filled(text, outBuffer.Length)
    ensures !ok ==> outBuffer[..] == Filled(if outBuffer.Length < 4 then "" else "ERR", outBuffer.Length)
  {
    hide Started, Filled, Shown, HexText, Significant, Nibbles;
    WriteShort(outBuffer, "");
    if outBuffer.Length < 4 {
      return false;
    }
    if 2 * |inBCD| > outBuffer.Length {
      WriteShort(outBuffer, "ERR");
      return false;
    }
    var at := 0;
    ghost var pairs := Reversed(inBCD);
    StartedNone(pairs);
    for i := 0 to |inBCD|
      invariant at == |Started(pairs, |inBCD| - i)| <= 2 * i
      invariant outBuffer[..] == Filled(Started(pairs, |inBCD| - i), outBuffer.Length)
    {
      StartedStep(pairs, |inBCD| - i - 1);
      at := PrintPair(outBuffer, at, inBCD[i], Started(pairs, |inBCD| - i));
    }
    StartedAll(pairs);
    if at == 0 {
      WriteShort(outBuffer, "0");
    }
    ok := true;
  }

  lemma StartedNone(s: seq<byte>)
    ensures Started(s, |s|) == []
  {
  }

  lemma StartedAll(s: seq<byte>)
    ensures Shown(s) == if Started(s, 0) == [] then "0" else Started(s, 0)
  {
  }
}
