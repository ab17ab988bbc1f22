/** src/segwit_addr.c, `convert_bits`: regrouping a bit string from inBits-wide to outBits-wide digits. */
module ConvertBits {
  import opened Numerals
  import opened Words

  // ---------------------------------------------------------------- specification

  datatype Option<T> = None | Some(value: T)

  function Radix(bits: nat): (r: nat)
    ensures r > 0
  {
    Pow(2, bits)
  }

  /** Digits needed for the bits, rounded up. */
  function Ceiling(bits: nat, width: nat): nat
    requires width > 0
  {
    (bits + width - 1) / width
  }

  /** The number with zero bits appended up to a whole digit. */
  function Padded(s: seq<nat>, inBits: nat, outBits: nat): seq<nat>
    requires outBits > 0
  {
    var total := |s| * inBits;
    var m := Ceiling(total, outBits);
    CeilingBounds(total, outBits);
    FixedDigits(Value(s, Radix(inBits)) * Radix(m * outBits - total), Radix(outBits), m)
  }

  /** The number without the bits that do not fill a digit; they must be zero and fewer than a whole input digit. */
  function Unpadded(s: seq<nat>, inBits: nat, outBits: nat): Option<seq<nat>>
    requires outBits > 0
  {
    var total := |s| * inBits;
    var rest := total % outBits;
    var n := Value(s, Radix(inBits));
    if rest < inBits && n % Radix(rest) == 0 then
      QuotientBound(n, Radix(rest));
      Some(FixedDigits(n / Radix(rest), Radix(outBits), total / outBits))
    else None
  }

  lemma CeilingBounds(total: nat, width: nat)
    requires width > 0
    ensures var m := Ceiling(total, width); m * width - width < total <= m * width || (total == 0 && m == 0)
    ensures total <= Ceiling(total, width) * width
  {
  }

  lemma CeilingUnique(total: nat, width: nat, m: nat)
    requires width > 0 && m * width < total + width && total <= m * width
    ensures Ceiling(total, width) == m
  {
    DivModUnique(total + width - 1, width, m, total + width - 1 - m * width);
  }

  lemma RadixAdd(a: nat, b: nat)
    ensures Radix(a + b) == Radix(a) * Radix(b)
  {
    PowAdd(2, a, b);
  }

  lemma RadixPower(width: nat, n: nat)
    ensures Pow(Radix(width), n) == Radix(n * width)
  {
    PowMul(2, width, n);
    assert width * n == n * width;
  }

  lemma FixedDigitsOf(s: seq<nat>, base: nat)
    requires base > 0 && IsNumeral(s, base)
    ensures FixedDigits(Value(s, base), base, |s|) == s
  {
    ValueBound(s, base);
    FixedDigitsValue(Value(s, base), base, |s|);
    ValueInjective(FixedDigits(Value(s, base), base, |s|), s, base);
  }

  /** Wider digits cut into narrower ones, padded, and reassembled. */
  lemma PaddedUnpadded(s: seq<nat>, inBits: nat, outBits: nat)
    requires 0 < outBits <= inBits && IsNumeral(s, Radix(inBits))
    ensures IsNumeral(Padded(s, inBits, outBits), Radix(outBits))
    ensures |Padded(s, inBits, outBits)| == Ceiling(|s| * inBits, outBits)
    ensures Unpadded(Padded(s, inBits, outBits), outBits, inBits) == Some(s)
  {
    hide Pow, Value, FixedDigits, Radix;
    var total := |s| * inBits;
    var m := Ceiling(total, outBits);
    CeilingBounds(total, outBits);
    var k := m * outBits - total;
    var n := Value(s, Radix(inBits));
    var v := n * Radix(k);
    ValueBound(s, Radix(inBits));
    RadixPower(inBits, |s|);
    RadixPower(outBits, m);
    RadixAdd(total, k);
    ShiftedBound(n, Radix(total), Radix(k));
    FixedDigitsValue(v, Radix(outBits), m);
    DivModUnique(m * outBits, inBits, |s|, k);
    DivModUnique(v, Radix(k), n, 0);
    FixedDigitsOf(s, Radix(inBits));
  }

  lemma ShiftedBound(n: nat, top: nat, p: nat)
    requires n < top && p > 0
    ensures n * p < top * p
  {
  }

  /** Accepted narrow digits reassembled and cut again. */
  lemma UnpaddedPadded(d: seq<nat>, inBits: nat, outBits: nat)
    requires 0 < inBits <= outBits && IsNumeral(d, Radix(inBits))
    requires Unpadded(d, inBits, outBits).Some?
    ensures var s := Unpadded(d, inBits, outBits).value;
            IsNumeral(s, Radix(outBits)) && Padded(s, outBits, inBits) == d
  {
    hide Pow, Value, FixedDigits, Radix;
    var total := |d| * inBits;
    var rest, n := total % outBits, total / outBits;
    var v := Value(d, Radix(inBits));
    var s := Unpadded(d, inBits, outBits).value;
    DivIdentity(total, outBits);
    DivIdentity(v, Radix(rest));
    var q := v / Radix(rest);
    ValueBound(d, Radix(inBits));
    RadixPower(inBits, |d|);
    RadixPower(outBits, n);
    RadixAdd(n * outBits, rest);
    QuotientBelow(v, q, Radix(n * outBits), Radix(rest));
    FixedDigitsValue(q, Radix(outBits), n);
    CeilingUnique(n * outBits, inBits, |d|);
    FixedDigitsOf(d, Radix(inBits));
  }

  /** The bits of the digits, most significant first, laid end to end. */
  function BitString(s: seq<nat>, width: nat): (bits: seq<nat>)
    ensures |bits| == |s| * width
  {
    if s == [] then [] else BitString(s[..|s| - 1], width) + FixedDigits(s[|s| - 1], 2, width)
  }

  lemma {:induction false} BitStringValue(s: seq<nat>, width: nat)
    requires IsNumeral(s, Radix(width))
    ensures IsNumeral(BitString(s, width), 2)
    ensures Value(BitString(s, width), 2) == Value(s, Radix(width))
  {
    hide Radix, FixedDigits;
    if s != [] {
      var init, d := s[..|s| - 1], s[|s| - 1];
      BitStringValue(init, width);
      RadixIsPower(width);
      FixedDigitsValue(d, 2, width);
      ValueConcat(BitString(init, width), FixedDigits(d, 2, width), 2);
    }
  }

  lemma RadixIsPower(width: nat)
    ensures Radix(width) == Pow(2, width)
  {
  }

  lemma ZeroTail(s: seq<nat>, k: nat)
    requires IsNumeral(s, 2)
    ensures IsNumeral(s + Zeros(k), 2) && Value(s + Zeros(k), 2) == Value(s, 2) * Radix(k)
  {
    ValueConcat(s, Zeros(k), 2);
    ValueZeros(Zeros(k), 2);
  }

  /** Padding keeps the bits and appends fewer than one digit of zeros. */
  lemma PaddedBits(s: seq<nat>, inBits: nat, outBits: nat)
    requires outBits > 0 && IsNumeral(s, Radix(inBits))
    ensures var d := Padded(s, inBits, outBits);
            var k := |d| * outBits - |s| * inBits;
            0 <= k < outBits && BitString(d, outBits) == BitString(s, inBits) + Zeros(k)
  {
    hide Pow, Value, FixedDigits, Radix, BitString;
    var total, d := |s| * inBits, Padded(s, inBits, outBits);
    var m := Ceiling(total, outBits);
    CeilingBounds(total, outBits);
    var k := m * outBits - total;
    var n := Value(s, Radix(inBits));
    ValueBound(s, Radix(inBits));
    RadixPower(inBits, |s|);
    RadixPower(outBits, m);
    RadixAdd(total, k);
    ShiftedBound(n, Radix(total), Radix(k));
    FixedDigitsValue(n * Radix(k), Radix(outBits), m);
    BitStringValue(s, inBits);
    BitStringValue(d, outBits);
    ZeroTail(BitString(s, inBits), k);
    ValueInjective(BitString(d, outBits), BitString(s, inBits) + Zeros(k), 2);
  }

  /** Without padding the result is exactly the digits whose bits, and some zeros fewer than a digit of either
      kind, are the bits given. */
  lemma UnpaddedBits(s: seq<nat>, inBits: nat, outBits: nat, d: seq<nat>)
    requires outBits > 0 && IsNumeral(s, Radix(inBits))
    ensures var r := |s| * inBits - |d| * outBits;
            Unpadded(s, inBits, outBits) == Some(d) <==>
            && IsNumeral(d, Radix(outBits)) && 0 <= r < outBits && r < inBits
            && BitString(s, inBits) == BitString(d, outBits) + Zeros(r)
  {
    hide Pow, Value, FixedDigits, Radix, BitString;
    var r := |s| * inBits - |d| * outBits;
    if Unpadded(s, inBits, outBits) == Some(d) {
      UnpaddedIsBits(s, inBits, outBits, d);
    }
    if IsNumeral(d, Radix(outBits)) && 0 <= r < outBits && r < inBits
       && BitString(s, inBits) == BitString(d, outBits) + Zeros(r)
    {
      BitsAreUnpadded(s, inBits, outBits, d, r);
    }
  }

  lemma UnpaddedIsBits(s: seq<nat>, inBits: nat, outBits: nat, d: seq<nat>)
    requires outBits > 0 && IsNumeral(s, Radix(inBits))
    requires Unpadded(s, inBits, outBits) == Some(d)
    ensures var r := |s| * inBits - |d| * outBits;
            && IsNumeral(d, Radix(outBits)) && 0 <= r < outBits && r < inBits
            && BitString(s, inBits) == BitString(d, outBits) + Zeros(r)
  {
    hide Pow, Value, FixedDigits, Radix, BitString;
    var r := |s| * inBits - |d| * outBits;
    UnpaddedValue(s, inBits, outBits, d);
    BitStringValue(s, inBits);
    BitStringValue(d, outBits);
    ZeroTail(BitString(d, outBits), r);
    ValueInjective(BitString(s, inBits), BitString(d, outBits) + Zeros(r), 2);
  }

  lemma UnpaddedValue(s: seq<nat>, inBits: nat, outBits: nat, d: seq<nat>)
    requires outBits > 0 && IsNumeral(s, Radix(inBits))
    requires Unpadded(s, inBits, outBits) == Some(d)
    ensures var r := |s| * inBits - |d| * outBits;
            && IsNumeral(d, Radix(outBits)) && 0 <= r < outBits && r < inBits
            && Value(s, Radix(inBits)) == Value(d, Radix(outBits)) * Radix(r)
  {
    hide Pow, Value, FixedDigits, Radix;
    var total := |s| * inBits;
    var r, m := total % outBits, total / outBits;
    DivIdentity(total, outBits);
    var v := Value(s, Radix(inBits));
    DivIdentity(v, Radix(r));
    var q := v / Radix(r);
    ValueBound(s, Radix(inBits));
    RadixPower(inBits, |s|);
    RadixPower(outBits, m);
    RadixAdd(m * outBits, r);
    QuotientBelow(v, q, Radix(m * outBits), Radix(r));
    FixedDigitsValue(q, Radix(outBits), m);
  }

  lemma BitsAreUnpadded(s: seq<nat>, inBits: nat, outBits: nat, d: seq<nat>, r: nat)
    requires IsNumeral(s, Radix(inBits)) && IsNumeral(d, Radix(outBits))
    requires r == |s| * inBits - |d| * outBits && r < outBits && r < inBits
    requires BitString(s, inBits) == BitString(d, outBits) + Zeros(r)
    ensures Unpadded(s, inBits, outBits) == Some(d)
  {
    hide Pow, Value, FixedDigits, Radix, BitString;
    BitStringValue(s, inBits);
    BitStringValue(d, outBits);
    ZeroTail(BitString(d, outBits), r);
    DivModUnique(|s| * inBits, outBits, |d|, r);
    DivModUnique(Value(s, Radix(inBits)), Radix(r), Value(d, Radix(outBits)), 0);
    FixedDigitsOf(d, Radix(outBits));
  }

  lemma QuotientBelow(v: nat, q: nat, top: nat, p: nat)
    requires v == q * p && v < top * p
    ensures q < top
  {
  }

  // ---------------------------------------------------------------- the accumulator

  /** `bits` bits of n are still in the accumulator; the others are written. */
  ghost predicate Stream(n: nat, written: seq<nat>, acc: nat, bits: nat, outBits: nat) {
    && IsNumeral(written, Radix(outBits))
    && Value(written, Radix(outBits)) == n / Radix(bits)
    && acc % Radix(bits) == n % Radix(bits)
  }

  /** Congruent numbers stay congruent when shifted and extended by the same low part. */
  lemma PushCongruent(acc: nat, n: nat, p: nat, r: nat, v: nat)
    requires p > 0 && r > 0 && acc % p == n % p && v < r
    ensures (acc * r + v) % (p * r) == (n * r + v) % (p * r)
    ensures (n * r + v) / (p * r) == n / p
    ensures p * r > 0
  {
    DivIdentity(acc, p);
    DivIdentity(n, p);
    PushQuotient(acc, acc / p, acc % p, p, r, v);
    PushQuotient(n, n / p, n % p, p, r, v);
  }

  lemma PushQuotient(n: nat, q: nat, m: nat, p: nat, r: nat, v: nat)
    requires n == q * p + m && m < p && v < r
    ensures p * r > 0
    ensures (n * r + v) / (p * r) == q && (n * r + v) % (p * r) == m * r + v
  {
    MulAddLt(m, v, p, r);
    assert (q * p + m) * r + v == q * (p * r) + (m * r + v);
    DivModUnique(n * r + v, p * r, q, m * r + v);
  }

  /** Reducing modulo a multiple does not change the remainder. */
  lemma ModOfMod(x: nat, p: nat, k: nat)
    requires p > 0 && k > 0
    ensures p * k > 0 && (x % (p * k)) % p == x % p
  {
    MulMono(1, k, p);
    DivIdentity(x, p * k);
    var y := x % (p * k);
    DivIdentity(y, p);
    ModOfModStep(x, x / (p * k), y, y / p, y % p, p, k);
  }

  lemma ModOfModStep(x: nat, q: nat, y: nat, d: nat, m: nat, p: nat, k: nat)
    requires x == q * (p * k) + y && y == d * p + m && m < p
    ensures x % p == m
  {
    assert q * (p * k) + d * p == (q * k + d) * p;
    DivModUnique(x, p, q * k + d, m);
  }

  lemma PushDigit(n: nat, written: seq<nat>, acc: nat, bits: nat, outBits: nat, v: nat, inBits: nat, width: nat)
    requires Stream(n, written, acc, bits, outBits)
    requires v < Radix(inBits) && bits + inBits <= width
    ensures Stream(n * Radix(inBits) + v, written, (acc * Radix(inBits) + v) % Radix(width), bits + inBits, outBits)
  {
    hide Pow, Value, Radix, IsNumeral;
    RadixAdd(bits, inBits);
    PushCongruent(acc, n, Radix(bits), Radix(inBits), v);
    RadixAdd(bits + inBits, width - bits - inBits);
    ModOfMod(acc * Radix(inBits) + v, Radix(bits + inBits), Radix(width - bits - inBits));
  }

  /** The digit at the top of the accumulator is the next digit of n. */
  lemma PopCongruent(acc: nat, n: nat, p: nat, r: nat)
    requires p > 0 && r > 0 && p * r > 0 && acc % (p * r) == n % (p * r)
    ensures 0 <= acc / p && 0 <= n / p
    ensures (acc / p) % r == (n / p) % r
    ensures acc % p == n % p
    ensures n / p == (n / (p * r)) * r + (n / p) % r
  {
    var m := n % (p * r);
    DivIdentity(acc, p * r);
    DivIdentity(n, p * r);
    DivIdentity(m, p);
    DivBelow(m, p, r);
    PopQuotient(acc, acc / (p * r), m, m / p, m % p, p, r);
    PopQuotient(n, n / (p * r), m, m / p, m % p, p, r);
  }

  lemma PopQuotient(x: nat, q: nat, m: nat, d: nat, e: nat, p: nat, r: nat)
    requires x == q * (p * r) + m && m == d * p + e && e < p && d < r
    ensures x / p == q * r + d && x % p == e && (x / p) % r == d
  {
    assert q * (p * r) + d * p == (q * r + d) * p;
    DivModUnique(x, p, q * r + d, e);
    DivModUnique(q * r + d, r, q, d);
  }

  lemma PopDigit(n: nat, written: seq<nat>, acc: nat, bits: nat, outBits: nat)
    requires bits >= outBits && Stream(n, written, acc, bits, outBits)
    ensures 0 <= acc / Radix(bits - outBits)
    ensures var d := (acc / Radix(bits - outBits)) % Radix(outBits);
            d < Radix(outBits) && Stream(n, written + [d], acc, bits - outBits, outBits)
  {
    hide Pow, Value, Radix;
    var b := bits - outBits;
    RadixAdd(b, outBits);
    PopCongruent(acc, n, Radix(b), Radix(outBits));
    ValueSnoc(written, (acc / Radix(b)) % Radix(outBits), Radix(outBits));
  }

  /** The bits left over, moved to the top of a digit. */
  lemma LastDigit(n: nat, written: seq<nat>, acc: nat, bits: nat, outBits: nat)
    requires bits < outBits && Stream(n, written, acc, bits, outBits)
    ensures var d := (acc * Radix(outBits - bits)) % Radix(outBits);
            && d < Radix(outBits)
            && (d == 0 <==> n % Radix(bits) == 0)
            && Value(written + [d], Radix(outBits)) == n * Radix(outBits - bits)
  {
    hide Pow, Value, Radix, IsNumeral;
    var p, r := Radix(bits), Radix(outBits - bits);
    RadixAdd(bits, outBits - bits);
    LastShift(acc, n, p, r);
    ValueSnoc(written, (n % p) * r, Radix(outBits));
  }

  lemma LastShift(acc: nat, n: nat, p: nat, r: nat)
    requires p > 0 && r > 0 && acc % p == n % p
    ensures p * r > 0 && (acc * r) % (p * r) == (n % p) * r
    ensures (n % p) * r == 0 <==> n % p == 0
    ensures (n / p) * (p * r) + (n % p) * r == n * r
  {
    DivIdentity(acc, p);
    DivIdentity(n, p);
    PushQuotient(acc, acc / p, acc % p, p, r, 0);
    MulZero(n % p, r);
    LastIdentity(n, n / p, n % p, p, r);
  }

  lemma MulZero(m: nat, r: nat)
    requires r > 0
    ensures m * r == 0 <==> m == 0
  {
  }

  lemma LastIdentity(n: nat, q: nat, m: nat, p: nat, r: nat)
    requires n == q * p + m
    ensures q * (p * r) + m * r == n * r
  {
  }

  // ---------------------------------------------------------------- the loop

  /** `x & ((1 << k) - 1)` */
  function LowBits(x: nat, k: nat): (r: nat)
    ensures r < Radix(k)
  {
    x % Radix(k)
  }

  /** `val << inBits | value` is a sum, and fits 32 bits. */
  lemma Accumulate(acc: nat, value: nat, inBits: nat, width: nat)
    requires value < Radix(inBits) && acc < Radix(width) && inBits <= 8 && width <= 15
    ensures Or(ShiftLeft(acc, inBits), value) == acc * Radix(inBits) + value < TWO32
  {
    hide Pow, ShiftLeft, Or;
    ShiftLeftMeaning(acc, inBits);
    OrDisjoint(acc, value, inBits);
    RadixAdd(width, inBits);
    MulAddLt(acc, value, Radix(width), Radix(inBits));
    PowersOfTwo();
    PowMono(2, width + inBits, 32);
  }

  /** `value >> inBits` is zero exactly for values below 2^inBits. */
  lemma ValueFits(value: nat, inBits: nat)
    ensures ShiftRight(value, inBits) == 0 <==> value < Radix(inBits)
  {
    ShiftRightMeaning(value, inBits);
    DivBelow(value, Radix(inBits), 1);
  }

  lemma RoomForDigit(count: nat, bits: nat, consumed: nat, total: nat, width: nat)
    requires width > 0 && bits >= width && count * width + bits == consumed <= total
    ensures count < Ceiling(total, width)
  {
  }

  /** Extracts whole digits while the accumulator holds one. */
  method DrainDigits(out: array<byte>, start: nat, count: nat, acc: nat, bitsIn: nat, outBits: nat,
                     ghost n: nat, ghost consumed: nat, ghost total: nat) returns (bits: nat, written: nat)
    requires 1 <= outBits <= 8 && start + Ceiling(total, outBits) <= out.Length
    requires count <= Ceiling(total, outBits)
    requires count * outBits + bitsIn == consumed <= total
    requires Stream(n, out[start..start + count], acc, bitsIn, outBits)
    modifies out
    ensures bits < outBits && written <= Ceiling(total, outBits)
    ensures written * outBits + bits == consumed
    ensures Stream(n, out[start..start + written], acc, bits, outBits)
    ensures out[..start] == old(out[..start])
  {
    hide Stream, Radix, Ceiling, ShiftRight, LowBits;
    bits, written := bitsIn, count;
    while bits >= outBits
      invariant written <= Ceiling(total, outBits)
      invariant written * outBits + bits == consumed
      invariant Stream(n, out[start..start + written], acc, bits, outBits)
      invariant out[..start] == old(out[..start])
    {
      RoomForDigit(written, bits, consumed, total, outBits);
      ghost var digits := out[start..start + written];
      PopDigit(n, digits, acc, bits, outBits);
      OneMore(written, outBits);
      bits := bits - outBits;
      ShiftedDigit(acc, bits, outBits);
      var digit := LowBits(ShiftRight(acc, bits), outBits);
      out[start + written] := digit;
      written := written + 1;
      assert out[start..start + written] == digits + [digit];
    }
  }

  lemma ShiftedDigit(acc: nat, bits: nat, outBits: nat)
    requires outBits <= 8
    ensures 0 <= acc / Radix(bits)
    ensures LowBits(ShiftRight(acc, bits), outBits) == (acc / Radix(bits)) % Radix(outBits) < 256
  {
    ShiftRightMeaning(acc, bits);
    assert Pow(2, 8) == 256;
    PowMono(2, outBits, 8);
  }

  lemma StreamStart(inBits: nat, outBits: nat, empty: seq<nat>, written: seq<nat>)
    requires empty == [] && written == []
    ensures Stream(Value(empty, Radix(inBits)), written, 0, 0, outBits)
  {
  }

  lemma StreamEnd(s: seq<nat>, inBits: nat, outBits: nat, digits: seq<nat>, acc: nat, bits: nat)
    requires outBits > 0 && bits < outBits
    requires |digits| * outBits + bits == |s| * inBits
    requires Stream(Value(s, Radix(inBits)), digits, acc, bits, outBits)
    ensures |s| * inBits / outBits == |digits| && |s| * inBits % outBits == bits
    ensures FixedDigits(Value(s, Radix(inBits)) / Radix(bits), Radix(outBits), |digits|) == digits
  {
    hide Value, FixedDigits, Radix;
    DivModUnique(|s| * inBits, outBits, |digits|, bits);
    FixedDigitsOf(digits, Radix(outBits));
  }

  /** The padded digits are the ones with the right number and the right count. */
  lemma PaddedIs(s: seq<nat>, inBits: nat, outBits: nat, digits: seq<nat>, k: nat)
    requires outBits > 0 && k < outBits && IsNumeral(digits, Radix(outBits))
    requires |digits| * outBits == |s| * inBits + k
    requires Value(digits, Radix(outBits)) == Value(s, Radix(inBits)) * Radix(k)
    ensures Padded(s, inBits, outBits) == digits
    ensures Ceiling(|s| * inBits, outBits) == |digits|
  {
    hide Value, FixedDigits, Pow, Radix;
    var total, m := |s| * inBits, |digits|;
    CeilingUnique(total, outBits, m);
    assert m * outBits - total == k;
    FixedDigitsOf(digits, Radix(outBits));
  }

  /** Padding: one more digit if bits are left over. */
  lemma PaddedResult(s: seq<nat>, inBits: nat, outBits: nat, digits: seq<nat>, acc: nat, bits: nat)
    requires outBits > 0 && bits < outBits
    requires |digits| * outBits + bits == |s| * inBits
    requires Stream(Value(s, Radix(inBits)), digits, acc, bits, outBits)
    ensures bits == 0 ==> Padded(s, inBits, outBits) == digits
    ensures bits > 0 ==> Padded(s, inBits, outBits) == digits + [LowBits(acc * Radix(outBits - bits), outBits)]
    ensures Ceiling(|s| * inBits, outBits) == |digits| + (if bits > 0 then 1 else 0)
  {
    hide Value, FixedDigits, Pow, Radix, Ceiling, Padded;
    var n := Value(s, Radix(inBits));
    if bits == 0 {
      RadixZero(n);
      PaddedIs(s, inBits, outBits, digits, 0);
    } else {
      LastDigit(n, digits, acc, bits, outBits);
      OneMore(|digits|, outBits);
      PaddedIs(s, inBits, outBits, digits + [LowBits(acc * Radix(outBits - bits), outBits)], outBits - bits);
    }
  }

  lemma OneMore(n: nat, w: nat)
    ensures (n + 1) * w == n * w + w
  {
  }

  lemma RadixZero(n: nat)
    ensures Radix(0) == 1 && n / Radix(0) == n && n * Radix(0) == n
  {
  }

  lemma UnpaddedResult(s: seq<nat>, inBits: nat, outBits: nat, digits: seq<nat>, acc: nat, bits: nat)
    requires outBits > 0 && bits < outBits
    requires |digits| * outBits + bits == |s| * inBits
    requires Stream(Value(s, Radix(inBits)), digits, acc, bits, outBits)
    ensures Unpadded(s, inBits, outBits) ==
      if LowBits(acc * Radix(outBits - bits), outBits) != 0 || bits >= inBits then None else Some(digits)
  {
    hide Value, FixedDigits, Pow;
    StreamEnd(s, inBits, outBits, digits, acc, bits);
    LastDigit(Value(s, Radix(inBits)), digits, acc, bits, outBits);
  }

  method Convert(out: array<byte>, outlen: nat, outBits: nat, input: seq<byte>, inBits: nat, pad: bool)
    returns (ok: bool, newlen: nat)
    requires 1 <= inBits <= 8 && 1 <= outBits <= 8
    requires outlen + Ceiling(|input| * inBits, outBits) <= out.Length
    modifies out
    ensures pad ==> (ok <==> IsNumeral(input, Radix(inBits)))
    ensures pad && ok ==> var d := Padded(input, inBits, outBits);
                          newlen == outlen + |d| <= out.Length && out[outlen..newlen] == d
    ensures !pad ==> (ok <==> IsNumeral(input, Radix(inBits)) && Unpadded(input, inBits, outBits).Some?)
    ensures !pad && ok ==> var d := Unpadded(input, inBits, outBits).value;
                           newlen == outlen + |d| <= out.Length && out[outlen..newlen] == d
    ensures out[..outlen] == old(out[..outlen])
  {
    hide Stream, Radix, Ceiling, ShiftRight, ShiftLeft, Or, Value, Padded, Unpadded;
    ghost var total := |input| * inBits;
    var acc: nat, bits: nat, count: nat := 0, 0, 0;
    var width := inBits + outBits - 1;
    StreamStart(inBits, outBits, input[..0], out[outlen..outlen + count]);
    for i := 0 to |input|
      invariant IsNumeral(input[..i], Radix(inBits)) && forall k | 0 <= k < i :: input[k] < Radix(inBits)
      invariant acc < Radix(width) && bits < outBits && count <= Ceiling(total, outBits)
      invariant count * outBits + bits == i * inBits
      invariant Stream(Value(input[..i], Radix(inBits)), out[outlen..outlen + count], acc, bits, outBits)
      invariant out[..outlen] == old(out[..outlen])
    {
      var value := input[i];
      ValueFits(value, inBits);
      if ShiftRight(value, inBits) != 0 {
        return false, outlen + count;
      }
      ghost var n := Value(input[..i], Radix(inBits));
      assert input[..i + 1] == input[..i] + [value];
      ValueSnoc(input[..i], value, Radix(inBits));
      Accumulate(acc, value, inBits, width);
      PushDigit(n, out[outlen..outlen + count], acc, bits, outBits, value, inBits, width);
      acc := LowBits(Or(ShiftLeft(acc, inBits), value), width);
      Consumed(i, |input|, inBits);
      bits, count := DrainDigits(out, outlen, count, acc, bits + inBits, outBits, Value(input[..i + 1], Radix(inBits)),
                                 (i + 1) * inBits, total);
    }
    assert input[..|input|] == input;
    newlen := outlen + count;
    ghost var digits := out[outlen..newlen];
    TopDigit(acc, bits, outBits);
    if pad {
      PaddedResult(input, inBits, outBits, digits, acc, bits);
      if bits != 0 {
        out[newlen] := LowBits(ShiftLeft(acc, outBits - bits), outBits);
        newlen := newlen + 1;
        assert out[outlen..newlen] == digits + [LowBits(ShiftLeft(acc, outBits - bits), outBits)];
      }
      ok := true;
    } else {
      UnpaddedResult(input, inBits, outBits, digits, acc, bits);
      ok := !(LowBits(ShiftLeft(acc, outBits - bits), outBits) != 0 || bits >= inBits);
    }
  }

  lemma Consumed(i: nat, n: nat, inBits: nat)
    requires i < n
    ensures (i + 1) * inBits == i * inBits + inBits <= n * inBits
  {
  }

  lemma TopDigit(acc: nat, bits: nat, outBits: nat)
    requires bits <= outBits <= 8
    ensures ShiftLeft(acc, outBits - bits) == acc * Radix(outBits - bits)
    ensures LowBits(ShiftLeft(acc, outBits - bits), outBits) < 256
  {
    ShiftLeftMeaning(acc, outBits - bits);
    assert Pow(2, 8) == 256;
    PowMono(2, outBits, 8);
  }
}
