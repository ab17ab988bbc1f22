/** Text of numbers: a digit is its hexadecimal character, and a number its canonical digits. */
module DigitText {
  import opened Numerals

  const HEXDIGITS: string := "0123456789abcdef"

  function HexDigit(d: nat): char
    requires d < 16
  {
    HEXDIGITS[d]
  }

  /** The digits as characters. */
  function Chars(ds: seq<nat>): (s: string)
    requires IsNumeral(ds, 16)
    ensures |s| == |ds|
  {
    seq(|ds|, i requires 0 <= i < |ds| => HexDigit(ds[i]))
  }

  /** The number in the given base, without leading zeros, lower-case. */
  function Text(n: nat, base: nat): (s: string)
    requires 2 <= base <= 16
    ensures |s| == |TextDigits(n, base)|
  {
    TextDigitsValue(n, base);
    Chars(TextDigits(n, base))
  }

  // ---------------------------------------------------------------- reading the text back

  function DigitOf(c: char): nat {
    if '0' <= c <= '9' then c as nat - '0' as nat
    else if 'a' <= c <= 'f' then c as nat - 'a' as nat + 10
    else 16
  }

  function DigitsOf(s: string): (ds: seq<nat>)
    ensures |ds| == |s|
  {
    seq(|s|, i requires 0 <= i < |s| => DigitOf(s[i]))
  }

  lemma DigitOfHex(d: nat)
    requires d < 16
    ensures DigitOf(HexDigit(d)) == d
    ensures HexDigit(d) == '0' <==> d == 0
  {
  }

  /** The characters themselves: 0 to 9, then a to f. */
  lemma HexDigitCharacter(d: nat)
    requires d < 16
    ensures HexDigit(d) as int == if d < 10 then 48 + d else 87 + d
  {
  }

  /** The text denotes the number and has no leading zero, except for zero itself. */
  lemma TextReadsBack(n: nat, base: nat)
    requires 2 <= base <= 16
    ensures IsNumeral(DigitsOf(Text(n, base)), base)
    ensures Value(DigitsOf(Text(n, base)), base) == n
    ensures |Text(n, base)| > 0
    ensures Text(n, base)[0] == '0' <==> n == 0
  {
    TextDigitsValue(n, base);
    DigitsValue(n, base);
    var ds := TextDigits(n, base);
    forall i | 0 <= i < |ds|
      ensures DigitOf(Text(n, base)[i]) == ds[i]
    {
      DigitOfHex(ds[i]);
    }
    DigitOfHex(ds[0]);
    assert DigitsOf(Text(n, base)) == ds;
  }

  /** A text of at most k characters is that of a number with at most k digits. */
  lemma TextLength(n: nat, base: nat, k: nat)
    requires 2 <= base <= 16 && k > 0
    ensures |Text(n, base)| <= k <==> n < Pow(base, k)
  {
    DigitsCount(n, base, k);
  }

  /** A text at the start of an otherwise zero buffer. */
  function Filled(text: string, size: nat): (s: string)
    requires |text| <= size
    ensures |s| == size
  {
    text + seq(size - |text|, _ => '\0')
  }

  // ---------------------------------------------------------------- turning round

  function Reversed<T>(s: seq<T>): (r: seq<T>)
    ensures |r| == |s|
    ensures forall i | 0 <= i < |s| :: r[i] == s[|s| - 1 - i]
  {
    seq(|s|, i requires 0 <= i < |s| => s[|s| - 1 - i])
  }

  // ---------------------------------------------------------------- digit generation

  /** After some divisions the text so far, read backwards, completes the digits of what is left. */
  ghost predicate Emitted(n: nat, base: nat, rest: nat, ds: seq<nat>, out: string)
    requires 2 <= base <= 16
  {
    && IsNumeral(ds, 16)
    && out == Reversed(Chars(ds))
    && (if ds == [] then rest == n else TextDigits(n, base) == Digits(rest, base) + ds)
  }

  lemma EmitDigit(n: nat, base: nat, rest: nat, ds: seq<nat>, out: string)
    requires 2 <= base <= 16
    requires ds == [] || rest != 0
    requires Emitted(n, base, rest, ds, out)
    ensures rest % base < 16
    ensures Emitted(n, base, rest / base, [rest % base] + ds, out + [HexDigit(rest % base)])
    ensures |ds| < |TextDigits(n, base)|
  {
    QuotientBound(rest, base);
    var d := rest % base;
    assert Reversed(Chars([d] + ds)) == Reversed(Chars(ds)) + [HexDigit(d)];
    DigitsStep(rest, base);
    if ds != [] {
      assert Digits(rest / base, base) + [d] + ds == Digits(rest / base, base) + ([d] + ds);
    } else {
      assert Digits(rest / base, base) + ([d] + ds) == Digits(rest / base, base) + [d];
    }
  }

  lemma DigitsStep(n: nat, base: nat)
    requires base >= 2
    ensures 0 <= n / base
    ensures n != 0 ==> Digits(n, base) == Digits(n / base, base) + [n % base]
    ensures TextDigits(n, base) == Digits(n / base, base) + [n % base]
  {
  }

  lemma EmittedAll(n: nat, base: nat, ds: seq<nat>, out: string)
    requires 2 <= base <= 16 && ds != []
    requires Emitted(n, base, 0, ds, out)
    ensures ds == TextDigits(n, base)
    ensures Reversed(out) == Text(n, base)
  {
  }

  lemma EmitNothing(n: nat, base: nat)
    requires 2 <= base <= 16
    ensures Emitted(n, base, n, [], [])
  {
  }
}
