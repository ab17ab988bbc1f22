/** evm/evm_utils.c: numbers of a transaction on the screen. */
module Display {
  import opened Numerals
  import opened DigitText
  import opened Bignum
  import opened NumberText
  import opened FixedPoint
  import opened Paging
  import opened Parser
  import opened UInt256
  import opened UIntText
  import opened UIntRead
  import opened RlpFormat
  import opened Rlp

  // ---------------------------------------------------------------- how long the texts are

  lemma PowersOfTwoHere()
    ensures Pow(2, 47) == 0x8000_0000_0000 && Pow(2, 93) == 0x2000_0000_0000_0000_0000_0000
  {
    assert Pow(2, 5) == 32 && Pow(2, 6) == 64;
    PowAdd(2, 6, 5);
    PowAdd(2, 6, 6);
    PowAdd(2, 12, 11);
    PowAdd(2, 12, 12);
    PowAdd(2, 24, 23);
    PowAdd(2, 23, 23);
    PowAdd(2, 47, 46);
  }

  lemma PowersOfTenHere()
    ensures Pow(10, 15) == 1_000_000_000_000_000
    ensures Pow(10, 28) == 10_000_000_000_000_000_000_000_000_000
  {
    assert Pow(10, 4) == 10_000 && Pow(10, 3) == 1_000;
    PowAdd(10, 4, 4);
    PowAdd(10, 8, 4);
    PowAdd(10, 12, 3);
    PowAdd(10, 12, 12);
    PowAdd(10, 24, 4);
  }

  /** 64 bytes have at most 155 decimal digits. */
  lemma SixtyFourBytes()
    ensures Pow(256, 64) <= Pow(10, 155)
  {
    hide Pow;
    PowersOfTwoHere();
    PowersOfTenHere();
    EightBits();
    PowMul(2, 8, 64);
    PowMul(2, 93, 5);
    PowAdd(2, 465, 47);
    PowBaseMono(Pow(2, 93), Pow(10, 28), 5);
    PowMul(10, 28, 5);
    PowAdd(10, 140, 15);
    MulMono(Pow(2, 465), Pow(10, 140), Pow(2, 47));
    MulMono(Pow(2, 47), Pow(10, 15), Pow(10, 140));
  }

  lemma AmountLength(number: seq<byte>)
    requires |number| <= 64
    ensures var n := Value(number, 256); |Text(n, 10)| <= 155 && n < Pow(10, 155)
  {
    hide Pow, Value, Text;
    var n := Value(number, 256);
    ValueBound(number, 256);
    PowMono(256, |number|, 64);
    SixtyFourBytes();
    TextLength(n, 10, 155);
  }

  // ---------------------------------------------------------------- fixed point amounts

  function DisplayText(n: nat, decimals: nat): string {
    Trimmed(FixedPointText(Text(n, 10), decimals), 1)
  }

  lemma NoZeroByte(s: string)
    requires IsAmount(s)
    ensures '\0' !in s
  {
    hide PointAt;
    var w, f := Whole(s), Fraction(s);
    assert forall i | 0 <= i < |w| :: w[i] == (w + f)[i];
    assert forall i | 0 <= i < |f| :: f[i] == (w + f)[|w| + i];
    DecimalNoZero(w);
    DecimalNoZero(f);
    if PointAt(s) < |s| {
      assert s == w + "." + f;
    } else {
      assert s == w;
    }
  }

  /** The text in front of the point is not touched by trimming, so the length only shrinks. */
  lemma DisplayFacts(n: nat, decimals: nat)
    requires |Text(n, 10)| <= 155 && decimals <= 157
    ensures var fixed := FixedPointText(Text(n, 10), decimals);
            && |fixed| < 160 && '\0' !in fixed
            && DisplayText(n, decimals) <= fixed && '\0' !in DisplayText(n, decimals)
            && DisplayText(n, decimals) != ""
            && Amount(DisplayText(n, decimals)) == Ratio(n, decimals)
  {
    hide Text, IsAmount, Amount, Ratio, Trimmed;
    var text := Text(n, 10);
    TextDecimal(n);
    var fixed := FixedPointText(text, decimals);
    FixedPointAmount(text, decimals);
    NoZeroByte(fixed);
    TrimmedAmount(fixed, 1);
    NoZeroByte(DisplayText(n, decimals));
    AmountNonEmpty(DisplayText(n, decimals));
  }

  /** What is shown: the whole part in canonical form; no point without decimals; with decimals at least one
      digit behind the point and no trailing zero behind the first.  With the amount this fixes the text. */
  lemma DisplayShape(n: nat, decimals: nat)
    requires |Text(n, 10)| <= 155 && decimals <= 157
    ensures n / Pow(10, decimals) >= 0
    ensures var text := DisplayText(n, decimals);
            && Whole(text) == Text(n / Pow(10, decimals), 10)
            && (decimals == 0 ==> text == Whole(text))
            && (decimals > 0 ==> text == Whole(text) + "." + Fraction(text) && 1 <= |Fraction(text)| <= decimals)
            && (|Fraction(text)| > 1 ==> text[|text| - 1] != '0')
  {
    hide Text, Trimmed, FixedPointText, IsAmount, Amount, Pow;
    var fixed := FixedPointText(Text(n, 10), decimals);
    FixedPointParts(n, decimals);
    DisplayFacts(n, decimals);
    TextDecimal(n);
    FixedPointAmount(Text(n, 10), decimals);
    TrimmedAmount(fixed, 1);
    TrimmedKeeps(fixed, 1);
    ShapeKept(fixed, DisplayText(n, decimals));
    UntrimmedWhole(fixed, decimals);
  }

  /** Cutting behind the point leaves the point and what is before it. */
  lemma ShapeKept(s: string, t: string)
    requires t <= s && (PointAt(s) < |s| ==> PointAt(s) < |t|)
    ensures PointAt(s) < |s| ==> PointAt(t) == PointAt(s) && Whole(t) == Whole(s)
    ensures PointAt(s) < |s| ==> t == Whole(t) + "." + Fraction(t)
  {
    if PointAt(s) < |s| {
      PointPrefix(s, |t|);
      assert s[..|t|] == t;
    }
  }

  lemma UntrimmedWhole(s: string, decimals: nat)
    requires PointAt(s) < |s| <==> decimals > 0
    ensures decimals == 0 ==> Trimmed(s, 1) == s == Whole(s) && Fraction(s) == ""
  {
  }

  lemma AmountNonEmpty(s: string)
    requires IsAmount(s)
    ensures s != ""
  {
  }

  /** The bytes as decimal text. */
  method FormatQuantity(num: seq<byte>, bcd: array<byte>, bignum: array<char>) returns (ok: bool)
    requires |num| <= 64 && bcd.Length == 80 && bignum.Length == 160
    modifies bcd, bignum
    ensures ok
    ensures |Text(Value(num, 256), 10)| <= 155
    ensures bignum[..] == Filled(Text(Value(num, 256), 10), 160)
  {
    hide Value, Text, Shown, Denotes, Pow;
    AmountLength(num);
    BigEndianToBcd(bcd, num);
    ConvertThenPrint(bcd[..], Value(num, 256));
    PowMono(10, 155, 160);
    SmallModulus(Value(num, 256), Pow(10, 2 * |bcd[..]|));
    ok := BigEndianPrint(bignum, bcd[..]);
  }

  lemma SmallModulus(n: nat, m: nat)
    requires n < m
    ensures n % m == n
  {
  }

  /** Sets the point in the digits and trims the zeros behind it. */
  method FormatAmount(digits: string, output: array<char>, decimals: byte, ghost n: nat) returns (ok: bool)
    requires output.Length == 160 && digits == Text(n, 10) && |digits| <= 155
    modifies output
    ensures ok <==> decimals <= 157
    ensures ok ==> |DisplayText(n, decimals)| < 160 && '\0' !in DisplayText(n, decimals)
    ensures ok ==> output[..] == Filled(DisplayText(n, decimals), 160)
  {
    hide Text, Filled, Trimmed, FixedPointText;
    TextDecimal(n);
    var rc := FpStrToStr(output, digits, decimals);
    if rc != 0 {
      return false;
    }
    DisplayFacts(n, decimals);
    FitsWhole(digits, decimals, 160);
    NumberInplaceTrimming(output, 1, FixedPointText(digits, decimals));
    ok := true;
  }

  /** Shows one page of the number divided by 10^decimals; the number of decimals is cut to eight bits. */
  method PrintBigIntFixedPoint(number: seq<byte>, outVal: array<char>, pageIdx: byte, decimals: nat)
    returns (err: ParserError, pageCount: byte)
    requires 1 <= outVal.Length < 0x10000 && decimals < 0x10000 && |number| < 0x10000
    modifies outVal
    ensures err == if |number| > 64 then ValueOutOfRange
                   else if decimals % 256 > 157 then UnexpectedValue
                   else Ok
    ensures err == Ok ==>
              var text := DisplayText(Value(number, 256), decimals % 256);
              && pageCount == PageCount(|text|, outVal.Length - 1)
              && outVal[..] == Filled(Page(text, outVal.Length - 1, pageIdx), outVal.Length)
  {
    hide Value, Text, Filled, Page, PageCount, DisplayText;
    pageCount := 0;
    if |number| > 64 {
      return ValueOutOfRange, 0;
    }
    var bignum := new char[160](_ => '\0');
    var bcd := new byte[80](_ => 0);
    var ok := FormatQuantity(number, bcd, bignum);
    if !ok {
      return UnexpectedValue, pageCount;
    }
    ghost var n := Value(number, 256);
    var digits := ReadText(bignum, n);
    var output := new char[160](_ => '\0');
    ok := FormatAmount(digits, output, decimals % 256, n);
    if !ok {
      return UnexpectedValue, pageCount;
    }
    ghost var text := DisplayText(n, decimals % 256);
    var len := StrLen(output, text);
    FilledPart(output[..], text);
    assert output[..len] == output[..][..len];
    assert text[..len % 0x10000] == text;
    pageCount := PageString(outVal, output[..len], pageIdx);
    err := Ok;
  }

  lemma FilledPart(buffer: string, text: string)
    requires |text| <= |buffer| && buffer == Filled(text, |buffer|)
    ensures buffer[..|text|] == text
  {
  }

  method ReadText(bignum: array<char>, ghost n: nat) returns (digits: string)
    requires bignum.Length == 160 && |Text(n, 10)| <= 155
    requires bignum[..] == Filled(Text(n, 10), 160)
    ensures digits == Text(n, 10)
  {
    hide Text, Filled;
    NoZeroDigit(n);
    var len := StrLen(bignum, Text(n, 10));
    FilledPart(bignum[..], Text(n, 10));
    digits := bignum[..len];
    assert digits == bignum[..][..len];
  }

  lemma NoZeroDigit(n: nat)
    ensures '\0' !in Text(n, 10)
  {
    hide Text;
    TextDecimal(n);
    DecimalNoZero(Text(n, 10));
  }

  lemma DecimalNoZero(s: string)
    requires IsDecimal(s)
    ensures '\0' !in s
  {
  }

  /** All pages together denote exactly the number divided by 10^decimals. */
  lemma DisplayedAmount(number: seq<byte>, decimals: nat, room: nat)
    requires |number| <= 64 && decimals <= 157 && room > 0
    ensures var text := DisplayText(Value(number, 256), decimals);
            var shown := Pages(text, room, PageCount(|text|, room));
            && shown == text
            && Amount(shown) == Ratio(Value(number, 256), decimals)
  {
    hide Value, Text, Pages, PageCount, PagesNeeded, Amount, Ratio;
    AmountLength(number);
    DisplayFacts(Value(number, 256), decimals);
    var text := DisplayText(Value(number, 256), decimals);
    FewPages(|text|, room);
    PagesWhole(text, room);
  }

  lemma FewPages(length: nat, room: nat)
    requires 0 < room && length <= 255
    ensures PagesNeeded(length, room) <= 255
  {
  }

  /** The number of decimals shown is the one asked for exactly below 256, unless the number is 0. */
  lemma DecimalsCut(n: nat, decimals: nat)
    ensures Ratio(n, decimals % 256) == Ratio(n, decimals) <==> n == 0 || decimals < 256
  {
    if n > 0 && decimals >= 256 {
      PowStrict(10, decimals % 256, decimals);
      SmallerRatio(n as real, Pow(10, decimals % 256) as real, Pow(10, decimals) as real);
    }
  }

  lemma SmallerRatio(n: real, p: real, q: real)
    requires n > 0.0 && 0.0 < p < q
    ensures n / p != n / q
  {
  }

  // ---------------------------------------------------------------- plain numbers

  /** Shows one page of the decimal text of a number field. */
  method PrintRlpNumber(num: Item, outVal: array<char>, pageIdx: byte) returns (err: ParserError, pageCount: byte)
    requires 1 <= outVal.Length < 0x10000 && (num.kind == Byte ==> num.payload != [])
    modifies outVal
    ensures err == if num.kind == List then UnexpectedType
                   else if num.kind == String && |num.payload| > 32 then ValueOutOfRange
                   else Ok
    ensures err == Ok ==>
              var text := Text(Value(if num.kind == Byte then num.payload[..1] else num.payload, 256), 10);
              && pageCount == PageCount(|text|, outVal.Length - 1)
              && outVal[..] == Filled(Page(text, outVal.Length - 1, pageIdx), outVal.Length)
  {
    hide Value, Text, Join64, Join128, Filled, Page, PageCount;
    pageCount := 0;
    var tmp := new U256();
    err := ReadUInt256(num, tmp);
    if err != Ok {
      return;
    }
    var tmpBuffer := new char[100](_ => '\0');
    ghost var text := Text(tmp.Num(), 10);
    NumberLength(tmp.Num());
    var ok := ToString256(tmp, 10, tmpBuffer, 100);
    if !ok {
      return UnexpectedError, pageCount;
    }
    NoZeroDigit(Value(if num.kind == Byte then num.payload[..1] else num.payload, 256));
    var len := ScanLength(tmpBuffer, text);
    assert tmpBuffer[..len] == tmpBuffer[..|text| + 1][..len] == text;
    assert text[..|text| % 0x10000] == text;
    pageCount := PageString(outVal, tmpBuffer[..len], pageIdx);
  }

  lemma NumberLength(n: nat)
    requires n < TWO256
    ensures |Text(n, 10)| <= 99
  {
    hide Pow, Text;
    LargePower();
    TextLength(n, 10, 99);
  }

  lemma LargePower()
    ensures TWO256 <= Pow(10, 99)
  {
    hide Pow;
    PowersOf256();
    EightBits();
    PowMul(2, 8, 32);
    PowMono(2, 256, 297);
    EightIsCube();
    PowMul(2, 3, 99);
    PowBaseMono(8, 10, 99);
  }

  lemma EightIsCube()
    ensures Pow(2, 3) == 8
  {
  }

  /** `strlen` of a text whose terminator is in the buffer. */
  method ScanLength(buffer: array<char>, ghost text: string) returns (len: nat)
    requires |text| < buffer.Length && buffer[..|text| + 1] == text + ['\0'] && '\0' !in text
    ensures len == |text|
  {
    len := 0;
    assert buffer[|text|] == buffer[..|text| + 1][|text|] == '\0';
    while buffer[len] != '\0'
      invariant len <= |text|
      decreases |text| - len
    {
      assert buffer[len] == buffer[..|text| + 1][len];
      len := len + 1;
    }
    NoZeroAt(buffer[..|text| + 1], text, len);
  }

  lemma NoZeroAt(buffer: string, text: string, k: nat)
    requires buffer == text + ['\0'] && '\0' !in text && k <= |text| && buffer[k] == '\0'
    ensures k == |text|
  {
  }
}
