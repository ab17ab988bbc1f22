/** src/base58.c.  Base conversion between bytes and Base58 digits, in place on a digit buffer, with
    leading zero bytes carried over as leading '1' characters. */
module Base58 {
  import opened Numerals

  const MAX_DEC_INPUT_SIZE: nat := 164
  const MAX_ENC_INPUT_SIZE: nat := 120

  /** BASE58ALPHABET: digits, then letters without I, O and l. */
  function Alphabet(d: nat): (c: char)
    requires d < 58
  {
    if d < 9 then '1' + d as char
    else if d < 17 then 'A' + (d - 9) as char
    else if d < 22 then 'J' + (d - 17) as char
    else if d < 33 then 'P' + (d - 22) as char
    else if d < 44 then 'a' + (d - 33) as char
    else 'm' + (d - 44) as char
  }

  /** BASE58TABLE: the digit of a 7-bit character, 0xff for the characters outside the alphabet. */
  function Table(c: char): nat {
    if '1' <= c <= '9' then c as nat - '1' as nat
    else if 'A' <= c <= 'H' then c as nat - 'A' as nat + 9
    else if 'J' <= c <= 'N' then c as nat - 'J' as nat + 17
    else if 'P' <= c <= 'Z' then c as nat - 'P' as nat + 22
    else if 'a' <= c <= 'k' then c as nat - 'a' as nat + 33
    else if 'm' <= c <= 'z' then c as nat - 'm' as nat + 44
    else 0xff
  }

  lemma AlphabetTable(d: nat, c: char)
    ensures d < 58 ==> Table(Alphabet(d)) == d && Alphabet(d) as nat < 128
    ensures Table(c) != 0xff ==> Table(c) < 58 && Alphabet(Table(c)) == c
  {
  }

  /** The alphabet is all letters and digits but 0, I, O and l, in the order of their codes. */
  lemma AlphabetOrder(d: nat, e: nat)
    requires d < e < 58
    ensures Alphabet(d) < Alphabet(e)
  {
  }

  lemma AlphabetCharacters(c: char)
    ensures (exists d: nat :: d < 58 && Alphabet(d) == c) <==>
            && ('0' <= c <= '9' || 'A' <= c <= 'Z' || 'a' <= c <= 'z')
            && c != '0' && c != 'I' && c != 'O' && c != 'l'
  {
    AlphabetTable(0, c);
    if Table(c) != 0xff {
      assert Alphabet(Table(c)) == c;
    }
  }

  // ---------------------------------------------------------------- specification

  /** The same number in another base, keeping the count of leading zeros. */
  function Transcode(s: seq<nat>, from: nat, to: nat): seq<nat>
    requires to >= 2
  {
    Zeros(LeadingZeros(s)) + Digits(Value(s, from), to)
  }

  /** Changing the base and back is the identity on numerals. */
  lemma TranscodeInverse(s: seq<nat>, from: nat, to: nat)
    requires from >= 2 && to >= 2 && IsNumeral(s, from)
    ensures IsNumeral(Transcode(s, from, to), to)
    ensures Transcode(Transcode(s, from, to), to, from) == s
  {
    var z := LeadingZeros(s);
    var v := Value(s, from);
    var t := Transcode(s, from, to);
    assert s == s[..z] + s[z..];
    assert s[..z] == Zeros(z);
    ValueStrip(s[..z], s[z..], from);
    DigitsOfValue(s[z..], from);
    DigitsValue(v, to);
    ValueStrip(Zeros(z), Digits(v, to), to);
    LeadingZerosConcat(Zeros(z), Digits(v, to));
  }

  function ToText(ds: seq<nat>): (t: string)
    requires IsNumeral(ds, 58)
    ensures |t| == |ds|
  {
    seq(|ds|, i requires 0 <= i < |ds| => Alphabet(ds[i]))
  }

  predicate InAlphabet(t: string) {
    forall i | 0 <= i < |t| :: Table(t[i]) != 0xff
  }

  function FromText(t: string): (ds: seq<nat>)
    requires InAlphabet(t)
    ensures |ds| == |t| && IsNumeral(ds, 58)
  {
    var ds := seq(|t|, i requires 0 <= i < |t| => Table(t[i]));
    assert forall i | 0 <= i < |ds| :: ds[i] < 58 by {
      forall i | 0 <= i < |ds| ensures ds[i] < 58 { AlphabetTable(0, t[i]); }
    }
    ds
  }

  lemma TextInverse(ds: seq<nat>, t: string)
    ensures IsNumeral(ds, 58) ==> InAlphabet(ToText(ds)) && FromText(ToText(ds)) == ds
    ensures InAlphabet(t) ==> ToText(FromText(t)) == t
  {
    if IsNumeral(ds, 58) {
      forall i | 0 <= i < |ds| ensures Table(ToText(ds)[i]) == ds[i] { AlphabetTable(ds[i], '1'); }
      assert FromText(ToText(ds)) == ds;
    }
    if InAlphabet(t) {
      forall i | 0 <= i < |t| ensures ToText(FromText(t))[i] == t[i] { AlphabetTable(0, t[i]); }
      assert ToText(FromText(t)) == t;
    }
  }

  function Encode(b: seq<byte>): (t: string) {
    TranscodeInverse(b, 256, 58);
    ToText(Transcode(b, 256, 58))
  }

  function Decode(t: string): (b: seq<byte>)
    requires InAlphabet(t)
  {
    TranscodeInverse(FromText(t), 58, 256);
    var bytes := Transcode(FromText(t), 58, 256);
    assert forall i | 0 <= i < |bytes| :: bytes[i] < 256;
    bytes
  }

  /** Decoding an encoding gives the bytes back, leading zeros included. */
  lemma DecodeEncode(b: seq<byte>)
    ensures InAlphabet(Encode(b)) && Decode(Encode(b)) == b
  {
    TranscodeInverse(b, 256, 58);
    TextInverse(Transcode(b, 256, 58), "");
  }

  /** Encoding a decoding gives the text back. */
  lemma EncodeDecode(t: string)
    requires InAlphabet(t)
    ensures Encode(Decode(t)) == t
  {
    TextInverse([], t);
    TranscodeInverse(FromText(t), 58, 256);
  }

  // ---------------------------------------------------------------- sizes

  /** The digit buffer size for n significant bytes. */
  function BufferSize(n: nat): nat { n * 138 / 100 + 1 }

  /** 58^5 >= 2^29, and 29 * BufferSize(n) >= 40 * n, so the estimate always suffices. */
  lemma EstimateSuffices(n: nat)
    ensures Pow(256, n) <= Pow(58, BufferSize(n))
  {
    var w := BufferSize(n);
    assert 40 * n <= 29 * w;
    assert Pow(2, 29) <= Pow(58, 5) by {
      PowAdd(2, 8, 8);
      PowAdd(2, 16, 8);
      PowAdd(2, 24, 5);
      assert Pow(2, 8) == 256 && Pow(2, 5) == 32;
    }
    PowBaseMono(Pow(2, 29), Pow(58, 5), w);
    PowMul(2, 29, w);
    PowMul(58, w, 5);
    PowMul(58, 5, w);
    assert w * 5 == 5 * w;
    PowMono(2, 40 * n, 29 * w);
    assert Pow(2, 8) == 256;
    PowMul(2, 8, n * 5);
    PowMul(256, n, 5);
    assert 8 * (n * 5) == 40 * n;
    if Pow(256, n) > Pow(58, w) {
      PowBaseStrict(Pow(58, w), Pow(256, n), 5);
    }
  }

  lemma Growth(i: nat)
    ensures BufferSize(i) + 1 <= BufferSize(i + 1)
  {
  }

  lemma PowProduct(base: nat, m: nat, x: nat, n: nat, y: nat, xy: nat)
    requires Pow(base, m) == x && Pow(base, n) == y && xy == x * y
    ensures Pow(base, m + n) == xy
  {
    PowAdd(base, m, n);
  }

  lemma SmallPowers()
    ensures Pow(256, 2) == 65536 && Pow(256, 4) == 4294967296
    ensures Pow(58, 1) == 58 && Pow(58, 4) == 11316496
  {
  }

  /** 256^30 < 58^41 */
  lemma LargestInputRoot()
    ensures Pow(256, 30) < Pow(58, 41)
  {
    hide Pow;
    SmallPowers();
    PowProduct(256, 4, 4294967296, 4, 4294967296,
      18446744073709551616);
    PowProduct(256, 8, 18446744073709551616, 8, 18446744073709551616,
      340282366920938463463374607431768211456);
    PowProduct(256, 16, 340282366920938463463374607431768211456, 8, 18446744073709551616,
      6277101735386680763835789423207666416102355444464034512896);
    PowProduct(256, 24, 6277101735386680763835789423207666416102355444464034512896, 4, 4294967296,
      26959946667150639794667015087019630673637144422540572481103610249216);
    PowProduct(256, 28, 26959946667150639794667015087019630673637144422540572481103610249216, 2, 65536,
      1766847064778384329583297500742918515827483896875618958121606201292619776);
    PowProduct(58, 4, 11316496, 4, 11316496,
      128063081718016);
    PowProduct(58, 8, 128063081718016, 8, 128063081718016,
      16400152899115243850138976256);
    PowProduct(58, 16, 16400152899115243850138976256, 16, 16400152899115243850138976256,
      268965015114358137726910587140455987105619365599731777536);
    PowProduct(58, 32, 268965015114358137726910587140455987105619365599731777536, 8, 128063081718016,
      34444488709877454747081479018851205589883534409595458615323760395288576);
    PowProduct(58, 40, 34444488709877454747081479018851205589883534409595458615323760395288576, 1, 58,
      1997780345172892375330725783093369924213244995756536599688778102926737408);
  }

  /** 256^120 < 58^164, the fourth power of the above. */
  lemma LargestInput()
    ensures Pow(256, MAX_ENC_INPUT_SIZE) < Pow(58, MAX_DEC_INPUT_SIZE)
  {
    LargestInputRoot();
    PowMul(256, 30, 4);
    PowMul(58, 41, 4);
    PowBaseStrict(Pow(256, 30), Pow(58, 41), 4);
  }

  lemma PowInverse(base: nat, m: nat, n: nat)
    requires base >= 1 && Pow(base, m) < Pow(base, n)
    ensures m < n
  {
    if n <= m {
      PowMono(base, n, m);
    }
  }

  lemma ProductBelow(a: nat, b: nat, c: nat, d: nat)
    requires a <= c && b <= d
    ensures a * b <= c * d
  {
  }

  /** z leading zeros and d digits of a number below 256^n, for z + n bytes. */
  lemma LengthBound(z: nat, n: nat, v: nat, d: nat)
    requires z + n <= MAX_ENC_INPUT_SIZE && v < Pow(256, n) && Pow(58, d) <= v
    ensures z + d < MAX_DEC_INPUT_SIZE
  {
    hide Pow;
    PowBaseMono(58, 256, z);
    PowAdd(58, z, d);
    PowAdd(256, z, n);
    ProductBelow(Pow(58, z), Pow(58, d), Pow(256, z), Pow(256, n));
    PowMono(256, z + n, MAX_ENC_INPUT_SIZE);
    LargestInput();
    PowInverse(58, z + d, MAX_DEC_INPUT_SIZE);
  }

  /** Every accepted input encodes to a text the decoder accepts. */
  lemma EncodingFits(b: seq<byte>)
    requires |b| <= 120
    ensures MAX_ENC_INPUT_SIZE == 120 && |Encode(b)| <= 164 == MAX_DEC_INPUT_SIZE
  {
    hide Pow, Value;
    var z := LeadingZeros(b);
    var v := Value(b, 256);
    var d := |Digits(v, 58)|;
    assert |Encode(b)| == z + d;
    if d > 0 {
      assert b == b[..z] + b[z..];
      ValueStrip(b[..z], b[z..], 256);
      ValueBound(b[z..], 256);
      DigitsCount(v, 58, d - 1);
      LengthBound(z, |b| - z, v, d - 1);
    }
  }
}
