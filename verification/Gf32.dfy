/** The field and the generator polynomial of section "Bech32" of BIP 173, defined on their own, and the
    checksum step as division by that polynomial. */
module Gf32 {
  import opened Polymod

  /** Twice an element of GF(32), reduced by a^5 + a^3 + 1. */
  function Double(x: bv32): bv32 {
    if x & 16 != 0 then ((x << 1) & 31) ^ 9 else x << 1
  }

  function Part(x: bv32, bit: bv32): bv32 { if bit != 0 then x else 0 }

  /** The product in GF(32): the sum of the doublings of x that the bits of y select. */
  function Product(x: bv32, y: bv32): bv32 {
    var x2 := Double(x);
    var x4 := Double(x2);
    var x8 := Double(x4);
    Part(x, y & 1) ^ Part(x2, y & 2) ^ Part(x4, y & 4) ^ Part(x8, y & 8) ^ Part(Double(x8), y & 16)
  }

  /** The generator x^6 + 29 x^5 + 22 x^4 + 20 x^3 + 21 x^2 + 29 x + 18 without its leading term, times c. */
  function TimesGenerator(c: bv32): (p: seq<bv32>)
    ensures |p| == 6
  {
    [Product(29, c), Product(22, c), Product(20, c), Product(21, c), Product(29, c), Product(18, c)]
  }

  /** What is folded back for the five bits shifted out. */
  function Taps(b: bv32): bv32 {
    Xor(Xor(Xor(Xor(
      Tap(Bit0(b), 0x3b6a57b2),
      Tap(Bit1(b), 0x26508e6d)),
      Tap(Bit2(b), 0x1ea119fa)),
      Tap(Bit3(b), 0x3d4233dd)),
      Tap(Bit4(b), 0x2a1462b3))
  }

  lemma TapsGenerator(c: bv32)
    requires IsSymbol(c)
    ensures Taps(c) == Pack(TimesGenerator(c))
  {
    if c < 8 {
    } else if c < 16 {
    } else if c < 24 {
    }
  }

  lemma StepTaps(x: bv32)
    ensures Step(x) == Xor(Shifted(x), Taps(x >> 25))
  {
    hide Xor, Tap, Shifted, Bit0, Bit1, Bit2, Bit3, Bit4;
    var b := x >> 25;
    XorSix(Shifted(x), Tap(Bit0(b), 0x3b6a57b2), Tap(Bit1(b), 0x26508e6d), Tap(Bit2(b), 0x1ea119fa),
           Tap(Bit3(b), 0x3d4233dd), Tap(Bit4(b), 0x2a1462b3));
  }

  lemma XorSix(s: bv32, a: bv32, b: bv32, c: bv32, d: bv32, e: bv32)
    ensures Xor(Xor(Xor(Xor(Xor(s, a), b), c), d), e) == Xor(s, Xor(Xor(Xor(Xor(a, b), c), d), e))
  {
    hide Xor;
    XorAssociates(s, a, b);
    XorAssociates(s, Xor(a, b), c);
    XorAssociates(s, Xor(Xor(a, b), c), d);
    XorAssociates(s, Xor(Xor(Xor(a, b), c), d), e);
  }

  lemma ShiftPacked(c: seq<bv32>)
    requires |c| == 6 && Symbols(c)
    ensures Pack(c) >> 25 == c[0]
    ensures Shifted(Pack(c)) == Pack([c[1], c[2], c[3], c[4], c[5], 0])
  {
  }

  /** A step multiplies the polynomial in the register by x and reduces it by the generator: the symbol shifted
      out, times the generator, is subtracted from the rest. */
  lemma StepDivides(c: seq<bv32>)
    requires |c| == 6 && Symbols(c)
    ensures Step(Pack(c)) == Xor(Pack([c[1], c[2], c[3], c[4], c[5], 0]), Pack(TimesGenerator(c[0])))
  {
    hide Step, Taps, Pack, TimesGenerator, Xor;
    StepTaps(Pack(c));
    ShiftPacked(c);
    TapsGenerator(c[0]);
  }
}
