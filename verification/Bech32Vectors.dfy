/** Known strings of BIP 173 and BIP 350 (their sections "Test vectors"): they fix the generators, the final
    constants, the character set and the way the human-readable part is fed to the register. */
module Bech32Vectors {
  import opened Polymod
  import opened Bech32

  /** One more symbol. */
  lemma Next(start: bv32, vs: seq<bv32>, v: bv32, before: bv32, after: bv32)
    requires Feed(start, vs) == before && Xor(Step(before), v) == after
    ensures Feed(start, vs + [v]) == after
  {
    FeedSnoc(start, vs, v);
  }

  lemma NoSymbols(start: bv32)
    ensures Feed(start, []) == start
  {
  }

  /** The characters of six symbols. */
  lemma CheckText(c: seq<bv32>, d: seq<nat>, text: string)
    requires |c| == |d| == |text| == 6 && Symbols(c) && IsData(d)
    requires forall i | 0 <= i < 6 :: c[i] as nat == d[i] && CharAt(d[i]) == text[i]
    ensures Chars(Ints(c)) == text
  {
    hide CharAt;
    assert Ints(c) == d;
  }

  // ---------------------------------------------------------------- the part "a" without data

  lemma PartA()
    ensures Feed(0x1, [3, 0, 1]) == 0x8c01
  {
    hide Feed;
    var s: seq<bv32> := [];
    NoSymbols(0x1);
    Next(0x1, s, 3, 0x1, 0x23);
    s := s + [3];
    Next(0x1, s, 0, 0x23, 0x460);
    s := s + [0];
    Next(0x1, s, 1, 0x460, 0x8c01);
    s := s + [1];
    assert s == [3, 0, 1];
  }

  lemma ZerosA()
    ensures Feed(0x8c01, Zero(6)) == 0x15ccfe9e
  {
    hide Feed;
    var s: seq<bv32> := [];
    NoSymbols(0x8c01);
    Next(0x8c01, s, 0, 0x8c01, 0x118020);
    s := s + [0];
    Next(0x8c01, s, 0, 0x118020, 0x2300400);
    s := s + [0];
    Next(0x8c01, s, 0, 0x2300400, 0x3d6ad7b2);
    s := s + [0];
    Next(0x8c01, s, 0, 0x3d6ad7b2, 0x2fd30b9);
    s := s + [0];
    Next(0x8c01, s, 0, 0x2fd30b9, 0x24cc4092);
    s := s + [0];
    Next(0x8c01, s, 0, 0x24cc4092, 0x15ccfe9e);
    s := s + [0];
    assert s == Zero(6);
  }

  lemma StateA()
    ensures HrpState("a") == 0x8c01
  {
    hide Feed;
    PartA();
    assert High("a") == [3] && Low("a") == [1];
    assert High("a") + [0] + Low("a") == [3, 0, 1];
  }

  lemma ChecksumBech32()
    ensures IsHrp("a") && DataChecksum("a", [], EncBech32) == [10, 28, 25, 31, 20, 31]
  {
    hide Feed, HrpState, Step;
    StateA();
    ZerosA();
    assert Syms([]) == [];
    NoSymbols(0x8c01);
  }

  lemma VectorBech32()
    ensures IsHrp("a") && EncodeText("a", [], EncBech32) == "a12uel5l"
  {
    hide DataChecksum, CharAt;
    ChecksumBech32();
    CharsBech32();
    CheckText([10, 28, 25, 31, 20, 31], [10, 28, 25, 31, 20, 31], "2uel5l");
    assert Chars([]) == "";
  }

  lemma CharsBech32()
    ensures CharAt(10) == '2' && CharAt(20) == '5' && CharAt(25) == 'e' && CharAt(28) == 'u' && CharAt(31) == 'l'
  {
  }

  lemma ChecksumBech32m()
    ensures IsHrp("a") && DataChecksum("a", [], EncBech32m) == [31, 0, 9, 19, 17, 29]
  {
    hide Feed, HrpState, Step;
    StateA();
    ZerosA();
    assert Syms([]) == [];
    NoSymbols(0x8c01);
  }

  lemma VectorBech32m()
    ensures IsHrp("a") && EncodeText("a", [], EncBech32m) == "a1lqfn3a"
  {
    hide DataChecksum, CharAt;
    ChecksumBech32m();
    CharsBech32m();
    CheckText([31, 0, 9, 19, 17, 29], [31, 0, 9, 19, 17, 29], "lqfn3a");
    assert Chars([]) == "";
  }

  lemma CharsBech32m()
    ensures CharAt(0) == 'q' && CharAt(9) == 'f' && CharAt(17) == '3' && CharAt(19) == 'n' && CharAt(29) == 'a' && CharAt(31) == 'l'
  {
  }

  // ---------------------------------------------------------------- the part "abcdef" with every symbol once

  lemma PartAbcdef()
    ensures Feed(0x1, [3, 3, 3, 3, 3, 3, 0, 1, 2, 3, 4, 5, 6]) == 0x3be80e6a
  {
    hide Feed;
    var s: seq<bv32> := [];
    NoSymbols(0x1);
    Next(0x1, s, 3, 0x1, 0x23);
    s := s + [3];
    Next(0x1, s, 3, 0x23, 0x463);
    s := s + [3];
    Next(0x1, s, 3, 0x463, 0x8c63);
    s := s + [3];
    Next(0x1, s, 3, 0x8c63, 0x118c63);
    s := s + [3];
    Next(0x1, s, 3, 0x118c63, 0x2318c63);
    s := s + [3];
    Next(0x1, s, 3, 0x2318c63, 0x3d5bdbd1);
    s := s + [3];
    Next(0x1, s, 0, 0x3d5bdbd1, 0x4dcbcd9);
    s := s + [0];
    Next(0x1, s, 1, 0x4dcbcd9, 0x3dc7154c);
    s := s + [1];
    Next(0x1, s, 2, 0x3dc7154c, 0x17456f7b);
    s := s + [2];
    Next(0x1, s, 3, 0x17456f7b, 0x8d50561);
    s := s + [3];
    Next(0x1, s, 4, 0x8d50561, 0x401b5de);
    s := s + [4];
    Next(0x1, s, 5, 0x401b5de, 0x266635a8);
    s := s + [5];
    Next(0x1, s, 6, 0x266635a8, 0x3be80e6a);
    s := s + [6];
    assert s == [3, 3, 3, 3, 3, 3, 0, 1, 2, 3, 4, 5, 6];
  }

  lemma Data0()
    ensures Feed(0x3be80e6a, [0, 1, 2, 3, 4, 5, 6, 7, 8, 9, 10]) == 0x2e301b62
  {
    hide Feed;
    var s: seq<bv32> := [];
    NoSymbols(0x3be80e6a);
    Next(0x3be80e6a, s, 0, 0x3be80e6a, 0xf9cd266);
    s := s + [0];
    Next(0x3be80e6a, s, 1, 0xf9cd266, 0x30018ce4);
    s := s + [1];
    Next(0x3be80e6a, s, 2, 0x30018ce4, 0x1767cdec);
    s := s + [2];
    Next(0x3be80e6a, s, 3, 0x1767cdec, 0xc815781);
    s := s + [3];
    Next(0x3be80e6a, s, 4, 0xc815781, 0x28db67b3);
    s := s + [4];
    Next(0x3be80e6a, s, 5, 0x28db67b3, 0x2fd98d2c);
    s := s + [5];
    Next(0x3be80e6a, s, 6, 0x2fd98d2c, 0x12be0710);
    s := s + [6];
    Next(0x3be80e6a, s, 7, 0x12be0710, 0x11e88668);
    s := s + [7];
    Next(0x3be80e6a, s, 8, 0x11e88668, 0x52fed5);
    s := s + [8];
    Next(0x3be80e6a, s, 9, 0x52fed5, 0xa5fdaa9);
    s := s + [9];
    Next(0x3be80e6a, s, 10, 0xa5fdaa9, 0x2e301b62);
    s := s + [10];
    assert s == [0, 1, 2, 3, 4, 5, 6, 7, 8, 9, 10];
  }

  lemma Data1()
    ensures Feed(0x2e301b62, [11, 12, 13, 14, 15, 16, 17, 18, 19, 20, 21]) == 0x556e704
  {
    hide Feed;
    var s: seq<bv32> := [];
    NoSymbols(0x2e301b62);
    Next(0x2e301b62, s, 11, 0x2e301b62, 0x2f8ccedd);
    s := s + [11];
    Next(0x2e301b62, s, 12, 0x2f8ccedd, 0x1816793a);
    s := s + [12];
    Next(0x2e301b62, s, 13, 0x1816793a, 0x212c0d6a);
    s := s + [13];
    Next(0x2e301b62, s, 14, 0x212c0d6a, 0xf95cffd);
    s := s + [14];
    Next(0x2e301b62, s, 15, 0xf95cffd, 0x31223f8a);
    s := s + [15];
    Next(0x2e301b62, s, 16, 0x31223f8a, 0x3311a03e);
    s := s + [16];
    Next(0x2e301b62, s, 17, 0x3311a03e, 0xe08010d);
    s := s + [17];
    Next(0x2e301b62, s, 18, 0xe08010d, 0x29be197);
    s := s + [18];
    Next(0x2e301b62, s, 19, 0x29be197, 0x28166541);
    s := s + [19];
    Next(0x2e301b62, s, 20, 0x28166541, 0x3679d37d);
    s := s + [20];
    Next(0x2e301b62, s, 21, 0x3679d37d, 0x556e704);
    s := s + [21];
    assert s == [11, 12, 13, 14, 15, 16, 17, 18, 19, 20, 21];
  }

  lemma Data2()
    ensures Feed(0x556e704, [22, 23, 24, 25, 26, 27, 28, 29, 30, 31]) == 0x1a0d3656
  {
    hide Feed;
    var s: seq<bv32> := [];
    NoSymbols(0x556e704);
    Next(0x556e704, s, 22, 0x556e704, 0xc8c6efb);
    s := s + [22];
    Next(0x556e704, s, 23, 0xc8c6efb, 0x297c48e0);
    s := s + [23];
    Next(0x556e704, s, 24, 0x297c48e0, 0x1b3c6751);
    s := s + [24];
    Next(0x556e704, s, 25, 0x1b3c6751, 0x3f0597ac);
    s := s + [25];
    Next(0x556e704, s, 26, 0x3f0597ac, 0x347f64d1);
    s := s + [26];
    Next(0x556e704, s, 27, 0x347f64d1, 0x3eea4538);
    s := s + [27];
    Next(0x556e704, s, 28, 0x3eea4538, 0x9853657);
    s := s + [28];
    Next(0x556e704, s, 29, 0x9853657, 0x2e07d307);
    s := s + [29];
    Next(0x556e704, s, 30, 0x2e07d307, 0x2975c268);
    s := s + [30];
    Next(0x556e704, s, 31, 0x2975c268, 0x1a0d3656);
    s := s + [31];
    assert s == [22, 23, 24, 25, 26, 27, 28, 29, 30, 31];
  }

  lemma ZerosAbcdef()
    ensures Feed(0x1a0d3656, Zero(6)) == 0x360000cf
  {
    hide Feed;
    var s: seq<bv32> := [];
    NoSymbols(0x1a0d3656);
    Next(0x1a0d3656, s, 0, 0x1a0d3656, 0x192fb755);
    s := s + [0];
    Next(0x1a0d3656, s, 0, 0x192fb755, 0x615c087);
    s := s + [0];
    Next(0x1a0d3656, s, 0, 0x615c087, 0x1f82c93f);
    s := s + [0];
    Next(0x1a0d3656, s, 0, 0x1f82c93f, 0xe80d418);
    s := s + [0];
    Next(0x1a0d3656, s, 0, 0xe80d418, 0x13814325);
    s := s + [0];
    Next(0x1a0d3656, s, 0, 0x13814325, 0x360000cf);
    s := s + [0];
    assert s == Zero(6);
  }

  lemma StateAbcdef()
    ensures HrpState("abcdef") == 0x3be80e6a
  {
    hide Feed;
    PartAbcdef();
    assert High("abcdef") == [3, 3, 3, 3, 3, 3];
    assert Low("abcdef") == [1, 2, 3, 4, 5, 6];
    assert High("abcdef") + [0] + Low("abcdef") == [3, 3, 3, 3, 3, 3, 0, 1, 2, 3, 4, 5, 6];
  }

  /** The symbols from `from` on, in order. */
  function Ascending(from: nat, count: nat): (d: seq<nat>)
    requires from + count <= 32
    ensures |d| == count && IsData(d)
  {
    seq(count, i requires 0 <= i < count => from + i)
  }

  lemma AscendingSyms()
    ensures Syms(Ascending(0, 11)) == [0, 1, 2, 3, 4, 5, 6, 7, 8, 9, 10]
    ensures Syms(Ascending(11, 11)) == [11, 12, 13, 14, 15, 16, 17, 18, 19, 20, 21]
    ensures Syms(Ascending(22, 10)) == [22, 23, 24, 25, 26, 27, 28, 29, 30, 31]
  {
  }

  /** The register after the part and all 32 symbols. */
  lemma AllData()
    ensures Feed(HrpState("abcdef"), Syms(Ascending(0, 32))) == 0x1a0d3656
  {
    hide Feed, HrpState, Sym;
    StateAbcdef();
    AscendingSyms();
    Data0();
    Data1();
    Data2();
    var a, b, c := Syms(Ascending(0, 11)), Syms(Ascending(11, 11)), Syms(Ascending(22, 10));
    assert Syms(Ascending(0, 32)) == (a + b) + c;
    FeedConcat(0x3be80e6a, a, b);
    FeedConcat(0x3be80e6a, a + b, c);
  }

  lemma ChecksumAbcdef()
    ensures IsHrp("abcdef")
    ensures DataChecksum("abcdef", Ascending(0, 32), EncBech32) == [27, 0, 0, 0, 6, 14]
  {
    hide Feed, HrpState, Step, Ascending;
    AllData();
    ZerosAbcdef();
  }

  /** Every symbol appears, in the order of the character set. */
  lemma VectorAllSymbols()
    ensures IsHrp("abcdef")
    ensures EncodeText("abcdef", Ascending(0, 32), EncBech32)
         == "abcdef" + "1" + "qpzry9x8gf2tvdw0s3jn54khce6mua7l" + "mqqqxw"
  {
    hide DataChecksum, CharAt, Ascending, Chars;
    ChecksumAbcdef();
    CheckAbcdef();
    CheckText([27, 0, 0, 0, 6, 14], [27, 0, 0, 0, 6, 14], "mqqqxw");
    AscendingChars();
  }

  lemma CheckAbcdef()
    ensures CharAt(0) == 'q' && CharAt(6) == 'x' && CharAt(14) == 'w' && CharAt(27) == 'm'
  {
  }

  lemma AscendingChars()
    ensures Chars(Ascending(0, 32)) == "qpzry9x8gf2tvdw0s3jn54khce6mua7l"
  {
  }
}
