/** src/segwit_addr.c, the checksum: a linear feedback shift register over five-bit symbols, as in
    section "Bech32" of BIP 173. */
module Polymod {

  function Xor(x: bv32, y: bv32): bv32 { x ^ y }

  /** A five-bit symbol. */
  predicate IsSymbol(v: bv32) { v < 32 }

  /** A register state: 30 bits. */
  predicate IsState(x: bv32) { x < 0x40000000 }

  lemma XorLaws(x: bv32, y: bv32)
    ensures Xor(x, x) == 0 && Xor(x, 0) == x && Xor(0, x) == x
    ensures Xor(x, y) == 0 <==> x == y
    ensures Xor(x, Xor(x, y)) == y
  {
    hide Xor;
    XorUnits(x);
    XorUnits(y);
    XorAssociates(x, x, y);
  }

  lemma XorUnits(x: bv32)
    ensures Xor(x, x) == 0 && Xor(x, 0) == x && Xor(0, x) == x
  {
  }

  lemma XorCommutes(x: bv32, y: bv32)
    ensures Xor(x, y) == Xor(y, x)
  {
  }

  lemma XorSmall(x: bv32, y: bv32)
    ensures IsState(x) && IsState(y) ==> IsState(Xor(x, y))
    ensures IsSymbol(x) && IsSymbol(y) ==> IsSymbol(Xor(x, y))
    ensures IsSymbol(y) ==> IsState(y)
    ensures IsSymbol(0) && IsState(0)
  {
  }

  lemma XorAssociates(a: bv32, b: bv32, c: bv32)
    ensures Xor(Xor(a, b), c) == Xor(a, Xor(b, c))
  {
  }

  lemma XorFour(a: bv32, b: bv32, c: bv32, d: bv32)
    ensures Xor(Xor(a, b), Xor(c, d)) == Xor(Xor(a, c), Xor(b, d))
  {
    hide Xor;
    XorAssociates(Xor(a, b), c, d);
    XorAssociates(a, b, c);
    XorCommutes(b, c);
    XorAssociates(a, c, b);
    XorAssociates(Xor(a, c), b, d);
  }

  function Shifted(pre: bv32): bv32 { (pre & 0x1FFFFFF) << 5 }

  // The five bits that are shifted out.

  function Bit0(b: bv32): bv32 { (b >> 0) & 1 }

  function Bit1(b: bv32): bv32 { (b >> 1) & 1 }

  function Bit2(b: bv32): bv32 { (b >> 2) & 1 }

  function Bit3(b: bv32): bv32 { (b >> 3) & 1 }

  function Bit4(b: bv32): bv32 { (b >> 4) & 1 }

  /** -bit & generator */
  function Tap(bit: bv32, generator: bv32): bv32 { (0 - bit) & generator }

  /** bech32_polymod_step */
  function Step(pre: bv32): bv32 {
    var b := pre >> 25;
    Xor(Xor(Xor(Xor(Xor(Shifted(pre),
      Tap(Bit0(b), 0x3b6a57b2)),
      Tap(Bit1(b), 0x26508e6d)),
      Tap(Bit2(b), 0x1ea119fa)),
      Tap(Bit3(b), 0x3d4233dd)),
      Tap(Bit4(b), 0x2a1462b3))
  }

  lemma ShiftedLinear(x: bv32, y: bv32)
    ensures Shifted(Xor(x, y)) == Xor(Shifted(x), Shifted(y))
  {
  }

  lemma Shift25Linear(x: bv32, y: bv32)
    ensures Xor(x, y) >> 25 == Xor(x >> 25, y >> 25)
  {
  }

  predicate IsBit(x: bv32) { x == 0 || x == 1 }

  lemma Bit0Linear(x: bv32, y: bv32)
    ensures Bit0(Xor(x, y)) == Xor(Bit0(x), Bit0(y))
  {
  }

  lemma Bit1Linear(x: bv32, y: bv32)
    ensures Bit1(Xor(x, y)) == Xor(Bit1(x), Bit1(y))
  {
  }

  lemma Bit2Linear(x: bv32, y: bv32)
    ensures Bit2(Xor(x, y)) == Xor(Bit2(x), Bit2(y))
  {
  }

  lemma Bit3Linear(x: bv32, y: bv32)
    ensures Bit3(Xor(x, y)) == Xor(Bit3(x), Bit3(y))
  {
  }

  lemma Bit4Linear(x: bv32, y: bv32)
    ensures Bit4(Xor(x, y)) == Xor(Bit4(x), Bit4(y))
  {
  }

  lemma AreBits(b: bv32)
    ensures IsBit(Bit0(b)) && IsBit(Bit1(b)) && IsBit(Bit2(b)) && IsBit(Bit3(b)) && IsBit(Bit4(b))
  {
  }

  lemma TapLinear(x: bv32, y: bv32, g: bv32)
    requires IsBit(x) && IsBit(y)
    ensures Tap(Xor(x, y), g) == Xor(Tap(x, g), Tap(y, g))
  {
    if x == 0 {
    } else if y == 0 {
    } else {
    }
  }

  lemma XorRegroup(a: bv32, b: bv32, c: bv32, d: bv32, e: bv32, f: bv32,
                   a': bv32, b': bv32, c': bv32, d': bv32, e': bv32, f': bv32)
    ensures Xor(Xor(Xor(Xor(Xor(Xor(a, a'), Xor(b, b')), Xor(c, c')), Xor(d, d')), Xor(e, e')), Xor(f, f'))
         == Xor(Xor(Xor(Xor(Xor(Xor(a, b), c), d), e), f), Xor(Xor(Xor(Xor(Xor(a', b'), c'), d'), e'), f'))
  {
    hide Xor;
    XorFour(a, a', b, b');
    XorFour(Xor(a, b), Xor(a', b'), c, c');
    XorFour(Xor(Xor(a, b), c), Xor(Xor(a', b'), c'), d, d');
    XorFour(Xor(Xor(Xor(a, b), c), d), Xor(Xor(Xor(a', b'), c'), d'), e, e');
    XorFour(Xor(Xor(Xor(Xor(a, b), c), d), e), Xor(Xor(Xor(Xor(a', b'), c'), d'), e'), f, f');
  }

  /** A step is linear over GF(2). */
  lemma StepLinear(x: bv32, y: bv32)
    ensures Step(Xor(x, y)) == Xor(Step(x), Step(y))
  {
    hide Xor, Tap, Bit0, Bit1, Bit2, Bit3, Bit4, Shifted, IsBit;
    var p, q := x >> 25, y >> 25;
    ShiftedLinear(x, y);
    Shift25Linear(x, y);
    AreBits(p);
    AreBits(q);
    Bit0Linear(p, q);
    Bit1Linear(p, q);
    Bit2Linear(p, q);
    Bit3Linear(p, q);
    Bit4Linear(p, q);
    TapLinear(Bit0(p), Bit0(q), 0x3b6a57b2);
    TapLinear(Bit1(p), Bit1(q), 0x26508e6d);
    TapLinear(Bit2(p), Bit2(q), 0x1ea119fa);
    TapLinear(Bit3(p), Bit3(q), 0x3d4233dd);
    TapLinear(Bit4(p), Bit4(q), 0x2a1462b3);
    XorRegroup(Shifted(x), Tap(Bit0(p), 0x3b6a57b2), Tap(Bit1(p), 0x26508e6d), Tap(Bit2(p), 0x1ea119fa),
               Tap(Bit3(p), 0x3d4233dd), Tap(Bit4(p), 0x2a1462b3),
               Shifted(y), Tap(Bit0(q), 0x3b6a57b2), Tap(Bit1(q), 0x26508e6d), Tap(Bit2(q), 0x1ea119fa),
               Tap(Bit3(q), 0x3d4233dd), Tap(Bit4(q), 0x2a1462b3));
  }

  /** A step keeps 30 bits and loses no information about them. */
  lemma StepKernel(x: bv32)
    requires IsState(x)
    ensures IsState(Step(x))
    ensures Step(x) == 0 <==> x == 0
  {
  }

  // ---------------------------------------------------------------- feeding symbols

  predicate Symbols(vs: seq<bv32>) {
    forall i | 0 <= i < |vs| :: IsSymbol(vs[i])
  }

  /** The register after the symbols. */
  function Feed(state: bv32, vs: seq<bv32>): bv32 {
    if vs == [] then state else Xor(Step(Feed(state, vs[..|vs| - 1])), vs[|vs| - 1])
  }

  lemma FeedSnoc(state: bv32, vs: seq<bv32>, v: bv32)
    ensures Feed(state, vs + [v]) == Xor(Step(Feed(state, vs)), v)
  {
  }

  lemma {:induction false} FeedConcat(state: bv32, vs: seq<bv32>, ws: seq<bv32>)
    ensures Feed(state, vs + ws) == Feed(Feed(state, vs), ws)
  {
    hide Step, Xor, IsSymbol, IsState;
    if ws == [] {
      assert vs + ws == vs;
    } else {
      var k := |ws| - 1;
      assert vs + ws == (vs + ws[..k]) + [ws[k]];
      FeedConcat(state, vs, ws[..k]);
      FeedSnoc(state, vs + ws[..k], ws[k]);
    }
  }

  lemma FeedBound(state: bv32, vs: seq<bv32>)
    requires IsState(state) && Symbols(vs)
    ensures IsState(Feed(state, vs))
  {
  }

  function XorSeq(vs: seq<bv32>, ws: seq<bv32>): (xs: seq<bv32>)
    requires |vs| == |ws|
    ensures |xs| == |vs|
    ensures Symbols(vs) && Symbols(ws) ==> Symbols(xs)
  {
    if vs == [] then []
    else
      var k := |vs| - 1;
      XorSmall(vs[k], ws[k]);
      XorSeq(vs[..k], ws[..k]) + [Xor(vs[k], ws[k])]
  }

  /** The register is linear over GF(2), in its state and in its input. */
  lemma {:induction false} FeedLinear(x: bv32, y: bv32, vs: seq<bv32>, ws: seq<bv32>)
    requires |vs| == |ws|
    ensures Feed(Xor(x, y), XorSeq(vs, ws)) == Xor(Feed(x, vs), Feed(y, ws))
  {
    hide Step, Xor, IsSymbol, IsState;
    if vs != [] {
      var k := |vs| - 1;
      FeedLinear(x, y, vs[..k], ws[..k]);
      FeedSnoc(Xor(x, y), XorSeq(vs[..k], ws[..k]), Xor(vs[k], ws[k]));
      var p, q := Feed(x, vs[..k]), Feed(y, ws[..k]);
      StepLinear(p, q);
      XorFour(Step(p), Step(q), vs[k], ws[k]);
    }
  }

  function Zero(n: nat): (zs: seq<bv32>)
    ensures |zs| == n && Symbols(zs) && forall i | 0 <= i < n :: zs[i] == 0
  {
    seq(n, _ => 0)
  }

  lemma {:induction false} XorZero(vs: seq<bv32>)
    ensures XorSeq(Zero(|vs|), vs) == vs
    ensures XorSeq(vs, vs) == Zero(|vs|)
  {
    hide Xor, Symbols;
    if vs != [] {
      var k := |vs| - 1;
      XorZero(vs[..k]);
      XorLaws(vs[k], vs[k]);
      ZeroSnoc(k);
      assert vs == vs[..k] + [vs[k]];
    }
  }

  lemma ZeroSnoc(k: nat)
    ensures Zero(k + 1) == Zero(k) + [0]
    ensures Zero(k + 1)[..k] == Zero(k)
  {
  }

  /** What a state contributes and what the symbols contribute can be separated. */
  lemma FeedSplit(state: bv32, vs: seq<bv32>)
    ensures Feed(state, vs) == Xor(Feed(state, Zero(|vs|)), Feed(0, vs))
  {
    hide Feed, XorSeq, Xor, IsSymbol, IsState;
    FeedLinear(state, 0, Zero(|vs|), vs);
    XorZero(vs);
    XorLaws(state, 0);
  }

  // ---------------------------------------------------------------- six symbols

  function Pack(c: seq<bv32>): bv32
    requires |c| == 6
  {
    (c[0] << 25) ^ (c[1] << 20) ^ (c[2] << 15) ^ (c[3] << 10) ^ (c[4] << 5) ^ c[5]
  }

  function Unpack(chk: bv32): (c: seq<bv32>)
    ensures |c| == 6 && Symbols(c)
  {
    [(chk >> 25) & 0x1f, (chk >> 20) & 0x1f, (chk >> 15) & 0x1f, (chk >> 10) & 0x1f, (chk >> 5) & 0x1f, chk & 0x1f]
  }

  lemma PackUnpack(chk: bv32)
    requires IsState(chk)
    ensures Pack(Unpack(chk)) == chk
  {
  }

  lemma UnpackPack(c: seq<bv32>)
    requires |c| == 6 && Symbols(c)
    ensures Unpack(Pack(c)) == c
    ensures IsState(Pack(c))
    ensures Pack(c) == 0 ==> c == Zero(6)
  {
  }

  /** Appending a symbol below the others. */
  function Append(x: bv32, v: bv32): bv32 { Xor(x << 5, v) }

  /** Only the last k symbols of the register are used. */
  predicate Fits(x: bv32, k: nat) {
    if k == 0 then x == 0
    else if k == 1 then x < 0x20
    else if k == 2 then x < 0x400
    else if k == 3 then x < 0x8000
    else if k == 4 then x < 0x100000
    else if k == 5 then x < 0x2000000
    else true
  }

  lemma AppendFits(x: bv32, v: bv32, k: nat)
    requires Fits(x, k) && IsSymbol(v)
    ensures Fits(Append(x, v), k + 1)
  {
  }

  lemma AppendSix(a: bv32, b: bv32, c: bv32, d: bv32, e: bv32, f: bv32)
    ensures Append(Append(Append(Append(Append(Append(0, a), b), c), d), e), f) == Pack([a, b, c, d, e, f])
  {
  }

  lemma TopClear(x: bv32, k: nat)
    requires Fits(x, k) && k <= 5
    ensures x < 0x2000000
  {
  }

  lemma ShortShift(x: bv32)
    requires x < 0x2000000
    ensures Shifted(x) == x << 5
    ensures x >> 25 == 0
  {
  }

  lemma NoTaps(g: bv32)
    ensures Tap(Bit0(0), g) == 0 && Tap(Bit1(0), g) == 0 && Tap(Bit2(0), g) == 0
    ensures Tap(Bit3(0), g) == 0 && Tap(Bit4(0), g) == 0
  {
  }

  /** Nothing is folded back while the top five bits are clear. */
  lemma StepShort(x: bv32, v: bv32, k: nat)
    requires Fits(x, k) && k <= 5
    ensures Xor(Step(x), v) == Append(x, v)
  {
    hide Xor, Tap, Bit0, Bit1, Bit2, Bit3, Bit4, Shifted, Fits;
    TopClear(x, k);
    ShortShift(x);
    NoTaps(0x3b6a57b2);
    NoTaps(0x26508e6d);
    NoTaps(0x1ea119fa);
    NoTaps(0x3d4233dd);
    NoTaps(0x2a1462b3);
    XorLaws(Shifted(x), 0);
  }

  lemma FeedShort(vs: seq<bv32>, v: bv32, k: nat)
    requires IsSymbol(v) && Fits(Feed(0, vs), k) && k <= 5
    ensures Feed(0, vs + [v]) == Append(Feed(0, vs), v)
    ensures Fits(Append(Feed(0, vs), v), k + 1)
  {
    hide Step, Feed, Xor, Append, Fits, IsSymbol;
    FeedSnoc(0, vs, v);
    StepShort(Feed(0, vs), v, k);
    AppendFits(Feed(0, vs), v, k);
  }

  lemma FeedThree(vs: seq<bv32>, a: bv32, b: bv32, c: bv32, k: nat)
    requires IsSymbol(a) && IsSymbol(b) && IsSymbol(c) && Fits(Feed(0, vs), k) && k <= 3
    ensures Feed(0, vs + [a, b, c]) == Append(Append(Append(Feed(0, vs), a), b), c)
    ensures Fits(Feed(0, vs + [a, b, c]), k + 3)
  {
    hide Step, Feed, Xor, Append, Fits, IsSymbol;
    var va := vs + [a];
    var vb := va + [b];
    assert vs + [a, b, c] == vb + [c];
    FeedShort(vs, a, k);
    FeedShort(va, b, k + 1);
    FeedShort(vb, c, k + 2);
  }

  /** Six symbols fed to an empty register stay there unchanged. */
  lemma FeedSix(c: seq<bv32>)
    requires |c| == 6 && Symbols(c)
    ensures Feed(0, c) == Pack(c)
  {
    hide Step, Feed, Xor, Append, Fits, Pack, IsSymbol;
    var half := [] + [c[0], c[1], c[2]];
    assert c == half + [c[3], c[4], c[5]];
    assert c == [c[0], c[1], c[2], c[3], c[4], c[5]];
    FitsZero();
    FeedThree([], c[0], c[1], c[2], 0);
    FeedThree(half, c[3], c[4], c[5], 3);
    AppendSix(c[0], c[1], c[2], c[3], c[4], c[5]);
  }

  lemma FitsZero()
    ensures Feed(0, []) == 0 && Fits(0, 0)
  {
  }

  // ---------------------------------------------------------------- checksums

  /** The six symbols that bring the register to the target. */
  function Checksum(state: bv32, target: bv32): (c: seq<bv32>)
    ensures |c| == 6 && Symbols(c)
  {
    Unpack(Xor(Feed(state, Zero(6)), target))
  }

  /** A checksum is right exactly when it is the computed one. */
  lemma ChecksumUnique(state: bv32, target: bv32, c: seq<bv32>)
    requires IsState(state) && IsState(target)
    requires |c| == 6 && Symbols(c)
    ensures Feed(state, c) == target <==> c == Checksum(state, target)
  {
    hide Feed, Pack, Unpack, Xor, IsSymbol, IsState;
    var f := Feed(state, Zero(6));
    FeedSplit(state, c);
    FeedSix(c);
    FeedBound(state, Zero(6));
    XorSmall(f, target);
    PackUnpack(Xor(f, target));
    UnpackPack(c);
    XorLaws(f, target);
    XorLaws(f, Pack(c));
  }

  lemma {:induction false} FeedZerosNonzero(x: bv32, n: nat)
    requires IsState(x) && x != 0
    ensures Feed(x, Zero(n)) != 0 && IsState(Feed(x, Zero(n)))
  {
    hide Step, Xor, IsSymbol, IsState;
    if n > 0 {
      FeedZerosNonzero(x, n - 1);
      assert Zero(n)[..n - 1] == Zero(n - 1);
      StepKernel(Feed(x, Zero(n - 1)));
      XorLaws(Step(Feed(x, Zero(n - 1))), 0);
    }
  }

  lemma {:induction false} FeedZeroState(n: nat)
    ensures Feed(0, Zero(n)) == 0
  {
    if n > 0 {
      FeedZeroState(n - 1);
      assert Zero(n)[..n - 1] == Zero(n - 1);
    }
  }

  function PadToSix(xs: seq<bv32>): (c: seq<bv32>)
    requires |xs| <= 6 && Symbols(xs)
    ensures |c| == 6 && Symbols(c)
    ensures xs != Zero(|xs|) ==> c != Zero(6)
  {
    hide IsSymbol;
    var c := Zero(6 - |xs|) + xs;
    assert c[6 - |xs|..] == xs && Zero(6)[6 - |xs|..] == Zero(|xs|);
    c
  }

  /** At most six symbols, not all zero, leave a non-empty register. */
  lemma ShortNonzero(xs: seq<bv32>)
    requires |xs| <= 6 && Symbols(xs) && xs != Zero(|xs|)
    ensures Feed(0, xs) != 0 && IsState(Feed(0, xs))
  {
    hide Feed, Pack, Unpack, Symbols, IsState;
    var c := PadToSix(xs);
    FeedConcat(0, Zero(6 - |xs|), xs);
    FeedZeroState(6 - |xs|);
    FeedSix(c);
    UnpackPack(c);
  }

  lemma {:induction false} XorSeqDiffers(a: seq<bv32>, b: seq<bv32>)
    requires |a| == |b| && a != b
    ensures XorSeq(a, b) != Zero(|a|)
  {
    hide Xor, IsSymbol;
    var k := |a| - 1;
    XorLaws(a[k], b[k]);
    assert a == a[..k] + [a[k]] && b == b[..k] + [b[k]];
    if a[..k] != b[..k] {
      XorSeqDiffers(a[..k], b[..k]);
      assert Zero(|a|)[..k] == Zero(k);
      assert XorSeq(a, b)[..k] == XorSeq(a[..k], b[..k]);
    } else {
      assert XorSeq(a, b)[k] != 0;
    }
  }

  /** Two symbol strings that differ only inside six consecutive symbols leave different registers. */
  lemma BurstDetected(state: bv32, before: seq<bv32>, a: seq<bv32>, b: seq<bv32>, after: seq<bv32>)
    requires |a| == |b| <= 6 && a != b && Symbols(a) && Symbols(b)
    ensures Feed(state, before + a + after) != Feed(state, before + b + after)
  {
    hide Feed, XorSeq, Xor, IsSymbol, IsState;
    FeedConcat(state, before + a, after);
    FeedConcat(state, before + b, after);
    FeedConcat(state, before, a);
    FeedConcat(state, before, b);
    var s := Feed(state, before);
    var x, y := Feed(s, a), Feed(s, b);
    FeedLinear(s, s, a, b);
    XorLaws(s, s);
    XorSeqDiffers(a, b);
    ShortNonzero(XorSeq(a, b));
    FeedLinear(x, y, after, after);
    XorZero(after);
    FeedZerosNonzero(Xor(x, y), |after|);
    XorLaws(x, y);
    XorLaws(Feed(x, after), Feed(y, after));
  }
}
