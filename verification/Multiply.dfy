/** evm/uint256.c, column multiplication.  Both widths split their operands in four limbs and sum the
    halves of the limb products column by column; only the final assembly differs. */
module Multiply {
  import opened Numerals
  import opened Words
  import opened UInt128
  import opened UInt256

  /** The number with limbs a0 (most significant) to a3 over radix r, s being r * r. */
  function Limbs4(a0: nat, a1: nat, a2: nat, a3: nat, r: nat, s: nat): nat {
    (a0 * r + a1) * s + (a2 * r + a3)
  }

  lemma PairProduct(a: nat, b: nat, c: nat, d: nat, r: nat, s: nat)
    requires s == r * r
    ensures (a * r + b) * (c * r + d) == (a * c) * s + (a * d + b * c) * r + b * d
  {
  }

  lemma SumColumns(x1: nat, y1: nat, z1: nat, x2: nat, y2: nat, z2: nat, r: nat, s: nat)
    ensures (x1 * s + y1 * r + z1) + (x2 * s + y2 * r + z2) == (x1 + x2) * s + (y1 + y2) * r + (z1 + z2)
  {
  }

  lemma JoinColumns(p: nat, q: nat, f: nat, s1: nat, s2: nat, t: nat, z: nat, r: nat, s: nat)
    ensures p * (s * s) + (q * s + f * r + s1) * s + (s2 * s + t * r + z)
         == (p + q) * (s * s) + f * (s * r) + (s1 + s2) * s + t * r + z
  {
  }

  lemma SquareProduct(a: nat, b: nat, c: nat, d: nat, s: nat)
    ensures (a * s + b) * (c * s + d) == (a * c) * (s * s) + (a * d + b * c) * s + b * d
  {
  }

  /** The schoolbook product, cut after the fourth column. */
  lemma ProductColumns(a0: nat, a1: nat, a2: nat, a3: nat, b0: nat, b1: nat, b2: nat, b3: nat, r: nat, s: nat)
    returns (k: nat)
    requires s == r * r
    ensures Limbs4(a0, a1, a2, a3, r, s) * Limbs4(b0, b1, b2, b3, r, s)
         == k * (s * s) + ((a0 * b3 + a1 * b2) + (a2 * b1 + a3 * b0)) * (s * r)
            + ((a1 * b3 + a3 * b1) + a2 * b2) * s + (a2 * b3 + a3 * b2) * r + a3 * b3
  {
    var a, b, c, d := a0 * r + a1, a2 * r + a3, b0 * r + b1, b2 * r + b3;
    SquareProduct(a, b, c, d, s);
    PairProduct(a2, a3, b2, b3, r, s);
    PairProduct(a0, a1, b2, b3, r, s);
    PairProduct(a2, a3, b0, b1, r, s);
    k := ProductCut(a * c, a * d, b * c, b * d, a0 * b2, a0 * b3 + a1 * b2, a1 * b3,
                    a2 * b0, a2 * b1 + a3 * b0, a3 * b1, a2 * b2, a2 * b3 + a3 * b2, a3 * b3, r, s);
  }

  lemma ProductCut(p: nat, ad: nat, bc: nat, bd: nat, x1: nat, y1: nat, z1: nat, x2: nat, y2: nat, z2: nat,
                   x3: nat, y3: nat, z3: nat, r: nat, s: nat) returns (k: nat)
    requires ad == x1 * s + y1 * r + z1 && bc == x2 * s + y2 * r + z2 && bd == x3 * s + y3 * r + z3
    ensures p * (s * s) + (ad + bc) * s + bd
         == k * (s * s) + (y1 + y2) * (s * r) + ((z1 + z2) + x3) * s + y3 * r + z3
  {
    SumColumns(x1, y1, z1, x2, y2, z2, r, s);
    JoinColumns(p, x1 + x2, y1 + y2, z1 + z2, x3, y3, z3, r, s);
    k := p + (x1 + x2);
  }

  function Lo(p: nat, r: nat): nat
    requires r > 0
  {
    p % r
  }

  function Hi(p: nat, r: nat): (h: nat)
    requires r > 0
  {
    QuotientBound(p, r);
    p / r
  }

  // Columns of a product of four-limb numbers after carrying each limb product's high half left.

  function Fourth(a: seq<nat>, b: seq<nat>, r: nat): nat
    requires |a| == |b| == 4 && r > 0
  {
    Lo(a[3] * b[3], r)
  }

  function Third(a: seq<nat>, b: seq<nat>, r: nat): nat
    requires |a| == |b| == 4 && r > 0
  {
    Lo(a[3] * b[2], r) + Hi(a[3] * b[3], r) + Lo(a[2] * b[3], r)
  }

  function Second(a: seq<nat>, b: seq<nat>, r: nat): nat
    requires |a| == |b| == 4 && r > 0
  {
    Lo(a[3] * b[1], r) + Hi(a[3] * b[2], r) + Lo(a[2] * b[2], r) + Hi(a[2] * b[3], r) + Lo(a[1] * b[3], r)
  }

  function First(a: seq<nat>, b: seq<nat>, r: nat): nat
    requires |a| == |b| == 4 && r > 0
  {
    Lo(a[3] * b[0], r) + Hi(a[3] * b[1], r) + Lo(a[2] * b[1], r) + Hi(a[2] * b[2], r)
    + Lo(a[1] * b[2], r) + Hi(a[1] * b[3], r) + Lo(a[0] * b[3], r)
  }

  function NumOf(a: seq<nat>, r: nat): nat
    requires |a| == 4
  {
    Limbs4(a[0], a[1], a[2], a[3], r, r * r)
  }

  lemma SplitProduct(p: nat, r: nat)
    requires r > 0
    ensures p == Hi(p, r) * r + Lo(p, r)
  {
  }

  /** Carrying the high halves one column to the left. */
  lemma CarryColumns(k: nat, f: nat, fh: nat, fl: nat, g: nat, gh: nat, gl: nat, t: nat, th: nat, tl: nat,
                     z: nat, zh: nat, zl: nat, r: nat, s: nat)
    requires s == r * r
    requires f == fh * r + fl && g == gh * r + gl && t == th * r + tl && z == zh * r + zl
    ensures k * (s * s) + f * (s * r) + g * s + t * r + z
         == (k + fh) * (s * s) + (fl + gh) * (s * r) + (gl + th) * s + (tl + zh) * r + zl
  {
  }

  lemma Sum2(p: nat, q: nat, r: nat)
    requires r > 0
    ensures p + q == (Hi(p, r) + Hi(q, r)) * r + (Lo(p, r) + Lo(q, r))
  {
  }

  lemma AddMul(x: nat, y: nat, r: nat)
    ensures (x + y) * r == x * r + y * r
  {
  }

  /** The product modulo r^4 is the value of the four columns. */
  lemma ColumnsValue(a: seq<nat>, b: seq<nat>, r: nat) returns (k: nat)
    requires |a| == |b| == 4 && r > 0
    ensures NumOf(a, r) * NumOf(b, r)
         == k * (r * r * (r * r)) + First(a, b, r) * (r * r * r) + Second(a, b, r) * (r * r) + Third(a, b, r) * r
            + Fourth(a, b, r)
  {
    hide Limbs4, Hi, Lo;
    var s := r * r;
    var k0 := ProductColumns(a[0], a[1], a[2], a[3], b[0], b[1], b[2], b[3], r, s);
    var p0, p1, p2, p3 := a[0] * b[3], a[1] * b[2], a[2] * b[1], a[3] * b[0];
    var q0, q1, q2 := a[1] * b[3], a[3] * b[1], a[2] * b[2];
    var t0, t1, z := a[2] * b[3], a[3] * b[2], a[3] * b[3];
    Sum2(p0, p1, r);
    Sum2(p2, p3, r);
    Sum2(q0, q1, r);
    Sum2(t0, t1, r);
    SplitProduct(q2, r);
    SplitProduct(z, r);
    AddMul(Hi(p0, r) + Hi(p1, r), Hi(p2, r) + Hi(p3, r), r);
    AddMul(Hi(q0, r) + Hi(q1, r), Hi(q2, r), r);
    var fh, fl := Hi(p0, r) + Hi(p1, r) + (Hi(p2, r) + Hi(p3, r)), Lo(p0, r) + Lo(p1, r) + (Lo(p2, r) + Lo(p3, r));
    var gh, gl := Hi(q0, r) + Hi(q1, r) + Hi(q2, r), Lo(q0, r) + Lo(q1, r) + Lo(q2, r);
    CarryColumns(k0, (p0 + p1) + (p2 + p3), fh, fl, (q0 + q1) + q2, gh, gl,
                 t0 + t1, Hi(t0, r) + Hi(t1, r), Lo(t0, r) + Lo(t1, r), z, Hi(z, r), Lo(z, r), r, s);
    k := k0 + fh;
    assert fl + gh == First(a, b, r);
    assert gl + (Hi(t0, r) + Hi(t1, r)) == Second(a, b, r);
    assert Lo(t0, r) + Lo(t1, r) + Hi(z, r) == Third(a, b, r);
  }

  // ---------------------------------------------------------------- 128 bits

  lemma SmallProduct(x: nat, y: nat, r: nat)
    requires x < r && y < r
    ensures x * y < r * r
    ensures Lo(x * y, r) < r && Hi(x * y, r) < r
  {
    MulMono(x, r, y);
    MulMono(y + 1, r, r);
    assert r * y + r <= r * r;
    DivBelow(x * y, r, r);
  }

  lemma WrapMultiple128(k: nat, x: nat)
    ensures Wrap128(k * TWO128 + x) == Wrap128(x)
  {
  }

  /** Shifting a column into place: the first column's overflow leaves the word, the third one's does not. */
  lemma PlaceColumns(first: u64, third: u64)
    ensures Wrap128(Join64(Shl64(first, 32), 0)) == Wrap128(first * 0x1_0000_0000_0000_0000_0000_0000)
    ensures Join64(Shr64(third, 32), Shl64(third, 32)) == third * TWO32
  {
    hide Pow, ShiftLeft, ShiftRight, Wrap128;
    PowersOfTwo();
    ShiftLeftMeaning(first, 32);
    ShiftLeftMeaning(third, 32);
    ShiftRightMeaning(third, 32);
    var f := first / TWO32;
    assert first * 0x1_0000_0000_0000_0000_0000_0000
        == f * TWO128 + Join64(Wrap64(first * TWO32), 0);
    WrapMultiple128(f, Join64(Wrap64(first * TWO32), 0));
  }

  /** What the final additions compute from the columns. */
  function Assembled128(first: u64, second: u64, third: u64, fourth: u64): nat {
    var high, low := Join64(Shl64(first, 32), 0), Join64(Shr64(third, 32), Shl64(third, 32));
    Wrap128(fourth + Wrap128(Join64(second, 0) + Wrap128(high + low)))
  }

  lemma Assemble128(first: u64, second: u64, third: u64, fourth: u64, k: nat, product: nat)
    requires product == k * TWO128 + first * (TWO32 * TWO32 * TWO32) + second * (TWO32 * TWO32) + third * TWO32 + fourth
    ensures Assembled128(first, second, third, fourth) == Wrap128(product)
  {
    hide Wrap128, Shl64, Shr64, Join64;
    var high, low := Join64(Shl64(first, 32), 0), Join64(Shr64(third, 32), Shl64(third, 32));
    PlaceColumns(first, third);
    var f := first * 0x1_0000_0000_0000_0000_0000_0000;
    WrapChain128(high, f, low, Join64(second, 0), fourth);
    WrapMultiple128(k, f + low + Join64(second, 0) + fourth);
    ColumnWeights(first, second);
  }

  lemma ColumnWeights(first: u64, second: u64)
    ensures first * (TWO32 * TWO32 * TWO32) == first * 0x1_0000_0000_0000_0000_0000_0000
    ensures second * (TWO32 * TWO32) == Join64(second, 0)
  {
  }

  lemma WrapChain128(high: int, f: int, low: int, second: int, fourth: int)
    requires Wrap128(high) == Wrap128(f)
    ensures Wrap128(fourth + Wrap128(second + Wrap128(high + low))) == Wrap128(f + low + second + fourth)
  {
  }

  function Halves(number: u64): (s: seq<limb32>)
    ensures |s| == 2
  {
    [number / 0x1_0000_0000, number % 0x1_0000_0000]
  }

  lemma NumOfHalves(u: u64, l: u64)
    ensures NumOf(Halves(u) + Halves(l), TWO32) == Join64(u, l)
  {
  }

  type limb32 = x: nat | x < 0x1_0000_0000

  function LimbProduct(x: limb32, y: limb32): (p: u64)
    ensures Low32(p) == Lo(x * y, TWO32) && High32(p) == Hi(x * y, TWO32)
    ensures p == Mul64(x, y)
  {
    HalfProducts(x, y);
    x * y
  }

  /** All products of 32-bit limbs, row 3 - x for limb x of the first operand. */
  method LimbProducts(top: seq<limb32>, bottom: seq<limb32>) returns (products: array2<u64>)
    requires |top| == |bottom| == 4
    ensures products.Length0 == 4 && products.Length1 == 4
    ensures forall i, j | 0 <= i < 4 && 0 <= j < 4 :: products[i, j] == LimbProduct(top[3 - i], bottom[j])
  {
    hide LimbProduct, Mul64, Lo, Hi, Low32, High32;
    products := new u64[4, 4];
    for y := 4 downto 0
      invariant forall i, j | 0 <= i < 4 && y <= j < 4 :: products[i, j] == LimbProduct(top[3 - i], bottom[j])
    {
      for x := 4 downto 0
        invariant forall i, j | 0 <= i < 4 && y < j < 4 :: products[i, j] == LimbProduct(top[3 - i], bottom[j])
        invariant forall i | 0 <= i < 4 - x :: products[i, y] == LimbProduct(top[3 - i], bottom[y])
      {
        var product: u64 := Mul64(top[x], bottom[y]);
        assert product == LimbProduct(top[x], bottom[y]);
        products[3 - x, y] := product;
      }
    }
  }

  /** The column sums of the limb products; none of them overflows a word. */
  method SumColumns32(top: seq<limb32>, bottom: seq<limb32>)
    returns (first32: u64, second32: u64, third32: u64, fourth32: u64)
    requires |top| == |bottom| == 4
    ensures first32 == First(top, bottom, TWO32) && second32 == Second(top, bottom, TWO32)
    ensures third32 == Third(top, bottom, TWO32) && fourth32 == Fourth(top, bottom, TWO32)
  {
    hide LimbProduct, Lo, Hi, Low32, High32, Mul64;
    var products := LimbProducts(top, bottom);
    fourth32 := Low32(products[0, 3]);
    third32 := Low32(products[0, 2]) + High32(products[0, 3]);
    second32 := Low32(products[0, 1]) + High32(products[0, 2]);
    first32 := Low32(products[0, 0]) + High32(products[0, 1]);

    third32 := third32 + Low32(products[1, 3]);
    second32 := second32 + (Low32(products[1, 2]) + High32(products[1, 3]));
    first32 := first32 + (Low32(products[1, 1]) + High32(products[1, 2]));

    second32 := second32 + Low32(products[2, 3]);
    first32 := first32 + (Low32(products[2, 2]) + High32(products[2, 3]));

    first32 := first32 + Low32(products[3, 3]);
  }

  method AssembleColumns32(first32: u64, second32: u64, third32: u64, fourth32: u64, target: U128)
    modifies target
    ensures target.Num() == Assembled128(first32, second32, third32, fourth32)
  {
    hide Join64, Wrap128, Shl64, Shr64;
    var tmp := new U128();
    var tmp2 := new U128();
    tmp.upper, tmp.lower := Shl64(first32, 32), 0;
    tmp2.upper, tmp2.lower := Shr64(third32, 32), Shl64(third32, 32);
    UInt128.Add(tmp, tmp2, target);
    tmp.upper, tmp.lower := second32, 0;
    UInt128.Add(tmp, target, tmp2);
    tmp.upper, tmp.lower := 0, fourth32;
    JoinZero(0, fourth32);
    UInt128.Add(tmp, tmp2, target);
  }

  method Mul128(number1: U128, number2: U128, target: U128)
    modifies target
    ensures target.Num() == Wrap128(old(number1.Num()) * old(number2.Num()))
  {
    hide Join64, Wrap128, NumOf, Limbs4, First, Second, Third, Fourth, Assembled128;
    var top := Halves(number1.upper) + Halves(number1.lower);
    var bottom := Halves(number2.upper) + Halves(number2.lower);
    ghost var product := number1.Num() * number2.Num();
    NumOfHalves(number1.upper, number1.lower);
    NumOfHalves(number2.upper, number2.lower);
    ghost var k := ColumnsValue(top, bottom, TWO32);
    var first32, second32, third32, fourth32 := SumColumns32(top, bottom);

    Assemble128(first32, second32, third32, fourth32, k, product);
    AssembleColumns32(first32, second32, third32, fourth32, target);
  }

  /** `x & 0xffffffff` */
  function Low32(x: u64): (r: u64)
    ensures r < TWO32
  {
    x % 0x1_0000_0000
  }

  /** `x >> 32` */
  function High32(x: u64): (r: u64)
    ensures r < TWO32
  {
    x / 0x1_0000_0000
  }

  lemma HalfProducts(x: nat, y: nat)
    requires x < TWO32 && y < TWO32
    ensures x * y < TWO64 && Mul64(x, y) == x * y
    ensures Low32(x * y) == Lo(x * y, TWO32) < TWO32
    ensures High32(x * y) == Hi(x * y, TWO32) < TWO32
  {
    SmallProduct(x, y, TWO32);
  }

  // ---------------------------------------------------------------- 256 bits

  lemma WrapMultiple256(k: int, x: int)
    ensures Wrap256(k * TWO256 + x) == Wrap256(x)
  {
  }

  function HighWord(x: u64, y: u64): u64 {
    SmallProduct(x, y, TWO64);
    Hi(x * y, TWO64)
  }

  function LowWord(x: u64, y: u64): u64 {
    SmallProduct(x, y, TWO64);
    Lo(x * y, TWO64)
  }

  /** A product of words, as a pair of words. */
  method MulWords(x: u64, y: u64) returns (upper: u64, lower: u64)
    ensures upper == HighWord(x, y) && lower == LowWord(x, y)
  {
    hide Join64, Wrap128;
    var number1 := new U128();
    var number2 := new U128();
    var product := new U128();
    number1.upper, number1.lower := 0, x;
    number2.upper, number2.lower := 0, y;
    JoinZero(0, x);
    JoinZero(0, y);
    Mul128(number1, number2, product);
    upper, lower := product.upper, product.lower;
    WordProduct(x, y, upper, lower);
  }

  lemma WordProduct(x: u64, y: u64, upper: u64, lower: u64)
    requires Join64(upper, lower) == Wrap128(x * y)
    ensures upper == HighWord(x, y) && lower == LowWord(x, y)
  {
    SmallProduct(x, y, TWO64);
    DivModUnique(x * y, TWO128, 0, x * y);
    DivModUnique(x * y, TWO64, upper, lower);
  }

  method WordProducts(top: seq<u64>, bottom: seq<u64>) returns (uppers: array2<u64>, lowers: array2<u64>)
    requires |top| == |bottom| == 4
    ensures uppers.Length0 == uppers.Length1 == 4 && lowers.Length0 == lowers.Length1 == 4
    ensures forall i, j | 0 <= i < 4 && 0 <= j < 4 ::
      uppers[i, j] == HighWord(top[3 - i], bottom[j]) && lowers[i, j] == LowWord(top[3 - i], bottom[j])
  {
    hide HighWord, LowWord;
    uppers := new u64[4, 4];
    lowers := new u64[4, 4];
    for y := 4 downto 0
      invariant forall i, j | 0 <= i < 4 && y <= j < 4 ::
        uppers[i, j] == HighWord(top[3 - i], bottom[j]) && lowers[i, j] == LowWord(top[3 - i], bottom[j])
    {
      for x := 4 downto 0
        invariant forall i, j | 0 <= i < 4 && y < j < 4 ::
          uppers[i, j] == HighWord(top[3 - i], bottom[j]) && lowers[i, j] == LowWord(top[3 - i], bottom[j])
        invariant forall i | 0 <= i < 4 - x ::
          uppers[i, y] == HighWord(top[3 - i], bottom[y]) && lowers[i, y] == LowWord(top[3 - i], bottom[y])
      {
        var upper, lower := MulWords(top[x], bottom[y]);
        uppers[3 - x, y] := upper;
        lowers[3 - x, y] := lower;
      }
    }
  }

  lemma SumInRange(x: nat)
    requires x < TWO128
    ensures Wrap128(x) == x
  {
  }

  /** Adds one word to a column. */
  method AddWord(word: u64, column: U128)
    requires column.Num() + TWO64 <= TWO128
    modifies column
    ensures column.Num() == old(column.Num()) + word
  {
    hide Join64, Wrap128;
    var tmp := new U128();
    var tmp2 := new U128();
    tmp.upper, tmp.lower := 0, word;
    JoinZero(0, word);
    SumInRange(word + column.Num());
    UInt128.Add(tmp, column, tmp2);
    column.Copy(tmp2);
  }

  method SumOfThree(a: u64, b: u64, c: u64) returns (column: U128)
    ensures fresh(column) && column.Num() == a + b + c
  {
    hide Join64;
    column := new U128();
    AddWord(a, column);
    AddWord(b, column);
    AddWord(c, column);
  }

  method SumOfFive(a: u64, b: u64, c: u64, d: u64, e: u64) returns (column: U128)
    ensures fresh(column) && column.Num() == a + b + c + d + e
  {
    hide Join64;
    column := SumOfThree(a, b, c);
    AddWord(d, column);
    AddWord(e, column);
  }

  method SumOfSeven(a: u64, b: u64, c: u64, d: u64, e: u64, f: u64, g: u64) returns (column: U128)
    ensures fresh(column) && column.Num() == a + b + c + d + e + f + g
  {
    hide Join64;
    column := SumOfFive(a, b, c, d, e);
    AddWord(f, column);
    AddWord(g, column);
  }

  /** The column sums, each in 128 bits without overflow. */
  method SumColumns64(top: seq<u64>, bottom: seq<u64>)
    returns (first64: U128, second64: U128, third64: U128, fourth64: U128)
    requires |top| == |bottom| == 4
    ensures fresh(first64) && fresh(second64) && fresh(third64) && fresh(fourth64)
    ensures first64.Num() == First(top, bottom, TWO64) && second64.Num() == Second(top, bottom, TWO64)
    ensures third64.Num() == Third(top, bottom, TWO64) && fourth64.Num() == Fourth(top, bottom, TWO64)
  {
    hide Join64, Hi, Lo;
    var uppers, lowers := WordProducts(top, bottom);
    fourth64 := SumOfThree(0, 0, lowers[0, 3]);
    third64 := SumOfThree(lowers[0, 2], uppers[0, 3], lowers[1, 3]);
    second64 := SumOfFive(lowers[0, 1], uppers[0, 2], lowers[1, 2], uppers[1, 3], lowers[2, 3]);
    first64 := SumOfSeven(lowers[0, 0], uppers[0, 1], lowers[1, 1], uppers[1, 2], lowers[2, 2], uppers[2, 3], lowers[3, 3]);
  }

  /** The distance between the limb the carry of the third column is added to and the one it belongs to. */
  const MISPLACED: nat := TWO128 * TWO64 - TWO128

  lemma Place256(first: nat, third: nat, c: u64, t: u64)
    requires first < TWO128 && third < TWO128 && third == Join64(c, t)
    ensures Wrap256(Join128(Wrap128(ShiftLeft(first, 64)), 0)) == Wrap256(first * TWO64 * TWO128)
    ensures Wrap128(ShiftLeft(third, 64)) == third * TWO64 - c * TWO128
  {
    hide Pow, ShiftLeft;
    PowersOfTwo();
    ShiftLeftMeaning(first, 64);
    ShiftLeftMeaning(third, 64);
    var x := first * TWO64;
    DivIdentity(x, TWO128);
    WrapMultiple256(x / TWO128, Wrap128(x) * TWO128);
    DivModUnique(third * TWO64, TWO128, c, t * TWO64);
  }

  /** What the final additions compute from the columns, c being the high word of the third. */
  function Assembled(first: nat, second: nat, third: nat, fourth: nat, c: nat): nat {
    var high := Join128(Wrap128(ShiftLeft(first, 64)), 0);
    var low := Join128(Join64(c, 0), Wrap128(ShiftLeft(third, 64)));
    Wrap256(Join128(0, fourth) + Wrap256(Join128(second, 0) + Wrap256(high + low)))
  }

  lemma Assemble256(first: nat, second: nat, third: nat, fourth: nat, c: u64, t: u64, k: nat, product: nat)
    requires first < TWO128 && third < TWO128 && third == Join64(c, t)
    requires product == k * (TWO128 * TWO128) + first * (TWO128 * TWO64) + second * TWO128 + third * TWO64 + fourth
    ensures Assembled(first, second, third, fourth, c) == Wrap256(product + c * MISPLACED)
  {
    hide Wrap256, Wrap128, ShiftLeft, Join128, Join64;
    Place256(first, third, c, t);
    var high := Join128(Wrap128(ShiftLeft(first, 64)), 0);
    var low := Join128(Join64(c, 0), Wrap128(ShiftLeft(third, 64)));
    var f := first * TWO64 * TWO128;
    WrapChain256(high, f, low, Join128(second, 0), Join128(0, fourth));
    PlacedColumns(second, third, fourth, c, Wrap128(ShiftLeft(third, 64)));
    WrapMultiple256(k, f + low + Join128(second, 0) + Join128(0, fourth));
  }

  lemma PlacedColumns(second: nat, third: nat, fourth: nat, c: nat, shifted: nat)
    requires shifted == third * TWO64 - c * TWO128
    ensures Join128(Join64(c, 0), shifted) + Join128(second, 0) + Join128(0, fourth)
         == second * TWO128 + third * TWO64 + fourth + c * MISPLACED
  {
  }

  lemma WrapChain256(high: int, f: int, low: int, second: int, fourth: int)
    requires Wrap256(high) == Wrap256(f)
    ensures Wrap256(fourth + Wrap256(second + Wrap256(high + low))) == Wrap256(f + low + second + fourth)
  {
  }

  lemma NumOfWords(a: seq<u64>)
    requires |a| == 4
    ensures NumOf(a, TWO64) == Join128(Join64(a[0], a[1]), Join64(a[2], a[3]))
  {
  }

  /** The words of a number below 2^256. */
  function Words256(n: nat): (s: seq<u64>)
    requires n < TWO256
    ensures |s| == 4
  {
    var u, l := n / 0x1_0000_0000_0000_0000_0000_0000_0000_0000, n % 0x1_0000_0000_0000_0000_0000_0000_0000_0000;
    [u / 0x1_0000_0000_0000_0000, u % 0x1_0000_0000_0000_0000, l / 0x1_0000_0000_0000_0000, l % 0x1_0000_0000_0000_0000]
  }

  lemma WordsOfJoin(a: u64, b: u64, c: u64, d: u64)
    ensures Join128(Join64(a, b), Join64(c, d)) < TWO256
    ensures Words256(Join128(Join64(a, b), Join64(c, d))) == [a, b, c, d]
  {
    var u, l := Join64(a, b), Join64(c, d);
    DivModUnique(Join128(u, l), TWO128, u, l);
    DivModUnique(u, TWO64, a, b);
    DivModUnique(l, TWO64, c, d);
  }

  /** The carry out of the 2^64 column, which the assembly adds one limb too high. */
  function ThirdColumnCarry(x: nat, y: nat): (c: nat)
    requires x < TWO256 && y < TWO256
  {
    Third(Words256(x), Words256(y), TWO64) / 0x1_0000_0000_0000_0000
  }

  /** target := number + column * 2^128 */
  method AddUpper(column: U128, number: U256, target: U256)
    requires number.Valid() && target.Valid() && Apart(number, target)
    requires column !in {target.upper, target.lower}
    modifies target.upper, target.lower
    ensures target.Num() == Wrap256(Join128(column.Num(), 0) + old(number.Num()))
  {
    hide Join64, Join128, Wrap128, Wrap256;
    var target1 := new U256();
    target1.upper.Copy(column);
    UInt256.Add(target1, number, target);
  }

  /** target := number + column */
  method AddLower(column: U128, number: U256, target: U256)
    requires number.Valid() && target.Valid() && Apart(number, target)
    requires column !in {target.upper, target.lower}
    modifies target.upper, target.lower
    ensures target.Num() == Wrap256(Join128(0, column.Num()) + old(number.Num()))
  {
    hide Join64, Join128, Wrap128, Wrap256;
    var target1 := new U256();
    target1.lower.Copy(column);
    UInt256.Add(target1, number, target);
  }

  method AddOuterColumns(first64: U128, third64: U128, target: U256)
    requires target.Valid() && {first64, third64} !! {target.upper, target.lower}
    modifies target.upper, target.lower
    ensures target.Num() == Wrap256(Join128(Wrap128(ShiftLeft(first64.Num(), 64)), 0)
                                    + Join128(Join64(third64.upper, 0), Wrap128(ShiftLeft(third64.Num(), 64))))
  {
    hide Join64, Join128, Wrap128, Wrap256, ShiftLeft;
    var target1 := new U256();
    UInt128.ShiftL(first64, 64, target1.upper);
    var target2 := new U256();
    JoinZero(target2.upper.upper, target2.upper.lower);
    target2.upper.upper := third64.upper;
    UInt128.ShiftL(third64, 64, target2.lower);
    UInt256.Add(target1, target2, target);
  }

  method AssembleColumns(first64: U128, second64: U128, third64: U128, fourth64: U128, target: U256)
    requires target.Valid()
    requires {first64, second64, third64, fourth64} !! {target.upper, target.lower}
    modifies target.upper, target.lower
    ensures target.Num()
         == Assembled(first64.Num(), second64.Num(), third64.Num(), fourth64.Num(), third64.upper)
  {
    hide Join64, Join128, Wrap128, Wrap256, ShiftLeft;
    AddOuterColumns(first64, third64, target);
    var target2 := new U256();
    AddUpper(second64, target, target2);
    AddLower(fourth64, target2, target);
  }

  method Mul256(number1: U256, number2: U256, target: U256)
    requires number1.Valid() && number2.Valid() && target.Valid()
    modifies target.upper, target.lower
    ensures target.Num()
         == Wrap256(old(number1.Num()) * old(number2.Num())
                    + ThirdColumnCarry(old(number1.Num()), old(number2.Num())) * MISPLACED)
  {
    hide Join64, Join128, Wrap128, Wrap256, ShiftLeft, NumOf, Limbs4, First, Second, Third, Fourth, Words256, MISPLACED, Assembled;
    var top: seq<u64> := [number1.upper.upper, number1.upper.lower, number1.lower.upper, number1.lower.lower];
    var bottom: seq<u64> := [number2.upper.upper, number2.upper.lower, number2.lower.upper, number2.lower.lower];
    ghost var product := number1.Num() * number2.Num();
    NumOfWords(top);
    NumOfWords(bottom);
    WordsOfJoin(top[0], top[1], top[2], top[3]);
    WordsOfJoin(bottom[0], bottom[1], bottom[2], bottom[3]);
    ghost var k := ColumnsValue(top, bottom, TWO64);
    var first64, second64, third64, fourth64 := SumColumns64(top, bottom);
    ghost var c, t := third64.upper, third64.lower;
    CarryWord(third64.Num(), c, t);
    Assemble256(first64.Num(), second64.Num(), third64.Num(), fourth64.Num(), c, t, k, product);
    AssembleColumns(first64, second64, third64, fourth64, target);
  }

  lemma CarryWord(n: nat, c: u64, t: u64)
    requires n == Join64(c, t)
    ensures n / TWO64 == c
  {
  }

  /** The multiplication is the intended one exactly when the third column does not carry. */
  lemma Mul256Exact(x: nat, y: nat)
    requires x < TWO256 && y < TWO256
    ensures Wrap256(x * y + ThirdColumnCarry(x, y) * MISPLACED) == Wrap256(x * y) <==> ThirdColumnCarry(x, y) == 0
  {
    hide Third, Words256;
    var c := ThirdColumnCarry(x, y);
    ThirdColumnBound(Words256(x), Words256(y));
    var d := c * MISPLACED;
    SameResidue(x * y, d, TWO256);
  }

  lemma ThirdColumnBound(a: seq<u64>, b: seq<u64>)
    requires |a| == |b| == 4
    ensures Third(a, b, TWO64) < 3 * TWO64
  {
  }

  lemma SameResidue(x: nat, d: nat, w: nat)
    requires 0 < w && d < w
    ensures (x + d) % w == x % w <==> d == 0
  {
    if (x + d) % w == x % w {
      DivIdentity(x, w);
      DivIdentity(x + d, w);
      var e := (x + d) / w - x / w;
      assert d == e * w;
      MulSpread(e, w);
    }
  }

  /** Two numbers whose product comes out wrong. */
  lemma Mul256Wrong()
    ensures var x := TWO128 - 1;
            ThirdColumnCarry(x, x) == 1
            && Wrap256(x * x + ThirdColumnCarry(x, x) * MISPLACED) != Wrap256(x * x)
  {
  }
}
