/** Unsigned machine words.  Addition, subtraction and multiplication wrap around; shifts are the
    C standard's: `x << n` is x * 2^n reduced to the width, `x >> n` is the quotient by 2^n. */
module Words {
  import opened Numerals

  type u32 = x: nat | x < 0x1_0000_0000
  type u64 = x: nat | x < 0x1_0000_0000_0000_0000

  function Add64(a: u64, b: u64): u64 { Wrap64(a + b) }

  function Sub64(a: u64, b: u64): u64 { Wrap64(a - b) }

  function Mul64(a: u64, b: u64): u64 { Wrap64(a * b) }

  function Sub32(a: u32, b: u32): u32 { Wrap32(a - b) }

  /** n shifted left v times, without bound. */
  function ShiftLeft(n: nat, v: nat): nat {
    if v == 0 then n else 2 * ShiftLeft(n, v - 1)
  }

  /** n shifted right v times. */
  function ShiftRight(n: nat, v: nat): (r: nat)
    ensures r <= n
  {
    if v == 0 then n else ShiftRight(n, v - 1) / 2
  }

  function Shl64(a: u64, v: nat): u64
    requires v < 64
  {
    Wrap64(ShiftLeft(a, v))
  }

  function Shr64(a: u64, v: nat): u64
    requires v < 64
  {
    ShiftRight(a, v)
  }

  lemma InRange(x: int)
    requires 0 <= x < TWO64
    ensures Wrap64(x) == x
  {
  }

  lemma {:induction false} ShiftLeftMeaning(n: nat, v: nat)
    ensures ShiftLeft(n, v) == n * Pow(2, v)
  {
    if v > 0 {
      ShiftLeftMeaning(n, v - 1);
      Doubled(n, Pow(2, v - 1), Pow(2, v));
    }
  }

  lemma {:induction false} ShiftRightMeaning(n: nat, v: nat)
    ensures ShiftRight(n, v) == n / Pow(2, v)
  {
    if v > 0 {
      ShiftRightMeaning(n, v - 1);
      HalfQuotient(n, Pow(2, v - 1), Pow(2, v));
    }
  }

  lemma HalfQuotient(n: nat, p: nat, p2: nat)
    requires p > 0 && p2 == 2 * p
    ensures n / p / 2 == n / p2
  {
    DivIdentity(n, p);
    HalfQuotientStep(n, n / p, n % p, p, p2);
  }

  lemma HalfQuotientStep(n: nat, q: nat, r: nat, p: nat, p2: nat)
    requires p2 == 2 * p && n == q * p + r && r < p
    ensures n / p2 == q / 2
  {
    var h, b := q / 2, q % 2;
    assert q * p == h * p2 + b * p;
    DivModUnique(n, p2, h, b * p + r);
  }

  // ---------------------------------------------------------------- bitwise or

  /** `a | b`, bit by bit. */
  function Or(a: nat, b: nat): nat {
    if a == 0 && b == 0 then 0
    else 2 * Or(a / 2, b / 2) + (if a % 2 == 1 || b % 2 == 1 then 1 else 0)
  }

  /** Bit i of a number. */
  function BitAt(n: nat, i: nat): (bit: nat)
    ensures bit <= 1
  {
    if i == 0 then n % 2 else BitAt(n / 2, i - 1)
  }

  /** A bit of `a | b` is set exactly when it is set in a or in b. */
  lemma {:induction false} OrBits(a: nat, b: nat, i: nat)
    ensures BitAt(Or(a, b), i) == 1 <==> BitAt(a, i) == 1 || BitAt(b, i) == 1
  {
    OrHalves(a, b);
    if i > 0 {
      OrBits(a / 2, b / 2, i - 1);
    }
  }

  function Or64(a: u64, b: u64): u64 {
    PowersOfTwo();
    OrBound(a, b, 64);
    Or(a, b)
  }

  lemma PowSquare(n: nat, v: nat)
    requires Pow(2, n) == v
    ensures Pow(2, n + n) == v * v
  {
    PowAdd(2, n, n);
  }

  lemma PowersOfTwo()
    ensures Pow(2, 32) == TWO32 && Pow(2, 64) == TWO64
  {
    assert Pow(2, 8) == 0x100;
    PowSquare(8, 0x100);
    PowSquare(16, 0x1_0000);
    PowSquare(32, TWO32);
  }

  lemma LargePowersOfTwo()
    ensures Pow(2, 128) == TWO128 && Pow(2, 256) == TWO256
  {
    PowersOfTwo();
    PowSquare(64, TWO64);
    PowSquare(128, TWO128);
  }

  lemma {:induction false} OrBound(a: nat, b: nat, k: nat)
    requires a < Pow(2, k) && b < Pow(2, k)
    ensures Or(a, b) < Pow(2, k)
  {
    if k > 0 {
      OrBound(a / 2, b / 2, k - 1);
    }
  }

  /** Setting bits below all the bits of a multiple of 2^k is adding them. */
  lemma {:induction false} OrDisjoint(h: nat, l: nat, k: nat)
    requires l < Pow(2, k)
    ensures Or(h * Pow(2, k), l) == h * Pow(2, k) + l
  {
    if k == 0 {
      OrZero(h);
    } else {
      HalfOf(h, l, Pow(2, k - 1), Pow(2, k));
      HalfOf(h, 0, Pow(2, k - 1), Pow(2, k));
      OrDisjoint(h, l / 2, k - 1);
      OrHalves(h * Pow(2, k), l);
    }
  }

  lemma {:induction false} OrZero(a: nat)
    ensures Or(a, 0) == a && Or(0, a) == a
  {
    if a > 0 {
      OrZero(a / 2);
    }
  }

  lemma OrHalves(a: nat, b: nat)
    ensures Or(a, b) == 2 * Or(a / 2, b / 2) + (if a % 2 == 1 || b % 2 == 1 then 1 else 0)
  {
  }

  lemma HalfOf(u: nat, l: nat, p: nat, p2: nat)
    requires p2 == 2 * p
    ensures (u * p2 + l) / 2 == u * p + l / 2
    ensures (u * p2 + l) % 2 == l % 2
  {
  }

  lemma OrParity(a: nat, l: nat, b: nat, m: nat)
    requires a % 2 == l % 2 && b % 2 == m % 2
    ensures Or(a, b) - 2 * Or(a / 2, b / 2) == Or(l, m) - 2 * Or(l / 2, m / 2)
  {
  }

  lemma Doubled(h: nat, p: nat, p2: nat)
    requires p2 == 2 * p
    ensures h * p2 == 2 * (h * p)
  {
  }

  /** `|` works limb by limb. */
  lemma {:induction false} OrLimbs(u1: nat, l1: nat, u2: nat, l2: nat, k: nat, x1: nat, x2: nat)
    requires l1 < Pow(2, k) && l2 < Pow(2, k)
    requires x1 == u1 * Pow(2, k) + l1 && x2 == u2 * Pow(2, k) + l2
    ensures Or(x1, x2) == Or(u1, u2) * Pow(2, k) + Or(l1, l2)
    decreases k
  {
    if k == 0 {
      OrZero(0);
    } else {
      var p, p2 := Pow(2, k - 1), Pow(2, k);
      HalfOf(u1, l1, p, p2);
      HalfOf(u2, l2, p, p2);
      OrLimbs(u1, l1 / 2, u2, l2 / 2, k - 1, x1 / 2, x2 / 2);
      Doubled(Or(u1, u2), p, p2);
      OrParity(x1, l1, x2, l2);
    }
  }
}
