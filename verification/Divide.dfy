/** evm/uint256.c, shift-and-subtract division.  The divisor is aligned with the dividend and moved
    down one bit at a time next to the quotient bit it stands for. */
module Divide {
  import opened Numerals
  import opened Words
  import opened UInt128
  import opened UInt256

  /** q and m are quotient and remainder of l by r. */
  ghost predicate IsDivision(l: nat, r: nat, q: nat, m: nat) {
    l == q * r + m && m < r
  }

  /** What the division loop keeps: the shifted divisor and the current quotient bit belong to the same
      k, the quotient has no bit at or below k yet, and the remainder is less than two divisors.
      After bit 0 the loop has nothing left to subtract (k = -1). */
  ghost predicate Dividing(l: nat, r: nat, quotient: nat, remainder: nat, copyd: nat, adder: nat, k: int) {
    && k >= -1
    && l == quotient * r + remainder
    && (k >= 0 ==> && copyd == r * Pow(2, k)
                   && adder == Pow(2, k)
                   && remainder < 2 * copyd
                   && quotient % Pow(2, k + 1) == 0)
    && (k == -1 ==> remainder < r)
  }

  lemma SubtractIdentity(q: nat, r: nat, m: nat, p: nat, c: nat)
    requires c == r * p && c <= m
    ensures (q + p) * r + (m - c) == q * r + m
  {
  }

  /** One pass of the loop. */
  lemma DivideStep(l: nat, r: nat, quotient: nat, remainder: nat, copyd: nat, adder: nat, k: int)
    returns (quotient': nat, remainder': nat)
    requires r > 0 && remainder >= r
    requires Dividing(l, r, quotient, remainder, copyd, adder, k)
    ensures k >= 0
    ensures remainder' == if remainder >= copyd then remainder - copyd else remainder
    ensures quotient' == if remainder >= copyd then Or(quotient, adder) else quotient
    ensures Dividing(l, r, quotient', remainder', ShiftRight(copyd, 1), ShiftRight(adder, 1), k - 1)
  {
    quotient', remainder' := quotient, remainder;
    if remainder >= copyd {
      var h := quotient / Pow(2, k + 1);
      DivIdentity(quotient, Pow(2, k + 1));
      OrDisjoint(h, adder, k + 1);
      SubtractIdentity(quotient, r, remainder, adder, copyd);
      quotient' := Or(quotient, adder);
      remainder' := remainder - copyd;
    }
    HalveDivisor(r, copyd, adder, k);
    QuotientBits(quotient, k);
  }

  lemma HalveDivisor(r: nat, copyd: nat, adder: nat, k: nat)
    requires copyd == r * Pow(2, k) && adder == Pow(2, k)
    ensures ShiftRight(copyd, 1) == copyd / 2 && ShiftRight(adder, 1) == adder / 2
    ensures k > 0 ==> copyd == 2 * (r * Pow(2, k - 1)) && adder == 2 * Pow(2, k - 1)
    ensures k == 0 ==> copyd == r
  {
  }

  /** A quotient clear at and below bit k stays clear below bit k with that bit set. */
  lemma QuotientBits(quotient: nat, k: nat)
    requires quotient % Pow(2, k + 1) == 0
    ensures quotient % Pow(2, k) == 0 && (quotient + Pow(2, k)) % Pow(2, k) == 0
  {
    var p := Pow(2, k);
    var h := quotient / Pow(2, k + 1);
    DivIdentity(quotient, Pow(2, k + 1));
    Doubled(h, p, Pow(2, k + 1));
    assert (2 * h) * p == quotient;
    DivModUnique(quotient, p, 2 * h, 0);
    assert (2 * h + 1) * p == quotient + p;
    DivModUnique(quotient + p, p, 2 * h + 1, 0);
  }

  /** Aligning the top bits of divisor and dividend. */
  lemma Align(l: nat, r: nat) returns (d: nat)
    requires 0 < r <= l
    ensures d == BitLength(l) - BitLength(r)
    ensures ShiftLeft(r, d) == r * Pow(2, d) < Pow(2, BitLength(l))
    ensures ShiftLeft(1, d) == Pow(2, d) <= r * Pow(2, d)
    ensures l < 2 * (r * Pow(2, d))
    ensures d == 0 ==> r * Pow(2, d) <= l
  {
    BitLengthMono(r, l);
    BitLengthBounds(r);
    BitLengthBounds(l);
    var b := BitLength(r);
    d := BitLength(l) - b;
    ShiftLeftMeaning(r, d);
    ShiftLeftMeaning(1, d);
    PowAdd(2, b, d);
    AlignBounds(l, r, Pow(2, b - 1), Pow(2, b), Pow(2, d), Pow(2, BitLength(l)));
  }

  lemma AlignBounds(l: nat, r: nat, half: nat, full: nat, p: nat, top: nat)
    requires full == 2 * half && top == full * p && half <= r < full && l < top && r > 0
    ensures p <= r * p < top && l < 2 * (r * p)
    ensures p == 1 ==> r * p == r
  {
    assert p > 0;
    MulMono(r + 1, full, p);
    MulMono(half, r, p);
    MulMono(1, r, p);
    Doubled(p, half, full);
  }

  /** The aligned divisor and its quotient bit fit the width. */
  lemma AlignFits(l: nat, r: nat, width: nat) returns (d: nat)
    requires 0 < r <= l
    requires (width == 128 && l < TWO128) || (width == 256 && l < TWO256)
    ensures BitLength(l) <= width && BitLength(r) <= width
    ensures d == Sub32(BitLength(l), BitLength(r))
    ensures width == 128 ==> Wrap128(ShiftLeft(r, d)) == r * Pow(2, d) && Wrap128(ShiftLeft(1, d)) == Pow(2, d)
    ensures width == 256 ==> Wrap256(ShiftLeft(r, d)) == r * Pow(2, d) && Wrap256(ShiftLeft(1, d)) == Pow(2, d)
    ensures l < 2 * (r * Pow(2, d))
    ensures d == 0 ==> r * Pow(2, d) <= l
  {
    hide Pow, ShiftLeft, BitLength;
    d := Align(l, r);
    LargePowersOfTwo();
    BitLengthAtMost(l, width);
    BitLengthAtMost(r, width);
    PowMono(2, BitLength(l), width);
    NoWrap(ShiftLeft(r, d));
    NoWrap(ShiftLeft(1, d));
  }

  lemma NoWrap(x: int)
    ensures 0 <= x < TWO128 ==> Wrap128(x) == x
    ensures 0 <= x < TWO256 ==> Wrap256(x) == x
  {
  }

  lemma Started(l: nat, r: nat, copyd: nat, adder: nat, d: nat)
    requires copyd == r * Pow(2, d) && adder == Pow(2, d) && l < 2 * copyd
    ensures Dividing(l, r, 0, l, copyd, adder, d)
  {
  }

  lemma StartedLower(l: nat, r: nat, copyd: nat, adder: nat, d: nat)
    requires d > 0 && copyd == r * Pow(2, d) && adder == Pow(2, d) && l < copyd
    ensures Dividing(l, r, 0, l, ShiftRight(copyd, 1), ShiftRight(adder, 1), d - 1)
  {
    HalveDivisor(r, copyd, adder, d);
    DivModUnique(0, Pow(2, d), 0, 0);
  }

  lemma Finished(l: nat, r: nat, quotient: nat, remainder: nat, copyd: nat, adder: nat, k: int)
    requires remainder < r && Dividing(l, r, quotient, remainder, copyd, adder, k)
    ensures IsDivision(l, r, quotient, remainder)
  {
  }

  lemma Smaller(l: nat, r: nat)
    requires l < r
    ensures IsDivision(l, r, 0, l)
  {
  }

  // ---------------------------------------------------------------- 128 bits

  ghost predicate Separate128(a: U128, b: U128, c: U128, d: U128) {
    a != b && a != c && a != d && b != c && b != d && c != d
  }

  /** The body of the division loop. */
  method DividePass128(resDiv: U128, resMod: U128, copyd: U128, adder: U128, ghost l: nat, ghost r: nat, ghost k: int)
    requires Separate128(resDiv, resMod, copyd, adder)
    requires 0 < r <= resMod.Num()
    requires Dividing(l, r, resDiv.Num(), resMod.Num(), copyd.Num(), adder.Num(), k)
    modifies resDiv, resMod, copyd, adder
    ensures k >= 0
    ensures Dividing(l, r, resDiv.Num(), resMod.Num(), copyd.Num(), adder.Num(), k - 1)
  {
    hide Pow, Join64, Wrap128, ShiftLeft, ShiftRight, Dividing, Or;
    ghost var quotient, remainder := DivideStep(l, r, resDiv.Num(), resMod.Num(), copyd.Num(), adder.Num(), k);
    if UInt128.Gte(resMod, copyd) {
      NoWrap(resMod.Num() - copyd.Num());
      UInt128.Minus(resMod, copyd, resMod);
      UInt128.BitOr(resDiv, adder, resDiv);
    }
    UInt128.ShiftR(copyd, 1, copyd);
    UInt128.ShiftR(adder, 1, adder);
  }

  /** Moves the divisor under the top bit of the dividend. */
  method AlignDivisor128(l: U128, r: U128, copyd: U128, adder: U128) returns (ghost k: int)
    requires 0 < r.Num() <= l.Num()
    requires copyd != adder && {copyd, adder} !! {l, r}
    modifies copyd, adder
    ensures k >= -1
    ensures Dividing(l.Num(), r.Num(), 0, l.Num(), copyd.Num(), adder.Num(), k)
  {
    hide Pow, Join64, Wrap32, Wrap128, ShiftLeft, ShiftRight, BitLength, Dividing;
    var one := One();
    var bitsL := UInt128.Bits(l);
    var bitsR := UInt128.Bits(r);
    var diffBits := Sub32(bitsL, bitsR);
    k := AlignFits(l.Num(), r.Num(), 128);
    UInt128.ShiftL(r, diffBits, copyd);
    UInt128.ShiftL(one, diffBits, adder);
    if UInt128.Gt(copyd, l) {
      StartedLower(l.Num(), r.Num(), copyd.Num(), adder.Num(), k);
      UInt128.ShiftR(copyd, 1, copyd);
      UInt128.ShiftR(adder, 1, adder);
      k := k - 1;
    } else {
      Started(l.Num(), r.Num(), copyd.Num(), adder.Num(), k);
    }
  }

  method DivMod128(l: U128, r: U128, retDiv: U128, retMod: U128)
    requires r.Num() != 0
    requires retDiv != retMod
    modifies retDiv, retMod
    ensures IsDivision(old(l.Num()), old(r.Num()), retDiv.Num(), retMod.Num())
  {
    hide Pow, Join64, Dividing, IsDivision;
    ghost var ln, rn := l.Num(), r.Num();
    var resDiv := new U128();
    var resMod := new U128();
    resMod.Copy(l);
    if UInt128.Gt(r, l) {
      Smaller(ln, rn);
      retMod.Copy(l);
      retDiv.Clear();
    } else {
      var copyd := new U128();
      var adder := new U128();
      ghost var k := AlignDivisor128(l, r, copyd, adder);
      while UInt128.Gte(resMod, r)
        invariant r.Num() == rn
        invariant fresh(resDiv) && fresh(resMod) && fresh(copyd) && fresh(adder)
        invariant Separate128(resDiv, resMod, copyd, adder)
        invariant k >= -1
        invariant Dividing(ln, rn, resDiv.Num(), resMod.Num(), copyd.Num(), adder.Num(), k)
        decreases k
      {
        DividePass128(resDiv, resMod, copyd, adder, ln, rn, k);
        k := k - 1;
      }
      Finished(ln, rn, resDiv.Num(), resMod.Num(), copyd.Num(), adder.Num(), k);
      retDiv.Copy(resDiv);
      retMod.Copy(resMod);
    }
  }

  // ---------------------------------------------------------------- 256 bits

  /** Four objects that share no part. */
  ghost predicate Separate256(a: U256, b: U256, c: U256, d: U256) {
    && a.Valid() && b.Valid() && c.Valid() && d.Valid()
    && {a.upper, a.lower} !! {b.upper, b.lower} !! {c.upper, c.lower} !! {d.upper, d.lower}
  }

  method DividePass256(resDiv: U256, resMod: U256, copyd: U256, adder: U256, ghost l: nat, ghost r: nat, ghost k: int)
    requires Separate256(resDiv, resMod, copyd, adder)
    requires 0 < r <= resMod.Num()
    requires Dividing(l, r, resDiv.Num(), resMod.Num(), copyd.Num(), adder.Num(), k)
    modifies resDiv.upper, resDiv.lower, resMod.upper, resMod.lower
    modifies copyd.upper, copyd.lower, adder.upper, adder.lower
    ensures k >= 0
    ensures Dividing(l, r, resDiv.Num(), resMod.Num(), copyd.Num(), adder.Num(), k - 1)
  {
    hide Pow, Join64, Join128, Wrap256, ShiftLeft, ShiftRight, Dividing, Or;
    ghost var quotient, remainder := DivideStep(l, r, resDiv.Num(), resMod.Num(), copyd.Num(), adder.Num(), k);
    if UInt256.Gte(resMod, copyd) {
      NoWrap(resMod.Num() - copyd.Num());
      UInt256.Minus(resMod, copyd, resMod);
      UInt256.BitOr(resDiv, adder, resDiv);
    }
    UInt256.ShiftR(copyd, 1, copyd);
    UInt256.ShiftR(adder, 1, adder);
  }

  method One256() returns (one: U256)
    ensures one.Valid() && fresh(one.upper) && fresh(one.lower) && one.Num() == 1
  {
    hide Join64, Join128;
    JoinZero(0, 1);
    one := new U256();
    one.lower.Clear();
    one.lower.lower := 1;
  }

  method NewAligned256(l: U256, r: U256) returns (copyd: U256, adder: U256, ghost k: int)
    requires l.Valid() && r.Valid() && 0 < r.Num() <= l.Num()
    ensures copyd.Valid() && fresh(copyd.upper) && fresh(copyd.lower)
    ensures adder.Valid() && fresh(adder.upper) && fresh(adder.lower)
    ensures {copyd.upper, copyd.lower} !! {adder.upper, adder.lower}
    ensures k >= -1
    ensures Dividing(l.Num(), r.Num(), 0, l.Num(), copyd.Num(), adder.Num(), k)
  {
    hide Pow, Join64, Join128, Dividing;
    copyd := new U256();
    adder := new U256();
    k := AlignDivisor256(l, r, copyd, adder);
  }

  method AlignDivisor256(l: U256, r: U256, copyd: U256, adder: U256) returns (ghost k: int)
    requires l.Valid() && r.Valid() && copyd.Valid() && adder.Valid()
    requires {copyd.upper, copyd.lower} !! {adder.upper, adder.lower} !! {l.upper, l.lower, r.upper, r.lower}
    requires 0 < r.Num() <= l.Num()
    modifies copyd.upper, copyd.lower, adder.upper, adder.lower
    ensures k >= -1
    ensures Dividing(l.Num(), r.Num(), 0, l.Num(), copyd.Num(), adder.Num(), k)
  {
    hide Pow, Join64, Join128, Wrap32, Wrap256, ShiftLeft, ShiftRight, BitLength, Dividing;
    var one := One256();
    var bitsL := UInt256.Bits(l);
    var bitsR := UInt256.Bits(r);
    var diffBits := Sub32(bitsL, bitsR);
    k := AlignFits(l.Num(), r.Num(), 256);
    UInt256.ShiftL(r, diffBits, copyd);
    UInt256.ShiftL(one, diffBits, adder);
    if UInt256.Gt(copyd, l) {
      StartedLower(l.Num(), r.Num(), copyd.Num(), adder.Num(), k);
      UInt256.ShiftR(copyd, 1, copyd);
      UInt256.ShiftR(adder, 1, adder);
      k := k - 1;
    } else {
      Started(l.Num(), r.Num(), copyd.Num(), adder.Num(), k);
    }
  }

  /** The division loop, from an aligned divisor and an empty quotient. */
  method DivideLoop256(l: U256, r: U256, copyd: U256, adder: U256, ghost start: int) returns (resDiv: U256, resMod: U256)
    requires l.Valid() && copyd.Valid() && adder.Valid()
    requires r.Num() != 0 && start >= -1
    requires {copyd.upper, copyd.lower} !! {adder.upper, adder.lower} !! {l.upper, l.lower, r.upper, r.lower}
    requires Dividing(l.Num(), r.Num(), 0, l.Num(), copyd.Num(), adder.Num(), start)
    modifies copyd.upper, copyd.lower, adder.upper, adder.lower
    ensures resDiv.Valid() && fresh(resDiv.upper) && fresh(resDiv.lower)
    ensures resMod.Valid() && fresh(resMod.upper) && fresh(resMod.lower)
    ensures {resDiv.upper, resDiv.lower} !! {resMod.upper, resMod.lower}
    ensures IsDivision(l.Num(), r.Num(), resDiv.Num(), resMod.Num())
  {
    hide Pow, Join64, Join128, Dividing, IsDivision, U256.Num, U128.Num;
    ghost var ln, rn, k := l.Num(), r.Num(), start;
    resDiv := new U256();
    resMod := new U256();
    resMod.Copy(l);
    while UInt256.Gte(resMod, r)
      invariant k >= -1 && l.Num() == ln && r.Num() == rn
      invariant Dividing(ln, rn, resDiv.Num(), resMod.Num(), copyd.Num(), adder.Num(), k)
      decreases k
    {
      DividePass256(resDiv, resMod, copyd, adder, ln, rn, k);
      k := k - 1;
    }
    Finished(ln, rn, resDiv.Num(), resMod.Num(), copyd.Num(), adder.Num(), k);
  }

  method DivMod256(l: U256, r: U256, retDiv: U256, retMod: U256)
    requires l.Valid() && r.Valid() && retDiv.Valid() && retMod.Valid()
    requires Apart(l, retDiv) && Apart(l, retMod) && Apart(r, retDiv) && Apart(r, retMod)
    requires {retDiv.upper, retDiv.lower} !! {retMod.upper, retMod.lower}
    requires r.Num() != 0
    modifies retDiv.upper, retDiv.lower, retMod.upper, retMod.lower
    ensures IsDivision(old(l.Num()), old(r.Num()), retDiv.Num(), retMod.Num())
  {
    hide Pow, Join64, Join128, Dividing, IsDivision;
    if UInt256.Gt(r, l) {
      Smaller(l.Num(), r.Num());
      retMod.Copy(l);
      retDiv.Clear();
    } else {
      var copyd, adder, k := NewAligned256(l, r);
      var resDiv, resMod := DivideLoop256(l, r, copyd, adder, k);
      retDiv.Copy(resDiv);
      retMod.Copy(resMod);
    }
  }

  /** Quotient and remainder are unique, so the division agrees with / and %. */
  lemma DivisionUnique(l: nat, r: nat, q: nat, m: nat)
    requires IsDivision(l, r, q, m)
    ensures q == l / r && m == l % r
  {
    DivModUnique(l, r, q, m);
  }
}
