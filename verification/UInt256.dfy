/** evm/uint256.c, the 256-bit layer: a number is a pair of 128-bit numbers nested in it.
    Two 256-bit objects are either the same object or share no part (`Apart`). */
module UInt256 {
  import opened Numerals
  import opened Words
  import opened Limbs
  import opened UInt128

  class U256 {
    const upper: U128
    const lower: U128

    constructor ()
      ensures Valid() && fresh(upper) && fresh(lower)
      ensures upper.Num() == 0 && lower.Num() == 0
      ensures Num() == 0
    {
      hide Join64, Join128;
      JoinZero(0, 0);
      var u := new U128();
      var l := new U128();
      upper, lower := u, l;
      new;
    }

    predicate Valid() {
      upper != lower
    }

    /** The number the two halves denote. */
    ghost function Num(): (n: nat)
      reads upper, lower
      ensures n < TWO256
    {
      hide Join64;
      JoinBound(upper.Num(), lower.Num(), TWO128);
      Join128(upper.Num(), lower.Num())
    }

    predicate IsZero()
      reads upper, lower
      ensures IsZero() <==> Num() == 0
    {
      hide Join64, Join128;
      JoinZero(upper.Num(), lower.Num());
      lower.IsZero() && upper.IsZero()
    }

    method Copy(number: U256)
      requires Valid() && number.Valid() && Apart(number, this)
      modifies upper, lower
      ensures upper.Num() == old(number.upper.Num()) && lower.Num() == old(number.lower.Num())
      ensures Num() == old(number.Num())
    {
      hide Join64, Join128;
      upper.Copy(number.upper);
      lower.Copy(number.lower);
    }

    method Clear()
      requires Valid()
      modifies upper, lower
      ensures upper.Num() == 0 && lower.Num() == 0
      ensures Num() == 0
    {
      hide Join64, Join128;
      JoinZero(0, 0);
      upper.Clear();
      lower.Clear();
    }
  }

  predicate Apart(a: U256, b: U256) {
    a == b || {a.upper, a.lower} !! {b.upper, b.lower}
  }

  lemma JoinZero(u: nat, l: nat)
    ensures Join64(u, l) == 0 <==> u == 0 && l == 0
    ensures Join128(u, l) == 0 <==> u == 0 && l == 0
    ensures Join64(0, l) == l && Join128(0, l) == l
  {
  }

  lemma JoinIsJoin128(u: nat, l: nat)
    ensures Join128(u, l) == Join(u, l, TWO128)
  {
  }

  // ---------------------------------------------------------------- comparison

  predicate Equal(number1: U256, number2: U256)
    reads number1.upper, number1.lower, number2.upper, number2.lower
    ensures Equal(number1, number2) <==> number1.Num() == number2.Num()
  {
    JoinOrder(number1.upper.Num(), number1.lower.Num(), number2.upper.Num(), number2.lower.Num(), TWO128);
    UInt128.Equal(number1.upper, number2.upper) && UInt128.Equal(number1.lower, number2.lower)
  }

  predicate Gt(number1: U256, number2: U256)
    reads number1.upper, number1.lower, number2.upper, number2.lower
    ensures Gt(number1, number2) <==> number1.Num() > number2.Num()
  {
    JoinOrder(number1.upper.Num(), number1.lower.Num(), number2.upper.Num(), number2.lower.Num(), TWO128);
    if UInt128.Equal(number1.upper, number2.upper) then UInt128.Gt(number1.lower, number2.lower)
    else UInt128.Gt(number1.upper, number2.upper)
  }

  predicate Gte(number1: U256, number2: U256)
    reads number1.upper, number1.lower, number2.upper, number2.lower
    ensures Gte(number1, number2) <==> number1.Num() >= number2.Num()
  {
    Gt(number1, number2) || Equal(number1, number2)
  }

  // ---------------------------------------------------------------- addition, subtraction, or

  lemma WrapModulo(x: int)
    ensures Wrap128(x) == Mod(x, TWO128) && Wrap256(x) == Mod(x, TWO128 * TWO128)
    ensures 0 <= x < TWO128 ==> Wrap128(x) == x
  {
  }

  lemma AddHalves(u1: nat, l1: nat, u2: nat, l2: nat)
    requires u1 < TWO128 && l1 < TWO128 && u2 < TWO128 && l2 < TWO128
    ensures Join128(if l1 > Wrap128(l1 + l2) then Wrap128(Wrap128(u1 + u2) + 1) else Wrap128(u1 + u2), Wrap128(l1 + l2))
         == Wrap256(Join128(u1, l1) + Join128(u2, l2))
  {
    hide Join, Join128, Wrap128, Wrap256, Mod;
    var u, l := Wrap128(u1 + u2), Wrap128(l1 + l2);
    var carry := if l1 > l then 1 else 0;
    AddLimbsMod(u1, l1, u2, l2, TWO128);
    WrapModulo(u1 + u2);
    WrapModulo(l1 + l2);
    WrapModulo(u + carry);
    JoinIsJoin128(u1, l1);
    JoinIsJoin128(u2, l2);
    JoinIsJoin128(Wrap128(u + carry), l);
    WrapModulo(Join128(u1, l1) + Join128(u2, l2));
  }

  lemma SubHalves(u1: nat, l1: nat, u2: nat, l2: nat)
    requires u1 < TWO128 && l1 < TWO128 && u2 < TWO128 && l2 < TWO128
    ensures Join128(if Wrap128(l1 - l2) > l1 then Wrap128(Wrap128(u1 - u2) - 1) else Wrap128(u1 - u2), Wrap128(l1 - l2))
         == Wrap256(Join128(u1, l1) - Join128(u2, l2))
  {
    hide Join, Join128, Wrap128, Wrap256, Mod;
    var u: int, l: int := Wrap128(u1 - u2), Wrap128(l1 - l2);
    var borrow := if l > l1 then 1 else 0;
    SubLimbsMod(u1, l1, u2, l2, TWO128);
    WrapModulo(u1 - u2);
    WrapModulo(l1 - l2);
    WrapModulo(u - borrow);
    JoinIsJoin128(u1, l1);
    JoinIsJoin128(u2, l2);
    JoinIsJoin128(Wrap128(u - borrow), l);
    WrapModulo(Join128(u1, l1) - Join128(u2, l2));
  }

  method Add(number1: U256, number2: U256, target: U256)
    requires number1.Valid() && number2.Valid() && target.Valid()
    requires Apart(number1, target) && Apart(number2, target)
    modifies target.upper, target.lower
    ensures target.Num() == Wrap256(old(number1.Num()) + old(number2.Num()))
  {
    hide Join64, Join128, Wrap128, Wrap256;
    AddHalves(number1.upper.Num(), number1.lower.Num(), number2.upper.Num(), number2.lower.Num());
    var tmp := new U128();
    UInt128.Add(number1.upper, number2.upper, target.upper);
    UInt128.Add(number1.lower, number2.lower, tmp);
    if UInt128.Gt(number1.lower, tmp) {
      var one := One();
      UInt128.Add(target.upper, one, target.upper);
    }
    target.lower.Copy(tmp);
  }

  method Minus(number1: U256, number2: U256, target: U256)
    requires number1.Valid() && number2.Valid() && target.Valid()
    requires Apart(number1, target) && Apart(number2, target)
    modifies target.upper, target.lower
    ensures target.Num() == Wrap256(old(number1.Num()) - old(number2.Num()))
  {
    hide Join64, Join128, Wrap128, Wrap256;
    SubHalves(number1.upper.Num(), number1.lower.Num(), number2.upper.Num(), number2.lower.Num());
    var tmp := new U128();
    UInt128.Minus(number1.upper, number2.upper, target.upper);
    UInt128.Minus(number1.lower, number2.lower, tmp);
    if UInt128.Gt(tmp, number1.lower) {
      var one := One();
      UInt128.Minus(target.upper, one, target.upper);
    }
    UInt128.Minus(number1.lower, number2.lower, target.lower);
  }

  method One() returns (one: U128)
    ensures fresh(one) && one.Num() == 1
  {
    hide Join64;
    JoinZero(0, 1);
    one := new U128();
    one.lower := 1;
  }

  method BitOr(number1: U256, number2: U256, target: U256)
    requires number1.Valid() && number2.Valid() && target.Valid()
    requires Apart(number1, target) && Apart(number2, target)
    modifies target.upper, target.lower
    ensures target.Num() == Or(old(number1.Num()), old(number2.Num()))
  {
    hide Join64, Join128, Pow, Or;
    LargePowersOfTwo();
    ghost var u1, l1, u2, l2 := number1.upper.Num(), number1.lower.Num(), number2.upper.Num(), number2.lower.Num();
    JoinIsJoin128(u1, l1);
    JoinIsJoin128(u2, l2);
    JoinIsJoin128(Or(u1, u2), Or(l1, l2));
    OrLimbs(u1, l1, u2, l2, 128, number1.Num(), number2.Num());
    UInt128.BitOr(number1.upper, number2.upper, target.upper);
    UInt128.BitOr(number1.lower, number2.lower, target.lower);
  }

  // ---------------------------------------------------------------- shifts

  lemma ShlJoin128(u: nat, l: nat, p: nat, q: nat)
    requires p > 0 && q > 0 && p * q == TWO128 && u < TWO128 && l < TWO128
    ensures l / q >= 0
    ensures Join128(Wrap128(Wrap128(u * p) + l / q), Wrap128(l * p)) == Wrap256(Join128(u, l) * p)
  {
    hide Join, Join128, Wrap128, Wrap256, Mod;
    ShlLimbsMod(u, l, p, q, TWO128);
    WrapModulo(u * p);
    WrapModulo(l * p);
    WrapModulo(Wrap128(u * p) + l / q);
    JoinIsJoin128(u, l);
    JoinIsJoin128(Wrap128(Wrap128(u * p) + l / q), Wrap128(l * p));
    WrapModulo(Join128(u, l) * p);
  }

  lemma ShrJoin128(u: nat, l: nat, p: nat, q: nat)
    requires p > 0 && q > 0 && p * q == TWO128 && u < TWO128 && l < TWO128
    ensures u / p >= 0 && l / p >= 0
    ensures Join128(u / p, Wrap128(l / p + Wrap128(u * q))) == Join128(u, l) / p
  {
    hide Join, Join128, Wrap128, Wrap256, Mod;
    ShrLimbsMod(u, l, p, q, TWO128);
    WrapModulo(u * q);
    WrapModulo(l / p + Wrap128(u * q));
    JoinIsJoin128(u, l);
    JoinIsJoin128(u / p, l / p + Wrap128(u * q));
  }

  lemma ShiftLHalves(u: nat, l: nat, v: nat)
    requires u < TWO128 && l < TWO128 && 0 < v < 128
    ensures Join128(Wrap128(Wrap128(ShiftLeft(u, v)) + ShiftRight(l, 128 - v)), Wrap128(ShiftLeft(l, v)))
         == Wrap256(ShiftLeft(Join128(u, l), v))
  {
    hide Pow, ShiftLeft, ShiftRight, Join128, Wrap128, Wrap256;
    LargePowersOfTwo();
    SplitPower(v, 128);
    ShiftLeftMeaning(u, v);
    ShiftLeftMeaning(l, v);
    ShiftLeftMeaning(Join128(u, l), v);
    ShiftRightMeaning(l, 128 - v);
    ShlJoin128(u, l, Pow(2, v), Pow(2, 128 - v));
  }

  lemma ShiftRHalves(u: nat, l: nat, v: nat)
    requires u < TWO128 && l < TWO128 && 0 < v < 128
    ensures Join128(ShiftRight(u, v), Wrap128(ShiftRight(l, v) + Wrap128(ShiftLeft(u, 128 - v))))
         == ShiftRight(Join128(u, l), v)
  {
    hide Pow, ShiftLeft, ShiftRight, Join128, Wrap128;
    LargePowersOfTwo();
    SplitPower(v, 128);
    ShiftLeftMeaning(u, 128 - v);
    ShiftRightMeaning(u, v);
    ShiftRightMeaning(l, v);
    ShiftRightMeaning(Join128(u, l), v);
    ShrJoin128(u, l, Pow(2, v), Pow(2, 128 - v));
  }

  lemma ShiftLWideHalves(u: nat, l: nat, v: nat)
    requires u < TWO128 && l < TWO128 && 128 <= v
    ensures Join128(Wrap128(ShiftLeft(l, v - 128)), 0) == Wrap256(ShiftLeft(Join128(u, l), v))
  {
    hide Pow, ShiftLeft, Join128;
    LargePowersOfTwo();
    SplitPower(128, v);
    ShiftLeftMeaning(l, v - 128);
    ShiftLeftMeaning(Join128(u, l), v);
    ShlLimbsWide(u, l, Pow(2, v - 128), TWO128);
    JoinIsJoin128(u, l);
    JoinIsJoin128(Wrap128(ShiftLeft(l, v - 128)), 0);
  }

  lemma ShiftRWideHalves(u: nat, l: nat, v: nat)
    requires u < TWO128 && l < TWO128 && 128 <= v
    ensures Join128(0, ShiftRight(u, v - 128)) == ShiftRight(Join128(u, l), v)
  {
    hide Pow, ShiftRight;
    LargePowersOfTwo();
    SplitPower(128, v);
    ShiftRightMeaning(u, v - 128);
    ShiftRightMeaning(Join128(u, l), v);
    ShrLimbsWide(u, l, Pow(2, v - 128), TWO128);
    JoinIsJoin128(u, l);
  }

  lemma ShiftEnds(n: nat, v: nat)
    requires n < TWO256
    ensures ShiftLeft(n, 0) == n && ShiftRight(n, 0) == n
    ensures Wrap256(n) == n && (n < TWO128 ==> Wrap128(n) == n)
    ensures v >= 256 ==> Wrap256(ShiftLeft(n, v)) == 0 && ShiftRight(n, v) == 0
  {
    LargePowersOfTwo();
    if v >= 256 {
      ShiftOut(n, v, 256);
    }
  }

  /** A shift by less than 128 bits moves the top of the lower half into the upper one. */
  method ShiftLBits(number: U256, value: u32) returns (result: U256)
    requires number.Valid() && 0 < value < 128
    ensures result.Valid() && fresh(result.upper) && fresh(result.lower)
    ensures result.Num() == Wrap256(ShiftLeft(number.Num(), value))
  {
    hide Pow, Join64, Join128, ShiftLeft, ShiftRight, Wrap128, Wrap256;
    ShiftLHalves(number.upper.Num(), number.lower.Num(), value);
    var tmp1 := new U128();
    var tmp2 := new U128();
    result := new U256();
    UInt128.ShiftL(number.upper, value, tmp1);
    UInt128.ShiftR(number.lower, 128 - value, tmp2);
    UInt128.Add(tmp1, tmp2, result.upper);
    UInt128.ShiftL(number.lower, value, result.lower);
  }

  method ShiftL(number: U256, value: u32, target: U256)
    requires number.Valid() && target.Valid() && Apart(number, target)
    modifies target.upper, target.lower
    ensures target.Num() == Wrap256(ShiftLeft(old(number.Num()), value))
  {
    hide Pow, Join64, Join128, ShiftLeft, ShiftRight, Wrap128, Wrap256;
    ghost var u, l := number.upper.Num(), number.lower.Num();
    ShiftEnds(number.Num(), value);
    ShiftEnds(l, value);
    if value >= 256 {
      target.Clear();
    } else if value == 128 {
      ShiftLWideHalves(u, l, value);
      target.upper.Copy(number.lower);
      target.lower.Clear();
    } else if value == 0 {
      target.Copy(number);
    } else if value < 128 {
      var result := ShiftLBits(number, value);
      target.Copy(result);
    } else {
      ShiftLWideHalves(u, l, value);
      UInt128.ShiftL(number.lower, value - 128, target.upper);
      target.lower.Clear();
    }
  }

  /** A shift by less than 128 bits moves the bottom of the upper half into the lower one. */
  method ShiftRBits(number: U256, value: u32) returns (result: U256)
    requires number.Valid() && 0 < value < 128
    ensures result.Valid() && fresh(result.upper) && fresh(result.lower)
    ensures result.Num() == ShiftRight(number.Num(), value)
  {
    hide Pow, Join64, Join128, ShiftLeft, ShiftRight, Wrap128, Wrap256;
    ShiftRHalves(number.upper.Num(), number.lower.Num(), value);
    var tmp1 := new U128();
    var tmp2 := new U128();
    result := new U256();
    UInt128.ShiftR(number.upper, value, result.upper);
    UInt128.ShiftR(number.lower, value, tmp1);
    UInt128.ShiftL(number.upper, 128 - value, tmp2);
    UInt128.Add(tmp1, tmp2, result.lower);
  }

  method ShiftR(number: U256, value: u32, target: U256)
    requires number.Valid() && target.Valid() && Apart(number, target)
    modifies target.upper, target.lower
    ensures target.Num() == ShiftRight(old(number.Num()), value)
  {
    hide Pow, Join64, Join128, ShiftLeft, ShiftRight, Wrap128, Wrap256;
    ghost var u, l := number.upper.Num(), number.lower.Num();
    ShiftEnds(number.Num(), value);
    ShiftEnds(u, value);
    if value >= 256 {
      target.Clear();
    } else if value == 128 {
      ShiftRWideHalves(u, l, value);
      target.lower.Copy(number.upper);
      target.upper.Clear();
    } else if value == 0 {
      target.Copy(number);
    } else if value < 128 {
      var result := ShiftRBits(number, value);
      target.Copy(result);
    } else {
      ShiftRWideHalves(u, l, value);
      UInt128.ShiftR(number.upper, value - 128, target.lower);
      target.upper.Clear();
    }
  }

  // ---------------------------------------------------------------- bit length

  method Bits(number: U256) returns (result: u32)
    requires number.Valid()
    ensures result == BitLength(number.Num()) <= 256
  {
    hide Pow, Join64;
    LargePowersOfTwo();
    ghost var u, l := number.upper.Num(), number.lower.Num();
    BitLengthAtMost(u, 128);
    BitLengthAtMost(l, 128);
    result := 0;
    if !number.upper.IsZero() {
      BitLengthJoin(u, l, 128, number.Num());
      result := 128;
      var up := new U128();
      up.Copy(number.upper);
      while !up.IsZero()
        invariant fresh(up)
        invariant result + BitLength(up.Num()) == 128 + BitLength(u)
        decreases up.Num()
      {
        UInt128.ShiftR(up, 1, up);
        result := result + 1;
      }
    } else {
      var low := new U128();
      low.Copy(number.lower);
      while !low.IsZero()
        invariant fresh(low)
        invariant result + BitLength(low.Num()) == BitLength(l)
        decreases low.Num()
      {
        UInt128.ShiftR(low, 1, low);
        result := result + 1;
      }
    }
  }
}
