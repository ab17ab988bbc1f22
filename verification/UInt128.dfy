/** evm/uint256.c, the 128-bit layer: a number is a pair of 64-bit words updated through pointers.
    Operands and target may be the same object. */
module UInt128 {
  import opened Numerals
  import opened Words
  import opened Limbs

  class U128 {
    var upper: u64
    var lower: u64

    constructor ()
      ensures upper == 0 && lower == 0
      ensures Num() == 0
    {
      upper, lower := 0, 0;
    }

    /** The number the two words denote. */
    ghost function Num(): (n: nat)
      reads this
      ensures n < TWO128
    {
      JoinBound(upper, lower, TWO64);
      Join64(upper, lower)
    }

    predicate IsZero()
      reads this
      ensures IsZero() <==> Num() == 0
    {
      lower == 0 && upper == 0
    }

    method Copy(number: U128)
      modifies this
      ensures upper == old(number.upper) && lower == old(number.lower)
      ensures Num() == old(number.Num())
    {
      upper := number.upper;
      lower := number.lower;
    }

    method Clear()
      modifies this
      ensures upper == 0 && lower == 0
      ensures Num() == 0
    {
      upper := 0;
      lower := 0;
    }
  }

  lemma JoinIsJoin64(u: nat, l: nat)
    ensures Join64(u, l) == Join(u, l, TWO64)
  {
  }

  // ---------------------------------------------------------------- comparison

  lemma JoinOrder(u1: nat, l1: nat, u2: nat, l2: nat, w: nat)
    requires l1 < w && l2 < w
    ensures Join(u1, l1, w) == Join(u2, l2, w) <==> u1 == u2 && l1 == l2
    ensures Join(u1, l1, w) > Join(u2, l2, w) <==> u1 > u2 || (u1 == u2 && l1 > l2)
  {
    if u1 > u2 {
      MulMono(u2 + 1, u1, w);
    } else if u1 < u2 {
      MulMono(u1 + 1, u2, w);
    }
  }

  predicate Equal(number1: U128, number2: U128)
    reads number1, number2
    ensures Equal(number1, number2) <==> number1.Num() == number2.Num()
  {
    JoinOrder(number1.upper, number1.lower, number2.upper, number2.lower, TWO64);
    number1.upper == number2.upper && number1.lower == number2.lower
  }

  predicate Gt(number1: U128, number2: U128)
    reads number1, number2
    ensures Gt(number1, number2) <==> number1.Num() > number2.Num()
  {
    JoinOrder(number1.upper, number1.lower, number2.upper, number2.lower, TWO64);
    if number1.upper == number2.upper then number1.lower > number2.lower
    else number1.upper > number2.upper
  }

  predicate Gte(number1: U128, number2: U128)
    reads number1, number2
    ensures Gte(number1, number2) <==> number1.Num() >= number2.Num()
  {
    Gt(number1, number2) || Equal(number1, number2)
  }

  // ---------------------------------------------------------------- addition, subtraction, or

  function Flag(condition: bool): u64 { if condition then 1 else 0 }

  lemma WordModulo(x: int)
    ensures Wrap64(x) == Mod(x, TWO64) && Wrap128(x) == Mod(x, TWO64 * TWO64)
  {
  }

  lemma AddWords(u1: u64, l1: u64, u2: u64, l2: u64)
    ensures Join64(Add64(Add64(u1, u2), Flag(Add64(l1, l2) < l1)), Add64(l1, l2))
         == Wrap128(Join64(u1, l1) + Join64(u2, l2))
  {
    hide Join, Join64, Wrap64, Wrap128, Mod;
    var u, l := Add64(u1, u2), Add64(l1, l2);
    AddLimbsMod(u1, l1, u2, l2, TWO64);
    WordModulo(u1 as int + u2);
    WordModulo(l1 as int + l2);
    WordModulo(u as int + Flag(l < l1));
    JoinIsJoin64(u1, l1);
    JoinIsJoin64(u2, l2);
    JoinIsJoin64(Add64(u, Flag(l < l1)), l);
    WordModulo(Join64(u1, l1) + Join64(u2, l2));
  }

  lemma SubWords(u1: u64, l1: u64, u2: u64, l2: u64)
    ensures Join64(Sub64(Sub64(u1, u2), Flag(Sub64(l1, l2) > l1)), Sub64(l1, l2))
         == Wrap128(Join64(u1, l1) - Join64(u2, l2))
  {
    hide Join, Join64, Wrap64, Wrap128, Mod;
    var u, l := Sub64(u1, u2), Sub64(l1, l2);
    SubLimbsMod(u1, l1, u2, l2, TWO64);
    WordModulo(u1 as int - u2);
    WordModulo(l1 as int - l2);
    WordModulo(u as int - Flag(l > l1));
    JoinIsJoin64(u1, l1);
    JoinIsJoin64(u2, l2);
    JoinIsJoin64(Sub64(u, Flag(l > l1)), l);
    WordModulo(Join64(u1, l1) as int - Join64(u2, l2));
  }

  method Add(number1: U128, number2: U128, target: U128)
    modifies target
    ensures target.Num() == Wrap128(old(number1.Num()) + old(number2.Num()))
  {
    hide Join64, Wrap128, Wrap64;
    AddWords(number1.upper, number1.lower, number2.upper, number2.lower);
    target.upper := Add64(Add64(number1.upper, number2.upper),
                          Flag(Add64(number1.lower, number2.lower) < number1.lower));
    target.lower := Add64(number1.lower, number2.lower);
  }

  method Minus(number1: U128, number2: U128, target: U128)
    modifies target
    ensures target.Num() == Wrap128(old(number1.Num()) - old(number2.Num()))
  {
    hide Join64, Wrap128, Wrap64;
    SubWords(number1.upper, number1.lower, number2.upper, number2.lower);
    target.upper := Sub64(Sub64(number1.upper, number2.upper),
                          Flag(Sub64(number1.lower, number2.lower) > number1.lower));
    target.lower := Sub64(number1.lower, number2.lower);
  }

  method BitOr(number1: U128, number2: U128, target: U128)
    modifies target
    ensures target.Num() == Or(old(number1.Num()), old(number2.Num()))
  {
    hide Join64, Wrap128, Wrap64;
    PowersOfTwo();
    JoinIsJoin64(number1.upper, number1.lower);
    JoinIsJoin64(number2.upper, number2.lower);
    JoinIsJoin64(Or64(number1.upper, number2.upper), Or64(number1.lower, number2.lower));
    OrLimbs(number1.upper, number1.lower, number2.upper, number2.lower, 64, number1.Num(), number2.Num());
    target.upper := Or64(number1.upper, number2.upper);
    target.lower := Or64(number1.lower, number2.lower);
  }

  // ---------------------------------------------------------------- shifts

  /** A shift inside a limb splits the radix in two powers. */
  lemma SplitPower(k: nat, bits: nat)
    requires k <= bits
    ensures Pow(2, bits) == Pow(2, k) * Pow(2, bits - k)
    ensures Pow(2, bits) == Pow(2, bits - k) * Pow(2, k)
  {
    PowAdd(2, k, bits - k);
  }

  lemma MultipleMod(n: nat, p: nat, w: nat, x: nat)
    requires w > 0 && x == p * w
    ensures (n * x) % w == 0
  {
    MulAssoc(n, p, w);
    DivModUnique(n * x, w, n * p, 0);
  }

  /** A shift of at least the width leaves nothing. */
  lemma ShiftOut(n: nat, v: nat, bits: nat)
    requires n < Pow(2, bits) && v >= bits
    ensures ShiftLeft(n, v) % Pow(2, bits) == 0
    ensures bits == 128 ==> Wrap128(ShiftLeft(n, v)) == 0
    ensures ShiftRight(n, v) == 0
  {
    LargePowersOfTwo();
    ShiftLeftMeaning(n, v);
    ShiftRightMeaning(n, v);
    SplitPower(bits, v);
    MultipleMod(n, Pow(2, v - bits), Pow(2, bits), Pow(2, v));
    PowMono(2, bits, v);
    DivModUnique(n, Pow(2, v), 0, n);
  }

  lemma ShiftLWords(u: u64, l: u64, v: nat)
    requires 0 < v < 64
    ensures Join64(Add64(Shl64(u, v), Shr64(l, 64 - v)), Shl64(l, v)) == Wrap128(ShiftLeft(Join64(u, l), v))
  {
    hide Pow, ShiftLeft, ShiftRight, Join64;
    PowersOfTwo();
    SplitPower(v, 64);
    ShiftLeftMeaning(u, v);
    ShiftLeftMeaning(l, v);
    ShiftLeftMeaning(Join64(u, l), v);
    ShiftRightMeaning(l, 64 - v);
    ShlLimbs(u, l, Pow(2, v), Pow(2, 64 - v), TWO64);
    JoinIsJoin64(u, l);
    JoinIsJoin64(Add64(Shl64(u, v), Shr64(l, 64 - v)), Shl64(l, v));
  }

  lemma ShiftLWide(u: u64, l: u64, v: nat)
    requires 64 <= v < 128
    ensures Join64(Shl64(l, v - 64), 0) == Wrap128(ShiftLeft(Join64(u, l), v))
  {
    hide Pow, ShiftLeft, ShiftRight, Join64;
    PowersOfTwo();
    SplitPower(64, v);
    ShiftLeftMeaning(l, v - 64);
    ShiftLeftMeaning(Join64(u, l), v);
    ShlLimbsWide(u, l, Pow(2, v - 64), TWO64);
    JoinIsJoin64(u, l);
    JoinIsJoin64(Shl64(l, v - 64), 0);
  }

  lemma ShrJoin64(u: u64, l: u64, p: nat, q: nat)
    requires p > 0 && q > 0 && p * q == TWO64
    ensures u / p >= 0 && l / p >= 0
    ensures Join64(u / p, Wrap64(Wrap64(u * q) + l / p)) == Join64(u, l) / p
  {
    hide Join64;
    ShrLimbs(u, l, p, q, TWO64);
    JoinIsJoin64(u, l);
    JoinIsJoin64(u / p, (u * q) % TWO64 + l / p);
  }

  lemma ShiftRWords(u: u64, l: u64, v: nat)
    requires 0 < v < 64
    ensures Join64(Shr64(u, v), Add64(Shl64(u, 64 - v), Shr64(l, v))) == ShiftRight(Join64(u, l), v)
  {
    hide Pow, ShiftLeft, ShiftRight, Join64, Wrap64;
    PowersOfTwo();
    SplitPower(v, 64);
    ShiftLeftMeaning(u, 64 - v);
    ShiftRightMeaning(u, v);
    ShiftRightMeaning(l, v);
    ShiftRightMeaning(Join64(u, l), v);
    ShrJoin64(u, l, Pow(2, v), Pow(2, 64 - v));
  }

  lemma ShiftRWide(u: u64, l: u64, v: nat)
    requires 64 <= v < 128
    ensures Join64(0, Shr64(u, v - 64)) == ShiftRight(Join64(u, l), v)
  {
    hide Pow, ShiftLeft, ShiftRight;
    PowersOfTwo();
    SplitPower(64, v);
    ShiftRightMeaning(u, v - 64);
    ShiftRightMeaning(Join64(u, l), v);
    ShrLimbsWide(u, l, Pow(2, v - 64), TWO64);
    JoinIsJoin64(u, l);
  }

  lemma ShiftNone(n: nat)
    ensures ShiftLeft(n, 0) == n && ShiftRight(n, 0) == n
    ensures n < TWO64 ==> Wrap64(n) == n
    ensures n < TWO128 ==> Wrap128(n) == n
    ensures Join64(0, 0) == 0
  {
  }

  method ShiftL(number: U128, value: u32, target: U128)
    modifies target
    ensures target.Num() == Wrap128(ShiftLeft(old(number.Num()), value))
  {
    hide Pow, Join64, ShiftLeft, ShiftRight, Wrap64, Wrap128;
    ghost var n, u, l := number.Num(), number.upper, number.lower;
    ShiftNone(n);
    ShiftNone(l);
    if value >= 128 {
      LargePowersOfTwo();
      ShiftOut(n, value, 128);
      target.Clear();
    } else if value == 64 {
      ShiftLWide(u, l, value);
      target.upper := number.lower;
      target.lower := 0;
    } else if value == 0 {
      target.Copy(number);
    } else if value < 64 {
      ShiftLWords(u, l, value);
      target.upper := Add64(Shl64(number.upper, value), Shr64(number.lower, 64 - value));
      target.lower := Shl64(number.lower, value);
    } else {
      ShiftLWide(u, l, value);
      target.upper := Shl64(number.lower, value - 64);
      target.lower := 0;
    }
  }

  /** Shifting an object onto itself by exactly one word overwrites the word it is about to read. */
  method ShiftR(number: U128, value: u32, target: U128)
    modifies target
    ensures target.Num() == if value == 64 && target == number then 0 else ShiftRight(old(number.Num()), value)
  {
    hide Pow, Join64, ShiftLeft, ShiftRight, Wrap64, Wrap128;
    ghost var n, u, l := number.Num(), number.upper, number.lower;
    ShiftNone(n);
    ShiftNone(u);
    if value >= 128 {
      LargePowersOfTwo();
      ShiftOut(n, value, 128);
      target.Clear();
    } else if value == 64 {
      ShiftRWide(u, l, value);
      target.upper := 0;
      target.lower := number.upper;
    } else if value == 0 {
      target.Copy(number);
    } else if value < 64 {
      ShiftRWords(u, l, value);
      var result := new U128();
      result.upper := Shr64(number.upper, value);
      result.lower := Add64(Shl64(number.upper, 64 - value), Shr64(number.lower, value));
      target.Copy(result);
    } else {
      ShiftRWide(u, l, value);
      target.lower := Shr64(number.upper, value - 64);
      target.upper := 0;
    }
  }

  /** The 0 left by a shift of an object onto itself by 64 is the wrong quotient exactly when the upper word
      is not zero. */
  lemma AliasedShift(upper: u64, lower: u64)
    ensures ShiftRight(Join64(upper, lower), 64) == upper
    ensures ShiftRight(Join64(upper, lower), 64) != 0 <==> upper != 0
  {
    hide Join64, ShiftRight;
    ShiftNone(upper);
    ShiftRWide(upper, lower, 64);
    JoinUpperZero(upper);
  }

  lemma JoinUpperZero(lower: u64)
    ensures Join64(0, Shr64(lower, 0)) == Shr64(lower, 0) == ShiftRight(lower, 0)
  {
  }

  // ---------------------------------------------------------------- bit length

  /** Number of significant bits. */
  function BitLength(n: nat): nat {
    if n == 0 then 0 else 1 + BitLength(n / 2)
  }

  lemma {:induction false} BitLengthBounds(n: nat)
    ensures n < Pow(2, BitLength(n))
    ensures n > 0 ==> BitLength(n) > 0 && Pow(2, BitLength(n) - 1) <= n
  {
    if n > 0 {
      BitLengthBounds(n / 2);
    }
  }

  lemma {:induction false} BitLengthMono(m: nat, n: nat)
    requires m <= n
    ensures BitLength(m) <= BitLength(n)
  {
    if m > 0 {
      BitLengthMono(m / 2, n / 2);
    }
  }

  /** A non-zero high limb adds the width of the low one. */
  lemma {:induction false} BitLengthJoin(u: nat, l: nat, k: nat, x: nat)
    requires u > 0 && l < Pow(2, k) && x == u * Pow(2, k) + l
    ensures BitLength(x) == k + BitLength(u)
    decreases k
  {
    if k > 0 {
      HalfOf(u, l, Pow(2, k - 1), Pow(2, k));
      MulMono(1, u, Pow(2, k));
      BitLengthJoin(u, l / 2, k - 1, x / 2);
    }
  }

  method Bits(number: U128) returns (result: u32)
    ensures result == BitLength(number.Num()) <= 128
  {
    PowersOfTwo();
    LargePowersOfTwo();
    result := 0;
    if number.upper != 0 {
      result := 64;
      var up := number.upper;
      BitLengthJoin(up, number.lower, 64, number.Num());
      BitLengthAtMost(up, 64);
      while up != 0
        invariant result + BitLength(up) == 64 + BitLength(number.upper)
      {
        up := up / 2;
        result := result + 1;
      }
    } else {
      var low := number.lower;
      BitLengthAtMost(low, 64);
      while low != 0
        invariant result + BitLength(low) == BitLength(number.lower)
      {
        low := low / 2;
        result := result + 1;
      }
    }
  }

  lemma {:induction false} BitLengthAtMost(n: nat, k: nat)
    requires n < Pow(2, k)
    ensures BitLength(n) <= k
  {
    if n > 0 {
      BitLengthAtMost(n / 2, k - 1);
    }
  }
}
