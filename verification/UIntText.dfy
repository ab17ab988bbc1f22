/** evm/uint256.c, text output: repeated division by the base, digits written backwards, then reversed
    in place. */
module UIntText {
  import opened Numerals
  import opened DigitText
  import opened Words
  import opened UInt128
  import opened UInt256
  import opened Divide

  // ---------------------------------------------------------------- in-place reversal

  method ReverseString(str: array<char>, length: nat)
    requires 0 < length <= str.Length
    modifies str
    ensures str[..length] == Reversed(old(str[..length]))
    ensures str[length..] == old(str[length..])
  {
    var i, j := 0, length - 1;
    while i < j
      invariant 0 <= i <= j + 1 && i + j == length - 1
      invariant forall k | 0 <= k < i :: str[k] == old(str[length - 1 - k]) && str[length - 1 - k] == old(str[k])
      invariant forall k | i <= k <= j :: str[k] == old(str[k])
      invariant str[length..] == old(str[length..])
    {
      str[i], str[j] := str[j], str[i];
      i, j := i + 1, j - 1;
    }
  }

  /** Ends the first offset characters with a zero byte and turns them round. */
  method Terminate(out: array<char>, offset: nat)
    requires 0 < offset < out.Length
    modifies out
    ensures out[..offset + 1] == Reversed(old(out[..offset])) + ['\0']
    ensures out[offset + 1..] == old(out[offset + 1..])
  {
    ghost var written := out[..offset];
    out[offset] := '\0';
    assert out[..offset] == written;
    ReverseString(out, offset);
    assert out[offset] == out[offset..][0];
  }

  // ---------------------------------------------------------------- digit generation

  lemma LowWord128(m: U128)
    requires m.Num() < 16
    ensures m.lower == m.Num()
  {
  }

  /** One division by the base; the remainder is returned as a digit. */
  method NextDigit128(rDiv: U128, base: U128, rMod: U128) returns (d: nat)
    requires rDiv != base && rDiv != rMod && base != rMod
    requires 2 <= base.Num() <= 16
    modifies rDiv, rMod
    ensures rDiv.Num() == old(rDiv.Num()) / base.Num()
    ensures d == old(rDiv.Num()) % base.Num() < 16
  {
    hide Join64, IsDivision;
    ghost var n, b := rDiv.Num(), base.Num();
    DivMod128(rDiv, base, rDiv, rMod);
    DivisionUnique(n, b, rDiv.Num(), rMod.Num());
    RemainderSmall(n, b);
    LowWord128(rMod);
    d := rMod.lower;
  }

  lemma RemainderSmall(n: nat, b: nat)
    requires 2 <= b <= 16
    ensures 0 <= n % b < 16
  {
  }

  /** Divides once and writes the remainder as the next digit. */
  method EmitNext128(rDiv: U128, base: U128, rMod: U128, out: array<char>, offset: nat, ghost n: nat, ghost ds: seq<nat>)
    returns (ghost ds': seq<nat>)
    requires rDiv != base && rDiv != rMod && base != rMod
    requires 2 <= base.Num() <= 16 && offset < out.Length
    requires ds == [] || rDiv.Num() != 0
    requires Emitted(n, base.Num(), rDiv.Num(), ds, out[..offset])
    modifies rDiv, rMod, out
    ensures Emitted(n, base.Num(), rDiv.Num(), ds', out[..offset + 1]) && |ds'| == |ds| + 1
    ensures old(rDiv.Num()) != 0 ==> rDiv.Num() < old(rDiv.Num())
    ensures out[offset + 1..] == old(out[offset + 1..])
  {
    hide Join64, Join128, Emitted;
    ghost var rest, written, b := rDiv.Num(), out[..offset], base.Num();
    EmitDigit(n, b, rest, ds, written);
    DecreasingQuotient(rest, b);
    var d := NextDigit128(rDiv, base, rMod);
    out[offset] := HexDigit(d);
    ds' := [rest % b] + ds;
    assert out[..offset + 1] == written + [HexDigit(d)];
  }

  method ToString128(number: U128, baseParam: u32, out: array<char>, outLength: nat) returns (ok: bool)
    requires outLength <= out.Length
    modifies out
    ensures ok <==> 2 <= baseParam <= 16 && |Text(number.Num(), baseParam)| < outLength
    ensures ok ==> var text := Text(number.Num(), baseParam); out[..|text| + 1] == text + ['\0']
    ensures out[outLength..] == old(out[outLength..])
  {
    hide Join64, Text, TextDigits, Digits, Emitted;
    if outLength == 0 {
      return false;
    }
    ghost var n := number.Num();
    var rDiv := new U128();
    var rMod := new U128();
    var base := new U128();
    rDiv.Copy(number);
    base.lower := baseParam;
    JoinZero(0, baseParam);
    var offset := 0;
    if baseParam < 2 || baseParam > 16 {
      return false;
    }
    ghost var ds: seq<nat> := [];
    EmitNothing(n, baseParam);
    while offset == 0 || !rDiv.IsZero()
      invariant base.Num() == baseParam && number.Num() == n
      invariant 0 <= offset == |ds| <= outLength
      invariant Emitted(n, baseParam, rDiv.Num(), ds, out[..offset])
      invariant out[outLength..] == old(out[outLength..])
      decreases offset == 0, rDiv.Num()
    {
      if offset > outLength - 1 {
        EmitDigit(n, baseParam, rDiv.Num(), ds, out[..offset]);
        return false;
      }
      ds := EmitNext128(rDiv, base, rMod, out, offset, n, ds);
      offset := offset + 1;
    }
    EmittedAll(n, baseParam, ds, out[..offset]);
    if offset >= outLength {
      return false;
    }
    Terminate(out, offset);
    ok := true;
  }

  lemma DecreasingQuotient(n: nat, base: nat)
    requires base >= 2
    ensures n != 0 ==> n / base < n
  {
  }

  method NextDigit256(rDiv: U256, base: U256, rMod: U256) returns (d: nat)
    requires rDiv.Valid() && base.Valid() && rMod.Valid()
    requires {rDiv.upper, rDiv.lower} !! {base.upper, base.lower} !! {rMod.upper, rMod.lower}
    requires 2 <= base.Num() <= 16
    modifies rDiv.upper, rDiv.lower, rMod.upper, rMod.lower
    ensures rDiv.Num() == old(rDiv.Num()) / base.Num()
    ensures d == old(rDiv.Num()) % base.Num() < 16
  {
    hide Join64, Join128, IsDivision;
    ghost var n, b := rDiv.Num(), base.Num();
    DivMod256(rDiv, base, rDiv, rMod);
    DivisionUnique(n, b, rDiv.Num(), rMod.Num());
    RemainderSmall(n, b);
    LowWord256(rMod);
    d := rMod.lower.lower;
  }

  lemma LowWord256(m: U256)
    requires m.Num() < 16
    ensures m.lower.lower == m.Num()
  {
    assert m.upper.Num() == 0;
    LowWord128(m.lower);
  }

  /** The base as a 256-bit number. */
  method NewBase256(baseParam: u32) returns (base: U256)
    ensures base.Valid() && fresh(base.upper) && fresh(base.lower) && base.Num() == baseParam
  {
    hide Join64, Join128;
    JoinZero(0, baseParam);
    base := new U256();
    base.lower.Clear();
    base.lower.lower := baseParam;
  }

  /** Divides once and writes the remainder as the next digit. */
  method EmitNext256(rDiv: U256, base: U256, rMod: U256, out: array<char>, offset: nat, ghost n: nat, ghost ds: seq<nat>)
    returns (ghost ds': seq<nat>)
    requires rDiv.Valid() && base.Valid() && rMod.Valid()
    requires {rDiv.upper, rDiv.lower} !! {base.upper, base.lower} !! {rMod.upper, rMod.lower}
    requires 2 <= base.Num() <= 16 && offset < out.Length
    requires ds == [] || rDiv.Num() != 0
    requires Emitted(n, base.Num(), rDiv.Num(), ds, out[..offset])
    modifies rDiv.upper, rDiv.lower, rMod.upper, rMod.lower, out
    ensures Emitted(n, base.Num(), rDiv.Num(), ds', out[..offset + 1]) && |ds'| == |ds| + 1
    ensures old(rDiv.Num()) != 0 ==> rDiv.Num() < old(rDiv.Num())
    ensures out[offset + 1..] == old(out[offset + 1..])
  {
    hide Join64, Join128, Emitted;
    ghost var rest, written, b := rDiv.Num(), out[..offset], base.Num();
    EmitDigit(n, b, rest, ds, written);
    DecreasingQuotient(rest, b);
    var d := NextDigit256(rDiv, base, rMod);
    out[offset] := HexDigit(d);
    ds' := [rest % b] + ds;
    assert out[..offset + 1] == written + [HexDigit(d)];
  }

  /** Writes all digits, least significant first, if there is room for them. */
  method EmitDigits256(rDiv: U256, base: U256, rMod: U256, out: array<char>, room: nat) returns (fits: bool, offset: nat)
    requires rDiv.Valid() && base.Valid() && rMod.Valid()
    requires {rDiv.upper, rDiv.lower} !! {base.upper, base.lower} !! {rMod.upper, rMod.lower}
    requires 2 <= base.Num() <= 16 && 0 < room <= out.Length
    modifies rDiv.upper, rDiv.lower, rMod.upper, rMod.lower, out
    ensures fits <==> |Text(old(rDiv.Num()), base.Num())| <= room
    ensures fits ==> 0 < offset <= room && Reversed(out[..offset]) == Text(old(rDiv.Num()), base.Num())
    ensures out[room..] == old(out[room..])
  {
    hide Join64, Join128, Text, TextDigits, Digits, Emitted;
    ghost var n, b := rDiv.Num(), base.Num();
    ghost var ds: seq<nat> := [];
    EmitNothing(n, b);
    offset := 0;
    while offset == 0 || !rDiv.IsZero()
      invariant base.Num() == b
      invariant 0 <= offset == |ds| <= room
      invariant Emitted(n, b, rDiv.Num(), ds, out[..offset])
      invariant out[room..] == old(out[room..])
      decreases offset == 0, rDiv.Num()
    {
      if offset > room - 1 {
        EmitDigit(n, b, rDiv.Num(), ds, out[..offset]);
        return false, offset;
      }
      ds := EmitNext256(rDiv, base, rMod, out, offset, n, ds);
      offset := offset + 1;
    }
    EmittedAll(n, b, ds, out[..offset]);
    fits := true;
  }

  method ToString256(number: U256, baseParam: u32, out: array<char>, outLength: nat) returns (ok: bool)
    requires number.Valid() && outLength <= out.Length
    modifies out
    ensures ok <==> 2 <= baseParam <= 16 && |Text(number.Num(), baseParam)| < outLength
    ensures ok ==> var text := Text(number.Num(), baseParam); out[..|text| + 1] == text + ['\0']
    ensures out[outLength..] == old(out[outLength..])
  {
    hide Join64, Join128, Text;
    if outLength <= 1 {
      NonEmptyText(number.Num(), baseParam);
      return false;
    }
    var rDiv := new U256();
    var rMod := new U256();
    var base := NewBase256(baseParam);
    rDiv.Copy(number);
    if baseParam < 2 || baseParam > 16 {
      return false;
    }
    var offset;
    ok, offset := EmitDigits256(rDiv, base, rMod, out, outLength - 1);
    if ok {
      Terminate(out, offset);
    }
  }

  lemma NonEmptyText(n: nat, base: nat)
    ensures 2 <= base <= 16 ==> |Text(n, base)| >= 1
  {
  }
}
