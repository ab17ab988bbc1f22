/** evm/uint256.c, big-endian input. */
module UIntRead {
  import opened Numerals
  import opened Words
  import opened UInt128
  import opened UInt256
  import opened Parser

  lemma PowersOf256()
    ensures Pow(256, 8) == TWO64 && Pow(256, 16) == TWO128 && Pow(256, 32) == TWO256
  {
    PowersOfTwo();
    LargePowersOfTwo();
    assert Pow(2, 8) == 256;
    PowMul(2, 8, 8);
    PowMul(2, 8, 16);
    PowMul(2, 8, 32);
  }

  method ReadUint64BE(ctx: ParserContext) returns (ok: bool, value: u64)
    requires ctx.Valid()
    modifies ctx
    ensures ctx.Valid()
    ensures ok <==> |old(ctx.Remaining())| >= 8
    ensures ok ==> ctx.offset == old(ctx.offset) + 8
    ensures ok ==> value == Value(old(ctx.Remaining())[..8], 256)
    ensures !ok ==> ctx.offset == old(ctx.offset)
  {
    value := 0;
    if |ctx.buffer| - ctx.offset < 8 {
      return false, 0;
    }
    ghost var start := ctx.offset;
    PowersOf256();
    for i := 0 to 8
      invariant ctx.offset == start + i && ctx.Valid()
      invariant value == Value(ctx.buffer[start..start + i], 256)
    {
      ReadStep(ctx.buffer[start..start + i], ctx.buffer[ctx.offset], i);
      assert ctx.buffer[start..start + i] + [ctx.buffer[ctx.offset]] == ctx.buffer[start..start + i + 1];
      value := Add64(Shl64(value, 8), ctx.buffer[ctx.offset]);
      ctx.offset := ctx.offset + 1;
    }
    assert ctx.buffer[start..start + 8] == ctx.buffer[start..][..8];
    ok := true;
  }

  lemma EightBits()
    ensures Pow(2, 8) == 256
  {
  }

  /** Shifting a byte in never overflows before the ninth byte. */
  lemma ReadStep(s: seq<byte>, b: byte, i: nat)
    requires |s| == i < 8
    ensures Value(s, 256) < TWO64
    ensures Add64(Shl64(Value(s, 256), 8), b) == Value(s + [b], 256)
  {
    hide Pow, Value, ShiftLeft, Wrap64;
    PowersOf256();
    ValueBound(s + [b], 256);
    ValueSnoc(s, b, 256);
    PowMono(256, i + 1, 8);
    EightBits();
    ShiftLeftMeaning(Value(s, 256), 8);
    InRange(256 * Value(s, 256));
    InRange(256 * Value(s, 256) + b);
  }

  lemma TwoWords(s: seq<byte>)
    requires |s| >= 16
    ensures Value(s[..8], 256) < TWO64 && Value(s[8..][..8], 256) < TWO64
    ensures Value(s[..16], 256) == Join64(Value(s[..8], 256), Value(s[8..][..8], 256))
  {
    hide Pow, Value;
    PowersOf256();
    assert s[..16] == s[..8] + s[8..][..8];
    ValueConcat(s[..8], s[8..][..8], 256);
    ValueBound(s[..8], 256);
    ValueBound(s[8..][..8], 256);
  }

  lemma TwoDoubleWords(s: seq<byte>)
    requires |s| >= 32
    ensures Value(s[..32], 256) == Join128(Value(s[..16], 256), Value(s[16..][..16], 256))
  {
    hide Pow, Value;
    PowersOf256();
    assert s[..32] == s[..16] + s[16..][..16];
    ValueConcat(s[..16], s[16..][..16], 256);
  }

  method ReadU128BE(ctx: ParserContext, value: U128) returns (ok: bool)
    requires ctx.Valid()
    modifies ctx, value
    ensures ctx.Valid()
    ensures ok <==> |old(ctx.Remaining())| >= 16
    ensures ok ==> ctx.offset == old(ctx.offset) + 16
    ensures ok ==> value.Num() == Value(old(ctx.Remaining())[..16], 256)
    ensures !ok ==> ctx.offset == old(ctx.offset) + |old(ctx.Remaining())| / 8 * 8
  {
    hide Join64, Value;
    ghost var rest := ctx.Remaining();
    var done, word := ReadUint64BE(ctx);
    if !done {
      return false;
    }
    value.upper := word;
    assert ctx.Remaining() == rest[8..];
    done, word := ReadUint64BE(ctx);
    if !done {
      return false;
    }
    value.lower := word;
    TwoWords(rest);
    ok := true;
  }

  method ReadU256BE(ctx: ParserContext, bigInt: U256) returns (ok: bool)
    requires ctx.Valid() && bigInt.Valid()
    modifies ctx, bigInt.upper, bigInt.lower
    ensures ctx.Valid()
    ensures ok <==> |old(ctx.Remaining())| >= 32
    ensures ok ==> ctx.offset == old(ctx.offset) + 32
    ensures ok ==> bigInt.Num() == Value(old(ctx.Remaining())[..32], 256)
    ensures !ok ==> ctx.offset == old(ctx.offset) + |old(ctx.Remaining())| / 8 * 8
  {
    hide Join64, Join128, Value;
    ghost var rest := ctx.Remaining();
    var done := ReadU128BE(ctx, bigInt.upper);
    if !done {
      return false;
    }
    assert ctx.Remaining() == rest[16..];
    done := ReadU128BE(ctx, bigInt.lower);
    if !done {
      return false;
    }
    TwoDoubleWords(rest);
    ok := true;
  }
}
