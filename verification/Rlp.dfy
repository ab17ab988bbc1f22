/** evm/rlp.c: the reader, advancing a cursor over the bytes. */
module Rlp {
  import opened Numerals
  import opened Words
  import opened UInt256
  import opened Parser
  import opened UIntRead
  import opened RlpFormat

  method ReadBytes(ctx: ParserContext, buffLen: u64) returns (err: ParserError, buff: seq<byte>)
    requires ctx.Valid()
    modifies ctx
    ensures ctx.Valid()
    ensures err == if |old(ctx.Remaining())| < buffLen then UnexpectedBufferEnd else Ok
    ensures err == Ok ==> buff == old(ctx.Remaining())[..buffLen] && ctx.offset == old(ctx.offset) + buffLen
    ensures err != Ok ==> ctx.offset == old(ctx.offset)
  {
    if |ctx.buffer| - ctx.offset < buffLen {
      return UnexpectedBufferEnd, [];
    }
    buff := ctx.buffer[ctx.offset..ctx.offset + buffLen];
    ctx.offset := ctx.offset + buffLen;
    err := Ok;
  }

  /** Neither overflow test can fire for a length of at most eight bytes. */
  lemma LengthStep(s: seq<byte>, b: byte)
    requires |s| < 8
    ensures Value(s, 256) <= 0xFF_FFFF_FFFF_FFFF
    ensures Shl64(Value(s, 256), 8) <= 0xFFFF_FFFF_FFFF_FFFF - b
    ensures Value(s + [b], 256) == Shl64(Value(s, 256), 8) + b
  {
    hide Pow, Value, ShiftLeft;
    SevenBytes();
    ValueBound(s, 256);
    PowMono(256, |s|, 7);
    ValueSnoc(s, b, 256);
    EightBits();
    ShiftLeftMeaning(Value(s, 256), 8);
  }

  lemma SevenBytes()
    ensures Pow(256, 7) == 0x100_0000_0000_0000
  {
  }

  /** Accumulates a big-endian length; the overflow exits are never taken. */
  method DecodeLength(lenBytes: seq<byte>) returns (err: ParserError, rlpLen: u64)
    requires |lenBytes| <= 8
    ensures err == Ok && rlpLen == Value(lenBytes, 256)
  {
    hide Value, Shl64;
    rlpLen := 0;
    NoBytes(lenBytes);
    for i := 0 to |lenBytes|
      invariant rlpLen == Value(lenBytes[..i], 256)
    {
      var digit: nat := lenBytes[i];
      LengthStep(lenBytes[..i], lenBytes[i]);
      assert lenBytes[..i + 1] == lenBytes[..i] + [lenBytes[i]];
      if rlpLen > 0xFF_FFFF_FFFF_FFFF {
        return ValueOutOfRange, rlpLen;
      }
      rlpLen := Shl64(rlpLen, 8);
      if rlpLen > 0xFFFF_FFFF_FFFF_FFFF - digit {
        return ValueOutOfRange, rlpLen;
      }
      rlpLen := rlpLen + digit;
    }
    assert lenBytes[..|lenBytes|] == lenBytes;
    err := Ok;
  }

  lemma NoBytes(s: seq<byte>)
    ensures Value(s[..0], 256) == 0
  {
  }

  /** The payload length of a string or list, from its prefix or from the bytes behind it. */
  method ReadLength(ctx: ParserContext, prefix: byte) returns (err: ParserError, rlpLen: u64)
    requires ctx.Valid() && prefix > 0x7F
    modifies ctx
    ensures ctx.Valid()
    ensures err == if |old(ctx.Remaining())| < LengthBytes(prefix) then UnexpectedBufferEnd else Ok
    ensures err == Ok ==>
              && ctx.offset == old(ctx.offset) + LengthBytes(prefix)
              && rlpLen == if LengthBytes(prefix) > 0 then Value(old(ctx.Remaining())[..LengthBytes(prefix)], 256)
                           else prefix - if prefix < 0xC0 then 0x80 else 0xC0
    ensures err != Ok ==> ctx.offset == old(ctx.offset)
  {
    hide Value;
    rlpLen := 0;
    if prefix <= 0xB7 {
      return Ok, prefix - 0x80;
    } else if 0xBF < prefix <= 0xF7 {
      return Ok, prefix - 0xC0;
    }
    var lenBytes;
    err, lenBytes := ReadBytes(ctx, if prefix <= 0xBF then prefix - 0xB7 else prefix - 0xF7);
    if err == Ok {
      err, rlpLen := DecodeLength(lenBytes);
    }
  }

  /** Reads one item; without an error the cursor has passed exactly the item, and with one it stands before
      the bytes that are missing. */
  method ReadRlp(ctx: ParserContext) returns (err: ParserError, rlp: Item)
    requires ctx.Valid()
    modifies ctx
    ensures ctx.Valid()
    ensures match ReadItem(old(ctx.Remaining()))
            case Got(item, size) => err == Ok && rlp == item && ctx.offset == old(ctx.offset) + size
            case Failed(error) => err == error != Ok && ctx.offset == old(ctx.offset) + FailedAt(old(ctx.Remaining()))
  {
    hide Value;
    ghost var s := ctx.Remaining();
    rlp := Item(Byte, []);
    var first, payload;
    err, first := ReadBytes(ctx, 1);
    if err != Ok {
      return;
    }
    var prefix := first[0];
    if prefix <= 0x7F {
      return Ok, Item(Byte, first);
    }
    assert ctx.Remaining() == s[1..];
    var rlpLen;
    err, rlpLen := ReadLength(ctx, prefix);
    if err != Ok {
      return;
    }
    PayloadThere(s, 1 + LengthBytes(prefix), rlpLen);
    err, payload := ReadBytes(ctx, rlpLen);
    rlp := Item(if prefix <= 0xBF then String else List, payload);
  }

  lemma PayloadThere(s: seq<byte>, at: nat, length: nat)
    requires 1 <= at <= |s|
    ensures s[1..][..at - 1] == s[1..at]
    ensures at + length <= |s| ==> s[at..][..length] == s[at..at + length]
  {
  }

  /** Reads items into `fields` until the stream or the room for them ends. */
  method ParseStream(ctx: ParserContext, rlp: array<Item>, maxFields: nat) returns (err: ParserError, fields: nat)
    requires ctx.Valid() && maxFields <= rlp.Length && maxFields < 0x10000
    modifies ctx, rlp
    ensures ctx.Valid()
    ensures match ReadItems(old(ctx.Remaining()), maxFields)
            case Got(items, size) =>
              && err == Ok && fields == |items| <= maxFields && rlp[..fields] == items
              && ctx.offset == old(ctx.offset) + size
            case Failed(error) => err == error && err != Ok
    ensures rlp[maxFields..] == old(rlp[maxFields..])
  {
    hide ReadItem, ReadItems, Resumed;
    ghost var all := ReadItems(ctx.Remaining(), maxFields);
    fields := 0;
    ResumedStart(all, rlp[..0]);
    while ctx.offset < |ctx.buffer| && fields < maxFields
      invariant ctx.Valid() && fields <= maxFields && old(ctx.offset) <= ctx.offset
      invariant rlp[maxFields..] == old(rlp[maxFields..])
      invariant Resumed(all, rlp[..fields], ctx.offset - old(ctx.offset),
                        ReadItems(ctx.Remaining(), maxFields - fields))
      decreases maxFields - fields
    {
      ghost var s, before := ctx.Remaining(), rlp[..fields];
      ResumedStep(all, before, ctx.offset - old(ctx.offset), s, maxFields - fields);
      var item;
      err, item := ReadRlp(ctx);
      if err != Ok {
        return;
      }
      assert ctx.Remaining() == s[ReadItem(s).size..];
      rlp[fields] := item;
      assert rlp[..fields + 1] == before + [item];
      fields := fields + 1;
    }
    err := Ok;
    ResumedEnd(all, rlp[..fields], ctx.offset - old(ctx.offset), ctx.Remaining(), maxFields - fields);
  }

  /** The whole stream is the items read so far and what is still to be read. */
  ghost predicate Resumed(all: Read<seq<Item>>, done: seq<Item>, size: nat, rest: Read<seq<Item>>) {
    match rest
    case Got(items, more) => all == Got(done + items, size + more)
    case Failed(error) => all == rest
  }

  lemma ResumedStart(all: Read<seq<Item>>, none: seq<Item>)
    requires none == []
    ensures Resumed(all, none, 0, all)
  {
    if all.Got? {
      assert [] + all.value == all.value;
    }
  }

  lemma ResumedStep(all: Read<seq<Item>>, done: seq<Item>, size: nat, s: seq<byte>, max: nat)
    requires s != [] && max > 0
    requires Resumed(all, done, size, ReadItems(s, max))
    ensures match ReadItem(s)
            case Failed(error) => all == Failed(error)
            case Got(item, n) => n <= |s| && Resumed(all, done + [item], size + n, ReadItems(s[n..], max - 1))
  {
    hide ReadItem;
    ReadItemSize(s);
    var first := ReadItem(s);
    if first.Got? && ReadItems(s[first.size..], max - 1).Got? {
      assert done + ([first.value] + ReadItems(s[first.size..], max - 1).value)
          == done + [first.value] + ReadItems(s[first.size..], max - 1).value;
    }
  }

  lemma ResumedEnd(all: Read<seq<Item>>, done: seq<Item>, size: nat, s: seq<byte>, max: nat)
    requires s == [] || max == 0
    requires Resumed(all, done, size, ReadItems(s, max))
    ensures all == Got(done, size)
  {
    assert done + [] == done;
  }

  method ReadList(list: Item, fields: array<Item>, maxFields: nat) returns (err: ParserError, listFields: nat)
    requires maxFields <= fields.Length && maxFields < 0x10000
    modifies fields
    ensures list.kind != List ==> err == UnexpectedError
    ensures list.kind == List ==>
              match ReadItems(list.payload, maxFields)
              case Got(items, size) => err == Ok && listFields == |items| <= maxFields && fields[..listFields] == items
              case Failed(error) => err == error && err != Ok
  {
    if list.kind != List {
      return UnexpectedError, 0;
    }
    var ctx := new ParserContext(list.payload);
    assert ctx.Remaining() == list.payload;
    err, listFields := ParseStream(ctx, fields, maxFields);
  }

  /** The number a string item denotes, if it has at most 32 bytes. */
  method ReadUInt256(rlp: Item, value: U256) returns (err: ParserError)
    requires value.Valid() && (rlp.kind == Byte ==> rlp.payload != [])
    modifies value.upper, value.lower
    ensures err == if rlp.kind == List then UnexpectedType
                   else if rlp.kind == String && |rlp.payload| > 32 then ValueOutOfRange
                   else Ok
    ensures err == Ok ==> value.Num() == Value(if rlp.kind == Byte then rlp.payload[..1] else rlp.payload, 256)
    ensures err != Ok ==> value.Num() == old(value.Num())
  {
    hide Value, Join64, Join128;
    var payload;
    match rlp.kind {
      case String =>
        if |rlp.payload| > 32 {
          return ValueOutOfRange;
        }
        payload := rlp.payload;
      case Byte =>
        payload := rlp.payload[..1];
      case List =>
        return UnexpectedType;
    }
    var tmpBuffer: seq<byte> := Zeros(32 - |payload|) + payload;
    ValueStrip(Zeros(32 - |payload|), payload, 256);
    var ctx := new ParserContext(tmpBuffer);
    assert ctx.Remaining() == tmpBuffer == tmpBuffer[..32];
    var ok := ReadU256BE(ctx, value);
    err := Ok;
  }

  /** The item a number below 2^256 is written as: its bytes without leading zeros. */
  function Scalar(n: nat): (i: Item)
    requires n < TWO256
    ensures IsItem(i) && i.kind != List && |i.payload| <= 32
    ensures Value(i.payload, 256) == n
  {
    PowersOf256();
    DigitsCount(n, 256, 32);
    DigitsValue(n, 256);
    var bytes := Digits(n, 256);
    Item(if |bytes| == 1 && bytes[0] < 0x80 then Byte else String, bytes)
  }

  /** Written canonically and read back, whatever follows, the item denotes the number again: the value
      `ReadUInt256` returns for it. */
  lemma ScalarRoundTrip(n: nat, rest: seq<byte>)
    requires n < TWO256
    ensures ReadItem(Encode(Scalar(n)) + rest) == Got(Scalar(n), |Encode(Scalar(n))|)
    ensures Scalar(n).kind == Byte ==> Scalar(n).payload[..1] == Scalar(n).payload
  {
  }
}
