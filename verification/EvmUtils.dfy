/** evm/evm_utils.c: saturating sums, big-endian numbers and the length header of a transaction. */
module EvmUtils {
  import opened Numerals
  import opened DigitText
  import opened Words
  import opened UIntRead
  import opened Parser
  import opened RlpFormat

  function SaturatingAdd(a: u64, b: u64): (r: u64)
    ensures r == if a + b < TWO64 then a + b else TWO64 - 1
  {
    var num := Add64(a, b);
    if num < a || num < b then 0xFFFF_FFFF_FFFF_FFFF else num
  }

  function SaturatingAddU32(a: u32, b: u32): (r: u32)
    ensures r == if a + b < TWO32 then a + b else TWO32 - 1
  {
    var num := Wrap32(a + b);
    if num < a || num < b then 0xFFFF_FFFF else num
  }

  lemma OneByte(b: byte)
    ensures Value([b], 256) == b
  {
  }

  /** The number is stored byte by byte into the memory of a 64-bit word, least significant byte first. */
  method BeBytesToU64(bytes: seq<byte>, len: byte) returns (err: ParserError, num: u64)
    requires len <= |bytes|
    ensures err == if 1 <= len <= 8 then Ok else UnexpectedError
    ensures err == Ok ==> num == Value(bytes[..len], 256)
  {
    hide Value;
    num := 0;
    if len == 0 || len > 8 {
      return UnexpectedError, 0;
    }
    if len == 1 {
      OneByte(bytes[0]);
      assert bytes[..1] == [bytes[0]];
      return Ok, bytes[0];
    }
    var word := new byte[8](_ => 0);
    for i := 0 to len
      invariant forall k | 0 <= k < i :: word[k] == bytes[len - k - 1]
      invariant forall k | i <= k < 8 :: word[k] == 0
    {
      word[i] := bytes[len - i - 1];
    }
    assert Reversed(word[..]) == Zeros(8 - len) + bytes[..len];
    ValueStrip(Zeros(8 - len), bytes[..len], 256);
    num := WordOf(word[..]);
    err := Ok;
  }

  /** The number in eight bytes of little-endian memory. */
  function WordOf(memory: seq<byte>): (w: u64)
    requires |memory| == 8
    ensures w == Value(Reversed(memory), 256)
  {
    PowersOf256();
    ValueBound(Reversed(memory), 256);
    Value(Reversed(memory), 256)
  }

  datatype RlpError = RlpOk | NoData | InvalidData

  /** The header in front of a transaction: how many bytes it has, and how many follow it. */
  datatype Header = Header(read: nat, toRead: nat)

  datatype HeaderResult = Found(header: Header) | NotFound(error: RlpError)

  /** An optional version byte, then the prefix of a list. */
  function HeaderOf(buffer: seq<byte>): HeaderResult {
    var at := if buffer != [] && (buffer[0] == 1 || buffer[0] == 2) then 1 else 0;
    if |buffer| <= at then NotFound(NoData)
    else
      var marker := buffer[at];
      if marker < 0xC0 then NotFound(InvalidData)
      else if marker <= 0xF7 then Found(Header(at + 1, marker - 0xC0))
      else if |buffer| - at - 1 < marker - 0xF7 then NotFound(NoData)
      else Found(Header(at + 1 + (marker - 0xF7), Value(buffer[at + 1..at + 1 + (marker - 0xF7)], 256)))
  }

  /** The interval test on the marker, written as the sign of a product. */
  predicate ShortListMarker(marker: int)
    ensures ShortListMarker(marker) <==> 0xC0 <= marker <= 0xF7
  {
    (marker - 0xC0) * (marker - 0xF7) <= 0
  }

  method GetTxRlpLen(buffer: seq<byte>) returns (err: RlpError, read: u64, toRead: u64)
    requires |buffer| < TWO32
    ensures match HeaderOf(buffer)
            case Found(header) => err == RlpOk && read == header.read && toRead == header.toRead
            case NotFound(error) => err == error && err != RlpOk
  {
    hide Value, ShortListMarker;
    read, toRead := 0, 0;
    if |buffer| == 0 {
      return NoData, read, toRead;
    }
    var offset := 0;
    var version := buffer[offset];
    if version == 1 || version == 2 {
      offset := offset + 1;
      read := read + 1;
    }
    if offset >= |buffer| {
      return NoData, read, toRead;
    }
    var marker := buffer[offset];
    if ShortListMarker(marker) {
      return RlpOk, read + 1, marker - 0xC0;
    }
    if marker >= 0xF8 {
      offset := offset + 1;
      var numBytes := marker - 0xF7;
      if numBytes == 0 || |buffer| - offset < numBytes {
        return NoData, read, toRead;
      }
      var failed, num := BeBytesToU64(buffer[offset..], numBytes);
      if failed != Ok {
        return InvalidData, read, toRead;
      }
      assert buffer[offset..][..numBytes] == buffer[offset..offset + numBytes];
      return RlpOk, read + 1 + numBytes, num;
    }
    err := InvalidData;
  }

  /** A header that is not found is invalid when its marker is there and is no list's, and incomplete otherwise. */
  lemma HeaderErrors(buffer: seq<byte>)
    requires HeaderOf(buffer).NotFound?
    ensures var at := if buffer != [] && (buffer[0] == 1 || buffer[0] == 2) then 1 else 0;
            HeaderOf(buffer).error == if |buffer| > at && buffer[at] < 0xC0 then InvalidData else NoData
  {
  }

  /** The header is determined by its own bytes: any buffer that starts with them has the same header. */
  lemma HeaderStable(buffer: seq<byte>, other: seq<byte>)
    requires HeaderOf(buffer).Found?
    ensures HeaderOf(buffer).header.read <= |buffer|
    ensures HeaderOf(buffer).header.read <= |other|
            && other[..HeaderOf(buffer).header.read] == buffer[..HeaderOf(buffer).header.read]
            ==> HeaderOf(other) == HeaderOf(buffer)
  {
  }

  /** The sizes are 64-bit numbers. */
  lemma HeaderBounds(buffer: seq<byte>)
    requires HeaderOf(buffer).Found?
    ensures 1 <= HeaderOf(buffer).header.read <= 10 && HeaderOf(buffer).header.toRead < TWO64
  {
    PowersOf256();
    var at := if buffer[0] == 1 || buffer[0] == 2 then 1 else 0;
    if buffer[at] > 0xF7 {
      var n := buffer[at] - 0xF7;
      ValueBound(buffer[at + 1..at + 1 + n], 256);
      PowMono(256, n, 8);
    }
  }

  lemma PartBehind(buffer: seq<byte>, at: nat, i: nat, j: nat)
    requires i <= j && at + j <= |buffer|
    ensures buffer[at..][i..j] == buffer[at + i..at + j]
  {
  }

  /** With a long prefix both decoders read the same length bytes. */
  lemma LongHeader(buffer: seq<byte>, at: nat, k: nat)
    requires at + 1 + k <= |buffer|
    ensures var n := Value(buffer[at + 1..at + 1 + k], 256);
            LongPayload(List, buffer[at..], k) ==
            if at + 1 + k + n <= |buffer| then Got(Item(List, buffer[at + 1 + k..at + 1 + k + n]), 1 + k + n)
            else Failed(UnexpectedBufferEnd)
  {
    hide Value;
    PartBehind(buffer, at, 1, 1 + k);
    var n := Value(buffer[at + 1..at + 1 + k], 256);
    if at + 1 + k + n <= |buffer| {
      PartBehind(buffer, at, 1 + k, 1 + k + n);
    }
  }

  lemma ShortHeader(buffer: seq<byte>, at: nat, n: nat)
    requires at < |buffer|
    ensures Payload(List, buffer[at..], 1, n) ==
            if at + 1 + n <= |buffer| then Got(Item(List, buffer[at + 1..at + 1 + n]), 1 + n)
            else Failed(UnexpectedBufferEnd)
  {
    if at + 1 + n <= |buffer| {
      PartBehind(buffer, at, 1, 1 + n);
    }
  }

  lemma NoList(s: seq<byte>)
    requires s == [] || s[0] < 0xC0
    ensures ReadItem(s).Got? ==> ReadItem(s).value.kind != List
  {
  }

  /** The header decoder and the list reader agree: a list is there exactly when the header is and the
      bytes it announces are; then the list ends where the header says. */
  lemma HeaderIsListPrefix(buffer: seq<byte>)
    requires buffer != []
    ensures var at := if buffer[0] == 1 || buffer[0] == 2 then 1 else 0;
            var r := ReadItem(buffer[at..]);
            && (r.Got? && r.value.kind == List <==>
                HeaderOf(buffer).Found? && HeaderOf(buffer).header.read + HeaderOf(buffer).header.toRead <= |buffer|)
            && (r.Got? && r.value.kind == List ==>
                && at + r.size == HeaderOf(buffer).header.read + HeaderOf(buffer).header.toRead
                && r.value.payload == buffer[HeaderOf(buffer).header.read..at + r.size])
  {
    hide Value, Payload, LongPayload;
    var at := if buffer[0] == 1 || buffer[0] == 2 then 1 else 0;
    var s := buffer[at..];
    if s == [] || s[0] < 0xC0 {
      NoList(s);
    } else if s[0] <= 0xF7 {
      ShortHeader(buffer, at, s[0] - 0xC0);
    } else if |s| - 1 >= s[0] - 0xF7 {
      LongHeader(buffer, at, s[0] - 0xF7);
    } else {
      LongCut(s);
    }
  }

  lemma LongCut(s: seq<byte>)
    requires s != [] && s[0] > 0xF7 && |s| - 1 < s[0] - 0xF7
    ensures ReadItem(s).Failed?
  {
  }
}
