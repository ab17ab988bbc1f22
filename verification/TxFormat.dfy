/** What evm/parser_impl_evm.c accepts as a transaction: a type byte (EIP-2718), then a list whose items
    are the fields of a legacy (EIP-155), EIP-2930 or EIP-1559 transaction. */
module TxFormat {
  import opened Numerals
  import opened Words
  import opened UIntRead
  import opened RlpFormat
  import opened Rlp
  import opened EvmUtils

  datatype TxType = Legacy | Eip2930 | Eip1559

  // ---------------------------------------------------------------- the items of a list

  /** All items of a stream, which end where it ends. */
  function AllItems(s: seq<byte>): Read<seq<Item>> {
    ReadItems(s, |s|)
  }

  /** The items read so far take up the first `offset` bytes. */
  predicate Reading(s: seq<byte>, items: seq<Item>, offset: nat) {
    ReadItems(s, |items|) == Got(items, offset)
  }

  /** Items can be read in two goes. */
  lemma {:induction false} ReadItemsSplit(s: seq<byte>, items: seq<Item>, offset: nat, more: nat)
    requires Reading(s, items, offset)
    ensures offset <= |s|
    ensures match ReadItems(s[offset..], more)
            case Got(others, size) => ReadItems(s, |items| + more) == Got(items + others, offset + size)
            case Failed(error) => ReadItems(s, |items| + more).Failed?
    decreases |items|
  {
    hide ReadItem;
    if items == [] {
      assert s[0..] == s;
      if ReadItems(s, more).Got? {
        assert [] + ReadItems(s, more).value == ReadItems(s, more).value;
      }
    } else {
      ReadItemSize(s);
      var n := ReadItem(s).size;
      assert items[0] == ReadItem(s).value;
      ReadItemsFirst(s, items, offset);
      ReadItemsSplit(s[n..], items[1..], offset - n, more);
      assert s[n..][offset - n..] == s[offset..];
      if ReadItems(s[offset..], more).Got? {
        var others := ReadItems(s[offset..], more).value;
        assert [items[0]] + (items[1..] + others) == items + others;
      }
    }
  }

  lemma ReadItemsFirst(s: seq<byte>, items: seq<Item>, offset: nat)
    requires Reading(s, items, offset) && items != []
    ensures s != [] && ReadItem(s).Got? && ReadItem(s).size <= offset && ReadItem(s).size <= |s|
    ensures ReadItem(s).value == items[0]
    ensures Reading(s[ReadItem(s).size..], items[1..], offset - ReadItem(s).size)
  {
  }

  lemma ReadingNext(s: seq<byte>, items: seq<Item>, offset: nat)
    requires Reading(s, items, offset)
    ensures offset <= |s|
    ensures ReadItem(s[offset..]).Got? ==>
              Reading(s, items + [ReadItem(s[offset..]).value], offset + ReadItem(s[offset..]).size)
  {
    hide ReadItem;
    ReadItemsSplit(s, items, offset, 1);
    OneItem(s[offset..]);
  }

  lemma OneItem(s: seq<byte>)
    ensures ReadItem(s).Got? ==> ReadItems(s, 1) == Got([ReadItem(s).value], ReadItem(s).size)
  {
    hide ReadItem;
    ReadItemSize(s);
    if ReadItem(s).Got? {
      assert ReadItems(s[ReadItem(s).size..], 0) == Got([], 0);
      assert [ReadItem(s).value] + [] == [ReadItem(s).value];
    }
  }

  /** More room than the stream has bytes makes no difference. */
  lemma {:induction false} EnoughRoom(s: seq<byte>, max: nat)
    requires max >= |s|
    ensures ReadItems(s, max) == AllItems(s)
    ensures AllItems(s).Got? ==> AllItems(s).size == |s|
    decreases |s|
  {
    hide ReadItem;
    if s != [] {
      ReadItemSize(s);
      if ReadItem(s).Got? {
        EnoughRoom(s[ReadItem(s).size..], max - 1);
        EnoughRoom(s[ReadItem(s).size..], |s| - 1);
      }
    }
  }

  /** What has been read is the beginning of all items, and all of them only at the end of the stream. */
  lemma ReadingPrefix(s: seq<byte>, items: seq<Item>, offset: nat)
    requires Reading(s, items, offset)
    ensures offset <= |s|
    ensures AllItems(s).Got? ==> AllItems(s).size == |s| && items <= AllItems(s).value
    ensures AllItems(s).Got? ==> (offset == |s| <==> |AllItems(s).value| == |items|)
    ensures offset == |s| ==> AllItems(s) == Got(items, |s|)
    ensures AllItems(s).Got? && offset < |s| ==> ReadItem(s[offset..]).Got?
  {
    hide ReadItem;
    ReadItemsSplit(s, items, offset, |s|);
    EnoughRoom(s, |items| + |s|);
    EnoughRoom(s[offset..], |s|);
    assert items + [] == items;
    var rest := s[offset..];
    if AllItems(s).Got? && rest != [] {
      assert ReadItem(rest).Got?;
      assert |AllItems(rest).value| > 0;
    }
  }

  /** Canonical encodings laid end to end are all items of what they make up. */
  lemma EncodedAllItems(items: seq<Item>)
    requires forall i | 0 <= i < |items| :: IsItem(items[i])
    ensures AllItems(EncodeAll(items)) == Got(items, |EncodeAll(items)|)
  {
    EncodeAllRead(items, |items|);
    assert items[..|items|] == items;
    ReadingPrefix(EncodeAll(items), items, |EncodeAll(items)|);
  }

  // ---------------------------------------------------------------- fields

  datatype ChainId = Decoded(id: nat) | Undecodable

  /** The number in a chain id field.  The length is cut to eight bits before the bytes are read, and a
      string of one byte is not decoded. */
  function ChainIdOf(item: Item): ChainId {
    if |item.payload| > 1 then
      var len := |item.payload| % 256;
      if 1 <= len <= 8 then Decoded(Value(item.payload[..len], 256)) else Undecodable
    else if item.kind == Byte && |item.payload| == 1 then Decoded(item.payload[0])
    else Undecodable
  }

  predicate ChainAllowed(item: Item, networks: seq<u64>) {
    var c := ChainIdOf(item);
    c.Decoded? && c.id >= 2 && c.id in networks
  }

  /** The signature fields of an unsigned transaction: both empty, or both a single zero byte. */
  predicate NoSignature(r: Item, s: Item) {
    (r.payload == [] && s.payload == []) || (r.payload == [0] && s.payload == [0])
  }

  predicate FieldsAccepted(ty: TxType, items: seq<Item>, networks: seq<u64>) {
    match ty
    case Legacy =>
      |items| == 6 || (|items| == 9 && ChainAllowed(items[6], networks) && NoSignature(items[7], items[8]))
    case Eip2930 => |items| == 8 && ChainAllowed(items[0], networks)
    case Eip1559 => |items| == 9 && ChainAllowed(items[0], networks)
  }

  function PayloadAccepted(ty: TxType, payload: seq<byte>, networks: seq<u64>): bool {
    AllItems(payload).Got? && FieldsAccepted(ty, AllItems(payload).value, networks)
  }

  datatype Envelope = Envelope(ty: TxType, at: nat) | Unsupported

  /** The transaction type and where its list begins. */
  function EnvelopeOf(buffer: seq<byte>): (e: Envelope)
    ensures e.Envelope? ==> e.at <= |buffer|
  {
    if buffer == [] then Unsupported
    else if buffer[0] == 1 then Envelope(Eip2930, 1)
    else if buffer[0] == 2 then Envelope(Eip1559, 1)
    else if buffer[0] >= 0xC0 then Envelope(Legacy, 0)
    else Unsupported
  }

  /** A type byte, one list that fills the rest, and in it nothing but the items of the type. */
  predicate Accepts(buffer: seq<byte>, networks: seq<u64>) {
    var e := EnvelopeOf(buffer);
    && e.Envelope?
    && var list := ReadItem(buffer[e.at..]);
      && list.Got? && list.value.kind == List && e.at + list.size == |buffer|
      && PayloadAccepted(e.ty, list.value.payload, networks)
  }

  /** The items of an accepted transaction. */
  function TxItems(buffer: seq<byte>, networks: seq<u64>): seq<Item>
    requires Accepts(buffer, networks)
  {
    AllItems(ReadItem(buffer[EnvelopeOf(buffer).at..]).value.payload).value
  }

  // ---------------------------------------------------------------- what acceptance means

  /** The length header used while chunks arrive announces exactly the bytes of an accepted transaction,
      and the bytes behind it are its items end to end. */
  lemma AcceptedLength(buffer: seq<byte>, networks: seq<u64>)
    requires Accepts(buffer, networks)
    ensures HeaderOf(buffer).Found?
    ensures var h := HeaderOf(buffer).header;
            && |buffer| == h.read + h.toRead
            && AllItems(buffer[h.read..]) == Got(TxItems(buffer, networks), h.toRead)
  {
    hide ReadItem, ReadItems, HeaderOf, FieldsAccepted;
    HeaderIsListPrefix(buffer);
    var h := HeaderOf(buffer).header;
    assert buffer[h.read..|buffer|] == buffer[h.read..];
    EnoughRoom(buffer[h.read..], |buffer[h.read..]|);
  }

  function TypePrefix(ty: TxType): seq<byte> {
    match ty
    case Legacy => []
    case Eip2930 => [1]
    case Eip1559 => [2]
  }

  /** Canonically encoded fields are accepted exactly when the fields are, and they are the items read. */
  lemma EncodedAccepted(ty: TxType, items: seq<Item>, networks: seq<u64>)
    requires forall i | 0 <= i < |items| :: IsItem(items[i])
    requires |EncodeAll(items)| < TWO64
    ensures var buffer := TypePrefix(ty) + Encode(Item(List, EncodeAll(items)));
            && (Accepts(buffer, networks) <==> FieldsAccepted(ty, items, networks))
            && (Accepts(buffer, networks) ==> EnvelopeOf(buffer).ty == ty && TxItems(buffer, networks) == items)
  {
    hide ReadItem, ReadItems, FieldsAccepted;
    var list := Item(List, EncodeAll(items));
    var buffer := TypePrefix(ty) + Encode(list);
    EncodeRead(list, []);
    assert Encode(list) + [] == Encode(list);
    assert buffer[|TypePrefix(ty)|..] == Encode(list);
    assert Encode(list)[0] >= 0xC0;
    EncodedAllItems(items);
  }

  /** A canonically written chain id is allowed exactly when it is supported, at least 2, and not one of the
      numbers from 128 to 255, whose one-byte strings are turned away. */
  lemma CanonicalChainId(n: u64, networks: seq<u64>)
    ensures ChainAllowed(Scalar(n), networks) <==> n >= 2 && n in networks && !(0x80 <= n <= 0xFF)
  {
    hide Value, Scalar;
    ScalarLength(n);
    var bytes: seq<byte> := Scalar(n).payload;
    assert bytes[..|bytes|] == bytes;
    if |bytes| == 1 {
      assert bytes == [bytes[0]];
      OneByte(bytes[0]);
    }
  }

  lemma ScalarLength(n: u64)
    ensures |Scalar(n).payload| <= 8
    ensures |Scalar(n).payload| <= 1 <==> n < 256
    ensures |Scalar(n).payload| == 0 <==> n == 0
  {
    hide Pow;
    PowersOf256();
    DigitsCount(n, 256, 8);
    DigitsCount(n, 256, 1);
    DigitsCount(n, 256, 0);
    OneBytePower();
  }

  lemma OneBytePower()
    ensures Pow(256, 1) == 256 && Pow(256, 0) == 1
  {
  }

  /** Chain ids in odd shapes: of 257 bytes only the first counts, and a list of two bytes is a number. */
  lemma OddChainIds(padding: seq<byte>)
    requires |padding| == 256
    ensures ChainIdOf(Item(String, [5] + padding)) == Decoded(5)
    ensures ChainIdOf(Item(List, [1, 2])) == Decoded(258)
  {
    OneByte(5);
    assert ([5] + padding)[..1] == [5];
    OneByte(1);
    assert [1, 2] == [1] + [2] && [1, 2][..2] == [1, 2];
    ValueSnoc([1], 2, 256);
  }
}
