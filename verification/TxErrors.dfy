/** evm/parser_impl_evm.c: which error a transaction that is not accepted is turned away with. */
module TxErrors {
  import opened Numerals
  import opened Words
  import opened Parser
  import opened RlpFormat
  import opened TxFormat
  import opened Rlp
  import opened EvmUtils

  /** The stream begins with n items. */
  predicate Readable(s: seq<byte>, n: nat) {
    ReadItems(s, n).Got? && |ReadItems(s, n).value| == n
  }

  function FirstItems(s: seq<byte>, n: nat): (items: seq<Item>)
    requires Readable(s, n)
    ensures |items| == n
  {
    ReadItems(s, n).value
  }

  /** They are all there is. */
  predicate EndsAfter(s: seq<byte>, n: nat)
    requires Readable(s, n)
  {
    ReadItems(s, n).size == |s|
  }

  function ChainError(item: Item, networks: seq<u64>): ParserError {
    if ChainIdOf(item).Undecodable? then UnexpectedError
    else if ChainAllowed(item, networks) then Ok
    else InvalidChainId
  }

  /** A typed transaction: the chain id is looked at before the n - 1 fields behind it. */
  function TypedError(s: seq<byte>, n: nat, networks: seq<u64>): ParserError {
    if !Readable(s, 1) then UnexpectedBufferEnd
    else
      var chain := ChainError(FirstItems(s, 1)[0], networks);
      if chain != Ok then chain
      else if !Readable(s, n) then UnexpectedBufferEnd
      else if !EndsAfter(s, n) then UnsupportedTx
      else Ok
  }

  /** What follows the first six fields of a legacy transaction. */
  function ProtectedError(s: seq<byte>, networks: seq<u64>): ParserError {
    if !Readable(s, 7) then UnexpectedBufferEnd
    else
      var chain := ChainError(FirstItems(s, 7)[6], networks);
      if chain != Ok then chain
      else if !Readable(s, 9) then UnexpectedBufferEnd
      else if !NoSignature(FirstItems(s, 9)[7], FirstItems(s, 9)[8]) then InvalidRsValues
      else if !EndsAfter(s, 9) then UnexpectedCharacters
      else Ok
  }

  function LegacyError(s: seq<byte>, networks: seq<u64>): ParserError {
    if !Readable(s, 6) then UnexpectedBufferEnd
    else if EndsAfter(s, 6) then Ok
    else ProtectedError(s, networks)
  }

  function PayloadError(ty: TxType, s: seq<byte>, networks: seq<u64>): ParserError {
    match ty
    case Legacy => LegacyError(s, networks)
    case Eip2930 => TypedError(s, 8, networks)
    case Eip1559 => TypedError(s, 9, networks)
  }

  function TxError(buffer: seq<byte>, networks: seq<u64>): ParserError {
    if buffer == [] then UnexpectedError
    else
      var e := EnvelopeOf(buffer);
      if e.Unsupported? then UnsupportedTx
      else
        match ReadItem(buffer[e.at..])
        case Failed(error) => error
        case Got(list, size) =>
          if list.kind != List then UnexpectedValue
          else if e.at + size != |buffer| then UnsupportedTx
          else PayloadError(e.ty, list.payload, networks)
  }

  // ---------------------------------------------------------------- errors and acceptance

  lemma {:induction false} FewerItems(s: seq<byte>, k: nat, n: nat)
    requires Readable(s, n) && k <= n
    ensures Readable(s, k) && FirstItems(s, k) == FirstItems(s, n)[..k]
    ensures k < n ==> ReadItems(s, k).size < |s|
    decreases k
  {
    hide ReadItem;
    if k > 0 {
      ReadItemSize(s);
      var rest := s[ReadItem(s).size..];
      assert FirstItems(s, n) == [ReadItem(s).value] + ReadItems(rest, n - 1).value;
      FewerItems(rest, k - 1, n - 1);
    }
  }

  lemma ReadingItems(s: seq<byte>, items: seq<Item>, offset: nat)
    requires Reading(s, items, offset)
    ensures Readable(s, |items|) && FirstItems(s, |items|) == items
    ensures EndsAfter(s, |items|) <==> offset == |s|
  {
  }

  /** n items that are there and fill the stream are all items. */
  lemma WholeStream(s: seq<byte>, n: nat)
    ensures AllItems(s).Got? && |AllItems(s).value| == n <==> Readable(s, n) && EndsAfter(s, n)
    ensures Readable(s, n) && EndsAfter(s, n) ==> AllItems(s).value == FirstItems(s, n)
  {
    hide AllItems, ReadItems;
    if Readable(s, n) {
      ReadingPrefix(s, FirstItems(s, n), ReadItems(s, n).size);
    } else if AllItems(s).Got? {
      AllReadable(s);
    }
  }

  lemma AllReadable(s: seq<byte>)
    requires AllItems(s).Got?
    ensures Readable(s, |AllItems(s).value|)
  {
    ReadItemsExactly(s, |s|);
  }

  lemma {:induction false} ReadItemsExactly(s: seq<byte>, max: nat)
    requires ReadItems(s, max).Got?
    ensures ReadItems(s, |ReadItems(s, max).value|) == ReadItems(s, max)
    decreases max
  {
    hide ReadItem;
    if s != [] && max > 0 {
      ReadItemSize(s);
      ReadItemsExactly(s[ReadItem(s).size..], max - 1);
    }
  }

  /** There is no error exactly for an accepted list. */
  lemma PayloadErrorOk(ty: TxType, s: seq<byte>, networks: seq<u64>)
    ensures PayloadError(ty, s, networks) == Ok <==> PayloadAccepted(ty, s, networks)
  {
    hide ReadItems, AllItems, Readable, FirstItems, NoSignature;
    match ty
    case Legacy =>
      WholeStream(s, 6);
      WholeStream(s, 9);
      if Readable(s, 9) {
        FewerItems(s, 6, 9);
        FewerItems(s, 7, 9);
      }
    case Eip2930 => TypedOk(s, 8, networks);
    case Eip1559 => TypedOk(s, 9, networks);
  }

  lemma TypedOk(s: seq<byte>, n: nat, networks: seq<u64>)
    requires n > 0
    ensures TypedError(s, n, networks) == Ok <==>
            AllItems(s).Got? && |AllItems(s).value| == n && ChainAllowed(AllItems(s).value[0], networks)
  {
    hide ReadItems, AllItems, Readable, FirstItems;
    WholeStream(s, n);
    if Readable(s, n) {
      FewerItems(s, 1, n);
    }
  }

  /** There is no error exactly for an accepted transaction. */
  lemma TxErrorOk(buffer: seq<byte>, networks: seq<u64>)
    ensures TxError(buffer, networks) == Ok <==> Accepts(buffer, networks)
  {
    hide ReadItem, PayloadError, PayloadAccepted;
    var e := EnvelopeOf(buffer);
    if e.Envelope? {
      ReadItemSize(buffer[e.at..]);
      if ReadItem(buffer[e.at..]).Got? {
        PayloadErrorOk(e.ty, ReadItem(buffer[e.at..]).value.payload, networks);
      }
    }
  }

  // ---------------------------------------------------------------- encoded transactions

  /** The error for a chain id written canonically. */
  function ScalarError(n: u64, networks: seq<u64>): ParserError {
    if n == 0 || 0x80 <= n <= 0xFF then UnexpectedError
    else if n == 1 || n !in networks then InvalidChainId
    else Ok
  }

  lemma ChainErrorScalar(n: u64, networks: seq<u64>)
    ensures ChainError(Scalar(n), networks) == ScalarError(n, networks)
  {
    hide Value, Scalar;
    CanonicalChainId(n, networks);
    ScalarLength(n);
    var bytes: seq<byte> := Scalar(n).payload;
    if |bytes| == 1 {
      assert bytes == [bytes[0]];
      OneByte(bytes[0]);
    }
  }

  /** What a list of canonical encodings is to the readers. */
  lemma EncodedItems(items: seq<Item>, k: nat)
    requires forall i | 0 <= i < |items| :: IsItem(items[i])
    ensures Readable(EncodeAll(items), k) <==> k <= |items|
    ensures k <= |items| ==> FirstItems(EncodeAll(items), k) == items[..k]
    ensures k <= |items| ==> (EndsAfter(EncodeAll(items), k) <==> k == |items|)
  {
    hide ReadItems, EncodeAll;
    if k <= |items| {
      EncodeAllRead(items, k);
      assert items[..|items|] == items;
    } else {
      EncodedAllItems(items);
      if Readable(EncodeAll(items), k) {
        ReadingPrefix(EncodeAll(items), FirstItems(EncodeAll(items), k), ReadItems(EncodeAll(items), k).size);
      }
    }
  }

  lemma EnvelopeOfList(items: seq<Item>, rest: seq<byte>)
    requires forall i | 0 <= i < |items| :: IsItem(items[i])
    requires |EncodeAll(items)| < TWO64
    ensures var e := Encode(Item(List, EncodeAll(items)));
            && e != [] && e[0] >= 0xC0
            && ReadItem(e + rest) == Got(Item(List, EncodeAll(items)), |e|)
            && ReadItem(([1] + e + rest)[1..]) == Got(Item(List, EncodeAll(items)), |e|)
            && ReadItem(([2] + e + rest)[1..]) == Got(Item(List, EncodeAll(items)), |e|)
  {
    hide EncodeAll, ReadItem;
    var e := Encode(Item(List, EncodeAll(items)));
    EncodeRead(Item(List, EncodeAll(items)), rest);
    assert ([1] + e + rest)[1..] == e + rest && ([2] + e + rest)[1..] == e + rest;
  }

  /** A legacy transaction of canonically encoded items: six of them; or nine, the seventh a supported chain id
      and the last two both empty or both a single zero byte.  Otherwise the first thing wrong decides. */
  lemma LegacyOutcome(items: seq<Item>, n: u64, networks: seq<u64>)
    requires forall i | 0 <= i < |items| :: IsItem(items[i])
    requires |EncodeAll(items)| < TWO64
    requires |items| > 6 ==> items[6] == Scalar(n)
    ensures var buffer := Encode(Item(List, EncodeAll(items)));
            && TxError(buffer, networks) == (
                 if |items| < 6 then UnexpectedBufferEnd
                 else if |items| == 6 then Ok
                 else if ScalarError(n, networks) != Ok then ScalarError(n, networks)
                 else if |items| < 9 then UnexpectedBufferEnd
                 else if !((items[7].payload == [] && items[8].payload == [])
                           || (items[7].payload == [0] && items[8].payload == [0])) then InvalidRsValues
                 else if |items| > 9 then UnexpectedCharacters
                 else Ok)
            && (Accepts(buffer, networks) <==> TxError(buffer, networks) == Ok)
  {
    hide ReadItem, ReadItems, Encode, EncodeAll, Readable, FirstItems, EndsAfter, ChainError, ScalarError, Accepts, Scalar;
    var buffer := Encode(Item(List, EncodeAll(items)));
    EnvelopeOfList(items, []);
    assert buffer + [] == buffer && buffer[0..] == buffer;
    EncodedItems(items, 6);
    EncodedItems(items, 7);
    EncodedItems(items, 9);
    ChainErrorScalar(n, networks);
    TxErrorOk(buffer, networks);
  }

  /** A typed transaction of canonically encoded items: type byte 1 and eight items, or type byte 2 and nine,
      the first a supported chain id. */
  lemma TypedOutcome(items: seq<Item>, n: u64, networks: seq<u64>)
    requires forall i | 0 <= i < |items| :: IsItem(items[i])
    requires |EncodeAll(items)| < TWO64
    requires items != [] ==> items[0] == Scalar(n)
    ensures var list := Encode(Item(List, EncodeAll(items)));
            forall ty: byte | ty == 1 || ty == 2 ::
              var count := if ty == 1 then 8 else 9;
              && TxError([ty] + list, networks) == (
                   if |items| == 0 then UnexpectedBufferEnd
                   else if ScalarError(n, networks) != Ok then ScalarError(n, networks)
                   else if |items| < count then UnexpectedBufferEnd
                   else if |items| > count then UnsupportedTx
                   else Ok)
              && (Accepts([ty] + list, networks) <==> TxError([ty] + list, networks) == Ok)
  {
    hide ReadItem, ReadItems, Encode, EncodeAll, Readable, FirstItems, EndsAfter, ChainError, ScalarError, Accepts, Scalar;
    var list := Encode(Item(List, EncodeAll(items)));
    EnvelopeOfList(items, []);
    assert [1] + list + [] == [1] + list && [2] + list + [] == [2] + list;
    EncodedItems(items, 1);
    EncodedItems(items, 8);
    EncodedItems(items, 9);
    ChainErrorScalar(n, networks);
    TxErrorOk([1] + list, networks);
    TxErrorOk([2] + list, networks);
  }

  /** Anything else at the beginning, and anything behind the list. */
  lemma EnvelopeOutcome(buffer: seq<byte>, items: seq<Item>, rest: seq<byte>, networks: seq<u64>)
    requires forall i | 0 <= i < |items| :: IsItem(items[i])
    requires |EncodeAll(items)| < TWO64 && rest != []
    ensures buffer == [] ==> TxError(buffer, networks) == UnexpectedError
    ensures buffer != [] && buffer[0] < 0xC0 && buffer[0] != 1 && buffer[0] != 2
            ==> TxError(buffer, networks) == UnsupportedTx
    ensures TxError(Encode(Item(List, EncodeAll(items))) + rest, networks) == UnsupportedTx
    ensures TxError([1] + Encode(Item(List, EncodeAll(items))) + rest, networks) == UnsupportedTx
    ensures TxError([2] + Encode(Item(List, EncodeAll(items))) + rest, networks) == UnsupportedTx
  {
    hide ReadItem, ReadItems, Encode, EncodeAll, PayloadError;
    var e := Encode(Item(List, EncodeAll(items)));
    EnvelopeOfList(items, rest);
    assert (e + rest)[0..] == e + rest && (e + rest)[0] == e[0];
  }
}
