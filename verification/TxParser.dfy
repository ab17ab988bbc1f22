/** evm/parser_impl_evm.c: reading the fields of a transaction into an object. */
module TxParser {
  import opened Numerals
  import opened Words
  import opened Parser
  import opened RlpFormat
  import opened Rlp
  import opened EvmUtils
  import opened TxFormat
  import opened TxErrors

  const NO_FIELD: Item := Item(Byte, [])

  class EthTx {
    var txType: TxType
    var chainId: Item
    var chainIdDecoded: u64
    var nonce: Item
    var gasPrice: Item
    var gasLimit: Item
    var to: Item
    var value: Item
    var data: Item
    var maxPriorityFee: Item
    var maxFee: Item
    var accessList: Item

    /** The fields hold the items, each in its place. */
    ghost predicate Holds(items: seq<Item>)
      reads this
    {
      match txType
      case Legacy =>
        && (|items| == 6 || |items| == 9)
        && items[..6] == [nonce, gasPrice, gasLimit, to, value, data]
        && chainId == (if |items| == 6 then NO_FIELD else items[6])
      case Eip2930 =>
        items == [chainId, nonce, gasPrice, gasLimit, to, value, data, accessList]
      case Eip1559 =>
        items == [chainId, nonce, maxPriorityFee, maxFee, gasLimit, to, value, data, accessList]
    }

    /** The decoded chain id is the one in the chain id field. */
    ghost predicate ChainDecoded()
      reads this
    {
      ChainIdOf(chainId) == Decoded(chainIdDecoded)
    }

    method Clear()
      modifies this
      ensures chainIdDecoded == 0 && chainId == NO_FIELD
    {
      txType := Legacy;
      chainId, chainIdDecoded := NO_FIELD, 0;
      nonce, gasPrice, gasLimit, to, value, data := NO_FIELD, NO_FIELD, NO_FIELD, NO_FIELD, NO_FIELD, NO_FIELD;
      maxPriorityFee, maxFee, accessList := NO_FIELD, NO_FIELD, NO_FIELD;
    }
  }

  /** Reads the next item of a list. */
  method NextField(ctx: ParserContext, ghost items: seq<Item>) returns (err: ParserError, field: Item)
    requires ctx.Valid() && Reading(ctx.buffer, items, ctx.offset)
    modifies ctx
    ensures ctx.Valid()
    ensures err == if Readable(ctx.buffer, |items| + 1) then Ok else UnexpectedBufferEnd
    ensures err == Ok ==> Reading(ctx.buffer, items + [field], ctx.offset)
  {
    hide ReadItem, ReadItems;
    ReadingNext(ctx.buffer, items, ctx.offset);
    NextReadable(ctx.buffer, items, ctx.offset);
    ReadItemSize(ctx.Remaining());
    err, field := ReadRlp(ctx);
  }

  lemma NextReadable(s: seq<byte>, items: seq<Item>, offset: nat)
    requires Reading(s, items, offset)
    ensures offset <= |s|
    ensures Readable(s, |items| + 1) <==> ReadItem(s[offset..]).Got?
  {
    hide ReadItem;
    ReadItemsSplit(s, items, offset, 1);
    OneItem(s[offset..]);
    if offset < |s| && ReadItem(s[offset..]).Failed? {
      assert ReadItems(s[offset..], 1).Failed?;
    }
  }

  /** Reads the chain id and looks it up among the supported networks. */
  method ReadChainId(ctx: ParserContext, tx: EthTx, networks: seq<u64>, ghost items: seq<Item>) returns (err: ParserError)
    requires ctx.Valid() && Reading(ctx.buffer, items, ctx.offset) && |networks| < 256
    modifies ctx, tx`chainId, tx`chainIdDecoded
    ensures ctx.Valid()
    ensures err == if !Readable(ctx.buffer, |items| + 1) then UnexpectedBufferEnd
                   else ChainError(FirstItems(ctx.buffer, |items| + 1)[|items|], networks)
    ensures err == Ok ==> Reading(ctx.buffer, items + [tx.chainId], ctx.offset) && tx.ChainDecoded()
  {
    hide Reading, Readable, FirstItems, ChainError, ChainIdOf;
    var item;
    err, item := NextField(ctx, items);
    if err != Ok {
      return;
    }
    ReadingItems(ctx.buffer, items + [item], ctx.offset);
    tx.chainId := item;
    var id;
    err, id := DecodeChainId(item, networks);
    if err == Ok {
      tx.chainIdDecoded := id;
    }
  }

  method DecodeChainId(item: Item, networks: seq<u64>) returns (err: ParserError, id: u64)
    requires |networks| < 256
    ensures err == ChainError(item, networks)
    ensures err == Ok ==> ChainIdOf(item) == Decoded(id)
  {
    hide Numerals.Value;
    id := 0;
    if |item.payload| > 1 {
      err, id := BeBytesToU64(item.payload, |item.payload| % 256);
      if err != Ok {
        return;
      }
    } else if item.kind == Byte && |item.payload| == 1 {
      id := item.payload[0];
    } else {
      return UnexpectedError, id;
    }
    if id == 0 || id == 1 {
      return InvalidChainId, id;
    }
    for i := 0 to |networks|
      invariant id !in networks[..i]
    {
      if id == networks[i] {
        return Ok, id;
      }
    }
    assert networks[..|networks|] == networks;
    err := InvalidChainId;
  }

  lemma NothingRead(payload: seq<byte>)
    ensures Reading(payload, [], 0)
  {
  }

  /** A list of n items cannot be read if the first k of them cannot. */
  lemma TooFew(payload: seq<byte>, k: nat, n: nat)
    requires !Readable(payload, k) && k <= n
    ensures !Readable(payload, n)
  {
    hide Readable;
    if Readable(payload, n) {
      FewerItems(payload, k, n);
    }
  }

  /** The four fields that stand together in every type of transaction. */
  method ReadCore(ctx: ParserContext, tx: EthTx, ghost items: seq<Item>) returns (err: ParserError)
    requires ctx.Valid() && Reading(ctx.buffer, items, ctx.offset)
    modifies ctx, tx`gasLimit, tx`to, tx`value, tx`data
    ensures ctx.Valid()
    ensures err == if Readable(ctx.buffer, |items| + 4) then Ok else UnexpectedBufferEnd
    ensures err == Ok ==> Reading(ctx.buffer, items + [tx.gasLimit, tx.to, tx.value, tx.data], ctx.offset)
  {
    hide Reading, Readable;
    var gasLimit, to, value, data;
    err, gasLimit := NextField(ctx, items);
    if err != Ok {
      TooFew(ctx.buffer, |items| + 1, |items| + 4);
      return;
    }
    err, to := NextField(ctx, items + [gasLimit]);
    if err != Ok {
      TooFew(ctx.buffer, |items| + 2, |items| + 4);
      return;
    }
    err, value := NextField(ctx, items + [gasLimit] + [to]);
    if err != Ok {
      TooFew(ctx.buffer, |items| + 3, |items| + 4);
      return;
    }
    err, data := NextField(ctx, items + [gasLimit] + [to] + [value]);
    if err != Ok {
      return;
    }
    tx.gasLimit, tx.to, tx.value, tx.data := gasLimit, to, value, data;
    assert items + [gasLimit] + [to] + [value] + [data] == items + [gasLimit, to, value, data];
  }

  /** At the end of the list the items read are all items. */
  lemma AllRead(payload: seq<byte>, items: seq<Item>, offset: nat)
    requires Reading(payload, items, offset)
    ensures offset <= |payload|
    ensures Readable(payload, |items|) && FirstItems(payload, |items|) == items
    ensures EndsAfter(payload, |items|) <==> offset == |payload|
    ensures offset == |payload| ==> AllItems(payload) == Got(items, |payload|)
  {
    hide ReadItems, AllItems;
    ReadingItems(payload, items, offset);
    ReadingPrefix(payload, items, offset);
  }

  /** Six fields; nothing more, or a chain id and an empty signature (EIP-155). */
  method ParseLegacy(ctx: ParserContext, tx: EthTx, networks: seq<u64>) returns (err: ParserError)
    requires ctx.offset == 0 && tx.txType == Legacy && |networks| < 256
    modifies ctx, tx
    ensures tx.txType == Legacy
    ensures err == LegacyError(ctx.buffer, networks)
    ensures err == Ok ==> AllItems(ctx.buffer).Got? && tx.Holds(AllItems(ctx.buffer).value)
    ensures err == Ok && |AllItems(ctx.buffer).value| == 9 ==> tx.ChainDecoded()
  {
    hide Reading, AllItems, Readable, EndsAfter, FirstItems, ProtectedError, ChainIdOf;
    ghost var payload := ctx.buffer;
    var nonce, gasPrice;
    NothingRead(payload);
    ghost var items: seq<Item> := [];
    err, nonce := NextField(ctx, items);
    if err != Ok {
      TooFew(payload, 1, 6);
      return;
    }
    items := items + [nonce];
    err, gasPrice := NextField(ctx, items);
    if err != Ok {
      TooFew(payload, 2, 6);
      return;
    }
    items := items + [gasPrice];
    tx.nonce, tx.gasPrice := nonce, gasPrice;
    err := ReadCore(ctx, tx, items);
    if err != Ok {
      return;
    }
    items := items + [tx.gasLimit, tx.to, tx.value, tx.data];
    assert items == [tx.nonce, tx.gasPrice, tx.gasLimit, tx.to, tx.value, tx.data];
    AllRead(payload, items, ctx.offset);
    if ctx.offset == |ctx.buffer| {
      tx.chainId := NO_FIELD;
      return;
    }
    err := ParseProtected(ctx, tx, networks, items);
  }

  /** Chain id and signature fields behind the six. */
  method ParseProtected(ctx: ParserContext, tx: EthTx, networks: seq<u64>, ghost six: seq<Item>) returns (err: ParserError)
    requires ctx.Valid() && Reading(ctx.buffer, six, ctx.offset)
    requires tx.txType == Legacy && |networks| < 256
    requires six == [tx.nonce, tx.gasPrice, tx.gasLimit, tx.to, tx.value, tx.data]
    modifies ctx, tx`chainId, tx`chainIdDecoded
    ensures err == ProtectedError(ctx.buffer, networks)
    ensures err == Ok ==> AllItems(ctx.buffer).Got? && |AllItems(ctx.buffer).value| == 9
    ensures err == Ok ==> tx.Holds(AllItems(ctx.buffer).value) && tx.ChainDecoded()
  {
    hide Reading, AllItems, Readable, EndsAfter, FirstItems, ChainError, ChainIdOf;
    ghost var payload := ctx.buffer;
    var r, s;
    err := ReadChainId(ctx, tx, networks, six);
    if err != Ok {
      return;
    }
    ghost var items := six + [tx.chainId];
    AllRead(payload, items, ctx.offset);
    err, r := NextField(ctx, items);
    if err != Ok {
      TooFew(payload, 8, 9);
      return;
    }
    items := items + [r];
    err, s := NextField(ctx, items);
    if err != Ok {
      return;
    }
    items := items + [s];
    AllRead(payload, items, ctx.offset);
    if (|r.payload| == 0 && |s.payload| == 0)
       || (|r.payload| == 1 && |s.payload| == 1 && r.payload[0] == 0 && s.payload[0] == 0)
    {
      if ctx.offset < |ctx.buffer| {
        return UnexpectedCharacters;
      }
      return Ok;
    }
    err := InvalidRsValues;
  }

  /** The chain id and the nonce a typed transaction begins with. */
  method ReadHead(ctx: ParserContext, tx: EthTx, networks: seq<u64>, ghost n: nat) returns (err: ParserError)
    requires ctx.offset == 0 && |networks| < 256 && n >= 2
    modifies ctx, tx`chainId, tx`chainIdDecoded, tx`nonce
    ensures ctx.Valid()
    ensures err == Ok ==> Reading(ctx.buffer, [tx.chainId, tx.nonce], ctx.offset) && tx.ChainDecoded()
    ensures err == Ok ==> Readable(ctx.buffer, 1) && ChainError(FirstItems(ctx.buffer, 1)[0], networks) == Ok
    ensures err != Ok ==> err == TypedError(ctx.buffer, n, networks)
  {
    hide Reading, Readable, EndsAfter, FirstItems, ChainError, ChainIdOf;
    ghost var payload := ctx.buffer;
    NothingRead(payload);
    err := ReadChainId(ctx, tx, networks, []);
    if err != Ok {
      return;
    }
    assert [] + [tx.chainId] == [tx.chainId];
    AllRead(payload, [tx.chainId], ctx.offset);
    var nonce;
    err, nonce := NextField(ctx, [tx.chainId]);
    if err != Ok {
      TooFew(payload, 2, n);
      return;
    }
    assert [tx.chainId] + [nonce] == [tx.chainId, nonce];
    tx.nonce := nonce;
  }

  /** Chain id, seven fields, nothing else. */
  method Parse2930(ctx: ParserContext, tx: EthTx, networks: seq<u64>) returns (err: ParserError)
    requires ctx.offset == 0 && tx.txType == Eip2930 && |networks| < 256
    modifies ctx, tx
    ensures tx.txType == Eip2930
    ensures err == TypedError(ctx.buffer, 8, networks)
    ensures err == Ok ==> AllItems(ctx.buffer).Got?
    ensures err == Ok ==> tx.Holds(AllItems(ctx.buffer).value) && tx.ChainDecoded()
  {
    hide Reading, AllItems, Readable, EndsAfter, FirstItems, ChainError, ChainIdOf;
    ghost var payload := ctx.buffer;
    err := ReadHead(ctx, tx, networks, 8);
    if err != Ok {
      return;
    }
    ghost var items := [tx.chainId, tx.nonce];
    var gasPrice, accessList;
    err, gasPrice := NextField(ctx, items);
    if err != Ok {
      TooFew(payload, 3, 8);
      return;
    }
    items := items + [gasPrice];
    tx.gasPrice := gasPrice;
    err := ReadCore(ctx, tx, items);
    if err != Ok {
      TooFew(payload, 7, 8);
      return;
    }
    items := items + [tx.gasLimit, tx.to, tx.value, tx.data];
    err, accessList := NextField(ctx, items);
    if err != Ok {
      return;
    }
    tx.accessList := accessList;
    items := items + [tx.accessList];
    AllRead(payload, items, ctx.offset);
    if ctx.offset < |ctx.buffer| {
      return UnsupportedTx;
    }
  }

  /** Chain id, eight fields, nothing else. */
  method Parse1559(ctx: ParserContext, tx: EthTx, networks: seq<u64>) returns (err: ParserError)
    requires ctx.offset == 0 && tx.txType == Eip1559 && |networks| < 256
    modifies ctx, tx
    ensures tx.txType == Eip1559
    ensures err == TypedError(ctx.buffer, 9, networks)
    ensures err == Ok ==> AllItems(ctx.buffer).Got?
    ensures err == Ok ==> tx.Holds(AllItems(ctx.buffer).value) && tx.ChainDecoded()
  {
    hide Reading, AllItems, Readable, EndsAfter, FirstItems, ChainError, ChainIdOf;
    ghost var payload := ctx.buffer;
    err := ReadHead(ctx, tx, networks, 9);
    if err != Ok {
      return;
    }
    ghost var items := [tx.chainId, tx.nonce];
    var maxPriorityFee, maxFee, accessList;
    err, maxPriorityFee := NextField(ctx, items);
    if err != Ok {
      TooFew(payload, 3, 9);
      return;
    }
    items := items + [maxPriorityFee];
    err, maxFee := NextField(ctx, items);
    if err != Ok {
      TooFew(payload, 4, 9);
      return;
    }
    items := items + [maxFee];
    tx.maxPriorityFee := maxPriorityFee;
    tx.maxFee := maxFee;
    err := ReadCore(ctx, tx, items);
    if err != Ok {
      TooFew(payload, 8, 9);
      return;
    }
    items := items + [tx.gasLimit, tx.to, tx.value, tx.data];
    err, accessList := NextField(ctx, items);
    if err != Ok {
      return;
    }
    tx.accessList := accessList;
    items := items + [tx.accessList];
    AllRead(payload, items, ctx.offset);
    if ctx.offset < |ctx.buffer| {
      return UnsupportedTx;
    }
  }

  /** The type of the transaction; a type byte is consumed, the prefix of a legacy list is not. */
  method ReadTxnType(ctx: ParserContext) returns (err: ParserError, ty: TxType)
    requires ctx.Valid()
    modifies ctx
    ensures ctx.Valid()
    ensures err == if ctx.buffer == [] || old(ctx.offset) != 0 then UnexpectedError
                   else if EnvelopeOf(ctx.buffer).Unsupported? then UnsupportedTx
                   else Ok
    ensures err == Ok ==> Envelope(ty, ctx.offset) == EnvelopeOf(ctx.buffer)
    ensures err != Ok ==> ctx.offset == old(ctx.offset)
  {
    ty := Legacy;
    if |ctx.buffer| == 0 || ctx.offset != 0 {
      return UnexpectedError, ty;
    }
    var marker := ctx.buffer[ctx.offset];
    if marker == 1 || marker == 2 {
      ctx.offset := ctx.offset + 1;
      return Ok, if marker == 1 then Eip2930 else Eip1559;
    }
    if marker < 0xC0 {
      return UnsupportedTx, ty;
    }
    err := Ok;
  }

  /** Parses a buffer from its start.  The error is the one of the specification; without one the buffer is
      accepted and every field holds its item. */
  method ReadEth(ctx: ParserContext, tx: EthTx, networks: seq<u64>) returns (err: ParserError)
    requires ctx.offset == 0 && |networks| < 256
    modifies ctx, tx
    ensures err == TxError(ctx.buffer, networks)
    ensures err == Ok ==>
              && Accepts(ctx.buffer, networks)
              && tx.txType == EnvelopeOf(ctx.buffer).ty
              && tx.Holds(TxItems(ctx.buffer, networks))
              && ((tx.txType == Legacy && |TxItems(ctx.buffer, networks)| == 6) || tx.ChainDecoded())
  {
    hide ReadItem, AllItems, LegacyError, TypedError, PayloadAccepted, ChainIdOf;
    ghost var buffer := ctx.buffer;
    TxErrorOk(buffer, networks);
    tx.Clear();
    var ty, list;
    err, ty := ReadTxnType(ctx);
    if err != Ok {
      return;
    }
    tx.txType := ty;
    ghost var at := ctx.offset;
    ReadItemSize(buffer[at..]);
    err, list := ReadRlp(ctx);
    if err != Ok {
      return;
    }
    if list.kind != List {
      return UnexpectedValue;
    }
    if ctx.offset != |ctx.buffer| {
      return UnsupportedTx;
    }
    var txCtx := new ParserContext(list.payload);
    match tx.txType {
      case Eip1559 => err := Parse1559(txCtx, tx, networks);
      case Eip2930 => err := Parse2930(txCtx, tx, networks);
      case Legacy => err := ParseLegacy(txCtx, tx, networks);
    }
  }
}
