/** evm/apdu_handler_evm.c as a state machine: what each chunk of a transaction or of a personal message
    does to the session, and what whole runs of chunks put together. */
module ChunkProtocol {
  import opened Numerals
  import opened Words
  import opened EvmUtils
  import opened Buffering
  import opened TxFormat

  const P1_ETH_FIRST: byte := 0x00
  const P1_ETH_MORE: byte := 0x80

  const WRONG_LENGTH: nat := 0x6700
  const OUTPUT_BUFFER_TOO_SMALL: nat := 0x6983
  const DATA_INVALID: nat := 0x6984
  const TX_NOT_INITIALIZED: nat := 0x6987
  const INVALID_P1P2: nat := 0x6B00

  const HDPATH_LEN_DEFAULT: nat := 5

  datatype Session = Session(initialized: bool, bytesToRead: u32, path: seq<u32>, store: Store)

  /** A chunk either throws, which ends the session, or is taken; the last one completes it. */
  datatype Step = Threw(code: nat) | Went(session: Session, complete: bool)

  // ---------------------------------------------------------------- the derivation path

  datatype PathResult = GoodPath(path: seq<u32>) | BadPath(code: nat)

  /** Four bytes, most significant first. */
  function U4BE(s: seq<byte>): (n: u32)
    requires |s| >= 4
    ensures n == Value(s[..4], 256)
  {
    ValueBound(s[..4], 256);
    FourBytes();
    Value(s[..4], 256)
  }

  lemma FourBytes()
    ensures Pow(256, 4) == 0x1_0000_0000
  {
  }

  function PathWords(data: seq<byte>, n: nat): (path: seq<u32>)
    requires |data| >= 1 + 4 * n
    ensures |path| == n
  {
    seq(n, i requires 0 <= i < n => U4BE(data[1 + 4 * i..]))
  }

  /** A length from 3 to 5, then so many words, the first two being 44' and 60'. */
  function PathOf(data: seq<byte>): PathResult {
    if data == [] || data[0] < 3 || data[0] > HDPATH_LEN_DEFAULT || |data| < 1 + 4 * data[0] then BadPath(WRONG_LENGTH)
    else
      var path := PathWords(data, data[0]);
      if path[0] == 0x8000_002C && path[1] == 0x8000_003C then GoodPath(path) else BadPath(DATA_INVALID)
  }

  /** What follows the path in a first chunk. */
  function Behind(data: seq<byte>): seq<byte>
    requires PathOf(data).GoodPath?
  {
    data[1 + 4 * data[0]..]
  }

  // ---------------------------------------------------------------- paths as they are sent

  /** A word as four bytes, most significant first. */
  function WordBytes(w: u32): (bytes: seq<byte>)
    ensures |bytes| == 4
  {
    [w / 256 / 256 / 256, w / 256 / 256 % 256, w / 256 % 256, w % 256]
  }

  function PathBytes(words: seq<u32>): (bytes: seq<byte>)
    ensures |bytes| == 4 * |words|
  {
    if words == [] then [] else PathBytes(words[..|words| - 1]) + WordBytes(words[|words| - 1])
  }

  lemma WordRead(w: u32, rest: seq<byte>)
    ensures U4BE(WordBytes(w) + rest) == w
  {
    hide Value;
    assert (WordBytes(w) + rest)[..4] == WordBytes(w);
    WordValue(w / 256 / 256 / 256, w / 256 / 256 % 256, w / 256 % 256, w % 256);
  }

  lemma WordValue(a: byte, b: byte, c: byte, d: byte)
    ensures Value([a, b, c, d], 256) == 256 * (256 * (256 * a as int + b) + c) + d
  {
    hide Value;
    OneByte(a);
    ValueSnoc([a], b, 256);
    ValueSnoc([a, b], c, 256);
    ValueSnoc([a, b, c], d, 256);
    assert [a] + [b] == [a, b] && [a, b] + [c] == [a, b, c] && [a, b, c] + [d] == [a, b, c, d];
  }

  lemma {:induction false} PathBytesSplit(words: seq<u32>, i: nat)
    requires i < |words|
    ensures PathBytes(words)[4 * i..][..4] == WordBytes(words[i])
  {
    hide WordBytes;
    var k := |words| - 1;
    if i < k {
      PathBytesSplit(words[..k], i);
      assert PathBytes(words)[4 * i..4 * i + 4] == PathBytes(words[..k])[4 * i..4 * i + 4];
    }
  }

  lemma WordAt(head: seq<byte>, bytes: seq<byte>, rest: seq<byte>, i: nat)
    requires |head| == 1 && 4 * i + 4 <= |bytes|
    ensures var data := head + bytes + rest;
            data[1 + 4 * i..] == bytes[4 * i..][..4] + data[5 + 4 * i..]
  {
  }

  lemma PathWordsSent(head: seq<byte>, words: seq<u32>, rest: seq<byte>)
    requires |head| == 1
    ensures PathWords(head + PathBytes(words) + rest, |words|) == words
  {
    hide U4BE, WordBytes, PathBytes;
    var data := head + PathBytes(words) + rest;
    forall i | 0 <= i < |words|
      ensures U4BE(data[1 + 4 * i..]) == words[i]
    {
      PathBytesSplit(words, i);
      WordAt(head, PathBytes(words), rest, i);
      WordRead(words[i], data[5 + 4 * i..]);
    }
  }

  /** A path sent word by word in order is read back in order, whatever follows it, exactly when it has three
      to five words, the first two being 44' and 60'. */
  lemma PathSent(words: seq<u32>, rest: seq<byte>)
    requires |words| < 256
    ensures var data := [|words|] + PathBytes(words) + rest;
            && PathOf(data) == (
                 if |words| < 3 || |words| > 5 then BadPath(0x6700)
                 else if words[0] == 0x8000_002C && words[1] == 0x8000_003C then GoodPath(words)
                 else BadPath(0x6984))
            && (PathOf(data).GoodPath? ==> Behind(data) == rest)
  {
    hide U4BE, WordBytes, PathBytes, PathWords;
    PathWordsSent([|words|], words, rest);
  }

  /** A path cut short, or nothing at all, has the wrong length. */
  lemma PathCutShort(n: byte, bytes: seq<byte>)
    requires |bytes| < 4 * n
    ensures PathOf([n] + bytes) == BadPath(0x6700) && PathOf([]) == BadPath(0x6700)
  {
  }

  // ---------------------------------------------------------------- transactions

  function Min(a: nat, b: nat): nat { if a < b then a else b }

  /** The bytes of a transaction that belong to it. */
  function Total(h: Header): nat { h.read + h.toRead }

  function EthFirst(sizes: Sizes, bytesToRead: u32, data: seq<byte>): Step {
    match PathOf(data)
    case BadPath(code) => Threw(code)
    case GoodPath(path) =>
      var tx := Behind(data);
      match HeaderOf(tx)
      case NotFound(_) => Threw(DATA_INVALID)
      case Found(h) =>
        var (store, ok) := Appended(EMPTY, sizes, tx[..Min(Total(h), |tx|)]);
        if ok then Went(Session(true, bytesToRead, path, store), Total(h) == |tx|)
        else Threw(OUTPUT_BUFFER_TOO_SMALL)
  }

  /** The bytes still missing, from the header of what is stored. */
  function EthMore(sizes: Sizes, s: Session, data: seq<byte>): Step {
    if !s.initialized then Threw(TX_NOT_INITIALIZED)
    else
      match HeaderOf(s.store.content)
      case NotFound(_) => Threw(DATA_INVALID)
      case Found(h) =>
        var missing := Wrap64(Total(h) - |s.store.content|);
        var (store, ok) := Appended(s.store, sizes, data[..Min(missing, |data|)]);
        if ok then Went(s.(store := store), missing == |data|)
        else Threw(OUTPUT_BUFFER_TOO_SMALL)
  }

  // ---------------------------------------------------------------- personal messages (EIP-191)

  function MessageFirst(sizes: Sizes, data: seq<byte>): Step {
    match PathOf(data)
    case BadPath(code) => Threw(code)
    case GoodPath(path) =>
      var message := Behind(data);
      if |message| < 4 then Threw(WRONG_LENGTH)
      else
        var left := Wrap32(U4BE(message) - (|message| - 4));
        var (store, ok) := Appended(EMPTY, sizes, message);
        if ok then Went(Session(true, left, path, store), left == 0)
        else Threw(OUTPUT_BUFFER_TOO_SMALL)
  }

  function MessageMore(sizes: Sizes, s: Session, data: seq<byte>): Step {
    if !s.initialized then Threw(TX_NOT_INITIALIZED)
    else
      var left := Wrap32(s.bytesToRead - |data|);
      var (store, ok) := Appended(s.store, sizes, data);
      if ok then Went(s.(store := store, bytesToRead := left), left == 0)
      else Threw(OUTPUT_BUFFER_TOO_SMALL)
  }

  // ---------------------------------------------------------------- commands

  /** A command of rx bytes: parameters 1 and 2 at offsets 2 and 3, the data from offset 5 on. */
  function EthChunk(sizes: Sizes, s: Session, apdu: seq<byte>, rx: nat): Step
    requires 5 <= |apdu| && rx <= |apdu|
  {
    if apdu[3] != 0 then Threw(INVALID_P1P2)
    else if rx < 5 then Threw(WRONG_LENGTH)
    else if apdu[2] == P1_ETH_FIRST then EthFirst(sizes, s.bytesToRead, apdu[5..rx])
    else if apdu[2] == P1_ETH_MORE then EthMore(sizes, s, apdu[5..rx])
    else Threw(INVALID_P1P2)
  }

  function MessageChunk(sizes: Sizes, s: Session, apdu: seq<byte>, rx: nat): Step
    requires 5 <= |apdu| && rx <= |apdu|
  {
    if apdu[3] != 0 then Threw(INVALID_P1P2)
    else if rx < 5 then Threw(WRONG_LENGTH)
    else if apdu[2] == P1_ETH_FIRST then MessageFirst(sizes, apdu[5..rx])
    else if apdu[2] == P1_ETH_MORE then MessageMore(sizes, s, apdu[5..rx])
    else Threw(INVALID_P1P2)
  }

  /** The codes a transaction command is refused with, in the order of the checks. */
  lemma EthCodes(sizes: Sizes, s: Session, apdu: seq<byte>, rx: nat)
    requires 5 <= |apdu| && rx <= |apdu|
    ensures var step := EthChunk(sizes, s, apdu, rx);
            && (apdu[3] != 0 ==> step == Threw(0x6B00))
            && (apdu[3] == 0 && rx < 5 ==> step == Threw(0x6700))
            && (apdu[3] == 0 && rx >= 5 ==>
                  var data := apdu[5..rx];
                  && (apdu[2] != 0 && apdu[2] != 0x80 ==> step == Threw(0x6B00))
                  && (apdu[2] == 0 && PathOf(data).BadPath? ==> step == Threw(PathOf(data).code))
                  && (apdu[2] == 0 && PathOf(data).GoodPath? && HeaderOf(Behind(data)).NotFound? ==> step == Threw(0x6984))
                  && (apdu[2] == 0x80 && !s.initialized ==> step == Threw(0x6987))
                  && (step.Threw? && apdu[2] == 0 && PathOf(data).GoodPath? && HeaderOf(Behind(data)).Found?
                      ==> step.code == 0x6983)
                  && (step.Threw? && apdu[2] == 0x80 && s.initialized
                      ==> step.code == if HeaderOf(s.store.content).Found? then 0x6983 else 0x6984))
  {
    hide HeaderOf, PathOf, Behind, Appended;
  }

  lemma MessageCodes(sizes: Sizes, s: Session, apdu: seq<byte>, rx: nat)
    requires 5 <= |apdu| && rx <= |apdu|
    ensures var step := MessageChunk(sizes, s, apdu, rx);
            && (apdu[3] != 0 ==> step == Threw(0x6B00))
            && (apdu[3] == 0 && rx < 5 ==> step == Threw(0x6700))
            && (apdu[3] == 0 && rx >= 5 ==>
                  var data := apdu[5..rx];
                  && (apdu[2] != 0 && apdu[2] != 0x80 ==> step == Threw(0x6B00))
                  && (apdu[2] == 0 && PathOf(data).BadPath? ==> step == Threw(PathOf(data).code))
                  && (apdu[2] == 0 && PathOf(data).GoodPath? && |Behind(data)| < 4 ==> step == Threw(0x6700))
                  && (apdu[2] == 0x80 && !s.initialized ==> step == Threw(0x6987))
                  && (step.Threw? && apdu[2] == 0 && PathOf(data).GoodPath? && |Behind(data)| >= 4 ==> step.code == 0x6983)
                  && (step.Threw? && apdu[2] == 0x80 && s.initialized ==> step.code == 0x6983))
  {
    hide PathOf, Behind, Appended, U4BE;
  }

  // ---------------------------------------------------------------- runs

  /** The state between two commands: completing a transaction closes the session. */
  function Closed(s: Session): Session { s.(initialized := false, bytesToRead := 0) }

  function After(step: Step): Session
    requires step.Went?
  {
    if step.complete then Closed(step.session) else step.session
  }

  /** A first chunk followed by further ones.  What throws on the way ends the run. */
  function EthRun(sizes: Sizes, counter: u32, first: seq<byte>, mores: seq<seq<byte>>): Step {
    if mores == [] then EthFirst(sizes, counter, first)
    else
      var before := EthRun(sizes, counter, first, mores[..|mores| - 1]);
      if before.Threw? then before else EthMore(sizes, After(before), mores[|mores| - 1])
  }

  function MessageRun(sizes: Sizes, first: seq<byte>, mores: seq<seq<byte>>): Step {
    if mores == [] then MessageFirst(sizes, first)
    else
      var before := MessageRun(sizes, first, mores[..|mores| - 1]);
      if before.Threw? then before else MessageMore(sizes, After(before), mores[|mores| - 1])
  }

  /** All bytes sent behind the path. */
  function Received(first: seq<byte>, mores: seq<seq<byte>>): seq<byte>
    requires PathOf(first).GoodPath?
  {
    if mores == [] then Behind(first)
    else Received(first, mores[..|mores| - 1]) + mores[|mores| - 1]
  }

  /** Bytes taken by the store are kept in order, unless a move to flash drops them. */
  lemma AppendedContent(s: Store, sizes: Sizes, data: seq<byte>)
    requires sizes.ram <= sizes.flash
    requires |s.content| <= if s.inRam then sizes.ram else sizes.flash
    ensures var (next, ok) := Appended(s, sizes, data);
            && (ok <==> |s.content| + |data| <= sizes.flash)
            && (ok ==> next.content == s.content + data)
            && |next.content| <= if next.inRam then sizes.ram else sizes.flash
  {
  }

  /** The state a run of transaction chunks keeps: the stored bytes are those received, cut off at the
      length the header announces, and that header is the one of the first chunk. */
  ghost predicate Assembling(sizes: Sizes, first: seq<byte>, received: seq<byte>, s: Session) {
    && PathOf(first) == GoodPath(s.path)
    && HeaderOf(Behind(first)).Found?
    && var h := HeaderOf(Behind(first)).header;
      && HeaderOf(s.store.content) == Found(h)
      && Behind(first) <= received
      && s.store.content == received[..Min(Total(h), |received|)]
      && |s.store.content| <= if s.store.inRam then sizes.ram else sizes.flash
  }

  lemma Taken(content: seq<byte>, received: seq<byte>, data: seq<byte>, total: nat)
    requires content == received[..Min(total, |received|)]
    ensures |content| <= total
    ensures content + data[..Min(total - |content|, |data|)] == (received + data)[..Min(total, |received| + |data|)]
    ensures total - |content| == |data| ==> |content| == |received| || data == []
  {
  }

  lemma HeaderKept(content: seq<byte>, longer: seq<byte>)
    requires HeaderOf(content).Found? && content <= longer
    ensures HeaderOf(longer) == HeaderOf(content)
  {
    HeaderStable(content, longer);
  }

  lemma EthFirstAssembles(sizes: Sizes, counter: u32, first: seq<byte>)
    requires sizes.ram <= sizes.flash
    requires EthFirst(sizes, counter, first).Went?
    ensures var step := EthFirst(sizes, counter, first);
            && step.session.initialized
            && Assembling(sizes, first, Behind(first), step.session)
            && (step.complete <==> |Behind(first)| == Total(HeaderOf(Behind(first)).header))
  {
    hide HeaderOf, PathOf, Behind;
    var tx := Behind(first);
    var h := HeaderOf(tx).header;
    var stored := tx[..Min(Total(h), |tx|)];
    HeaderStable(tx, stored);
    assert stored[..h.read] == tx[..h.read];
    AppendedContent(EMPTY, sizes, stored);
    assert [] + stored == stored;
  }

  lemma EthMoreAssembles(sizes: Sizes, first: seq<byte>, received: seq<byte>, s: Session, data: seq<byte>)
    requires sizes.ram <= sizes.flash
    requires Assembling(sizes, first, received, s) && s.initialized
    ensures var h := HeaderOf(Behind(first)).header;
            var step := EthMore(sizes, s, data);
            && (step.Went? <==> Min(Total(h), |received| + |data|) <= sizes.flash)
            && (step.Threw? ==> step.code == OUTPUT_BUFFER_TOO_SMALL)
            && (step.Went? ==>
                  && step.session.initialized
                  && Assembling(sizes, first, received + data, step.session)
                  && (step.complete <==> Total(h) - |s.store.content| == |data|))
  {
    hide HeaderOf, PathOf, Behind, Appended;
    var h := HeaderOf(Behind(first)).header;
    var content := s.store.content;
    HeaderBounds(content);
    Taken(content, received, data, Total(h));
    MissingInRange(content, h);
    AppendedContent(s.store, sizes, data[..Min(Total(h) - |content|, |data|)]);
    HeaderKept(content, content + data[..Min(Total(h) - |content|, |data|)]);
  }

  /** The count of missing bytes does not wrap. */
  lemma MissingInRange(content: seq<byte>, h: Header)
    requires HeaderOf(content) == Found(h) && |content| <= Total(h)
    ensures Wrap64(Total(h) - |content|) == Total(h) - |content|
  {
    hide HeaderOf;
    HeaderStable(content, content);
    HeaderBounds(content);
  }

  /** In every run that does not throw: the store holds exactly the first min(read + to_read, received)
      bytes received, each chunk sees the same header, and the last chunk completes the transaction just
      when it ends where the transaction does, or, the bytes having gone past that, when it is empty. */
  lemma {:induction false} EthRunAssembles(sizes: Sizes, counter: u32, first: seq<byte>, mores: seq<seq<byte>>)
    requires sizes.ram <= sizes.flash
    requires EthRun(sizes, counter, first, mores).Went?
    ensures PathOf(first).GoodPath? && HeaderOf(Behind(first)).Found?
    ensures var h := HeaderOf(Behind(first)).header;
            var step, received := EthRun(sizes, counter, first, mores), Received(first, mores);
            && step.session.initialized
            && Assembling(sizes, first, received, step.session)
            && (step.complete <==>
                || |received| == Total(h)
                || (mores != [] && |received| > Total(h) && mores[|mores| - 1] == []))
  {
    hide HeaderOf, PathOf, Behind, Assembling, EthFirst, EthMore;
    if mores == [] {
      EthFirstWent(sizes, counter, first);
      EthFirstAssembles(sizes, counter, first);
    } else {
      var init, data := mores[..|mores| - 1], mores[|mores| - 1];
      EthRunAssembles(sizes, counter, first, init);
      var before, received := EthRun(sizes, counter, first, init), Received(first, init);
      NotClosed(sizes, before, data);
      EthMoreAssembles(sizes, first, received, before.session, data);
      StoredLength(sizes, first, received, before.session);
    }
  }

  lemma EthFirstWent(sizes: Sizes, counter: u32, first: seq<byte>)
    requires EthFirst(sizes, counter, first).Went?
    ensures PathOf(first).GoodPath? && HeaderOf(Behind(first)).Found?
  {
  }

  lemma NotClosed(sizes: Sizes, before: Step, data: seq<byte>)
    requires before.Went? && EthMore(sizes, After(before), data).Went?
    ensures !before.complete && After(before) == before.session
  {
  }

  lemma StoredLength(sizes: Sizes, first: seq<byte>, received: seq<byte>, s: Session)
    requires Assembling(sizes, first, received, s)
    ensures HeaderOf(Behind(first)).Found?
    ensures |s.store.content| == Min(Total(HeaderOf(Behind(first)).header), |received|)
  {
  }

  /** A run that completes has stored the whole transaction and nothing else. */
  lemma EthComplete(sizes: Sizes, counter: u32, first: seq<byte>, mores: seq<seq<byte>>)
    requires sizes.ram <= sizes.flash
    requires EthRun(sizes, counter, first, mores).Went? && EthRun(sizes, counter, first, mores).complete
    ensures PathOf(first).GoodPath?
    ensures var content := EthRun(sizes, counter, first, mores).session.store.content;
            && HeaderOf(content).Found?
            && |content| == Total(HeaderOf(content).header)
            && content <= Received(first, mores)
  {
    hide HeaderOf, PathOf, Behind;
    EthRunAssembles(sizes, counter, first, mores);
  }

  /** A transaction that fits the store, cut into chunks of which the first reaches past the header. */
  lemma {:induction false} EthChunksFit(sizes: Sizes, counter: u32, first: seq<byte>, mores: seq<seq<byte>>)
    requires sizes.ram <= sizes.flash
    requires PathOf(first).GoodPath? && HeaderOf(Behind(first)).Found?
    requires |Received(first, mores)| <= Total(HeaderOf(Behind(first)).header)
    requires |Received(first, mores)| <= sizes.flash
    requires forall i | 0 <= i < |mores| :: mores[i] != []
    ensures EthRun(sizes, counter, first, mores).Went?
  {
    hide HeaderOf, PathOf, Behind, Assembling, EthFirst, EthMore;
    if mores == [] {
      EthFirstFits(sizes, counter, first);
    } else {
      var init, data := mores[..|mores| - 1], mores[|mores| - 1];
      EthChunksFit(sizes, counter, first, init);
      EthRunAssembles(sizes, counter, first, init);
      EthMoreAssembles(sizes, first, Received(first, init), EthRun(sizes, counter, first, init).session, data);
    }
  }

  lemma EthFirstFits(sizes: Sizes, counter: u32, first: seq<byte>)
    requires PathOf(first).GoodPath? && HeaderOf(Behind(first)).Found?
    requires |Behind(first)| <= Total(HeaderOf(Behind(first)).header) && |Behind(first)| <= sizes.flash
    ensures EthFirst(sizes, counter, first).Went?
  {
  }

  /** However the beginning of a transaction is cut into non-empty chunks, no chunk throws exactly when the
      first of them reaches past the header and the store has room; then all of it is stored, and the last
      chunk completes it just when it is all there. */
  lemma EthDelivers(sizes: Sizes, counter: u32, first: seq<byte>, mores: seq<seq<byte>>)
    requires sizes.ram <= sizes.flash
    requires PathOf(first).GoodPath?
    requires HeaderOf(Behind(first)).Found? ==> |Received(first, mores)| <= Total(HeaderOf(Behind(first)).header)
    requires forall i | 0 <= i < |mores| :: mores[i] != []
    ensures var step, received := EthRun(sizes, counter, first, mores), Received(first, mores);
            && (step.Went? <==> HeaderOf(Behind(first)).Found? && |received| <= sizes.flash)
            && (step.Went? ==>
                  && step.session.store.content == received
                  && (step.complete <==> |received| == Total(HeaderOf(Behind(first)).header)))
  {
    hide HeaderOf, PathOf, Behind, EthFirst, EthMore, Received;
    if HeaderOf(Behind(first)).Found? && |Received(first, mores)| <= sizes.flash {
      EthChunksFit(sizes, counter, first, mores);
    }
    if EthRun(sizes, counter, first, mores).Went? {
      EthRunAssembles(sizes, counter, first, mores);
      StoredAll(sizes, first, Received(first, mores), EthRun(sizes, counter, first, mores).session);
    }
  }

  lemma StoredAll(sizes: Sizes, first: seq<byte>, received: seq<byte>, s: Session)
    requires Assembling(sizes, first, received, s)
    requires |received| <= Total(HeaderOf(Behind(first)).header)
    ensures s.store.content == received
  {
  }

  /** Every transaction the parser accepts is put together from non-empty chunks, complete with the last of
      them, exactly when the first reaches past its header and the store has room. */
  lemma EthDeliversAccepted(sizes: Sizes, counter: u32, first: seq<byte>, mores: seq<seq<byte>>, networks: seq<u64>)
    requires sizes.ram <= sizes.flash
    requires PathOf(first).GoodPath?
    requires forall i | 0 <= i < |mores| :: mores[i] != []
    requires Accepts(Received(first, mores), networks)
    ensures var step, received := EthRun(sizes, counter, first, mores), Received(first, mores);
            step.Went? && step.complete && step.session.store.content == received
            <==> HeaderOf(Behind(first)).Found? && |received| <= sizes.flash
  {
    hide HeaderOf, PathOf, Behind, Accepts, EthRun;
    var tx := Received(first, mores);
    AcceptedLength(tx, networks);
    ReceivedPrefix(first, mores);
    if HeaderOf(Behind(first)).Found? {
      HeaderKept(Behind(first), tx);
    }
    EthDelivers(sizes, counter, first, mores);
  }

  lemma {:induction false} ReceivedPrefix(first: seq<byte>, mores: seq<seq<byte>>)
    requires PathOf(first).GoodPath?
    ensures Behind(first) <= Received(first, mores)
  {
    hide PathOf, Behind;
    if mores != [] {
      ReceivedPrefix(first, mores[..|mores| - 1]);
    }
  }

  // ---------------------------------------------------------------- runs of message chunks

  /** The counter is what the declared length leaves, modulo 2^32, and the store is all bytes received. */
  ghost predicate Collecting(sizes: Sizes, first: seq<byte>, received: seq<byte>, s: Session) {
    && PathOf(first) == GoodPath(s.path)
    && |Behind(first)| >= 4 && Behind(first) <= received
    && s.store.content == received
    && s.bytesToRead == Wrap32(U4BE(Behind(first)) + 4 - |received|)
    && |received| <= if s.store.inRam then sizes.ram else sizes.flash
  }

  lemma WrapMinus(a: int, b: int)
    ensures Wrap32(Wrap32(a) - b) == Wrap32(a - b)
  {
  }

  /** Although the counter wraps, it is zero only at the declared length. */
  lemma CounterZero(declared: u32, received: nat)
    requires 4 <= received < TWO32
    ensures Wrap32(declared + 4 - received) == 0 <==> received == declared + 4
  {
  }

  /** In every run that does not throw the store holds all bytes received, and the last chunk completes the
      message exactly when they are the length field and as many bytes as it declares. */
  lemma {:induction false} MessageRunCollects(sizes: Sizes, first: seq<byte>, mores: seq<seq<byte>>)
    requires sizes.ram <= sizes.flash < TWO32
    requires MessageRun(sizes, first, mores).Went?
    ensures PathOf(first).GoodPath? && |Behind(first)| >= 4
    ensures var step, received := MessageRun(sizes, first, mores), Received(first, mores);
            && step.session.initialized
            && Collecting(sizes, first, received, step.session)
            && (step.complete <==> |received| == U4BE(Behind(first)) + 4)
  {
    hide PathOf, Behind, U4BE, Appended, Wrap32;
    if mores == [] {
      AppendedContent(EMPTY, sizes, Behind(first));
      CounterZero(U4BE(Behind(first)), |Behind(first)|);
    } else {
      var init, data := mores[..|mores| - 1], mores[|mores| - 1];
      MessageRunCollects(sizes, first, init);
      var before, received := MessageRun(sizes, first, init), Received(first, init);
      AppendedContent(before.session.store, sizes, data);
      WrapMinus(U4BE(Behind(first)) + 4 - |received|, |data|);
      CounterZero(U4BE(Behind(first)), |received + data|);
    }
  }

  lemma {:induction false} MessageChunksFit(sizes: Sizes, first: seq<byte>, mores: seq<seq<byte>>)
    requires sizes.ram <= sizes.flash < TWO32
    requires PathOf(first).GoodPath? && |Behind(first)| >= 4
    requires |Received(first, mores)| <= U4BE(Behind(first)) + 4 && |Received(first, mores)| <= sizes.flash
    requires forall i | 0 <= i < |mores| :: mores[i] != []
    ensures MessageRun(sizes, first, mores).Went?
  {
    hide PathOf, Behind, U4BE, Appended;
    if mores == [] {
      AppendedContent(EMPTY, sizes, Behind(first));
    } else {
      var init, data := mores[..|mores| - 1], mores[|mores| - 1];
      MessageChunksFit(sizes, first, init);
      MessageRunCollects(sizes, first, init);
      AppendedContent(MessageRun(sizes, first, init).session.store, sizes, data);
    }
  }

  /** However the beginning of a message is cut into non-empty chunks, no chunk throws exactly when the first
      of them holds the length and the store has room; then all of it is stored, and the last chunk completes
      it just when it is all there. */
  lemma MessageDelivers(sizes: Sizes, first: seq<byte>, mores: seq<seq<byte>>)
    requires sizes.ram <= sizes.flash < TWO32
    requires PathOf(first).GoodPath?
    requires |Behind(first)| >= 4 ==> |Received(first, mores)| <= U4BE(Behind(first)) + 4
    requires forall i | 0 <= i < |mores| :: mores[i] != []
    ensures var step, received := MessageRun(sizes, first, mores), Received(first, mores);
            && (step.Went? <==> |Behind(first)| >= 4 && |received| <= sizes.flash)
            && (step.Went? ==>
                  && step.session.store.content == received
                  && (step.complete <==> |received| == U4BE(Behind(first)) + 4))
  {
    hide PathOf, Behind, U4BE, MessageFirst, MessageMore, Received;
    if |Behind(first)| >= 4 && |Received(first, mores)| <= sizes.flash {
      MessageChunksFit(sizes, first, mores);
    }
    if MessageRun(sizes, first, mores).Went? {
      MessageRunCollects(sizes, first, mores);
    }
  }
}
