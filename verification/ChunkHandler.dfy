/** evm/apdu_handler_evm.c: the handlers of transaction and message chunks. */
module ChunkHandler {
  import opened Numerals
  import opened Words
  import opened EvmUtils
  import opened Buffering
  import opened ChunkProtocol
  import opened ChunkTrace

  datatype Outcome = Done | More | Throw(code: nat)

  class Handler {
    var txInitialized: bool
    var bytesToRead: u32
    const hdPath: array<u32>
    var hdPathLen: nat
    const buffer: Buffer

    ghost predicate Valid()
      reads this, buffer, buffer.ram, buffer.flash
    {
      && buffer.Valid()
      && hdPath.Length == HDPATH_LEN_DEFAULT && hdPathLen <= HDPATH_LEN_DEFAULT
      && hdPath as object != buffer.ram.data && hdPath as object != buffer.flash.data
    }

    ghost function State(): Session
      requires Valid()
      reads this, hdPath, buffer, buffer.ram, buffer.flash, buffer.ram.data, buffer.flash.data
    {
      Session(txInitialized, bytesToRead, hdPath[..hdPathLen], buffer.State())
    }

    ghost function Footprint(): set<object>
      reads this, buffer
    {
      {this, hdPath, buffer.ram, buffer.flash, buffer.ram.data, buffer.flash.data}
    }

    constructor (buffer: Buffer)
      requires buffer.Valid()
      ensures Valid() && this.buffer == buffer && fresh(hdPath)
      ensures !txInitialized && bytesToRead == 0
    {
      this.buffer := buffer;
      hdPath := new u32[HDPATH_LEN_DEFAULT](_ => 0);
      hdPathLen := 0;
      txInitialized := false;
      bytesToRead := 0;
    }

    method ResetChunkState()
      requires Valid()
      modifies this`txInitialized, this`bytesToRead
      ensures Valid() && State() == Closed(old(State()))
    {
      txInitialized := false;
      bytesToRead := 0;
    }

    /** Reads the derivation path at the start of the data; returns the code thrown, or 0. */
    method ExtractEthPath(data: seq<byte>) returns (code: nat)
      requires Valid()
      modifies this`txInitialized, this`hdPathLen, hdPath
      ensures Valid() && !txInitialized
      ensures match PathOf(data)
              case BadPath(error) => code == error
              case GoodPath(path) => code == 0 && hdPath[..hdPathLen] == path && hdPathLen == data[0]
    {
      hide U4BE;
      txInitialized := false;
      if |data| == 0 {
        return WRONG_LENGTH;
      }
      var pathLen := data[0];
      if pathLen > HDPATH_LEN_DEFAULT || pathLen < 3 {
        return WRONG_LENGTH;
      }
      if |data| < 1 + 4 * pathLen {
        return WRONG_LENGTH;
      }
      for i := 0 to pathLen
        invariant forall k | 0 <= k < i :: hdPath[k] == U4BE(data[1 + 4 * k..])
        modifies hdPath
      {
        hdPath[i] := U4BE(data[1 + 4 * i..]);
      }
      assert hdPath[..pathLen] == PathWords(data, pathLen);
      PathDecided(data, hdPath[..pathLen]);
      if hdPath[0] != 0x8000_002C || hdPath[1] != 0x8000_003C {
        return DATA_INVALID;
      }
      hdPathLen := pathLen;
      code := 0;
    }

    /** Appends a chunk; the number of bytes returned tells whether it was taken. */
    method Append(data: seq<byte>) returns (ok: bool)
      requires Valid() && |data| < TWO32
      modifies buffer.ram, buffer.flash, buffer.ram.data, buffer.flash.data
      ensures Valid() && hdPath[..] == old(hdPath[..])
      ensures (buffer.State(), ok) == Appended(old(buffer.State()), buffer.BufferSizes(), data)
    {
      hide Appended;
      NothingRefused(buffer.State(), buffer.BufferSizes(), data);
      var added := buffer.Append(data);
      ok := Wrap32(added) == |data|;
    }

    /** What every first chunk begins with: an empty store and the path.  The payload is what follows it. */
    method StartSession(data: seq<byte>) returns (code: nat, payload: seq<byte>)
      requires Valid() && |data| < TWO32
      modifies Footprint()
      ensures Valid() && buffer.State() == EMPTY && bytesToRead == old(bytesToRead)
      ensures |payload| <= |data|
      ensures match PathOf(data)
              case BadPath(error) => code == error && code != 0
              case GoodPath(path) => code == 0 && hdPath[..hdPathLen] == path && payload == Behind(data)
    {
      hide PathOf;
      buffer.Clear();
      payload := [];
      code := ExtractEthPath(data);
      PathCodes(data);
      if code != 0 {
        return;
      }
      PathFits(data);
      var pathLen := 4 * hdPathLen;
      if |data| < pathLen + 1 {
        return WRONG_LENGTH, payload;
      }
      payload := data[pathLen + 1..];
    }

    /** The command with parameter P1_ETH_FIRST: the path, then the beginning of the transaction. */
    method EthFirstChunk(data: seq<byte>) returns (outcome: Outcome)
      requires Valid() && |data| < TWO32
      modifies Footprint()
      ensures Valid()
      ensures match EthFirst(buffer.BufferSizes(), old(bytesToRead), data)
              case Threw(code) => outcome == Throw(code)
              case Went(s, complete) => State() == s && outcome == if complete then Done else More
    {
      hide PathOf, HeaderOf, Appended, Behind;
      var code, tx := StartSession(data);
      if code != 0 {
        return Throw(code);
      }
      var failed, read, toRead := GetTxRlpLen(tx);
      if failed != RlpOk {
        return Throw(DATA_INVALID);
      }
      var maxLen := SaturatingAdd(read, toRead);
      if |tx| < maxLen {
        maxLen := |tx|;
      }
      assert maxLen == if read as int + toRead < |tx| then read as int + toRead else |tx|;
      var ok := Append(tx[..maxLen]);
      if !ok {
        return Throw(OUTPUT_BUFFER_TOO_SMALL);
      }
      txInitialized := true;
      outcome := if Sub64(SaturatingAdd(read, toRead), |tx|) == 0 then Done else More;
    }

    /** The command with parameter P1_ETH_MORE: the header is read again from what is stored. */
    method EthMoreChunk(data: seq<byte>) returns (outcome: Outcome)
      requires Valid() && |data| < TWO32
      modifies Footprint()
      ensures Valid()
      ensures match EthMore(buffer.BufferSizes(), old(State()), data)
              case Threw(code) => outcome == Throw(code)
              case Went(s, complete) => State() == s && outcome == if complete then Done else More
    {
      hide HeaderOf, Appended, Wrap64;
      if !txInitialized {
        return Throw(TX_NOT_INITIALIZED);
      }
      ghost var content := buffer.State().content;
      var side := buffer.GetBuffer();
      var stored := side.data[..side.pos];
      assert stored == content;
      var failed, read, toRead := GetTxRlpLen(stored);
      if failed != RlpOk {
        return Throw(DATA_INVALID);
      }
      MissingWrapped(read, toRead, |stored|);
      var rlpRead := Sub64(|stored|, read);
      var missing := Sub64(toRead, rlpRead);
      var maxLen := |data|;
      if missing < |data| {
        maxLen := missing;
      }
      assert maxLen == Min(missing, |data|);
      var ok := Append(data[..maxLen]);
      if !ok {
        return Throw(OUTPUT_BUFFER_TOO_SMALL);
      }
      DifferenceZero(missing, |data|);
      outcome := if Sub64(missing, |data|) == 0 then Done else More;
    }

    method ProcessChunkEth(apdu: seq<byte>, rx: nat) returns (outcome: Outcome)
      requires Valid() && 5 <= |apdu| < TWO32 && rx <= |apdu|
      modifies Footprint()
      ensures Valid()
      ensures match EthChunk(buffer.BufferSizes(), old(State()), apdu, rx)
              case Threw(code) => outcome == Throw(code)
              case Went(s, complete) => State() == s && outcome == if complete then Done else More
    {
      hide EthFirst, EthMore;
      var payloadType := apdu[2];
      if apdu[3] != 0 {
        return Throw(INVALID_P1P2);
      }
      if rx < 5 {
        return Throw(WRONG_LENGTH);
      }
      if payloadType == P1_ETH_FIRST {
        outcome := EthFirstChunk(apdu[5..rx]);
      } else if payloadType == P1_ETH_MORE {
        outcome := EthMoreChunk(apdu[5..rx]);
      } else {
        outcome := Throw(INVALID_P1P2);
      }
    }

    /** The path, then a message behind its four-byte length, both of which are stored. */
    method MessageFirstChunk(data: seq<byte>) returns (outcome: Outcome)
      requires Valid() && |data| < TWO32
      modifies Footprint()
      ensures Valid()
      ensures match MessageFirst(buffer.BufferSizes(), data)
              case Threw(code) => outcome == Throw(code)
              case Went(s, complete) => State() == s && outcome == if complete then Done else More
    {
      hide PathOf, U4BE, Appended, Behind, Wrap32;
      var code, message := StartSession(data);
      if code != 0 {
        return Throw(code);
      }
      if |message| < 4 {
        return Throw(WRONG_LENGTH);
      }
      bytesToRead := U4BE(message);
      bytesToRead := Sub32(bytesToRead, |message| - 4);
      var ok := Append(message);
      if !ok {
        return Throw(OUTPUT_BUFFER_TOO_SMALL);
      }
      txInitialized := true;
      outcome := if bytesToRead == 0 then Done else More;
    }

    method MessageMoreChunk(data: seq<byte>) returns (outcome: Outcome)
      requires Valid() && |data| < TWO32
      modifies Footprint()
      ensures Valid()
      ensures match MessageMore(buffer.BufferSizes(), old(State()), data)
              case Threw(code) => outcome == Throw(code)
              case Went(s, complete) => State() == s && outcome == if complete then Done else More
    {
      hide Appended, Wrap32;
      if !txInitialized {
        return Throw(TX_NOT_INITIALIZED);
      }
      bytesToRead := Sub32(bytesToRead, |data|);
      var ok := Append(data);
      if !ok {
        return Throw(OUTPUT_BUFFER_TOO_SMALL);
      }
      outcome := if bytesToRead == 0 then Done else More;
    }

    method ProcessChunkEip191(apdu: seq<byte>, rx: nat) returns (outcome: Outcome)
      requires Valid() && 5 <= |apdu| < TWO32 && rx <= |apdu|
      modifies Footprint()
      ensures Valid()
      ensures match MessageChunk(buffer.BufferSizes(), old(State()), apdu, rx)
              case Threw(code) => outcome == Throw(code)
              case Went(s, complete) => State() == s && outcome == if complete then Done else More
    {
      hide MessageFirst, MessageMore;
      var payloadType := apdu[2];
      if apdu[3] != 0 {
        return Throw(INVALID_P1P2);
      }
      if rx < 5 {
        return Throw(WRONG_LENGTH);
      }
      if payloadType == P1_ETH_FIRST {
        outcome := MessageFirstChunk(apdu[5..rx]);
      } else if payloadType == P1_ETH_MORE {
        outcome := MessageMoreChunk(apdu[5..rx]);
      } else {
        outcome := Throw(INVALID_P1P2);
      }
    }

    /** Takes one transaction command.  A completed transaction closes the session, and so does the
        dispatcher after an error. */
    method HandleSignEth(apdu: seq<byte>, rx: nat) returns (outcome: Outcome)
      requires Valid() && 5 <= |apdu| < TWO32 && rx <= |apdu|
      modifies Footprint()
      ensures Valid()
      ensures Next(Transactions, buffer.BufferSizes(), old(State()), Bytes(apdu, rx), State())
      ensures outcome == OutcomeOf(EthChunk(buffer.BufferSizes(), old(State()), apdu, rx))
    {
      hide EthChunk;
      outcome := ProcessChunkEth(apdu, rx);
      if outcome != More {
        ResetChunkState();
      }
    }

    method HandleSignEip191(apdu: seq<byte>, rx: nat) returns (outcome: Outcome)
      requires Valid() && 5 <= |apdu| < TWO32 && rx <= |apdu|
      modifies Footprint()
      ensures Valid()
      ensures Next(Messages, buffer.BufferSizes(), old(State()), Bytes(apdu, rx), State())
      ensures outcome == OutcomeOf(MessageChunk(buffer.BufferSizes(), old(State()), apdu, rx))
    {
      hide MessageChunk;
      outcome := ProcessChunkEip191(apdu, rx);
      if outcome != More {
        ResetChunkState();
      }
    }
  }

  function OutcomeOf(step: Step): Outcome {
    match step
    case Threw(code) => Throw(code)
    case Went(_, complete) => if complete then Done else More
  }

  lemma PathDecided(data: seq<byte>, path: seq<u32>)
    requires data != [] && 3 <= data[0] <= HDPATH_LEN_DEFAULT && |data| >= 1 + 4 * data[0]
    requires path == PathWords(data, data[0])
    ensures PathOf(data) == if path[0] == 0x8000_002C && path[1] == 0x8000_003C then GoodPath(path)
                            else BadPath(DATA_INVALID)
  {
  }

  lemma PathCodes(data: seq<byte>)
    ensures PathOf(data).BadPath? ==> PathOf(data).code != 0
  {
  }

  lemma PathFits(data: seq<byte>)
    requires PathOf(data).GoodPath?
    ensures data != [] && |data| >= 1 + 4 * data[0]
    ensures Behind(data) == data[4 * data[0] + 1..]
  {
  }

  /** Two wrapping subtractions give the total less what is stored, modulo 2^64. */
  lemma MissingWrapped(read: u64, toRead: u64, stored: u64)
    ensures Sub64(toRead, Sub64(stored, read)) == Wrap64(read + toRead - stored)
  {
  }

  lemma DifferenceZero(a: u64, b: u64)
    ensures Sub64(a, b) == 0 <==> a == b
  {
  }

  /** Only an empty chunk could be mistaken for a refused one, and it is never refused. */
  lemma NothingRefused(s: Store, sizes: Sizes, data: seq<byte>)
    requires |s.content| <= if s.inRam then sizes.ram else sizes.flash
    requires |data| < TWO32
    ensures data == [] ==> Appended(s, sizes, data).1
    ensures Wrap32(ToInt(|data|)) == |data|
  {
  }
}
