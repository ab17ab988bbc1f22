/** evm/apdu_handler_evm.c, whole sequences of commands: any parameters, errors and new first chunks in
    between.  What throws closes the session, as does a completed transaction or message. */
module ChunkTrace {
  import opened Numerals
  import opened Words
  import opened EvmUtils
  import opened Buffering
  import opened ChunkProtocol

  /** Which of the two handlers the commands go to. */
  datatype Kind = Transactions | Messages

  datatype Bytes = Bytes(apdu: seq<byte>, rx: nat)

  /** The buffer of a command, which holds its header at least, and how many bytes were received. */
  type Command = c: Bytes | 5 <= |c.apdu| && c.rx <= |c.apdu| witness Bytes([0, 0, 0, 0, 0], 0)

  function Data(c: Command): seq<byte> {
    if c.rx < 5 then [] else c.apdu[5..c.rx]
  }

  function Chunk(kind: Kind, sizes: Sizes, s: Session, c: Command): Step {
    match kind
    case Transactions => EthChunk(sizes, s, c.apdu, c.rx)
    case Messages => MessageChunk(sizes, s, c.apdu, c.rx)
  }

  function Run(kind: Kind, sizes: Sizes, counter: u32, first: seq<byte>, mores: seq<seq<byte>>): Step {
    match kind
    case Transactions => EthRun(sizes, counter, first, mores)
    case Messages => MessageRun(sizes, first, mores)
  }

  /** The session after a command.  After an error nothing is known but that the session is closed. */
  ghost predicate Next(kind: Kind, sizes: Sizes, s: Session, c: Command, s': Session) {
    var step := Chunk(kind, sizes, s, c);
    if step.Went? then s' == After(step) else !s'.initialized && s'.bytesToRead == 0
  }

  /** The sessions before, between and after the commands. */
  ghost predicate Trace(kind: Kind, sizes: Sizes, cmds: seq<Command>, states: seq<Session>) {
    && |states| == |cmds| + 1 && !states[0].initialized
    && forall i | 0 <= i < |cmds| :: Next(kind, sizes, states[i], cmds[i], states[i + 1])
  }

  predicate IsFirst(c: Command) {
    c.apdu[2] == P1_ETH_FIRST
  }

  /** The last first chunk up to command i, or -1. */
  function LastFirst(cmds: seq<Command>, i: nat): (j: int)
    requires i < |cmds|
    ensures -1 <= j <= i
    ensures j >= 0 ==> IsFirst(cmds[j])
    ensures forall k | j < k <= i :: !IsFirst(cmds[k])
  {
    if IsFirst(cmds[i]) then i else if i == 0 then -1 else LastFirst(cmds, i - 1)
  }

  /** The data of the commands behind j up to i. */
  function DataBetween(cmds: seq<Command>, j: nat, i: nat): (mores: seq<seq<byte>>)
    requires j <= i < |cmds|
    ensures |mores| == i - j
  {
    seq(i - j, k requires 0 <= k < i - j => Data(cmds[j + 1 + k]))
  }

  lemma FirstChunk(kind: Kind, sizes: Sizes, s: Session, c: Command)
    requires IsFirst(c) && Chunk(kind, sizes, s, c).Went?
    ensures Chunk(kind, sizes, s, c) == Run(kind, sizes, s.bytesToRead, Data(c), [])
  {
    hide EthFirst, MessageFirst;
  }

  /** A chunk that is not a first one needs an open session and continues its run. */
  lemma MoreChunk(kind: Kind, sizes: Sizes, counter: u32, first: seq<byte>, mores: seq<seq<byte>>, s: Session, c: Command)
    requires !IsFirst(c) && Chunk(kind, sizes, s, c).Went?
    ensures s.initialized
    ensures Run(kind, sizes, counter, first, mores).Went? && s == After(Run(kind, sizes, counter, first, mores))
            ==> Chunk(kind, sizes, s, c) == Run(kind, sizes, counter, first, mores + [Data(c)])
  {
    hide EthFirst, MessageFirst, HeaderOf, Appended;
    var all := mores + [Data(c)];
    assert all[..|all| - 1] == mores;
  }

  /** In every sequence of commands, each chunk that does not throw is the last of a run: the chunks since the
      last first one, none of which threw. */
  lemma {:induction false} TraceIsRun(kind: Kind, sizes: Sizes, cmds: seq<Command>, states: seq<Session>, i: nat)
    requires Trace(kind, sizes, cmds, states) && i < |cmds|
    requires Chunk(kind, sizes, states[i], cmds[i]).Went?
    ensures var j := LastFirst(cmds, i);
            && j >= 0
            && Chunk(kind, sizes, states[i], cmds[i])
               == Run(kind, sizes, states[j].bytesToRead, Data(cmds[j]), DataBetween(cmds, j, i))
  {
    hide Chunk, Run, After;
    if IsFirst(cmds[i]) {
      FirstChunk(kind, sizes, states[i], cmds[i]);
      assert DataBetween(cmds, i, i) == [];
    } else {
      MoreChunk(kind, sizes, 0, [], [], states[i], cmds[i]);
      assert i > 0;
      assert Next(kind, sizes, states[i - 1], cmds[i - 1], states[i]);
      TraceIsRun(kind, sizes, cmds, states, i - 1);
      var j := LastFirst(cmds, i - 1);
      MoreChunk(kind, sizes, states[j].bytesToRead, Data(cmds[j]), DataBetween(cmds, j, i - 1), states[i], cmds[i]);
      assert DataBetween(cmds, j, i) == DataBetween(cmds, j, i - 1) + [Data(cmds[i])];
    }
  }

  /** After every transaction chunk that does not throw, in any sequence of commands, the store is the bytes
      received since the last first chunk, cut off where the transaction ends; a chunk that completes has
      stored the whole transaction. */
  lemma EthTrace(sizes: Sizes, cmds: seq<Command>, states: seq<Session>, i: nat)
    requires sizes.ram <= sizes.flash
    requires Trace(Transactions, sizes, cmds, states) && i < |cmds|
    requires Chunk(Transactions, sizes, states[i], cmds[i]).Went?
    ensures LastFirst(cmds, i) >= 0 && PathOf(Data(cmds[LastFirst(cmds, i)])).GoodPath?
    ensures HeaderOf(Behind(Data(cmds[LastFirst(cmds, i)]))).Found?
    ensures var j := LastFirst(cmds, i);
            var total := Total(HeaderOf(Behind(Data(cmds[j]))).header);
            var received := Received(Data(cmds[j]), DataBetween(cmds, j, i));
            var step := Chunk(Transactions, sizes, states[i], cmds[i]);
            && step.session.store.content == received[..Min(total, |received|)]
            && GoodPath(step.session.path) == PathOf(Data(cmds[j]))
            && (step.complete <==> |received| == total || (i > j && |received| > total && Data(cmds[i]) == []))
  {
    hide Chunk, HeaderOf, PathOf, Behind, Received, EthRun;
    TraceIsRun(Transactions, sizes, cmds, states, i);
    var j := LastFirst(cmds, i);
    EthRunAssembles(sizes, states[j].bytesToRead, Data(cmds[j]), DataBetween(cmds, j, i));
  }

  /** After every message chunk that does not throw the store is the bytes received since the last first
      chunk, and the chunk completes exactly at the declared length. */
  lemma MessageTrace(sizes: Sizes, cmds: seq<Command>, states: seq<Session>, i: nat)
    requires sizes.ram <= sizes.flash < TWO32
    requires Trace(Messages, sizes, cmds, states) && i < |cmds|
    requires Chunk(Messages, sizes, states[i], cmds[i]).Went?
    ensures LastFirst(cmds, i) >= 0 && PathOf(Data(cmds[LastFirst(cmds, i)])).GoodPath?
    ensures |Behind(Data(cmds[LastFirst(cmds, i)]))| >= 4
    ensures var j := LastFirst(cmds, i);
            var received := Received(Data(cmds[j]), DataBetween(cmds, j, i));
            var step := Chunk(Messages, sizes, states[i], cmds[i]);
            && step.session.store.content == received
            && GoodPath(step.session.path) == PathOf(Data(cmds[j]))
            && (step.complete <==> |received| == U4BE(Behind(Data(cmds[j]))) + 4)
  {
    hide Chunk, PathOf, Behind, U4BE, Received, MessageRun;
    TraceIsRun(Messages, sizes, cmds, states, i);
    var j := LastFirst(cmds, i);
    MessageRunCollects(sizes, Data(cmds[j]), DataBetween(cmds, j, i));
  }

  // ---------------------------------------------------------------- deliveries

  /** The commands are a first chunk and further ones with the parameter bytes they ought to have. */
  ghost predicate Chunks(cmds: seq<Command>, first: seq<byte>, mores: seq<seq<byte>>) {
    && |cmds| == 1 + |mores|
    && (forall i | 0 <= i < |cmds| :: cmds[i].apdu[3] == 0 && cmds[i].rx >= 5)
    && cmds[0].apdu[2] == 0x00 && Data(cmds[0]) == first
    && (forall i | 0 < i < |cmds| :: cmds[i].apdu[2] == 0x80 && Data(cmds[i]) == mores[i - 1])
  }

  lemma FirstTaken(kind: Kind, sizes: Sizes, s: Session, c: Command)
    requires c.apdu[3] == 0 && c.rx >= 5 && c.apdu[2] == 0x00
    ensures Chunk(kind, sizes, s, c) == Run(kind, sizes, s.bytesToRead, Data(c), [])
  {
    hide EthFirst, MessageFirst;
  }

  lemma MoreTaken(kind: Kind, sizes: Sizes, counter: u32, first: seq<byte>, mores: seq<seq<byte>>, s: Session, c: Command)
    requires c.apdu[3] == 0 && c.rx >= 5 && c.apdu[2] == 0x80
    requires Run(kind, sizes, counter, first, mores).Went? && s == After(Run(kind, sizes, counter, first, mores))
    ensures Chunk(kind, sizes, s, c) == Run(kind, sizes, counter, first, mores + [Data(c)])
  {
    hide EthFirst, MessageFirst, HeaderOf, Appended;
    var all := mores + [Data(c)];
    assert all[..|all| - 1] == mores;
  }

  lemma RunPrefix(kind: Kind, sizes: Sizes, counter: u32, first: seq<byte>, mores: seq<seq<byte>>, more: seq<byte>)
    ensures Run(kind, sizes, counter, first, mores).Threw? ==> Run(kind, sizes, counter, first, mores + [more]).Threw?
  {
    hide EthFirst, MessageFirst, EthMore, MessageMore;
    assert (mores + [more])[..|mores|] == mores;
  }

  /** As long as no chunk throws, the commands do what the run of their data does, one after the other. */
  lemma {:induction false} ChunksRun(kind: Kind, sizes: Sizes, cmds: seq<Command>, states: seq<Session>,
                                     first: seq<byte>, mores: seq<seq<byte>>, i: nat)
    requires Trace(kind, sizes, cmds, states) && Chunks(cmds, first, mores) && i < |cmds|
    ensures (forall k | 0 <= k <= i :: Chunk(kind, sizes, states[k], cmds[k]).Went?)
            <==> Run(kind, sizes, states[0].bytesToRead, first, mores[..i]).Went?
    ensures Run(kind, sizes, states[0].bytesToRead, first, mores[..i]).Went?
            ==> Chunk(kind, sizes, states[i], cmds[i]) == Run(kind, sizes, states[0].bytesToRead, first, mores[..i])
  {
    hide Chunk, Run, After;
    var counter := states[0].bytesToRead;
    if i == 0 {
      FirstTaken(kind, sizes, states[0], cmds[0]);
      assert mores[..0] == [];
    } else {
      ChunksRun(kind, sizes, cmds, states, first, mores, i - 1);
      assert mores[..i] == mores[..i - 1] + [mores[i - 1]];
      RunPrefix(kind, sizes, counter, first, mores[..i - 1], mores[i - 1]);
      if Run(kind, sizes, counter, first, mores[..i - 1]).Went? {
        assert Next(kind, sizes, states[i - 1], cmds[i - 1], states[i]);
        MoreTaken(kind, sizes, counter, first, mores[..i - 1], states[i], cmds[i]);
      }
    }
  }

  /** Commands carrying the beginning of a transaction in non-empty chunks: none is refused exactly when the
      first reaches past the header and the store has room; then all of it is stored, and the last command
      completes the transaction just when it is all there. */
  lemma EthCommandsDeliver(sizes: Sizes, cmds: seq<Command>, states: seq<Session>, first: seq<byte>, mores: seq<seq<byte>>)
    requires sizes.ram <= sizes.flash
    requires Trace(Transactions, sizes, cmds, states) && Chunks(cmds, first, mores)
    requires PathOf(first).GoodPath? && forall i | 0 <= i < |mores| :: mores[i] != []
    requires HeaderOf(Behind(first)).Found? ==> |Received(first, mores)| <= Total(HeaderOf(Behind(first)).header)
    ensures var received, last := Received(first, mores), Chunk(Transactions, sizes, states[|mores|], cmds[|mores|]);
            && ((forall i | 0 <= i < |cmds| :: Chunk(Transactions, sizes, states[i], cmds[i]).Went?)
                <==> HeaderOf(Behind(first)).Found? && |received| <= sizes.flash)
            && (HeaderOf(Behind(first)).Found? && |received| <= sizes.flash ==>
                  && last.session.store.content == received
                  && (last.complete <==> |received| == Total(HeaderOf(Behind(first)).header)))
  {
    hide Chunk, HeaderOf, PathOf, Behind, Received, EthRun;
    ChunksRun(Transactions, sizes, cmds, states, first, mores, |mores|);
    assert mores[..|mores|] == mores;
    EthDelivers(sizes, states[0].bytesToRead, first, mores);
  }

  /** The same for messages. */
  lemma MessageCommandsDeliver(sizes: Sizes, cmds: seq<Command>, states: seq<Session>, first: seq<byte>, mores: seq<seq<byte>>)
    requires sizes.ram <= sizes.flash < TWO32
    requires Trace(Messages, sizes, cmds, states) && Chunks(cmds, first, mores)
    requires PathOf(first).GoodPath? && forall i | 0 <= i < |mores| :: mores[i] != []
    requires |Behind(first)| >= 4 ==> |Received(first, mores)| <= U4BE(Behind(first)) + 4
    ensures var received, last := Received(first, mores), Chunk(Messages, sizes, states[|mores|], cmds[|mores|]);
            && ((forall i | 0 <= i < |cmds| :: Chunk(Messages, sizes, states[i], cmds[i]).Went?)
                <==> |Behind(first)| >= 4 && |received| <= sizes.flash)
            && (|Behind(first)| >= 4 && |received| <= sizes.flash ==>
                  && last.session.store.content == received
                  && (last.complete <==> |received| == U4BE(Behind(first)) + 4))
  {
    hide Chunk, PathOf, Behind, U4BE, Received, MessageRun;
    ChunksRun(Messages, sizes, cmds, states, first, mores, |mores|);
    assert mores[..|mores|] == mores;
    MessageDelivers(sizes, first, mores);
  }
}
