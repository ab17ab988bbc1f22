/** src/buffering.c: a byte store that starts in RAM and moves to flash when RAM is full. */
module Buffering {
  import opened Numerals

  /** Conversion of a 32-bit size to the C type `int`. */
  function ToInt(x: nat): (n: int)
    requires x < TWO32
    ensures -0x8000_0000 <= n < 0x8000_0000 && Wrap32(n) == x
  {
    if x < 0x8000_0000 then x else x - TWO32
  }

  // ---------------------------------------------------------------- what the store means

  /** Where the bytes are, and the bytes. */
  datatype Store = Store(inRam: bool, content: seq<byte>)

  datatype Sizes = Sizes(ram: nat, flash: nat)

  const EMPTY: Store := Store(true, [])

  /** The store after an append and whether the data was taken.  The bytes kept in RAM are dropped by the
      move to flash when flash has no room for them. */
  function Appended(s: Store, sizes: Sizes, data: seq<byte>): (Store, bool) {
    if s.inRam && |s.content| + |data| <= sizes.ram then
      (Store(true, s.content + data), true)
    else
      var kept := if !s.inRam || |s.content| <= sizes.flash then s.content else [];
      if |kept| + |data| <= sizes.flash then (Store(false, kept + data), true)
      else (Store(false, kept), false)
  }

  // ---------------------------------------------------------------- runs

  datatype Event = Reset | Append(data: seq<byte>)

  /** The store and the outcome of every append after a run of calls. */
  function Run(sizes: Sizes, events: seq<Event>): (Store, seq<bool>) {
    if events == [] then (EMPTY, [])
    else
      var (s, outcomes) := Run(sizes, events[..|events| - 1]);
      match events[|events| - 1]
      case Reset => (EMPTY, outcomes)
      case Append(data) =>
        var (next, ok) := Appended(s, sizes, data);
        (next, outcomes + [ok])
  }

  /** The simple form: one append-only sequence of a fixed capacity. */
  function Log(capacity: nat, events: seq<Event>): (seq<byte>, seq<bool>) {
    if events == [] then ([], [])
    else
      var (content, outcomes) := Log(capacity, events[..|events| - 1]);
      match events[|events| - 1]
      case Reset => ([], outcomes)
      case Append(data) =>
        if |content| + |data| <= capacity then (content + data, outcomes + [true])
        else (content, outcomes + [false])
  }

  lemma {:induction false} RunFits(sizes: Sizes, events: seq<Event>)
    ensures var s := Run(sizes, events).0; |s.content| <= if s.inRam then sizes.ram else sizes.flash
  {
    if events != [] {
      RunFits(sizes, events[..|events| - 1]);
    }
  }

  /** With at least as much flash as RAM the two buffers are indistinguishable from one sequence of the
      size of the flash, over every run of resets and appends. */
  lemma {:induction false} RefinesLog(sizes: Sizes, events: seq<Event>)
    requires sizes.ram <= sizes.flash
    ensures Run(sizes, events).0.content == Log(sizes.flash, events).0
    ensures Run(sizes, events).1 == Log(sizes.flash, events).1
  {
    if events != [] {
      RunFits(sizes, events[..|events| - 1]);
      RefinesLog(sizes, events[..|events| - 1]);
    }
  }

  /** Whether an append since the last reset, taken or not, was too much for RAM: seen from the simple form. */
  predicate Overflowed(sizes: Sizes, events: seq<Event>) {
    if events == [] then false
    else
      var init := events[..|events| - 1];
      match events[|events| - 1]
      case Reset => false
      case Append(data) => Overflowed(sizes, init) || |Log(sizes.flash, init).0| + |data| > sizes.ram
  }

  /** The content is in RAM until then and in flash from then on. */
  lemma {:induction false} RunSide(sizes: Sizes, events: seq<Event>)
    requires sizes.ram <= sizes.flash
    ensures Run(sizes, events).0.inRam <==> !Overflowed(sizes, events)
  {
    if events != [] {
      RunSide(sizes, events[..|events| - 1]);
      RefinesLog(sizes, events[..|events| - 1]);
    }
  }

  /** After the run, an append of the data is taken or leaves the content as it was. */
  predicate KeepsContent(sizes: Sizes, events: seq<Event>, data: seq<byte>) {
    var s := Run(sizes, events).0;
    var (next, ok) := Appended(s, sizes, data);
    ok || next.content == s.content
  }

  /** A refused append keeps the content after every run exactly when flash is at least as large as RAM. */
  lemma FailuresKeepContent(sizes: Sizes)
    ensures (forall events: seq<Event>, data: seq<byte> :: KeepsContent(sizes, events, data))
            <==> sizes.ram <= sizes.flash
  {
    if sizes.ram <= sizes.flash {
      forall events: seq<Event>, data: seq<byte>
        ensures KeepsContent(sizes, events, data)
      {
        RunFits(sizes, events);
      }
    } else {
      var full: seq<byte> := seq(sizes.ram, _ => 0);
      var events := [Append(full)];
      assert events[..0] == [];
      assert Run(sizes, events).0 == Store(true, full);
      assert !KeepsContent(sizes, events, full);
    }
  }

  /** After the run, an append of the data is refused or adds exactly the data. */
  predicate ExtendsContent(sizes: Sizes, events: seq<Event>, data: seq<byte>) {
    var s := Run(sizes, events).0;
    var (next, ok) := Appended(s, sizes, data);
    ok ==> next.content == s.content + data
  }

  /** An append that is taken adds to the content after every run exactly when flash is at least as large as
      RAM, or there is none of it. */
  lemma SuccessesExtendContent(sizes: Sizes)
    ensures (forall events: seq<Event>, data: seq<byte> :: ExtendsContent(sizes, events, data))
            <==> sizes.ram <= sizes.flash || sizes.flash == 0
  {
    if sizes.ram <= sizes.flash || sizes.flash == 0 {
      forall events: seq<Event>, data: seq<byte>
        ensures ExtendsContent(sizes, events, data)
      {
        RunFits(sizes, events);
      }
    } else {
      var full: seq<byte> := seq(sizes.ram, _ => 0);
      var events := [Append(full)];
      assert events[..0] == [];
      assert Run(sizes, events).0 == Store(true, full);
      assert !ExtendsContent(sizes, events, [0]);
    }
  }

  /** Whether one append loses bytes can be told before it: they are in RAM, the data does not fit behind
      them, and flash has no room for them alone. */
  lemma AppendLoses(s: Store, sizes: Sizes, data: seq<byte>)
    ensures var (next, ok) := Appended(s, sizes, data);
            next.content == (if ok then s.content + data else s.content)
            <==> !(s.inRam && |s.content| + |data| > sizes.ram && |s.content| > sizes.flash)
  {
    var (next, ok) := Appended(s, sizes, data);
    assert |s.content + data| == |s.content| + |data|;
  }

  /** Two bytes in RAM, one byte of flash: the third byte is taken and the first two are gone. */
  lemma SilentLoss()
    ensures var sizes, s := Sizes(2, 1), Run(Sizes(2, 1), [Append([7, 8])]).0;
            s.content == [7, 8] && Appended(s, sizes, [9]) == (Store(false, [9]), true)
  {
    var events: seq<Event> := [Append([7, 8])];
    assert events[..0] == [];
    var none: seq<byte> := [];
    assert none + [7, 8] == [7, 8] && none + [9] == [9];
    assert Run(Sizes(2, 1), events).0 == Store(true, [7, 8]);
  }

  // ---------------------------------------------------------------- the buffers

  class BufferState {
    const data: array<byte>
    var pos: nat
    var inUse: bool

    constructor (data: array<byte>, inUse: bool)
      ensures this.data == data && pos == 0 && this.inUse == inUse
    {
      this.data := data;
      pos := 0;
      this.inUse := inUse;
    }

    function Contents(): seq<byte>
      requires pos <= data.Length
      reads this, data
    {
      data[..pos]
    }

    /** Copies bytes behind the ones already there. */
    method Put(bytes: seq<byte>)
      requires pos + |bytes| <= data.Length
      modifies this`pos, data
      ensures pos == old(pos) + |bytes| && Contents() == old(Contents()) + bytes
    {
      forall k | 0 <= k < |bytes| {
        data[pos + k] := bytes[k];
      }
      pos := pos + |bytes|;
    }
  }

  class Buffer {
    const ram: BufferState
    const flash: BufferState

    ghost predicate Separate()
      reads ram, flash
    {
      && ram != flash && ram.data != flash.data
      && ram.data.Length < TWO32 && flash.data.Length < TWO32
      && ram.pos <= ram.data.Length && flash.pos <= flash.data.Length
    }

    /** Exactly one side is in use and the other is empty. */
    ghost predicate Valid()
      reads ram, flash
    {
      && Separate()
      && ram.inUse == !flash.inUse
      && (if ram.inUse then flash else ram).pos == 0
    }

    function BufferSizes(): Sizes { Sizes(ram.data.Length, flash.data.Length) }

    ghost function State(): Store
      requires Separate()
      reads ram, flash, ram.data, flash.data
    {
      Store(ram.inUse, if ram.inUse then ram.Contents() else flash.Contents())
    }

    constructor (ramBuffer: array<byte>, flashBuffer: array<byte>)
      requires ramBuffer != flashBuffer && ramBuffer.Length < TWO32 && flashBuffer.Length < TWO32
      ensures Valid() && State() == EMPTY
      ensures fresh(ram) && fresh(flash) && ram.data == ramBuffer && flash.data == flashBuffer
    {
      ram := new BufferState(ramBuffer, true);
      flash := new BufferState(flashBuffer, false);
    }

    method Clear()
      requires Valid()
      modifies ram, flash
      ensures Valid() && State() == EMPTY
    {
      ram.pos := 0;
      ram.inUse := true;
      flash.pos := 0;
      flash.inUse := false;
    }

    /** Returns the length of the data, or 0 when it is refused.  While RAM is being emptied into flash the
        routine calls itself with flash in use and RAM not yet cleared: the first group of clauses. */
    method Append(data: seq<byte>) returns (taken: int)
      requires Separate() && |data| < TWO32
      requires ram.inUse ==> Valid()
      modifies ram, flash, ram.data, flash.data
      ensures Separate()
      ensures !old(ram.inUse) ==>
                && ram.pos == old(ram.pos) && ram.inUse == old(ram.inUse) && flash.inUse == old(flash.inUse)
                && ram.data[..] == old(ram.data[..])
                && var fits := old(flash.pos) + |data| <= flash.data.Length;
                   && flash.Contents() == old(flash.Contents()) + (if fits then data else [])
                   && taken == if fits then ToInt(|data|) else 0
      ensures old(Valid()) ==>
                && Valid()
                && var (next, ok) := Appended(old(State()), BufferSizes(), data);
                   State() == next && taken == if ok then ToInt(|data|) else 0
      decreases ram.inUse
    {
      if ram.inUse {
        if ram.data.Length - ram.pos >= |data| {
          ram.Put(data);
        } else {
          ram.inUse := false;
          flash.inUse := true;
          if ram.pos > 0 {
            var _ := Append(ram.data[..ram.pos]);
          }
          taken := Append(data);
          ram.pos := 0;
          return;
        }
      } else {
        if flash.data.Length - flash.pos >= |data| {
          flash.Put(data);
        } else {
          return 0;
        }
      }
      taken := ToInt(|data|);
    }

    /** The side in use, which holds everything appended. */
    method GetBuffer() returns (b: BufferState)
      requires Valid()
      ensures b == if ram.inUse then ram else flash
      ensures b.inUse && b.Contents() == State().content
    {
      if ram.inUse {
        return ram;
      }
      b := flash;
    }
  }
}
