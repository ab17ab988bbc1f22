/** The recursive length prefix format (Ethereum Yellow Paper, Appendix B): what one item of a byte stream
    is, its canonical encoding, and how the two fit together. */
module RlpFormat {
  import opened Numerals
  import opened Parser

  datatype Kind = Byte | String | List

  /** An item of a stream: its kind and its payload. */
  datatype Item = Item(kind: Kind, payload: seq<byte>)

  datatype Read<T> = Got(value: T, size: nat) | Failed(error: ParserError)

  // ---------------------------------------------------------------- reading

  /** The payload of the given length behind the first `at` bytes. */
  function Payload(kind: Kind, s: seq<byte>, at: nat, length: nat): Read<Item>
    requires at <= |s|
  {
    if |s| - at < length then Failed(UnexpectedBufferEnd)
    else Got(Item(kind, s[at..at + length]), at + length)
  }

  /** The payload whose length is itself written in n bytes behind the prefix. */
  function LongPayload(kind: Kind, s: seq<byte>, n: nat): Read<Item>
    requires |s| > 0
  {
    if |s| - 1 < n then Failed(UnexpectedBufferEnd)
    else Payload(kind, s, 1 + n, Value(s[1..1 + n], 256))
  }

  function ReadItem(s: seq<byte>): Read<Item> {
    if s == [] then Failed(UnexpectedBufferEnd)
    else if s[0] <= 0x7F then Got(Item(Byte, s[..1]), 1)
    else if s[0] <= 0xB7 then Payload(String, s, 1, s[0] - 0x80)
    else if s[0] <= 0xBF then LongPayload(String, s, s[0] - 0xB7)
    else if s[0] <= 0xF7 then Payload(List, s, 1, s[0] - 0xC0)
    else LongPayload(List, s, s[0] - 0xF7)
  }

  /** The number of length bytes behind a prefix. */
  function LengthBytes(prefix: byte): (n: nat)
    ensures n <= 8
  {
    if 0xB7 < prefix <= 0xBF then prefix - 0xB7 else if prefix > 0xF7 then prefix - 0xF7 else 0
  }

  /** How far a reader gets that finds no item: past the prefix, and past the length bytes if they are there. */
  function FailedAt(s: seq<byte>): (n: nat)
    ensures n <= |s|
  {
    if s == [] then 0
    else if |s| - 1 < LengthBytes(s[0]) then 1
    else 1 + LengthBytes(s[0])
  }

  lemma ReadItemSize(s: seq<byte>)
    ensures ReadItem(s).Got? ==> 1 <= ReadItem(s).size <= |s|
    ensures ReadItem(s).Got? ==> |ReadItem(s).value.payload| <= ReadItem(s).size
    ensures ReadItem(s).Got? && ReadItem(s).value.kind == Byte ==> |ReadItem(s).value.payload| == 1
    ensures ReadItem(s).Failed? ==> ReadItem(s).error == UnexpectedBufferEnd
  {
  }

  /** Reading looks at no byte behind the item. */
  lemma ReadItemLocal(s: seq<byte>, rest: seq<byte>)
    requires ReadItem(s).Got?
    ensures ReadItem(s + rest) == ReadItem(s)
    ensures ReadItem(s[..ReadItem(s).size]) == ReadItem(s)
  {
    hide Value;
    var size := ReadItem(s).size;
    ReadItemSize(s);
    SamePrefix(s, s + rest, size);
    SamePrefix(s, s[..size], size);
  }

  lemma SamePrefix(s: seq<byte>, t: seq<byte>, size: nat)
    requires ReadItem(s).Got? && ReadItem(s).size == size <= |t| && size <= |s|
    requires t[..size] == s[..size]
    ensures ReadItem(t) == ReadItem(s)
  {
    hide Value;
    ReadItemSize(s);
    SamePart(s, t, size, 0, 1);
    assert t[0] == t[0..1][0] == s[0..1][0] == s[0];
    var n := if 0xB7 < s[0] <= 0xBF then s[0] - 0xB7 else if s[0] > 0xF7 then s[0] - 0xF7 else 0;
    SamePart(s, t, size, 1, 1 + n);
    SamePart(s, t, size, size - |ReadItem(s).value.payload|, size);
  }

  lemma SamePart(s: seq<byte>, t: seq<byte>, size: nat, i: nat, j: nat)
    requires i <= j <= size <= |s| && size <= |t|
    requires t[..size] == s[..size]
    ensures t[i..j] == s[i..j]
  {
  }

  /** Up to max items from the front of a stream. */
  function ReadItems(s: seq<byte>, max: nat): Read<seq<Item>>
    decreases max
  {
    if s == [] || max == 0 then Got([], 0)
    else
      ReadItemSize(s);
      var first := ReadItem(s);
      if first.Failed? then Failed(first.error)
      else
        var others := ReadItems(s[first.size..], max - 1);
        if others.Failed? then others
        else Got([first.value] + others.value, first.size + others.size)
  }

  // ---------------------------------------------------------------- what is read

  lemma ByteRead(b: byte, rest: seq<byte>)
    requires b < 0x80
    ensures ReadItem([b] + rest) == Got(Item(Byte, [b]), 1)
  {
    assert ([b] + rest)[..1] == [b];
  }

  /** Behind a short prefix stands the payload, be it a single small byte. */
  lemma ShortRead(payload: seq<byte>, rest: seq<byte>)
    requires |payload| < 56
    ensures ReadItem([0x80 + |payload|] + payload + rest) == Got(Item(String, payload), 1 + |payload|)
    ensures ReadItem([0xC0 + |payload|] + payload + rest) == Got(Item(List, payload), 1 + |payload|)
  {
    assert ([0x80 + |payload|] + payload + rest)[1..1 + |payload|] == payload;
    assert ([0xC0 + |payload|] + payload + rest)[1..1 + |payload|] == payload;
  }

  /** Behind a long prefix stand the length, in any number of bytes from one to eight, and the payload. */
  lemma LongRead(p: byte, ds: seq<byte>, payload: seq<byte>, rest: seq<byte>)
    requires (0xB8 <= p <= 0xBF && |ds| == p - 0xB7) || (0xF8 <= p && |ds| == p - 0xF7)
    requires Value(ds, 256) == |payload|
    ensures ReadItem([p] + ds + payload + rest)
         == Got(Item(if p <= 0xBF then String else List, payload), 1 + |ds| + |payload|)
  {
    hide Value, LongPayload, ReadItem;
    LongPayloadRead(p, ds, payload, rest);
    LongPrefix(p, ds, payload, rest);
  }

  lemma LongPrefix(p: byte, ds: seq<byte>, payload: seq<byte>, rest: seq<byte>)
    ensures var s := [p] + ds + payload + rest;
            && (0xB8 <= p <= 0xBF ==> ReadItem(s) == LongPayload(String, s, p - 0xB7))
            && (0xF8 <= p ==> ReadItem(s) == LongPayload(List, s, p - 0xF7))
  {
    hide LongPayload, Payload;
    var s := [p] + ds + payload + rest;
    assert s[0] == p;
  }

  lemma LongPayloadRead(p: byte, ds: seq<byte>, payload: seq<byte>, rest: seq<byte>)
    requires Value(ds, 256) == |payload|
    ensures var s := [p] + ds + payload + rest;
            && LongPayload(String, s, |ds|) == Got(Item(String, payload), 1 + |ds| + |payload|)
            && LongPayload(List, s, |ds|) == Got(Item(List, payload), 1 + |ds| + |payload|)
  {
    hide Value;
    SecondAndThird([p], ds, payload, rest);
  }

  lemma SecondAndThird(a: seq<byte>, b: seq<byte>, c: seq<byte>, d: seq<byte>)
    ensures (a + b + c + d)[|a|..|a| + |b|] == b
    ensures (a + b + c + d)[|a| + |b|..|a| + |b| + |c|] == c
  {
  }

  /** No beginning of an item is an item. */
  lemma BeginningFails(s: seq<byte>, k: nat)
    requires ReadItem(s).Got? && k < ReadItem(s).size && k <= |s|
    ensures ReadItem(s[..k]).Failed?
  {
    hide ReadItem;
    assert s[..k] + s[k..] == s;
    ReadItemSize(s[..k]);
    if ReadItem(s[..k]).Got? {
      ReadItemLocal(s[..k], s[k..]);
    }
  }

  // ---------------------------------------------------------------- canonical encoding

  /** Kind prefix and length, for payloads of less than 2^64 bytes. */
  function Prefix(base: byte, length: nat): (p: seq<byte>)
    requires base + 63 < 256 && length < TWO64
  {
    if length < 56 then [base + length]
    else LengthDigits(length); [base + 55 + |Digits(length, 256)|] + Digits(length, 256)
  }

  lemma LengthDigits(length: nat)
    requires length < TWO64
    ensures IsNumeral(Digits(length, 256), 256)
    ensures |Digits(length, 256)| <= 8
  {
    DigitsValue(length, 256);
    EightBytes();
    DigitsCount(length, 256, 8);
  }

  lemma EightBytes()
    ensures Pow(256, 8) == TWO64
  {
  }

  /** The items there are: a single byte below 0x80 is a Byte, every other string a String. */
  predicate IsItem(i: Item) {
    && |i.payload| < TWO64
    && (i.kind == Byte <==> i.kind != List && |i.payload| == 1 && i.payload[0] < 0x80)
  }

  function Encode(i: Item): (e: seq<byte>)
    requires IsItem(i)
  {
    if i.kind == Byte then i.payload
    else Prefix(if i.kind == String then 0x80 else 0xC0, |i.payload|) + i.payload
  }

  lemma LongRoundTrip(kind: Kind, base: byte, payload: seq<byte>, rest: seq<byte>)
    requires kind != Byte && base == if kind == String then 0x80 else 0xC0
    requires 56 <= |payload| < TWO64
    ensures var e := Prefix(base, |payload|) + payload;
            ReadItem(e + rest) == Got(Item(kind, payload), |e|)
  {
    hide Value, Digits;
    LengthDigits(|payload|);
    DigitsValue(|payload|, 256);
    var ds: seq<byte> := Digits(|payload|, 256);
    var n := |ds|;
    var s := Prefix(base, |payload|) + payload + rest;
    assert s == [base + 55 + n] + ds + payload + rest;
    assert s[1..1 + n] == ds;
    assert s[1 + n..1 + n + |payload|] == payload;
  }

  /** Whatever follows it, the canonical encoding of an item is read back whole. */
  lemma EncodeRead(i: Item, rest: seq<byte>)
    requires IsItem(i)
    ensures ReadItem(Encode(i) + rest) == Got(i, |Encode(i)|)
    ensures Encode(i) != []
  {
    if i.kind == Byte {
      assert (i.payload + rest)[..1] == i.payload;
    } else if |i.payload| < 56 {
      var base := if i.kind == String then 0x80 else 0xC0;
      var s := [base + |i.payload|] + i.payload + rest;
      assert s == Encode(i) + rest;
      assert s[1..1 + |i.payload|] == i.payload;
    } else {
      LongRoundTrip(i.kind, if i.kind == String then 0x80 else 0xC0, i.payload, rest);
    }
  }

  /** The two ways of writing an item that the reader accepts beside the canonical one: a small byte behind
      a prefix of its own, and a length in more bytes than it needs. */
  predicate Wasteful(s: seq<byte>)
    requires |s| > 0
  {
    || (s[0] == 0x81 && |s| > 1 && s[1] < 0x80)
    || (0xB8 <= s[0] <= 0xBF && |s| > s[0] - 0xB7 && LengthWasteful(s[1..s[0] - 0xB6]))
    || (0xF8 <= s[0] && |s| > s[0] - 0xF7 && LengthWasteful(s[1..s[0] - 0xF6]))
  }

  predicate LengthWasteful(ds: seq<byte>)
    requires |ds| > 0
  {
    ds[0] == 0 || (|ds| == 1 && ds[0] < 56)
  }

  lemma LengthCanonical(ds: seq<byte>, length: nat)
    requires 0 < |ds| <= 8 && length == Value(ds, 256)
    ensures length < TWO64
    ensures LengthWasteful(ds) <==> length < 56 || ds != Digits(length, 256)
  {
    EightBytes();
    ValueBound(ds, 256);
    PowMono(256, |ds|, 8);
    DigitsValue(length, 256);
    if ds[0] != 0 {
      DigitsOfValue(ds, 256);
      if |ds| > 1 {
        DigitsCount(length, 256, 1);
        assert Pow(256, 1) == 256;
      } else {
        assert ds == [] + [ds[0]];
        ValueSnoc([], ds[0], 256);
      }
    }
  }

  /** What was read from these bytes, if their encoding is the canonical one. */
  predicate Canonical(s: seq<byte>, r: Read<Item>)
    requires r.Got? && r.size <= |s|
  {
    IsItem(r.value) && Encode(r.value) == s[..r.size]
  }

  lemma LongCanonical(kind: Kind, s: seq<byte>, k: nat)
    requires kind != Byte && 1 <= k <= 8
    requires |s| > 0 && s[0] == (if kind == String then 0x80 else 0xC0) + 55 + k
    requires LongPayload(kind, s, k).Got?
    ensures |s| > k
    ensures Canonical(s, LongPayload(kind, s, k)) <==> !LengthWasteful(s[1..1 + k])
  {
    hide Value, Digits, LengthWasteful;
    var r := LongPayload(kind, s, k);
    var n, ds := |r.value.payload|, s[1..1 + k];
    LengthCanonical(ds, n);
    LengthDigits(n);
    assert s[..r.size] == [s[0]] + ds + r.value.payload;
    if n < 56 {
      assert IsItem(r.value) ==> Encode(r.value)[0] != s[0];
    } else {
      assert IsItem(r.value);
      DigitsPlace(Digits(n, 256), ds, s[0], s[0] - k, r.value.payload);
    }
  }

  /** In front of the same payload the prefix and the length bytes determine each other. */
  lemma DigitsPlace(ds: seq<byte>, es: seq<byte>, p: nat, q: nat, payload: seq<byte>)
    requires p == q + |es|
    ensures [q + |ds|] + ds + payload == [p] + es + payload <==> ds == es
  {
    var t, u := [q + |ds|] + ds + payload, [p] + es + payload;
    assert t[0] == q + |ds| && u[0] == p;
    assert t[1..1 + |ds|] == ds && u[1..1 + |es|] == es;
  }

  lemma ShortCanonical(kind: Kind, s: seq<byte>)
    requires kind != Byte && |s| > 0
    requires 0 <= s[0] - (if kind == String then 0x80 else 0xC0) < 56
    requires Payload(kind, s, 1, s[0] - if kind == String then 0x80 else 0xC0).Got?
    ensures s[0] == 0x81 ==> |s| > 1
    ensures Canonical(s, Payload(kind, s, 1, s[0] - if kind == String then 0x80 else 0xC0))
            <==> !(s[0] == 0x81 && s[1] < 0x80)
  {
  }

  /** The bytes read are the canonical encoding of the item exactly when they are not wasteful. */
  lemma AcceptedCanonical(s: seq<byte>)
    requires ReadItem(s).Got?
    ensures ReadItem(s).size <= |s|
    ensures Canonical(s, ReadItem(s)) <==> !Wasteful(s)
  {
    hide Value, LengthWasteful, Payload, LongPayload, Canonical;
    ReadItemSize(s);
    if s[0] <= 0x7F {
      ByteCanonical(s);
    } else if s[0] <= 0xB7 {
      ShortCanonical(String, s);
    } else if s[0] <= 0xBF {
      LongCanonical(String, s, s[0] - 0xB7);
    } else if s[0] <= 0xF7 {
      ShortCanonical(List, s);
    } else {
      LongCanonical(List, s, s[0] - 0xF7);
    }
  }

  lemma ByteCanonical(s: seq<byte>)
    requires |s| > 0 && s[0] <= 0x7F
    ensures Canonical(s, Got(Item(Byte, s[..1]), 1))
  {
  }

  // ---------------------------------------------------------------- streams

  function EncodeAll(items: seq<Item>): seq<byte>
    requires forall i | 0 <= i < |items| :: IsItem(items[i])
  {
    if items == [] then [] else Encode(items[0]) + EncodeAll(items[1..])
  }

  /** The encodings of some items are read back item by item, whatever follows them. */
  lemma {:induction false} EncodedPrefix(items: seq<Item>, rest: seq<byte>)
    requires forall i | 0 <= i < |items| :: IsItem(items[i])
    ensures ReadItems(EncodeAll(items) + rest, |items|) == Got(items, |EncodeAll(items)|)
  {
    hide ReadItem, Encode;
    if items != [] {
      var others := EncodeAll(items[1..]) + rest;
      EncodeRead(items[0], others);
      var s := Encode(items[0]) + others;
      assert EncodeAll(items) + rest == s;
      assert s[|Encode(items[0])|..] == others;
      EncodedPrefix(items[1..], rest);
      assert items == [items[0]] + items[1..];
    }
  }

  lemma TakeBehindFirst(items: seq<Item>, k: nat)
    requires 0 < k <= |items|
    ensures items[..k][1..] == items[1..][..k - 1] && items[1..][k - 1..] == items[k..]
  {
  }

  lemma {:induction false} EncodeAllSplit(items: seq<Item>, k: nat)
    requires k <= |items| && forall i | 0 <= i < |items| :: IsItem(items[i])
    ensures EncodeAll(items) == EncodeAll(items[..k]) + EncodeAll(items[k..])
    ensures k < |items| ==> |EncodeAll(items[..k])| < |EncodeAll(items)|
  {
    hide Encode;
    if k > 0 {
      EncodeAllSplit(items[1..], k - 1);
      TakeBehindFirst(items, k);
    } else {
      assert items[0..] == items;
      if items != [] {
        EncodeRead(items[0], []);
      }
    }
  }

  /** Of a stream of canonical encodings the first k items are read as they are. */
  lemma EncodeAllRead(items: seq<Item>, k: nat)
    requires k <= |items| && forall i | 0 <= i < |items| :: IsItem(items[i])
    ensures ReadItems(EncodeAll(items), k) == Got(items[..k], |EncodeAll(items[..k])|)
    ensures k < |items| ==> |EncodeAll(items[..k])| < |EncodeAll(items)|
  {
    hide ReadItems, EncodeAll;
    EncodeAllSplit(items, k);
    EncodedPrefix(items[..k], EncodeAll(items[k..]));
  }

  /** A list of items is read back through its own encoding. */
  lemma ListRoundTrip(items: seq<Item>, rest: seq<byte>)
    requires forall i | 0 <= i < |items| :: IsItem(items[i])
    requires |EncodeAll(items)| < TWO64
    ensures var list := Item(List, EncodeAll(items));
            && ReadItem(Encode(list) + rest) == Got(list, |Encode(list)|)
            && ReadItems(list.payload, |items|) == Got(items, |list.payload|)
  {
    EncodeRead(Item(List, EncodeAll(items)), rest);
    EncodeAllRead(items, |items|);
    assert items[..|items|] == items;
  }

  /** Examples of the format: "dog", the empty string, the empty list, and 56 zero bytes. */
  lemma KnownEncodings(zeros: seq<byte>)
    requires |zeros| == 56
    ensures Encode(Item(String, [0x64, 0x6F, 0x67])) == [0x83, 0x64, 0x6F, 0x67]
    ensures Encode(Item(String, [])) == [0x80] && Encode(Item(List, [])) == [0xC0]
    ensures Encode(Item(String, zeros)) == [0xB8, 56] + zeros && Encode(Item(List, zeros)) == [0xF8, 56] + zeros
  {
    assert Digits(0, 256) == [];
    assert Digits(56, 256) == [56];
  }
}
