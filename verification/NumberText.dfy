/** include/zxformat.h: integers to text and back. */
module NumberText {
  import opened Numerals
  import opened DigitText
  import opened Words

  function Abs(n: int): nat { if n < 0 then -n else n }

  /** The sign, then the canonical decimal digits. */
  function SignedText(n: int): string {
    (if n < 0 then "-" else "") + Text(Abs(n), 10)
  }

  /** Division and remainder of the C language: the quotient is cut towards zero. */
  function CDiv(n: int, d: int): int
    requires d > 0
  {
    if n < 0 then -((-n) / d) else n / d
  }

  function CMod(n: int, d: int): int
    requires d > 0
  {
    n - CDiv(n, d) * d
  }

  lemma LowestDigit(n: int)
    ensures Abs(CMod(n, 10)) == Abs(n) % 10 && Abs(CDiv(n, 10)) == Abs(n) / 10
    ensures n != 0 ==> Abs(CDiv(n, 10)) < Abs(n)
  {
  }

  // ---------------------------------------------------------------- writing

  /** Turns the characters from lo up to hi round. */
  method ReverseBetween(data: array<char>, lo: nat, hi: nat)
    requires lo <= hi <= data.Length
    modifies data
    ensures data[..lo] == old(data[..lo]) && data[hi..] == old(data[hi..])
    ensures data[lo..hi] == Reversed(old(data[lo..hi]))
  {
    ghost var was := data[..];
    var start, p := lo, hi;
    while p > start
      invariant lo <= start <= p + 1 && start + p == lo + hi
      invariant forall k | 0 <= k < lo || hi <= k < data.Length :: data[k] == was[k]
      invariant forall k | lo <= k < start :: data[k] == was[lo + hi - 1 - k]
      invariant forall k | p <= k < hi :: data[k] == was[lo + hi - 1 - k]
      invariant forall k | start <= k < p :: data[k] == was[k]
    {
      p := p - 1;
      data[start], data[p] := data[p], data[start];
      start := start + 1;
    }
    assert forall k | lo <= k < hi :: data[k] == was[lo + hi - 1 - k];
    ReversedPart(was, data[..], lo, hi);
    assert data[lo..hi] == data[..][lo..hi] && data[..lo] == data[..][..lo] && data[hi..] == data[..][hi..];
  }

  lemma ReversedPart(was: string, now: string, lo: nat, hi: nat)
    requires lo <= hi <= |was| == |now|
    requires forall k | 0 <= k < lo || hi <= k < |was| :: now[k] == was[k]
    requires forall k | lo <= k < hi :: now[k] == was[lo + hi - 1 - k]
    ensures now[..lo] == was[..lo] && now[hi..] == was[hi..] && now[lo..hi] == Reversed(was[lo..hi])
  {
  }

  /** Writes the digits of a number other than zero, least significant first, while there is room. */
  method EmitDigits(data: array<char>, from: nat, number: int) returns (ok: bool, p: nat)
    requires number != 0 && from <= 1 < data.Length
    requires forall k | from <= k < data.Length :: data[k] == '\0'
    modifies data
    ensures ok <==> |Text(Abs(number), 10)| <= data.Length - 1
    ensures ok ==> from <= p <= data.Length && Reversed(data[from..p]) == Text(Abs(number), 10)
    ensures ok ==> forall k | p <= k < data.Length :: data[k] == '\0'
    ensures data[..from] == old(data[..from])
  {
    hide Text, TextDigits, Digits, Emitted, CMod, CDiv;
    ghost var n := Abs(number);
    ghost var ds: seq<nat> := [];
    var rest := number;
    EmitNothing(n, 10);
    p := from;
    assert data[from..p] == [];
    while rest != 0
      invariant from <= p == from + |ds| <= from + data.Length - 1
      invariant Emitted(n, 10, Abs(rest), ds, data[from..p])
      invariant forall k | p <= k < data.Length :: data[k] == '\0'
      invariant data[..from] == old(data[..from])
      invariant ds == [] ==> rest == number
      decreases Abs(rest)
    {
      ghost var written := data[from..p];
      EmitDigit(n, 10, Abs(rest), ds, written);
      if p - from >= data.Length - 1 {
        return false, p;
      }
      LowestDigit(rest);
      var tmp := CMod(rest, 10);
      tmp := if tmp < 0 then -tmp else tmp;
      ds := [tmp as nat] + ds;
      data[p] := HexDigit(tmp);
      p := p + 1;
      rest := CDiv(rest, 10);
      assert data[from..p] == written + [HexDigit(tmp)];
    }
    EmittedAll(n, 10, ds, data[from..p]);
    ok := true;
  }

  /** `int32_to_str`, `uint32_to_str`, `int64_to_str` and `uint64_to_str`.  A negative number may fill the
      whole buffer, leaving no room for a terminating zero. */
  method NumToStr(data: array<char>, number: int) returns (ok: bool)
    modifies data
    ensures ok <==> data.Length >= 2 && |Text(Abs(number), 10)| <= data.Length - 1
    ensures ok ==> data[..] == Filled(SignedText(number), data.Length)
  {
    hide Text, Filled;
    if data.Length < 2 {
      return false;
    }
    forall k | 0 <= k < data.Length {
      data[k] := '\0';
    }
    var start := 0;
    if number < 0 {
      data[0] := '-';
      start := 1;
    } else if number == 0 {
      ZeroText();
      data[0] := '0';
      FilledSigned(data[..], 0, 1, 0);
      return true;
    }
    var p;
    ok, p := EmitDigits(data, start, number);
    if ok {
      ghost var sign, tail := data[..start], data[p..];
      assert sign == if number < 0 then "-" else "";
      ReverseBetween(data, start, p);
      assert data[start..p] == data[..][start..p] && data[p..] == data[..][p..] && data[..start] == data[..][..start];
      FilledSigned(data[..], start, p, number);
    }
  }

  lemma FilledSigned(buffer: string, start: nat, p: nat, number: int)
    requires start <= p <= |buffer|
    requires buffer[..start] == if number < 0 then "-" else ""
    requires buffer[start..p] == Text(Abs(number), 10)
    requires forall k | p <= k < |buffer| :: buffer[k] == '\0'
    ensures |SignedText(number)| == p && buffer == Filled(SignedText(number), |buffer|)
  {
  }

  /** Behind a text written with success there is a terminator, exactly unless the number is negative and
      its digits leave just the one byte that its sign takes. */
  lemma Terminated(buffer: string, number: int)
    requires |Text(Abs(number), 10)| <= |buffer| - 1 && |SignedText(number)| <= |buffer|
    requires buffer == Filled(SignedText(number), |buffer|)
    ensures (|SignedText(number)| < |buffer| && buffer[|SignedText(number)|] == '\0')
            <==> number >= 0 || |Text(Abs(number), 10)| + 1 < |buffer|
  {
    hide Text;
  }

  /** A buffer of two bytes takes -5 and has no terminator. */
  lemma UnterminatedMinusFive()
    ensures |Text(Abs(-5), 10)| <= 2 - 1
    ensures SignedText(-5) == "-5" == Filled(SignedText(-5), 2)
  {
    assert Digits(5, 10) == Digits(0, 10) + [5] == [5];
    assert Chars([5]) == "5";
  }

  lemma ZeroText()
    ensures Text(0, 10) == "0"
  {
  }

  // ---------------------------------------------------------------- reading

  predicate IsDecimal(s: string) {
    forall i | 0 <= i < |s| :: '0' <= s[i] <= '9'
  }

  function DecimalValue(s: string): nat { Value(DigitsOf(s), 10) }

  lemma DecimalSnoc(s: string, c: char)
    requires '0' <= c <= '9'
    ensures DecimalValue(s + [c]) == 10 * DecimalValue(s) + (c as nat - '0' as nat)
  {
    assert DigitsOf(s + [c]) == DigitsOf(s) + [DigitOf(c)];
    ValueSnoc(DigitsOf(s), DigitOf(c), 10);
  }

  lemma {:induction false} DecimalPrefix(s: string, i: nat)
    requires IsDecimal(s) && i <= |s|
    ensures DecimalValue(s[..i]) <= DecimalValue(s)
    decreases |s| - i
  {
    if i < |s| {
      assert s[..i + 1] == s[..i] + [s[i]];
      DecimalSnoc(s[..i], s[i]);
      DecimalPrefix(s, i + 1);
    } else {
      assert s[..i] == s;
    }
  }

  datatype Parsed = Digits64(value: u64) | Malformed

  /** The value after some characters.  The room for the next digit and the next value are computed modulo
      2^64. */
  function Scanned(s: string, limit: u64): Parsed {
    if s == "" then Digits64(0)
    else
      var before, c := Scanned(s[..|s| - 1], limit), s[|s| - 1];
      if before.Malformed? || !('0' <= c <= '9') then Malformed
      else
        var delta := c as nat - '0' as nat;
        if before.value > Sub64(limit, delta) / 10 then Malformed
        else Digits64(Add64(Mul64(before.value, 10), delta))
  }

  lemma ScannedSnoc(s: string, c: char, limit: u64)
    ensures Scanned(s + [c], limit) ==
            if Scanned(s, limit).Malformed? || !('0' <= c <= '9') then Malformed
            else
              var delta := c as nat - '0' as nat;
              if Scanned(s, limit).value > Sub64(limit, delta) / 10 then Malformed
              else Digits64(Add64(Mul64(Scanned(s, limit).value, 10), delta))
  {
    assert (s + [c])[..|s|] == s;
  }

  lemma {:induction false} ScannedRest(s: string, i: nat, limit: u64)
    requires i <= |s| && Scanned(s[..i], limit).Malformed?
    ensures Scanned(s, limit).Malformed?
    decreases |s| - i
  {
    if i < |s| {
      assert s[..i + 1] == s[..i] + [s[i]];
      ScannedSnoc(s[..i], s[i], limit);
      ScannedRest(s, i + 1, limit);
    } else {
      assert s[..i] == s;
    }
  }

  method ParseDigits(s: string, limit: u64) returns (error: bool, value: u64)
    ensures error <==> s == "" || Scanned(s, limit).Malformed?
    ensures value == if error then 0 else Scanned(s, limit).value
  {
    hide Scanned, Sub64, Mul64, Add64;
    value := 0;
    NoDigits(s[..0], limit);
    for i := 0 to |s|
      invariant Scanned(s[..i], limit) == Digits64(value)
    {
      assert s[..i + 1] == s[..i] + [s[i]];
      ScannedSnoc(s[..i], s[i], limit);
      if '0' <= s[i] <= '9' {
        var delta := s[i] as nat - '0' as nat;
        if value > Sub64(limit, delta) / 10 {
          ScannedRest(s, i + 1, limit);
          return true, 0;
        }
        value := Add64(Mul64(value, 10), delta);
      } else {
        ScannedRest(s, i + 1, limit);
        return true, 0;
      }
    }
    assert s[..|s|] == s;
    error := |s| == 0;
  }

  lemma RoomForDigit(v: u64, delta: nat, limit: u64)
    requires delta <= 9 <= limit
    ensures v > Sub64(limit, delta) / 10 <==> 10 * v as int + delta > limit
    ensures 10 * v as int + delta <= limit ==> Add64(Mul64(v, 10), delta) == 10 * v as int + delta
  {
    hide Wrap64;
    InRange(limit - delta);
    if 10 * v as int + delta <= limit {
      InRange(v as int * 10);
      InRange(v as int * 10 + delta);
    }
  }

  /** With a limit of at least 9 nothing wraps: digits are taken as long as their value is in the limit. */
  lemma {:induction false} ScannedExact(s: string, limit: u64)
    requires limit >= 9
    ensures Scanned(s, limit) ==
            if IsDecimal(s) && DecimalValue(s) <= limit then Digits64(DecimalValue(s)) else Malformed
  {
    hide DecimalValue, Scanned, Sub64, Mul64, Add64;
    if s == "" {
      NoDigits(s, limit);
    } else {
      var init, c := s[..|s| - 1], s[|s| - 1];
      assert s == init + [c];
      ScannedExact(init, limit);
      ScannedSnoc(init, c, limit);
      if '0' <= c <= '9' {
        DecimalSnoc(init, c);
        if Scanned(init, limit).Digits64? {
          RoomForDigit(Scanned(init, limit).value, c as nat - '0' as nat, limit);
        }
      }
      if IsDecimal(s) {
        DecimalPrefix(s, |s| - 1);
      }
    }
  }

  predicate TakenInLimit(s: string, limit: u64) {
    Scanned(s, limit).Digits64? <==> IsDecimal(s) && DecimalValue(s) <= limit
  }

  /** The digits taken are those whose value is in the limit exactly when the limit is at least 9: a digit
      above a smaller limit makes the room for it wrap. */
  lemma LimitKept(limit: u64)
    ensures (forall s: string :: TakenInLimit(s, limit)) <==> limit >= 9
  {
    if limit >= 9 {
      forall s: string
        ensures TakenInLimit(s, limit)
      {
        ScannedExact(s, limit);
      }
    } else {
      NoDigits("", limit);
      ScannedSnoc("", '9', limit);
      DecimalSnoc("", '9');
      assert "" + ['9'] == "9";
      assert !TakenInLimit("9", limit);
    }
  }

  lemma NoDigits(s: string, limit: u64)
    requires s == ""
    ensures DecimalValue(s) == 0 && Scanned(s, limit) == Digits64(0)
  {
  }

  const INT64_MAX: int := 0x7FFF_FFFF_FFFF_FFFF
  const INT64_MIN: int := -0x8000_0000_0000_0000

  /** What is left of a text behind a minus sign. */
  function Unsigned(s: string): string {
    if s != "" && s[0] == '-' then s[1..] else s
  }

  function IntOf(s: string): int {
    if s != "" && s[0] == '-' then -(DecimalValue(s[1..]) as int) else DecimalValue(s)
  }

  /** An optional minus sign and one or more digits whose value is a 64-bit integer. */
  predicate IsInt64Text(s: string) {
    && Unsigned(s) != "" && IsDecimal(Unsigned(s))
    && INT64_MIN <= IntOf(s) <= INT64_MAX
  }

  /** Reads the characters from start to end; the one at start is looked at even if there are none. */
  method StrToInt64(buffer: string, start: nat, end: nat) returns (error: bool, number: int)
    requires start < |buffer| && end <= |buffer|
    ensures !error <==> start <= end && IsInt64Text(buffer[start..end])
    ensures number == if error then 0 else IntOf(buffer[start..end])
  {
    hide DecimalValue;
    if start > end {
      return true, 0;
    }
    var sign, from := 1, start;
    if buffer[from] == '-' {
      sign := -1;
      from := from + 1;
    }
    var limit := if sign < 0 then INT64_MAX + 1 else INT64_MAX;
    var value: nat := 0;
    assert from <= end ==> buffer[from..end] == Unsigned(buffer[start..end]);
    ghost var digits := if from <= end then buffer[from..end] else "";
    ScannedExact(digits, limit);
    error, value := ParseDigits(if from <= end then buffer[from..end] else "", limit);
    if error {
      return true, 0;
    }
    if sign < 0 {
      if value == INT64_MAX + 1 {
        return false, INT64_MIN;
      }
      return false, -(value as int);
    }
    number := value;
  }

  // ---------------------------------------------------------------- round trip

  lemma TextDecimal(n: nat)
    ensures IsDecimal(Text(n, 10)) && Text(n, 10) != ""
    ensures DecimalValue(Text(n, 10)) == n
    ensures Text(n, 10)[0] != '-'
  {
    TextReadsBack(n, 10);
    TextDigitsValue(n, 10);
    var text := Text(n, 10);
    forall i | 0 <= i < |text|
      ensures '0' <= text[i] <= '9'
    {
      var d := TextDigits(n, 10)[i];
      assert d < 10 && text[i] == HexDigit(d);
    }
  }

  /** Decimal digits without a leading zero are the text of their value. */
  lemma CanonicalText(s: string)
    requires IsDecimal(s) && s != "" && (s[0] != '0' || s == "0")
    ensures Text(DecimalValue(s), 10) == s
  {
    var ds := DigitsOf(s);
    if s == "0" {
      ZeroText();
      DecimalSnoc("", '0');
      assert "" + ['0'] == "0";
    } else {
      DigitsOfValue(ds, 10);
      DigitsValue(DecimalValue(s), 10);
      assert Digits(0, 10) == [];
      assert TextDigits(DecimalValue(s), 10) == ds;
      forall i | 0 <= i < |s|
        ensures Chars(ds)[i] == s[i]
      {
        HexDigitCharacter(ds[i]);
      }
    }
  }

  /** What is written for a 64-bit integer, the least one included, is read back without error. */
  lemma Int64RoundTrip(n: int)
    requires INT64_MIN <= n <= INT64_MAX
    ensures IsInt64Text(SignedText(n)) && IntOf(SignedText(n)) == n
  {
    hide Text, DecimalValue;
    TextDecimal(Abs(n));
    var text := SignedText(n);
    if n < 0 {
      assert text == "-" + Text(-n, 10);
      assert text[1..] == Text(-n, 10);
    } else {
      assert text == Text(n, 10);
    }
  }

  /** A buffer of 21 bytes is enough for every 64-bit integer and a terminating zero. */
  lemma Int64Fits(n: int)
    requires INT64_MIN <= n <= INT64_MAX
    ensures |Text(Abs(n), 10)| <= 19 && |SignedText(n)| <= 20
  {
    DigitsCount(Abs(n), 10, 19);
    TenPowers();
  }

  lemma TenPowers()
    ensures Pow(10, 19) == 10_000_000_000_000_000_000
  {
    assert Pow(10, 4) == 10_000;
    assert Pow(10, 3) == 1_000;
    PowAdd(10, 4, 4);
    PowAdd(10, 8, 8);
    PowAdd(10, 16, 3);
  }
}
