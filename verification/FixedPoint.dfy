/** include/zxformat.h: setting a decimal point in a digit string and trimming zeros behind it. */
module FixedPoint {
  import opened Numerals
  import opened DigitText
  import opened NumberText

  // ---------------------------------------------------------------- what a text denotes

  /** The place of the first point, or the length of a text without one. */
  function PointAt(s: string): (p: nat)
    ensures p <= |s| && (p < |s| ==> s[p] == '.')
    ensures forall i | 0 <= i < p :: s[i] != '.'
  {
    if s == "" || s[0] == '.' then 0 else 1 + PointAt(s[1..])
  }

  function Whole(s: string): string { s[..PointAt(s)] }

  function Fraction(s: string): string {
    if PointAt(s) < |s| then s[PointAt(s) + 1..] else ""
  }

  predicate IsAmount(s: string) {
    Whole(s) != "" && IsDecimal(Whole(s) + Fraction(s))
  }

  /** The number a text with an optional decimal point denotes. */
  function Amount(s: string): real {
    Ratio(DecimalValue(Whole(s) + Fraction(s)), |Fraction(s)|)
  }

  /** n / 10^k. */
  function Ratio(n: nat, k: nat): real {
    n as real / Pow(10, k) as real
  }

  lemma RatioTen(n: nat, k: nat)
    ensures Ratio(10 * n, k + 1) == Ratio(n, k)
  {
    var p := Pow(10, k);
    assert Pow(10, k + 1) == 10 * p;
    TenOverTen(n as real, p as real);
  }

  lemma TenOverTen(n: real, p: real)
    requires p > 0.0
    ensures (10.0 * n) / (10.0 * p) == n / p
  {
  }

  lemma {:induction false} PointOf(w: string, f: string)
    requires IsDecimal(w)
    ensures PointAt(w) == |w| && PointAt(w + "." + f) == |w|
  {
    if w != "" {
      PointOf(w[1..], f);
      assert (w + "." + f)[1..] == w[1..] + "." + f;
    }
  }

  lemma PartsOf(w: string, f: string)
    requires IsDecimal(w)
    ensures Whole(w) == w && Fraction(w) == ""
    ensures Whole(w + "." + f) == w && Fraction(w + "." + f) == f
  {
    PointOf(w, f);
  }

  // ---------------------------------------------------------------- setting the point

  function ZeroChars(n: nat): (s: string)
    ensures |s| == n
  {
    seq(n, _ => '0')
  }

  /** The digits with the point before the last `decimals` of them, filled up with zeros if need be. */
  function FixedPointText(number: string, decimals: nat): string {
    if decimals == 0 then (if number == "" then "0" else number)
    else if |number| <= decimals then "0." + ZeroChars(decimals - |number|) + number
    else number[..|number| - decimals] + "." + number[|number| - decimals..]
  }

  lemma LeadingZeroChars(n: nat, s: string)
    requires IsDecimal(s)
    ensures IsDecimal("0" + ZeroChars(n) + s) && DecimalValue("0" + ZeroChars(n) + s) == DecimalValue(s)
  {
    var t := "0" + ZeroChars(n) + s;
    assert DigitsOf(t) == Zeros(n + 1) + DigitsOf(s);
    ValueStrip(Zeros(n + 1), DigitsOf(s), 10);
  }

  lemma AmountOfParts(w: string, f: string)
    requires w != "" && IsDecimal(w + f)
    ensures IsAmount(w + "." + f) && Amount(w + "." + f) == Ratio(DecimalValue(w + f), |f|)
    ensures f == "" ==> IsAmount(w) && Amount(w) == Ratio(DecimalValue(w), 0)
  {
    hide DecimalValue, Ratio, PointAt;
    assert forall i | 0 <= i < |w| :: w[i] == (w + f)[i];
    PartsOf(w, f);
    if f == "" {
      assert w + f == w;
    }
  }

  /** The text denotes exactly the number divided by the power of ten. */
  lemma FixedPointAmount(number: string, decimals: nat)
    requires number != "" && IsDecimal(number)
    ensures IsAmount(FixedPointText(number, decimals))
    ensures Amount(FixedPointText(number, decimals)) == Ratio(DecimalValue(number), decimals)
  {
    hide DecimalValue, IsAmount, Amount, Ratio;
    var k := |number|;
    if decimals == 0 {
      AmountOfParts(number, "");
    } else if k <= decimals {
      var f := ZeroChars(decimals - k) + number;
      LeadingZeroChars(decimals - k, number);
      assert "0" + f == "0" + ZeroChars(decimals - k) + number;
      AmountOfParts("0", f);
      assert FixedPointText(number, decimals) == "0" + "." + f;
    } else {
      var w, f := number[..k - decimals], number[k - decimals..];
      assert w + f == number;
      AmountOfParts(w, f);
    }
  }

  lemma SplitDigits(s: string, k: nat)
    requires IsDecimal(s) && k <= |s|
    ensures DecimalValue(s) / Pow(10, |s| - k) == DecimalValue(s[..k])
  {
    var w, f := s[..k], s[k..];
    assert DigitsOf(s) == DigitsOf(w) + DigitsOf(f);
    ValueConcat(DigitsOf(w), DigitsOf(f), 10);
    ValueBound(DigitsOf(f), 10);
    DivModUnique(DecimalValue(s), Pow(10, |f|), DecimalValue(w), DecimalValue(f));
  }

  /** A number below the power of ten has the whole part 0. */
  lemma SmallParts(n: nat, decimals: nat)
    requires 0 < |Text(n, 10)| <= decimals
    ensures n / Pow(10, decimals) == 0
    ensures Whole(FixedPointText(Text(n, 10), decimals)) == "0"
    ensures |Fraction(FixedPointText(Text(n, 10), decimals))| == decimals
    ensures PointAt(FixedPointText(Text(n, 10), decimals)) < |FixedPointText(Text(n, 10), decimals)|
  {
    hide Text, Pow;
    var text := Text(n, 10);
    var f := ZeroChars(decimals - |text|) + text;
    assert IsDecimal("0");
    PartsOf("0", f);
    PointOf("0", f);
    assert FixedPointText(text, decimals) == "0" + "." + f;
    TextLength(n, 10, |text|);
    PowMono(10, |text|, decimals);
    DivModUnique(n, Pow(10, decimals), 0, n);
  }

  lemma LargeParts(n: nat, decimals: nat)
    requires 0 < decimals < |Text(n, 10)|
    ensures n / Pow(10, decimals) >= 0
    ensures Whole(FixedPointText(Text(n, 10), decimals)) == Text(n / Pow(10, decimals), 10)
    ensures |Fraction(FixedPointText(Text(n, 10), decimals))| == decimals
    ensures PointAt(FixedPointText(Text(n, 10), decimals)) < |FixedPointText(Text(n, 10), decimals)|
  {
    hide Text, DecimalValue, Pow;
    var text := Text(n, 10);
    var w, f := text[..|text| - decimals], text[|text| - decimals..];
    TextDecimal(n);
    PartsOf(w, f);
    PointOf(w, f);
    SplitDigits(text, |text| - decimals);
    TextLeads(n);
    CanonicalText(w);
  }

  /** In front of the point stands the canonical text of the whole part, behind it all the decimals. */
  lemma FixedPointParts(n: nat, decimals: nat)
    ensures n / Pow(10, decimals) >= 0
    ensures Whole(FixedPointText(Text(n, 10), decimals)) == Text(n / Pow(10, decimals), 10)
    ensures |Fraction(FixedPointText(Text(n, 10), decimals))| == decimals
    ensures PointAt(FixedPointText(Text(n, 10), decimals)) < |FixedPointText(Text(n, 10), decimals)| <==> decimals > 0
  {
    hide Text, Pow, Whole, Fraction;
    var text := Text(n, 10);
    TextDecimal(n);
    if decimals == 0 {
      PowZero();
      PartsOf(text, "");
      PointOf(text, "");
    } else if |text| <= decimals {
      SmallParts(n, decimals);
      ZeroText();
    } else {
      LargeParts(n, decimals);
    }
  }

  lemma PowZero()
    ensures Pow(10, 0) == 1
  {
  }

  /** A text of more than one digit does not begin with 0. */
  lemma TextLeads(n: nat)
    ensures |Text(n, 10)| > 1 ==> Text(n, 10)[0] != '0'
  {
    TextReadsBack(n, 10);
    if n == 0 {
      ZeroText();
    }
  }

  /** What `snprintf(out, size, "%s", text)` leaves of a text. */
  function Cut(text: string, size: nat): (s: string)
    ensures s <= text && |s| == if |text| < size then |text| else if size == 0 then 0 else size - 1
  {
    if size == 0 then "" else if |text| < size then text else text[..size - 1]
  }

  lemma WholeCut(text: string, size: nat)
    requires |text| < size
    ensures Cut(text, size) == text
  {
  }

  /** Writes a text and its terminator from `at` on, cut to the room there is. */
  method Snprintf(out: array<char>, at: nat, text: string)
    requires at < out.Length
    modifies out
    ensures var cut := Cut(text, out.Length - at);
            out[..] == old(out[..at]) + cut + "\0" + old(out[at + |cut| + 1..])
  {
    hide Cut;
    var cut := Cut(text, out.Length - at);
    ghost var was := out[..];
    forall k | 0 <= k < |cut| {
      out[at + k] := cut[k];
    }
    out[at + |cut|] := '\0';
    WrittenOver(was, out[..], at, cut);
    assert old(out[..at]) == was[..at] && old(out[at + |cut| + 1..]) == was[at + |cut| + 1..];
  }

  lemma WrittenOver(was: string, now: string, at: nat, cut: string)
    requires at + |cut| < |was| == |now|
    requires forall k | 0 <= k < |cut| :: now[at + k] == cut[k]
    requires now[at + |cut|] == '\0'
    requires forall k | 0 <= k < at || at + |cut| < k < |was| :: now[k] == was[k]
    ensures now == was[..at] + cut + "\0" + was[at + |cut| + 1..]
  {
  }

  /** When the routine reports success. */
  predicate Fits(digits: nat, decimals: nat, size: nat) {
    if decimals == 0 then digits <= size
    else decimals + 2 <= size && digits + 2 <= size && (digits <= decimals ==> decimals + 2 < size)
  }

  /** Success means the whole text and its terminator are there, but for a whole number as long as the
      buffer (the "0" of an empty one counting): it loses its last digit. */
  lemma FitsWhole(number: string, decimals: nat, size: nat)
    requires Fits(|number|, decimals, size)
    ensures Cut(FixedPointText(number, decimals), size) == FixedPointText(number, decimals)
            <==> decimals > 0 || (if number == "" then 1 else |number|) < size
  {
  }

  /** A head, a text behind it, and zeros. */
  lemma JoinedText(was: string, head: string, tail: string)
    requires |head| + |tail| < |was| && was[..|head|] == head
    requires forall k | |head| + |tail| < k < |was| :: was[k] == '\0'
    ensures was[..|head|] + tail + "\0" + was[|head| + |tail| + 1..] == Filled(head + tail, |was|)
  {
  }

  method WriteCut(out: array<char>, text: string)
    requires forall k | 0 <= k < out.Length :: out[k] == '\0'
    modifies out
    ensures out[..] == Filled(Cut(text, out.Length), out.Length)
  {
    hide Cut, Filled;
    if out.Length > 0 {
      JoinedText(out[..], "", Cut(text, out.Length));
      assert "" + Cut(text, out.Length) == Cut(text, out.Length);
      assert out[..][..0] == out[..0] == "";
      ghost var at := |Cut(text, out.Length)| + 1;
      assert out[..][at..] == out[at..];
      Snprintf(out, 0, text);
    } else {
      NoRoom(out[..], text);
    }
  }

  /** With decimals, success means exactly that the text and its terminator fit; without, that the digits do. */
  lemma FitsExactly(number: string, decimals: nat, size: nat)
    ensures Fits(|number|, decimals, size) <==>
            if decimals > 0 then |FixedPointText(number, decimals)| < size else |number| <= size
  {
  }

  lemma NoRoom(buffer: string, text: string)
    requires buffer == ""
    ensures buffer == Filled(Cut(text, 0), 0)
  {
  }

  method FpStrToStr(out: array<char>, number: string, decimals: byte) returns (rc: nat)
    requires out.Length < 0x10000
    modifies out
    ensures rc == if Fits(|number|, decimals, out.Length) then 0 else 1
    ensures var text := if rc == 0 then FixedPointText(number, decimals) else "ERR";
            out[..] == Filled(Cut(text, out.Length), out.Length)
  {
    hide Filled, Cut;
    forall k | 0 <= k < out.Length {
      out[k] := '\0';
    }
    var digits := |number|;
    if decimals == 0 {
      if digits == 0 {
        WriteCut(out, "0");
        return 0;
      }
      if out.Length < digits {
        WriteCut(out, "ERR");
        return 1;
      }
      WriteCut(out, number);
      return 0;
    }
    if out.Length < decimals as nat + 2 || out.Length < digits + 2 {
      WriteCut(out, "ERR");
      return 1;
    }
    if digits <= decimals {
      if out.Length <= decimals as nat + 2 {
        WriteCut(out, "ERR");
        return 1;
      }
      PrependZeros(out, number, decimals);
    } else {
      InsertPoint(out, number, decimals);
    }
    WholeCut(FixedPointText(number, decimals), out.Length);
    rc := 0;
  }

  method PrependZeros(out: array<char>, number: string, decimals: byte)
    requires forall k | 0 <= k < out.Length :: out[k] == '\0'
    requires decimals > 0 && |number| <= decimals && decimals as nat + 2 < out.Length
    modifies out
    ensures out[..] == Filled(FixedPointText(number, decimals), out.Length)
    ensures |FixedPointText(number, decimals)| < out.Length
  {
    hide Filled;
    var zeros := decimals - |number|;
    out[0], out[1] := '0', '.';
    forall k | 2 <= k < 2 + zeros {
      out[k] := '0';
    }
    ghost var head := "0." + ZeroChars(zeros);
    assert out[..][..2 + zeros] == out[..2 + zeros] == head;
    JoinedText(out[..], head, number);
    assert out[..][2 + zeros + |number| + 1..] == out[2 + zeros + |number| + 1..];
    Snprintf(out, 2 + zeros, number);
  }

  method InsertPoint(out: array<char>, number: string, decimals: byte)
    requires forall k | 0 <= k < out.Length :: out[k] == '\0'
    requires 0 < decimals < |number| && |number| + 2 <= out.Length
    modifies out
    ensures out[..] == Filled(FixedPointText(number, decimals), out.Length)
    ensures |FixedPointText(number, decimals)| < out.Length
  {
    hide Filled, Cut;
    var shift := |number| - decimals;
    var rest := number[shift..];
    WriteCut(out, number);
    WholeCut(number, out.Length);
    out[shift] := '.';
    ghost var was, head := out[..], number[..shift] + ".";
    PointPut(was, number, shift);
    WholeCut(rest, out.Length - shift - 1);
    JoinedText(was, head, rest);
    assert was[..shift + 1] == out[..shift + 1] && was[|number| + 2..] == out[|number| + 2..];
    Snprintf(out, shift + 1, rest);
  }

  lemma PointPut(buffer: string, number: string, shift: nat)
    requires shift < |number| && |number| + 2 <= |buffer|
    requires buffer == Filled(number, |buffer|)[shift := '.']
    ensures buffer[..shift + 1] == number[..shift] + "."
    ensures forall k | |number| < k < |buffer| :: buffer[k] == '\0'
  {
  }

  // ---------------------------------------------------------------- trimming

  /** Cuts zeros off the end, but nothing up to the index `limit`. */
  function TrimEnd(s: string, limit: nat): string {
    if |s| > limit + 1 && s[|s| - 1] == '0' then TrimEnd(s[..|s| - 1], limit) else s
  }

  /** The text without trailing zeros, of which `keep` characters behind the point stay. */
  function Trimmed(s: string, keep: nat): string {
    if |s| <= 1 || |s| > 1024 || PointAt(s) == |s| then s else TrimEnd(s, PointAt(s) + keep)
  }

  lemma {:induction false} PointPrefix(s: string, k: nat)
    requires PointAt(s) < k <= |s|
    ensures PointAt(s[..k]) == PointAt(s)
  {
    if s[0] != '.' {
      PointPrefix(s[1..], k - 1);
      assert s[..k][1..] == s[1..][..k - 1];
    }
  }

  lemma DropZero(s: string)
    requires IsAmount(s) && PointAt(s) < |s| - 1 && s[|s| - 1] == '0'
    ensures var t := s[..|s| - 1]; PointAt(t) == PointAt(s) && IsAmount(t) && Amount(t) == Amount(s)
  {
    hide DecimalValue, Ratio, PointAt;
    var t := s[..|s| - 1];
    PointPrefix(s, |s| - 1);
    assert Whole(t) == Whole(s);
    assert Fraction(s) == Fraction(t) + "0";
    var digits := Whole(t) + Fraction(t);
    assert Whole(s) + Fraction(s) == digits + "0";
    DecimalSnoc(digits, '0');
    RatioTen(DecimalValue(digits), |Fraction(t)|);
    DecimalInit(digits, '0');
  }

  lemma DecimalInit(s: string, c: char)
    requires IsDecimal(s + [c])
    ensures IsDecimal(s)
  {
    assert forall i | 0 <= i < |s| :: s[i] == (s + [c])[i];
  }

  lemma {:induction false} TrimEndAmount(s: string, limit: nat)
    requires IsAmount(s) && PointAt(s) < |s| && PointAt(s) <= limit
    ensures IsAmount(TrimEnd(s, limit)) && Amount(TrimEnd(s, limit)) == Amount(s)
    ensures TrimEnd(s, limit) <= s
    ensures var t := TrimEnd(s, limit); |t| > limit + 1 ==> t[|t| - 1] != '0'
    decreases |s|
  {
    hide IsAmount, Amount;
    if |s| > limit + 1 && s[|s| - 1] == '0' {
      DropZero(s);
      TrimEndAmount(s[..|s| - 1], limit);
    }
  }

  /** Trimming does not change the number, and leaves no zero it could still cut. */
  lemma TrimmedAmount(s: string, keep: nat)
    requires IsAmount(s)
    ensures IsAmount(Trimmed(s, keep)) && Amount(Trimmed(s, keep)) == Amount(s) && Trimmed(s, keep) <= s
    ensures var t := Trimmed(s, keep);
            1 < |s| <= 1024 && |t| > PointAt(s) + keep + 1 ==> t[|t| - 1] != '0'
  {
    hide IsAmount, Amount;
    if 1 < |s| <= 1024 && PointAt(s) < |s| {
      TrimEndAmount(s, PointAt(s) + keep);
    }
  }

  lemma {:induction false} TrimEndKeeps(s: string, limit: nat)
    ensures |TrimEnd(s, limit)| >= if |s| < limit + 1 then |s| else limit + 1
    decreases |s|
  {
    if |s| > limit + 1 && s[|s| - 1] == '0' {
      TrimEndKeeps(s[..|s| - 1], limit);
    }
  }

  /** The characters to keep behind the point are kept, as far as there are any. */
  lemma TrimmedKeeps(s: string, keep: nat)
    ensures |Trimmed(s, keep)| >= if |s| < PointAt(s) + keep + 1 then |s| else PointAt(s) + keep + 1
  {
    if 1 < |s| <= 1024 && PointAt(s) < |s| {
      TrimEndKeeps(s, PointAt(s) + keep);
    }
  }

  method StrLen(s: array<char>, ghost text: string) returns (len: nat)
    requires |text| < s.Length && s[..] == Filled(text, s.Length) && '\0' !in text
    ensures len == |text|
  {
    len := 0;
    assert s[|text|] == s[..][|text|] == '\0';
    while s[len] != '\0'
      invariant len <= |text|
      decreases |text| - len
    {
      assert s[len] == s[..][len];
      len := len + 1;
    }
    NoZeroBefore(s[..], text, len);
  }

  lemma NoZeroBefore(buffer: string, text: string, k: nat)
    requires |text| < |buffer| && buffer == Filled(text, |buffer|) && '\0' !in text
    requires k <= |text| && buffer[k] == '\0'
    ensures k == |text|
  {
  }

  method NumberInplaceTrimming(s: array<char>, nonTrimmed: byte, ghost text: string)
    requires |text| < s.Length && s[..] == Filled(text, s.Length) && '\0' !in text
    modifies s
    ensures |Trimmed(text, nonTrimmed)| <= |text|
    ensures s[..] == Filled(Trimmed(text, nonTrimmed), s.Length)
  {
    var len := StrLen(s, text);
    if len == 0 || len == 1 || len > 1024 {
      return;
    }
    var i := 0;
    while i < len && s[i] != '.'
      invariant i <= PointAt(text)
    {
      assert s[i] == s[..][i] == text[i];
      i := i + 1;
    }
    assert i < len ==> s[i] == s[..][i] == text[i];
    assert i == PointAt(text);
    if i == len {
      return;
    }
    TrimTail(s, len, i + nonTrimmed as nat, text);
  }

  /** Zeroes the trailing '0' characters behind the index `limit`. */
  method TrimTail(s: array<char>, len: nat, limit: nat, ghost text: string)
    requires len == |text| > 1 && |text| < s.Length && s[..] == Filled(text, s.Length)
    modifies s
    ensures |TrimEnd(text, limit)| <= |text|
    ensures s[..] == Filled(TrimEnd(text, limit), s.Length)
  {
    hide TrimEnd;
    var i := len - 1;
    assert text[..len] == text;
    while i > limit && s[i] == '0'
      invariant 0 <= i < len
      invariant s[..] == Filled(text[..i + 1], s.Length)
      invariant TrimEnd(text, limit) == TrimEnd(text[..i + 1], limit)
    {
      TrimStep(text, i, limit, s[i]);
      ghost var before := s[..];
      s[i] := '\0';
      assert s[..] == before[i := '\0'];
      FilledDrop(before, text[..i + 1]);
      assert text[..i + 1][..i] == text[..i];
      i := i - 1;
    }
    TrimStop(text, i, limit, s[i]);
  }

  lemma FilledDrop(buffer: string, text: string)
    requires 0 < |text| < |buffer| && buffer == Filled(text, |buffer|)
    ensures buffer[|text| - 1 := '\0'] == Filled(text[..|text| - 1], |buffer|)
  {
  }

  lemma TrimStep(text: string, i: nat, limit: nat, c: char)
    requires i < |text| && limit < i && text[i] == c == '0'
    ensures TrimEnd(text[..i + 1], limit) == TrimEnd(text[..i], limit)
  {
    assert text[..i + 1][..i] == text[..i];
  }

  lemma TrimStop(text: string, i: nat, limit: nat, c: char)
    requires i < |text| && text[i] == c && (i <= limit || c != '0')
    ensures TrimEnd(text[..i + 1], limit) == text[..i + 1]
  {
  }
}
