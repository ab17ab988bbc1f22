/** src/base58.c, the two conversion routines on their fixed buffers. */
module Base58Codec {
  import opened Numerals
  import opened Base58

  // ---------------------------------------------------------------- encoding

  /** The number a pass is computing when the digits from j on are rewritten to `tail`: the carry still
      has to be added to 256 times the untouched prefix. */
  function Pending(was: seq<nat>, j: nat, carry: nat, tail: seq<nat>): nat
    requires j <= |was|
  {
    (256 * Value(was[..j], 58) + carry) * Pow(58, |tail|) + Value(tail, 58)
  }

  lemma CarryAlgebra(v: nat, b: nat, carry: nat, d: nat, c: nat, p: nat, p58: nat, tail: nat)
    requires carry + 256 * b == c * 58 + d && p58 == 58 * p
    ensures (256 * (v * 58 + b) + carry) * p + tail == (256 * v + c) * p58 + (d * p + tail)
  {
  }

  /** Moving the carry one digit to the left keeps the number. */
  lemma CarryStep(was: seq<nat>, j: nat, carry: nat, tail: seq<nat>)
    requires j < |was| && was[j] < 58 && carry < 256
    ensures var t := carry + 256 * was[j];
            && t / 58 < 256
            && Pending(was, j + 1, carry, tail) == Pending(was, j, t / 58, [t % 58] + tail)
  {
    hide Value;
    var t := carry + 256 * was[j];
    assert was[..j + 1] == was[..j] + [was[j]];
    ValueSnoc(was[..j], was[j], 58);
    ValueCons(t % 58, tail, 58);
    CarryAlgebra(Value(was[..j], 58), was[j], carry, t % 58, t / 58, Pow(58, |tail|), Pow(58, |tail| + 1), Value(tail, 58));
  }

  lemma PendingStart(was: seq<nat>, digit: nat)
    ensures Pending(was, |was|, digit, []) == 256 * Value(was, 58) + digit
  {
    assert was[..|was|] == was;
  }

  /** A carry that is left over weighs 58^|tail|. */
  lemma PendingMagnitude(was: seq<nat>, j: nat, carry: nat, tail: seq<nat>)
    requires j <= |was|
    ensures carry > 0 ==> Pending(was, j, carry, tail) >= Pow(58, |tail|)
  {
    hide Pow, Value;
    if carry > 0 {
      MulMono(1, 256 * Value(was[..j], 58) + carry, Pow(58, |tail|));
    }
  }

  /** With zeros in front and no carry left, the digits written are the whole number. */
  lemma PendingEnd(was: seq<nat>, now: seq<nat>, j: nat)
    requires |was| == |now| && j < |was|
    requires now[..j] == was[..j]
    requires forall k | 0 <= k < j :: was[k] == 0
    ensures Pending(was, j, 0, now[j..]) == Value(now, 58)
  {
    hide Pow;
    ValueZeros(was[..j], 58);
    assert now == now[..j] + now[j..];
    ValueStrip(now[..j], now[j..], 58);
  }

  /** Base 256 digits are read one at a time; base 58 digits never outgrow the estimate. */
  lemma PassBound(v: nat, digit: byte, n: nat, i: nat)
    requires i < n && v < Pow(256, i)
    ensures 256 * v + digit < Pow(256, i + 1) <= Pow(58, BufferSize(i + 1))
    ensures Pow(58, BufferSize(i + 1)) <= Pow(58, BufferSize(n))
  {
    EstimateSuffices(i + 1);
    PowMono(58, BufferSize(i + 1), BufferSize(n));
  }

  lemma DigitsNeeded(k: nat, total: nat, i: nat, n: nat)
    requires Pow(58, k) <= total < Pow(58, BufferSize(i + 1)) <= Pow(58, BufferSize(n))
    ensures k < BufferSize(i + 1) && k < BufferSize(n)
  {
  }

  /** The leftmost digit of the estimate produces no carry. */
  lemma LastCarry(was: seq<nat>, j: nat, carry: nat, tail: seq<nat>, n: nat)
    requires j <= |was| && j + |tail| == BufferSize(n)
    requires Pending(was, j, carry, tail) < Pow(58, BufferSize(n))
    ensures j == 0 ==> carry == 0
  {
  }

  /** Rewrites one digit and returns the new carry. */
  method DigitStep(buffer: array<byte>, outputSize: nat, j: nat, carryIn: nat, ghost was: seq<byte>) returns (carry: nat)
    requires j < outputSize <= buffer.Length && |was| == outputSize && carryIn < 256
    requires buffer[..j + 1] == was[..j + 1]
    requires IsNumeral(buffer[..outputSize], 58)
    modifies buffer
    ensures carry < 256
    ensures buffer[..j] == was[..j] == buffer[..outputSize][..j]
    ensures IsNumeral(buffer[..outputSize], 58)
    ensures buffer[j..outputSize] == buffer[..outputSize][j..]
    ensures |buffer[j..outputSize]| == |old(buffer[j + 1..outputSize])| + 1
    ensures Pending(was, j, carry, buffer[j..outputSize]) == Pending(was, j + 1, carryIn, old(buffer[j + 1..outputSize]))
  {
    hide Pending;
    ghost var tail := buffer[j + 1..outputSize];
    assert buffer[j] == buffer[..j + 1][j] == was[j];
    CarryStep(was, j, carryIn, tail);
    var old58: nat := buffer[j];
    carry := carryIn + 256 * old58;
    buffer[j] := carry % 58;
    carry := carry / 58;
    assert buffer[j..outputSize] == [buffer[j]] + tail;
  }

  /** One pass: buffer := 256 * buffer + digit.  It stops at the first zero carry left of the
      previous stop, which is never left of the estimate for one more input byte. */
  method EncodePass(buffer: array<byte>, outputSize: nat, stopAt: nat, digit: byte, ghost n: nat, ghost i: nat)
    returns (newStop: nat)
    requires outputSize == BufferSize(n) <= buffer.Length && i < n
    requires 1 <= stopAt < outputSize <= stopAt + BufferSize(i)
    requires IsNumeral(buffer[..outputSize], 58)
    requires forall k | 0 <= k < stopAt :: buffer[k] == 0
    requires Value(buffer[..outputSize], 58) < Pow(256, i)
    modifies buffer
    ensures newStop < stopAt && outputSize <= newStop + BufferSize(i + 1)
    ensures IsNumeral(buffer[..outputSize], 58)
    ensures forall k | 0 <= k < newStop :: buffer[k] == 0
    ensures Value(buffer[..outputSize], 58) == 256 * old(Value(buffer[..outputSize], 58)) + digit
  {
    hide Pow, Value, Pending, BufferSize;
    ghost var was := buffer[..outputSize];
    ghost var total := 256 * Value(was, 58) + digit;
    PendingStart(was, digit);
    PassBound(Value(was, 58), digit, n, i);
    Growth(i);
    var carry: nat := digit;
    var j: int := outputSize - 1;
    assert buffer[j + 1..outputSize] == [];
    while j >= 0
      invariant 0 <= j < outputSize && carry < 256
      invariant buffer[..j + 1] == was[..j + 1]
      invariant IsNumeral(buffer[..outputSize], 58)
      invariant total == Pending(was, j + 1, carry, buffer[j + 1..outputSize])
      invariant j < stopAt - 1 ==> carry > 0
    {
      ghost var tail := buffer[j + 1..outputSize];
      PendingMagnitude(was, j + 1, carry, tail);
      carry := DigitStep(buffer, outputSize, j, carry, was);
      LastCarry(was, j, carry, buffer[j..outputSize], n);
      if j <= stopAt - 1 && carry == 0 {
        if j < stopAt - 1 {
          DigitsNeeded(|tail|, total, i, n);
        }
        PendingEnd(was, buffer[..outputSize], j);
        assert forall k | 0 <= k < j :: buffer[k] == buffer[..j][k] == 0;
        return j;
      }
      j := j - 1;
    }
  }

  /** The length of the longest run of zeros the scan finds is the leading-zero count. */
  lemma ScannedZeros(s: seq<nat>, z: nat)
    requires z <= |s|
    requires forall k | 0 <= k < z :: s[k] == 0
    requires z < |s| ==> s[z] != 0
    ensures z == LeadingZeros(s)
  {
  }

  lemma PrefixStep(s: seq<byte>, z: nat, k: nat)
    requires z <= k < |s|
    ensures Value(s[z..k + 1], 256) == 256 * Value(s[z..k], 256) + s[k]
    ensures Value(s[z..k], 256) < Pow(256, k - z)
  {
    assert s[z..k + 1] == s[z..k] + [s[k]];
    ValueSnoc(s[z..k], s[k], 256);
    ValueBound(s[z..k], 256);
  }

  lemma EncodedText(input: seq<byte>, z: nat, digits: seq<nat>)
    requires z == LeadingZeros(input) && digits == Digits(Value(input[z..], 256), 58)
    ensures IsNumeral(digits, 58)
    ensures Encode(input) == seq(z, _ => '1') + ToText(digits)
  {
    hide Value, Digits, LeadingZeros;
    assert input == input[..z] + input[z..];
    ValueStrip(input[..z], input[z..], 256);
    DigitsValue(Value(input[z..], 256), 58);
    assert Transcode(input, 256, 58) == Zeros(z) + digits;
    assert ToText(Zeros(z) + digits) == seq(z, _ => '1') + ToText(digits);
  }

  /** Fills the digit buffer with the base-58 digits of the significant bytes. */
  method Convert(input: seq<byte>, zeroCount: nat, buffer: array<byte>, outputSize: nat)
    requires zeroCount <= |input| && outputSize == BufferSize(|input| - zeroCount) <= buffer.Length
    requires forall k | 0 <= k < buffer.Length :: buffer[k] == 0
    modifies buffer
    ensures IsNumeral(buffer[..outputSize], 58)
    ensures Value(buffer[..outputSize], 58) == Value(input[zeroCount..], 256)
  {
    hide Pow, Value;
    ghost var n := |input| - zeroCount;
    var stopAt := outputSize - 1;
    ValueZeros(buffer[..outputSize], 58);
    ValueZeros(input[zeroCount..zeroCount], 256);
    for startAt := zeroCount to |input|
      invariant 0 <= stopAt < outputSize <= stopAt + BufferSize(startAt - zeroCount)
      invariant IsNumeral(buffer[..outputSize], 58)
      invariant forall k | 0 <= k < stopAt :: buffer[k] == 0
      invariant Value(buffer[..outputSize], 58) == Value(input[zeroCount..startAt], 256)
    {
      PrefixStep(input, zeroCount, startAt);
      stopAt := EncodePass(buffer, outputSize, stopAt, input[startAt], n, startAt - zeroCount);
    }
    assert input[zeroCount..|input|] == input[zeroCount..];
  }

  method EncodeBase58(input: seq<byte>, out: array<char>, outlen: nat) returns (rc: int, written: nat)
    requires outlen <= out.Length
    modifies out
    ensures rc == 0 || rc == -1
    ensures rc == 0 <==> |input| <= MAX_ENC_INPUT_SIZE && |Encode(input)| <= outlen
    ensures rc == 0 ==> out[..outlen] == Encode(input) + seq(outlen - |Encode(input)|, _ => '\0')
    ensures rc == -1 ==> out[..outlen] == seq(outlen, _ => '\0')
    ensures written == if |input| <= MAX_ENC_INPUT_SIZE then |Encode(input)| else outlen
    ensures out[outlen..] == old(out[outlen..])
  {
    hide Value, Digits, Encode, BufferSize;
    var buffer := new byte[MAX_ENC_INPUT_SIZE * 138 / 100 + 1](_ => 0);
    Clear(out, outlen);
    if |input| > MAX_ENC_INPUT_SIZE {
      return -1, outlen;
    }
    var zeroCount := 0;
    while zeroCount < |input| && input[zeroCount] == 0
      invariant zeroCount <= |input|
      invariant forall k | 0 <= k < zeroCount :: input[k] == 0
    {
      zeroCount := zeroCount + 1;
    }
    ScannedZeros(input, zeroCount);
    EstimateFits(|input| - zeroCount);
    var outputSize := (|input| - zeroCount) * 138 / 100 + 1;
    Convert(input, zeroCount, buffer, outputSize);

    var j := 0;
    while j < outputSize && buffer[j] == 0
      invariant j <= outputSize
      invariant forall k | 0 <= k < j :: buffer[k] == 0
    {
      j := j + 1;
    }
    ghost var digits := buffer[..outputSize][j..];
    SkipZeros(buffer[..outputSize], j, 58);
    EncodedText(input, zeroCount, digits);

    if outlen < zeroCount + outputSize - j {
      return -1, zeroCount + outputSize - j;
    }
    var i := WriteText(out, outlen, zeroCount, buffer[j..outputSize]);
    assert buffer[j..outputSize] == digits;
    return 0, i;
  }

  lemma EstimateFits(n: nat)
    ensures n <= MAX_ENC_INPUT_SIZE ==> BufferSize(n) <= MAX_ENC_INPUT_SIZE * 138 / 100 + 1
    ensures BufferSize(n) == n * 138 / 100 + 1
  {
  }

  method Clear(out: array<char>, outlen: nat)
    requires outlen <= out.Length
    modifies out
    ensures out[..outlen] == seq(outlen, _ => '\0')
    ensures out[outlen..] == old(out[outlen..])
  {
    forall k | 0 <= k < outlen {
      out[k] := '\0';
    }
  }

  /** Leading '1' characters, then the digits. */
  method WriteText(out: array<char>, outlen: nat, zeroCount: nat, digits: seq<byte>) returns (i: nat)
    requires zeroCount + |digits| <= outlen <= out.Length
    requires out[..outlen] == seq(outlen, _ => '\0')
    requires IsNumeral(digits, 58)
    modifies out
    ensures i == zeroCount + |digits|
    ensures out[..outlen] == seq(zeroCount, _ => '1') + ToText(digits) + seq(outlen - i, _ => '\0')
    ensures out[outlen..] == old(out[outlen..])
  {
    forall k | 0 <= k < zeroCount {
      out[k] := Alphabet(0);
    }
    i := zeroCount;
    var j := 0;
    while j < |digits|
      invariant j <= |digits| && i == zeroCount + j
      invariant forall k | 0 <= k < zeroCount :: out[k] == '1'
      invariant forall k | 0 <= k < j :: out[zeroCount + k] == Alphabet(digits[k])
      invariant forall k | i <= k < outlen :: out[k] == '\0'
      invariant out[outlen..] == old(out[outlen..])
    {
      out[i] := Alphabet(digits[j]);
      i, j := i + 1, j + 1;
    }
    ghost var text := seq(zeroCount, _ => '1') + ToText(digits) + seq(outlen - i, _ => '\0');
    forall k | 0 <= k < outlen
      ensures out[k] == text[k]
    {
      if zeroCount <= k < i {
        assert out[zeroCount + (k - zeroCount)] == Alphabet(digits[k - zeroCount]);
      }
    }
  }

  // ---------------------------------------------------------------- decoding

  lemma DivideAlgebra(q: nat, remainder: nat, b: nat, h: nat, l: nat)
    requires remainder * 58 + b == h * 256 + l
    ensures (q * 256 + remainder) * 58 + b == (q * 58 + h) * 256 + l
  {
  }

  lemma DivideDigit(was: seq<byte>, now: seq<byte>, k: nat, remainder: nat)
    requires k < |was| && was[k] < 58 && remainder < 256
    requires Value(was[..k], 58) == Value(now, 58) * 256 + remainder
    ensures var t := remainder * 58 + was[k];
            && t / 256 < 58
            && (k == 0 && remainder == 0 ==> t / 256 == 0)
            && Value(was[..k + 1], 58) == Value(now + [t / 256], 58) * 256 + t % 256
  {
    hide Value;
    var t := remainder * 58 + was[k];
    assert was[..k + 1] == was[..k] + [was[k]];
    ValueSnoc(was[..k], was[k], 58);
    ValueSnoc(now, t / 256, 58);
    DivideAlgebra(Value(now, 58), remainder, was[k], t / 256, t % 256);
  }

  /** One pass: the base-58 number in tmp[startAt..length] is divided by 256.  Its first digit always
      becomes zero, so the number gets one digit shorter with every pass. */
  method DividePass(tmp: array<byte>, startAt: nat, length: nat) returns (remainder: nat)
    requires startAt < length <= tmp.Length
    requires IsNumeral(tmp[startAt..length], 58)
    modifies tmp
    ensures remainder < 256 && tmp[startAt] == 0
    ensures IsNumeral(tmp[startAt..length], 58)
    ensures old(Value(tmp[startAt..length], 58)) == Value(tmp[startAt..length], 58) * 256 + remainder
  {
    hide Value;
    ghost var was := tmp[startAt..length];
    ValueZeros(was[..0], 58);
    remainder := 0;
    assert was[..0] == [] == tmp[startAt..startAt];
    for divLoop := startAt to length
      invariant remainder < 256 && (divLoop == startAt ==> remainder == 0)
      invariant divLoop > startAt ==> tmp[startAt] == 0
      invariant forall k | divLoop <= k < length :: tmp[k] == was[k - startAt]
      invariant IsNumeral(tmp[startAt..divLoop], 58)
      invariant Value(was[..divLoop - startAt], 58) == Value(tmp[startAt..divLoop], 58) * 256 + remainder
    {
      ghost var k, done := divLoop - startAt, tmp[startAt..divLoop];
      assert tmp[divLoop] == was[k];
      DivideDigit(was, done, k, remainder);
      var digit256: nat := tmp[divLoop];
      var tmpDiv := remainder * 58 + digit256;
      tmp[divLoop] := tmpDiv / 256;
      remainder := tmpDiv % 256;
      assert tmp[startAt..divLoop + 1] == done + [tmpDiv / 256];
    }
    assert was[..length - startAt] == was;
  }

  lemma RemainderDigit(whole: nat, before: nat, after: nat, remainder: nat, tail: seq<nat>)
    requires whole == before * Pow(256, |tail|) + Value(tail, 256)
    requires before == after * 256 + remainder
    ensures whole == after * Pow(256, |tail| + 1) + Value([remainder] + tail, 256)
  {
    hide Value;
    ValueCons(remainder, tail, 256);
    RemainderAlgebra(after, remainder, Pow(256, |tail|), Pow(256, |tail| + 1), Value(tail, 256));
  }

  lemma RemainderAlgebra(after: nat, remainder: nat, p: nat, p256: nat, tail: nat)
    requires p256 == 256 * p
    ensures (after * 256 + remainder) * p + tail == after * p256 + (remainder * p + tail)
  {
  }

  lemma DropZero(s: seq<nat>, base: nat)
    requires s != [] && s[0] == 0
    ensures Value(s, base) == Value(s[1..], base)
  {
    assert s == [s[0]] + s[1..];
    ValueStrip([s[0]], s[1..], base);
  }

  /** Collects the remainders of all passes, least significant byte last.  There is exactly one pass for
      every character after the leading '1's. */
  method CollectBytes(tmp: array<byte>, zeroCount: nat, length: nat, buffer: array<byte>) returns (j: nat)
    requires zeroCount <= length <= tmp.Length && length <= buffer.Length && tmp != buffer
    requires IsNumeral(tmp[zeroCount..length], 58)
    requires forall k | 0 <= k < buffer.Length :: buffer[k] == 0
    modifies tmp, buffer
    ensures j == zeroCount
    ensures Value(buffer[j..length], 256) == old(Value(tmp[zeroCount..length], 58))
    ensures forall k | 0 <= k < zeroCount :: buffer[k] == 0
  {
    hide Pow, Value;
    ghost var whole := Value(tmp[zeroCount..length], 58);
    j := length;
    var startAt := zeroCount;
    CollectStart(whole, buffer[length..length]);
    while startAt < length
      invariant zeroCount <= startAt <= length && j == length - (startAt - zeroCount)
      invariant IsNumeral(tmp[startAt..length], 58)
      invariant whole == Value(tmp[startAt..length], 58) * Pow(256, |buffer[j..length]|) + Value(buffer[j..length], 256)
      invariant forall k | 0 <= k < j :: buffer[k] == 0
    {
      ghost var before, tail := Value(tmp[startAt..length], 58), buffer[j..length];
      var remainder := DividePass(tmp, startAt, length);
      RemainderDigit(whole, before, Value(tmp[startAt..length], 58), remainder, tail);
      DropZero(tmp[startAt..length], 58);
      assert tmp[startAt..length][1..] == tmp[startAt + 1..length];
      if tmp[startAt] == 0 {
        startAt := startAt + 1;
      }
      if j == 0 {
        break;
      }
      j := j - 1;
      buffer[j] := remainder;
      assert buffer[j..length] == [remainder] + tail;
    }
    CollectEnd(whole, tmp[length..length], buffer[j..length]);
  }

  lemma CollectStart(whole: nat, empty: seq<nat>)
    requires empty == []
    ensures whole == whole * Pow(256, |empty|) + Value(empty, 256)
  {
  }

  lemma CollectEnd(whole: nat, empty: seq<nat>, bytes: seq<nat>)
    requires empty == []
    requires whole == Value(empty, 58) * Pow(256, |bytes|) + Value(bytes, 256)
    ensures whole == Value(bytes, 256)
  {
  }

  lemma DecodedBytes(digits: seq<nat>, z: nat, bytes: seq<nat>, t: string)
    requires InAlphabet(t) && digits == FromText(t) && z == LeadingZeros(digits)
    requires bytes == Digits(Value(digits[z..], 58), 256)
    ensures Decode(t) == seq(z, _ => 0) + bytes
  {
    hide Value, Digits, LeadingZeros;
    assert digits == digits[..z] + digits[z..];
    ValueStrip(digits[..z], digits[z..], 58);
  }

  /** Replaces the characters by their digits; fails at the first one outside the alphabet. */
  method ReadDigits(input: string, tmp: array<byte>) returns (ok: bool)
    requires |input| <= tmp.Length
    modifies tmp
    ensures ok <==> InAlphabet(input)
    ensures ok ==> tmp[..|input|] == FromText(input)
  {
    for i := 0 to |input|
      invariant forall k | 0 <= k < i :: Table(input[k]) != 0xff && tmp[k] == Table(input[k])
    {
      if input[i] as nat >= 128 {
        return false;
      }
      AlphabetTable(0, input[i]);
      if Table(input[i]) == 0xff {
        return false;
      }
      tmp[i] := Table(input[i]);
    }
    ok := true;
  }

  method CopyBytes(out: array<byte>, source: array<byte>, from: nat, size: nat)
    requires from + size <= source.Length && size <= out.Length && out != source
    modifies out
    ensures out[..size] == source[from..from + size]
    ensures out[size..] == old(out[size..])
  {
    forall k | 0 <= k < size {
      out[k] := source[from + k];
    }
  }

  /** Writes as many zeros as there were leading '1's, then the bytes behind the zeros of the buffer. */
  method EmitBytes(buffer: array<byte>, zeroCount: nat, length: nat, out: array<byte>, outlen: nat)
    returns (rc: int, written: nat)
    requires zeroCount <= length <= buffer.Length && outlen <= out.Length && out != buffer
    requires forall k | 0 <= k < zeroCount :: buffer[k] == 0
    modifies out
    ensures rc == 0 || rc == -1
    ensures var bytes := seq(zeroCount, _ => 0) + Digits(Value(buffer[zeroCount..length], 256), 256);
            && (rc == 0 <==> |bytes| <= outlen)
            && (rc == 0 ==> written == |bytes| && out[..written] == bytes && out[written..] == old(out[written..]))
    ensures rc == -1 ==> written == outlen && out[..] == old(out[..])
  {
    hide Value, Digits;
    var j := zeroCount;
    while j < length && buffer[j] == 0
      invariant zeroCount <= j <= length
      invariant forall k | 0 <= k < j :: buffer[k] == 0
    {
      j := j + 1;
    }
    ghost var bytes := buffer[zeroCount..length];
    SkipZeros(bytes, j - zeroCount, 256);
    assert bytes[j - zeroCount..] == buffer[j..length];
    assert buffer[j - zeroCount..length] == seq(zeroCount, _ => 0) + buffer[j..length];
    var size := length - (j - zeroCount);
    if outlen < size {
      return -1, outlen;
    }
    CopyBytes(out, buffer, j - zeroCount, size);
    assert buffer[zeroCount..length] == bytes;
    return 0, size;
  }

  method CountZeros(tmp: array<byte>, length: nat) returns (zeroCount: nat)
    requires length <= tmp.Length
    ensures zeroCount == LeadingZeros(tmp[..length])
  {
    zeroCount := 0;
    while zeroCount < length && tmp[zeroCount] == 0
      invariant zeroCount <= length
      invariant forall k | 0 <= k < zeroCount :: tmp[k] == 0
    {
      zeroCount := zeroCount + 1;
    }
    ScannedZeros(tmp[..length], zeroCount);
  }

  method DecodeBase58(input: string, out: array<byte>, outlen: nat) returns (rc: int, written: nat)
    requires outlen <= out.Length
    modifies out
    ensures rc == 0 || rc == -1
    ensures rc == 0 <==> |input| <= MAX_DEC_INPUT_SIZE && InAlphabet(input) && |Decode(input)| <= outlen
    ensures rc == 0 ==> written == |Decode(input)| && out[..written] == Decode(input)
    ensures rc == 0 ==> out[written..] == old(out[written..])
    ensures rc == -1 ==> written == outlen && out[..] == old(out[..])
  {
    hide Value, Digits, Decode;
    var length := |input|;
    if length > MAX_DEC_INPUT_SIZE {
      return -1, outlen;
    }
    var tmp := new byte[MAX_DEC_INPUT_SIZE](_ => 0);
    var buffer := new byte[MAX_DEC_INPUT_SIZE](_ => 0);
    var valid := ReadDigits(input, tmp);
    if !valid {
      return -1, outlen;
    }
    ghost var digits := FromText(input);
    var zeroCount := CountZeros(tmp, length);
    assert tmp[zeroCount..length] == digits[zeroCount..];
    var j := CollectBytes(tmp, zeroCount, length, buffer);
    ghost var bytes := Digits(Value(buffer[j..length], 256), 256);
    rc, written := EmitBytes(buffer, zeroCount, length, out, outlen);
    DecodedBytes(digits, zeroCount, bytes, input);
  }
}
