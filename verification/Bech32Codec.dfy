/** src/segwit_addr.c, `bech32_encode` and `bech32_decode`: one register updated character by character
    while the output buffers are filled. */
module Bech32Codec {
  import opened Numerals
  import opened Polymod
  import opened Bech32

  lemma FeedHigh(hrp: string, i: nat)
    requires i < |hrp| && IsHrp(hrp)
    ensures Feed(1, High(hrp[..i + 1])) == Xor(Step(Feed(1, High(hrp[..i]))), Sym(hrp[i] as nat / 32))
  {
    hide Step, Feed, Sym, Xor;
    FeedSnoc(1, High(hrp[..i]), Sym(hrp[i] as nat / 32));
    assert High(hrp[..i + 1]) == High(hrp[..i]) + [Sym(hrp[i] as nat / 32)];
  }

  /** The zero symbol between the two passes over the part, then the low bits. */
  lemma FeedLow(hrp: string, low: string, i: nat)
    requires IsHrp(hrp) && IsHrp(low) && i < |low|
    ensures Feed(1, High(hrp) + [0] + Low(low[..i + 1]))
         == Xor(Step(Feed(1, High(hrp) + [0] + Low(low[..i]))), Sym(low[i] as nat % 32))
  {
    hide Step, Feed, Sym, Xor;
    FeedSnoc(1, High(hrp) + [0] + Low(low[..i]), Sym(low[i] as nat % 32));
    assert High(hrp) + [0] + Low(low[..i + 1]) == High(hrp) + [0] + Low(low[..i]) + [Sym(low[i] as nat % 32)];
  }

  lemma FeedSeparator(hrp: string)
    requires IsHrp(hrp)
    ensures Feed(1, High(hrp) + [0] + Low(hrp[..0])) == Step(Feed(1, High(hrp)))
  {
    hide Step, Feed, Sym, Xor;
    FeedSnoc(1, High(hrp), 0);
    XorLaws(Step(Feed(1, High(hrp))), 0);
    assert High(hrp) + [0] + Low(hrp[..0]) == High(hrp) + [0];
  }

  lemma FeedData(state: bv32, data: seq<nat>, i: nat)
    requires i < |data| && IsData(data)
    ensures Feed(state, Syms(data[..i + 1])) == Xor(Step(Feed(state, Syms(data[..i]))), Sym(data[i]))
  {
    hide Step, Feed, Sym, Xor;
    FeedSnoc(state, Syms(data[..i]), Sym(data[i]));
    assert Syms(data[..i + 1]) == Syms(data[..i]) + [Sym(data[i])];
  }

  // ---------------------------------------------------------------- encoding

  /** First pass over the part: checks the characters and feeds their high bits. */
  method CheckHrp(hrp: string) returns (ok: bool, chk: bv32)
    ensures ok <==> IsHrp(hrp) && !HasUpper(hrp)
    ensures ok ==> chk == Feed(1, High(hrp))
  {
    hide Step, Feed, Sym, Xor;
    chk := 1;
    FeedNothing(1, High(hrp[..0]));
    for i := 0 to |hrp|
      invariant IsHrp(hrp[..i]) && !HasUpper(hrp[..i])
      invariant forall k | 0 <= k < i :: IsHrpChar(hrp[k]) && !IsUpper(hrp[k])
      invariant chk == Feed(1, High(hrp[..i]))
    {
      var ch := hrp[i];
      if (ch as nat) < 33 || ch as nat > 126 {
        return false, chk;
      }
      if 'A' <= ch && ch <= 'Z' {
        return false, chk;
      }
      ghost var read := hrp[..i + 1];
      assert read[..i] == hrp[..i] && read[..i + 1] == read;
      FeedHigh(read, i);
      chk := Xor(Step(chk), Sym(ch as nat / 32));
    }
    assert hrp[..|hrp|] == hrp;
    ok := true;
  }

  lemma FeedNothing(state: bv32, vs: seq<bv32>)
    requires vs == []
    ensures Feed(state, vs) == state
  {
  }

  /** Second pass over the part: feeds the low bits. */
  method FeedHrp(hrp: string, low: string, start: bv32) returns (chk: bv32)
    requires IsHrp(hrp) && IsHrp(low) && start == Feed(1, High(hrp))
    ensures chk == Feed(1, High(hrp) + [0] + Low(low))
  {
    hide Step, Feed, Sym, Xor;
    chk := Step(start);
    FeedSeparator(hrp);
    assert Low(hrp[..0]) == Low(low[..0]) == [];
    for i := 0 to |low|
      invariant chk == Feed(1, High(hrp) + [0] + Low(low[..i]))
    {
      FeedLow(hrp, low, i);
      chk := Xor(Step(chk), Sym(low[i] as nat % 32));
    }
    assert low[..|low|] == low;
  }

  /** Feeds the data symbols and writes their characters. */
  method WriteData(output: array<char>, start: nat, data: seq<byte>, state: bv32) returns (ok: bool, chk: bv32)
    requires start + |data| <= output.Length
    modifies output
    ensures ok <==> IsData(data)
    ensures ok ==> chk == Feed(state, Syms(data)) && output[start..start + |data|] == Chars(data)
    ensures output[..start] == old(output[..start])
  {
    hide Step, Feed, Sym, Xor;
    chk := state;
    FeedNothing(state, Syms(data[..0]));
    for i := 0 to |data|
      invariant IsData(data[..i]) && forall k | 0 <= k < i :: data[k] < 32
      invariant chk == Feed(state, Syms(data[..i]))
      invariant forall k | 0 <= k < i :: output[start + k] == CharAt(data[k])
      invariant output[..start] == old(output[..start])
    {
      if data[i] / 32 != 0 {
        return false, chk;
      }
      ghost var read := data[..i + 1];
      assert read[..i] == data[..i] && read[..i + 1] == read;
      FeedData(state, read, i);
      chk := Xor(Step(chk), Sym(data[i]));
      output[start + i] := CharAt(data[i]);
    }
    assert data[..|data|] == data;
    assert output[start..start + |data|] == Chars(data);
    ok := true;
  }

  /** Flushes the register and writes the six checksum characters. */
  method WriteChecksum(output: array<char>, start: nat, state: bv32, enc: Encoding)
    requires start + 6 <= output.Length
    modifies output
    ensures output[start..start + 6] == Chars(Ints(Checksum(state, FinalConstant(enc))))
    ensures output[..start] == old(output[..start])
    ensures output[start + 6..] == old(output[start + 6..])
  {
    hide Step, Feed, Xor, Unpack, FinalConstant, Int;
    var chk := state;
    FeedNothing(state, Zero(0));
    for i := 0 to 6
      invariant chk == Feed(state, Zero(i))
      invariant output[..] == old(output[..])
    {
      ZeroSnoc(i);
      FeedSnoc(state, Zero(i), 0);
      XorLaws(Step(chk), 0);
      chk := Step(chk);
    }
    chk := Xor(chk, FinalConstant(enc));
    var symbols := Unpack(chk);
    for i := 0 to 6
      invariant forall k | 0 <= k < i :: output[start + k] == CharAt(Int(symbols[k]))
      invariant output[..start] == old(output[..start])
      invariant output[start + 6..] == old(output[start + 6..])
    {
      output[start + i] := CharAt(Int(symbols[i]));
    }
    assert output[start..start + 6] == Chars(Ints(symbols));
  }

  method Bech32Encode(output: array<char>, hrp: string, data: seq<byte>, enc: Encoding) returns (ok: bool)
    requires |hrp| + |data| + 8 <= output.Length
    modifies output
    ensures ok <==> Encodable(hrp, data)
    ensures ok ==> var t := EncodeText(hrp, data, enc);
                   |t| + 1 == |hrp| + |data| + 8 && output[..|t| + 1] == t + ['\0']
  {
    hide Feed, Checksum, FinalConstant, Int, Sym;
    var chk;
    ok, chk := CheckHrp(hrp);
    if !ok {
      return false;
    }
    if |hrp| + 7 + |data| > 90 {
      return false;
    }
    chk := FeedHrp(hrp, hrp, chk);
    forall i | 0 <= i < |hrp| {
      output[i] := hrp[i];
    }
    output[|hrp|] := '1';
    assert output[..|hrp| + 1] == hrp + "1";
    ok, chk := WriteData(output, |hrp| + 1, data, chk);
    if !ok {
      return false;
    }
    var end := |hrp| + 1 + |data|;
    assert output[..end] == hrp + "1" + Chars(data);
    WriteChecksum(output, end, chk, enc);
    assert output[..end + 6] == output[..end] + output[end..end + 6];
    output[end + 6] := '\0';
    assert output[..end + 6] == EncodeText(hrp, data, enc);
  }

  // ---------------------------------------------------------------- decoding

  /** Distance of the last '1' from the end; the whole length if there is none. */
  method FindSeparator(input: string) returns (dataLen: nat)
    ensures dataLen == |input| - 1 - LastOne(input)
  {
    dataLen := 0;
    while dataLen < |input| && input[|input| - 1 - dataLen] != '1'
      invariant dataLen <= |input|
      invariant forall k | |input| - dataLen <= k < |input| :: input[k] != '1'
    {
      dataLen := dataLen + 1;
    }
    if dataLen < |input| {
      LastOneUnique(input, |input| - 1 - dataLen);
    }
  }

  lemma CasesSnoc(s: string, c: char)
    ensures HasLower(s + [c]) <==> HasLower(s) || IsLower(c)
    ensures HasUpper(s + [c]) <==> HasUpper(s) || IsUpper(c)
    ensures !HasLower([]) && !HasUpper([])
  {
    var t := s + [c];
    assert t[|s|] == c;
    assert forall i | 0 <= i < |s| :: t[i] == s[i];
  }

  lemma ValuesSnoc(s: string, c: char)
    requires InCharset(s) && CharsetRev(c) != -1
    ensures InCharset(s + [c]) && Values(s + [c]) == Values(s) + [CharsetRev(c)]
  {
  }

  /** Reads the part: copies it in lower case, feeds its high bits and notes the cases it uses. */
  method ReadHrp(hrp: array<char>, input: string, hrpLen: nat) returns (ok: bool, chk: bv32, haveLower: bool, haveUpper: bool)
    requires hrpLen <= |input| && hrpLen < hrp.Length
    modifies hrp
    ensures ok <==> IsHrp(input[..hrpLen])
    ensures ok ==> IsHrp(LowerAll(input[..hrpLen]))
                   && chk == Feed(1, High(LowerAll(input[..hrpLen])))
                   && hrp[..hrpLen + 1] == LowerAll(input[..hrpLen]) + ['\0']
                   && (haveLower <==> HasLower(input[..hrpLen]))
                   && (haveUpper <==> HasUpper(input[..hrpLen]))
  {
    hide Step, Feed, Sym, Xor, HasLower, HasUpper;
    chk, haveLower, haveUpper := 1, false, false;
    CasesSnoc([], 'x');
    ghost var part := input[..hrpLen];
    ghost var lower := LowerAll(part);
    FeedNothing(1, High(lower[..0]));
    for i := 0 to hrpLen
      invariant forall k | 0 <= k < i :: IsHrpChar(part[k]) && IsHrpChar(lower[k])
      invariant chk == Feed(1, High(lower[..i]))
      invariant hrp[..i] == lower[..i]
      invariant haveLower <==> HasLower(part[..i])
      invariant haveUpper <==> HasUpper(part[..i])
    {
      var ch := input[i];
      assert part[i] == ch && part[..i + 1] == part[..i] + [ch];
      CasesSnoc(part[..i], ch);
      if ch as nat < 33 || ch as nat > 126 {
        return false, chk, haveLower, haveUpper;
      }
      if 'a' <= ch && ch <= 'z' {
        haveLower := true;
      } else if 'A' <= ch && ch <= 'Z' {
        haveUpper := true;
        ch := ch - 'A' + 'a';
      }
      hrp[i] := ch;
      ghost var read := lower[..i + 1];
      assert read[..i] == lower[..i] && read[..i + 1] == read && read[i] == ch;
      FeedHigh(read, i);
      chk := Xor(Step(chk), Sym(ch as nat / 32));
    }
    hrp[hrpLen] := '\0';
    assert lower[..hrpLen] == lower && part[..hrpLen] == part;
    ok := true;
  }

  /** Reads everything after the separator; all but the last six symbols are data. */
  method ReadData(data: array<byte>, input: string, first: nat, state: bv32, lowerSoFar: bool, upperSoFar: bool)
    returns (ok: bool, chk: bv32, haveLower: bool, haveUpper: bool)
    requires first + 6 <= |input| <= first + 6 + data.Length
    modifies data
    ensures ok <==> InCharset(input[first..])
    ensures ok ==> var values := Values(input[first..]);
                   && chk == Feed(state, Syms(values))
                   && data[..|values| - 6] == values[..|values| - 6]
                   && (haveLower <==> lowerSoFar || HasLower(input[first..]))
                   && (haveUpper <==> upperSoFar || HasUpper(input[first..]))
  {
    hide Step, Feed, Sym, Xor, CharsetRev, HasLower, HasUpper, Values, Syms;
    CasesSnoc([], 'x');
    chk, haveLower, haveUpper := state, lowerSoFar, upperSoFar;
    ghost var tail := input[first..];
    FeedNothing(state, Syms([]));
    ghost var values: seq<nat> := [];
    var i := first;
    while i < |input|
      invariant first <= i <= |input|
      invariant InCharset(tail[..i - first])
      invariant values == Values(tail[..i - first])
      invariant chk == Feed(state, Syms(values))
      invariant forall k | 0 <= k < i - first && k + 6 < |tail| :: data[k] == values[k]
      invariant haveLower <==> lowerSoFar || HasLower(tail[..i - first])
      invariant haveUpper <==> upperSoFar || HasUpper(tail[..i - first])
    {
      ghost var k := i - first;
      assert tail[..k + 1] == tail[..k] + [input[i]] && tail[k] == input[i];
      CasesSnoc(tail[..k], input[i]);
      var v := if input[i] as nat >= 128 then -1 else CharsetRev(input[i]);
      NotAscii(input[i]);
      if 'a' <= input[i] && input[i] <= 'z' {
        haveLower := true;
      }
      if 'A' <= input[i] && input[i] <= 'Z' {
        haveUpper := true;
      }
      if v == -1 {
        return false, chk, haveLower, haveUpper;
      }
      ValuesSnoc(tail[..k], input[i]);
      FeedData(state, values + [v], k);
      assert (values + [v])[..k] == values && (values + [v])[..k + 1] == values + [v];
      values := values + [v];
      chk := Xor(Step(chk), Sym(v));
      if i + 6 < |input| {
        data[i - first] := v;
      }
      i := i + 1;
    }
    assert tail[..|tail|] == tail;
    ok := true;
  }

  lemma NotAscii(c: char)
    ensures c as nat >= 128 ==> CharsetRev(c) == -1
  {
  }

  lemma CasesAcross(input: string, p: nat)
    requires p < |input| && input[p] == '1'
    ensures HasLower(input) <==> HasLower(input[..p]) || HasLower(input[p + 1..])
    ensures HasUpper(input) <==> HasUpper(input[..p]) || HasUpper(input[p + 1..])
  {
  }

  method Bech32Decode(hrp: array<char>, data: array<byte>, input: string) returns (enc: Encoding, dataLen: nat)
    requires hrp.Length >= 84 && data.Length >= 84
    modifies hrp, data
    ensures match DecodeText(input)
            case Rejected => enc == NoEncoding
            case Decoded(h, d, e) =>
              && enc == e && dataLen == |d| <= data.Length && data[..dataLen] == d
              && |h| < hrp.Length && hrp[..|h| + 1] == h + ['\0']
  {
    hide Feed, FinalConstant, Int, Sym, IsHrpChar, CharsetRev, Lower;
    if |input| < 8 || |input| > 90 {
      return NoEncoding, 0;
    }
    dataLen := FindSeparator(input);
    if 1 + dataLen >= |input| || dataLen < 6 {
      return NoEncoding, dataLen;
    }
    var hrpLen := |input| - (1 + dataLen);
    dataLen := dataLen - 6;
    CasesAcross(input, hrpLen);
    var ok, chk, haveLower, haveUpper := ReadHrp(hrp, input, hrpLen);
    if !ok {
      return NoEncoding, dataLen;
    }
    LowerHrp(input[..hrpLen]);
    chk := FeedHrp(LowerAll(input[..hrpLen]), input[..hrpLen], chk);
    ok, chk, haveLower, haveUpper := ReadData(data, input, hrpLen + 1, chk, haveLower, haveUpper);
    if !ok {
      return NoEncoding, dataLen;
    }
    if haveLower && haveUpper {
      return NoEncoding, dataLen;
    }
    if chk == FinalConstant(EncBech32) {
      return EncBech32, dataLen;
    } else if chk == FinalConstant(EncBech32m) {
      return EncBech32m, dataLen;
    } else {
      return NoEncoding, dataLen;
    }
  }
}
