/** src/segwit_addr.c, Bech32 and Bech32m strings (sections "Bech32" of BIP 173 and "Bech32m" of
    BIP 350): what the encoder writes and what the decoder accepts. */
module Bech32 {
  import opened Polymod

  datatype Encoding = NoEncoding | EncBech32 | EncBech32m

  /** bech32_final_constant */
  function FinalConstant(enc: Encoding): bv32 {
    match enc
    case EncBech32 => 1
    case EncBech32m => 0x2bc830a3
    case NoEncoding => 0
  }

  lemma FinalConstants()
    ensures IsState(FinalConstant(EncBech32)) && IsState(FinalConstant(EncBech32m))
    ensures FinalConstant(EncBech32) != FinalConstant(EncBech32m)
    ensures IsState(FinalConstant(NoEncoding))
    ensures FinalConstant(NoEncoding) != FinalConstant(EncBech32) && FinalConstant(NoEncoding) != FinalConstant(EncBech32m)
  {
  }

  // ---------------------------------------------------------------- characters and symbols

  const CHARSET: string := "qpzry9x8gf2tvdw0s3jn54khce6mua7l"

  function CharAt(v: nat): char
    requires v < 32
  {
    CHARSET[v]
  }

  predicate IsUpper(c: char) { 'A' <= c <= 'Z' }

  predicate IsLower(c: char) { 'a' <= c <= 'z' }

  function Lower(c: char): (l: char)
    ensures !IsUpper(l)
  {
    if IsUpper(c) then c - 'A' + 'a' else c
  }

  /** charset_rev, whose rows for 'A' to 'Z' repeat those for 'a' to 'z'; -1 outside the charset. */
  function CharsetRev(c: char): int {
    RevLower(Lower(c))
  }

  function RevLower(c: char): int {
    if c == '0' then 15 else if c == '2' then 10 else if c == '3' then 17 else if c == '4' then 21
    else if c == '5' then 20 else if c == '6' then 26 else if c == '7' then 30 else if c == '8' then 7
    else if c == '9' then 5 else if c == 'a' then 29 else if c == 'c' then 24 else if c == 'd' then 13
    else if c == 'e' then 25 else if c == 'f' then 9 else if c == 'g' then 8 else if c == 'h' then 23
    else if c == 'j' then 18 else if c == 'k' then 22 else if c == 'l' then 31 else if c == 'm' then 27
    else if c == 'n' then 19 else if c == 'p' then 1 else if c == 'q' then 0 else if c == 'r' then 3
    else if c == 's' then 16 else if c == 't' then 11 else if c == 'u' then 28 else if c == 'v' then 12
    else if c == 'w' then 14 else if c == 'x' then 6 else if c == 'y' then 4 else if c == 'z' then 2
    else -1
  }

  lemma CharsetInverse(v: nat)
    requires v < 32
    ensures RevLower(CharAt(v)) == v && CharAt(v) != '1' && !IsUpper(CharAt(v))
  {
  }

  lemma RevInverse(c: char)
    requires RevLower(c) != -1
    ensures 0 <= RevLower(c) < 32 && CharAt(RevLower(c)) == c
  {
  }

  lemma RevOfOne()
    ensures CharsetRev('1') == -1
  {
  }

  /** A byte value as a register symbol. */
  function Sym(v: nat): (s: bv32)
    requires v < 32
    ensures IsSymbol(s)
  {
    SymSmall(v);
    (v as bv5) as bv32
  }

  lemma SymSmall(v: nat)
    requires v < 32
    ensures IsSymbol((v as bv5) as bv32)
  {
  }

  function Int(s: bv32): (v: nat)
    requires IsSymbol(s)
    ensures v < 32
  {
    (s as bv5) as nat
  }

  lemma SymInt(v: nat)
    requires v < 32
    ensures Int(Sym(v)) == v
  {
  }

  lemma IntSym(s: bv32)
    requires IsSymbol(s)
    ensures Sym(Int(s)) == s
  {
  }

  predicate IsData(data: seq<nat>) {
    forall i | 0 <= i < |data| :: data[i] < 32
  }

  function Syms(data: seq<nat>): (s: seq<bv32>)
    requires IsData(data)
    ensures |s| == |data| && Symbols(s)
  {
    seq(|data|, i requires 0 <= i < |data| => Sym(data[i]))
  }

  function Ints(s: seq<bv32>): (data: seq<nat>)
    requires Symbols(s)
    ensures |data| == |s| && IsData(data)
  {
    seq(|s|, i requires 0 <= i < |s| => Int(s[i]))
  }

  lemma SymsInts(data: seq<nat>, s: seq<bv32>)
    ensures IsData(data) ==> Ints(Syms(data)) == data
    ensures Symbols(s) ==> Syms(Ints(s)) == s
  {
    hide Sym, Int;
    if IsData(data) {
      forall i | 0 <= i < |data| ensures Int(Sym(data[i])) == data[i] { SymInt(data[i]); }
      assert Ints(Syms(data)) == data;
    }
    if Symbols(s) {
      forall i | 0 <= i < |s| ensures Sym(Int(s[i])) == s[i] { IntSym(s[i]); }
      assert Syms(Ints(s)) == s;
    }
  }

  function Chars(data: seq<nat>): (t: string)
    requires IsData(data)
    ensures |t| == |data|
  {
    seq(|data|, i requires 0 <= i < |data| => CharAt(data[i]))
  }

  predicate InCharset(t: string) {
    forall i | 0 <= i < |t| :: CharsetRev(t[i]) != -1
  }

  function Values(t: string): (data: seq<nat>)
    requires InCharset(t)
    ensures |data| == |t| && IsData(data)
  {
    var data := seq(|t|, i requires 0 <= i < |t| => (RevInverse(Lower(t[i])); CharsetRev(t[i])));
    assert forall i | 0 <= i < |data| :: data[i] < 32 by {
      forall i | 0 <= i < |data| ensures data[i] < 32 { RevInverse(Lower(t[i])); }
    }
    data
  }

  function LowerAll(s: string): (l: string)
    ensures |l| == |s|
  {
    seq(|s|, i requires 0 <= i < |s| => Lower(s[i]))
  }

  lemma ValuesChars(data: seq<nat>)
    requires IsData(data)
    ensures InCharset(Chars(data)) && Values(Chars(data)) == data
    ensures forall i | 0 <= i < |data| :: Chars(data)[i] != '1' && !IsUpper(Chars(data)[i])
  {
    hide CharAt, RevLower;
    forall i | 0 <= i < |data|
      ensures CharsetRev(Chars(data)[i]) == data[i] && Chars(data)[i] != '1' && !IsUpper(Chars(data)[i])
    {
      CharsetInverse(data[i]);
    }
    assert Values(Chars(data)) == data;
  }

  lemma CharsValues(t: string)
    requires InCharset(t)
    ensures Chars(Values(t)) == LowerAll(t)
  {
  }

  // ---------------------------------------------------------------- human-readable part

  predicate IsHrpChar(c: char) { '!' <= c <= '~' }

  predicate IsHrp(hrp: string) {
    forall i | 0 <= i < |hrp| :: IsHrpChar(hrp[i])
  }

  predicate HasUpper(s: string) {
    exists i | 0 <= i < |s| :: IsUpper(s[i])
  }

  predicate HasLower(s: string) {
    exists i | 0 <= i < |s| :: IsLower(s[i])
  }

  /** `ch >> 5` of every character */
  function High(hrp: string): (s: seq<bv32>)
    requires IsHrp(hrp)
    ensures |s| == |hrp| && Symbols(s)
  {
    seq(|hrp|, i requires 0 <= i < |hrp| => Sym(hrp[i] as nat / 32))
  }

  /** `ch & 0x1f` of every character */
  function Low(hrp: string): (s: seq<bv32>)
    requires IsHrp(hrp)
    ensures |s| == |hrp| && Symbols(s)
  {
    seq(|hrp|, i requires 0 <= i < |hrp| => Sym(hrp[i] as nat % 32))
  }

  /** The register after the human-readable part. */
  function HrpState(hrp: string): bv32
    requires IsHrp(hrp)
  {
    Feed(1, High(hrp) + [0] + Low(hrp))
  }

  lemma HrpStateBound(hrp: string)
    requires IsHrp(hrp)
    ensures IsState(HrpState(hrp))
  {
  }

  // ---------------------------------------------------------------- encoding

  predicate Encodable(hrp: string, data: seq<nat>) {
    && IsHrp(hrp) && !HasUpper(hrp)
    && |hrp| + 7 + |data| <= 90
    && IsData(data)
  }

  function DataChecksum(hrp: string, data: seq<nat>, enc: Encoding): (c: seq<bv32>)
    requires IsHrp(hrp) && IsData(data)
    ensures |c| == 6 && Symbols(c)
  {
    Checksum(Feed(HrpState(hrp), Syms(data)), FinalConstant(enc))
  }

  function EncodeText(hrp: string, data: seq<nat>, enc: Encoding): string
    requires IsHrp(hrp) && IsData(data)
  {
    hrp + "1" + Chars(data) + Chars(Ints(DataChecksum(hrp, data, enc)))
  }

  // ---------------------------------------------------------------- decoding

  datatype DecodeResult = Rejected | Decoded(hrp: string, data: seq<nat>, enc: Encoding)

  /** Position of the last '1', -1 if there is none. */
  function LastOne(s: string): (p: int)
    ensures -1 <= p < |s|
    ensures p >= 0 ==> s[p] == '1'
    ensures forall i | p < i < |s| :: s[i] != '1'
  {
    if s == [] then -1
    else if s[|s| - 1] == '1' then |s| - 1
    else LastOne(s[..|s| - 1])
  }

  lemma LastOneUnique(s: string, p: nat)
    requires p < |s| && s[p] == '1'
    requires forall i | p < i < |s| :: s[i] != '1'
    ensures LastOne(s) == p
  {
  }

  /** The shape both cases of a string must have before its checksum is looked at. */
  predicate WellFormed(input: string) {
    && 8 <= |input| <= 90
    && var p := LastOne(input);
       && 1 <= p && |input| - 1 - p >= 6
       && IsHrp(input[..p])
       && InCharset(input[p + 1..])
       && !(HasUpper(input) && HasLower(input))
  }

  /** The register after the whole string; letters count in lower case. */
  function Residue(hrp: string, values: seq<nat>): bv32
    requires IsHrp(hrp) && IsData(values)
  {
    Feed(HrpState(hrp), Syms(values))
  }

  lemma LowerHrp(hrp: string)
    requires IsHrp(hrp)
    ensures IsHrp(LowerAll(hrp)) && Low(LowerAll(hrp)) == Low(hrp) && !HasUpper(LowerAll(hrp))
  {
    hide Sym;
    forall i | 0 <= i < |hrp|
      ensures IsHrpChar(Lower(hrp[i])) && Lower(hrp[i]) as nat % 32 == hrp[i] as nat % 32
    {
    }
  }

  function DecodeText(input: string): DecodeResult {
    if !WellFormed(input) then Rejected
    else
      var p := LastOne(input);
      LowerHrp(input[..p]);
      var hrp := LowerAll(input[..p]);
      var values := Values(input[p + 1..]);
      var chk := Residue(hrp, values);
      if chk == FinalConstant(EncBech32) then Decoded(hrp, values[..|values| - 6], EncBech32)
      else if chk == FinalConstant(EncBech32m) then Decoded(hrp, values[..|values| - 6], EncBech32m)
      else Rejected
  }

  // ---------------------------------------------------------------- round trips

  /** Splitting off the checksum: the register ends at the constant exactly when it is the computed one. */
  lemma ResidueChecksum(hrp: string, data: seq<nat>, c: seq<nat>, enc: Encoding)
    requires IsHrp(hrp) && IsData(data) && IsData(c) && |c| == 6
    ensures Residue(hrp, data + c) == FinalConstant(enc) <==> c == Ints(DataChecksum(hrp, data, enc))
  {
    hide Feed, FinalConstant, IsState, Checksum, HrpState;
    FinalConstants();
    HrpStateBound(hrp);
    FeedBound(HrpState(hrp), Syms(data));
    ChecksumUnique(Feed(HrpState(hrp), Syms(data)), FinalConstant(enc), Syms(c));
    FeedConcat(HrpState(hrp), Syms(data), Syms(c));
    assert Syms(data + c) == Syms(data) + Syms(c);
    SymsInts(c, DataChecksum(hrp, data, enc));
    SymsInts(Ints(DataChecksum(hrp, data, enc)), Syms(c));
  }

  /** How the parts of an encoding sit in its text. */
  lemma EncodedText(hrp: string, data: seq<nat>, enc: Encoding)
    requires IsHrp(hrp) && IsData(data)
    ensures var t := EncodeText(hrp, data, enc);
            var values := data + Ints(DataChecksum(hrp, data, enc));
            && |t| == |hrp| + 1 + |values| && t[..|hrp|] == hrp && t[|hrp|] == '1'
            && t[|hrp| + 1..] == Chars(values)
  {
    hide DataChecksum, CharAt;
    var c := Ints(DataChecksum(hrp, data, enc));
    assert Chars(data + c) == Chars(data) + Chars(c);
    assert EncodeText(hrp, data, enc) == hrp + "1" + Chars(data + c);
  }

  /** A string made of a part, a separator and charset characters is well formed unless the part is empty. */
  lemma ShapeOf(t: string, hrp: string, values: seq<nat>)
    requires IsHrp(hrp) && !HasUpper(hrp) && IsData(values) && |values| >= 6
    requires |t| == |hrp| + 1 + |values| <= 90
    requires t[..|hrp|] == hrp && t[|hrp|] == '1' && t[|hrp| + 1..] == Chars(values)
    ensures LastOne(t) == |hrp|
    ensures WellFormed(t) <==> hrp != ""
  {
    hide CharsetRev, CharAt;
    ValuesChars(values);
    assert forall i | |hrp| < i < |t| :: t[i] == Chars(values)[i - |hrp| - 1];
    LastOneUnique(t, |hrp|);
    forall i | 0 <= i < |t| ensures !IsUpper(t[i]) {
      if i < |hrp| { assert t[i] == t[..|hrp|][i]; }
    }
  }

  lemma LowerIdentity(s: string)
    requires !HasUpper(s)
    ensures LowerAll(s) == s
  {
  }

  /** Decoding an encoding gives back part, data and variant.  The encoder also takes an empty part and no
      variant, and the decoder refuses what it makes of them. */
  lemma DecodeEncode(hrp: string, data: seq<nat>, enc: Encoding)
    requires Encodable(hrp, data)
    ensures DecodeText(EncodeText(hrp, data, enc)) ==
            if hrp == "" || enc == NoEncoding then Rejected else Decoded(hrp, data, enc)
  {
    hide DataChecksum, WellFormed, Residue, EncodeText;
    var c := Ints(DataChecksum(hrp, data, enc));
    EncodedText(hrp, data, enc);
    ShapeOf(EncodeText(hrp, data, enc), hrp, data + c);
    LowerIdentity(hrp);
    ResidueChecksum(hrp, data, c, enc);
    ValuesChars(data + c);
    FinalConstants();
    assert (data + c)[..|data|] == data;
  }

  /** What an accepted string consists of. */
  lemma DecodedParts(input: string)
    requires DecodeText(input).Decoded?
    ensures WellFormed(input)
    ensures var d, p := DecodeText(input), LastOne(input);
            var values := Values(input[p + 1..]);
            && IsHrp(d.hrp) && d.hrp == LowerAll(input[..p]) && d.enc != NoEncoding
            && d.data == values[..|values| - 6]
            && Residue(d.hrp, values) == FinalConstant(d.enc)
  {
    hide Residue, FinalConstant;
    LowerHrp(input[..LastOne(input)]);
  }

  /** Encoding what was decoded gives back the text in lower case. */
  lemma EncodeDecode(input: string)
    requires DecodeText(input).Decoded?
    ensures var d := DecodeText(input);
            && d.enc != NoEncoding && Encodable(d.hrp, d.data) && d.hrp != ""
            && EncodeText(d.hrp, d.data, d.enc) == LowerAll(input)
  {
    hide DataChecksum, Residue, CharsetRev, DecodeText, FinalConstant, Lower;
    var d := DecodeText(input);
    var p := LastOne(input);
    DecodedParts(input);
    LowerHrp(input[..p]);
    var values := Values(input[p + 1..]);
    var c := values[|values| - 6..];
    assert values == d.data + c;
    ResidueChecksum(d.hrp, d.data, c, d.enc);
    CharsValues(input[p + 1..]);
    EncodedText(d.hrp, d.data, d.enc);
    LowerSplit(input, p, EncodeText(d.hrp, d.data, d.enc));
  }

  lemma LowerSplit(input: string, p: nat, t: string)
    requires p < |input| == |t| && input[p] == '1'
    requires t[..p] == LowerAll(input[..p]) && t[p] == '1' && t[p + 1..] == LowerAll(input[p + 1..])
    ensures t == LowerAll(input)
  {
  }

  // ---------------------------------------------------------------- letter case

  lemma LowerCharacter(c: char)
    ensures CharsetRev(Lower(c)) == CharsetRev(c) && Lower(Lower(c)) == Lower(c)
    ensures IsHrpChar(Lower(c)) <==> IsHrpChar(c)
    ensures Lower(c) == '1' <==> c == '1'
  {
  }

  lemma LowerParts(input: string)
    ensures LastOne(LowerAll(input)) == LastOne(input)
    ensures !HasUpper(LowerAll(input))
    ensures InCharset(LowerAll(input)) <==> InCharset(input)
    ensures IsHrp(LowerAll(input)) <==> IsHrp(input)
    ensures InCharset(input) ==> Values(LowerAll(input)) == Values(input)
    ensures LowerAll(LowerAll(input)) == LowerAll(input)
  {
    hide CharsetRev, Lower, IsHrpChar;
    var t := LowerAll(input);
    forall i | 0 <= i < |input|
      ensures CharsetRev(t[i]) == CharsetRev(input[i]) && Lower(t[i]) == t[i]
      ensures IsHrpChar(t[i]) <==> IsHrpChar(input[i])
      ensures t[i] == '1' <==> input[i] == '1'
    {
      LowerCharacter(input[i]);
    }
    LastOneSame(input, t);
  }

  lemma {:induction false} LastOneSame(s: string, t: string)
    requires |s| == |t| && forall i | 0 <= i < |s| :: s[i] == '1' <==> t[i] == '1'
    ensures LastOne(s) == LastOne(t)
  {
    if s != [] && s[|s| - 1] != '1' {
      LastOneSame(s[..|s| - 1], t[..|t| - 1]);
    }
  }

  lemma LowerSplits(input: string, p: nat)
    requires p < |input|
    ensures LowerAll(input)[..p] == LowerAll(input[..p])
    ensures LowerAll(input)[p + 1..] == LowerAll(input[p + 1..])
  {
  }

  /** Lower case has the same shape, part and symbols. */
  lemma LowerShape(input: string)
    ensures WellFormed(input) <==> WellFormed(LowerAll(input)) && !(HasUpper(input) && HasLower(input))
    ensures WellFormed(input) ==>
              && LastOne(LowerAll(input)) == LastOne(input)
              && LowerAll(LowerAll(input)[..LastOne(input)]) == LowerAll(input[..LastOne(input)])
              && Values(LowerAll(input)[LastOne(input) + 1..]) == Values(input[LastOne(input) + 1..])
  {
    hide CharsetRev, Lower, IsHrpChar, IsUpper, IsLower, LastOne, Values, IsHrp, InCharset, HasUpper, HasLower, LowerAll;
    LowerParts(input);
    var p := LastOne(input);
    if p >= 0 {
      LowerParts(input[..p]);
      LowerParts(input[p + 1..]);
      LowerSplits(input, p);
    }
  }

  /** Mixed case is refused; otherwise a string decodes as it does in lower case. */
  lemma CaseFolded(input: string)
    ensures DecodeText(input) ==
            if HasUpper(input) && HasLower(input) then Rejected else DecodeText(LowerAll(input))
  {
    hide LastOne, Values, LowerAll, HasUpper, HasLower, InCharset, IsHrp, Residue, FinalConstant;
    LowerShape(input);
    if WellFormed(input) {
      LowerHrp(input[..LastOne(input)]);
      LowerHrp(LowerAll(input)[..LastOne(input)]);
    }
  }

  // ---------------------------------------------------------------- damaged strings

  /** Same part, same length, data symbols differing only inside six consecutive positions. */
  ghost predicate BurstDamage(input: string, damaged: string, k: nat) {
    && WellFormed(input) && |damaged| == |input|
    && var p := LastOne(input);
       && p < k && k + 6 <= |input|
       && damaged[..k] == input[..k] && damaged[k + 6..] == input[k + 6..]
       && InCharset(damaged[p + 1..])
       && Values(damaged[p + 1..]) != Values(input[p + 1..])
  }

  /** Such damage is always noticed: the damaged string does not decode under the original variant. */
  lemma DamageDetected(input: string, damaged: string, k: nat)
    requires DecodeText(input).Decoded? && BurstDamage(input, damaged, k)
    ensures var d := DecodeText(damaged);
            d.Rejected? || d.enc != DecodeText(input).enc
  {
    hide CharsetRev, Feed, FinalConstant;
    var p := LastOne(input);
    RevOfOne();
    assert damaged[p] == damaged[..k][p] == input[..k][p] == '1';
    assert forall i | p < i < |damaged| :: damaged[i] == damaged[p + 1..][i - p - 1];
    LastOneUnique(damaged, p);
    assert damaged[..p] == damaged[..k][..p] == input[..k][..p] == input[..p];
    var vs, ws := Values(input[p + 1..]), Values(damaged[p + 1..]);
    var j := k - p - 1;
    assert vs[..j] == ws[..j] by {
      forall i | 0 <= i < j ensures vs[i] == ws[i] {
        assert input[..k][p + 1 + i] == damaged[..k][p + 1 + i];
      }
    }
    assert vs[j + 6..] == ws[j + 6..] by {
      forall i | j + 6 <= i < |vs| ensures vs[i] == ws[i] {
        assert input[k + 6..][i - j - 6] == damaged[k + 6..][i - j - 6];
      }
    }
    LowerHrp(input[..p]);
    SymsDiffer(HrpState(LowerAll(input[..p])), vs, ws, j);
  }

  lemma SymsDiffer(state: bv32, vs: seq<nat>, ws: seq<nat>, j: nat)
    requires IsData(vs) && IsData(ws) && |vs| == |ws| && j + 6 <= |vs| && vs != ws
    requires vs[..j] == ws[..j] && vs[j + 6..] == ws[j + 6..]
    ensures Feed(state, Syms(vs)) != Feed(state, Syms(ws))
  {
    hide Feed, Sym, Int;
    var a, b := Syms(vs[j..j + 6]), Syms(ws[j..j + 6]);
    assert vs == vs[..j] + vs[j..j + 6] + vs[j + 6..];
    assert ws == ws[..j] + ws[j..j + 6] + ws[j + 6..];
    SymsInts(vs[j..j + 6], a);
    SymsInts(ws[j..j + 6], b);
    assert Syms(vs) == Syms(vs[..j]) + a + Syms(vs[j + 6..]);
    assert Syms(ws) == Syms(ws[..j]) + b + Syms(ws[j + 6..]);
    BurstDetected(state, Syms(vs[..j]), a, b, Syms(vs[j + 6..]));
  }
}
