/** src/segwit_addr.c, segregated witness addresses (section "Segwit address format" of BIP 173, with
    the Bech32m variant of BIP 350 for versions above 0). */
module SegwitAddr {
  import opened Numerals
  import opened Bech32
  import opened Bech32Codec
  import opened ConvertBits

  // ---------------------------------------------------------------- specification

  predicate ValidProgram(version: int, program: seq<nat>) {
    && 0 <= version <= 16
    && 2 <= |program| <= 40
    && (version == 0 ==> |program| == 20 || |program| == 32)
    && IsNumeral(program, 256)
  }

  function Variant(version: int): Encoding {
    if version > 0 then EncBech32m else EncBech32
  }

  lemma SmallRadices()
    ensures Radix(5) == 32 && Radix(8) == 256
  {
  }

  /** The program as five-bit symbols. */
  function To5(program: seq<nat>): (d: seq<nat>)
    requires IsNumeral(program, 256)
    ensures IsData(d) && |d| == Ceiling(|program| * 8, 5)
  {
    SmallRadices();
    PaddedUnpadded(program, 8, 5);
    Padded(program, 8, 5)
  }

  function AddressText(hrp: string, version: nat, program: seq<nat>): string
    requires IsHrp(hrp) && version < 32 && IsNumeral(program, 256)
  {
    EncodeText(hrp, [version] + To5(program), Variant(version))
  }

  /** What the decoder returns for an address it accepts under the given part. */
  function DecodeAddress(hrp: string, addr: string): Option<(nat, seq<nat>)> {
    match DecodeText(addr)
    case Rejected => None
    case Decoded(h, d, enc) =>
      if |d| == 0 || |d| > 65 then None
      else if h != hrp then None
      else if d[0] > 16 then None
      else if enc != Variant(d[0]) then None
      else
        match Unpadded(d[1..], 5, 8)
        case None => None
        case Some(p) =>
          if |p| < 2 || |p| > 40 then None
          else if d[0] == 0 && |p| != 20 && |p| != 32 then None
          else Some((d[0], p))
  }

  /** Version 0 is written in Bech32, every other version in Bech32m. */
  lemma AddressVariant(hrp: string, version: nat, program: seq<nat>)
    requires ValidProgram(version, program) && hrp != ""
    requires Encodable(hrp, [version] + To5(program))
    ensures var d := DecodeText(AddressText(hrp, version, program));
            d.Decoded? && d.enc == if version == 0 then EncBech32 else EncBech32m
  {
    hide EncodeText, DecodeText, Encodable, To5;
    EncodableParts(hrp, [version] + To5(program));
    DecodeEncode(hrp, [version] + To5(program), Variant(version));
  }

  /** Decoding the address of a valid program gives version and program back. */
  lemma AddressRoundTrip(hrp: string, version: nat, program: seq<nat>)
    requires ValidProgram(version, program) && hrp != ""
    requires Encodable(hrp, [version] + To5(program))
    ensures DecodeAddress(hrp, AddressText(hrp, version, program)) == Some((version, program))
  {
    hide EncodeText, DecodeText, Encodable, Padded, Unpadded;
    var data := [version] + To5(program);
    SmallRadices();
    PaddedUnpadded(program, 8, 5);
    EncodableParts(hrp, data);
    DecodeEncode(hrp, data, Variant(version));
    assert data[1..] == To5(program);
  }

  lemma EncodableParts(hrp: string, data: seq<nat>)
    requires Encodable(hrp, data)
    ensures IsHrp(hrp) && IsData(data)
  {
  }

  /** Every accepted address is, up to letter case, the address of what it decodes to. */
  lemma AddressUnique(hrp: string, addr: string)
    requires DecodeAddress(hrp, addr).Some?
    ensures var (version, program) := DecodeAddress(hrp, addr).value;
            && ValidProgram(version, program) && hrp != ""
            && Encodable(hrp, [version] + To5(program))
            && AddressText(hrp, version, program) == LowerAll(addr)
  {
    hide EncodeText, DecodeText, Encodable, Padded, Unpadded;
    var d := DecodeText(addr).data;
    EncodeDecode(addr);
    EncodableParts(hrp, d);
    SmallRadices();
    UnpaddedPadded(d[1..], 5, 8);
    assert d == [d[0]] + d[1..];
  }

  // ---------------------------------------------------------------- encoding

  /** The checks on version and length; versions are C integers and may be negative. */
  predicate EncoderAccepts(witver: int, length: nat) {
    && witver <= 16
    && (witver == 0 ==> length == 20 || length == 32)
    && 2 <= length <= 40
  }

  /** For versions that are not negative the checks of the encoder are those of a valid program. */
  lemma EncoderChecks(witver: int, witprog: seq<byte>)
    ensures witver >= 0 ==> (EncoderAccepts(witver, |witprog|) <==> ValidProgram(witver, witprog))
  {
  }

  method SegwitAddrEncode(output: array<char>, hrp: string, witver: int, witprog: seq<byte>) returns (ok: bool)
    requires |hrp| + 73 <= output.Length
    modifies output
    ensures ok <==> EncoderAccepts(witver, |witprog|) && Encodable(hrp, [witver % 256] + To5(witprog))
    ensures ok ==> var t := EncodeText(hrp, [witver % 256] + To5(witprog), Variant(witver));
                   |t| < output.Length && output[..|t| + 1] == t + ['\0']
  {
    hide EncodeText, Encodable, Padded, Unpadded, Ceiling, Radix;
    SmallRadices();
    var data := new byte[65];
    var enc := EncBech32;
    if witver > 16 {
      return false;
    }
    if witver == 0 && |witprog| != 20 && |witprog| != 32 {
      return false;
    }
    if |witprog| < 2 || |witprog| > 40 {
      return false;
    }
    if witver > 0 {
      enc := EncBech32m;
    }
    data[0] := witver % 256;
    DataFits(|witprog|, 64);
    var datalen;
    ok, datalen := Convert(data, 1, 5, witprog, 8, true);
    assert data[0] == data[..1][0];
    assert data[..datalen] == [witver % 256] + To5(witprog);
    ok := Bech32Encode(output, hrp, data[..datalen], enc);
  }

  lemma DataFits(n: nat, m: nat)
    ensures n <= 40 ==> Ceiling(n * 8, 5) <= 64
    ensures m <= 64 ==> Ceiling(m * 5, 8) <= 40
  {
  }

  /** What the encoder's text decodes to, the version having been cut to eight bits. */
  lemma EncoderDecoded(hrp: string, witver: int, witprog: seq<byte>)
    requires EncoderAccepts(witver, |witprog|) && Encodable(hrp, [witver % 256] + To5(witprog))
    ensures var version: nat := witver % 256;
            DecodeAddress(hrp, EncodeText(hrp, [version] + To5(witprog), Variant(witver))) ==
            if hrp != "" && (witver >= 0 || (witver % 256 == 0 && (|witprog| == 20 || |witprog| == 32)))
            then Some((version, witprog)) else None
  {
    hide EncodeText, DecodeText, Encodable, Padded, Unpadded;
    var data := [witver % 256] + To5(witprog);
    SmallRadices();
    PaddedUnpadded(witprog, 8, 5);
    EncodableParts(hrp, data);
    DecodeEncode(hrp, data, Variant(witver));
    assert data[1..] == To5(witprog);
  }

  /** Whatever the encoder wrote decodes to the same version and program exactly when the part is not empty
      and the version not negative.  Of the negative versions only those taken for version 0 with one of its
      two lengths decode at all. */
  lemma EncoderRoundTrip(hrp: string, witver: int, witprog: seq<byte>)
    requires EncoderAccepts(witver, |witprog|) && Encodable(hrp, [witver % 256] + To5(witprog))
    ensures var r := DecodeAddress(hrp, EncodeText(hrp, [witver % 256] + To5(witprog), Variant(witver)));
            && (r.Some? && r.value.0 == witver && r.value.1 == witprog <==> hrp != "" && witver >= 0)
            && (r.Some? <==> hrp != "" && (witver >= 0 || (witver % 256 == 0 && (|witprog| == 20 || |witprog| == 32))))
  {
    hide DecodeAddress, EncodeText, Encodable, To5;
    EncoderDecoded(hrp, witver, witprog);
  }

  /** A negative multiple of 256 is taken for version 0 without its length check; the decoder refuses
      the result. */
  lemma NegativeVersion(hrp: string, program: seq<byte>)
    requires |program| == 2 && Encodable(hrp, [0] + To5(program))
    ensures EncoderAccepts(-256, |program|) && -256 % 256 == 0
    ensures DecodeAddress(hrp, EncodeText(hrp, [0] + To5(program), Variant(-256))) == None
  {
    hide DecodeAddress, EncodeText, Encodable, To5;
    EncoderDecoded(hrp, -256, program);
  }

  /** Every program is encoded under the empty part, and never decoded. */
  lemma EmptyPart(witver: nat, witprog: seq<byte>)
    requires EncoderAccepts(witver, |witprog|)
    ensures Encodable("", [witver % 256] + To5(witprog))
    ensures DecodeAddress("", EncodeText("", [witver % 256] + To5(witprog), Variant(witver))) == None
  {
    hide DecodeAddress, EncodeText, Padded;
    DataFits(|witprog|, 0);
    EncoderDecoded("", witver, witprog);
  }

  // ---------------------------------------------------------------- decoding

  predicate IsCString(s: string) {
    forall i | 0 <= i < |s| :: s[i] != '\0'
  }

  /** `strncmp(a, b, 84) == 0` for a terminated b shorter than that. */
  method SameString(a: string, b: array<char>, ghost content: string) returns (same: bool)
    requires IsCString(a) && IsCString(content)
    requires |content| < 84 <= b.Length && b[..|content| + 1] == content + ['\0']
    ensures same <==> a == content
  {
    var i := 0;
    assert forall k | 0 <= k <= |content| :: b[k] == b[..|content| + 1][k];
    while i < 84
      invariant i <= |a| && i <= |content|
      invariant forall k | 0 <= k < i :: a[k] == content[k]
    {
      var ch := if i < |a| then a[i] else '\0';
      if ch != b[i] {
        return false;
      }
      if ch == '\0' {
        return true;
      }
      i := i + 1;
    }
  }

  lemma DecodedHrpLength(addr: string)
    requires DecodeText(addr).Decoded?
    ensures |DecodeText(addr).hrp| <= 83 && IsCString(DecodeText(addr).hrp)
  {
    hide DataChecksum, EncodeText;
    EncodeDecode(addr);
    LengthOf(DecodeText(addr).hrp, DecodeText(addr).data);
  }

  lemma LengthOf(hrp: string, data: seq<nat>)
    requires Encodable(hrp, data)
    ensures |hrp| <= 83 && IsCString(hrp)
  {
  }

  method SegwitAddrDecode(witdata: array<byte>, hrp: string, addr: string)
    returns (ok: bool, witver: nat, witdataLen: nat)
    requires witdata.Length >= 40 && IsCString(hrp)
    modifies witdata
    ensures ok <==> DecodeAddress(hrp, addr).Some?
    ensures ok ==> var (version, program) := DecodeAddress(hrp, addr).value;
                   witver == version && witdataLen == |program| <= 40 && witdata[..witdataLen] == program
  {
    hide EncodeText, DecodeText, Encodable, Padded, Unpadded, Ceiling, Radix;
    SmallRadices();
    var data := new byte[84];
    var hrpActual := new char[84];
    var enc, dataLen := Bech32Decode(hrpActual, data, addr);
    if enc == NoEncoding {
      DecodedVariant(addr);
      return false, 0, 0;
    }
    DecodedHrpLength(addr);
    ghost var d := DecodeText(addr).data;
    if dataLen == 0 || dataLen > 65 {
      return false, 0, 0;
    }
    var same := SameString(hrp, hrpActual, DecodeText(addr).hrp);
    if !same {
      return false, 0, 0;
    }
    assert data[0] == data[..dataLen][0] == d[0];
    if data[0] > 16 {
      return false, 0, 0;
    }
    if data[0] == 0 && enc != EncBech32 {
      return false, 0, 0;
    }
    if data[0] > 0 && enc != EncBech32m {
      return false, 0, 0;
    }
    DataFits(0, dataLen - 1);
    assert data[1..dataLen] == d[1..];
    DecodedVariant(addr);
    assert IsNumeral(d[1..], 32);
    ok, witdataLen := Convert(witdata, 0, 8, data[1..dataLen], 5, false);
    if !ok {
      return false, 0, witdataLen;
    }
    assert witdata[..witdataLen] == witdata[0..witdataLen];
    if witdataLen < 2 || witdataLen > 40 {
      return false, 0, witdataLen;
    }
    if data[0] == 0 && witdataLen != 20 && witdataLen != 32 {
      return false, 0, witdataLen;
    }
    witver := data[0];
  }

  lemma DecodedVariant(addr: string)
    ensures DecodeText(addr).Decoded? ==> DecodeText(addr).enc != NoEncoding && IsData(DecodeText(addr).data)
  {
    if DecodeText(addr).Decoded? {
      EncodeDecode(addr);
    }
  }
}
