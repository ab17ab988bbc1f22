# Ledger-zxlib in Dafny

Ledger-zxlib is freestanding C for hardware wallets: arithmetic on nested 64-bit words, radix codecs on
fixed buffers, a chunked transaction intake and the routines that put amounts on a small screen. This
project models its five hardest clusters and proves what they are for.

* **256-bit arithmetic** (`Words`, `Limbs`, `UInt128`, `UInt256`, `Multiply`, `Divide`, `UIntText`,
  `UIntRead`). Numbers are objects of words that routines update in place, so outputs may alias inputs
  as they do in C. Every routine refines arithmetic modulo 2^128 or 2^256. The 256-bit multiplication
  does not in all cases; the exact difference and condition are proved.
* **Radix codecs** (`Base58`, `Base58Codec`, `Bcd`, `Bignum`, `Polymod`, `Gf32`, `Bech32`, `Bech32Vectors`,
  `Bech32Codec`, `ConvertBits`, `SegwitAddr`). Loops are proved against positional numerals (`Numerals`), and encoders
  and decoders are proved to undo each other. Known strings and independent definitions fix the constants
  and tables both sides share. Bech32 is BIP 173, section "Bech32"; Bech32m is BIP 350,
  section "Bech32m".
* **Transaction intake** (`Buffering`, `ChunkProtocol`, `ChunkTrace`, `ChunkHandler`, `RlpFormat`, `Rlp`, `EvmUtils`,
  `TxFormat`, `TxErrors`, `TxParser`). A buffer that moves from RAM to flash, a state machine that reassembles
  chunks, two length decoders, and a parser of RLP (Ethereum Yellow Paper, Appendix B) for legacy
  (EIP-155), EIP-2930 and EIP-1559 transactions. Properties are over whole runs and whole buffers.
* **Number display** (`DigitText`, `NumberText`, `FixedPoint`, `Paging`, `Display`). Bytes become
  decimal digits, a fixed point text, a trimmed text and pages; the pages denote exactly the amount.
* **Calendar** (`YearTable`, `TimeUtils`). The lookup-table conversion inverts the formula of
  POSIX.1-2017, Base Definitions, section 4.16.

Methods take the form of the C routines: classes for the structures they update, arrays for the buffers
they write, and the loops they run. A routine of several stages is split into methods of one stage each.
Specification functions say what a routine computes, and the lemmas say what that means.

Conventions. C buffers that are only read are sequences, and a C string is its characters before the
terminator. Null checks are left to the types. Buffer sizes are the lengths of the arrays. The parser
context is a buffer and an offset within it. The transaction buffer calls `tx_append`, `tx_reset`,
`tx_get_buffer` and `tx_get_buffer_length` are not in the repository; they stand for the calls of
`src/buffering.c`. A thrown code is a value, after which the session is closed, as
evm/apdu_handler_evm.h:27-30 asks. `HDPATH_LEN_DEFAULT` is defined in the coin header of the
application, which is not part of this model; it is taken to be 5. The supported networks are a
parameter.

Where the code differs from its intention the model follows the code and the condition is proved:

* `mul256` adds the carry out of the 2^64 column one limb too high (evm/uint256.c:409):
  `Multiply.Mul256Exact`, `Multiply.Mul256Wrong`.
* `shiftr128` of an object onto itself by exactly 64 reads a word it has overwritten
  (evm/uint256.c:130-132): `UInt128.ShiftR`, `UInt128.AliasedShift`. No caller does this.
* `segwit_addr_encode` accepts the empty part and some negative versions (src/segwit_addr.c:49-62,
  177-189): `SegwitAddr.EncoderRoundTrip`, `SegwitAddr.EmptyPart`, `SegwitAddr.NegativeVersion`.
* `buffering_append` drops the bytes in RAM when flash is too small for them, be the new data refused or
  taken (src/buffering.c:54-63): `Buffering.FailuresKeepContent`, `Buffering.SuccessesExtendContent`,
  `Buffering.AppendLoses`, `Buffering.SilentLoss`.
* Chunks that overshoot the announced length are cut, and only an empty further chunk then reports
  completion (evm/apdu_handler_evm.c:221-237): `ChunkProtocol.EthRunAssembles`.
* A chain id from 128 to 255 is written as a string of one byte and rejected
  (evm/parser_impl_evm.c:54-61): `TxFormat.CanonicalChainId`.
* A negative number may fill the buffer of `int64_to_str` without a terminator
  (include/zxformat.h:34-44): `NumberText.Terminated`, `NumberText.UnterminatedMinusFive`.
* `parse_digits_to_uint64` takes values above a limit below 9 (include/zxformat.h:136):
  `NumberText.LimitKept`. Its callers use larger limits.
* `fpstr_to_str` without decimals reports success for a buffer exactly as long as the digits, and drops
  the last one, the 0 of an empty number included (include/zxformat.h:248-255): `FixedPoint.FitsWhole`.
* `printBigIntFixedPoint` cuts the number of decimals to eight bits (evm/evm_utils.c:187):
  `Display.DecimalsCut`.
* A text of more than 255 pages cannot be shown whole (include/zxformat.h:446-451):
  `Paging.PagesWhole`.

## Model

| member | source | states |
|---|---|---|
| `UInt128.U128.Copy` | evm/uint256.c:67-70 | The target denotes the number; its two words are those of the number |
| `UInt128.U128.Clear` | evm/uint256.c:77-80 | The object denotes 0 |
| `UInt128.U128.IsZero` | evm/uint256.c:63 | True exactly when the number is 0 |
| `UInt128.Equal` | evm/uint256.c:213-215 | The word comparison decides equality of the numbers |
| `UInt128.Gt` | evm/uint256.c:221-226 | The two-stage word comparison decides the order of the numbers |
| `UInt128.Gte` | evm/uint256.c:235 | Greater or equal, as numbers |
| `UInt128.Add` | evm/uint256.c:239-242 | Sum modulo 2^128 although the carry is detected by wrap-around; any of the three objects may coincide |
| `UInt128.Minus` | evm/uint256.c:257-260 | Difference modulo 2^128 with the borrow detected by wrap-around; any objects may coincide |
| `UInt128.BitOr` | evm/uint256.c:275-278 | The bitwise or of the two numbers, defined bit by bit on the whole number |
| `UInt128.ShiftL` | evm/uint256.c:87-102 | Number times 2^value modulo 2^128 for every 32-bit value, in place too |
| `UInt128.ShiftR` | evm/uint256.c:127-146 | Number divided by 2^value for every 32-bit value, in place too; only an object shifted onto itself by exactly 64 becomes 0 |
| `UInt128.AliasedShift` | evm/uint256.c:130-132 | That 0 differs from the quotient if and only if the upper word is not zero |
| `UInt128.Bits` | evm/uint256.c:173-190 | The bit length: the least k with the number below 2^k |
| `UInt128.BitLengthBounds` | evm/uint256.c:173-190 | A number of bit length k lies between 2^(k-1) and 2^k |
| `UInt256.U256.Copy` | evm/uint256.c:72-75 | The target denotes the number |
| `UInt256.U256.Clear` | evm/uint256.c:82-85 | The object denotes 0 |
| `UInt256.U256.IsZero` | evm/uint256.c:65 | True exactly when the number is 0 |
| `UInt256.Equal` | evm/uint256.c:217-219 | Equality of the numbers |
| `UInt256.Gt` | evm/uint256.c:228-233 | Order of the numbers |
| `UInt256.Gte` | evm/uint256.c:237 | Greater or equal, as numbers |
| `UInt256.Add` | evm/uint256.c:244-255 | Sum modulo 2^256, the carry between the halves found by comparing the low halves |
| `UInt256.Minus` | evm/uint256.c:262-273 | Difference modulo 2^256 |
| `UInt256.BitOr` | evm/uint256.c:280-283 | Bitwise or of the 256-bit numbers |
| `UInt256.ShiftL` | evm/uint256.c:104-125 | Number times 2^value modulo 2^256 for every 32-bit value |
| `UInt256.ShiftR` | evm/uint256.c:148-171 | Number divided by 2^value, rounded down, for every 32-bit value |
| `UInt256.Bits` | evm/uint256.c:192-211 | Bit length of the 256-bit number |
| `Words.OrDisjoint` | evm/uint256.c:442 | Or adds when one operand is below 2^k and the other a multiple of 2^k |
| `Words.OrBits` | evm/uint256.c:275-283 | A bit of the or is set exactly when it is set in one of the operands |
| `Words.ShiftLeftMeaning` | evm/uint256.c:87-102 | Shifting left v times multiplies by 2^v |
| `Words.ShiftRightMeaning` | evm/uint256.c:127-146 | Shifting right v times divides by 2^v |
| `Multiply.ColumnsValue` | evm/uint256.c:299-311 | The column sums of the limb products, carried, are the product modulo the fourth power of the limb size |
| `Multiply.Mul128` | evm/uint256.c:285-324 | Exactly the product modulo 2^128 for all operands, the target possibly being one of them |
| `Multiply.Mul256` | evm/uint256.c:326-418 | The product plus c * (2^192 - 2^128) modulo 2^256, c being the carry out of the 2^64 column: line 409 adds it one limb too high |
| `Multiply.Mul256Exact` | evm/uint256.c:409 | The result is the product modulo 2^256 if and only if the third column does not carry |
| `Multiply.Mul256Wrong` | evm/uint256.c:409 | Concrete operands, both 2^128 - 1, whose product comes out wrong |
| `Divide.DivideStep` | evm/uint256.c:438-445 | One pass keeps dividend = quotient * divisor + remainder, remainder < 2 * aligned divisor and the bits below the current one clear, so that or acts as addition |
| `Divide.Align` | evm/uint256.c:430-437 | The shift by the difference in bit lengths, corrected once, puts the divisor under the top bit of the dividend |
| `Divide.DivMod128` | evm/uint256.c:420-449 | For every dividend and non-zero divisor: terminates with l = q * r + m and m < r, the outputs possibly aliasing the inputs |
| `Divide.DivMod256` | evm/uint256.c:451-481 | The same for 256 bits, as used with the quotient written over the dividend |
| `Divide.DivisionUnique` | evm/uint256.c:420-481 | Such a quotient and remainder are the only ones |
| `UIntRead.ReadUint64BE` | evm/uint256.c:28-39 | Eight bytes are the big-endian number; too few leave the cursor alone |
| `UIntRead.ReadU128BE` | evm/uint256.c:41-50 | Sixteen bytes are the big-endian number; fewer fail after the whole words there are |
| `UIntRead.ReadU256BE` | evm/uint256.c:52-61 | Thirty-two bytes are the big-endian number; fewer fail after the whole words there are |
| `DigitText.TextReadsBack` | evm/uint256.c:483-554 | The text of a number, read digit by digit in its base, is the number, and begins with 0 only for 0 |
| `DigitText.HexDigitCharacter` | evm/uint256.c:23-26 | The digit characters are 0 to 9 and a to f |
| `DigitText.TextLength` | evm/uint256.c:483-554 | The text has at most k characters exactly for numbers below base^k |
| `UIntText.ReverseString` | evm/uint256.c:483-491 | The first characters are turned round in place, the others untouched |
| `UIntText.ToString128` | evm/uint256.c:493-522 | True exactly for a base from 2 to 16 and a text that fits with its terminator; then the text and the terminator are there |
| `UIntText.ToString256` | evm/uint256.c:524-554 | The same for 256 bits |
| `Base58.TranscodeInverse` | src/base58.c:42-151 | Changing base and back, keeping the count of leading zeros, is the identity |
| `Base58.DecodeEncode` | src/base58.c:42-151 | decode(encode(b)) = b for every byte string, leading zeros included |
| `Base58.EncodeDecode` | src/base58.c:42-151 | encode(decode(t)) = t for every text over the alphabet |
| `Base58.AlphabetTable` | src/base58.c:24-40 | Alphabet and lookup table are inverse to each other |
| `Base58.AlphabetOrder` | src/base58.c:36-40 | The alphabet is in the order of the character codes |
| `Base58.AlphabetCharacters` | src/base58.c:36-40 | It consists of all digits and letters but 0, I, O and l |
| `Base58.EstimateSuffices` | src/base58.c:117 | 256^n <= 58^(138 n / 100 + 1) for every n, so the last carry is always 0 |
| `Base58.EncodingFits` | src/base58.c:42-51 | The encoding of at most 120 bytes has at most 164 characters, what the decoder accepts |
| `Base58Codec.EncodePass` | src/base58.c:119-131 | One pass computes 256 * buffer + byte exactly, stops left of the previous stop but never before digit 0, and leaves zeros in front |
| `Base58Codec.EncodeBase58` | src/base58.c:100-151 | Success exactly for at most 120 bytes whose text fits; then the text of the specification followed by zeros, otherwise a zeroed buffer and the size needed |
| `Base58Codec.DividePass` | src/base58.c:68-78 | One division of the base-58 number by 256, exact, whose first digit always becomes 0 |
| `Base58Codec.CollectBytes` | src/base58.c:65-86 | The passes write the bytes of the number, one pass for each character after the leading ones; the guard j == 0 is never reached |
| `Base58Codec.DecodeBase58` | src/base58.c:42-98 | Success exactly for at most 164 characters of the alphabet whose bytes fit; then the bytes of the specification |
| `Polymod.StepLinear` | src/segwit_addr.c:27-32 | A checksum step is linear over GF(2) |
| `Polymod.StepKernel` | src/segwit_addr.c:27-32 | A step keeps 30 bits and only 0 is mapped to 0 |
| `Gf32.StepDivides` | src/segwit_addr.c:27-32 | A step is multiplication by x modulo the generator of BIP 173: the symbol shifted out times (29, 22, 20, 21, 29, 18), products taken in GF(32) with a^5 + a^3 + 1 defined on its own, is added to the rest |
| `Polymod.FeedLinear` | src/segwit_addr.c:49-83 | The register is linear in its state and in the symbols fed |
| `Polymod.FeedSix` | src/segwit_addr.c:69-80 | Six symbols fed into an empty register reproduce their 30-bit value |
| `Polymod.ChecksumUnique` | src/segwit_addr.c:69-80 | Six symbols bring the register to the target if and only if they are the computed checksum |
| `Polymod.BurstDetected` | src/segwit_addr.c:27-32 | Strings of any length that differ only inside six consecutive symbols leave different registers |
| `Bech32.CharsetInverse` | src/segwit_addr.c:40-47 | The character set and its reverse table agree |
| `Bech32.DecodeEncode` | src/segwit_addr.c:49-146 | For every part, data and variant the encoder takes within 90 characters: decoding returns them, or rejects the text exactly for an empty part or no variant |
| `Bech32.EncodeDecode` | src/segwit_addr.c:49-146 | Every accepted string is, in lower case, the encoding of what it decodes to |
| `Bech32.DamageDetected` | src/segwit_addr.c:121-145 | A well-formed string damaged inside six consecutive data symbols never decodes under its original variant |
| `Bech32.CaseFolded` | src/segwit_addr.c:85-146 | Mixed case is refused; otherwise a string decodes exactly as its lower-case form |
| `Bech32Vectors.VectorBech32` | src/segwit_addr.c:49-83 | The part a without data is a12uel5l in Bech32 |
| `Bech32Vectors.VectorBech32m` | src/segwit_addr.c:49-83 | It is a1lqfn3a in Bech32m |
| `Bech32Vectors.VectorAllSymbols` | src/segwit_addr.c:40-83 | The part abcdef with the symbols 0 to 31 in order is the known string of BIP 173, which shows the whole character set |
| `Bech32Codec.Bech32Encode` | src/segwit_addr.c:49-83 | Success exactly for an allowed part, five-bit data and at most 90 characters; then the text of the specification and a terminator |
| `Bech32Codec.Bech32Decode` | src/segwit_addr.c:85-146 | Accepts exactly the strings of the specification and returns their part in lower case, data and variant |
| `ConvertBits.PaddedUnpadded` | src/segwit_addr.c:148-175 | Wider digits cut with padding and put together again are unchanged |
| `ConvertBits.UnpaddedPadded` | src/segwit_addr.c:148-175 | Accepted narrow digits put together and cut again are unchanged |
| `ConvertBits.PaddedBits` | src/segwit_addr.c:148-175 | With padding the bits of the result are the bits given and fewer than one digit of zeros |
| `ConvertBits.UnpaddedBits` | src/segwit_addr.c:148-175 | Without padding the result is d if and only if the bits given are those of d and zeros fewer than a digit of either width |
| `ConvertBits.Convert` | src/segwit_addr.c:148-175 | The accumulator loop computes the padded or unpadded regrouping for all widths up to 8, failing exactly for digits too wide or padding that is not zero or too long |
| `SegwitAddr.AddressRoundTrip` | src/segwit_addr.c:177-208 | Decoding the address of a valid version and program under any non-empty part returns them |
| `SegwitAddr.AddressUnique` | src/segwit_addr.c:177-208 | Every accepted address is, in lower case, the address of what it decodes to |
| `SegwitAddr.AddressVariant` | src/segwit_addr.c:177-189 | Version 0 is written in Bech32 and every other version in Bech32m |
| `SegwitAddr.EncoderChecks` | src/segwit_addr.c:177-189 | For versions that are not negative the checks of the encoder are exactly those of a valid program |
| `SegwitAddr.EncoderRoundTrip` | src/segwit_addr.c:177-189 | What the encoder writes decodes to the same version and program if and only if the part is not empty and the version not negative; of the others only negative versions taken for version 0 with a valid length, under a non-empty part, decode at all |
| `SegwitAddr.NegativeVersion` | src/segwit_addr.c:177-189 | A negative version, -256, that the encoder accepts and the decoder refuses |
| `SegwitAddr.EmptyPart` | src/segwit_addr.c:177-189 | Every program is encoded under the empty part, which no check of the encoder stops, and never decoded |
| `SegwitAddr.SegwitAddrEncode` | src/segwit_addr.c:177-189 | Success exactly under the checks made; then the address text and its terminator |
| `SegwitAddr.SegwitAddrDecode` | src/segwit_addr.c:191-208 | Accepts exactly the addresses of the specification, returning version and program |
| `Bcd.DoublePair` | src/bignum.c:118-145 | A byte corrected and shifted is the doubled pair of digits with the incoming bit, its carry the hundreds |
| `Bcd.DoublingStep` | src/bignum.c:139-145 | A pass keeps: the pairs done plus the pending carry are twice the old pairs plus the bit |
| `Bcd.DoublingEnd` | src/bignum.c:118-146 | After a pass the buffer denotes 2n + bit modulo what it has room for |
| `Bcd.BitPrefixBytes` | src/bignum.c:131-134 | The bits taken by mask, most significant first, make up the big-endian number |
| `Bcd.NibblesValue` | src/bignum.c:103-119 | The nibbles read as decimal digits are the number of the pairs |
| `Bignum.BigEndianToBcd` | src/bignum.c:113-149 | Every nibble is a digit and the buffer denotes the number modulo 10^(2 * length) |
| `Bignum.LittleEndianToBcd` | src/bignum.c:52-83 | The same with both byte orders turned round |
| `Bignum.BigEndianPrint` | src/bignum.c:85-111 | True exactly for a buffer of at least 4 and at least two characters a byte; then the digits without leading zeros, otherwise the zeroed buffer or ERR |
| `Bignum.LittleEndianPrint` | src/bignum.c:20-50 | The same for the other byte order |
| `Bignum.ShownDecimal` | src/bignum.c:85-111 | What is printed for decimal digits is the canonical decimal text of their number |
| `Bignum.HexCharCharacter` | src/bignum.c:21 | The digit characters are 0 to 9 and A to F |
| `Bignum.ConvertThenPrint` | src/bignum.c:20-149 | Conversion followed by printing gives the canonical decimal text of the number modulo 10^(2 * length) |
| `Buffering.RefinesLog` | src/buffering.c:40-74 | With at least as much flash as RAM, over every run of resets and appends content and outcomes are those of one append-only sequence of the size of the flash |
| `Buffering.RunSide` | src/buffering.c:47-74 | With at least as much flash as RAM, after every run the content is in RAM if and only if no append since the last reset, taken or refused, was too much for RAM |
| `Buffering.FailuresKeepContent` | src/buffering.c:54-63 | A refused append keeps the content in every state reached by any run if and only if flash is at least as large as RAM |
| `Buffering.SuccessesExtendContent` | src/buffering.c:54-63 | An append that is taken adds exactly its data in every state reached by any run if and only if flash is at least as large as RAM or there is no flash |
| `Buffering.AppendLoses` | src/buffering.c:54-63 | An append loses bytes if and only if they are in RAM, the data does not fit behind them and flash has no room for them alone |
| `Buffering.SilentLoss` | src/buffering.c:54-63 | Two bytes in RAM over one byte of flash: a third is taken with success and the two are gone |
| `Buffering.RunFits` | src/buffering.c:47-74 | In every reachable state the content fits the side it is on |
| `Buffering.Buffer.constructor` | src/buffering.c:28-38 | An empty store in RAM |
| `Buffering.Buffer.Clear` | src/buffering.c:40-45 | The store is empty and in RAM |
| `Buffering.Buffer.Append` | src/buffering.c:47-74 | The new content and the returned length are those of the specification, the recursive move from RAM to flash included; exactly one side stays in use |
| `Buffering.Buffer.GetBuffer` | src/buffering.c:80-85 | The side in use, which holds the whole content |
| `RlpFormat.EncodeRead` | evm/rlp.c:44-117 | The canonical encoding of any item, followed by anything, is read back whole |
| `RlpFormat.ByteRead` | evm/rlp.c:53-59 | A byte below 0x80 is an item by itself |
| `RlpFormat.ShortRead` | evm/rlp.c:61-68 | Behind a short prefix the payload is read, be it one small byte |
| `RlpFormat.LongRead` | evm/rlp.c:70-114 | Behind a long prefix the payload is read for every way of writing its length in one to eight bytes, leading zeros included |
| `RlpFormat.BeginningFails` | evm/rlp.c:35-42 | No beginning of an item is read as an item |
| `RlpFormat.KnownEncodings` | evm/rlp.c:44-117 | Examples of the format: dog, the empty string, the empty list, 56 zero bytes |
| `RlpFormat.AcceptedCanonical` | evm/rlp.c:44-117 | The bytes of an item read are its canonical encoding if and only if no small byte has a prefix of its own and no length more bytes than it needs |
| `RlpFormat.ReadItemLocal` | evm/rlp.c:44-117 | No byte behind the item is looked at |
| `RlpFormat.EncodeAllRead` | evm/rlp.c:21-33 | Of a stream of canonical encodings the first k items are read as they are |
| `RlpFormat.ListRoundTrip` | evm/rlp.c:119-126 | A list of items is read back through its own encoding |
| `Rlp.ReadBytes` | evm/rlp.c:35-42 | The bytes at the cursor, or an error that leaves it alone |
| `Rlp.DecodeLength` | evm/rlp.c:75-87 | The big-endian length of up to eight bytes; the two overflow exits are never taken |
| `Rlp.ReadRlp` | evm/rlp.c:44-117 | Refines the item reader: same item, same error; the cursor advances by exactly the item, or stands before the bytes that are missing |
| `Rlp.ParseStream` | evm/rlp.c:21-33 | Refines reading up to maxFields items |
| `Rlp.ReadList` | evm/rlp.c:119-126 | The items of a list payload; anything but a list is an error |
| `Rlp.ReadUInt256` | evm/rlp.c:128-151 | The number a byte or a string of at most 32 bytes denotes; exact error otherwise |
| `Rlp.ScalarRoundTrip` | evm/rlp.c:128-151 | A number below 2^256 written canonically is read back as an item that denotes it |
| `EvmUtils.SaturatingAdd` | evm/evm_utils.c:37-42 | The sum, or the largest 64-bit number, found from wrapped sums |
| `EvmUtils.SaturatingAddU32` | evm/evm_utils.c:44-50 | The sum, or the largest 32-bit number |
| `EvmUtils.BeBytesToU64` | evm/evm_utils.c:52-72 | The number of one to eight big-endian bytes, stored through little-endian memory |
| `EvmUtils.GetTxRlpLen` | evm/evm_utils.c:74-138 | The header of the specification with its error codes; the product test on the marker is an interval |
| `EvmUtils.HeaderStable` | evm/evm_utils.c:74-138 | Any buffer that begins with the bytes of a header has the same header |
| `EvmUtils.HeaderErrors` | evm/evm_utils.c:86-137 | Which of the two errors a missing header gives |
| `EvmUtils.HeaderBounds` | evm/evm_utils.c:117-131 | A header has one to ten bytes and announces a 64-bit length |
| `EvmUtils.HeaderIsListPrefix` | evm/evm_utils.c:74-138 | The length decoder and the item reader agree: one finds a list exactly when the other announces bytes that are there, and both end it at the same place |
| `TxFormat.ReadItemsSplit` | evm/rlp.c:21-33 | Items can be read in two goes |
| `TxFormat.ReadingPrefix` | evm/parser_impl_evm.c:84-171 | Items read one by one are the beginning of all items, and all of them exactly at the end of the stream |
| `TxFormat.AcceptedLength` | evm/parser_impl_evm.c:198-234 | An accepted buffer is exactly as long as its length header says, and its payload is its items end to end with nothing left over |
| `TxFormat.EncodedAccepted` | evm/parser_impl_evm.c:198-234 | Canonically encoded fields are accepted exactly when they are the right fields, and are the items read |
| `TxFormat.CanonicalChainId` | evm/parser_impl_evm.c:47-82 | A canonically written chain id is allowed if and only if it is supported, at least 2 and not in 128..255 |
| `TxFormat.OddChainIds` | evm/parser_impl_evm.c:53-61 | Of 257 bytes only the first is the chain id, and a list of two bytes is one |
| `TxErrors.PayloadErrorOk` | evm/parser_impl_evm.c:84-171 | The first error met in the fields, in the order of the code, is none exactly when the list is accepted as a whole |
| `TxErrors.TxErrorOk` | evm/parser_impl_evm.c:198-234 | The error of the specification is none exactly for an accepted buffer |
| `TxErrors.LegacyOutcome` | evm/parser_impl_evm.c:84-126 | For every list of canonically encoded items: six are accepted, or nine with a supported chain id and two empty or two single zero-byte signature items; otherwise exactly the error named |
| `TxErrors.TypedOutcome` | evm/parser_impl_evm.c:128-171 | Type byte 1 takes exactly eight canonically encoded items and type byte 2 nine, the first a supported chain id; otherwise exactly the error named |
| `TxErrors.EnvelopeOutcome` | evm/parser_impl_evm.c:173-217 | The error for an empty buffer, for any other first byte, and for bytes behind the list |
| `TxParser.DecodeChainId` | evm/parser_impl_evm.c:53-81 | The chain id with its error codes, the length cut to eight bits as in the code |
| `TxParser.ReadChainId` | evm/parser_impl_evm.c:47-82 | Reads one item, accepts exactly the allowed chain ids and keeps the decoded one |
| `TxParser.ReadTxnType` | evm/parser_impl_evm.c:173-196 | The type byte or the legacy list prefix, with its error codes |
| `TxParser.ParseLegacy` | evm/parser_impl_evm.c:84-126 | Six fields, or nine with an allowed chain id and an empty signature, else exactly the error specified; each field holds its item |
| `TxParser.Parse2930` | evm/parser_impl_evm.c:128-148 | The eight fields of EIP-2930, else exactly the error specified; each field holds its item |
| `TxParser.Parse1559` | evm/parser_impl_evm.c:150-171 | The nine fields of EIP-1559, else exactly the error specified; each field holds its item |
| `TxParser.ReadEth` | evm/parser_impl_evm.c:198-234 | Returns exactly the error specified, none exactly for accepted buffers, and then every field of the object holds its item |
| `ChunkProtocol.EthRunAssembles` | evm/apdu_handler_evm.c:148-243 | With at least as much flash as RAM, in every run that does not throw the store is the first min(read + to_read, received) bytes received, each chunk sees the same header, and a chunk completes exactly at read + to_read (or, past it, when it is empty) |
| `ChunkProtocol.PathSent` | evm/apdu_handler_evm.c:41-73 | A path of any words sent in order is read back in order, and what follows it is the payload, exactly when it has three to five words beginning with 44 and 60 hardened; otherwise exactly the code named |
| `ChunkProtocol.PathCutShort` | evm/apdu_handler_evm.c:44-54 | A path cut short, or none, is a wrong length |
| `ChunkProtocol.EthCodes` | evm/apdu_handler_evm.c:148-243 | The code for every way a transaction command can be refused, in the order of the checks, the parameter bytes and codes as numbers |
| `ChunkProtocol.MessageCodes` | evm/apdu_handler_evm.c:75-146 | The same for message commands |
| `ChunkProtocol.EthComplete` | evm/apdu_handler_evm.c:201-237 | A completed run has stored exactly the announced number of bytes, a prefix of those received |
| `ChunkProtocol.EthDelivers` | evm/apdu_handler_evm.c:148-243 | However the beginning of a transaction is cut into non-empty chunks, none throws if and only if the first reaches past the header and the store has room; then all is stored, and the last completes it just when it is all there |
| `ChunkProtocol.EthDeliversAccepted` | evm/apdu_handler_evm.c:271-284 | A transaction the parser accepts, cut into non-empty chunks, is stored whole and completed by the last of them if and only if the first reaches past its header and the store has room |
| `ChunkProtocol.EthMoreAssembles` | evm/apdu_handler_evm.c:207-239 | One more chunk keeps the invariant and throws only for want of room |
| `ChunkProtocol.MessageRunCollects` | evm/apdu_handler_evm.c:75-146 | With at least as much flash as RAM, in every run that does not throw the store is all bytes received, and a chunk completes exactly at the declared length plus 4 although the counter wraps |
| `ChunkProtocol.MessageDelivers` | evm/apdu_handler_evm.c:75-146 | However the beginning of a message is cut into non-empty chunks, none throws if and only if the first holds the length and the store has room; then all is stored, and the last completes it just when it is all there |
| `ChunkProtocol.CounterZero` | evm/apdu_handler_evm.c:111-137 | The wrapping counter is zero only at the declared length |
| `ChunkTrace.TraceIsRun` | evm/apdu_handler_evm.c:75-243 | In every sequence of commands, with bad parameters, errors and new first chunks in between, a chunk that does not throw is the last of the run of the chunks since the last first one |
| `ChunkTrace.EthTrace` | evm/apdu_handler_evm.c:148-284 | After every such transaction chunk the store is the bytes received since the last first chunk, cut off where the transaction ends, and completion is exact |
| `ChunkTrace.MessageTrace` | evm/apdu_handler_evm.c:75-146 | After every such message chunk the store is the bytes received since the last first chunk, and completion is exact |
| `ChunkTrace.EthCommandsDeliver` | evm/apdu_handler_evm.c:148-284 | Commands with parameter 0x00 and then 0x80 carrying a transaction in non-empty chunks: none is refused if and only if the first reaches past the header and the store has room; then all is stored and the last completes it just when it is all there |
| `ChunkTrace.MessageCommandsDeliver` | evm/apdu_handler_evm.c:75-146 | The same for messages, the first chunk holding the length |
| `ChunkHandler.Handler.HandleSignEth` | evm/apdu_handler_evm.c:271-277 | One command moves the session as the sequences of commands say: closed after completion or an error |
| `ChunkHandler.Handler.HandleSignEip191` | evm/apdu_handler_evm.c:308-314 | The same for messages |
| `ChunkHandler.Handler.ResetChunkState` | evm/apdu_handler_evm.c:36-39 | The session is closed |
| `ChunkHandler.Handler.ExtractEthPath` | evm/apdu_handler_evm.c:41-73 | The path of three to five words under 44'/60', or the code thrown |
| `ChunkHandler.Handler.ProcessChunkEth` | evm/apdu_handler_evm.c:148-243 | Refines the step of the state machine: same code thrown, or same new state and outcome |
| `ChunkHandler.Handler.ProcessChunkEip191` | evm/apdu_handler_evm.c:75-146 | Refines the step of the state machine for messages |
| `NumberText.NumToStr` | include/zxformat.h:29-66 | Fails exactly when the digits do not fit; otherwise the signed text followed by zeros, INT64_MIN included |
| `NumberText.Terminated` | include/zxformat.h:29-66 | A terminator follows the text written with success if and only if the number is not negative or its digits leave more than one byte |
| `NumberText.UnterminatedMinusFive` | include/zxformat.h:29-66 | A buffer of two bytes takes -5 and has no terminator |
| `NumberText.ParseDigits` | include/zxformat.h:123-160 | Refines the scan of the digits modulo 2^64, for every limit |
| `NumberText.ScannedExact` | include/zxformat.h:123-160 | For a limit of at least 9, digits are taken exactly while their value is in the limit, with no overflow on the way |
| `NumberText.LimitKept` | include/zxformat.h:136 | For all texts the value taken is in the limit if and only if the limit is at least 9; below, the room for a digit wraps |
| `NumberText.StrToInt64` | include/zxformat.h:204-233 | Accepts exactly an optional minus sign and digits whose value is a 64-bit integer, and returns it |
| `NumberText.Int64RoundTrip` | include/zxformat.h:29-233 | Reading what was written for any 64-bit integer returns it without error |
| `NumberText.CanonicalText` | include/zxformat.h:29-66 | Decimal digits without a leading zero are the text of their value |
| `NumberText.Int64Fits` | include/zxformat.h:29-66 | Every 64-bit integer has at most 19 digits and 20 characters |
| `FixedPoint.FixedPointAmount` | include/zxformat.h:238-298 | The text with the point denotes the number divided by 10^decimals |
| `FixedPoint.FixedPointParts` | include/zxformat.h:238-298 | In front of the point stands the canonical text of the number divided by the power of ten, behind it exactly the decimals |
| `FixedPoint.FitsExactly` | include/zxformat.h:248-272 | With decimals success means exactly that text and terminator fit, without that the digits do |
| `FixedPoint.FitsWhole` | include/zxformat.h:248-256 | A success keeps the whole text if and only if there are decimals or the buffer is longer than the digits, an empty number counting as the digit 0 |
| `FixedPoint.FpStrToStr` | include/zxformat.h:238-298 | The exact size conditions, and the text or ERR followed by zeros |
| `FixedPoint.TrimmedAmount` | include/zxformat.h:308-328 | Trimming keeps the number and leaves no zero it could cut |
| `FixedPoint.TrimmedKeeps` | include/zxformat.h:324-327 | The characters to keep behind the point are kept, as far as there are any |
| `FixedPoint.NumberInplaceTrimming` | include/zxformat.h:308-328 | The buffer holds the trimmed text followed by zeros |
| `Paging.PageStringExt` | include/zxformat.h:432-460 | The page and the page count of the specification, zeros behind |
| `Paging.PageString` | include/zxformat.h:462-465 | The same with the length cut to 16 bits |
| `Paging.PagesWhole` | include/zxformat.h:446-459 | All pages together are the text if and only if at most 255 are needed |
| `Paging.PageSizes` | include/zxformat.h:446-459 | While at most 255 pages are needed that many are counted; each but the last is full and only those counted show anything |
| `Display.PrintBigIntFixedPoint` | evm/evm_utils.c:166-194 | Through decimal conversion, fixed point, trimming and paging: the page of the display text, with exact error conditions |
| `Display.DisplayedAmount` | evm/evm_utils.c:160-194 | For every number of at most 64 bytes and at most 157 decimals the pages together denote exactly number / 10^decimals |
| `Display.DisplayShape` | evm/evm_utils.c:160-194 | The text shown has the canonical whole part, no point without decimals, and otherwise at least one digit behind the point and no trailing zero behind that one; with the amount this fixes the text |
| `Display.DecimalsCut` | evm/evm_utils.c:187 | The amount shown with the decimals cut to eight bits is the one asked for if and only if it is 0 or there are fewer than 256 decimals |
| `Display.PrintRlpNumber` | evm/evm_utils.c:140-155 | The page of the decimal text of a number field, with exact error conditions; the conversion to text never fails |
| `YearTable.YearLookup` | src/timeutils.c:30-76 | Each of the 631 entries is the number of days given by the leap-year terms of the POSIX formula |
| `TimeUtils.YearStep` | src/timeutils.c:30-115 | Successive entries differ by the length of the year |
| `TimeUtils.MonthLengths` | src/timeutils.c:27-119 | February has 28 days and the leap day; the others 30 + (mon + mon / 8) % 2 |
| `TimeUtils.MonthNames` | include/timeutils.h:28-57 | The names of the twelve months |
| `TimeUtils.KnownTimes` | src/timeutils.c:81-129 | The seconds of 1 July 1970 and of 29 February 2000 |
| `TimeUtils.SecondsInjective` | src/timeutils.c:78-129 | Different civil dates and times have different seconds since the epoch |
| `TimeUtils.BeforeLimit` | src/timeutils.c:106-108 | The seconds of a date are below 230103 * 86400 exactly before the year 2600 |
| `TimeUtils.TimeData.LookUpYear` | src/timeutils.c:99-109 | The year of a day, or the end of the table exactly from the year 2600 on |
| `TimeUtils.TimeData.FindMonth` | src/timeutils.c:114-125 | Month and day of the month of a day of the year |
| `TimeUtils.TimeData.ExtractTime` | src/timeutils.c:81-129 | Below 230103 * 86400 a valid civil date and time whose seconds since the epoch are the time given, with the month name; out of bounds for every later time |
| `TimeUtils.InverseOfFormula` | src/timeutils.c:81-129 | Applied to the seconds of any date before 2600 the conversion returns that date |

## Left out

- UI flows, NBGL and BAGL screens, SDK callbacks and the I/O loop (`app/`): device plumbing.
- Key derivation, ECDSA, Keccak, the hashing of EIP-191 messages, canaries, NVRAM settings and logging: foreign calls.
- `src/hexutils.c`, `src/sigutils.c`, `src/base64.c`, `src/bech32.c`, `evm/evm_erc20.c`, `include/utf8.h`, scripts and fuzzing: easier members, vendored code or tooling.
- `intstr_to_fpstr_inplace`, `insertDecimalPoint`, `z_str3join`, `bip32_to_str`, the 8-bit text reader, the hex and case helpers of `include/zxformat.h`: not part of the display pipeline proved here.
- `printTime` and `printTimeSpecialFormat`: a formatting of the fields whose values are proved.
- `_computeV`, `printEthHash`, `printEVMAddress` and the application-specific item printers: easy or foreign.
- Overlapping buffers in C (the union in `printBigIntFixedPoint`, data handed to `buffering_append` that lies inside its own flash): the model keeps separate arrays and passes data by value.
- Sequences that mix transaction and message commands, which share the flag and the buffer: each handler's sequences are proved separately.
- The chunk handlers over a store with less flash than RAM: what such a store loses is proved for the store alone.
- An `outValueLen` of 0 in the paging routine, which wraps to 65535 in C: a buffer of at least one byte is required.
- A null `error` pointer in the text readers, and 64-bit `size_t`: sizes are below 2^32.
- Multiply.Mul256: the arrays of 128-bit limb products are kept as two arrays of words, and the repeated add-and-copy statements as one helper.
- Divide.DivMod256: dividend and divisor may share storage with the outputs only as whole objects, as in the callers; partly overlapping structures are not considered.
- Rlp.ReadUInt256: a byte item without a payload, which only a null pointer could stand for, is excluded.
