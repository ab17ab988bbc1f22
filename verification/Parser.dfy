/** The byte cursor shared by the readers: a buffer and the offset of the next byte. */
module Parser {
  import opened Numerals

  datatype ParserError =
    | Ok
    | UnexpectedError
    | UnexpectedBufferEnd
    | ValueOutOfRange
    | UnexpectedType
    | UnexpectedValue
    | UnexpectedCharacters
    | UnsupportedTx
    | InvalidChainId
    | InvalidRsValues

  class ParserContext {
    const buffer: seq<byte>
    var offset: nat

    constructor (buffer: seq<byte>)
      ensures this.buffer == buffer && offset == 0 && Valid()
    {
      this.buffer := buffer;
      offset := 0;
    }

    predicate Valid()
      reads this
    {
      offset <= |buffer|
    }

    function Remaining(): (r: seq<byte>)
      requires Valid()
      reads this
    {
      buffer[offset..]
    }
  }
}
