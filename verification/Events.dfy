/** What the reader reports: error codes, SAX events, and the parse flags that are modelled. */
module Events {
  import opened Bytes

  datatype ErrorCode =
    | NoError
    | DocumentEmpty
    | DocumentRootNotSingular
    | ValueInvalid
    | ObjectMissName
    | ObjectMissColon
    | ObjectMissCommaOrCurlyBracket
    | ArrayMissCommaOrSquareBracket
    | StringUnicodeEscapeInvalidHex
    | StringUnicodeSurrogateInvalid
    | StringEscapeInvalid
    | StringMissQuotationMark
    | StringInvalidEncoding
    | NumberTooBig
    | NumberMissFraction
    | NumberMissExponent
    | Termination
    | UnspecificSyntaxError

  /** One handler call. A double is reported by the literal it was read from. */
  datatype Event =
    | Null
    | Bool(b: bool)
    | Int(n: int)
    | Uint(n: int)
    | Int64(n: int)
    | Uint64(n: int)
    | Double(literal: Text)
    | String(str: Text)
    | Key(str: Text)
    | StartObject
    | EndObject(count: nat)
    | StartArray
    | EndArray(count: nat)

  predicate IsNumberEvent(e: Event) {
    e.Int? || e.Uint? || e.Int64? || e.Uint64? || e.Double?
  }

  datatype Flags = Flags(
    validateEncoding: bool,
    stopWhenDone: bool,
    comments: bool,
    trailingCommas: bool,
    escapedApostrophe: bool)
}
