/** Vocabulary shared by every part of the decoder: bytes, result codes,
    value types and the abstract JSON value a parse produces. */
module LeptTypes {

  /** A C `char` of the input text or of a decoded string. */
  type byte = bv8

  /** A C `unsigned`: the type of code units and code points. */
  type unsigned = bv32

  datatype Option<T> = None | Some(value: T)

  /** The result codes of a parse (the LEPT_PARSE_* constants). */
  datatype Status =
    | Ok
    | ExpectValue
    | InvalidValue
    | RootNotSingular
    | NumberTooBig
    | MissQuotationMark
    | InvalidStringEscape
    | InvalidStringChar
    | InvalidUnicodeHex
    | InvalidUnicodeSurrogate

  /** The type tag of a value (LEPT_NULL, LEPT_FALSE, LEPT_TRUE, LEPT_NUMBER, LEPT_STRING). */
  datatype LeptType = Null | False | True | Number | String

  /** What a value holds once its tag is taken into account. A number is
      kept as the decimal text that the C library converts to a double;
      a string is its decoded bytes, without the terminating NUL. */
  datatype Json =
    | JNull
    | JFalse
    | JTrue
    | JNumber(text: seq<byte>)
    | JString(bytes: seq<byte>)

  function TypeOf(j: Json): LeptType
  {
    match j
    case JNull => Null
    case JFalse => False
    case JTrue => True
    case JNumber(_) => Number
    case JString(_) => String
  }

  /** The decoder reads a NUL-terminated character array: the last byte is 0,
      so every scan that stops at a 0 byte stays inside the input. */
  predicate IsInput(s: seq<byte>)
  {
    |s| > 0 && s[|s| - 1] == NUL
  }

  const NUL: byte := 0
  const QUOTE: byte := 0x22  // "
  const BACKSLASH: byte := 0x5C  // \
  const SLASH: byte := 0x2F  // /
  const MINUS: byte := 0x2D  // -
  const PLUS: byte := 0x2B  // +
  const DOT: byte := 0x2E  // .
  const ZERO: byte := 0x30  // 0
}
