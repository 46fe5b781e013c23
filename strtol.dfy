/** The hex reader of a `\u` escape as the C code writes it: a call of the
    C library's `strtol` with base 16, accepted when the conversion ends
    exactly four bytes later. `strtol` is more lenient than four hex
    digits: it skips leading white space and accepts a sign and a `0x`
    prefix, so the reader lets through escapes that are not four hex
    digits. The decoder itself uses the strict reader `Unicode.Hex4`. */
module Strtol {
  import opened LeptTypes
  import opened Unicode

  /** The bytes C's `isspace` accepts in the "C" locale: space, \t \n \v \f \r. */
  predicate IsCSpace(b: byte)
  {
    b == 0x20 || (0x09 <= b <= 0x0D)
  }

  /** The first byte at or after `p` that is not white space. */
  function CSpaceEnd(s: seq<byte>, p: nat): (j: nat)
    requires IsInput(s) && p < |s|
    ensures p <= j < |s| && !IsCSpace(s[j])
    ensures forall k :: p <= k < j ==> IsCSpace(s[k])
    decreases |s| - p
  {
    if IsCSpace(s[p]) then CSpaceEnd(s, p + 1) else p
  }

  /** The result of a conversion: the value, cast to `unsigned`, and where
      the conversion stopped. */
  datatype Conversion = Conversion(value: unsigned, end: nat)

  /** `(unsigned)strtol(s + p, &end, 16)`: white space, an optional sign, an
      optional `0x` or `0X` that a hex digit follows, then the longest run
      of hex digits. With no digit the conversion ends where it started
      and yields 0. A minus sign negates the value modulo 2^32. */
  function StrtolHex(s: seq<byte>, p: nat): (r: Conversion)
    requires IsInput(s) && p < |s|
    ensures r.end == p || p < r.end < |s|
    ensures r.end == p ==> r.value == 0
  {
    var i := CSpaceEnd(s, p);
    var j := if s[i] == MINUS || s[i] == PLUS then i + 1 else i;
    var k := if s[j] == ZERO && (s[j + 1] == 0x78 || s[j + 1] == 0x58) && IsHexDigit(s[j + 2])  // x, X
             then j + 2 else j;
    var n := HexRun(s, k);
    if n == 0 then Conversion(0, p)
    else
      var m := HexNumber(s, k, k + n);
      Conversion(if s[i] == MINUS then 0 - m else m, k + n)
  }

  /** `lept_parse_hex4` as written: the conversion must stop four bytes on. */
  function Hex4AsWritten(s: seq<byte>, p: nat): (r: Option<unsigned>)
    requires IsInput(s) && p < |s|
    ensures r.Some? ==> p + 4 < |s|
  {
    var c := StrtolHex(s, p);
    if c.end == p + 4 then Some(c.value) else None
  }

  /** Every escape the strict reader accepts, the written one accepts too,
      with the same code unit. */
  lemma AsWrittenAgrees(s: seq<byte>, p: nat)
    requires IsInput(s) && p < |s| && Hex4(s, p).Some?
    ensures Hex4AsWritten(s, p) == Hex4(s, p)
  {
    assert CSpaceEnd(s, p) == p;
    assert HexRun(s, p + 3) == 1;
    assert HexRun(s, p + 1) == 3;
    assert HexRun(s, p) == 4;
    assert StrtolHex(s, p) == Conversion(HexNumber(s, p, p + 4), p + 4);
  }

  /** The escapes only the written reader accepts begin with white space, a
      sign or a `0x` prefix. */
  lemma AsWrittenExtra(s: seq<byte>, p: nat)
    requires IsInput(s) && p < |s| && Hex4AsWritten(s, p).Some? && Hex4(s, p).None?
    ensures IsCSpace(s[p]) || s[p] == MINUS || s[p] == PLUS ||
            (s[p] == ZERO && (s[p + 1] == 0x78 || s[p + 1] == 0x58))
  {
  }

  /** Without a minus sign the written reader yields at most 0xFFFF; with
      one it can yield a value no code point has. */
  lemma AsWrittenRange(s: seq<byte>, p: nat)
    requires IsInput(s) && p < |s| && Hex4AsWritten(s, p).Some?
    ensures Hex4AsWritten(s, p).value <= 0xFFFF || s[CSpaceEnd(s, p)] == MINUS
  {
  }

  /** `\u 123`: the strict reader rejects it, the written one reads U+0123. */
  lemma SpacedEscapeAccepted()
    ensures var s: seq<byte> := [0x20, 0x31, 0x32, 0x33, QUOTE, NUL];  // " 123"
            Hex4(s, 0).None? && Hex4AsWritten(s, 0) == Some(0x123)
  {
    var s: seq<byte> := [0x20, 0x31, 0x32, 0x33, QUOTE, NUL];
    assert CSpaceEnd(s, 0) == 1;
    assert HexRun(s, 4) == 0 && HexRun(s, 3) == 1 && HexRun(s, 2) == 2 && HexRun(s, 1) == 3;
  }

  /** `\u-123`: the written reader yields 0xFFFFFEDD, which is not a
      surrogate and lies above U+10FFFF, so the UTF-8 encoder has no branch
      for it and reaches its `assert(0)`. */
  lemma NegativeEscapeOutOfRange()
    ensures var s: seq<byte> := [MINUS, 0x31, 0x32, 0x33, QUOTE, NUL];  // "-123"
            Hex4(s, 0).None? && Hex4AsWritten(s, 0) == Some(0xFFFF_FEDD) &&
            !IsSurrogate(0xFFFF_FEDD) && 0x10FFFF < 0xFFFF_FEDD as int
  {
    var s: seq<byte> := [MINUS, 0x31, 0x32, 0x33, QUOTE, NUL];
    assert CSpaceEnd(s, 0) == 0;
    assert HexRun(s, 4) == 0 && HexRun(s, 3) == 1 && HexRun(s, 2) == 2 && HexRun(s, 1) == 3;
  }
}
