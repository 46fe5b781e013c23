/** Whole-input examples of the decoder's behaviour, each one a concrete
    NUL-terminated text (spelled out in a comment) and the result code and
    value the parse produces. */
module ParseExamples {
  import opened LeptTypes
  import opened Scanner
  import opened Unicode
  import opened StringDecoder
  import opened JsonText

  lemma NullParses(tooBig: seq<byte> -> bool)
    ensures ParseText([0x6E, 0x75, 0x6C, 0x6C, NUL], tooBig) == (Ok, JNull)  // null
  {
    var s: seq<byte> := [0x6E, 0x75, 0x6C, 0x6C, NUL];
    assert s[0..4] == NULL_TEXT;
  }

  /** Whitespace on both sides of the value is skipped. */
  lemma SpacedTrueParses(tooBig: seq<byte> -> bool)
    ensures ParseText([0x20, 0x74, 0x72, 0x75, 0x65, 0x0A, NUL], tooBig) == (Ok, JTrue)  // " true\n"
  {
    var s: seq<byte> := [0x20, 0x74, 0x72, 0x75, 0x65, 0x0A, NUL];
    assert SkipWs(s, 0) == 1;
    assert s[1..5] == TRUE_TEXT;
    assert SkipWs(s, 5) == 6;
  }

  lemma FalseParses(tooBig: seq<byte> -> bool)
    ensures ParseText([0x66, 0x61, 0x6C, 0x73, 0x65, NUL], tooBig) == (Ok, JFalse)  // false
  {
    var s: seq<byte> := [0x66, 0x61, 0x6C, 0x73, 0x65, NUL];
    assert s[0..5] == FALSE_TEXT;
  }

  /** A literal cut short is an invalid value, and so is a byte no value
      starts with. */
  lemma BadLiteralsRejected(tooBig: seq<byte> -> bool)
    ensures ParseText([0x6E, 0x75, 0x6C, NUL], tooBig) == (InvalidValue, JNull)  // nul
    ensures ParseText([0x3F, NUL], tooBig) == (InvalidValue, JNull)  // ?
  {
  }

  lemma BlankInputs(tooBig: seq<byte> -> bool)
    ensures ParseText([NUL], tooBig) == (ExpectValue, JNull)  // the empty text
    ensures ParseText([0x20, 0x09, 0x0D, NUL], tooBig) == (ExpectValue, JNull)  // " \t\r"
  {
  }

  lemma TrailingTextRejected(tooBig: seq<byte> -> bool)
    ensures ParseText([0x6E, 0x75, 0x6C, 0x6C, 0x20, 0x78, NUL], tooBig) == (RootNotSingular, JNull)  // "null x"
  {
    var s: seq<byte> := [0x6E, 0x75, 0x6C, 0x6C, 0x20, 0x78, NUL];
    assert s[0..4] == NULL_TEXT;
    assert SkipWs(s, 4) == 5;
  }

  /** A leading zero ends the number after the zero, so the digits after it
      are trailing text. */
  lemma LeadingZeroIsNotSingular(tooBig: seq<byte> -> bool)
    requires !tooBig([0x30, 0x31, 0x32, 0x33, NUL])
    ensures ParseText([0x30, 0x31, 0x32, 0x33, NUL], tooBig) == (RootNotSingular, JNull)  // 0123
  {
  }

  lemma NumberParsesAsText(tooBig: seq<byte> -> bool)
    requires !tooBig([0x2D, 0x31, 0x2E, 0x35, 0x65, 0x2B, 0x33, NUL])
    ensures ParseText([0x2D, 0x31, 0x2E, 0x35, 0x65, 0x2B, 0x33, NUL], tooBig) ==
            (Ok, JNumber([0x2D, 0x31, 0x2E, 0x35, 0x65, 0x2B, 0x33]))  // -1.5e+3
  {
    var s: seq<byte> := [0x2D, 0x31, 0x2E, 0x35, 0x65, 0x2B, 0x33, NUL];
    assert DigitsEnd(s, 2) == 2 && DigitsEnd(s, 4) == 4 && DigitsEnd(s, 7) == 7;
    assert NumberEnd(s, 0) == Some(7);
    assert s[0..] == s;
    assert s[0..7] == [0x2D, 0x31, 0x2E, 0x35, 0x65, 0x2B, 0x33];
  }

  lemma BadNumbersRejected(tooBig: seq<byte> -> bool)
    ensures ParseText([0x2E, 0x35, NUL], tooBig) == (InvalidValue, JNull)  // .5
    ensures ParseText([0x31, 0x2E, NUL], tooBig) == (InvalidValue, JNull)  // 1.
    ensures ParseText([0x2B, 0x31, NUL], tooBig) == (InvalidValue, JNull)  // +1
  {
  }

  lemma HugeNumberRejected(tooBig: seq<byte> -> bool)
    requires tooBig([0x31, 0x65, 0x33, 0x30, 0x39, NUL])
    ensures ParseText([0x31, 0x65, 0x33, 0x30, 0x39, NUL], tooBig) == (NumberTooBig, JNull)  // 1e309
  {
  }

  lemma EscapedNewlineParses(tooBig: seq<byte> -> bool)
    ensures ParseText([QUOTE, 0x61, 0x5C, 0x6E, QUOTE, NUL], tooBig) == (Ok, JString([0x61, 0x0A]))  // "a\n"
  {
    var s: seq<byte> := [QUOTE, 0x61, 0x5C, 0x6E, QUOTE, NUL];
    assert StringStep(s, 1) == Emit([0x61], 2);
    assert StringStep(s, 2) == Emit([0x0A], 4);
    assert StringStep(s, 4) == Close(5);
    var none: seq<byte> := [];
    var a: seq<byte> := [0x61];
    assert none + a == a && a + [0x0A] == [0x61, 0x0A];
    assert DecodeFrom(s, 2, [0x61]) == Decoded([0x61, 0x0A], 5);
    assert DecodeString(s, 1) == DecodeFrom(s, 2, [0x61]);
    QuotedParses(s, tooBig, [0x61, 0x0A], 5);
  }

  /** `"\u0024"` decodes to the one byte 0x24 (`$`). */
  lemma OneByteEscapeParses(tooBig: seq<byte> -> bool)
    ensures ParseText([QUOTE, 0x5C, 0x75, 0x30, 0x30, 0x32, 0x34, QUOTE, NUL], tooBig) ==
            (Ok, JString([0x24]))
  {
    var s: seq<byte> := [QUOTE, 0x5C, 0x75, 0x30, 0x30, 0x32, 0x34, QUOTE, NUL];
    assert Hex4(s, 3).Some?;
    assert HexNumber(s, 3, 4) == 0x0 && HexNumber(s, 3, 5) == 0;
    assert HexNumber(s, 3, 6) == 0x2 && HexNumber(s, 3, 7) == 0x24;
    assert UnicodeEscape(s, 3) == CodePoint(0x24, 7);
    assert Utf8(0x24) == [0x24];
    assert StringStep(s, 7) == Close(8);
    var none: seq<byte> := [];
    assert none + [0x24] == [0x24];
    assert StringStep(s, 1) == Emit([0x24], 7);
    assert DecodeFrom(s, 7, [0x24]) == Decoded([0x24], 8);
    assert DecodeString(s, 1) == Decoded([0x24], 8);
    QuotedParses(s, tooBig, [0x24], 8);
  }

  /** `"\u20AC"` decodes to the three UTF-8 bytes E2 82 AC of the euro sign. */
  lemma ThreeByteEscapeParses(tooBig: seq<byte> -> bool)
    ensures ParseText([QUOTE, 0x5C, 0x75, 0x32, 0x30, 0x41, 0x43, QUOTE, NUL], tooBig) ==
            (Ok, JString([0xE2, 0x82, 0xAC]))
  {
    var s: seq<byte> := [QUOTE, 0x5C, 0x75, 0x32, 0x30, 0x41, 0x43, QUOTE, NUL];
    assert Hex4(s, 3).Some?;
    assert HexNumber(s, 3, 4) == 0x2 && HexNumber(s, 3, 5) == 0x20;
    assert HexNumber(s, 3, 6) == 0x20A && HexNumber(s, 3, 7) == 0x20AC;
    assert UnicodeEscape(s, 3) == CodePoint(0x20AC, 7);
    Utf8Cases(0x20AC);
    assert Utf8(0x20AC) == [0xE2, 0x82, 0xAC];
    assert StringStep(s, 7) == Close(8);
    var none: seq<byte> := [];
    assert none + [0xE2, 0x82, 0xAC] == [0xE2, 0x82, 0xAC];
    assert StringStep(s, 1) == Emit([0xE2, 0x82, 0xAC], 7);
    assert DecodeFrom(s, 7, [0xE2, 0x82, 0xAC]) == Decoded([0xE2, 0x82, 0xAC], 8);
    assert DecodeString(s, 1) == Decoded([0xE2, 0x82, 0xAC], 8);
    QuotedParses(s, tooBig, [0xE2, 0x82, 0xAC], 8);
  }

  /** `"\uD834\uDD1E"`, a surrogate pair, decodes to U+1D11E in four bytes. */
  lemma SurrogatePairParses(tooBig: seq<byte> -> bool)
    ensures ParseText([QUOTE, 0x5C, 0x75, 0x44, 0x38, 0x33, 0x34,
                       0x5C, 0x75, 0x44, 0x44, 0x31, 0x45, QUOTE, NUL], tooBig) ==
            (Ok, JString([0xF0, 0x9D, 0x84, 0x9E]))
  {
    var s: seq<byte> := [QUOTE, 0x5C, 0x75, 0x44, 0x38, 0x33, 0x34,
                         0x5C, 0x75, 0x44, 0x44, 0x31, 0x45, QUOTE, NUL];
    assert Hex4(s, 3).Some? && Hex4(s, 9).Some?;
    assert HexNumber(s, 3, 4) == 0xD && HexNumber(s, 3, 5) == 0xD8;
    assert HexNumber(s, 3, 6) == 0xD83 && HexNumber(s, 3, 7) == 0xD834;
    assert HexNumber(s, 9, 10) == 0xD && HexNumber(s, 9, 11) == 0xDD;
    assert HexNumber(s, 9, 12) == 0xDD1 && HexNumber(s, 9, 13) == 0xDD1E;
    assert Combine(0xD834, 0xDD1E) == 0x1D11E;
    assert UnicodeEscape(s, 3) == CodePoint(0x1D11E, 13);
    Utf8Cases(0x1D11E);
    assert Utf8(0x1D11E) == [0xF0, 0x9D, 0x84, 0x9E];
    assert StringStep(s, 13) == Close(14);
    var none: seq<byte> := [];
    assert none + [0xF0, 0x9D, 0x84, 0x9E] == [0xF0, 0x9D, 0x84, 0x9E];
    assert StringStep(s, 1) == Emit([0xF0, 0x9D, 0x84, 0x9E], 13);
    assert DecodeFrom(s, 13, [0xF0, 0x9D, 0x84, 0x9E]) == Decoded([0xF0, 0x9D, 0x84, 0x9E], 14);
    assert DecodeString(s, 1) == Decoded([0xF0, 0x9D, 0x84, 0x9E], 14);
    QuotedParses(s, tooBig, [0xF0, 0x9D, 0x84, 0x9E], 14);
  }

  /** `"\uDC00"`: a low surrogate on its own is encoded like any other code unit. */
  lemma LoneLowSurrogateParses(tooBig: seq<byte> -> bool)
    ensures ParseText([QUOTE, 0x5C, 0x75, 0x44, 0x43, 0x30, 0x30, QUOTE, NUL], tooBig) ==
            (Ok, JString([0xED, 0xB0, 0x80]))
  {
    var s: seq<byte> := [QUOTE, 0x5C, 0x75, 0x44, 0x43, 0x30, 0x30, QUOTE, NUL];
    assert Hex4(s, 3).Some?;
    assert HexNumber(s, 3, 4) == 0xD && HexNumber(s, 3, 5) == 0xDC;
    assert HexNumber(s, 3, 6) == 0xDC0 && HexNumber(s, 3, 7) == 0xDC00;
    assert UnicodeEscape(s, 3) == CodePoint(0xDC00, 7);
    Utf8Cases(0xDC00);
    assert Utf8(0xDC00) == [0xED, 0xB0, 0x80];
    assert StringStep(s, 7) == Close(8);
    var none: seq<byte> := [];
    assert none + [0xED, 0xB0, 0x80] == [0xED, 0xB0, 0x80];
    assert StringStep(s, 1) == Emit([0xED, 0xB0, 0x80], 7);
    assert DecodeFrom(s, 7, [0xED, 0xB0, 0x80]) == Decoded([0xED, 0xB0, 0x80], 8);
    assert DecodeString(s, 1) == Decoded([0xED, 0xB0, 0x80], 8);
    QuotedParses(s, tooBig, [0xED, 0xB0, 0x80], 8);
  }

  lemma UnterminatedStringRejected(tooBig: seq<byte> -> bool)
    ensures ParseText([QUOTE, 0x61, 0x62, NUL], tooBig) == (MissQuotationMark, JNull)  // "ab
  {
    var s: seq<byte> := [QUOTE, 0x61, 0x62, NUL];
    UnterminatedDecodes(s, 1);
  }

  lemma BadStringBytesRejected(tooBig: seq<byte> -> bool)
    ensures ParseText([QUOTE, 0x5C, 0x76, QUOTE, NUL], tooBig) == (InvalidStringEscape, JNull)  // "\v"
    ensures ParseText([QUOTE, 0x01, QUOTE, NUL], tooBig) == (InvalidStringChar, JNull)  // a control byte
  {
    StepErrors([QUOTE, 0x5C, 0x76, QUOTE, NUL], 1);
    StepErrors([QUOTE, 0x01, QUOTE, NUL], 1);
  }

  /** `"\u 123"`: the hex reader wants four hex digits. */
  lemma SpacedEscapeRejected(tooBig: seq<byte> -> bool)
    ensures ParseText([QUOTE, 0x5C, 0x75, 0x20, 0x31, 0x32, 0x33, QUOTE, NUL], tooBig) ==
            (InvalidUnicodeHex, JNull)
  {
  }

  /** `"\uD800"`: a high surrogate must be followed by a low one. */
  lemma LoneHighSurrogateRejected(tooBig: seq<byte> -> bool)
    ensures ParseText([QUOTE, 0x5C, 0x75, 0x44, 0x38, 0x30, 0x30, QUOTE, NUL], tooBig) ==
            (InvalidUnicodeSurrogate, JNull)
  {
    var s: seq<byte> := [QUOTE, 0x5C, 0x75, 0x44, 0x38, 0x30, 0x30, QUOTE, NUL];
    assert Hex4(s, 3).Some?;
    assert HexNumber(s, 3, 4) == 0xD && HexNumber(s, 3, 5) == 0xD8;
    assert HexNumber(s, 3, 6) == 0xD80 && HexNumber(s, 3, 7) == 0xD800;
    assert UnicodeEscape(s, 3) == Bad(InvalidUnicodeSurrogate);
  }
}
