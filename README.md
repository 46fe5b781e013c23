# leptjson (tutorial 4) in Dafny

A model of `leptjson.c`, the small JSON decoder of the leptjson tutorial at
its fourth stage. The decoder reads one JSON value from a NUL-terminated
text. The value is `null`, `true`, `false`, a number or a string, with
whitespace allowed around it. The result goes into a `lept_value`, and the
decoder returns a status code. Strings are decoded with all escapes of
RFC 8259 section 7, including `\uXXXX` and surrogate pairs, which are
re-encoded as UTF-8. String bytes pile up on a growable scratch stack in
the parse context, and the finished string is copied off that stack into
the value.

The model has two layers.

- **Functions** state what is read. `Scanner` covers whitespace, literals,
  and the number grammar of RFC 8259 section 6. `Unicode` covers hex
  digits, surrogate pairs and UTF-8. `StringDecoder` covers one step of the
  string loop and the whole string decode. `JsonText` covers one value
  and the whole text.
- **Classes** mirror the C state. `Values.Value` is `lept_value`: a type
  tag, a number, and a string with its length. `ParseContext.Context` is
  `lept_context`: the input, a cursor, and the scratch stack as an
  `array<byte>` with `size` and `top`. Each method is proved to compute
  the function it follows, and to leave the state the C code leaves.
  `Parser.Parse` is `lept_parse`; its contract is `ParseText`.

Lemmas about the functions state what the C code promises, in several
forms:

- the number scanner accepts only RFC 8259 numbers, always the longest
  one, and finds every number followed by a byte that cannot continue it;
- UTF-8 encoding is injective, and decodes back except for surrogates;
- surrogate combination inverts the split;
- `EXPECT_VALUE` is returned exactly for blank texts;
- an accepted text is one value followed only by whitespace;
- the stack grows by half its size from 256 bytes;
- concrete texts give their results.

Bytes are `bv8`, and C's `unsigned` is `bv32`. A text is a `seq<byte>`
whose last byte is NUL. A cursor is an index into it.

The C library's `strtod` stays outside the model. A number value keeps its
validated text. Overflow is a parameter `tooBig`, a predicate on the input
from the number's first byte to the end, since `strtod` reads from there.

## Model

| member | source | states |
|---|---|---|
| ParseContext.CapacityBounds | tutorial04/leptjson.c:37-43 | the capacity after a push exceeds the needed bytes and never shrinks; it stays unchanged when the bytes already fit; the first allocation is 256 bytes; growth overshoots the need by at most half |
| ParseContext.GrowFrom | tutorial04/leptjson.c:40-41 | the size the growth loop reaches exceeds the need and is at least the old size |
| ParseContext.Capacity | tutorial04/leptjson.c:37-43 | the capacity after a push exceeds the need, is at least the old capacity and at least the first allocation of 256 bytes |
| ParseContext.GrowFromBounds | tutorial04/leptjson.c:40-41 | repeated growth by half ends above the need and, when the old size was too small, no higher than 1.5 times the need |
| ParseContext.Context.constructor | tutorial04/leptjson.c:248-250 | a fresh context reads the text from its first byte, with an empty, unallocated stack |
| ParseContext.Context.Push | tutorial04/leptjson.c:34-47 | reserves n bytes at the old top and returns that offset; keeps every byte below it; sets the capacity by the growth rule, so that the new top stays strictly below the capacity |
| ParseContext.Context.Pop | tutorial04/leptjson.c:49-52 | lowers top by n and returns the new top; the buffer itself is untouched |
| ParseContext.Context.PutC | tutorial04/leptjson.c:23-26 | the stack contents become the old contents followed by the byte; the capacity follows the growth rule for one more byte, so it never shrinks |
| ParseContext.Context.ParseWhitespace | tutorial04/leptjson.c:54-59 | the cursor lands on the first byte that is not space, tab, newline or carriage return, and the stack is unchanged |
| ParseContext.Context.ParseLiteral | tutorial04/leptjson.c:61-71 | succeeds exactly when the literal is spelled at the cursor; then sets the type and moves past it; on failure returns INVALID_VALUE with the cursor one byte on and the value untouched |
| ParseContext.Context.SkipDigits | tutorial04/leptjson.c:82-83 | the digit loops (also at 89-90 and 98-99) stop at the first byte that is not a digit, where `DigitsEnd` says |
| ParseContext.Context.ScanInt | tutorial04/leptjson.c:77-84 | the integer part: a lone 0, or 1-9 followed by digits; otherwise none |
| ParseContext.Context.ScanFrac | tutorial04/leptjson.c:85-91 | an optional fraction, which needs at least one digit after the dot |
| ParseContext.Context.ScanExp | tutorial04/leptjson.c:92-100 | an optional exponent with an optional sign, which needs at least one digit |
| ParseContext.Context.ScanNumber | tutorial04/leptjson.c:74-100 | the validation loop ends where `NumberEnd` says: the end of the number at the cursor, or none |
| ParseContext.Context.ParseNumber | tutorial04/leptjson.c:73-108 | invalid text gives INVALID_VALUE with nothing moved; an overflowing number gives NUMBER_TOO_BIG with the cursor unmoved; otherwise the value becomes the number spanning the validated text and the cursor moves past it |
| Scanner.SkipWs | tutorial04/leptjson.c:54-59 | the position skipped to holds no whitespace, and every byte skipped is whitespace |
| Scanner.NumberEnd | tutorial04/leptjson.c:74-100 | the end of the number at a position, when there is one, lies after it and before the NUL |
| Scanner.NumberEndSound | tutorial04/leptjson.c:74-100 | every span the scanner accepts is a number of the RFC 8259 grammar |
| Scanner.NumberEndMaximal | tutorial04/leptjson.c:74-100 | no longer span from the same start is a number |
| Scanner.NumberEndComplete | tutorial04/leptjson.c:74-100 | every grammatical number followed by a byte that cannot continue it is found by the scanner |
| Scanner.NumberMissingIntDigit | tutorial04/leptjson.c:80-81 | no digit after the optional minus means no number |
| Scanner.NumberMissingFracDigit | tutorial04/leptjson.c:85-88 | a dot without a digit after it means no number |
| Scanner.NumberMissingExpDigit | tutorial04/leptjson.c:92-97 | an exponent mark with no digit after the optional sign means no number |
| Scanner.NumberLeadingZero | tutorial04/leptjson.c:77-78 | a leading 0 ends the integer part, even when digits follow |
| Unicode.Hex4 | tutorial04/leptjson.c:110-114 | a code unit is read exactly when four hex digits follow and a fifth does not; the unit is at most 0xFFFF |
| Unicode.HexNumberValue | tutorial04/leptjson.c:112 | for up to four digits the shift-and-or accumulation equals the value of the hexadecimal numeral, with nothing lost to 32-bit arithmetic |
| Unicode.Hex4Positional | tutorial04/leptjson.c:110-114 | the code unit of an escape is 0x1000, 0x100, 0x10 and 1 times its four digits, summed |
| Unicode.Combine | tutorial04/leptjson.c:209 | a high and a low surrogate combine into a supplementary code point, U+10000 to U+10FFFF |
| Unicode.CombineArithmetic | tutorial04/leptjson.c:208-209 | the shift-and-or formula equals the arithmetic one that the comment states |
| Unicode.CombineSplit | tutorial04/leptjson.c:209 | every supplementary code point comes from a surrogate pair: splitting it and combining the halves gives it back |
| Unicode.SplitCombine | tutorial04/leptjson.c:209 | splitting the combined code point gives back the two surrogates |
| Unicode.Utf8 | tutorial04/leptjson.c:118-136 | the encoder's bytes for a code point up to U+10FFFF, one to four of them |
| Unicode.Utf8Length | tutorial04/leptjson.c:118-136 | the encoding has 1, 2, 3 or 4 bytes exactly on the ranges up to 0x7F, 0x7FF, 0xFFFF and 0x10FFFF, which is the shortest form |
| Unicode.Utf8Shape | tutorial04/leptjson.c:118-136 | the first byte carries the lead pattern of its length; the others are 10xxxxxx trail bytes |
| Unicode.Utf8BitsRoundTrip | tutorial04/leptjson.c:118-136 | the payload bits of the encoded bytes give back the code point |
| Unicode.Utf8WellFormed | tutorial04/leptjson.c:116-140 | the encoding decodes back to the code point exactly when the code point is not a surrogate |
| Unicode.Utf8Injective | tutorial04/leptjson.c:116-140 | different code points have different encodings |
| ParseContext.Context.EncodeUtf8 | tutorial04/leptjson.c:116-140 | pushes exactly the UTF-8 encoding of the code point |
| StringDecoder.SimpleEscape | tutorial04/leptjson.c:163-187 | `\"`, `\\` and `\/` stand for the escaped byte itself; every other one-character escape stands for a control byte other than NUL; `u` is not among them |
| StringDecoder.UnicodeEscape | tutorial04/leptjson.c:188-210 | a `\u` escape, or a surrogate pair, gives a code point up to U+10FFFF with the cursor moved on and still within the text, or a string error |
| StringDecoder.StringStep | tutorial04/leptjson.c:155-223 | one turn of the loop closes exactly on a quote, after it; otherwise it emits one to four bytes and moves on, or stops with a string error |
| StringDecoder.DecodeString | tutorial04/leptjson.c:154-224 | a decode ends just after a closing quote and before the NUL, or fails with one of the string errors |
| ParseContext.Context.ParseUnicodeEscape | tutorial04/leptjson.c:188-210 | reads a `\u` escape, or a surrogate pair, as `UnicodeEscape` defines it, with the same error for each failure |
| ParseContext.Context.ParseStringStep | tutorial04/leptjson.c:155-223 | one turn of the loop, as `StringStep` defines it: closing quote, escape, NUL, control byte or plain byte; pushes exactly that step's bytes |
| ParseContext.Context.ParseStringBody | tutorial04/leptjson.c:154-224 | the loop pushes exactly the decoded bytes above what was on the stack, and ends after the closing quote; otherwise it returns the decode's error |
| ParseContext.Context.PopString | tutorial04/leptjson.c:158-159 | the bytes above head become the value's string, and top drops back to head |
| ParseContext.Context.ParseString | tutorial04/leptjson.c:148-225 | on success the value is the decoded string and the cursor is past the quote; on error it returns that error with the cursor one byte on and the value untouched; either way the stack is back where it was |
| StringDecoder.DecodeFromAcc | tutorial04/leptjson.c:154-224 | bytes pushed before the loop stay in front, and the outcome does not otherwise depend on them |
| StringDecoder.PlainDecodes | tutorial04/leptjson.c:219-222 | a quoted run of plain bytes decodes to itself, with the cursor after the closing quote |
| StringDecoder.UnterminatedDecodes | tutorial04/leptjson.c:217-218 | plain bytes running into the NUL give MISS_QUOTATION_MARK |
| StringDecoder.StepErrors | tutorial04/leptjson.c:213-221 | NUL gives MISS_QUOTATION_MARK; a control byte gives INVALID_STRING_CHAR; an unknown escape gives INVALID_STRING_ESCAPE |
| StringDecoder.EscapeStep | tutorial04/leptjson.c:163-187 | each of the eight one-byte escapes pushes its byte and moves two bytes on |
| StringDecoder.HexEscapeNeedsFourDigits | tutorial04/leptjson.c:189-191 | a `\u` escape without exactly four hex digits gives INVALID_UNICODE_HEX |
| StringDecoder.FifthHexDigitFails | tutorial04/leptjson.c:110-114 | five hex digits in a row after `\u` give INVALID_UNICODE_HEX |
| StringDecoder.NonHighEscape | tutorial04/leptjson.c:193-211 | a unit outside the high surrogates is taken as it is; a lone low surrogate is accepted, and its encoding is not well-formed UTF-8 |
| StringDecoder.HighSurrogateEscape | tutorial04/leptjson.c:193-210 | a high surrogate needs `\u` and a low surrogate after it, with the error of each failure; the pair gives one code point whose four-byte encoding is well-formed |
| JsonText.LiteralValue | tutorial04/leptjson.c:61-71 | a literal is read exactly when it is spelled at the cursor, giving its value and the cursor past it, before the NUL; otherwise INVALID_VALUE |
| JsonText.ValueAt | tutorial04/leptjson.c:227-242 | a decoded value ends after its first byte and before the NUL; a failure is an error code other than OK and ROOT_NOT_SINGULAR |
| ParseContext.Context.ParseValue | tutorial04/leptjson.c:227-242 | the decoder is chosen by the first byte; the outcome is `ValueAt` of the text; a failure leaves the value's type untouched |
| Parser.Parse | tutorial04/leptjson.c:244-263 | the status and the value are `ParseText` of the input (that the local context's stack is empty again at the end is proved in the body, not stated in the contract) |
| JsonText.ParseText | tutorial04/leptjson.c:253-258 | every failed parse leaves the value null |
| JsonText.ExpectValueIffBlank | tutorial04/leptjson.c:239-240 | EXPECT_VALUE is returned exactly for a text of whitespace only |
| JsonText.SingularRoot | tutorial04/leptjson.c:253-258 | after a value, only whitespace then NUL gives OK with that value; anything else gives ROOT_NOT_SINGULAR and a null value |
| JsonText.ErrorPropagates | tutorial04/leptjson.c:253 | a value that fails to decode fails the whole parse with its own error |
| JsonText.ParsedNumberIsNumber | tutorial04/leptjson.c:73-108 | a parsed number's text is a number of the RFC 8259 grammar |
| JsonText.NumberParses | tutorial04/leptjson.c:73-108 | every RFC 8259 number that does not overflow parses to itself |
| JsonText.PlainStringParses | tutorial04/leptjson.c:148-161 | every quoted text without escapes or control bytes parses to its contents |
| Values.Value.constructor | tutorial04/leptjson.c:251 | a new value is null |
| Values.Value.Free | tutorial04/leptjson.c:265-270 | the value becomes null, and a string's bytes are released |
| Values.Value.GetType | tutorial04/leptjson.c:272-275 | the type is that of the value's view |
| Values.Value.GetBoolean | tutorial04/leptjson.c:277-280 | true exactly when the value is `true`, false exactly when it is `false` |
| Values.Value.SetBoolean | tutorial04/leptjson.c:282-285 | the value becomes the boolean and reads back as it |
| Values.Value.GetNumber | tutorial04/leptjson.c:287-290 | the number the value holds |
| Values.Value.SetNumber | tutorial04/leptjson.c:292-296 | the value becomes the number and reads back as it |
| Values.Value.GetString | tutorial04/leptjson.c:298-301 | the string's bytes followed by a NUL at the stored length |
| Values.Value.GetStringLength | tutorial04/leptjson.c:303-306 | the length is that of the string the value holds |
| Values.Value.SetString | tutorial04/leptjson.c:308-316 | the value becomes a copy of the bytes, NUL-terminated, with their length |
| Strtol.StrtolHex | tutorial04/leptjson.c:112 | the C conversion either stops where it started with value 0, or consumes input short of the NUL |
| Strtol.Hex4AsWritten | tutorial04/leptjson.c:110-114 | the reader as written succeeds only when the conversion ends four bytes on, still before the NUL |
| Strtol.AsWrittenAgrees | tutorial04/leptjson.c:110-114 | on every escape the strict reader accepts, the reader as written gives the same code unit |
| Strtol.AsWrittenExtra | tutorial04/leptjson.c:110-114 | the escapes only the reader as written accepts start with white space, a sign or `0x` |
| Strtol.AsWrittenRange | tutorial04/leptjson.c:110-114 | without a minus sign the reader as written stays within 0xFFFF |
| Strtol.SpacedEscapeAccepted | tutorial04/leptjson.c:110-114 | `\u 123` is rejected by the strict reader and read as U+0123 by the one as written |
| Strtol.NegativeEscapeOutOfRange | tutorial04/leptjson.c:110-138 | `\u-123` is read as 0xFFFFFEDD by the reader as written, which is beyond U+10FFFF and not a surrogate, so the encoder reaches `assert(0)` |
| ParseExamples.NullParses | tutorial04/leptjson.c:233-234 | `null` parses to null |
| ParseExamples.SpacedTrueParses | tutorial04/leptjson.c:252-258 | ` true\n` parses to true |
| ParseExamples.FalseParses | tutorial04/leptjson.c:231-232 | `false` parses to false |
| ParseExamples.BadLiteralsRejected | tutorial04/leptjson.c:65-67 | `nul` and `?` give INVALID_VALUE |
| ParseExamples.BlankInputs | tutorial04/leptjson.c:239-240 | the empty text and ` \t\r` give EXPECT_VALUE |
| ParseExamples.TrailingTextRejected | tutorial04/leptjson.c:255-258 | `null x` gives ROOT_NOT_SINGULAR |
| ParseExamples.LeadingZeroIsNotSingular | tutorial04/leptjson.c:77-78 | `0123` gives ROOT_NOT_SINGULAR |
| ParseExamples.NumberParsesAsText | tutorial04/leptjson.c:73-108 | `-1.5e+3` parses to a number with that text |
| ParseExamples.BadNumbersRejected | tutorial04/leptjson.c:80-97 | `.5`, `1.` and `+1` give INVALID_VALUE |
| ParseExamples.HugeNumberRejected | tutorial04/leptjson.c:101-104 | `1e309` gives NUMBER_TOO_BIG when the conversion overflows |
| ParseExamples.EscapedNewlineParses | tutorial04/leptjson.c:179-180 | `"a\n"` decodes to `a` and a newline |
| ParseExamples.OneByteEscapeParses | tutorial04/leptjson.c:118-119 | `"\u0024"` decodes to the one byte 0x24 |
| ParseExamples.ThreeByteEscapeParses | tutorial04/leptjson.c:128-131 | `"\u20AC"` decodes to E2 82 AC |
| ParseExamples.SurrogatePairParses | tutorial04/leptjson.c:193-211 | `"\uD834\uDD1E"` decodes to F0 9D 84 9E |
| ParseExamples.LoneLowSurrogateParses | tutorial04/leptjson.c:193-211 | `"\uDC00"` is accepted as ED B0 80 |
| ParseExamples.UnterminatedStringRejected | tutorial04/leptjson.c:217-218 | `"ab` gives MISS_QUOTATION_MARK |
| ParseExamples.BadStringBytesRejected | tutorial04/leptjson.c:213-221 | `"\v"` gives INVALID_STRING_ESCAPE and a raw 0x01 gives INVALID_STRING_CHAR |
| ParseExamples.SpacedEscapeRejected | tutorial04/leptjson.c:189-190 | `"\u 123"` gives INVALID_UNICODE_HEX under the strict reader |
| ParseExamples.LoneHighSurrogateRejected | tutorial04/leptjson.c:195-196 | `"\uD800"` followed by the closing quote gives INVALID_UNICODE_SURROGATE |

## Left out

- `strtod` and `HUGE_VAL` are C library code. A number value holds its validated text, not a `double`. Overflow (`ERANGE`) is the parameter `tooBig`.
- Values.Value.GetNumber: returns the number's text, not the `double` that `strtod` would produce.
- The C union of `u.n` and `u.s` is two separate fields. A number kept in `n` is not overwritten when a string is set.
- `size_t` is unbounded, so stack growth and lengths do not model overflow.
- Heap failure is not modelled: `malloc` and `realloc` always succeed. Heap ownership is not modelled either. `Value.Free` only drops the bytes.
- `lept_init` at the start of `lept_parse` sets the type to null without freeing. Setting `type` to null on `ROOT_NOT_SINGULAR` does the same. With a string value, both leak the string in C. The model only resets the type.
- The `assert(v != NULL)` checks have no counterpart, because a Dafny reference is never null.
- ParseContext.Context.EncodeUtf8: requires `u <= 0x10FFFF` in place of the `assert(0)` branch. The model's decoder, which reads `\u` escapes with the strict Unicode.Hex4, never passes a larger value; the C decoder does, through `strtol` (see Findings).
- ParseContext.Context.ParseUnicodeEscape: reads escapes with Unicode.Hex4 rather than `strtol`, so it rejects the `\u 123`, `\u+123`, `\u0x12` and `\u-123` forms that `lept_parse` accepts. Strtol.Hex4AsWritten models the code as written (see Findings).
- The `assert(*c->json == ch)` of `EXPECT` is a precondition of ParseLiteral and ParseString.
- The assertion `c.top == 0` in `lept_parse` is proved, not checked at run time.
- Some C functions are split into several methods: number scanning into ScanInt, ScanFrac, ScanExp and ScanNumber; string parsing into ParseStringStep, ParseStringBody and PopString; and ParseUnicodeEscape. These methods keep the C code's order of reads and pushes.
- Strtol.StrtolHex: does not model the clamp to `LONG_MAX` on overflow. That clamp cannot arise when the conversion ends four bytes on.
- The Windows leak-detection macros, the header `leptjson.h` and the test program are not part of this model.
- A difference from RFC 8259 that the code has, and the model follows: a fifth hex digit straight after a `\u` escape makes the escape fail, while RFC 8259 reads it as a plain character.
- Behaviour of the code worth noting, which the model follows:
  - `0123` is rejected with ROOT_NOT_SINGULAR, not INVALID_VALUE, because the number ends after the `0`;
  - a lone low surrogate `\uDC00` is accepted, and produces the bytes ED B0 80, which are not well-formed UTF-8 in the sense of RFC 3629.

## Findings

| source | as written | input that shows it | evidently intended | confidence | as-written member | corrected member |
|---|---|---|---|---|---|---|
| tutorial04/leptjson.c:110-114 | `lept_parse_hex4` accepts whatever `strtol(p, &end, 16)` converts in exactly four bytes. That includes leading white space, a sign and a `0x` prefix | `"\u 123"` is accepted as U+0123. `"\u-123"` yields 0xFFFFFEDD, which is beyond U+10FFFF, so `lept_encode_utf8` reaches `assert(0)` at line 138 | exactly four hex digits, giving a code unit of 0xFFFF at most | not executed | Strtol.Hex4AsWritten, Strtol.SpacedEscapeAccepted, Strtol.NegativeEscapeOutOfRange | Unicode.Hex4, Strtol.AsWrittenAgrees, ParseExamples.SpacedEscapeRejected |
