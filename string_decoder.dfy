/** What the string decoder computes, as functions of the input: one step
    per turn of its loop, and the whole decode as the repetition of steps
    up to the closing quote or the first error (RFC 8259 section 7). */
module StringDecoder {
  import opened LeptTypes
  import opened Unicode

  const LETTER_U: byte := 0x75  // u

  /** The byte a one-character escape stands for: \" \\ \/ \b \f \n \r \t. */
  function SimpleEscape(e: byte): (r: Option<byte>)
    ensures e == QUOTE || e == BACKSLASH || e == SLASH ==> r == Some(e)
    ensures r.Some? ==> r.value == e || (NUL < r.value < 0x20)
    ensures r.Some? ==> e != LETTER_U
  {
    if e == QUOTE then Some(QUOTE)
    else if e == BACKSLASH then Some(BACKSLASH)
    else if e == SLASH then Some(SLASH)
    else if e == 0x62 then Some(0x08)  // \b backspace
    else if e == 0x66 then Some(0x0C)  // \f form feed
    else if e == 0x6E then Some(0x0A)  // \n newline
    else if e == 0x72 then Some(0x0D)  // \r carriage return
    else if e == 0x74 then Some(0x09)  // \t tab
    else None
  }

  /** One turn of the decoder's loop: the closing quote with the cursor
      after it, some bytes to push with the cursor after what produced
      them, or an error. */
  datatype Step = Close(next: nat) | Emit(bytes: seq<byte>, next: nat) | Stop(error: Status)

  predicate IsStringError(e: Status)
  {
    e == MissQuotationMark || e == InvalidStringEscape || e == InvalidStringChar ||
    e == InvalidUnicodeHex || e == InvalidUnicodeSurrogate
  }

  /** What a `\u` escape stands for: a code point and the cursor after the
      escape (after both halves of a surrogate pair), or an error. */
  datatype Escape = CodePoint(u: unsigned, next: nat) | Bad(error: Status)

  /** A `\u` escape whose hex digits start at `q`. */
  function UnicodeEscape(s: seq<byte>, q: nat): (r: Escape)
    requires IsInput(s) && q < |s|
    ensures r.CodePoint? ==> q < r.next < |s| && r.u <= 0x10FFFF
    ensures r.Bad? ==> IsStringError(r.error)
  {
    match Hex4(s, q)
    case None => Bad(InvalidUnicodeHex)
    case Some(u) =>
      if IsHighSurrogate(u) then
        if s[q + 4] != BACKSLASH then Bad(InvalidUnicodeSurrogate)
        else if s[q + 5] != LETTER_U then Bad(InvalidUnicodeSurrogate)
        else
          match Hex4(s, q + 6)
          case None => Bad(InvalidUnicodeHex)
          case Some(low) =>
            if !IsLowSurrogate(low) then Bad(InvalidUnicodeSurrogate)
            else CodePoint(Combine(u, low), q + 10)
      else CodePoint(u, q + 4)
  }

  /** The turn of the loop that reads the byte at `p`. It never moves the
      cursor past the terminating NUL. */
  function StringStep(s: seq<byte>, p: nat): (r: Step)
    requires IsInput(s) && p < |s|
    ensures r.Close? <==> s[p] == QUOTE
    ensures r.Close? ==> r.next == p + 1 < |s|
    ensures r.Emit? ==> p < r.next < |s| && 1 <= |r.bytes| <= 4
    ensures r.Stop? ==> IsStringError(r.error)
  {
    var ch := s[p];
    if ch == QUOTE then Close(p + 1)
    else if ch == BACKSLASH then
      var e := s[p + 1];
      match SimpleEscape(e)
      case Some(b) => Emit([b], p + 2)
      case None =>
        if e == LETTER_U then
          match UnicodeEscape(s, p + 2)
          case CodePoint(u, q) => Emit(Utf8(u), q)
          case Bad(err) => Stop(err)
        else Stop(InvalidStringEscape)
    else if ch == NUL then Stop(MissQuotationMark)
    else if ch < 0x20 then Stop(InvalidStringChar)
    else Emit([ch], p + 1)
  }

  /** The outcome of decoding a string body. */
  datatype StringResult = Decoded(bytes: seq<byte>, end: nat) | Failed(error: Status)

  /** Decoding from `p` when `acc` has been pushed so far. */
  function DecodeFrom(s: seq<byte>, p: nat, acc: seq<byte>): (r: StringResult)
    requires IsInput(s) && p < |s|
    ensures r.Decoded? ==> p < r.end < |s| && s[r.end - 1] == QUOTE
    ensures r.Failed? ==> IsStringError(r.error)
    decreases |s| - p
  {
    match StringStep(s, p)
    case Close(q) => Decoded(acc, q)
    case Emit(b, q) => DecodeFrom(s, q, acc + b)
    case Stop(e) => Failed(e)
  }

  /** Decoding the string body that starts at `p`, just after the opening quote. */
  function DecodeString(s: seq<byte>, p: nat): (r: StringResult)
    requires IsInput(s) && p < |s|
    ensures r.Decoded? ==> p < r.end < |s| && s[r.end - 1] == QUOTE
    ensures r.Failed? ==> IsStringError(r.error)
  {
    DecodeFrom(s, p, [])
  }

  /** The bytes pushed before `p` are kept in front of whatever follows, and
      the outcome does not depend on them otherwise. */
  lemma {:induction false} DecodeFromAcc(s: seq<byte>, p: nat, acc: seq<byte>)
    requires IsInput(s) && p < |s|
    ensures DecodeFrom(s, p, acc) ==
            match DecodeString(s, p)
            case Decoded(b, e) => Decoded(acc + b, e)
            case Failed(e) => Failed(e)
    decreases |s| - p
  {
    match StringStep(s, p)
    case Close(q) =>
    case Stop(e) =>
    case Emit(b, q) =>
      assert [] + b == b;
      assert DecodeString(s, p) == DecodeFrom(s, q, b);
      DecodeFromAcc(s, q, acc + b);
      DecodeFromAcc(s, q, b);
      match DecodeString(s, q)
      case Failed(e) =>
      case Decoded(x, e) =>
        assert acc + b + x == acc + (b + x);
  }

  /** A byte that stands for itself inside a string: not a quote, not a
      backslash, not a control character. */
  predicate IsPlain(b: byte)
  {
    b != QUOTE && b != BACKSLASH && b >= 0x20
  }

  /** A plain byte is pushed as it is. */
  lemma PlainStep(s: seq<byte>, p: nat)
    requires IsInput(s) && p < |s| && IsPlain(s[p])
    ensures StringStep(s, p) == Emit([s[p]], p + 1)
  {
  }

  /** A quoted text without escapes decodes to itself, and the cursor ends
      just after the closing quote. */
  lemma {:induction false} PlainDecodes(s: seq<byte>, p: nat, n: nat)
    requires IsInput(s) && p + n < |s| && s[p + n] == QUOTE
    requires forall k :: p <= k < p + n ==> IsPlain(s[k])
    ensures DecodeString(s, p) == Decoded(s[p..p + n], p + n + 1)
    decreases n
  {
    if n > 0 {
      PlainStep(s, p);
      assert [] + [s[p]] == [s[p]];
      assert DecodeString(s, p) == DecodeFrom(s, p + 1, [s[p]]);
      PlainDecodes(s, p + 1, n - 1);
      DecodeFromAcc(s, p + 1, [s[p]]);
      assert DecodeFrom(s, p + 1, [s[p]]) == Decoded([s[p]] + s[p + 1..p + n], p + n + 1);
      assert [s[p]] + s[p + 1..p + n] == s[p..p + n];
    }
  }

  /** A text that runs into the terminating NUL without a closing quote is
      reported as a missing quotation mark. */
  lemma {:induction false} UnterminatedDecodes(s: seq<byte>, p: nat)
    requires IsInput(s) && p < |s|
    requires forall k :: p <= k < |s| - 1 ==> IsPlain(s[k])
    ensures DecodeString(s, p) == Failed(MissQuotationMark)
    decreases |s| - p
  {
    if p < |s| - 1 {
      PlainStep(s, p);
      assert [] + [s[p]] == [s[p]];
      assert DecodeString(s, p) == DecodeFrom(s, p + 1, [s[p]]);
      UnterminatedDecodes(s, p + 1);
      DecodeFromAcc(s, p + 1, [s[p]]);
    }
  }

  /** The errors of a single byte: the NUL terminator, an unescaped control
      character, and a backslash before a byte outside the escape table. */
  lemma StepErrors(s: seq<byte>, p: nat)
    requires IsInput(s) && p < |s|
    ensures s[p] == NUL ==> DecodeString(s, p) == Failed(MissQuotationMark)
    ensures 0 < s[p] < 0x20 ==> DecodeString(s, p) == Failed(InvalidStringChar)
    ensures s[p] == BACKSLASH && SimpleEscape(s[p + 1]).None? && s[p + 1] != LETTER_U ==>
              DecodeString(s, p) == Failed(InvalidStringEscape)
  {
  }

  /** Every escape of the table pushes its one byte. */
  lemma EscapeStep(s: seq<byte>, p: nat)
    requires IsInput(s) && p + 1 < |s| && s[p] == BACKSLASH && SimpleEscape(s[p + 1]).Some?
    ensures StringStep(s, p) == Emit([SimpleEscape(s[p + 1]).value], p + 2)
  {
  }

  /** A `\u` escape is accepted only when exactly four hex digits follow. */
  lemma HexEscapeNeedsFourDigits(s: seq<byte>, q: nat)
    requires IsInput(s) && q < |s|
    requires Hex4(s, q).None?
    ensures UnicodeEscape(s, q) == Bad(InvalidUnicodeHex)
  {
  }

  /** A fifth hex digit right after the four makes the escape fail. */
  lemma FifthHexDigitFails(s: seq<byte>, q: nat)
    requires IsInput(s) && q + 4 < |s| && forall k :: q <= k <= q + 4 ==> IsHexDigit(s[k])
    ensures UnicodeEscape(s, q) == Bad(InvalidUnicodeHex)
  {
  }

  /** A code unit outside the high surrogates is taken as it is, including
      a lone low surrogate, whose encoding is ill-formed UTF-8. */
  lemma NonHighEscape(s: seq<byte>, q: nat)
    requires IsInput(s) && q < |s| && Hex4(s, q).Some? && !IsHighSurrogate(Hex4(s, q).value)
    ensures UnicodeEscape(s, q) == CodePoint(Hex4(s, q).value, q + 4)
    ensures IsLowSurrogate(Hex4(s, q).value) ==> Utf8Decode(Utf8(Hex4(s, q).value)) == None
  {
    Utf8WellFormed(Hex4(s, q).value);
  }

  /** A high surrogate must be followed by `\u` and a low surrogate; the
      pair stands for one supplementary code point, whose encoding is four
      bytes of well-formed UTF-8. */
  lemma HighSurrogateEscape(s: seq<byte>, q: nat)
    requires IsInput(s) && q < |s| && Hex4(s, q).Some? && IsHighSurrogate(Hex4(s, q).value)
    ensures s[q + 4] != BACKSLASH ==> UnicodeEscape(s, q) == Bad(InvalidUnicodeSurrogate)
    ensures s[q + 4] == BACKSLASH && s[q + 5] != LETTER_U ==>
              UnicodeEscape(s, q) == Bad(InvalidUnicodeSurrogate)
    ensures s[q + 4] == BACKSLASH && s[q + 5] == LETTER_U && Hex4(s, q + 6).None? ==>
              UnicodeEscape(s, q) == Bad(InvalidUnicodeHex)
    ensures s[q + 4] == BACKSLASH && s[q + 5] == LETTER_U && Hex4(s, q + 6).Some? ==>
              var low := Hex4(s, q + 6).value;
              if IsLowSurrogate(low) then
                var u := Combine(Hex4(s, q).value, low);
                UnicodeEscape(s, q) == CodePoint(u, q + 10) &&
                |Utf8(u)| == 4 && Utf8Decode(Utf8(u)) == Some(u)
              else UnicodeEscape(s, q) == Bad(InvalidUnicodeSurrogate)
  {
    if s[q + 4] == BACKSLASH && s[q + 5] == LETTER_U && Hex4(s, q + 6).Some? {
      var low := Hex4(s, q + 6).value;
      if IsLowSurrogate(low) {
        Utf8WellFormed(Combine(Hex4(s, q).value, low));
        Utf8Length(Combine(Hex4(s, q).value, low));
      }
    }
  }
}
