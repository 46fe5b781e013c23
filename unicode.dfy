/** The pieces of the string decoder that deal with code points: the
    four-digit hex reader of `\uXXXX` escapes, the combination of a UTF-16
    surrogate pair (RFC 2781 section 2.2) and the UTF-8 encoder (RFC 3629
    section 3). All computations are on the C `unsigned` type, bv32. */
module Unicode {
  import opened LeptTypes

  // ---------------------------------------------------------------------
  // The hex reader

  predicate IsHexDigit(b: byte)
  {
    (0x30 <= b <= 0x39) || (0x41 <= b <= 0x46) || (0x61 <= b <= 0x66)  // 0-9, A-F, a-f
  }

  function HexDigitValue(b: byte): (d: unsigned)
    requires IsHexDigit(b)
    ensures d < 16
  {
    if b <= 0x39 then (b - 0x30) as unsigned
    else if b <= 0x46 then (b - 0x41 + 10) as unsigned
    else (b - 0x61 + 10) as unsigned
  }

  /** The number of hex digits in the run starting at `p`: the reader is
      greedy and looks at every hex digit that follows. */
  function HexRun(s: seq<byte>, p: nat): (n: nat)
    requires IsInput(s) && p < |s|
    ensures p + n < |s| && !IsHexDigit(s[p + n])
    ensures forall k :: p <= k < p + n ==> IsHexDigit(s[k])
    decreases |s| - p
  {
    if IsHexDigit(s[p]) then 1 + HexRun(s, p + 1) else 0
  }

  /** The value of the hex digits `s[k..e]`, most significant first, each
      digit shifted in below the ones before it, as `strtol` accumulates
      them; arithmetic is modulo 2^32, as the cast to `unsigned` makes it. */
  function HexNumber(s: seq<byte>, k: nat, e: nat): (r: unsigned)
    requires k <= e <= |s| && forall i :: k <= i < e ==> IsHexDigit(s[i])
    ensures e - k <= 1 ==> r <= 0xF
    ensures e - k <= 2 ==> r <= 0xFF
    ensures e - k <= 3 ==> r <= 0xFFF
    ensures e - k <= 4 ==> r <= 0xFFFF
    decreases e - k
  {
    if e == k then 0 else (HexNumber(s, k, e - 1) << 4) | HexDigitValue(s[e - 1])
  }

  /** The hex reader of a `\u` escape at `p` (just after the `u`): it
      succeeds exactly when four hex digits follow and no fifth one does,
      and then yields their value, at most 0xFFFF. */
  function Hex4(s: seq<byte>, p: nat): (r: Option<unsigned>)
    requires IsInput(s) && p < |s|
    ensures r.Some? <==>
              p + 4 < |s| && (forall k :: p <= k < p + 4 ==> IsHexDigit(s[k])) && !IsHexDigit(s[p + 4])
    ensures r.Some? ==> r.value <= 0xFFFF
  {
    if HexRun(s, p) == 4 then Some(HexNumber(s, p, p + 4)) else None
  }

  /** The value of the hexadecimal numeral `s[k..e]`, as an integer. */
  function HexValue(s: seq<byte>, k: nat, e: nat): nat
    requires k <= e <= |s| && forall i :: k <= i < e ==> IsHexDigit(s[i])
    decreases e - k
  {
    if e == k then 0 else HexValue(s, k, e - 1) * 16 + HexDigitValue(s[e - 1]) as int
  }

  /** Shifting a digit in below at most three digits multiplies by 16 and adds it. */
  lemma ShiftDigit(x: unsigned, d: unsigned)
    requires x <= 0xFFF && d < 16
    ensures ((x << 4) | d) as int == x as int * 16 + d as int
  {
  }

  /** One more digit, read as integers. */
  lemma HexNumberShift(s: seq<byte>, k: nat, e: nat)
    requires k < e <= |s| && e - k <= 4 && forall i :: k <= i < e ==> IsHexDigit(s[i])
    ensures HexNumber(s, k, e) as int == HexNumber(s, k, e - 1) as int * 16 + HexDigitValue(s[e - 1]) as int
  {
    var x, d := HexNumber(s, k, e - 1), HexDigitValue(s[e - 1]);
    assert HexNumber(s, k, e) == (x << 4) | d;
    ShiftDigit(x, d);
  }

  /** Up to four digits, the bitwise accumulation is the numeral's value:
      nothing is lost to the 32-bit arithmetic. */
  lemma {:induction false} HexNumberValue(s: seq<byte>, k: nat, e: nat)
    requires k <= e <= |s| && e - k <= 4 && forall i :: k <= i < e ==> IsHexDigit(s[i])
    ensures HexNumber(s, k, e) as int == HexValue(s, k, e)
    decreases e - k
  {
    if e > k {
      HexNumberValue(s, k, e - 1);
      HexNumberShift(s, k, e);
    }
  }

  /** A four-digit numeral, digit by digit. */
  lemma HexValue4(s: seq<byte>, p: nat)
    requires p + 4 <= |s| && forall i :: p <= i < p + 4 ==> IsHexDigit(s[i])
    ensures HexValue(s, p, p + 4) == 0x1000 * HexDigitValue(s[p]) as int + 0x100 * HexDigitValue(s[p + 1]) as int +
                                     0x10 * HexDigitValue(s[p + 2]) as int + HexDigitValue(s[p + 3]) as int
  {
    var d0, d1, d2, d3 := HexDigitValue(s[p]) as int, HexDigitValue(s[p + 1]) as int,
                          HexDigitValue(s[p + 2]) as int, HexDigitValue(s[p + 3]) as int;
    assert HexValue(s, p, p + 1) == d0;
    assert HexValue(s, p, p + 2) == 16 * d0 + d1;
    assert HexValue(s, p, p + 3) == 16 * (16 * d0 + d1) + d2;
    assert HexValue(s, p, p + 4) == 16 * (16 * (16 * d0 + d1) + d2) + d3;
  }

  /** The code unit of an escape is the positional value of its four digits. */
  lemma Hex4Positional(s: seq<byte>, p: nat)
    requires IsInput(s) && p < |s| && Hex4(s, p).Some?
    ensures Hex4(s, p).value as int ==
              0x1000 * HexDigitValue(s[p]) as int + 0x100 * HexDigitValue(s[p + 1]) as int +
              0x10 * HexDigitValue(s[p + 2]) as int + HexDigitValue(s[p + 3]) as int
  {
    assert HexRun(s, p) == 4;
    HexNumberValue(s, p, p + 4);
    HexValue4(s, p);
  }

  // ---------------------------------------------------------------------
  // Surrogate pairs, RFC 2781

  predicate IsHighSurrogate(u: unsigned) { 0xD800 <= u <= 0xDBFF }

  predicate IsLowSurrogate(u: unsigned) { 0xDC00 <= u <= 0xDFFF }

  predicate IsSurrogate(u: unsigned) { 0xD800 <= u <= 0xDFFF }

  /** The code point of a surrogate pair, by the decoder's bitwise formula. */
  function Combine(high: unsigned, low: unsigned): (u: unsigned)
    requires IsHighSurrogate(high) && IsLowSurrogate(low)
    ensures 0x10000 <= u <= 0x10FFFF
  {
    (((high - 0xD800) << 10) | (low - 0xDC00)) + 0x10000
  }

  /** The bitwise formula is the arithmetic one of RFC 2781 section 2.2. */
  lemma CombineArithmetic(high: unsigned, low: unsigned)
    requires IsHighSurrogate(high) && IsLowSurrogate(low)
    ensures Combine(high, low) == 0x10000 + (high - 0xD800) * 0x400 + (low - 0xDC00)
  {
  }

  /** The surrogate pair of a supplementary code point (RFC 2781 section 2.1). */
  function Split(u: unsigned): (pair: (unsigned, unsigned))
    requires 0x10000 <= u <= 0x10FFFF
    ensures IsHighSurrogate(pair.0) && IsLowSurrogate(pair.1)
  {
    var v := u - 0x10000;
    (0xD800 | (v >> 10), 0xDC00 | (v & 0x3FF))
  }

  /** Every supplementary code point comes from a surrogate pair: splitting
      it and combining the halves gives it back. With SplitCombine, the
      pair is unique. */
  lemma CombineSplit(u: unsigned)
    requires 0x10000 <= u <= 0x10FFFF
    ensures Combine(Split(u).0, Split(u).1) == u
  {
  }

  lemma SplitCombine(high: unsigned, low: unsigned)
    requires IsHighSurrogate(high) && IsLowSurrogate(low)
    ensures Split(Combine(high, low)) == (high, low)
  {
  }

  // ---------------------------------------------------------------------
  // The UTF-8 encoder, RFC 3629 section 3

  /** C's conversion of an `unsigned` to `char`: the low eight bits. */
  function Char(x: unsigned): byte
  {
    (x & 0xFF) as byte
  }

  /** A lead byte: the length marker `tag` or'ed with the high bits of `u`. */
  function Lead(u: unsigned, tag: unsigned, shift: nat): byte
    requires shift <= 18
  {
    Char(tag | ((u >> shift) & 0xFF))
  }

  /** A continuation byte: 10 followed by six bits of `u`. */
  function Trail(u: unsigned, shift: nat): byte
    requires shift <= 12
  {
    Char(0x80 | ((u >> shift) & 0x3F))
  }

  /** The bytes the encoder pushes for the code point `u`. */
  function Utf8(u: unsigned): (r: seq<byte>)
    requires u <= 0x10FFFF
    ensures 1 <= |r| <= 4
  {
    if u <= 0x7F then [Lead(u, 0, 0)]
    else if u <= 0x7FF then [Lead(u, 0xC0, 6), Trail(u, 0)]
    else if u <= 0xFFFF then [Lead(u, 0xE0, 12), Trail(u, 6), Trail(u, 0)]
    else [Lead(u, 0xF0, 18), Trail(u, 12), Trail(u, 6), Trail(u, 0)]
  }

  /** The encoder's bytes, range by range. */
  lemma Utf8Cases(u: unsigned)
    requires u <= 0x10FFFF
    ensures u <= 0x7F ==> Utf8(u) == [Lead(u, 0, 0)]
    ensures 0x7F < u <= 0x7FF ==> Utf8(u) == [Lead(u, 0xC0, 6), Trail(u, 0)]
    ensures 0x7FF < u <= 0xFFFF ==> Utf8(u) == [Lead(u, 0xE0, 12), Trail(u, 6), Trail(u, 0)]
    ensures 0xFFFF < u ==> Utf8(u) == [Lead(u, 0xF0, 18), Trail(u, 12), Trail(u, 6), Trail(u, 0)]
  {
  }

  predicate IsTrail(b: byte) { b & 0xC0 == 0x80 }

  /** The lead byte pattern of an `n`-byte sequence: 0xxxxxxx, 110xxxxx, 1110xxxx or 11110xxx. */
  predicate IsLeadOf(n: nat, b: byte)
  {
    (n == 1 && b & 0x80 == 0x00) || (n == 2 && b & 0xE0 == 0xC0) ||
    (n == 3 && b & 0xF0 == 0xE0) || (n == 4 && b & 0xF8 == 0xF0)
  }

  /** The bits a UTF-8 sequence carries, read back from its lead and
      continuation bytes; None when the byte patterns are wrong. */
  function Utf8Bits(b: seq<byte>): Option<unsigned>
  {
    if |b| == 1 && IsLeadOf(1, b[0]) then Some(b[0] as unsigned)
    else if |b| == 2 && IsLeadOf(2, b[0]) && IsTrail(b[1]) then
      Some(((b[0] & 0x1F) as unsigned << 6) | (b[1] & 0x3F) as unsigned)
    else if |b| == 3 && IsLeadOf(3, b[0]) && IsTrail(b[1]) && IsTrail(b[2]) then
      Some(((b[0] & 0x0F) as unsigned << 12) | ((b[1] & 0x3F) as unsigned << 6) | (b[2] & 0x3F) as unsigned)
    else if |b| == 4 && IsLeadOf(4, b[0]) && IsTrail(b[1]) && IsTrail(b[2]) && IsTrail(b[3]) then
      Some(((b[0] & 0x07) as unsigned << 18) | ((b[1] & 0x3F) as unsigned << 12) |
           ((b[2] & 0x3F) as unsigned << 6) | (b[3] & 0x3F) as unsigned)
    else None
  }

  /** The shortest length that can carry `u`. */
  function MinLength(u: unsigned): nat
  {
    if u <= 0x7F then 1 else if u <= 0x7FF then 2 else if u <= 0xFFFF then 3 else 4
  }

  /** A decoder of well-formed UTF-8 sequences in the sense of RFC 3629:
      right byte patterns, shortest form, a scalar value (no surrogate) and
      at most 0x10FFFF. */
  function Utf8Decode(b: seq<byte>): Option<unsigned>
  {
    match Utf8Bits(b)
    case None => None
    case Some(u) =>
      if |b| == MinLength(u) && u <= 0x10FFFF && !IsSurrogate(u) then Some(u) else None
  }

  /** The encoder picks the length by the four ranges, and no other. */
  lemma Utf8Length(u: unsigned)
    requires u <= 0x10FFFF
    ensures |Utf8(u)| == 1 <==> u <= 0x7F
    ensures |Utf8(u)| == 2 <==> 0x80 <= u <= 0x7FF
    ensures |Utf8(u)| == 3 <==> 0x800 <= u <= 0xFFFF
    ensures |Utf8(u)| == 4 <==> 0x10000 <= u
    ensures |Utf8(u)| == MinLength(u)
  {
  }

  /** The lead byte announces the length and every later byte is 10xxxxxx. */
  lemma Utf8Shape(u: unsigned)
    requires u <= 0x10FFFF
    ensures IsLeadOf(|Utf8(u)|, Utf8(u)[0])
    ensures forall k :: 1 <= k < |Utf8(u)| ==> IsTrail(Utf8(u)[k])
  {
  }

  lemma Utf8BitsRoundTrip2(u: unsigned)
    requires 0x80 <= u <= 0x7FF
    ensures Utf8Bits([Lead(u, 0xC0, 6), Trail(u, 0)]) == Some(u)
  {
  }

  lemma Utf8BitsRoundTrip3(u: unsigned)
    requires 0x800 <= u <= 0xFFFF
    ensures Utf8Bits([Lead(u, 0xE0, 12), Trail(u, 6), Trail(u, 0)]) == Some(u)
  {
  }

  /** A continuation byte carries six bits of `u`. */
  lemma TrailPayload(u: unsigned, shift: nat)
    requires shift <= 12
    ensures IsTrail(Trail(u, shift))
    ensures (Trail(u, shift) & 0x3F) as unsigned == (u >> shift) & 0x3F
  {
  }

  /** Above U+FFFF the bits from 18 up are at most 4 (U+10FFFF >> 18). */
  lemma HighBits(u: unsigned)
    requires u <= 0x10FFFF
    ensures u >> 18 <= 4
  {
  }

  /** A four-byte lead byte carries the top three bits. */
  lemma Lead4Payload(h: unsigned)
    requires h <= 4
    ensures IsLeadOf(4, Char(0xF0 | (h & 0xFF)))
    ensures (Char(0xF0 | (h & 0xFF)) & 0x07) as unsigned == h
  {
  }

  /** The lead byte of a four-byte sequence carries the bits from 18 up. */
  lemma Lead4Bits(u: unsigned)
    requires 0x10000 <= u <= 0x10FFFF
    ensures IsLeadOf(4, Lead(u, 0xF0, 18))
    ensures (Lead(u, 0xF0, 18) & 0x07) as unsigned == u >> 18
  {
    HighBits(u);
    Lead4Payload(u >> 18);
  }

  /** Three bits and three times six bits put back together give `u`. */
  lemma Join4(u: unsigned)
    requires u <= 0x10FFFF
    ensures ((u >> 18) << 18) | (((u >> 12) & 0x3F) << 12) | (((u >> 6) & 0x3F) << 6) | (u & 0x3F) == u
  {
  }

  lemma Utf8BitsRoundTrip4(u: unsigned)
    requires 0x10000 <= u <= 0x10FFFF
    ensures Utf8Bits([Lead(u, 0xF0, 18), Trail(u, 12), Trail(u, 6), Trail(u, 0)]) == Some(u)
  {
    Lead4Bits(u);
    TrailPayload(u, 12);
    TrailPayload(u, 6);
    TrailPayload(u, 0);
    Join4(u);
  }

  /** Reading the bits back from the encoder's bytes gives `u`. */
  lemma Utf8BitsRoundTrip(u: unsigned)
    requires u <= 0x10FFFF
    ensures Utf8Bits(Utf8(u)) == Some(u)
  {
    if u <= 0x7F {
    } else if u <= 0x7FF {
      Utf8BitsRoundTrip2(u);
    } else if u <= 0xFFFF {
      Utf8BitsRoundTrip3(u);
    } else {
      Utf8BitsRoundTrip4(u);
    }
  }

  /** The encoder's bytes are well-formed UTF-8 exactly when `u` is not a
      surrogate; a lone surrogate comes out as an ill-formed three-byte sequence. */
  lemma Utf8WellFormed(u: unsigned)
    requires u <= 0x10FFFF
    ensures Utf8Decode(Utf8(u)) == Some(u) <==> !IsSurrogate(u)
    ensures IsSurrogate(u) ==> |Utf8(u)| == 3 && Utf8Decode(Utf8(u)) == None
  {
    Utf8BitsRoundTrip(u);
    Utf8Length(u);
  }

  /** Distinct code points never share an encoding. */
  lemma Utf8Injective(u: unsigned, w: unsigned)
    requires u <= 0x10FFFF && w <= 0x10FFFF && Utf8(u) == Utf8(w)
    ensures u == w
  {
    Utf8BitsRoundTrip(u);
    Utf8BitsRoundTrip(w);
  }
}
