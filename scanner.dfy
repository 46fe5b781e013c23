/** The scalar grammar validators: whitespace, the three literals and the
    number grammar of RFC 8259 section 6, as functions of the input and a
    cursor index. The cursor methods of ParseContext follow these. */
module Scanner {
  import opened LeptTypes

  predicate IsWs(b: byte)
  {
    b == 0x20 || b == 0x09 || b == 0x0A || b == 0x0D  // space, \t, \n, \r
  }

  predicate IsDigit(b: byte) { 0x30 <= b <= 0x39 }  // '0'..'9'

  predicate IsDigit1To9(b: byte) { 0x31 <= b <= 0x39 }  // '1'..'9'

  predicate IsExpMark(b: byte) { b == 0x65 || b == 0x45 }  // 'e', 'E'

  predicate IsSign(b: byte) { b == PLUS || b == MINUS }

  /** Where a run of whitespace starting at `i` ends. */
  function SkipWs(s: seq<byte>, i: nat): (j: nat)
    requires IsInput(s) && i < |s|
    ensures i <= j < |s| && !IsWs(s[j])
    ensures forall k :: i <= k < j ==> IsWs(s[k])
    decreases |s| - i
  {
    if IsWs(s[i]) then SkipWs(s, i + 1) else i
  }

  /** Where a run of decimal digits starting at `i` ends. */
  function DigitsEnd(s: seq<byte>, i: nat): (j: nat)
    requires IsInput(s) && i < |s|
    ensures i <= j < |s| && !IsDigit(s[j])
    ensures forall k :: i <= k < j ==> IsDigit(s[k])
    decreases |s| - i
  {
    if IsDigit(s[i]) then DigitsEnd(s, i + 1) else i
  }

  /** The input spells `lit` starting at `i`. */
  predicate LiteralAt(s: seq<byte>, i: nat, lit: seq<byte>)
  {
    i + |lit| <= |s| && s[i..i + |lit|] == lit
  }

  const TRUE_TEXT: seq<byte> := [0x74, 0x72, 0x75, 0x65]          // "true"
  const FALSE_TEXT: seq<byte> := [0x66, 0x61, 0x6C, 0x73, 0x65]   // "false"
  const NULL_TEXT: seq<byte> := [0x6E, 0x75, 0x6C, 0x6C]          // "null"

  // ---------------------------------------------------------------------
  // The number scanner, one function per part of the grammar, each one
  // reading the input exactly as the C validator does.

  /** The cursor after an optional minus sign. */
  function SignEnd(s: seq<byte>, i: nat): (p: nat)
    requires IsInput(s) && i < |s|
    ensures p < |s|
  {
    if s[i] == MINUS then i + 1 else i
  }

  /** The integer part: a lone `0`, or a digit 1-9 and any digits after it. */
  function IntEnd(s: seq<byte>, p: nat): (r: Option<nat>)
    requires IsInput(s) && p < |s|
    ensures r.Some? ==> p < r.value < |s|
  {
    if s[p] == ZERO then Some(p + 1)
    else if IsDigit1To9(s[p]) then Some(DigitsEnd(s, p + 1))
    else None
  }

  /** The optional fraction: when a `.` follows, at least one digit must follow it. */
  function FracEnd(s: seq<byte>, p: nat): (r: Option<nat>)
    requires IsInput(s) && p < |s|
    ensures r.Some? ==> p <= r.value < |s|
  {
    if s[p] == DOT then
      if IsDigit(s[p + 1]) then Some(DigitsEnd(s, p + 2)) else None
    else Some(p)
  }

  /** The optional exponent: `e` or `E`, an optional sign, then at least one digit. */
  function ExpEnd(s: seq<byte>, p: nat): (r: Option<nat>)
    requires IsInput(s) && p < |s|
    ensures r.Some? ==> p <= r.value < |s|
  {
    if IsExpMark(s[p]) then
      var q := if IsSign(s[p + 1]) then p + 2 else p + 1;
      if IsDigit(s[q]) then Some(DigitsEnd(s, q + 1)) else None
    else Some(p)
  }

  /** Where the number starting at `i` ends, or None when the grammar is violated. */
  function NumberEnd(s: seq<byte>, i: nat): (r: Option<nat>)
    requires IsInput(s) && i < |s|
    ensures r.Some? ==> i < r.value < |s|
  {
    match IntEnd(s, SignEnd(s, i))
    case None => None
    case Some(a) =>
      match FracEnd(s, a)
      case None => None
      case Some(b) => ExpEnd(s, b)
  }

  // ---------------------------------------------------------------------
  // The number grammar of RFC 8259 section 6, stated independently of the
  // scanner: number = [ minus ] int [ frac ] [ exp ], with the parts at
  // positions i..a, a..b, b..c and c..k.

  predicate DigitsIn(s: seq<byte>, lo: nat, hi: nat)
  {
    lo <= hi <= |s| && forall k :: lo <= k < hi ==> IsDigit(s[k])
  }

  predicate SignAt(s: seq<byte>, lo: nat, hi: nat)
  {
    hi == lo || (hi == lo + 1 && lo < |s| && s[lo] == MINUS)
  }

  predicate IntAt(s: seq<byte>, lo: nat, hi: nat)
  {
    (hi == lo + 1 && lo < |s| && s[lo] == ZERO)
    || (lo < hi && lo < |s| && IsDigit1To9(s[lo]) && DigitsIn(s, lo + 1, hi))
  }

  predicate FracAt(s: seq<byte>, lo: nat, hi: nat)
  {
    hi == lo || (lo + 1 < hi && hi <= |s| && s[lo] == DOT && DigitsIn(s, lo + 1, hi))
  }

  predicate ExpAt(s: seq<byte>, lo: nat, hi: nat)
  {
    hi == lo
    || (lo + 1 < hi && hi <= |s| && IsExpMark(s[lo]) &&
        if IsSign(s[lo + 1]) then lo + 2 < hi && DigitsIn(s, lo + 2, hi)
        else DigitsIn(s, lo + 1, hi))
  }

  predicate NumberAt(s: seq<byte>, i: nat, a: nat, b: nat, c: nat, k: nat)
  {
    i <= a <= b <= c <= k <= |s| &&
    SignAt(s, i, a) && IntAt(s, a, b) && FracAt(s, b, c) && ExpAt(s, c, k)
  }

  /** `s[i..k]` is a number of RFC 8259 section 6. */
  ghost predicate NumberSpan(s: seq<byte>, i: nat, k: nat)
  {
    exists a: nat, b: nat, c: nat :: NumberAt(s, i, a, b, c, k)
  }

  /** The text `t` is a number of RFC 8259 section 6. */
  ghost predicate IsNumber(t: seq<byte>)
  {
    NumberSpan(t, 0, |t|)
  }

  /** A byte that could carry a number on past its end. */
  predicate ContinuesNumber(b: byte)
  {
    IsDigit(b) || b == DOT || IsExpMark(b)
  }

  lemma DigitsInShift(s: seq<byte>, i: nat, k: nat, lo: nat, hi: nat)
    requires i <= lo <= hi <= k <= |s| && DigitsIn(s, lo, hi)
    ensures DigitsIn(s[i..k], lo - i, hi - i)
  {
    forall m | lo - i <= m < hi - i
      ensures IsDigit(s[i..k][m])
    {
      assert s[i..k][m] == s[i + m];
    }
  }

  /** The grammar read inside `s` is the grammar read on the cut-out text. */
  lemma NumberAtShift(s: seq<byte>, i: nat, a: nat, b: nat, c: nat, k: nat)
    requires NumberAt(s, i, a, b, c, k)
    ensures NumberAt(s[i..k], 0, a - i, b - i, c - i, k - i)
  {
    var t := s[i..k];
    assert forall m :: 0 <= m < k - i ==> t[m] == s[i + m];
    if IntAt(s, a, b) && !(b == a + 1 && s[a] == ZERO) {
      DigitsInShift(s, i, k, a + 1, b);
    }
    if b < c {
      DigitsInShift(s, i, k, b + 1, c);
    }
    if c < k {
      if IsSign(s[c + 1]) {
        DigitsInShift(s, i, k, c + 2, k);
      } else {
        DigitsInShift(s, i, k, c + 1, k);
      }
    }
  }

  lemma DigitsInExtend(t: seq<byte>, u: seq<byte>, lo: nat, hi: nat)
    requires DigitsIn(t, lo, hi)
    ensures DigitsIn(t + u, lo, hi)
  {
    forall m | lo <= m < hi
      ensures IsDigit((t + u)[m])
    {
      assert (t + u)[m] == t[m];
    }
  }

  /** A number stays a number when more text follows it. */
  lemma NumberAtExtend(t: seq<byte>, u: seq<byte>, a: nat, b: nat, c: nat)
    requires NumberAt(t, 0, a, b, c, |t|)
    ensures NumberAt(t + u, 0, a, b, c, |t|)
  {
    var s := t + u;
    assert forall m :: 0 <= m < |t| ==> s[m] == t[m];
    if IntAt(t, a, b) && !(b == a + 1 && t[a] == ZERO) {
      DigitsInExtend(t, u, a + 1, b);
    }
    if b < c {
      DigitsInExtend(t, u, b + 1, c);
    }
    if c < |t| {
      if IsSign(t[c + 1]) {
        DigitsInExtend(t, u, c + 2, |t|);
      } else {
        DigitsInExtend(t, u, c + 1, |t|);
      }
    }
  }

  /** A digit run that stops at a non-digit is the one DigitsEnd finds. */
  lemma DigitsEndExact(s: seq<byte>, lo: nat, hi: nat)
    requires IsInput(s) && lo <= hi < |s| && DigitsIn(s, lo, hi) && !IsDigit(s[hi])
    ensures DigitsEnd(s, lo) == hi
  {
  }

  /** Every part of the grammar ends just before the next part starts:
      after the integer part comes `.`, `e`, `E` or the end of the number. */
  lemma NumberAtJoints(s: seq<byte>, i: nat, a: nat, b: nat, c: nat, k: nat)
    requires NumberAt(s, i, a, b, c, k)
    ensures b < k ==> s[b] == DOT || IsExpMark(s[b])
    ensures c < k ==> IsExpMark(s[c])
  {
  }

  /** The scanner's sign agrees with any reading of the grammar. */
  lemma SignAgrees(s: seq<byte>, i: nat, a: nat, b: nat, c: nat, k: nat)
    requires IsInput(s) && i < |s| && NumberAt(s, i, a, b, c, k)
    ensures a == SignEnd(s, i)
  {
  }

  /** The integer part the scanner reads is the longest one; a shorter
      reading of the grammar stops on a digit. */
  lemma IntOverlap(s: seq<byte>, p: nat, hi: nat)
    requires IsInput(s) && p < |s| && IntAt(s, p, hi)
    ensures IntEnd(s, p).Some? && hi <= IntEnd(s, p).value
    ensures hi < IntEnd(s, p).value ==> IsDigit(s[hi])
  {
  }

  /** The same for the fraction, whose shorter readings stop on the `.` or a digit. */
  lemma FracOverlap(s: seq<byte>, a: nat, hi: nat)
    requires IsInput(s) && a < |s| && FracAt(s, a, hi) && FracEnd(s, a).Some?
    ensures hi <= FracEnd(s, a).value
    ensures hi < FracEnd(s, a).value ==> (hi == a && s[a] == DOT) || IsDigit(s[hi])
  {
  }

  /** No reading of the exponent is longer than the scanner's. */
  lemma ExpOverlap(s: seq<byte>, b: nat, hi: nat)
    requires IsInput(s) && b < |s| && ExpAt(s, b, hi) && ExpEnd(s, b).Some?
    ensures hi <= ExpEnd(s, b).value
  {
  }

  /** An exponent followed by a byte that cannot continue it is the scanner's. */
  lemma ExpExact(s: seq<byte>, b: nat, k: nat)
    requires IsInput(s) && b <= k < |s| && ExpAt(s, b, k) && !ContinuesNumber(s[k])
    ensures ExpEnd(s, b) == Some(k)
  {
    if IsExpMark(s[b]) {
      var q := if IsSign(s[b + 1]) then b + 2 else b + 1;
      DigitsEndExact(s, q + 1, k);
    }
  }

  lemma IntSound(s: seq<byte>, p: nat)
    requires IsInput(s) && p < |s| && IntEnd(s, p).Some?
    ensures IntAt(s, p, IntEnd(s, p).value)
  {
  }

  lemma FracSound(s: seq<byte>, a: nat)
    requires IsInput(s) && a < |s| && FracEnd(s, a).Some?
    ensures FracAt(s, a, FracEnd(s, a).value)
  {
  }

  lemma ExpSound(s: seq<byte>, b: nat)
    requires IsInput(s) && b < |s| && ExpEnd(s, b).Some?
    ensures ExpAt(s, b, ExpEnd(s, b).value)
  {
  }

  /** A number found inside the input is a number as a text of its own. */
  lemma NumberSpanText(s: seq<byte>, i: nat, k: nat)
    requires NumberSpan(s, i, k)
    ensures IsNumber(s[i..k])
  {
    var a: nat, b: nat, c: nat :| NumberAt(s, i, a, b, c, k);
    NumberAtShift(s, i, a, b, c, k);
    assert |s[i..k]| == k - i;
  }

  /** A succeeding scan, part by part. */
  lemma NumberEndParts(s: seq<byte>, i: nat)
    requires IsInput(s) && i < |s| && NumberEnd(s, i).Some?
    ensures IntEnd(s, SignEnd(s, i)).Some?
    ensures FracEnd(s, IntEnd(s, SignEnd(s, i)).value).Some?
    ensures ExpEnd(s, FracEnd(s, IntEnd(s, SignEnd(s, i)).value).value) == NumberEnd(s, i)
  {
  }

  /** A succeeding scan is sound: the text it passes over is an RFC 8259 number. */
  lemma NumberEndSound(s: seq<byte>, i: nat)
    requires IsInput(s) && i < |s| && NumberEnd(s, i).Some?
    ensures NumberSpan(s, i, NumberEnd(s, i).value)
    ensures IsNumber(s[i..NumberEnd(s, i).value])
  {
    NumberEndParts(s, i);
    var p := SignEnd(s, i);
    var a := IntEnd(s, p).value;
    var b := FracEnd(s, a).value;
    var j := ExpEnd(s, b).value;
    IntSound(s, p);
    FracSound(s, a);
    ExpSound(s, b);
    assert SignAt(s, i, p);
    assert NumberAt(s, i, p, a, b, j);
    NumberSpanText(s, i, j);
  }

  /** An integer part that the grammar ends on a non-digit is the scanner's. */
  lemma IntFixed(s: seq<byte>, p: nat, hi: nat)
    requires IsInput(s) && p < |s| && IntAt(s, p, hi) && hi < |s| && !IsDigit(s[hi])
    ensures IntEnd(s, p) == Some(hi)
  {
    if s[p] != ZERO {
      DigitsEndExact(s, p + 1, hi);
    }
  }

  /** A fraction that the grammar ends on neither a digit nor a `.` is the scanner's. */
  lemma FracFixed(s: seq<byte>, a: nat, hi: nat)
    requires IsInput(s) && a < |s| && FracAt(s, a, hi) && hi < |s|
    requires !IsDigit(s[hi]) && s[hi] != DOT
    ensures FracEnd(s, a) == Some(hi)
  {
    if hi > a {
      DigitsEndExact(s, a + 1, hi);
    }
  }

  /** No reading of the grammar from `i` runs past the end of a succeeding scan. */
  lemma NumberAtWithinScan(s: seq<byte>, i: nat, A: nat, B: nat, C: nat, k: nat)
    requires IsInput(s) && i < |s| && NumberEnd(s, i).Some? && NumberAt(s, i, A, B, C, k)
    ensures k <= NumberEnd(s, i).value
  {
    NumberEndParts(s, i);
    var p := SignEnd(s, i);
    var a := IntEnd(s, p).value;
    var b := FracEnd(s, a).value;
    var j := ExpEnd(s, b).value;
    if j < k {
      assert A == p by { SignAgrees(s, i, A, B, C, k); }
      assert B == a by {
        IntOverlap(s, p, B);
        NumberAtJoints(s, i, A, B, C, k);
        IntFixed(s, p, B);
      }
      assert C == b by {
        FracOverlap(s, a, C);
        NumberAtJoints(s, i, A, B, C, k);
        FracFixed(s, a, C);
      }
      ExpOverlap(s, b, k);
    }
  }

  /** A succeeding scan is maximal: no longer text from `i` is a number. */
  lemma NumberEndMaximal(s: seq<byte>, i: nat, k: nat)
    requires IsInput(s) && i < |s| && NumberEnd(s, i).Some?
    requires NumberEnd(s, i).value < k <= |s|
    ensures !NumberSpan(s, i, k)
  {
    if NumberSpan(s, i, k) {
      var A: nat, B: nat, C: nat :| NumberAt(s, i, A, B, C, k);
      NumberAtWithinScan(s, i, A, B, C, k);
    }
  }

  /** A reading of the grammar followed by a byte that cannot continue it is the scan's. */
  lemma NumberAtFound(s: seq<byte>, i: nat, A: nat, B: nat, C: nat, k: nat)
    requires IsInput(s) && i < |s| && NumberAt(s, i, A, B, C, k)
    requires k < |s| && !ContinuesNumber(s[k])
    ensures NumberEnd(s, i) == Some(k)
  {
    var p := SignEnd(s, i);
    assert A == p by { SignAgrees(s, i, A, B, C, k); }
    assert IntEnd(s, p) == Some(B) by {
      NumberAtJoints(s, i, A, B, C, k);
      IntFixed(s, p, B);
    }
    assert FracEnd(s, B) == Some(C) by {
      NumberAtJoints(s, i, A, B, C, k);
      FracFixed(s, B, C);
    }
    ExpExact(s, C, k);
  }

  /** The scan finds every number that is followed by a byte that could
      not continue it, and passes over exactly that number. */
  lemma NumberEndComplete(s: seq<byte>, i: nat, k: nat)
    requires IsInput(s) && i < |s| && NumberSpan(s, i, k)
    requires k < |s| && !ContinuesNumber(s[k])
    ensures NumberEnd(s, i) == Some(k)
  {
    var A: nat, B: nat, C: nat :| NumberAt(s, i, A, B, C, k);
    NumberAtFound(s, i, A, B, C, k);
  }

  /** A missing integer digit is a violation, with or without a minus sign. */
  lemma NumberMissingIntDigit(s: seq<byte>, i: nat)
    requires IsInput(s) && i < |s| && !IsDigit(s[SignEnd(s, i)])
    ensures NumberEnd(s, i) == None
  {
  }

  /** A `.` after the integer part without a digit after it is a violation. */
  lemma NumberMissingFracDigit(s: seq<byte>, i: nat, a: nat)
    requires IsInput(s) && i < |s| && IntEnd(s, SignEnd(s, i)) == Some(a)
    requires s[a] == DOT && !IsDigit(s[a + 1])
    ensures NumberEnd(s, i) == None
  {
  }

  /** An `e` or `E` (and optional sign) without a digit after it is a violation. */
  lemma NumberMissingExpDigit(s: seq<byte>, i: nat, a: nat, b: nat)
    requires IsInput(s) && i < |s| && IntEnd(s, SignEnd(s, i)) == Some(a)
    requires FracEnd(s, a) == Some(b) && IsExpMark(s[b])
    requires !IsDigit(s[if IsSign(s[b + 1]) then b + 2 else b + 1])
    ensures NumberEnd(s, i) == None
  {
  }

  /** A leading zero is the whole integer part: the scanner stops right after it. */
  lemma NumberLeadingZero(s: seq<byte>, i: nat)
    requires IsInput(s) && i < |s|
    requires s[SignEnd(s, i)] == ZERO && IsDigit(s[SignEnd(s, i) + 1])
    ensures NumberEnd(s, i) == Some(SignEnd(s, i) + 1)
  {
  }
}
