/** What a whole parse computes, as functions of the input: the value
    dispatcher (one lookahead byte chooses the decoder) and the driver (one
    value, with only whitespace around it). The methods of ParseContext and
    Parser are proved to compute exactly these. */
module JsonText {
  import opened LeptTypes
  import opened Scanner
  import opened StringDecoder

  /** The outcome of decoding one value at a cursor. */
  datatype ValueResult = Parsed(value: Json, end: nat) | Rejected(error: Status)

  /** A literal: the whole spelling, or InvalidValue. */
  function LiteralValue(s: seq<byte>, i: nat, lit: seq<byte>, v: Json): (r: ValueResult)
    requires IsInput(s) && i < |s| && |lit| > 0 && lit[|lit| - 1] != NUL
    ensures r.Parsed? <==> LiteralAt(s, i, lit)
    ensures r.Parsed? ==> r == Parsed(v, i + |lit|) && r.end < |s|
    ensures r.Rejected? ==> r.error == InvalidValue
  {
    if LiteralAt(s, i, lit) then
      assert s[i + |lit| - 1] == s[i..i + |lit|][|lit| - 1];
      Parsed(v, i + |lit|)
    else Rejected(InvalidValue)
  }

  /** The value that starts at `i`; `tooBig` says whether the C library's
      conversion of the text from `i` on overflows to infinity. */
  function ValueAt(s: seq<byte>, i: nat, tooBig: seq<byte> -> bool): (r: ValueResult)
    requires IsInput(s) && i < |s|
    ensures r.Parsed? ==> i < r.end < |s|
    ensures r.Rejected? ==> r.error != Ok && r.error != RootNotSingular
  {
    var ch := s[i];
    if ch == 0x74 then LiteralValue(s, i, TRUE_TEXT, JTrue)          // t
    else if ch == 0x66 then LiteralValue(s, i, FALSE_TEXT, JFalse)   // f
    else if ch == 0x6E then LiteralValue(s, i, NULL_TEXT, JNull)     // n
    else if ch == QUOTE then
      match DecodeString(s, i + 1)
      case Decoded(b, e) => Parsed(JString(b), e)
      case Failed(e) => Rejected(e)
    else if ch == NUL then Rejected(ExpectValue)
    else
      match NumberEnd(s, i)
      case None => Rejected(InvalidValue)
      case Some(j) => if tooBig(s[i..]) then Rejected(NumberTooBig) else Parsed(JNumber(s[i..j]), j)
  }

  /** The result code and the value of a parse of the whole input. */
  function ParseText(s: seq<byte>, tooBig: seq<byte> -> bool): (r: (Status, Json))
    requires IsInput(s)
    ensures r.0 != Ok ==> r.1 == JNull
  {
    match ValueAt(s, SkipWs(s, 0), tooBig)
    case Rejected(e) => (e, JNull)
    case Parsed(v, j) => if s[SkipWs(s, j)] != NUL then (RootNotSingular, JNull) else (Ok, v)
  }

  /** The input is empty or holds only whitespace before its terminator. */
  predicate IsBlank(s: seq<byte>)
  {
    exists n :: 0 <= n < |s| && s[n] == NUL && forall k :: 0 <= k < n ==> IsWs(s[k])
  }

  lemma SkipWsExact(s: seq<byte>, i: nat, n: nat)
    requires IsInput(s) && i <= n < |s| && !IsWs(s[n])
    requires forall k :: i <= k < n ==> IsWs(s[k])
    ensures SkipWs(s, i) == n
  {
  }

  /** ExpectValue is reported exactly for a blank input. */
  lemma {:induction false} ExpectValueIffBlank(s: seq<byte>, tooBig: seq<byte> -> bool)
    requires IsInput(s)
    ensures ParseText(s, tooBig).0 == ExpectValue <==> IsBlank(s)
  {
    var i := SkipWs(s, 0);
    if IsBlank(s) {
      var n :| 0 <= n < |s| && s[n] == NUL && forall k :: 0 <= k < n ==> IsWs(s[k]);
      SkipWsExact(s, 0, n);
    }
    if s[i] == NUL {
      assert IsBlank(s);
    }
  }

  /** Decode errors come out of the driver unchanged. */
  lemma ErrorPropagates(s: seq<byte>, tooBig: seq<byte> -> bool)
    requires IsInput(s) && ValueAt(s, SkipWs(s, 0), tooBig).Rejected?
    ensures ParseText(s, tooBig) == (ValueAt(s, SkipWs(s, 0), tooBig).error, JNull)
  {
  }

  /** A value with whitespace around it is the result; a value followed by
      anything else is RootNotSingular and leaves the value null. */
  lemma {:induction false} SingularRoot(s: seq<byte>, tooBig: seq<byte> -> bool, i: nat, m: nat)
    requires IsInput(s) && i < |s| && (forall k :: 0 <= k < i ==> IsWs(s[k])) && !IsWs(s[i])
    requires ValueAt(s, i, tooBig).Parsed?
    requires var j := ValueAt(s, i, tooBig).end;
             j <= m < |s| && (forall k :: j <= k < m ==> IsWs(s[k])) && !IsWs(s[m])
    ensures s[m] == NUL ==> ParseText(s, tooBig) == (Ok, ValueAt(s, i, tooBig).value)
    ensures s[m] != NUL ==> ParseText(s, tooBig) == (RootNotSingular, JNull)
  {
    SkipWsExact(s, 0, i);
    SkipWsExact(s, ValueAt(s, i, tooBig).end, m);
  }

  /** A successful parse of a number keeps an RFC 8259 number as its text. */
  lemma ParsedNumberIsNumber(s: seq<byte>, tooBig: seq<byte> -> bool)
    requires IsInput(s) && ParseText(s, tooBig).0 == Ok && ParseText(s, tooBig).1.JNumber?
    ensures IsNumber(ParseText(s, tooBig).1.text)
  {
    var i := SkipWs(s, 0);
    NumberEndSound(s, i);
  }

  /** A number starts with a minus sign or a digit, so the dispatcher hands
      it to the number scanner. */
  lemma NumberValue(s: seq<byte>, i: nat, tooBig: seq<byte> -> bool)
    requires IsInput(s) && i < |s| && NumberEnd(s, i).Some? && !tooBig(s[i..])
    ensures ValueAt(s, i, tooBig) == Parsed(JNumber(s[i..NumberEnd(s, i).value]), NumberEnd(s, i).value)
  {
    assert s[i] == MINUS || IsDigit(s[i]);
  }

  /** Every RFC 8259 number parses as itself, unless it overflows. */
  lemma NumberParses(t: seq<byte>, tooBig: seq<byte> -> bool)
    requires IsNumber(t) && !tooBig(t + [NUL])
    ensures ParseText(t + [NUL], tooBig) == (Ok, JNumber(t))
  {
    var s := t + [NUL];
    var a: nat, b: nat, c: nat :| NumberAt(t, 0, a, b, c, |t|);
    NumberAtExtend(t, [NUL], a, b, c);
    NumberAtFound(s, 0, a, b, c, |t|);
    assert s[0..] == s;
    NumberValue(s, 0, tooBig);
    assert s[0..|t|] == t;
    SingularRoot(s, tooBig, 0, |t|);
  }

  /** A string that is the whole input parses as its decoded bytes. */
  lemma QuotedParses(s: seq<byte>, tooBig: seq<byte> -> bool, b: seq<byte>, e: nat)
    requires IsInput(s) && 1 < |s| && s[0] == QUOTE && DecodeString(s, 1) == Decoded(b, e) && s[e] == NUL
    ensures ParseText(s, tooBig) == (Ok, JString(b))
  {
    SingularRoot(s, tooBig, 0, e);
  }

  /** A quoted text of plain bytes parses as the string of those bytes. */
  lemma PlainStringParses(t: seq<byte>, tooBig: seq<byte> -> bool)
    requires forall k :: 0 <= k < |t| ==> IsPlain(t[k])
    ensures ParseText([QUOTE] + t + [QUOTE, NUL], tooBig) == (Ok, JString(t))
  {
    var s := [QUOTE] + t + [QUOTE, NUL];
    assert forall k :: 1 <= k < 1 + |t| ==> s[k] == t[k - 1];
    PlainDecodes(s, 1, |t|);
    assert s[1..1 + |t|] == t;
  }
}
