/** The parse context (lept_context): the cursor into the input and the
    scratch stack on which the string decoder assembles its bytes, with the
    cursor methods that decode one value. Each method is proved to compute
    the function of JsonText, Scanner or StringDecoder that it follows. */
module ParseContext {
  import opened LeptTypes
  import opened Scanner
  import opened Unicode
  import opened StringDecoder
  import opened JsonText
  import opened Values

  /** The capacity of the scratch stack on its first growth. */
  const INIT_SIZE: nat := 256

  /** The capacity after growing `size` by half, again and again, until it
      exceeds `need`. */
  function GrowFrom(size: nat, need: nat): (r: nat)
    requires size >= INIT_SIZE
    ensures r > need && r >= size
    decreases need + 1 - size
  {
    if need < size then size else GrowFrom(size + size / 2, need)
  }

  /** The capacity of the scratch stack after a push that needs room for
      `need` bytes: unchanged while it suffices, otherwise 256 on the first
      growth and grown by half from there on. */
  function Capacity(size: nat, need: nat): (r: nat)
    requires size == 0 || size >= INIT_SIZE
    ensures r > need && r >= size && r >= INIT_SIZE
  {
    if need < size then size
    else GrowFrom(if size == 0 then INIT_SIZE else size, need)
  }

  /** The stack always has room for what was pushed and never shrinks; it
      grows at most by half beyond what is needed, and is left alone when
      it already has room. */
  lemma {:induction false} GrowFromBounds(size: nat, need: nat)
    requires size >= INIT_SIZE
    ensures need < GrowFrom(size, need)
    ensures size <= need ==> GrowFrom(size, need) <= need + need / 2
    decreases need + 1 - size
  {
    if size <= need {
      var next := size + size / 2;
      if next <= need {
        GrowFromBounds(next, need);
      }
    }
  }

  lemma CapacityBounds(size: nat, need: nat)
    requires size == 0 || size >= INIT_SIZE
    ensures need < Capacity(size, need) && size <= Capacity(size, need)
    ensures need < size ==> Capacity(size, need) == size
    ensures size == 0 && need < INIT_SIZE ==> Capacity(size, need) == INIT_SIZE
    ensures size <= need && INIT_SIZE <= need ==> Capacity(size, need) <= need + need / 2
  {
    if size <= need {
      GrowFromBounds(if size == 0 then INIT_SIZE else size, need);
    }
  }

  /** Appending to the stack keeps what lies below `head` and extends
      what lies above it. */
  lemma PushedAbove(before: seq<byte>, after: seq<byte>, head: nat, bytes: seq<byte>)
    requires head <= |before| && after == before + bytes
    ensures after[..head] == before[..head]
    ensures after[head..] == before[head..] + bytes
  {
  }

  /** The bytes pushed above `below` are the slice of the buffer up to the top. */
  lemma SliceAbove(s: seq<byte>, top: nat, below: seq<byte>, bytes: seq<byte>)
    requires top <= |s| && s[..top] == below + bytes
    ensures s[|below|..top] == bytes
  {
    assert s[|below|..top] == s[..top][|below|..];
  }

  lemma Append2(s: seq<byte>, b0: byte, b1: byte)
    ensures s + [b0] + [b1] == s + [b0, b1]
  {
  }

  lemma Append3(s: seq<byte>, b0: byte, b1: byte, b2: byte)
    ensures s + [b0] + [b1] + [b2] == s + [b0, b1, b2]
  {
  }

  lemma Append4(s: seq<byte>, b0: byte, b1: byte, b2: byte, b3: byte)
    ensures s + [b0] + [b1] + [b2] + [b3] == s + [b0, b1, b2, b3]
  {
  }

  class Context {
    /** The input text, with its terminating NUL. */
    const json: seq<byte>
    /** The cursor: the index of the next byte to read. */
    var pos: nat
    /** The scratch stack, `size` bytes of which the first `top` are in use. */
    var stack: array<byte>
    var size: nat
    var top: nat

    predicate Valid()
      reads this
    {
      IsInput(json) && pos < |json| &&
      stack.Length == size && top <= size && (size == 0 || size >= INIT_SIZE)
    }

    /** The bytes pushed so far. */
    function Stack(): seq<byte>
      reads this, stack
      requires Valid()
    {
      stack[..top]
    }

    /** A context at the start of `json`, with an empty stack of no capacity. */
    constructor (text: seq<byte>)
      requires IsInput(text)
      ensures Valid() && json == text && pos == 0
      ensures top == 0 && size == 0 && fresh(stack)
    {
      json := text;
      pos := 0;
      stack := new byte[0];
      size := 0;
      top := 0;
    }

    /** Reserves `n` bytes on top of the stack and returns where they start,
        growing the stack first when it is full. */
    method Push(n: nat) returns (at: nat)
      requires Valid() && n > 0
      modifies this
      ensures Valid() && pos == old(pos)
      ensures at == old(top) && top == old(top) + n && top < size
      ensures size == Capacity(old(size), old(top) + n)
      ensures stack[..old(top)] == old(stack[..top])
      ensures stack == old(stack) || fresh(stack)
    {
      if top + n >= size {
        if size == 0 {
          size := INIT_SIZE;
        }
        while top + n >= size
          invariant size >= INIT_SIZE && top == old(top) && pos == old(pos) && stack == old(stack)
          invariant GrowFrom(size, top + n) == Capacity(old(size), top + n)
          decreases top + n - size
        {
          size := size + size / 2;
        }
        var grown := new byte[size];
        var from := stack;
        forall k | 0 <= k < from.Length {
          grown[k] := from[k];
        }
        stack := grown;
      }
      at := top;
      top := top + n;
    }

    /** Releases the `n` bytes on top of the stack and returns where they start. */
    method Pop(n: nat) returns (at: nat)
      requires Valid() && top >= n
      modifies this
      ensures Valid() && at == top == old(top) - n
      ensures stack == old(stack) && size == old(size) && pos == old(pos)
    {
      top := top - n;
      at := top;
    }

    /** Pushes one byte. */
    method PutC(ch: byte)
      requires Valid()
      modifies this, stack
      ensures Valid() && pos == old(pos)
      ensures Stack() == old(Stack()) + [ch]
      ensures size == Capacity(old(size), old(top) + 1)
      ensures stack == old(stack) || fresh(stack)
    {
      var at := Push(1);
      stack[at] := ch;
      assert stack[..top] == old(stack[..top]) + [ch];
    }

    /** Moves the cursor over a run of whitespace. */
    method ParseWhitespace()
      requires Valid()
      modifies this
      ensures Valid() && pos == SkipWs(json, old(pos))
      ensures stack == old(stack) && size == old(size) && top == old(top)
    {
      var p := pos;
      while IsWs(json[p])
        invariant pos <= p < |json| && SkipWs(json, p) == SkipWs(json, pos)
        decreases |json| - p
      {
        p := p + 1;
      }
      pos := p;
    }

    /** Reads the literal `lit`, whose first byte is under the cursor; on
        success the cursor moves past it and `v` takes the type `t`. */
    method ParseLiteral(v: Value, lit: seq<byte>, t: LeptType) returns (r: Status)
      requires Valid() && |lit| > 0 && json[pos] == lit[0]
      requires forall k :: 0 <= k < |lit| ==> lit[k] != NUL
      modifies this, v
      ensures Valid() && stack == old(stack) && size == old(size) && top == old(top)
      ensures r == Ok <==> LiteralAt(json, old(pos), lit)
      ensures r == Ok ==> pos == old(pos) + |lit| && v.kind == t
      ensures r != Ok ==> r == InvalidValue && pos == old(pos) + 1 && v.kind == old(v.kind)
      ensures v.n == old(v.n) && v.s == old(v.s) && v.len == old(v.len)
    {
      var start := pos;
      pos := pos + 1;
      var i := 0;
      while i + 1 < |lit|
        invariant 0 <= i < |lit| && pos + i < |json| && pos == start + 1
        invariant json[start..pos + i] == lit[..i + 1]
        decreases |lit| - i
      {
        if json[pos + i] != lit[i + 1] {
          assert start + |lit| <= |json| ==> json[start..start + |lit|][i + 1] == json[pos + i];
          return InvalidValue;
        }
        assert json[start..pos + i + 1] == json[start..pos + i] + [json[pos + i]];
        assert lit[..i + 2] == lit[..i + 1] + [lit[i + 1]];
        assert json[pos + i] != NUL;
        i := i + 1;
      }
      assert lit[..i + 1] == lit;
      pos := pos + i;
      v.kind := t;
      r := Ok;
    }

    /** The digit loop of the number validator: the index of the first
        byte from `p` on that is not a decimal digit. */
    method SkipDigits(p: nat) returns (q: nat)
      requires Valid() && p < |json|
      ensures q == DigitsEnd(json, p)
    {
      q := p;
      while IsDigit(json[q])
        invariant p <= q < |json| && DigitsEnd(json, q) == DigitsEnd(json, p)
        decreases |json| - q
      {
        q := q + 1;
      }
    }

    /** The integer part of the number validator, from `p`: a lone `0`,
        or a digit 1-9 and the digits after it. */
    method ScanInt(p: nat) returns (r: Option<nat>)
      requires Valid() && p < |json|
      ensures r == IntEnd(json, p)
    {
      if json[p] == ZERO {
        return Some(p + 1);
      }
      if !IsDigit1To9(json[p]) {
        return None;
      }
      var q := SkipDigits(p + 1);
      return Some(q);
    }

    /** The fraction part of the number validator, from `p`. */
    method ScanFrac(p: nat) returns (r: Option<nat>)
      requires Valid() && p < |json|
      ensures r == FracEnd(json, p)
    {
      var q := p;
      if json[q] == DOT {
        q := q + 1;
        if !IsDigit(json[q]) {
          return None;
        }
        q := SkipDigits(q + 1);
      }
      return Some(q);
    }

    /** The exponent part of the number validator, from `p`. */
    method ScanExp(p: nat) returns (r: Option<nat>)
      requires Valid() && p < |json|
      ensures r == ExpEnd(json, p)
    {
      var q := p;
      if IsExpMark(json[q]) {
        q := q + 1;
        if IsSign(json[q]) {
          q := q + 1;
        }
        if !IsDigit(json[q]) {
          return None;
        }
        q := SkipDigits(q + 1);
      }
      return Some(q);
    }

    /** The validator of `lept_parse_number`: the sign, the integer, the
        fraction and the exponent, part by part as the C code walks them;
        the end of the number, or None at the first violation. */
    method ScanNumber() returns (r: Option<nat>)
      requires Valid()
      ensures r == NumberEnd(json, pos)
    {
      var p := pos;
      if json[p] == MINUS {
        p := p + 1;
      }
      var a := ScanInt(p);
      if a.None? {
        return None;
      }
      var b := ScanFrac(a.value);
      if b.None? {
        return None;
      }
      r := ScanExp(b.value);
    }

    /** Validates the number under the cursor, then converts it; `tooBig`
        stands for the overflow check of the C library's conversion, which
        reads from the cursor on. */
    method ParseNumber(v: Value, tooBig: seq<byte> -> bool) returns (r: Status)
      requires Valid()
      modifies this, v
      ensures Valid() && stack == old(stack) && size == old(size) && top == old(top)
      ensures v.s == old(v.s) && v.len == old(v.len)
      ensures NumberEnd(json, old(pos)).None? ==>
                r == InvalidValue && pos == old(pos) && v.kind == old(v.kind) && v.n == old(v.n)
      ensures NumberEnd(json, old(pos)).Some? ==>
                var e := NumberEnd(json, old(pos)).value;
                v.n == json[old(pos)..e] &&
                if tooBig(json[old(pos)..]) then r == NumberTooBig && pos == old(pos) && v.kind == old(v.kind)
                else r == Ok && pos == e && v.kind == Number
    {
      var e := ScanNumber();
      if e.None? {
        return InvalidValue;
      }
      v.n := json[pos..e.value];
      if tooBig(json[pos..]) {
        return NumberTooBig;
      }
      v.kind := Number;
      pos := e.value;
      r := Ok;
    }

    /** Pushes the UTF-8 encoding of the code point `u`. */
    method EncodeUtf8(u: unsigned)
      requires Valid() && u <= 0x10FFFF
      modifies this, stack
      ensures Valid() && pos == old(pos)
      ensures Stack() == old(Stack()) + Utf8(u)
      ensures stack == old(stack) || fresh(stack)
    {
      ghost var s0 := Stack();
      Utf8Cases(u);
      if u <= 0x7F {
        PutC(Lead(u, 0, 0));
      } else if u <= 0x7FF {
        var b0, b1 := Lead(u, 0xC0, 6), Trail(u, 0);
        PutC(b0);
        PutC(b1);
        Append2(s0, b0, b1);
      } else if u <= 0xFFFF {
        var b0, b1, b2 := Lead(u, 0xE0, 12), Trail(u, 6), Trail(u, 0);
        PutC(b0);
        PutC(b1);
        PutC(b2);
        Append3(s0, b0, b1, b2);
      } else {
        var b0, b1, b2, b3 := Lead(u, 0xF0, 18), Trail(u, 12), Trail(u, 6), Trail(u, 0);
        PutC(b0);
        PutC(b1);
        PutC(b2);
        PutC(b3);
        Append4(s0, b0, b1, b2, b3);
      }
    }

    /** The `\u` case of the string decoder, with the hex digits at `q`:
        reads one code unit, or the two halves of a surrogate pair. */
    method ParseUnicodeEscape(q: nat) returns (r: Escape)
      requires Valid() && q < |json|
      ensures r == UnicodeEscape(json, q)
    {
      var p := q;
      var h := Hex4(json, p);
      if h.None? {
        return Bad(InvalidUnicodeHex);
      }
      var u := h.value;
      p := p + 4;
      if IsHighSurrogate(u) {
        if json[p] != BACKSLASH {
          return Bad(InvalidUnicodeSurrogate);
        }
        p := p + 1;
        if json[p] != LETTER_U {
          return Bad(InvalidUnicodeSurrogate);
        }
        p := p + 1;
        var l := Hex4(json, p);
        if l.None? {
          return Bad(InvalidUnicodeHex);
        }
        var low := l.value;
        p := p + 4;
        if !IsLowSurrogate(low) {
          return Bad(InvalidUnicodeSurrogate);
        }
        u := (((u - 0xD800) << 10) | (low - 0xDC00)) + 0x10000;
      }
      return CodePoint(u, p);
    }

    /** One turn of the string decoder's loop, on the byte at `p` inside
        the string: pushes what it decodes. The closing quote and the
        errors push nothing. */
    method ParseStringStep(p: nat) returns (r: Step)
      requires Valid() && p < |json|
      modifies this, stack
      ensures Valid() && pos == old(pos)
      ensures r == StringStep(json, p)
      ensures r.Emit? ==> Stack() == old(Stack()) + r.bytes
      ensures !r.Emit? ==> Stack() == old(Stack())
      ensures stack == old(stack) || fresh(stack)
    {
      var ch := json[p];
      if ch == QUOTE {
        return Close(p + 1);
      } else if ch == BACKSLASH {
        var e := json[p + 1];
        match SimpleEscape(e)
        case Some(b) =>
          PutC(b);
          return Emit([b], p + 2);
        case None =>
          if e != LETTER_U {
            return Stop(InvalidStringEscape);
          }
          var esc := ParseUnicodeEscape(p + 2);
          if esc.Bad? {
            return Stop(esc.error);
          }
          EncodeUtf8(esc.u);
          return Emit(Utf8(esc.u), esc.next);
      } else if ch == NUL {
        return Stop(MissQuotationMark);
      } else if ch < 0x20 {
        return Stop(InvalidStringChar);
      } else {
        PutC(ch);
        return Emit([ch], p + 1);
      }
    }

    /** The loop of the string decoder, from `p` just after the opening
        quote: pushes the decoded bytes until the closing quote, and reports
        where the string ends, or stops at the first error. Nothing below
        the bytes it pushes is touched. */
    method ParseStringBody(p: nat) returns (r: Status, end: nat)
      requires Valid() && p < |json|
      modifies this, stack
      ensures Valid() && pos == old(pos)
      ensures top >= old(top) && Stack()[..old(top)] == old(Stack())
      ensures stack == old(stack) || fresh(stack)
      ensures match DecodeString(json, p)
              case Decoded(b, e) => r == Ok && end == e && Stack() == old(Stack()) + b
              case Failed(e) => r == e
    {
      ghost var below := Stack();
      var head := top;
      var q := p;
      assert Stack()[head..] == [];
      while true
        invariant Valid() && pos == old(pos) && p <= q < |json|
        invariant head == |below| <= top && Stack()[..head] == below
        invariant stack == old(stack) || fresh(stack)
        invariant DecodeFrom(json, q, Stack()[head..]) == DecodeString(json, p)
        decreases |json| - q
      {
        ghost var before := Stack();
        var step := ParseStringStep(q);
        match step
        case Close(next) =>
          assert Stack() == below + Stack()[head..];
          return Ok, next;
        case Stop(e) =>
          return e, 0;
        case Emit(bytes, next) =>
          PushedAbove(before, Stack(), head, bytes);
          q := next;
      }
    }

    /** Pops everything above `head` and copies it into `v` as a string. */
    method PopString(v: Value, head: nat)
      requires Valid() && head <= top
      modifies this, v
      ensures Valid() && top == head && stack == old(stack) && pos == old(pos) && size == old(size)
      ensures v.Valid() && v.View() == JString(old(stack[head..top]))
    {
      var len := top - head;
      var at := Pop(len);
      v.SetString(stack[at..at + len]);
    }

    /** Decodes the string under the cursor, which is at its opening quote,
        into `v`. Whatever the outcome, the stack is left as it was found. */
    method ParseString(v: Value) returns (r: Status)
      requires Valid() && v.Valid() && json[pos] == QUOTE
      modifies this, stack, v
      ensures Valid() && v.Valid() && Stack() == old(Stack())
      ensures stack == old(stack) || fresh(stack)
      ensures match DecodeString(json, old(pos) + 1)
              case Decoded(b, e) => r == Ok && pos == e && v.View() == JString(b)
              case Failed(e) => r == e && pos == old(pos) + 1 && unchanged(v)
    {
      var head := top;
      pos := pos + 1;
      var end;
      r, end := ParseStringBody(pos);
      if r == Ok {
        SliceAbove(stack[..], top, old(Stack()), DecodeString(json, pos).bytes);
        PopString(v, head);
        pos := end;
        return Ok;
      }
      top := head;
    }

    /** Decodes the value under the cursor into `v`, choosing the decoder by
        its first byte. A failed decode leaves the type of `v` alone. */
    method ParseValue(v: Value, tooBig: seq<byte> -> bool) returns (r: Status)
      requires Valid() && v.Valid()
      modifies this, stack, v
      ensures Valid() && v.Valid() && Stack() == old(Stack())
      ensures match ValueAt(json, old(pos), tooBig)
              case Parsed(j, e) => r == Ok && pos == e && v.View() == j
              case Rejected(e) => r == e && v.kind == old(v.kind) && v.s == old(v.s) && v.len == old(v.len)
    {
      var ch := json[pos];
      if ch == 0x74 {         // t
        r := ParseLiteral(v, TRUE_TEXT, True);
      } else if ch == 0x66 {  // f
        r := ParseLiteral(v, FALSE_TEXT, False);
      } else if ch == 0x6E {  // n
        r := ParseLiteral(v, NULL_TEXT, Null);
      } else if ch == QUOTE {
        r := ParseString(v);
      } else if ch == NUL {
        r := ExpectValue;
      } else {
        r := ParseNumber(v, tooBig);
      }
    }
  }
}
