/** The value a parse fills in (lept_value): a type tag and, depending on
    it, a number or a string. The number is kept as its decimal text; the
    string as a NUL-terminated copy together with its length. */
module Values {
  import opened LeptTypes

  class Value {
    /** The type tag. */
    var kind: LeptType
    /** The number payload, as the text the C library converts. */
    var n: seq<byte>
    /** The string payload: `len` bytes followed by a NUL. */
    var s: seq<byte>
    var len: nat

    /** A string value owns a copy of exactly `len` bytes and its terminator. */
    predicate Valid()
      reads this
    {
      kind == String ==> |s| == len + 1 && s[len] == NUL
    }

    /** The abstract value this one holds. */
    function View(): Json
      reads this
      requires Valid()
    {
      match kind
      case Null => JNull
      case False => JFalse
      case True => JTrue
      case Number => JNumber(n)
      case String => JString(s[..len])
    }

    /** A fresh value is null, as `lept_init` leaves it. */
    constructor ()
      ensures Valid() && kind == Null && View() == JNull
    {
      kind := Null;
      n := [];
      s := [];
      len := 0;
    }

    function GetType(): (t: LeptType)
      reads this
      requires Valid()
      ensures t == TypeOf(View())
    {
      kind
    }

    /** The truth value of a boolean; only defined on `true` and `false`. */
    function GetBoolean(): (b: bool)
      reads this
      requires Valid() && (kind == True || kind == False)
      ensures b <==> View() == JTrue
      ensures !b <==> View() == JFalse
    {
      kind == True
    }

    /** The number payload; only defined on numbers. */
    function GetNumber(): (t: seq<byte>)
      reads this
      requires Valid() && kind == Number
      ensures View() == JNumber(t)
    {
      n
    }

    /** The NUL-terminated string payload; only defined on strings. */
    function GetString(): (r: seq<byte>)
      reads this
      requires Valid() && kind == String
      ensures |r| == GetStringLength() + 1 && r[GetStringLength()] == NUL
      ensures View() == JString(r[..GetStringLength()])
    {
      s
    }

    /** The length of the string payload, without its terminator. */
    function GetStringLength(): (l: nat)
      reads this
      requires Valid() && kind == String
      ensures View().JString? && l == |View().bytes|
    {
      len
    }

    /** Releases the string copy of a string value and leaves the value null. */
    method Free()
      modifies this
      ensures Valid() && kind == Null && View() == JNull
      ensures s == (if old(kind) == String then [] else old(s))
      ensures n == old(n) && len == old(len)
    {
      if kind == String {
        s := [];
      }
      kind := Null;
    }

    method SetBoolean(b: bool)
      modifies this
      ensures Valid() && View() == (if b then JTrue else JFalse) && GetBoolean() == b
      ensures n == old(n) && len == old(len)
      ensures s == (if old(kind) == String then [] else old(s))
    {
      Free();
      kind := if b then True else False;
    }

    method SetNumber(t: seq<byte>)
      modifies this
      ensures Valid() && View() == JNumber(t) && GetNumber() == t
      ensures len == old(len) && s == (if old(kind) == String then [] else old(s))
    {
      Free();
      n := t;
      kind := Number;
    }

    /** Copies `bytes` and a terminating NUL into the value. */
    method SetString(bytes: seq<byte>)
      modifies this
      ensures Valid() && View() == JString(bytes)
      ensures GetString() == bytes + [NUL] && GetStringLength() == |bytes|
      ensures n == old(n)
    {
      Free();
      s := bytes + [NUL];
      len := |bytes|;
      kind := String;
      assert s[..len] == bytes;
    }
  }
}
