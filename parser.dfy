/** The entry point of the decoder (lept_parse): one JSON value, with only
    whitespace around it, read from a NUL-terminated text into `v`. */
module Parser {
  import opened LeptTypes
  import opened JsonText
  import opened Values
  import opened ParseContext

  /** Parses `json` into `v` and returns the result code; on any error `v`
      is left null. `tooBig` stands for the overflow check of the C
      library's number conversion. The scratch stack is empty again at the
      end, whatever the outcome. */
  method Parse(v: Value, json: seq<byte>, tooBig: seq<byte> -> bool) returns (r: Status)
    requires IsInput(json)
    modifies v
    ensures v.Valid() && (r, v.View()) == ParseText(json, tooBig)
  {
    var c := new Context(json);
    v.kind := Null;
    c.ParseWhitespace();
    r := c.ParseValue(v, tooBig);
    if r == Ok {
      c.ParseWhitespace();
      if c.json[c.pos] != NUL {
        v.kind := Null;
        r := RootNotSingular;
      }
    }
    assert c.top == 0;
  }
}
