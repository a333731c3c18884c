/**
 JSON elements without floating-point numbers, and the text `serialize` writes for them.
 */
module JsonElement {
  import opened Utf8
  import opened Text

  datatype Element =
    | Null
    | Boolean(b: bool)
    | Int(n: int)
    | Str(s: seq<byte>)
    | Array(items: seq<Element>)
    | Object(members: seq<Member>)  // in the order of its keys

  datatype Member = Member(key: seq<byte>, value: Element)

  // ---- `serialize` ----

  function PrintInt(n: int): seq<byte>
  {
    if n < 0 then ['-' as int] + Digits(-n) else Digits(n)
  }

  // One byte of a string.
  function Escape(c: byte): seq<byte>
  {
    if c == '\"' as int then Ascii("\\\"")
    else if c == '\\' as int then Ascii("\\\\")
    else if c == '/' as int then Ascii("\\/")
    else if c == 8 then Ascii("\\b")
    else if c == '\n' as int then Ascii("\\n")
    else if c == '\r' as int then Ascii("\\r")
    else if c == '\t' as int then Ascii("\\t")
    else if c < 0x20 then Ascii("\\u00") + [HexDigit(c / 16), HexDigit(c % 16)]
    else [c]
  }

  function EscapeAll(s: seq<byte>): seq<byte>
  {
    if s == [] then [] else Escape(s[0]) + EscapeAll(s[1..])
  }

  function Quoted(s: seq<byte>): seq<byte>
  {
    ['\"' as int] + s + ['\"' as int]
  }

  function Print(e: Element): seq<byte>
  {
    match e
    case Null => Ascii("null")
    case Boolean(b) => if b then Ascii("true") else Ascii("false")
    case Int(n) => PrintInt(n)
    case Str(s) => Quoted(EscapeAll(s))
    case Array(items) => ['[' as int] + PrintItems(items) + [']' as int]
    case Object(members) => ['{' as int] + PrintMembers(members) + ['}' as int]
  }

  function PrintItems(items: seq<Element>): seq<byte>
  {
    if items == [] then []
    else Print(items[0]) + (if |items| == 1 then [] else [',' as int] + PrintItems(items[1..]))
  }

  function PrintMembers(members: seq<Member>): seq<byte>
  {
    if members == [] then []
    else PrintMember(members[0]) + (if |members| == 1 then [] else [',' as int] + PrintMembers(members[1..]))
  }

  // Keys are written as they are.
  function PrintMember(m: Member): seq<byte>
  {
    Quoted(m.key) + [':' as int] + Print(m.value)
  }
}
