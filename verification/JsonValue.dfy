/** JSON values and their text as written by controller/include/picojson.h, built with 64-bit integers. */
module JsonValue {

  type Byte = b: nat | b < 256

  type Text = seq<Byte>

  datatype Member = Member(key: Text, value: Value)

  /** An object is a `std::map`: its members in the order of their keys. */
  datatype Value =
    | Null
    | Bool(b: bool)
    | Int(n: int)
    | Str(s: Text)
    | Arr(items: seq<Value>)
    | Obj(members: seq<Member>)

  const QUOTE: Byte := 34
  const COMMA: Byte := 44
  const SLASH: Byte := 47
  const COLON: Byte := 58
  const OPEN_BRACKET: Byte := 91
  const BACKSLASH: Byte := 92
  const CLOSE_BRACKET: Byte := 93
  const OPEN_BRACE: Byte := 123
  const CLOSE_BRACE: Byte := 125
  const NEWLINE: Byte := 10
  const SPACE: Byte := 32
  const MINUS: Byte := 45

  /** The order of keys: bytes compared as unsigned. */
  predicate Less(a: Text, b: Text) {
    b != [] && (a == [] || a[0] < b[0] || (a[0] == b[0] && Less(a[1..], b[1..])))
  }

  predicate Sorted(ms: seq<Member>) {
    forall i, j :: 0 <= i < j < |ms| ==> Less(ms[i].key, ms[j].key)
  }

  /** The values the printer and the parser exchange: 64-bit integers, and objects in key order. */
  predicate WellFormed(v: Value) {
    match v
    case Int(n) => -0x8000_0000_0000_0000 <= n < 0x8000_0000_0000_0000
    case Arr(items) => forall i :: 0 <= i < |items| ==> WellFormed(items[i])
    case Obj(members) => Sorted(members) && forall i :: 0 <= i < |members| ==> WellFormed(members[i].value)
    case _ => true
  }

  // ---- Printing ----

  function HexDigit(n: nat): Byte
    requires n < 16
  {
    if n < 10 then 48 + n else 87 + n
  }

  /** `serialize_str_char`. */
  function Escape(c: Byte): Text {
    if c == QUOTE then [BACKSLASH, QUOTE]
    else if c == BACKSLASH then [BACKSLASH, BACKSLASH]
    else if c == SLASH then [BACKSLASH, SLASH]
    else if c == 8 then [BACKSLASH, 98]
    else if c == 12 then [BACKSLASH, 102]
    else if c == NEWLINE then [BACKSLASH, 110]
    else if c == 13 then [BACKSLASH, 114]
    else if c == 9 then [BACKSLASH, 116]
    else if c < 32 || c == 127 then [BACKSLASH, 117, 48, 48, HexDigit(c / 16), HexDigit(c % 16)]
    else [c]
  }

  function EscapeAll(s: Text): Text {
    if s == [] then [] else Escape(s[0]) + EscapeAll(s[1..])
  }

  function Quote(s: Text): Text {
    [QUOTE] + EscapeAll(s) + [QUOTE]
  }

  function Digits(n: nat): Text {
    if n < 10 then [48 + n] else Digits(n / 10) + [48 + n % 10]
  }

  function IntText(n: int): Text {
    if n < 0 then [MINUS] + Digits(-n) else Digits(n)
  }

  /** `_indent`; nothing in compact mode. */
  function Indent(indent: int): Text {
    if indent < 0 then [] else [NEWLINE] + seq(2 * indent, _ => SPACE)
  }

  /** `_serialize`: `indent` is -1 in compact mode and the nesting depth otherwise. */
  function Print(v: Value, indent: int): Text
    decreases v, 1
  {
    var inner := if indent == -1 then -1 else indent + 1;
    var body :=
      match v
      case Null => [110, 117, 108, 108]
      case Bool(b) => if b then [116, 114, 117, 101] else [102, 97, 108, 115, 101]
      case Int(n) => IntText(n)
      case Str(s) => Quote(s)
      case Arr(items) =>
        [OPEN_BRACKET] + PrintItems(items, inner) + (if items == [] then [] else Indent(indent)) + [CLOSE_BRACKET]
      case Obj(members) =>
        [OPEN_BRACE] + PrintMembers(members, inner) + (if members == [] then [] else Indent(indent)) + [CLOSE_BRACE];
    if indent == 0 then body + [NEWLINE] else body
  }

  /** The items with their separators. */
  function PrintItems(items: seq<Value>, indent: int): Text
    decreases items, 0
  {
    if items == [] then []
    else
      Indent(indent) + Print(items[0], indent)
      + (if |items| == 1 then [] else [COMMA] + PrintItems(items[1..], indent))
  }

  function PrintMember(m: Member, indent: int): Text
    decreases m, 1
  {
    Quote(m.key) + [COLON] + (if indent == -1 then [] else [SPACE]) + Print(m.value, indent)
  }

  function PrintMembers(members: seq<Member>, indent: int): Text
    decreases members, 0
  {
    if members == [] then []
    else
      Indent(indent) + PrintMember(members[0], indent)
      + (if |members| == 1 then [] else [COMMA] + PrintMembers(members[1..], indent))
  }

  /** `serialize`. */
  function Serialize(v: Value, prettify: bool): Text {
    Print(v, if prettify then 0 else -1)
  }
}
