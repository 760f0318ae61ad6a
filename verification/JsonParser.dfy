/** What the parser of controller/include/picojson.h computes on the rest of its input. The class in
    `JsonInput` reads the same text through the one-character pushback cursor. */
module JsonParser {
  import opened BitOps
  import opened JsonValue
  import opened Options

  /** The parsed part and the unread text; `Float` is a number that is not a 64-bit integer, which the source
      hands to `strtod`. */
  datatype Parsed<+T> =
    | Ok(value: T, rest: Text)
    | Fail
    | Float

  predicate IsSpace(c: Byte) { c == SPACE || c == 9 || c == NEWLINE || c == 13 }

  function SkipSpace(s: Text): (r: Text)
    ensures |r| <= |s| && r == s[|s| - |r|..]
    ensures r != [] ==> !IsSpace(r[0])
  {
    if s != [] && IsSpace(s[0]) then SkipSpace(s[1..]) else s
  }

  /** `expect`: whether the next character that is not a space is `c`. */
  predicate Sees(s: Text, c: Byte) {
    SkipSpace(s) != [] && SkipSpace(s)[0] == c
  }

  /** The text after `expect`, whose spaces stay consumed even when it fails. */
  function After(s: Text, c: Byte): (r: Text)
    ensures |r| <= |s| && (Sees(s, c) ==> |r| < |s|)
  {
    if Sees(s, c) then SkipSpace(s)[1..] else SkipSpace(s)
  }

  // ---- Strings ----

  function HexValue(c: Byte): Option<nat> {
    if 48 <= c <= 57 then Some(c - 48)
    else if 65 <= c <= 70 then Some(c - 55)
    else if 97 <= c <= 102 then Some(c - 87)
    else None
  }

  lemma FourMoreBits(k: nat)
    ensures Pow2(k + 4) == 16 * Pow2(k)
  {
    assert Pow2(k + 4) == 2 * Pow2(k + 3) == 4 * Pow2(k + 2) == 8 * Pow2(k + 1);
  }

  /** `_parse_quadhex`, from the digit number `i` on. */
  function QuadHex(s: Text, i: nat, acc: nat): (r: Parsed<nat>)
    requires i <= 4 && acc < Pow2(4 * i)
    ensures !r.Float?
    ensures r.Ok? ==> |r.rest| + 4 - i == |s| && r.value < Pow2(16)
    decreases 4 - i
  {
    if i == 4 then Ok(acc, s)
    else if s == [] || HexValue(s[0]).None? then Fail
    else
      FourMoreBits(4 * i);
      QuadHex(s[1..], i + 1, acc * 16 + HexValue(s[0]).value)
  }

  lemma ZeroBits()
    ensures Pow2(4 * 0) == 1
  {
  }

  lemma QuadHexStep(s: Text, i: nat, acc: nat)
    requires i < 4 && acc < Pow2(4 * i)
    ensures s == [] || HexValue(s[0]).None? ==> QuadHex(s, i, acc) == Fail
    ensures s != [] && HexValue(s[0]).Some? ==>
      && acc * 16 + HexValue(s[0]).value < Pow2(4 * (i + 1))
      && QuadHex(s, i, acc) == QuadHex(s[1..], i + 1, acc * 16 + HexValue(s[0]).value)
  {
    hide Pow2;
    FourMoreBits(4 * i);
  }

  lemma QuadHexDone(s: Text, acc: nat)
    requires acc < Pow2(16)
    ensures QuadHex(s, 4, acc) == Ok(acc, s)
  {
  }

  function ToByte(n: nat): Byte { n % 256 }

  /** The bytes `_parse_codepoint` appends for a code point. */
  function Encode(u: nat): Text {
    if u < 0x80 then [ToByte(u)]
    else
      (if u < 0x800 then [ToByte(Or(0xc0, u / 64))]
       else
         (if u < 0x10000 then [ToByte(Or(0xe0, u / 4096))]
          else [ToByte(Or(0xf0, u / 262144)), ToByte(Or(0x80, And(u / 4096, 0x3f)))])
         + [ToByte(Or(0x80, And(u / 64, 0x3f)))])
      + [ToByte(Or(0x80, And(u, 0x3f)))]
  }

  /** `_parse_codepoint`: the encoded bytes. */
  function Codepoint(s: Text): (r: Parsed<Text>)
    ensures !r.Float?
    ensures r.Ok? ==> |r.rest| < |s|
  {
    var first := QuadHex(s, 0, 0);
    if !first.Ok? then Fail
    else if !(0xd800 <= first.value <= 0xdfff) then Ok(Encode(first.value), first.rest)
    else if 0xdc00 <= first.value then Fail
    else if |first.rest| < 2 || first.rest[0] != BACKSLASH || first.rest[1] != 117 then Fail
    else
      var second := QuadHex(first.rest[2..], 0, 0);
      if !second.Ok? || !(0xdc00 <= second.value <= 0xdfff) then Fail
      else
        var u := Or((first.value - 0xd800) * 1024, And(second.value - 0xdc00, 0x3ff)) + 0x10000;
        Ok(Encode(u), second.rest)
  }

  /** The character a one-letter escape stands for. */
  function Unescape(c: Byte): Option<Byte> {
    if c == QUOTE || c == BACKSLASH || c == SLASH then Some(c)
    else if c == 98 then Some(8)
    else if c == 102 then Some(12)
    else if c == 110 then Some(10)
    else if c == 114 then Some(13)
    else if c == 116 then Some(9)
    else None
  }

  /** One character or escape of a string that does not end here. */
  function StringPiece(s: Text): (r: Parsed<Text>)
    requires s != [] && s[0] != QUOTE
    ensures !r.Float?
    ensures r.Ok? ==> |r.rest| < |s|
  {
    if s[0] < 32 then Fail
    else if s[0] != BACKSLASH then Ok([s[0]], s[1..])
    else if |s| == 1 then Fail
    else if s[1] == 117 then Codepoint(s[2..])
    else if Unescape(s[1]).Some? then Ok([Unescape(s[1]).value], s[2..])
    else Fail
  }

  /** `_parse_string`, after the opening quote. */
  function StringBody(s: Text): (r: Parsed<Text>)
    ensures !r.Float?
    ensures r.Ok? ==> |r.rest| < |s|
    decreases |s|
  {
    if s == [] then Fail
    else if s[0] == QUOTE then Ok([], s[1..])
    else
      var piece := StringPiece(s);
      if !piece.Ok? then Fail
      else
        var tail := StringBody(piece.rest);
        if !tail.Ok? then Fail else Ok(piece.value + tail.value, tail.rest)
  }

  // ---- Numbers ----

  predicate IsDigit(c: Byte) { 48 <= c <= 57 }

  predicate IsNumberChar(c: Byte) {
    IsDigit(c) || c == 43 || c == MINUS || c == 101 || c == 69 || c == 46
  }

  /** The length of the longest prefix of number characters. */
  function NumberLength(s: Text): (n: nat)
    ensures n <= |s|
  {
    if s != [] && IsNumberChar(s[0]) then 1 + NumberLength(s[1..]) else 0
  }

  function DigitsValue(s: Text): (r: Option<nat>) {
    if s == [] then None
    else
      var last := |s| - 1;
      if !IsDigit(s[last]) then None
      else if last == 0 then Some(s[0] - 48)
      else
        match DigitsValue(s[..last])
        case None => None
        case Some(n) => Some(10 * n + (s[last] - 48))
  }

  /** `strtoimax` when it converts the whole text to a 64-bit integer. */
  function IntOf(s: Text): Option<int> {
    var negative := s != [] && s[0] == MINUS;
    var digits := if negative then s[1..] else s;
    match DigitsValue(digits)
    case None => None
    case Some(m) =>
      var n: int := if negative then 0 - m else m;
      if -0x8000_0000_0000_0000 <= n < 0x8000_0000_0000_0000 then Some(n) else None
  }

  function Number(s: Text): (r: Parsed<Value>)
    requires s != [] && (IsDigit(s[0]) || s[0] == MINUS)
    ensures r.Ok? ==> |r.rest| < |s|
  {
    var n := NumberLength(s);
    match IntOf(s[..n])
    case Some(i) => Ok(Int(i), s[n..])
    case None => Float
  }

  // ---- Values ----

  /** `operator[]` of the map followed by an assignment. */
  function Insert(ms: seq<Member>, key: Text, v: Value): seq<Member> {
    if ms == [] then [Member(key, v)]
    else if ms[0].key == key then [Member(key, v)] + ms[1..]
    else if Less(key, ms[0].key) then [Member(key, v)] + ms
    else [ms[0]] + Insert(ms[1..], key, v)
  }

  function Keyword(s: Text, word: Text, v: Value): (r: Parsed<Value>)
    ensures r.Ok? ==> |r.rest| <= |s|
  {
    if |s| >= |word| && s[..|word|] == word then Ok(v, s[|word|..]) else Fail
  }

  /** `_parse`. */
  function Parse(s: Text): (r: Parsed<Value>)
    ensures r.Ok? ==> |r.rest| < |s|
    decreases |s|, 1
  {
    if SkipSpace(s) == [] then Fail else Token(SkipSpace(s))
  }

  /** A value that starts with the first character. */
  function Token(t: Text): (r: Parsed<Value>)
    requires t != []
    ensures r.Ok? ==> |r.rest| < |t|
    decreases |t|, 0
  {
    var c, u := t[0], t[1..];
    if c == 110 then Keyword(u, [117, 108, 108], Null)
    else if c == 102 then Keyword(u, [97, 108, 115, 101], Bool(false))
    else if c == 116 then Keyword(u, [114, 117, 101], Bool(true))
    else if c == QUOTE then
      match StringBody(u)
      case Ok(text, rest) => Ok(Str(text), rest)
      case _ => Fail
    else if c == OPEN_BRACKET then Array(u)
    else if c == OPEN_BRACE then Object(u)
    else if IsDigit(c) || c == MINUS then Number(t)
    else Fail
  }

  /** `_parse_array`, after the opening bracket. */
  function Array(u: Text): (r: Parsed<Value>)
    ensures r.Ok? ==> |r.rest| < |u|
    decreases |u|, 3
  {
    if Sees(u, CLOSE_BRACKET) then Ok(Arr([]), After(u, CLOSE_BRACKET))
    else
      match Items(After(u, CLOSE_BRACKET))
      case Ok(items, rest) => Ok(Arr(items), rest)
      case Fail => Fail
      case Float => Float
  }

  /** `_parse_object`, after the opening brace. */
  function Object(u: Text): (r: Parsed<Value>)
    ensures r.Ok? ==> |r.rest| < |u|
    decreases |u|, 3
  {
    if Sees(u, CLOSE_BRACE) then Ok(Obj([]), After(u, CLOSE_BRACE))
    else
      match Members([], After(u, CLOSE_BRACE))
      case Ok(members, rest) => Ok(Obj(members), rest)
      case Fail => Fail
      case Float => Float
  }

  /** The loop of `_parse_array` and the closing bracket. */
  function Items(s: Text): (r: Parsed<seq<Value>>)
    ensures r.Ok? ==> |r.rest| < |s|
    decreases |s|, 2
  {
    match Parse(s)
    case Fail => Fail
    case Float => Float
    case Ok(v, t) =>
      if Sees(t, COMMA) then
        match Items(After(t, COMMA))
        case Ok(vs, rest) => Ok([v] + vs, rest)
        case Fail => Fail
        case Float => Float
      else
        var u := After(t, COMMA);
        if Sees(u, CLOSE_BRACKET) then Ok([v], After(u, CLOSE_BRACKET)) else Fail
  }

  /** The key of a member, with its quotes and the colon. */
  function Key(s: Text): (r: Parsed<Text>)
    ensures !r.Float?
    ensures r.Ok? ==> |r.rest| < |s|
  {
    if !Sees(s, QUOTE) then Fail
    else
      match StringBody(After(s, QUOTE))
      case Ok(key, t) => if Sees(t, COLON) then Ok(key, After(t, COLON)) else Fail
      case _ => Fail
  }

  /** The loop of `_parse_object`, which adds to `ms`, and the closing brace. */
  function Members(ms: seq<Member>, s: Text): (r: Parsed<seq<Member>>)
    ensures r.Ok? ==> |r.rest| < |s|
    decreases |s|, 2
  {
    var key := Key(s);
    if !key.Ok? then Fail
    else
      match Parse(key.rest)
      case Fail => Fail
      case Float => Float
      case Ok(v, t) =>
        var ms' := Insert(ms, key.value, v);
        if Sees(t, COMMA) then Members(ms', After(t, COMMA))
        else
          var u := After(t, COMMA);
          if Sees(u, CLOSE_BRACE) then Ok(ms', After(u, CLOSE_BRACE)) else Fail
  }
}
