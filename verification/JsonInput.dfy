/** The recursive-descent parser of controller/include/picojson.h on its cursor with one character of
    pushback. Every method is proved to compute what `JsonParser` says about the unread text. */
module JsonInput {
  import opened BitOps
  import opened JsonParser
  import opened JsonValue
  import opened Options

  datatype Outcome = Done(value: Value) | Failed | Floating

  /** The outcome and the unread text are those of the specification. */
  ghost predicate Agrees(o: Outcome, rest: Text, spec: Parsed<Value>) {
    match spec
    case Ok(v, t) => o == Done(v) && rest == t
    case Fail => o == Failed
    case Float => o == Floating
  }

  ghost function Newlines(s: Text): nat {
    if s == [] then 0 else Newlines(s[..|s| - 1]) + if s[|s| - 1] == NEWLINE then 1 else 0
  }

  class Input {
    const text: Text
    var cur: nat
    var consumed: bool
    var line: nat

    ghost predicate Valid()
      reads this
    {
      cur <= |text| && (consumed ==> cur < |text|) && line == 1 + Newlines(text[..cur])
    }

    /** The text `getc` reads next. */
    ghost function Rest(): Text
      requires Valid()
      reads this
    {
      if consumed then text[cur + 1..] else text[cur..]
    }

    /** The text `getc` reads after an `ungetc`. */
    ghost function Unread(): Text
      requires Valid()
      reads this
    {
      text[cur..]
    }

    constructor (text: Text)
      ensures Valid() && Rest() == text && this.text == text
    {
      this.text := text;
      cur, consumed, line := 0, false, 1;
    }

    method GetC() returns (ch: int)
      requires Valid()
      modifies this
      ensures Valid() && Unread() == old(Rest())
      ensures old(Rest()) == [] ==> ch == -1 && Rest() == []
      ensures old(Rest()) != [] ==> ch == old(Rest())[0] && Rest() == old(Rest())[1..]
    {
      if consumed {
        assert text[..cur + 1] == text[..cur] + [text[cur]];
        if text[cur] == NEWLINE {
          line := line + 1;
        }
        cur := cur + 1;
      }
      if cur == |text| {
        consumed := false;
        return -1;
      }
      consumed := true;
      return text[cur];
    }

    method UngetC()
      requires Valid()
      modifies this`consumed
      ensures Valid() && Rest() == old(Unread())
    {
      consumed := false;
    }

    method SkipWs()
      requires Valid()
      modifies this
      ensures Valid() && Rest() == SkipSpace(old(Rest()))
    {
      while true
        invariant Valid() && SkipSpace(Rest()) == SkipSpace(old(Rest()))
        decreases |Rest()|
      {
        var ch := GetC();
        if !(ch == 32 || ch == 9 || ch == 10 || ch == 13) {
          UngetC();
          break;
        }
      }
    }

    method Expect(c: Byte) returns (ok: bool)
      requires Valid()
      modifies this
      ensures Valid() && ok == Sees(old(Rest()), c) && Rest() == After(old(Rest()), c)
    {
      SkipWs();
      var ch := GetC();
      if ch != c {
        UngetC();
        return false;
      }
      return true;
    }

    method Match(pattern: Text) returns (ok: bool)
      requires Valid()
      modifies this
      ensures Valid() && ok == (pattern <= old(Rest()))
      ensures ok ==> Rest() == old(Rest())[|pattern|..]
    {
      hide Newlines;
      var i := 0;
      ghost var start := Rest();
      while i < |pattern|
        invariant Valid() && 0 <= i <= |pattern| && i <= |start|
        invariant pattern[..i] == start[..i] && Rest() == start[i..]
      {
        NextOf(start, pattern, i);
        var ch := GetC();
        if ch != pattern[i] {
          UngetC();
          return false;
        }
        i := i + 1;
      }
      return true;
    }

    method ParseQuadHex() returns (r: int)
      requires Valid()
      modifies this
      ensures Valid()
      ensures var spec := QuadHex(old(Rest()), 0, 0);
        if spec.Ok? then r == spec.value && Rest() == spec.rest else r == -1
    {
      hide QuadHex, Pow2, Newlines;
      var uni, i := 0, 0;
      ZeroBits();
      while i < 4
        invariant Valid() && 0 <= i <= 4 && 0 <= uni < Pow2(4 * i)
        invariant QuadHex(Rest(), i, uni) == QuadHex(old(Rest()), 0, 0)
      {
        QuadHexStep(Rest(), i, uni);
        var hex := GetC();
        if hex == -1 {
          return -1;
        }
        var digit;
        if 48 <= hex <= 57 {
          digit := hex - 48;
        } else if 65 <= hex <= 70 {
          digit := hex - (65 - 10);
        } else if 97 <= hex <= 102 {
          digit := hex - (97 - 10);
        } else {
          UngetC();
          return -1;
        }
        uni := uni * 16 + digit;
        i := i + 1;
      }
      QuadHexDone(Rest(), uni);
      return uni;
    }

    /** The bytes appended to the string. */
    method ParseCodepoint() returns (r: Option<Text>)
      requires Valid()
      modifies this
      ensures Valid()
      ensures var spec := Codepoint(old(Rest()));
        if spec.Ok? then r == Some(spec.value) && Rest() == spec.rest else r == None
    {
      hide QuadHex, Encode, Or, And, Pow2, Newlines;
      var uni := ParseQuadHex();
      if uni == -1 {
        return None;
      }
      if 0xd800 <= uni <= 0xdfff {
        if 0xdc00 <= uni {
          return None;
        }
        var second := ParseSecondUnit();
        if !(0xdc00 <= second <= 0xdfff) {
          return None;
        }
        uni := Or((uni - 0xd800) * 1024, And(second - 0xdc00, 0x3ff));
        uni := uni + 0x10000;
      }
      return Some(Encode(uni));
    }

    /** The escape that must follow a high surrogate. */
    method ParseSecondUnit() returns (r: int)
      requires Valid()
      modifies this
      ensures Valid()
      ensures var t := old(Rest());
        if |t| < 2 || t[0] != BACKSLASH || t[1] != 117 || !QuadHex(t[2..], 0, 0).Ok? then r == -1
        else r == QuadHex(t[2..], 0, 0).value && Rest() == QuadHex(t[2..], 0, 0).rest
    {
      hide QuadHex, Newlines;
      AfterTwo(Rest());
      var ch := GetC();
      if ch != BACKSLASH {
        UngetC();
        return -1;
      }
      ch := GetC();
      if ch != 117 {
        UngetC();
        return -1;
      }
      r := ParseQuadHex();
    }

    /** `out` grows by one character or escape per round. */
    method ParseString() returns (r: Option<Text>)
      requires Valid()
      modifies this
      ensures Valid()
      ensures var spec := StringBody(old(Rest()));
        if spec.Ok? then r == Some(spec.value) && Rest() == spec.rest else r == None
    {
      hide StringBody, StringPiece, Prepend, Newlines;
      var out: Text := [];
      PrependNothing(Rest());
      while true
        invariant Valid() && StringBody(old(Rest())) == Prepend(out, StringBody(Rest()))
        decreases |Rest()|
      {
        ghost var s := Rest();
        StringEnds(out, s);
        var ch := GetC();
        if ch < 32 {
          UngetC();
          return None;
        } else if ch == QUOTE {
          return Some(out);
        } else {
          var bytes := ParsePiece(ch, s);
          if bytes == None {
            return None;
          }
          PrependPiece(out, s, bytes.value, Rest());
          out := out + bytes.value;
        }
      }
    }

    /** One round of the loop, whose first character was read. */
    method ParsePiece(ch: Byte, ghost s: Text) returns (r: Option<Text>)
      requires Valid() && s != [] && s[0] == ch && Rest() == s[1..] && ch >= 32 && ch != QUOTE
      modifies this
      ensures Valid()
      ensures var spec := StringPiece(s);
        if spec.Ok? then r == Some(spec.value) && Rest() == spec.rest else r == None
    {
      hide Codepoint, Unescape, Newlines;
      if ch != BACKSLASH {
        return Some([ch]);
      }
      var next := GetC();
      if next == -1 {
        return None;
      }
      assert s[1] == next && Rest() == s[2..];
      if next == 117 {
        r := ParseCodepoint();
      } else if Unescape(next).Some? {
        r := Some([Unescape(next).value]);
      } else {
        r := None;
      }
    }

    /** The longest text of number characters. */
    method ParseNumber() returns (num: Text)
      requires Valid()
      modifies this
      ensures Valid() && num == old(Rest())[..NumberLength(old(Rest()))]
      ensures Rest() == old(Rest())[NumberLength(old(Rest()))..]
    {
      hide NumberLength, Newlines;
      num := [];
      ghost var s := Rest();
      NumberEnds(s, 0);
      while true
        invariant Valid() && |num| <= |s| && num == s[..|num|] && Rest() == s[|num|..]
        invariant NumberLength(s) == |num| + NumberLength(Rest())
        decreases |Rest()|
      {
        NumberEnds(s, |num|);
        var ch := GetC();
        if 48 <= ch <= 57 || ch == 43 || ch == 45 || ch == 101 || ch == 69 || ch == 46 {
          num := num + [ch];
        } else {
          UngetC();
          break;
        }
      }
    }

    /** `_parse`. */
    method ParseValue() returns (o: Outcome)
      requires Valid()
      modifies this
      ensures Valid() && Agrees(o, Rest(), Parse(old(Rest())))
      decreases |Rest()|, 0
    {
      hide Token, Array, Object, StringBody, Keyword, IntOf, NumberLength, SkipSpace, Newlines;
      SkipWs();
      ghost var t := Rest();
      var ch := GetC();
      if ch == -1 {
        return Failed;
      }
      TokenCases(t);
      if ch == 110 {
        o := ParseWord([117, 108, 108], Null);
      } else if ch == 102 {
        o := ParseWord([97, 108, 115, 101], Bool(false));
      } else if ch == 116 {
        o := ParseWord([114, 117, 101], Bool(true));
      } else if ch == QUOTE {
        var s := ParseString();
        o := if s == None then Failed else Done(Str(s.value));
      } else if ch == OPEN_BRACKET {
        o := ParseArray();
      } else if ch == OPEN_BRACE {
        o := ParseObject();
      } else if 48 <= ch <= 57 || ch == MINUS {
        UngetC();
        var num := ParseNumber();
        var n := IntOf(num);
        o := if n.Some? then Done(Int(n.value)) else Floating;
      } else {
        UngetC();
        o := Failed;
      }
    }

    method ParseWord(word: Text, v: Value) returns (o: Outcome)
      requires Valid()
      modifies this
      ensures Valid() && Agrees(o, Rest(), Keyword(old(Rest()), word, v))
    {
      var ok := Match(word);
      o := if ok then Done(v) else Failed;
    }

    /** `_parse_array`, after the opening bracket. */
    method ParseArray() returns (o: Outcome)
      requires Valid()
      modifies this
      ensures Valid() && Agrees(o, Rest(), Array(old(Rest())))
      decreases |Rest()|, 1
    {
      hide Parse, Items, Sees, After, Newlines;
      var ok := Expect(CLOSE_BRACKET);
      if ok {
        return Done(Arr([]));
      }
      ghost var start := Rest();
      var items: seq<Value> := [];
      NoItems(start);
      while true
        invariant Valid() && |Rest()| <= |start|
        invariant Items(start) == PrependItems(items, Items(Rest()))
        decreases |Rest()|
      {
        ghost var s := Rest();
        ItemsCases(s, items);
        var item := ParseValue();
        if item.Failed? {
          return Failed;
        }
        if item.Floating? {
          return Floating;
        }
        items := items + [item.value];
        ok := Expect(COMMA);
        if !ok {
          break;
        }
      }
      ok := Expect(CLOSE_BRACKET);
      o := if ok then Done(Arr(items)) else Failed;
    }

    /** `_parse_object`, after the opening brace. */
    method ParseObject() returns (o: Outcome)
      requires Valid()
      modifies this
      ensures Valid() && Agrees(o, Rest(), Object(old(Rest())))
      decreases |Rest()|, 1
    {
      hide Parse, Members, Sees, After, Key, Insert, Newlines;
      var ok := Expect(CLOSE_BRACE);
      if ok {
        return Done(Obj([]));
      }
      ghost var start := Rest();
      var members: seq<Member> := [];
      while true
        invariant Valid() && |Rest()| <= |start|
        invariant Members([], start) == Members(members, Rest())
        decreases |Rest()|
      {
        MembersCases(members, Rest());
        var key := ParseKey();
        if key == None {
          return Failed;
        }
        var value := ParseValue();
        if value.Failed? {
          return Failed;
        }
        if value.Floating? {
          return Floating;
        }
        members := Insert(members, key.value, value.value);
        ok := Expect(COMMA);
        if !ok {
          break;
        }
      }
      ok := Expect(CLOSE_BRACE);
      o := if ok then Done(Obj(members)) else Failed;
    }

    method ParseKey() returns (r: Option<Text>)
      requires Valid()
      modifies this
      ensures Valid()
      ensures var spec := Key(old(Rest()));
        if spec.Ok? then r == Some(spec.value) && Rest() == spec.rest else r == None
    {
      hide Sees, After, StringBody, Newlines;
      var ok := Expect(QUOTE);
      if !ok {
        return None;
      }
      r := ParseString();
      if r == None {
        return;
      }
      ok := Expect(COLON);
      if !ok {
        r := None;
      }
    }
  }

  /** `parse`: the value at the start of a text, and the text after it. */
  method ParseText(text: Text) returns (o: Outcome, rest: Text)
    ensures Agrees(o, rest, Parse(text))
  {
    hide Parse;
    var input := new Input(text);
    o := input.ParseValue();
    rest := if input.consumed then text[input.cur + 1..] else text[input.cur..];
  }

  lemma NextOf(s: Text, pattern: Text, i: nat)
    requires i < |pattern| && i <= |s| && pattern[..i] == s[..i]
    ensures i < |s| ==> s[i..] != [] && s[i..][0] == s[i] && s[i..][1..] == s[i + 1..]
    ensures i < |s| && s[i] == pattern[i] ==> pattern[..i + 1] == s[..i + 1]
    ensures i == |s| || s[i] != pattern[i] ==> !(pattern <= s)
  {
  }

  lemma AfterTwo(s: Text)
    ensures |s| == 1 ==> s[1..] == []
    ensures |s| >= 2 ==> s[1..] != [] && s[1..][0] == s[1] && s[1..][1..] == s[2..]
  {
  }

  /** One more character of a number, or its end. */
  lemma NumberEnds(s: Text, k: nat)
    requires k <= |s|
    ensures s[0..] == s
    ensures k == |s| || !IsNumberChar(s[k]) ==> NumberLength(s[k..]) == 0
    ensures k < |s| && IsNumberChar(s[k]) ==> NumberLength(s[k..]) == 1 + NumberLength(s[k + 1..])
    ensures k < |s| ==> s[..k] + [s[k]] == s[..k + 1] && s[k..][0] == s[k] && s[k..][1..] == s[k + 1..]
  {
  }

  lemma TokenCases(t: Text)
    requires t != []
    ensures Token(t) ==
      if t[0] == 110 then Keyword(t[1..], [117, 108, 108], Null)
      else if t[0] == 102 then Keyword(t[1..], [97, 108, 115, 101], Bool(false))
      else if t[0] == 116 then Keyword(t[1..], [114, 117, 101], Bool(true))
      else if t[0] == QUOTE then
        (if StringBody(t[1..]).Ok? then Ok(Str(StringBody(t[1..]).value), StringBody(t[1..]).rest) else Fail)
      else if t[0] == OPEN_BRACKET then Array(t[1..])
      else if t[0] == OPEN_BRACE then Object(t[1..])
      else if IsDigit(t[0]) || t[0] == MINUS then Number(t)
      else Fail
  {
    hide Array, Object, StringBody, Keyword, Number;
  }

  /** The result of an array whose first items are already in `items`. */
  ghost function PrependItems(items: seq<Value>, r: Parsed<seq<Value>>): Parsed<seq<Value>> {
    match r
    case Ok(vs, t) => Ok(items + vs, t)
    case Fail => Fail
    case Float => Float
  }

  lemma NoItems(s: Text)
    ensures Items(s) == PrependItems([], Items(s))
  {
    if Items(s).Ok? { assert [] + Items(s).value == Items(s).value; }
  }

  /** What one round of the array loop leads to. */
  lemma ItemsCases(s: Text, items: seq<Value>)
    ensures Parse(s).Fail? ==> Items(s) == Fail
    ensures Parse(s).Float? ==> Items(s) == Float
    ensures Parse(s).Ok? ==>
      var v, t := Parse(s).value, Parse(s).rest;
      && (Sees(t, COMMA) ==> PrependItems(items, Items(s)) == PrependItems(items + [v], Items(After(t, COMMA))))
      && (!Sees(t, COMMA) && Sees(After(t, COMMA), CLOSE_BRACKET) ==>
            PrependItems(items, Items(s)) == Ok(items + [v], After(After(t, COMMA), CLOSE_BRACKET)))
      && (!Sees(t, COMMA) && !Sees(After(t, COMMA), CLOSE_BRACKET) ==> Items(s) == Fail)
  {
    hide Parse, Sees, After;
    if Parse(s).Ok? && Sees(Parse(s).rest, COMMA) && Items(After(Parse(s).rest, COMMA)).Ok? {
      var v, vs := Parse(s).value, Items(After(Parse(s).rest, COMMA)).value;
      assert items + ([v] + vs) == items + [v] + vs;
    }
  }

  /** What one round of the object loop leads to. */
  lemma MembersCases(ms: seq<Member>, s: Text)
    ensures !Key(s).Ok? ==> Members(ms, s) == Fail
    ensures Key(s).Ok? && Parse(Key(s).rest).Fail? ==> Members(ms, s) == Fail
    ensures Key(s).Ok? && Parse(Key(s).rest).Float? ==> Members(ms, s) == Float
    ensures Key(s).Ok? && Parse(Key(s).rest).Ok? ==>
      var ms', t := Insert(ms, Key(s).value, Parse(Key(s).rest).value), Parse(Key(s).rest).rest;
      Members(ms, s) ==
        if Sees(t, COMMA) then Members(ms', After(t, COMMA))
        else if Sees(After(t, COMMA), CLOSE_BRACE) then Ok(ms', After(After(t, COMMA), CLOSE_BRACE)) else Fail
  {
    hide Parse, Sees, After, Key, Insert;
  }

  /** The result of a string whose first characters are already in `out`. */
  ghost function Prepend(out: Text, r: Parsed<Text>): Parsed<Text> {
    match r
    case Ok(v, t) => Ok(out + v, t)
    case _ => Fail
  }

  lemma PrependNothing(s: Text)
    ensures StringBody(s) == Prepend([], StringBody(s))
  {
    if StringBody(s).Ok? { assert [] + StringBody(s).value == StringBody(s).value; }
  }

  /** The end of a string, and the ways it can go wrong at its first character. */
  lemma StringEnds(out: Text, s: Text)
    ensures s == [] ==> Prepend(out, StringBody(s)) == Fail
    ensures s != [] && s[0] == QUOTE ==> Prepend(out, StringBody(s)) == Ok(out, s[1..])
    ensures s != [] && s[0] != QUOTE && !StringPiece(s).Ok? ==> Prepend(out, StringBody(s)) == Fail
    ensures s != [] && s[0] < 32 ==> Prepend(out, StringBody(s)) == Fail
  {
    hide Codepoint, Unescape;
    assert out + [] == out;
  }

  lemma PrependPiece(out: Text, s: Text, bytes: Text, rest: Text)
    requires s != [] && s[0] != QUOTE && StringPiece(s) == Ok(bytes, rest)
    ensures Prepend(out, StringBody(s)) == Prepend(out + bytes, StringBody(rest))
    ensures |rest| < |s|
  {
    hide StringPiece;
    StringGoesOn(s, bytes, rest);
    if StringBody(rest).Ok? {
      assert out + (bytes + StringBody(rest).value) == out + bytes + StringBody(rest).value;
    }
  }

  lemma StringGoesOn(s: Text, bytes: Text, rest: Text)
    requires s != [] && s[0] != QUOTE && StringPiece(s) == Ok(bytes, rest)
    ensures StringBody(s)
      == (if StringBody(rest).Ok? then Ok(bytes + StringBody(rest).value, StringBody(rest).rest) else Fail)
    ensures |rest| < |s|
  {
    hide StringPiece;
  }
}
