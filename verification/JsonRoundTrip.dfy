/** Parsing what was printed gives back the value. */
module JsonRoundTrip {
  import opened JsonParser
  import opened JsonValue
  import opened Options

  // ---- Spaces ----

  predicate Spaces(s: Text) {
    forall i :: 0 <= i < |s| ==> IsSpace(s[i])
  }

  lemma {:induction false} SkipSpaces(w: Text, s: Text)
    requires Spaces(w)
    ensures SkipSpace(w + s) == SkipSpace(s)
  {
    if w == [] {
      assert w + s == s;
    } else {
      assert (w + s)[1..] == w[1..] + s;
      SkipSpaces(w[1..], s);
    }
  }

  /** `expect` on spaces followed by `c`. */
  lemma SeesThrough(w: Text, c: Byte, s: Text, d: Byte)
    requires Spaces(w) && !IsSpace(c)
    ensures Sees(w + ([c] + s), d) <==> c == d
    ensures After(w + ([c] + s), d) == if c == d then s else [c] + s
  {
    SkipSpaces(w, [c] + s);
    assert SkipSpace([c] + s) == [c] + s;
    assert ([c] + s)[1..] == s;
  }

  lemma SeesNow(c: Byte, s: Text, d: Byte)
    requires !IsSpace(c)
    ensures Sees([c] + s, d) <==> c == d
    ensures After([c] + s, d) == if c == d then s else [c] + s
  {
    SeesThrough([], c, s, d);
    assert [] + ([c] + s) == [c] + s;
  }

  lemma IndentIsSpaces(indent: int)
    ensures Spaces(Indent(indent))
  {
  }

  // ---- Strings ----

  lemma HexDigitValue(n: nat)
    requires n < 16
    ensures HexValue(HexDigit(n)) == Some(n)
  {
  }

  lemma QuadHexReadsOne(c: Byte, s: Text, i: nat, acc: nat)
    requires i < 4 && acc < BitOps.Pow2(4 * i) && HexValue(c).Some?
    ensures acc * 16 + HexValue(c).value < BitOps.Pow2(4 * (i + 1))
    ensures QuadHex([c] + s, i, acc) == QuadHex(s, i + 1, acc * 16 + HexValue(c).value)
  {
    hide BitOps.Pow2;
    QuadHexStep([c] + s, i, acc);
    assert ([c] + s)[1..] == s;
  }

  /** Four hexadecimal digits are read as their value. */
  lemma QuadHexReads(a: Byte, b: Byte, c: Byte, d: Byte, s: Text)
    requires HexValue(a).Some? && HexValue(b).Some? && HexValue(c).Some? && HexValue(d).Some?
    ensures QuadHex([a] + ([b] + ([c] + ([d] + s))), 0, 0)
      == Ok(((HexValue(a).value * 16 + HexValue(b).value) * 16 + HexValue(c).value) * 16 + HexValue(d).value, s)
  {
    hide HexValue, BitOps.Pow2;
    ZeroBits();
    var x := HexValue(a).value;
    QuadHexReadsOne(a, [b] + ([c] + ([d] + s)), 0, 0);
    QuadHexReadsOne(b, [c] + ([d] + s), 1, x);
    QuadHexReadsOne(c, [d] + s, 2, x * 16 + HexValue(b).value);
    QuadHexReadsOne(d, s, 3, (x * 16 + HexValue(b).value) * 16 + HexValue(c).value);
  }

  /** A control character comes back from its `\\u00XX` form. */
  lemma ControlEscape(c: Byte, s: Text)
    requires c < 128
    ensures Codepoint([48, 48, HexDigit(c / 16), HexDigit(c % 16)] + s) == Ok([c], s)
  {
    hide QuadHex;
    var h, l := HexDigit(c / 16), HexDigit(c % 16);
    HexDigitValue(c / 16);
    HexDigitValue(c % 16);
    assert [48, 48, h, l] + s == [48] + ([48] + ([h] + ([l] + s)));
    QuadHexReads(48, 48, h, l, s);
  }

  /** Every character comes back from its printed form. */
  lemma PieceRoundTrip(c: Byte, s: Text)
    ensures var t := Escape(c) + s;
      t != [] && t[0] != QUOTE && StringPiece(t) == Ok([c], s)
  {
    var t := Escape(c) + s;
    if |Escape(c)| == 1 {
      assert t[1..] == s;
    } else if |Escape(c)| == 2 {
      assert t[2..] == s;
    } else {
      assert t[2..] == [48, 48, HexDigit(c / 16), HexDigit(c % 16)] + s;
      ControlEscape(c, s);
    }
  }

  lemma {:induction false} StringRoundTrip(x: Text, s: Text)
    ensures StringBody(EscapeAll(x) + [QUOTE] + s) == Ok(x, s)
  {
    hide StringPiece, Escape;
    var t := EscapeAll(x) + [QUOTE] + s;
    if x == [] {
      assert t[0] == QUOTE && t[1..] == s;
    } else {
      var u := EscapeAll(x[1..]) + [QUOTE] + s;
      assert t == Escape(x[0]) + u;
      PieceRoundTrip(x[0], u);
      StringRoundTrip(x[1..], s);
      assert [x[0]] + x[1..] == x;
    }
  }

  // ---- Numbers ----

  /** The text does not continue a number. */
  predicate Ends(s: Text) {
    s == [] || !IsNumberChar(s[0])
  }

  lemma {:induction false} DigitsRoundTrip(n: nat)
    ensures DigitsValue(Digits(n)) == Some(n)
    ensures Digits(n) != [] && IsDigit(Digits(n)[0])
    ensures forall i :: 0 <= i < |Digits(n)| ==> IsDigit(Digits(n)[i])
  {
    if n < 10 {
    } else {
      DigitsRoundTrip(n / 10);
      var s := Digits(n);
      assert s[..|s| - 1] == Digits(n / 10) && s[|s| - 1] == 48 + n % 10;
    }
  }

  lemma {:induction false} NumberLengthIs(d: Text, s: Text)
    requires Ends(s) && forall i :: 0 <= i < |d| ==> IsNumberChar(d[i])
    ensures NumberLength(d + s) == |d|
  {
    if d == [] {
      assert d + s == s;
    } else {
      assert (d + s)[1..] == d[1..] + s;
      NumberLengthIs(d[1..], s);
    }
  }

  lemma IntRoundTrip(n: int, s: Text)
    requires WellFormed(Int(n)) && Ends(s)
    ensures var t := IntText(n) + s;
      && t != [] && (IsDigit(t[0]) || t[0] == MINUS)
      && Number(t) == Ok(Int(n), s)
  {
    var d := IntText(n);
    DigitsRoundTrip(if n < 0 then -n else n);
    NumberLengthIs(d, s);
    assert (d + s)[..|d|] == d && (d + s)[|d|..] == s;
    if n < 0 { assert d[1..] == Digits(-n); }
  }

  // ---- Values ----

  lemma ParseSkips(w: Text, s: Text)
    requires Spaces(w)
    ensures Parse(w + s) == Parse(s)
  {
    hide Token;
    SkipSpaces(w, s);
  }

  /** The first character of a printed value. */
  lemma PrintStarts(v: Value, indent: int)
    ensures var t := Print(v, indent);
      t != [] && !IsSpace(t[0]) && t[0] != CLOSE_BRACKET && t[0] != CLOSE_BRACE
  {
    if v.Int? { DigitsRoundTrip(if v.n < 0 then -v.n else v.n); }
  }

  /** A text whose first character is no space is parsed from there. */
  lemma ParseToken(c: Byte, u: Text)
    requires !IsSpace(c)
    ensures Parse([c] + u) == Token([c] + u)
  {
    hide Token;
    assert SkipSpace([c] + u) == [c] + u;
  }

  lemma WordParses(c: Byte, word: Text, tail: Text, v: Value)
    requires (c, word, v) in
      {(110, [117, 108, 108], Null), (102, [97, 108, 115, 101], Bool(false)), (116, [114, 117, 101], Bool(true))}
    ensures Parse([c] + (word + tail)) == Ok(v, tail)
  {
    hide Items, Members, StringBody, Number;
    var u := word + tail;
    ParseToken(c, u);
    assert ([c] + u)[1..] == u && u[..|word|] == word && u[|word|..] == tail;
  }

  lemma StringParses(x: Text, tail: Text)
    ensures Parse(Quote(x) + tail) == Ok(Str(x), tail)
  {
    hide Items, Members, Number, StringBody, EscapeAll, Keyword;
    var u := EscapeAll(x) + [QUOTE] + tail;
    assert Quote(x) + tail == [QUOTE] + u;
    ParseToken(QUOTE, u);
    assert ([QUOTE] + u)[1..] == u;
    StringRoundTrip(x, tail);
  }

  lemma IntParses(n: int, tail: Text)
    requires WellFormed(Int(n)) && Ends(tail)
    ensures Parse(IntText(n) + tail) == Ok(Int(n), tail)
  {
    hide Items, Members, Number, StringBody, IntText, Keyword;
    IntRoundTrip(n, tail);
    var t := IntText(n) + tail;
    assert t == [t[0]] + t[1..];
    ParseToken(t[0], t[1..]);
  }

  /** The values that are not containers. */
  lemma ScalarParses(v: Value, tail: Text)
    requires WellFormed(v) && !v.Arr? && !v.Obj? && Ends(tail)
    ensures Parse(Print(v, -1) + tail) == Ok(v, tail)
  {
    hide Parse, Quote, IntText;
    match v
    case Null =>
      assert Print(v, -1) + tail == [110] + ([117, 108, 108] + tail);
      WordParses(110, [117, 108, 108], tail, v);
    case Bool(b) =>
      var c, word := if b then 116 else 102, if b then [114, 117, 101] else [97, 108, 115, 101];
      assert Print(v, -1) + tail == [c] + (word + tail);
      WordParses(c, word, tail, v);
    case Int(n) => IntParses(n, tail);
    case Str(x) => StringParses(x, tail);
  }

  lemma TokenArray(u: Text)
    ensures Token([OPEN_BRACKET] + u) ==
      if Sees(u, CLOSE_BRACKET) then Ok(Arr([]), After(u, CLOSE_BRACKET))
      else match Items(After(u, CLOSE_BRACKET))
        case Ok(items, rest) => Ok(Arr(items), rest)
        case Fail => Fail
        case Float => Float
  {
    hide Items, Members, Sees, After;
    assert ([OPEN_BRACKET] + u)[1..] == u;
  }

  lemma TokenObject(u: Text)
    ensures Token([OPEN_BRACE] + u) ==
      if Sees(u, CLOSE_BRACE) then Ok(Obj([]), After(u, CLOSE_BRACE))
      else match Members([], After(u, CLOSE_BRACE))
        case Ok(members, rest) => Ok(Obj(members), rest)
        case Fail => Fail
        case Float => Float
  {
    hide Items, Members, Sees, After;
    assert ([OPEN_BRACE] + u)[1..] == u;
  }

  /** The newline that ends a pretty text. */
  ghost function Tail(indent: int, s: Text): Text {
    (if indent == 0 then [NEWLINE] else []) + s
  }

  function Inner(indent: int): int { if indent == -1 then -1 else indent + 1 }

  lemma PrintScalar(v: Value, indent: int, s: Text)
    requires !v.Arr? && !v.Obj?
    ensures Print(v, indent) + s == Print(v, -1) + Tail(indent, s)
  {
  }

  lemma PrintArray(items: seq<Value>, indent: int, s: Text)
    ensures Print(Arr(items), indent) + s == [OPEN_BRACKET] +
      (PrintItems(items, Inner(indent))
        + ((if items == [] then [] else Indent(indent)) + ([CLOSE_BRACKET] + Tail(indent, s))))
  {
    hide PrintItems, Indent;
  }

  lemma PrintObject(members: seq<Member>, indent: int, s: Text)
    ensures Print(Obj(members), indent) + s == [OPEN_BRACE] +
      (PrintMembers(members, Inner(indent))
        + ((if members == [] then [] else Indent(indent)) + ([CLOSE_BRACE] + Tail(indent, s))))
  {
    hide PrintMembers, Indent;
  }

  lemma TailEnds(indent: int, s: Text)
    requires Ends(s)
    ensures Ends(Tail(indent, s))
  {
  }

  /** A printed value is read back, and the text after it is left. */
  lemma {:induction false} PrintParses(v: Value, indent: int, s: Text)
    requires WellFormed(v) && Ends(s) && indent >= -1
    ensures Parse(Print(v, indent) + s) == Ok(v, Tail(indent, s))
    decreases v, 1
  {
    hide Print, Parse, Tail, Ends;
    TailEnds(indent, s);
    match v
    case Arr(items) => ArrayParses(items, indent, s);
    case Obj(members) => ObjectParses(members, indent, s);
    case _ =>
      PrintScalar(v, indent, s);
      ScalarParses(v, Tail(indent, s));
  }

  lemma ArrayParses(items: seq<Value>, indent: int, s: Text)
    requires (forall i :: 0 <= i < |items| ==> WellFormed(items[i])) && Ends(s) && indent >= -1
    ensures Parse(Print(Arr(items), indent) + s) == Ok(Arr(items), Tail(indent, s))
    decreases items, 1
  {
    hide Print, PrintItems, Parse, Token, Tail, Ends, Items, Sees, After, Indent, WellFormed;
    var tail, w := Tail(indent, s), Indent(indent);
    PrintArray(items, indent, s);
    var u := PrintItems(items, Inner(indent)) + ((if items == [] then [] else w) + ([CLOSE_BRACKET] + tail));
    ParseToken(OPEN_BRACKET, u);
    TokenArray(u);
    if items == [] {
      NoItems(Inner(indent));
      assert u == [CLOSE_BRACKET] + tail;
      SeesNow(CLOSE_BRACKET, tail, CLOSE_BRACKET);
    } else {
      IndentIsSpaces(indent);
      ItemsParse(items, Inner(indent), w, tail);
      OpenItems(items, Inner(indent), w + ([CLOSE_BRACKET] + tail));
    }
  }

  lemma NoItems(indent: int)
    ensures PrintItems([], indent) == [] && PrintMembers([], indent) == []
  {
  }

  lemma ItemsSkips(w: Text, s: Text)
    requires Spaces(w)
    ensures Items(w + s) == Items(s)
  {
    hide Parse;
    ParseSkips(w, s);
  }

  lemma PrintItemsSplit(items: seq<Value>, inner: int, close: Text)
    requires items != []
    ensures PrintItems(items, inner) + close == Indent(inner) + (Print(items[0], inner) +
      if |items| == 1 then close else [COMMA] + (PrintItems(items[1..], inner) + close))
  {
    hide Print, Indent;
  }

  /** `expect` for the closing bracket fails at the first item, and only skips its indentation. */
  lemma OpenItems(items: seq<Value>, inner: int, close: Text)
    requires items != []
    ensures var u := PrintItems(items, inner) + close;
      !Sees(u, CLOSE_BRACKET) && Items(After(u, CLOSE_BRACKET)) == Items(u)
  {
    hide Items, Print, PrintItems, Indent, Sees, After;
    PrintItemsSplit(items, inner, close);
    var w, p := Indent(inner), Print(items[0], inner);
    var r := if |items| == 1 then close else [COMMA] + (PrintItems(items[1..], inner) + close);
    PrintStarts(items[0], inner);
    IndentIsSpaces(inner);
    assert p + r == [p[0]] + (p[1..] + r);
    SeesThrough(w, p[0], p[1..] + r, CLOSE_BRACKET);
    ItemsSkips(w, p + r);
  }

  /** The loop after an item was read. */
  lemma ItemsStep(s: Text, v: Value, t: Text)
    requires Parse(s) == Ok(v, t)
    ensures Sees(t, COMMA) && Items(After(t, COMMA)).Ok? ==>
      Items(s) == Ok([v] + Items(After(t, COMMA)).value, Items(After(t, COMMA)).rest)
    ensures !Sees(t, COMMA) && Sees(After(t, COMMA), CLOSE_BRACKET) ==>
      Items(s) == Ok([v], After(After(t, COMMA), CLOSE_BRACKET))
  {
    hide Parse, Sees, After;
  }

  /** An item is read. */
  lemma ItemReads(v: Value, inner: int, r: Text)
    requires WellFormed(v) && Ends(r) && (inner == -1 || inner >= 1)
    ensures Parse(Indent(inner) + (Print(v, inner) + r)) == Ok(v, r)
    decreases v, 2
  {
    hide Print, Parse, Ends, Indent, Spaces, WellFormed;
    IndentIsSpaces(inner);
    ParseSkips(Indent(inner), Print(v, inner) + r);
    PrintParses(v, inner, r);
    assert Tail(inner, r) == r;
  }

  lemma LastItem(v: Value, inner: int, w: Text, tail: Text)
    requires WellFormed(v) && (inner == -1 || inner >= 1) && Spaces(w)
    ensures Items(Indent(inner) + (Print(v, inner) + (w + ([CLOSE_BRACKET] + tail)))) == Ok([v], tail)
    decreases v, 3
  {
    hide Print, Parse, Ends, Items, Sees, After, Indent, Spaces, WellFormed;
    var close := w + ([CLOSE_BRACKET] + tail);
    EndsAtClose(w, tail, []);
    ItemReads(v, inner, close);
    ItemsStep(Indent(inner) + (Print(v, inner) + close), v, close);
    SeesThrough(w, CLOSE_BRACKET, tail, COMMA);
    SeesNow(CLOSE_BRACKET, tail, CLOSE_BRACKET);
  }

  lemma MoreItems(v: Value, inner: int, next: Text, vs: seq<Value>, tail: Text)
    requires WellFormed(v) && (inner == -1 || inner >= 1) && Items(next) == Ok(vs, tail)
    ensures Items(Indent(inner) + (Print(v, inner) + ([COMMA] + next))) == Ok([v] + vs, tail)
    decreases v, 3
  {
    hide Print, Parse, Ends, Items, Sees, After, Indent, WellFormed;
    EndsAtClose([], [], next);
    ItemReads(v, inner, [COMMA] + next);
    ItemsStep(Indent(inner) + (Print(v, inner) + ([COMMA] + next)), v, [COMMA] + next);
    SeesNow(COMMA, next, COMMA);
  }

  lemma {:induction false} ItemsParse(items: seq<Value>, inner: int, w: Text, tail: Text)
    requires items != [] && (forall i :: 0 <= i < |items| ==> WellFormed(items[i]))
    requires (inner == -1 || inner >= 1) && Spaces(w)
    ensures Items(PrintItems(items, inner) + (w + ([CLOSE_BRACKET] + tail))) == Ok(items, tail)
    decreases items, 0
  {
    hide Print, PrintItems, Items, Indent, Spaces, WellFormed;
    var v, vs, close := items[0], items[1..], w + ([CLOSE_BRACKET] + tail);
    assert items == [v] + vs;
    PrintItemsSplit(items, inner, close);
    if |items| == 1 {
      assert items == [v];
      LastItem(v, inner, w, tail);
    } else {
      ItemsParse(vs, inner, w, tail);
      MoreItems(v, inner, PrintItems(vs, inner) + close, vs, tail);
    }
  }

  /** After a value, the text continues with a comma, a space or a closing bracket or brace. */
  lemma EndsAtClose(w: Text, tail: Text, next: Text)
    requires Spaces(w)
    ensures Ends(w + ([CLOSE_BRACKET] + tail)) && Ends(w + ([CLOSE_BRACE] + tail)) && Ends([COMMA] + next)
  {
    if w != [] { assert IsSpace(w[0]); }
  }

  lemma ObjectParses(members: seq<Member>, indent: int, s: Text)
    requires Sorted(members) && (forall i :: 0 <= i < |members| ==> WellFormed(members[i].value))
    requires Ends(s) && indent >= -1
    ensures Parse(Print(Obj(members), indent) + s) == Ok(Obj(members), Tail(indent, s))
    decreases members, 1
  {
    hide Print, PrintMembers, Parse, Token, Tail, Ends, Members, Sees, After, Indent, WellFormed, Sorted;
    var tail, w := Tail(indent, s), Indent(indent);
    PrintObject(members, indent, s);
    var u := PrintMembers(members, Inner(indent)) + ((if members == [] then [] else w) + ([CLOSE_BRACE] + tail));
    ParseToken(OPEN_BRACE, u);
    TokenObject(u);
    if members == [] {
      NoItems(Inner(indent));
      assert u == [CLOSE_BRACE] + tail;
      SeesNow(CLOSE_BRACE, tail, CLOSE_BRACE);
    } else {
      IndentIsSpaces(indent);
      assert [] + members == members;
      MembersParse([], members, Inner(indent), w, tail);
      OpenMembers(members, Inner(indent), w + ([CLOSE_BRACE] + tail));
    }
  }

  lemma PrintMembersSplit(members: seq<Member>, inner: int, close: Text)
    requires members != []
    ensures PrintMembers(members, inner) + close == Indent(inner) + (PrintMember(members[0], inner) +
      if |members| == 1 then close else [COMMA] + (PrintMembers(members[1..], inner) + close))
  {
    hide PrintMember, Indent;
  }

  function Gap(inner: int): Text { if inner == -1 then [] else [SPACE] }

  lemma PrintMemberSplit(m: Member, inner: int, r: Text)
    ensures PrintMember(m, inner) + r == Quote(m.key) + ([COLON] + (Gap(inner) + (Print(m.value, inner) + r)))
  {
    hide Print, Quote;
  }

  /** A member is read: its key, and its value. */
  lemma MemberReads(m: Member, inner: int, r: Text)
    requires WellFormed(m.value) && Ends(r) && (inner == -1 || inner >= 1)
    ensures var t := Gap(inner) + (Print(m.value, inner) + r);
      && Key(Indent(inner) + (PrintMember(m, inner) + r)) == Ok(m.key, t)
      && Parse(t) == Ok(m.value, r)
    decreases m, 1
  {
    hide Print, PrintMember, Parse, Ends, Indent, Spaces, WellFormed, Key, Quote;
    PrintMemberSplit(m, inner, r);
    IndentIsSpaces(inner);
    KeyParses(m.key, Indent(inner), Gap(inner) + (Print(m.value, inner) + r));
    GapIsSpace(Gap(inner));
    ParseSkips(Gap(inner), Print(m.value, inner) + r);
    PrintParses(m.value, inner, r);
    assert Tail(inner, r) == r;
  }

  lemma MembersSkips(ms: seq<Member>, w: Text, s: Text)
    requires Spaces(w)
    ensures Members(ms, w + s) == Members(ms, s)
  {
    hide Parse, Key;
    KeySkips(w, s);
  }

  lemma KeySkips(w: Text, s: Text)
    requires Spaces(w)
    ensures Key(w + s) == Key(s)
  {
    hide StringBody;
    SkipSpaces(w, s);
  }

  /** `expect` for the closing brace fails at the first key, and only skips its indentation. */
  lemma OpenMembers(members: seq<Member>, inner: int, close: Text)
    requires members != []
    ensures var u := PrintMembers(members, inner) + close;
      !Sees(u, CLOSE_BRACE) && Members([], After(u, CLOSE_BRACE)) == Members([], u)
  {
    hide Members, Print, PrintMembers, Indent, Sees, After, EscapeAll;
    PrintMembersSplit(members, inner, close);
    var w, r := Indent(inner), if |members| == 1 then close else [COMMA] + (PrintMembers(members[1..], inner) + close);
    PrintMemberSplit(members[0], inner, r);
    var t := PrintMember(members[0], inner) + r;
    var q := t[1..];
    assert t[0] == QUOTE && t == [QUOTE] + q;
    IndentIsSpaces(inner);
    SeesThrough(w, QUOTE, q, CLOSE_BRACE);
    MembersSkips([], w, [QUOTE] + q);
  }

  /** A key and its colon. */
  lemma KeyParses(key: Text, w: Text, s: Text)
    requires Spaces(w)
    ensures Key(w + (Quote(key) + ([COLON] + s))) == Ok(key, s)
  {
    hide EscapeAll, StringBody, Sees, After;
    var body := EscapeAll(key) + [QUOTE] + ([COLON] + s);
    assert Quote(key) + ([COLON] + s) == [QUOTE] + body;
    SeesThrough(w, QUOTE, body, QUOTE);
    StringRoundTrip(key, [COLON] + s);
    SeesNow(COLON, s, COLON);
  }

  /** The loop after a member was read. */
  lemma MembersStep(ms: seq<Member>, s: Text, key: Text, t0: Text, v: Value, t: Text)
    requires Key(s) == Ok(key, t0) && Parse(t0) == Ok(v, t)
    ensures var ms' := Insert(ms, key, v);
      && (Sees(t, COMMA) ==> Members(ms, s) == Members(ms', After(t, COMMA)))
      && (!Sees(t, COMMA) && Sees(After(t, COMMA), CLOSE_BRACE) ==>
            Members(ms, s) == Ok(ms', After(After(t, COMMA), CLOSE_BRACE)))
  {
    hide Parse, Sees, After, Insert, Key;
  }

  lemma LastMember(ms: seq<Member>, m: Member, inner: int, w: Text, tail: Text)
    requires WellFormed(m.value) && (inner == -1 || inner >= 1) && Spaces(w)
    ensures Members(ms, Indent(inner) + (PrintMember(m, inner) + (w + ([CLOSE_BRACE] + tail))))
      == Ok(Insert(ms, m.key, m.value), tail)
    decreases m, 2
  {
    hide Print, PrintMember, Parse, Ends, Members, Sees, After, Indent, Spaces, WellFormed, Key, Insert;
    var close := w + ([CLOSE_BRACE] + tail);
    EndsAtClose(w, tail, []);
    MemberReads(m, inner, close);
    MembersStep(ms, Indent(inner) + (PrintMember(m, inner) + close), m.key,
      Gap(inner) + (Print(m.value, inner) + close), m.value, close);
    SeesThrough(w, CLOSE_BRACE, tail, COMMA);
    SeesNow(CLOSE_BRACE, tail, CLOSE_BRACE);
  }

  lemma MoreMembers(ms: seq<Member>, m: Member, inner: int, next: Text)
    requires WellFormed(m.value) && (inner == -1 || inner >= 1)
    ensures Members(ms, Indent(inner) + (PrintMember(m, inner) + ([COMMA] + next)))
      == Members(Insert(ms, m.key, m.value), next)
    decreases m, 2
  {
    hide Print, PrintMember, Parse, Ends, Members, Sees, After, Indent, WellFormed, Key, Insert;
    var r := [COMMA] + next;
    EndsAtClose([], [], next);
    MemberReads(m, inner, r);
    MembersStep(ms, Indent(inner) + (PrintMember(m, inner) + r), m.key,
      Gap(inner) + (Print(m.value, inner) + r), m.value, r);
    SeesNow(COMMA, next, COMMA);
  }

  lemma {:induction false} MembersParse(done: seq<Member>, members: seq<Member>, inner: int, w: Text, tail: Text)
    requires members != [] && Sorted(done + members)
    requires forall i :: 0 <= i < |members| ==> WellFormed(members[i].value)
    requires (inner == -1 || inner >= 1) && Spaces(w)
    ensures Members(done, PrintMembers(members, inner) + (w + ([CLOSE_BRACE] + tail))) == Ok(done + members, tail)
    decreases members, 0
  {
    hide PrintMember, PrintMembers, Members, Indent, Spaces, WellFormed, Sorted, Insert;
    var m, rest, close := members[0], members[1..], w + ([CLOSE_BRACE] + tail);
    assert members == [m] + rest;
    PrintMembersSplit(members, inner, close);
    InsertLast(done, members);
    if |members| == 1 {
      assert members == [m];
      LastMember(done, m, inner, w, tail);
    } else {
      assert done + [m] + rest == done + members;
      MembersParse(done + [m], rest, inner, w, tail);
      MoreMembers(done, m, inner, PrintMembers(rest, inner) + close);
    }
  }

  lemma GapIsSpace(gap: Text)
    requires gap == [] || gap == [SPACE]
    ensures Spaces(gap)
  {
  }

  lemma {:induction false} LessIsStrict(a: Text, b: Text)
    requires Less(a, b)
    ensures a != b && !Less(b, a)
  {
    if a == [] || a[0] != b[0] {
    } else {
      LessIsStrict(a[1..], b[1..]);
    }
  }

  /** A key above all others is added at the end. */
  lemma InsertLast(done: seq<Member>, members: seq<Member>)
    requires members != [] && Sorted(done + members)
    ensures Insert(done, members[0].key, members[0].value) == done + [members[0]]
    decreases done
  {
    if done != [] {
      var all := done + members;
      assert all[0] == done[0] && all[|done|] == members[0];
      LessIsStrict(done[0].key, members[0].key);
      assert Sorted(done[1..] + members) by { assert done[1..] + members == all[1..]; }
      InsertLast(done[1..], members);
      assert done == [done[0]] + done[1..];
    }
  }

  /** Printing and parsing a value gives it back, in compact and in pretty form; what is left is nothing, or
      the newline that ends a pretty text. */
  lemma RoundTrip(v: Value, prettify: bool)
    requires WellFormed(v)
    ensures Parse(Serialize(v, prettify)) == Ok(v, if prettify then [NEWLINE] else [])
  {
    PrintParses(v, if prettify then 0 else -1, []);
    assert Serialize(v, prettify) + [] == Serialize(v, prettify);
  }

  // ---- Everything that is parsed can be printed ----

  lemma {:induction false} LessTransitive(a: Text, b: Text, c: Text)
    requires Less(a, b) && Less(b, c)
    ensures Less(a, c)
  {
    if a == [] || a[0] != b[0] || b[0] != c[0] {
    } else {
      LessTransitive(a[1..], b[1..], c[1..]);
    }
  }

  lemma {:induction false} LessTotal(a: Text, b: Text)
    requires a != b
    ensures Less(a, b) || Less(b, a)
  {
    if a == [] || b == [] || a[0] != b[0] {
    } else {
      TailsDiffer(a, b);
      LessTotal(a[1..], b[1..]);
    }
  }

  lemma TailsDiffer(a: Text, b: Text)
    requires a != [] && b != [] && a[0] == b[0] && a != b
    ensures a[1..] != b[1..]
  {
    assert a == [a[0]] + a[1..] && b == [b[0]] + b[1..];
  }

  /** The keys of the map, and the order, after an insertion. */
  lemma {:induction false} InsertSorted(ms: seq<Member>, key: Text, v: Value)
    requires Sorted(ms)
    ensures Sorted(Insert(ms, key, v))
    ensures forall m :: m in Insert(ms, key, v) ==> m == Member(key, v) || m in ms
    ensures Member(key, v) in Insert(ms, key, v)
    decreases ms
  {
    if ms != [] {
      var tail := ms[1..];
      assert Sorted(tail);
      assert forall m :: m in tail ==> Less(ms[0].key, m.key);
      if ms[0].key == key {
        HeadSorted(Member(key, v), tail);
      } else if Less(key, ms[0].key) {
        forall m | m in ms ensures Less(key, m.key) {
          if m != ms[0] { LessTransitive(key, ms[0].key, m.key); }
        }
        HeadSorted(Member(key, v), ms);
      } else {
        LessTotal(key, ms[0].key);
        InsertSorted(tail, key, v);
        HeadSorted(ms[0], Insert(tail, key, v));
      }
    }
  }

  /** The other members stay, and the key has one value. */
  lemma {:induction false} InsertKeeps(ms: seq<Member>, key: Text, v: Value)
    requires Sorted(ms)
    ensures forall m: Member :: m.key != key ==> (m in Insert(ms, key, v) <==> m in ms)
    ensures forall m :: m in Insert(ms, key, v) && m.key == key ==> m == Member(key, v)
    decreases ms
  {
    hide Less;
    if ms == [] {
    } else {
      var tail := ms[1..];
      assert ms == [ms[0]] + tail;
      assert forall m :: m in tail ==> Less(ms[0].key, m.key);
      if ms[0].key == key {
        KeyNotAbove(key, tail);
      } else if Less(key, ms[0].key) {
        forall m | m in ms ensures m.key != key {
          if m != ms[0] { LessTransitive(key, ms[0].key, m.key); }
          LessIsStrict(key, m.key);
        }
      } else {
        InsertKeeps(tail, key, v);
      }
    }
  }

  lemma KeyNotAbove(key: Text, ms: seq<Member>)
    requires forall m :: m in ms ==> Less(key, m.key)
    ensures forall m :: m in ms ==> m.key != key
  {
    forall m | m in ms ensures m.key != key {
      LessIsStrict(key, m.key);
    }
  }

  lemma HeadSorted(m: Member, ms: seq<Member>)
    requires Sorted(ms) && forall x :: x in ms ==> Less(m.key, x.key)
    ensures Sorted([m] + ms)
  {
    var all := [m] + ms;
    forall i, j | 0 <= i < j < |all| ensures Less(all[i].key, all[j].key) {
      assert all[j] == ms[j - 1] && ms[j - 1] in ms;
    }
  }

  ghost predicate AllWellFormed(ms: seq<Member>) {
    forall m :: m in ms ==> WellFormed(m.value)
  }

  /** The parser only builds values the printer accepts: 64-bit integers, and maps in key order. */
  lemma {:induction false} ParseWellFormed(s: Text)
    ensures Parse(s).Ok? ==> WellFormed(Parse(s).value)
    decreases |s|, 1
  {
    if SkipSpace(s) == [] {
    } else {
      TokenWellFormed(SkipSpace(s));
    }
  }

  lemma {:induction false} TokenWellFormed(t: Text)
    requires t != []
    ensures Token(t).Ok? ==> WellFormed(Token(t).value)
    decreases |t|, 0
  {
    hide Parse, Items, Members, StringBody, Sees, After, IntOf, DigitsValue;
    var u := t[1..];
    if t[0] == OPEN_BRACKET && !Sees(u, CLOSE_BRACKET) {
      ItemsWellFormed(After(u, CLOSE_BRACKET));
    } else if t[0] == OPEN_BRACE && !Sees(u, CLOSE_BRACE) {
      MembersWellFormed([], After(u, CLOSE_BRACE));
    } else if IsDigit(t[0]) || t[0] == MINUS {
      IntOfRange(t[..NumberLength(t)]);
    }
  }

  lemma IntOfRange(s: Text)
    ensures IntOf(s).Some? ==> WellFormed(Int(IntOf(s).value))
  {
  }

  lemma {:induction false} ItemsWellFormed(s: Text)
    ensures Items(s).Ok? ==> forall i :: 0 <= i < |Items(s).value| ==> WellFormed(Items(s).value[i])
    decreases |s|, 2
  {
    hide Parse, Sees, After;
    ParseWellFormed(s);
    if Parse(s).Ok? && Sees(Parse(s).rest, COMMA) {
      ItemsWellFormed(After(Parse(s).rest, COMMA));
    }
  }

  lemma {:induction false} MembersWellFormed(ms: seq<Member>, s: Text)
    requires Sorted(ms) && AllWellFormed(ms)
    ensures Members(ms, s).Ok? ==> Sorted(Members(ms, s).value) && AllWellFormed(Members(ms, s).value)
    decreases |s|, 2
  {
    hide Parse, Sees, After, Key, Insert;
    var key := Key(s);
    if key.Ok? {
      ParseWellFormed(key.rest);
      var v := Parse(key.rest);
      if v.Ok? {
        InsertSorted(ms, key.value, v.value);
        if Sees(v.rest, COMMA) {
          MembersWellFormed(Insert(ms, key.value, v.value), After(v.rest, COMMA));
        }
      }
    }
  }

  /** Whatever text a value was parsed from, printing it and parsing again gives the same value. */
  lemma ReparseIsStable(s: Text, prettify: bool)
    requires Parse(s).Ok?
    ensures Parse(Serialize(Parse(s).value, prettify)) == Ok(Parse(s).value, if prettify then [NEWLINE] else [])
  {
    ParseWellFormed(s);
    RoundTrip(Parse(s).value, prettify);
  }
}
