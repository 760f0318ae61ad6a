/** How printed texts look: which characters are escaped, that compact text has no spaces outside strings, and
    where pretty text breaks and indents its lines. */
module JsonLayout {
  import opened JsonGrammar
  import opened JsonParser
  import opened JsonRoundTrip
  import opened JsonUnicode
  import opened JsonValue
  import opened Options

  // ---- Characters and numbers ----

  /** A character with a short escape is printed by it; any other control character, and 127, by four lower-case
      hexadecimal digits; every other character as it is. */
  lemma EscapeIs(c: Byte)
    ensures forall i :: 0 <= i < |MEANT| && MEANT[i] == c ==> Escape(c) == [BACKSLASH, LETTERS[i]]
    ensures c !in MEANT && (c < 32 || c == 127) ==>
      Escape(c) == [BACKSLASH, 117, 48, 48, LOWER_HEX[c / 16], LOWER_HEX[c % 16]]
    ensures c !in MEANT && c >= 32 && c != 127 ==> Escape(c) == [c]
  {
    forall i | 0 <= i < |MEANT| && MEANT[i] == c ensures Escape(c) == [BACKSLASH, LETTERS[i]] {
      assert i == 0 || i == 1 || i == 2 || i == 3 || i == 4 || i == 5 || i == 6 || i == 7;
    }
    assert MEANT[0] in MEANT && MEANT[1] in MEANT && MEANT[2] in MEANT && MEANT[3] in MEANT
      && MEANT[4] in MEANT && MEANT[5] in MEANT && MEANT[6] in MEANT && MEANT[7] in MEANT;
    LowerHex(c / 16);
    LowerHex(c % 16);
  }

  lemma LowerHex(n: nat)
    requires n < 16
    ensures HexDigit(n) == LOWER_HEX[n]
  {
  }

  /** A number is printed without leading zeros. */
  lemma {:induction false} NoLeadingZero(n: nat)
    ensures Digits(n) != [] && (n > 0 ==> Digits(n)[0] != 48) && (n == 0 ==> Digits(n) == [48])
  {
    if n < 10 {
    } else {
      NoLeadingZero(n / 10);
    }
  }

  // ---- Outside strings ----

  /** The text without the contents of its strings. */
  ghost function Outside(t: Text, inString: bool): Text
    decreases |t|
  {
    if t == [] then []
    else if t[0] == QUOTE then [QUOTE] + Outside(t[1..], !inString)
    else if !inString then [t[0]] + Outside(t[1..], false)
    else if t[0] == BACKSLASH && |t| > 1 then Outside(t[2..], true)
    else Outside(t[1..], true)
  }

  predicate NoQuote(a: Text) {
    forall i :: 0 <= i < |a| ==> a[i] != QUOTE
  }

  lemma {:induction false} OutsidePlain(a: Text, s: Text)
    requires NoQuote(a)
    ensures Outside(a + s, false) == a + Outside(s, false)
  {
    if a == [] {
      assert a + s == s;
    } else {
      assert (a + s)[1..] == a[1..] + s;
      OutsidePlain(a[1..], s);
    }
  }

  lemma EscapeIsHidden(c: Byte, s: Text)
    ensures Outside(Escape(c) + s, true) == Outside(s, true)
  {
    var t := Escape(c) + s;
    if |Escape(c)| == 1 {
      assert t[1..] == s;
    } else if |Escape(c)| == 2 {
      assert t[2..] == s;
    } else {
      var u := t[2..];
      assert u[1..][1..][1..][1..] == s;
      PlainIsHidden(u);
      PlainIsHidden(u[1..]);
      PlainIsHidden(u[1..][1..]);
      PlainIsHidden(u[1..][1..][1..]);
    }
  }

  lemma PlainIsHidden(u: Text)
    requires u != [] && u[0] != QUOTE && u[0] != BACKSLASH
    ensures Outside(u, true) == Outside(u[1..], true)
  {
  }

  lemma {:induction false} EscapesAreHidden(x: Text, s: Text)
    ensures Outside(EscapeAll(x) + s, true) == Outside(s, true)
  {
    hide Escape;
    if x == [] {
      assert EscapeAll(x) + s == s;
    } else {
      Group(Escape(x[0]), EscapeAll(x[1..]), s);
      EscapeIsHidden(x[0], EscapeAll(x[1..]) + s);
      EscapesAreHidden(x[1..], s);
    }
  }

  /** A printed string leaves its quotes. */
  lemma QuoteOutside(x: Text, s: Text)
    ensures Outside(Quote(x) + s, false) == [QUOTE, QUOTE] + Outside(s, false)
  {
    hide EscapeAll;
    var u := EscapeAll(x) + ([QUOTE] + s);
    assert Quote(x) + s == [QUOTE] + u;
    assert ([QUOTE] + u)[1..] == u && ([QUOTE] + s)[1..] == s;
    EscapesAreHidden(x, [QUOTE] + s);
  }

  /** The scalars. */
  lemma ScalarOutside(v: Value, indent: int, s: Text) returns (a: Text)
    requires !v.Arr? && !v.Obj? && indent != 0
    ensures Outside(Print(v, indent) + s, false) == a + Outside(s, false)
    ensures a != [] && forall i :: 0 <= i < |a| ==> Inline(a[i])
  {
    hide Outside, Quote, IntText;
    match v
    case Str(x) =>
      QuoteOutside(x, s);
      a := [QUOTE, QUOTE];
    case Int(n) =>
      IntIsInline(n);
      a := IntText(n);
      OutsidePlain(a, s);
    case _ =>
      a := Print(v, indent);
      OutsidePlain(a, s);
  }

  /** Characters that are part of a value and not of the layout. */
  predicate Inline(c: Byte) {
    c > 32 && c != COMMA && c != COLON && !Opening(c) && !Closing(c)
  }

  predicate Opening(c: Byte) { c == OPEN_BRACKET || c == OPEN_BRACE }

  predicate Closing(c: Byte) { c == CLOSE_BRACKET || c == CLOSE_BRACE }

  lemma IntIsInline(n: int)
    ensures IntText(n) != [] && NoQuote(IntText(n)) && forall i :: 0 <= i < |IntText(n)| ==> Inline(IntText(n)[i])
  {
    hide Digits;
    DigitsRoundTrip(if n < 0 then -n else n);
  }

  // ---- Compact text ----

  predicate Tight(a: Text) {
    forall i :: 0 <= i < |a| ==> a[i] > 32
  }

  /** Compact text has no spaces, newlines or other control characters outside strings. */
  lemma {:induction false} CompactIsTight(v: Value, s: Text)
    requires Tight(Outside(s, false))
    ensures Tight(Outside(Print(v, -1) + s, false))
    decreases v, 1
  {
    hide Outside, Print, PrintItems, PrintMembers;
    match v
    case Arr(items) =>
      PrintArray(items, -1, s);
      IndentIsNothing();
      assert Print(v, -1) + s == [OPEN_BRACKET] + (PrintItems(items, -1) + ([CLOSE_BRACKET] + s));
      OutsidePlain([CLOSE_BRACKET], s);
      ItemsAreTight(items, [CLOSE_BRACKET] + s);
      OutsidePlain([OPEN_BRACKET], PrintItems(items, -1) + ([CLOSE_BRACKET] + s));
    case Obj(members) =>
      PrintObject(members, -1, s);
      IndentIsNothing();
      assert Print(v, -1) + s == [OPEN_BRACE] + (PrintMembers(members, -1) + ([CLOSE_BRACE] + s));
      OutsidePlain([CLOSE_BRACE], s);
      MembersAreTight(members, [CLOSE_BRACE] + s);
      OutsidePlain([OPEN_BRACE], PrintMembers(members, -1) + ([CLOSE_BRACE] + s));
    case _ =>
      var a := ScalarOutside(v, -1, s);
  }

  lemma IndentIsNothing()
    ensures Indent(-1) == [] && forall s :: Tail(-1, s) == s
  {
  }

  lemma {:induction false} ItemsAreTight(items: seq<Value>, s: Text)
    requires Tight(Outside(s, false))
    ensures Tight(Outside(PrintItems(items, -1) + s, false))
    decreases items, 0
  {
    hide Outside, Print, PrintItems;
    if items == [] {
      NoItems(-1);
      assert PrintItems(items, -1) + s == s;
    } else {
      PrintItemsSplit(items, -1, s);
      IndentIsNothing();
      var more := if |items| == 1 then s else [COMMA] + (PrintItems(items[1..], -1) + s);
      if |items| > 1 {
        ItemsAreTight(items[1..], s);
        OutsidePlain([COMMA], PrintItems(items[1..], -1) + s);
      }
      CompactIsTight(items[0], more);
      assert Indent(-1) + (Print(items[0], -1) + more) == Print(items[0], -1) + more;
    }
  }

  lemma {:induction false} MembersAreTight(members: seq<Member>, s: Text)
    requires Tight(Outside(s, false))
    ensures Tight(Outside(PrintMembers(members, -1) + s, false))
    decreases members, 0
  {
    hide Outside, Print, PrintMembers, PrintMember, Quote;
    if members == [] {
      NoItems(-1);
      assert PrintMembers(members, -1) + s == s;
    } else {
      PrintMembersSplit(members, -1, s);
      IndentIsNothing();
      var more := if |members| == 1 then s else [COMMA] + (PrintMembers(members[1..], -1) + s);
      if |members| > 1 {
        MembersAreTight(members[1..], s);
        OutsidePlain([COMMA], PrintMembers(members[1..], -1) + s);
      }
      var m := members[0];
      PrintMemberSplit(m, -1, more);
      CompactIsTight(m.value, more);
      assert Gap(-1) + (Print(m.value, -1) + more) == Print(m.value, -1) + more;
      OutsidePlain([COLON], Print(m.value, -1) + more);
      QuoteOutside(m.key, [COLON] + (Print(m.value, -1) + more));
      assert Indent(-1) + (PrintMember(m, -1) + more) == PrintMember(m, -1) + more;
    }
  }

  // ---- Pretty text ----

  ghost function Blanks(t: Text): (k: nat)
    ensures k <= |t| && forall i :: 0 <= i < k ==> t[i] == SPACE
  {
    if t != [] && t[0] == SPACE then 1 + Blanks(t[1..]) else 0
  }

  /** The layout of pretty text at a nesting depth, strings left out: a container that is not empty breaks the
      line after its bracket, after each comma and before its closing bracket; every line begins with two spaces
      for each level, a closing bracket being one level out; a colon is followed by one space; there are no
      other spaces, and the text ends with a newline at depth 0. */
  ghost predicate Pretty(o: Text, depth: nat)
    decreases |o|
  {
    if o == [] then true
    else if o[0] == NEWLINE then
      var k := Blanks(o[1..]);
      var r := o[1..][k..];
      if r == [] then k == 0 && depth == 0
      else
        && k == 2 * (if Closing(r[0]) then depth as int - 1 else depth)
        && r[0] != NEWLINE && Pretty(r, depth)
    else if Opening(o[0]) then
      |o| > 1 && (o[1] == NEWLINE || Closing(o[1])) && Pretty(o[1..], depth + 1)
    else if Closing(o[0]) then
      depth > 0 && Pretty(o[1..], depth - 1)
    else if o[0] == COMMA then
      |o| > 1 && o[1] == NEWLINE && Pretty(o[1..], depth)
    else if o[0] == COLON then
      |o| > 2 && o[1] == SPACE && o[2] != SPACE && Pretty(o[2..], depth)
    else
      o[0] != SPACE && Pretty(o[1..], depth)
  }

  lemma {:induction false} InlineIsPretty(a: Text, o: Text, depth: nat)
    requires Pretty(o, depth) && forall i :: 0 <= i < |a| ==> Inline(a[i])
    ensures Pretty(a + o, depth)
  {
    hide Pretty, Blanks;
    if a == [] {
      assert a + o == o;
    } else {
      InlineIsPretty(a[1..], o, depth);
      assert a + o == [a[0]] + (a[1..] + o);
      InlineStep(a[0], a[1..] + o, depth);
    }
  }

  lemma InlineStep(c: Byte, o: Text, depth: nat)
    requires Pretty(o, depth) && Inline(c)
    ensures Pretty([c] + o, depth)
  {
    assert ([c] + o)[1..] == o;
  }

  lemma {:induction false} BlanksAre(k: nat, o: Text)
    requires o == [] || o[0] != SPACE
    ensures Blanks(seq(k, _ => SPACE) + o) == k
  {
    var t := seq(k, _ => SPACE) + o;
    if k == 0 {
      assert t == o;
    } else {
      assert t[1..] == seq(k - 1, _ => SPACE) + o;
      BlanksAre(k - 1, o);
    }
  }

  /** A line break, its indentation, and what follows. */
  lemma BreakIsPretty(level: nat, o: Text, depth: nat)
    requires o != [] && o[0] != SPACE && o[0] != NEWLINE && Pretty(o, depth)
    requires level == if Closing(o[0]) then depth as int - 1 else depth
    ensures Pretty(Indent(level) + o, depth) && (Indent(level) + o)[0] == NEWLINE
  {
    var blanks := seq(2 * level, _ => SPACE);
    var t := Indent(level) + o;
    assert t[1..] == blanks + o;
    BlanksAre(2 * level, o);
    assert t[1..][2 * level..] == o;
  }

  lemma OpenIsPretty(c: Byte, o: Text, depth: nat)
    requires Opening(c) && o != [] && (o[0] == NEWLINE || Closing(o[0])) && Pretty(o, depth + 1)
    ensures Pretty([c] + o, depth)
  {
    assert ([c] + o)[1..] == o;
  }

  lemma CloseIsPretty(c: Byte, o: Text, depth: nat)
    requires Closing(c) && Pretty(o, depth)
    ensures Pretty([c] + o, depth + 1)
  {
    assert ([c] + o)[1..] == o;
  }

  lemma CommaIsPretty(o: Text, depth: nat)
    requires o != [] && o[0] == NEWLINE && Pretty(o, depth)
    ensures Pretty([COMMA] + o, depth)
  {
    assert ([COMMA] + o)[1..] == o;
  }

  lemma ColonIsPretty(o: Text, depth: nat)
    requires o != [] && o[0] != SPACE && Pretty(o, depth)
    ensures Pretty([COLON] + ([SPACE] + o), depth)
  {
    assert ([COLON] + ([SPACE] + o))[2..] == o;
  }

  lemma IndentOutside(indent: int, s: Text)
    ensures Outside(Indent(indent) + s, false) == Indent(indent) + Outside(s, false)
  {
    OutsidePlain(Indent(indent), s);
  }

  lemma Trailer(s: Text)
    ensures Outside(Tail(0, s), false) == [NEWLINE] + Outside(s, false)
    ensures forall d: int :: d != 0 ==> Tail(d, s) == s
  {
    OutsidePlain([NEWLINE], s);
  }

  /** What is printed after the values of a container. */
  ghost function Close(empty: bool, indent: nat, c: Byte, s: Text): Text {
    (if empty then [] else Indent(indent)) + ([c] + Tail(indent, s))
  }

  lemma CloseOutside(empty: bool, indent: nat, c: Byte, s: Text)
    requires Closing(c) && Pretty(Outside(Tail(indent, s), false), indent)
    ensures var o := Outside(Close(empty, indent, c, s), false);
      Pretty(o, indent + 1) && o != [] && if empty then o[0] == c else o[0] == NEWLINE
  {
    hide Outside, Pretty, Tail;
    var o := Outside(Tail(indent, s), false);
    OutsidePlain([c], Tail(indent, s));
    CloseIsPretty(c, o, indent);
    if empty {
      assert Close(empty, indent, c, s) == [c] + Tail(indent, s);
    } else {
      IndentOutside(indent, [c] + Tail(indent, s));
      BreakIsPretty(indent, [c] + o, indent + 1);
    }
  }

  /** A value printed at its depth is laid out well, and begins on the line. */
  lemma {:induction false} PrintIsPretty(v: Value, indent: nat, s: Text)
    requires Pretty(Outside(Tail(indent, s), false), indent)
    ensures var o := Outside(Print(v, indent) + s, false);
      Pretty(o, indent) && o != [] && o[0] > 32 && !Closing(o[0])
    decreases v, 1
  {
    hide Outside, Print, PrintItems, PrintMembers, Pretty, Tail, Close;
    match v
    case Arr(items) =>
      PrintArray(items, indent, s);
      CloseIs(items == [], indent, CLOSE_BRACKET, s);
      var close := Close(items == [], indent, CLOSE_BRACKET, s);
      CloseOutside(items == [], indent, CLOSE_BRACKET, s);
      if items == [] {
        NoItems(indent + 1);
        assert PrintItems(items, indent + 1) + close == close;
      } else {
        ItemsArePretty(items, indent + 1, close);
      }
      OutsidePlain([OPEN_BRACKET], PrintItems(items, indent + 1) + close);
      OpenIsPretty(OPEN_BRACKET, Outside(PrintItems(items, indent + 1) + close, false), indent);
    case Obj(members) =>
      PrintObject(members, indent, s);
      CloseIs(members == [], indent, CLOSE_BRACE, s);
      var close := Close(members == [], indent, CLOSE_BRACE, s);
      CloseOutside(members == [], indent, CLOSE_BRACE, s);
      if members == [] {
        NoItems(indent + 1);
        assert PrintMembers(members, indent + 1) + close == close;
      } else {
        MembersArePretty(members, indent + 1, close);
      }
      OutsidePlain([OPEN_BRACE], PrintMembers(members, indent + 1) + close);
      OpenIsPretty(OPEN_BRACE, Outside(PrintMembers(members, indent + 1) + close, false), indent);
    case _ =>
      PrintScalar(v, indent, s);
      var a := ScalarOutside(v, -1, Tail(indent, s));
      InlineIsPretty(a, Outside(Tail(indent, s), false), indent);
  }

  lemma CloseIs(empty: bool, indent: nat, c: Byte, s: Text)
    ensures Close(empty, indent, c, s) == (if empty then [] else Indent(indent)) + ([c] + Tail(indent, s))
  {
  }

  lemma {:induction false} ItemsArePretty(items: seq<Value>, inner: nat, s: Text)
    requires items != [] && inner > 0 && Pretty(Outside(s, false), inner)
    ensures var o := Outside(PrintItems(items, inner) + s, false);
      Pretty(o, inner) && o != [] && o[0] == NEWLINE
    decreases items, 0
  {
    hide Outside, Print, PrintItems, Pretty;
    PrintItemsSplit(items, inner, s);
    var more := if |items| == 1 then s else [COMMA] + (PrintItems(items[1..], inner) + s);
    if |items| > 1 {
      ItemsArePretty(items[1..], inner, s);
      OutsidePlain([COMMA], PrintItems(items[1..], inner) + s);
      CommaIsPretty(Outside(PrintItems(items[1..], inner) + s, false), inner);
    }
    Trailer(more);
    PrintIsPretty(items[0], inner, more);
    IndentOutside(inner, Print(items[0], inner) + more);
    BreakIsPretty(inner, Outside(Print(items[0], inner) + more, false), inner);
  }

  lemma {:induction false} MembersArePretty(members: seq<Member>, inner: nat, s: Text)
    requires members != [] && inner > 0 && Pretty(Outside(s, false), inner)
    ensures var o := Outside(PrintMembers(members, inner) + s, false);
      Pretty(o, inner) && o != [] && o[0] == NEWLINE
    decreases members, 0
  {
    hide Outside, Print, PrintMembers, PrintMember, Pretty;
    PrintMembersSplit(members, inner, s);
    var more := if |members| == 1 then s else [COMMA] + (PrintMembers(members[1..], inner) + s);
    if |members| > 1 {
      MembersArePretty(members[1..], inner, s);
      OutsidePlain([COMMA], PrintMembers(members[1..], inner) + s);
      CommaIsPretty(Outside(PrintMembers(members[1..], inner) + s, false), inner);
    }
    MemberIsPretty(members[0], inner, more);
    IndentOutside(inner, PrintMember(members[0], inner) + more);
    BreakIsPretty(inner, Outside(PrintMember(members[0], inner) + more, false), inner);
  }

  lemma MemberIsPretty(m: Member, inner: nat, more: Text)
    requires inner > 0 && Pretty(Outside(more, false), inner)
    ensures var o := Outside(PrintMember(m, inner) + more, false);
      Pretty(o, inner) && o != [] && o[0] == QUOTE
    decreases m, 1
  {
    hide Outside, Print, PrintMember, Pretty, Quote;
    var p := Print(m.value, inner) + more;
    PrintMemberSplit(m, inner, more);
    Trailer(more);
    PrintIsPretty(m.value, inner, more);
    OutsidePlain([SPACE], p);
    OutsidePlain([COLON], [SPACE] + p);
    ColonIsPretty(Outside(p, false), inner);
    QuoteOutside(m.key, [COLON] + ([SPACE] + p));
    InlineIsPretty([QUOTE, QUOTE], [COLON] + ([SPACE] + Outside(p, false)), inner);
  }

  /** The two forms of a printed value: compact text has no spaces outside strings, and pretty text breaks and
      indents its lines by the nesting of the brackets. */
  lemma SerializeLayout(v: Value)
    ensures Tight(Outside(Serialize(v, false), false))
    ensures Pretty(Outside(Serialize(v, true), false), 0)
  {
    hide Outside, Print, Pretty;
    NothingOutside();
    CompactIsTight(v, []);
    assert Print(v, -1) + [] == Print(v, -1);
    PrintIsPretty(v, 0, []);
    assert Print(v, 0) + [] == Print(v, 0);
  }

  lemma NothingOutside()
    ensures Outside([], false) == [] && Pretty(Outside(Tail(0, []), false), 0)
  {
    Trailer([]);
    assert [NEWLINE][1..] == [];
  }

  // ---- The order of members ----

  /** The escaped form of a string is the text of some pieces. */
  lemma EscapedPieces(x: Text) returns (ps: seq<Piece>)
    ensures LegalString(ps) && StringText(ps) == EscapeAll(x) && StringBytes(ps) == x
  {
    hide EscapeAll, StringBody, StringText, StringBytes;
    StringRoundTrip(x, []);
    var t := EscapeAll(x) + [QUOTE];
    assert EscapeAll(x) + [QUOTE] + [] == t;
    ps := StringSound(t);
    assert [QUOTE] + [] == [QUOTE];
    SameFront(StringText(ps), EscapeAll(x), [QUOTE]);
  }

  lemma SameFront(a: Text, b: Text, c: Text)
    requires a + c == b + c
    ensures a == b
  {
    assert |a| == |b|;
    assert a == (a + c)[..|a|] && b == (b + c)[..|b|];
  }

  /** A printed value inside a container is the text of a tree. */
  lemma PrintedTree(v: Value, inner: int) returns (doc: Doc)
    requires WellFormed(v) && (inner == -1 || inner >= 1)
    ensures Legal(doc) && Meaning(doc) == v && Source(doc) == Print(v, inner)
  {
    hide Print, Parse, Legal, Meaning, Source, WellFormed;
    var r := [COMMA];
    PrintParses(v, inner, r);
    TailIs(inner, r);
    var w;
    w, doc := ParseSound(Print(v, inner) + r);
    PrintStarts(v, inner);
    StartsLater(Print(v, inner) + r, w, Source(doc) + r);
    SameFront(Source(doc), Print(v, inner), r);
  }

  lemma StartsLater(t: Text, w: Text, s: Text)
    requires t == w + s && t != [] && !IsSpace(t[0]) && Spaces(w)
    ensures w == []
  {
  }

  lemma TailIs(indent: int, s: Text)
    ensures indent != 0 ==> Tail(indent, s) == s
  {
  }

  ghost predicate InOrder(es: seq<Entry>, members: seq<Member>)
    requires LegalEntries(es)
  {
    if es == [] || members == [] then es == [] && members == []
    else
      && LegalEntry(es[0]) && LegalElem(es[0].elem)
      && Member(StringBytes(es[0].key), Meaning(es[0].elem.doc)) == members[0]
      && InOrder(es[1..], members[1..])
  }

  lemma PrintedEntry(m: Member, inner: int, after: Text) returns (e: Entry)
    requires WellFormed(m.value) && (inner == -1 || inner >= 1) && Spaces(after)
    ensures LegalEntry(e) && LegalElem(e.elem) && EntryText(e) == Indent(inner) + (PrintMember(m, inner) + after)
    ensures Member(StringBytes(e.key), Meaning(e.elem.doc)) == m
  {
    hide Print, PrintMember, Legal, Meaning, Source, WellFormed, Indent, EscapeAll, StringText, StringBytes;
    var ps := EscapedPieces(m.key);
    var doc := PrintedTree(m.value, inner);
    IndentIsSpaces(inner);
    GapIsSpace(Gap(inner));
    e := Entry(Indent(inner), ps, [], Elem(Gap(inner), doc, after));
    PrintMemberSplit(m, inner, after);
    var c := [COLON] + (Gap(inner) + (Print(m.value, inner) + after));
    assert Quote(m.key) + c == [QUOTE] + (EscapeAll(m.key) + ([QUOTE] + c));
    assert [] + c == c;
  }

  /** The members of an object are printed in their order, each once. */
  lemma {:induction false} PrintedInOrder(members: seq<Member>, inner: int, close: Text) returns (es: seq<Entry>)
    requires members != [] && forall i :: 0 <= i < |members| ==> WellFormed(members[i].value)
    requires (inner == -1 || inner >= 1) && Spaces(close)
    ensures LegalEntries(es) && es != [] && InOrder(es, members)
    ensures EntriesText(es) == PrintMembers(members, inner) + close
    decreases members
  {
    hide PrintMember, LegalEntry, LegalElem, EntryText, Meaning, WellFormed, Indent, StringBytes;
    var m, rest := members[0], members[1..];
    PrintMembersSplit(members, inner, close);
    if |members| == 1 {
      var e := PrintedEntry(m, inner, close);
      es := [e];
      assert es[1..] == [] && rest == [];
    } else {
      var e := PrintedEntry(m, inner, []);
      var ds := PrintedInOrder(rest, inner, close);
      es := [e] + ds;
      assert es[1..] == ds;
      assert PrintMember(m, inner) + [] == PrintMember(m, inner);
      var more := [COMMA] + (PrintMembers(rest, inner) + close);
      Group(Indent(inner), PrintMember(m, inner), more);
    }
  }

  /** The printed text of an object is that of a tree whose entries are its members in their order, and the
      newline that ends a pretty text. */
  lemma ObjectPrintsInOrder(members: seq<Member>, prettify: bool) returns (gap: Text, es: seq<Entry>)
    requires WellFormed(Obj(members))
    ensures Spaces(gap) && LegalEntries(es) && InOrder(es, members) && Legal(Dict(gap, es))
    ensures Serialize(Obj(members), prettify) == Source(Dict(gap, es)) + if prettify then [NEWLINE] else []
  {
    hide PrintMembers, Indent, WellFormed, EntriesText, Meaning, LegalEntries, InOrder;
    MembersWellFormed(members);
    var indent := if prettify then 0 else -1;
    gap := [];
    PrintObject(members, indent, []);
    assert Print(Obj(members), indent) + [] == Print(Obj(members), indent);
    if members == [] {
      es := [];
      NoEntries();
      NoItems(Inner(indent));
    } else {
      IndentIsSpaces(indent);
      es := PrintedInOrder(members, Inner(indent), Indent(indent));
    }
  }

  lemma MembersWellFormed(members: seq<Member>)
    requires WellFormed(Obj(members))
    ensures forall i :: 0 <= i < |members| ==> WellFormed(members[i].value)
  {
  }

  lemma NoEntries()
    ensures LegalEntries([]) && InOrder([], [])
  {
  }
}
