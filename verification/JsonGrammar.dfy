/** The texts the parser accepts, as a grammar, and what each of them means. A concrete syntax tree keeps every
    choice a text can make: spaces, escapes, leading zeros, and the order and repetition of keys. */
module JsonGrammar {
  import opened JsonParser
  import opened JsonRoundTrip
  import opened JsonUnicode
  import opened JsonValue
  import opened Options

  // ---- Strings ----

  /** The letters of the short escapes, and the bytes they stand for (section 7 of RFC 8259). */
  const LETTERS: Text := [34, 92, 47, 98, 102, 110, 114, 116]
  const MEANT: Text := [34, 92, 47, 8, 12, 10, 13, 9]

  /** A character of a string: itself, a short escape, an escape of the basic plane, or a surrogate pair. */
  datatype Piece =
    | Plain(c: Byte)
    | Short(i: nat)
    | Basic(h: Text, u: nat)
    | Pair(h: Text, hi: nat, l: Text, lo: nat)

  ghost predicate LegalPiece(p: Piece) {
    match p
    case Plain(c) => c >= 32 && c != QUOTE && c != BACKSLASH
    case Short(i) => i < |LETTERS|
    case Basic(h, u) => Quad(h, u) && u < 0x10000 && !Surrogate(u)
    case Pair(h, hi, l, lo) => Quad(h, hi) && Quad(l, lo) && 0xd800 <= hi < 0xdc00 && 0xdc00 <= lo <= 0xdfff
  }

  ghost function PieceText(p: Piece): Text
    requires LegalPiece(p)
  {
    match p
    case Plain(c) => [c]
    case Short(i) => [BACKSLASH, LETTERS[i]]
    case Basic(h, _) => [BACKSLASH, 117] + h
    case Pair(h, _, l, _) => [BACKSLASH, 117] + (h + ([BACKSLASH, 117] + l))
  }

  ghost function PieceBytes(p: Piece): Text
    requires LegalPiece(p)
  {
    match p
    case Plain(c) => [c]
    case Short(i) => [MEANT[i]]
    case Basic(_, u) => Utf8(u)
    case Pair(_, hi, _, lo) => Utf8(PairValue(hi, lo))
  }

  ghost predicate LegalString(ps: seq<Piece>) {
    forall i :: 0 <= i < |ps| ==> LegalPiece(ps[i])
  }

  ghost function StringText(ps: seq<Piece>): Text
    requires LegalString(ps)
  {
    if ps == [] then [] else PieceText(ps[0]) + StringText(ps[1..])
  }

  ghost function StringBytes(ps: seq<Piece>): Text
    requires LegalString(ps)
  {
    if ps == [] then [] else PieceBytes(ps[0]) + StringBytes(ps[1..])
  }

  lemma PairValueInRange(hi: nat, lo: nat)
    requires 0xd800 <= hi < 0xdc00 && 0xdc00 <= lo <= 0xdfff
    ensures PairValue(hi, lo) < 0x110000
  {
  }

  lemma ShortReads(i: nat)
    requires i < |LETTERS|
    ensures LETTERS[i] != 117 && Unescape(LETTERS[i]) == Some(MEANT[i])
  {
  }

  lemma ShortIsKnown(c: Byte) returns (i: nat)
    requires Unescape(c).Some?
    ensures i < |LETTERS| && LETTERS[i] == c && MEANT[i] == Unescape(c).value
  {
    i := if c == 34 then 0 else if c == 92 then 1 else if c == 47 then 2 else if c == 98 then 3
         else if c == 102 then 4 else if c == 110 then 5 else if c == 114 then 6 else 7;
  }

  /** Every legal piece is read as its bytes. */
  lemma PieceComplete(p: Piece, s: Text)
    requires LegalPiece(p)
    ensures var t := PieceText(p) + s;
      t != [] && t[0] != QUOTE && StringPiece(t) == Ok(PieceBytes(p), s)
  {
    hide Quad, Utf8, Codepoint, Unescape, StringPiece;
    var t := PieceText(p) + s;
    match p
    case Plain(c) =>
      assert t == [c] + s;
      PlainReads(c, s);
    case Short(i) =>
      ShortReads(i);
      assert t == [BACKSLASH, LETTERS[i]] + s;
      EscapeReads(LETTERS[i], s);
    case Basic(h, u) =>
      BasicEscape(h, u, s);
      assert t == [BACKSLASH, 117] + (h + s);
      EscapeReads(117, h + s);
    case Pair(h, hi, l, lo) =>
      PairEscape(h, hi, l, lo, s);
      var r := h + ([BACKSLASH, 117] + (l + s));
      assert t == [BACKSLASH, 117] + r;
      EscapeReads(117, r);
  }

  lemma PlainReads(c: Byte, s: Text)
    requires c >= 32 && c != QUOTE && c != BACKSLASH
    ensures StringPiece([c] + s) == Ok([c], s)
  {
    assert ([c] + s)[1..] == s;
  }

  lemma EscapeReads(c: Byte, s: Text)
    ensures var t := [BACKSLASH, c] + s;
      StringPiece(t) ==
        if c == 117 then Codepoint(s)
        else if Unescape(c).Some? then Ok([Unescape(c).value], s) else Fail
  {
    hide Codepoint, Unescape;
    assert ([BACKSLASH, c] + s)[2..] == s;
  }

  /** Whatever is read was a legal piece. */
  lemma PieceSound(t: Text) returns (p: Piece)
    requires t != [] && t[0] != QUOTE && StringPiece(t).Ok?
    ensures LegalPiece(p) && t == PieceText(p) + StringPiece(t).rest && PieceBytes(p) == StringPiece(t).value
  {
    hide Quad, Utf8, Codepoint, Unescape;
    if t[0] != BACKSLASH {
      p := Plain(t[0]);
    } else if t[1] == 117 {
      p := CodepointSound(t[2..]);
      assert t == [BACKSLASH, 117] + t[2..];
    } else {
      var i := ShortIsKnown(t[1]);
      p := Short(i);
    }
  }

  lemma CodepointSound(s: Text) returns (p: Piece)
    requires Codepoint(s).Ok?
    ensures LegalPiece(p) && (p.Basic? || p.Pair?)
    ensures [BACKSLASH, 117] + s == PieceText(p) + Codepoint(s).rest && PieceBytes(p) == Codepoint(s).value
  {
    hide Quad, Utf8, QuadHex, Encode;
    QuadIsRead(s);
    var h, hi, s1 := s[..4], QuadHex(s, 0, 0).value, s[4..];
    assert s == h + s1;
    QuadBound(s);
    if !Surrogate(hi) {
      p := Basic(h, hi);
      BasicEscape(h, hi, s1);
    } else {
      QuadIsRead(s1[2..]);
      var l, lo, rest := s1[2..][..4], QuadHex(s1[2..], 0, 0).value, s1[2..][4..];
      assert s1 == [BACKSLASH, 117] + (l + rest);
      p := Pair(h, hi, l, lo);
      PairEscape(h, hi, l, lo, rest);
    }
  }

  lemma QuadBound(s: Text)
    ensures QuadHex(s, 0, 0).Ok? ==> QuadHex(s, 0, 0).value < 0x10000
  {
    assert BitOps.Pow2(4) == 16 && BitOps.Pow2(8) == 256 && BitOps.Pow2(12) == 4096 && BitOps.Pow2(16) == 0x10000;
  }

  lemma {:induction false} StringComplete(ps: seq<Piece>, s: Text)
    requires LegalString(ps)
    ensures StringBody(StringText(ps) + ([QUOTE] + s)) == Ok(StringBytes(ps), s)
  {
    hide LegalPiece, StringPiece;
    var t := StringText(ps) + ([QUOTE] + s);
    if ps == [] {
      assert t[0] == QUOTE && t[1..] == s;
    } else {
      var u := StringText(ps[1..]) + ([QUOTE] + s);
      Group(PieceText(ps[0]), StringText(ps[1..]), [QUOTE] + s);
      PieceComplete(ps[0], u);
      StringComplete(ps[1..], s);
    }
  }

  lemma Group(a: Text, b: Text, c: Text)
    ensures a + b + c == a + (b + c)
  {
  }

  lemma {:induction false} StringSound(t: Text) returns (ps: seq<Piece>)
    requires StringBody(t).Ok?
    ensures LegalString(ps) && t == StringText(ps) + ([QUOTE] + StringBody(t).rest)
    ensures StringBytes(ps) == StringBody(t).value
    decreases |t|
  {
    hide LegalPiece, StringPiece;
    if t[0] == QUOTE {
      ps := [];
    } else {
      var p := PieceSound(t);
      var qs := StringSound(StringPiece(t).rest);
      ps := [p] + qs;
      assert ps[1..] == qs;
      Group(PieceText(p), StringText(qs), [QUOTE] + StringBody(t).rest);
    }
  }

  // ---- Numbers ----

  ghost predicate AllDigits(d: Text) {
    forall i :: 0 <= i < |d| ==> IsDigit(d[i])
  }

  ghost function Pow10(k: nat): nat { if k == 0 then 1 else 10 * Pow10(k - 1) }

  /** The number the digits write, each at its power of ten. */
  ghost function Decimal(d: Text): nat
    requires AllDigits(d)
  {
    if d == [] then 0 else (d[0] - 48) * Pow10(|d| - 1) + Decimal(d[1..])
  }

  lemma {:induction false} DecimalSnoc(d: Text, c: Byte)
    requires AllDigits(d) && IsDigit(c)
    ensures AllDigits(d + [c]) && Decimal(d + [c]) == 10 * Decimal(d) + (c - 48)
  {
    var e := d + [c];
    assert AllDigits(e);
    if d == [] {
      assert e[1..] == [] && Pow10(0) == 1;
    } else {
      assert e[1..] == d[1..] + [c];
      DecimalSnoc(d[1..], c);
      Scale(d[0] - 48, Pow10(|d| - 1));
    }
  }

  lemma Scale(a: nat, p: nat)
    ensures a * (10 * p) == 10 * (a * p)
  {
  }

  lemma {:induction false} DigitsValueIs(d: Text, n: nat)
    ensures DigitsValue(d) == Some(n) <==> d != [] && AllDigits(d) && n == Decimal(d)
    decreases |d|
  {
    if d == [] {
    } else {
      var last := |d| - 1;
      var init := d[..last];
      assert d == init + [d[last]];
      if IsDigit(d[last]) && last > 0 {
        if AllDigits(init) { DigitsValueIs(init, Decimal(init)); DecimalSnoc(init, d[last]); }
        if DigitsValue(init).Some? { DigitsValueIs(init, DigitsValue(init).value); }
        assert AllDigits(d) ==> AllDigits(init);
      } else if IsDigit(d[last]) {
        assert init == [] && d[1..] == [] && Pow10(0) == 1;
      }
    }
  }

  ghost function Sign(neg: bool): Text { if neg then [MINUS] else [] }

  ghost predicate InRange(n: int) { -0x8000_0000_0000_0000 <= n < 0x8000_0000_0000_0000 }

  ghost function NumValue(neg: bool, digits: Text): int
    requires AllDigits(digits)
  {
    if neg then 0 - Decimal(digits) else Decimal(digits)
  }

  ghost predicate Writes(s: Text, neg: bool, d: Text, n: int) {
    s == Sign(neg) + d && d != [] && AllDigits(d) && InRange(n) && n == NumValue(neg, d)
  }

  /** A number text is an integer exactly when it is an optional minus and digits that write a number of 64 bits;
      anything else goes to `strtod`. */
  lemma IntOfIs(s: Text, n: int)
    ensures IntOf(s) == Some(n) <==> exists neg, d :: Writes(s, neg, d, n)
  {
    if IntOf(s) == Some(n) {
      var neg := s[0] == MINUS;
      var d := if neg then s[1..] else s;
      DigitsValueIs(d, DigitsValue(d).value);
      assert Writes(s, neg, d, n);
    }
    forall neg, d | Writes(s, neg, d, n) ensures IntOf(s) == Some(n) {
      DigitsValueIs(d, Decimal(d));
      assert IsDigit(d[0]);
      assert if neg then s[1..] == d else s == d && s[0] == d[0];
    }
  }

  // ---- Values ----

  datatype Doc =
    | Word(v: Value)
    | Num(neg: bool, digits: Text)
    | Chars(ps: seq<Piece>)
    | List(gap: Text, elems: seq<Elem>)
    | Dict(gap: Text, entries: seq<Entry>)

  /** A value with the spaces around it. */
  datatype Elem = Elem(before: Text, doc: Doc, after: Text)

  /** A member: its key, the spaces before the key and before the colon, and its value. */
  datatype Entry = Entry(before: Text, key: seq<Piece>, colon: Text, elem: Elem)

  ghost predicate Legal(doc: Doc)
    decreases doc, 1
  {
    match doc
    case Word(v) => v.Null? || v.Bool?
    case Num(neg, digits) => digits != [] && AllDigits(digits) && InRange(NumValue(neg, digits))
    case Chars(ps) => LegalString(ps)
    case List(gap, elems) => Spaces(gap) && LegalElems(elems)
    case Dict(gap, entries) => Spaces(gap) && LegalEntries(entries)
  }

  ghost predicate LegalElem(e: Elem)
    decreases e, 2
  {
    Spaces(e.before) && Spaces(e.after) && Legal(e.doc)
  }

  ghost predicate LegalElems(es: seq<Elem>)
    decreases es, 0
  {
    es != [] ==> LegalElem(es[0]) && LegalElems(es[1..])
  }

  ghost predicate LegalEntry(e: Entry)
    decreases e, 3
  {
    Spaces(e.before) && LegalString(e.key) && Spaces(e.colon) && LegalElem(e.elem)
  }

  ghost predicate LegalEntries(es: seq<Entry>)
    decreases es, 0
  {
    es != [] ==> LegalEntry(es[0]) && LegalEntries(es[1..])
  }

  /** The text of a tree. */
  ghost function Source(doc: Doc): Text
    requires Legal(doc)
    decreases doc, 1
  {
    match doc
    case Word(v) =>
      if v.Null? then [110, 117, 108, 108]
      else if v == Bool(true) then [116, 114, 117, 101]
      else [102, 97, 108, 115, 101]
    case Num(neg, digits) => Sign(neg) + digits
    case Chars(ps) => [QUOTE] + (StringText(ps) + [QUOTE])
    case List(gap, elems) => [OPEN_BRACKET] + ((if elems == [] then gap else ElemsText(elems)) + [CLOSE_BRACKET])
    case Dict(gap, entries) =>
      [OPEN_BRACE] + ((if entries == [] then gap else EntriesText(entries)) + [CLOSE_BRACE])
  }

  ghost function ElemText(e: Elem): Text
    requires LegalElem(e)
    decreases e, 2
  {
    e.before + (Source(e.doc) + e.after)
  }

  ghost function ElemsText(es: seq<Elem>): Text
    requires LegalElems(es) && es != []
    decreases es, 0
  {
    ElemText(es[0]) + if |es| == 1 then [] else [COMMA] + ElemsText(es[1..])
  }

  ghost function EntryText(e: Entry): Text
    requires LegalEntry(e)
    decreases e, 3
  {
    e.before + ([QUOTE] + (StringText(e.key) + ([QUOTE] + (e.colon + ([COLON] + ElemText(e.elem))))))
  }

  ghost function EntriesText(es: seq<Entry>): Text
    requires LegalEntries(es) && es != []
    decreases es, 0
  {
    EntryText(es[0]) + if |es| == 1 then [] else [COMMA] + EntriesText(es[1..])
  }

  /** The value of a tree; in an object the entries are assigned in turn. */
  ghost function Meaning(doc: Doc): Value
    requires Legal(doc)
    decreases doc, 1
  {
    match doc
    case Word(v) => v
    case Num(neg, digits) => Int(NumValue(neg, digits))
    case Chars(ps) => Str(StringBytes(ps))
    case List(_, elems) => Arr(Meanings(elems))
    case Dict(_, entries) => Obj(Assigned([], entries))
  }

  ghost function Meanings(es: seq<Elem>): seq<Value>
    requires LegalElems(es)
    decreases es, 0
  {
    if es == [] then []
    else
      assert LegalElem(es[0]);
      [Meaning(es[0].doc)] + Meanings(es[1..])
  }

  ghost function Assigned(ms: seq<Member>, es: seq<Entry>): seq<Member>
    requires LegalEntries(es)
    decreases es, 0
  {
    if es == [] then ms
    else
      assert LegalEntry(es[0]) && LegalElem(es[0].elem);
      Assigned(Insert(ms, StringBytes(es[0].key), Meaning(es[0].elem.doc)), es[1..])
  }

  // ---- The last value of a key counts ----

  ghost predicate Has(ms: seq<Member>, key: Text, v: Value) { Member(key, v) in ms }

  /** The value of the last entry with this key. */
  ghost function LastOf(es: seq<Entry>, key: Text): Option<Value>
    requires LegalEntries(es)
  {
    if es == [] then None
    else
      assert LegalEntry(es[0]) && LegalElem(es[0].elem);
      var later := LastOf(es[1..], key);
      if later.Some? then later
      else if StringBytes(es[0].key) == key then Some(Meaning(es[0].elem.doc)) else None
  }

  /** The members of an object are sorted; their keys are those of the entries, each with its last value. */
  lemma {:induction false} LastWins(ms: seq<Member>, es: seq<Entry>, key: Text, v: Value)
    requires LegalEntries(es) && Sorted(ms)
    ensures Sorted(Assigned(ms, es))
    ensures Has(Assigned(ms, es), key, v) <==>
      if LastOf(es, key).Some? then LastOf(es, key) == Some(v) else Has(ms, key, v)
    decreases |es|
  {
    hide Insert, Meaning, StringBytes, Sorted;
    if es == [] {
    } else {
      assert LegalEntry(es[0]) && LegalElem(es[0].elem);
      var k, x := StringBytes(es[0].key), Meaning(es[0].elem.doc);
      InsertSorted(ms, k, x);
      InsertKeeps(ms, k, x);
      LastWins(Insert(ms, k, x), es[1..], key, v);
    }
  }

  // ---- Every tree is read as its value ----

  /** What follows a value inside a container. */
  predicate Closes(r: Text) {
    r != [] && (r[0] == COMMA || r[0] == CLOSE_BRACKET || r[0] == CLOSE_BRACE)
  }

  lemma EndsAfter(w: Text, r: Text)
    requires Spaces(w) && Closes(r)
    ensures Ends(w + r)
  {
    if w != [] { assert IsSpace(w[0]); }
  }

  /** The first character of a value. */
  lemma SourceStarts(doc: Doc)
    requires Legal(doc)
    ensures var t := Source(doc);
      t != [] && !IsSpace(t[0]) && t[0] != CLOSE_BRACKET && t[0] != CLOSE_BRACE
  {
    hide LegalElems, LegalEntries, ElemsText, EntriesText, StringText;
    if doc.Num? { assert IsDigit(doc.digits[0]); }
  }

  lemma NumParses(neg: bool, digits: Text, rest: Text)
    requires digits != [] && AllDigits(digits) && InRange(NumValue(neg, digits)) && Ends(rest)
    ensures Parse(Sign(neg) + digits + rest) == Ok(Int(NumValue(neg, digits)), rest)
  {
    hide Items, Members, StringBody, Keyword, IntOf, Decimal;
    var d := Sign(neg) + digits;
    var t := d + rest;
    assert IsDigit(digits[0]);
    NumberLengthIs(d, rest);
    assert t[..|d|] == d && t[|d|..] == rest;
    assert Writes(d, neg, digits, NumValue(neg, digits));
    IntOfIs(d, NumValue(neg, digits));
    assert t == [t[0]] + t[1..];
    ParseToken(t[0], t[1..]);
  }

  lemma CharsParse(ps: seq<Piece>, rest: Text)
    requires LegalString(ps)
    ensures Parse([QUOTE] + (StringText(ps) + [QUOTE]) + rest) == Ok(Str(StringBytes(ps)), rest)
  {
    hide Items, Members, Number, StringBody, Keyword, StringText, StringBytes;
    var u := StringText(ps) + ([QUOTE] + rest);
    assert [QUOTE] + (StringText(ps) + [QUOTE]) + rest == [QUOTE] + u;
    ParseToken(QUOTE, u);
    assert ([QUOTE] + u)[1..] == u;
    StringComplete(ps, rest);
  }

  lemma WordParsesAs(v: Value, rest: Text)
    requires v.Null? || v.Bool?
    ensures Parse(Source(Word(v)) + rest) == Ok(v, rest)
  {
    hide Parse;
    if v.Null? {
      assert Source(Word(v)) + rest == [110] + ([117, 108, 108] + rest);
      WordParses(110, [117, 108, 108], rest, v);
    } else if v == Bool(true) {
      assert Source(Word(v)) + rest == [116] + ([114, 117, 101] + rest);
      WordParses(116, [114, 117, 101], rest, v);
    } else {
      assert Source(Word(v)) + rest == [102] + ([97, 108, 115, 101] + rest);
      WordParses(102, [97, 108, 115, 101], rest, v);
    }
  }

  /** A tree is read as its value, after any spaces; the text after it is left. */
  lemma {:induction false} DocParses(doc: Doc, w: Text, rest: Text)
    requires Legal(doc) && Spaces(w) && (doc.Num? ==> Ends(rest))
    ensures Parse(w + (Source(doc) + rest)) == Ok(Meaning(doc), rest)
    decreases doc, 1
  {
    hide Parse, Spaces, LegalElems, LegalEntries, Insert, Assigned;
    ParseSkips(w, Source(doc) + rest);
    match doc
    case Word(v) => WordParsesAs(v, rest);
    case Num(neg, digits) => NumParses(neg, digits, rest);
    case Chars(ps) => CharsParse(ps, rest);
    case List(gap, elems) => ListParses(gap, elems, rest);
    case Dict(gap, entries) => DictParses(gap, entries, rest);
  }

  lemma ListParses(gap: Text, elems: seq<Elem>, rest: Text)
    requires Spaces(gap) && LegalElems(elems)
    ensures Parse(Source(List(gap, elems)) + rest) == Ok(Arr(Meanings(elems)), rest)
    decreases elems, 1
  {
    hide Parse, Token, Items, Sees, After, Spaces, LegalElems, ElemsText;
    var body := if elems == [] then gap else ElemsText(elems);
    var u := body + ([CLOSE_BRACKET] + rest);
    assert Source(List(gap, elems)) + rest == [OPEN_BRACKET] + u;
    ParseToken(OPEN_BRACKET, u);
    TokenArray(u);
    if elems == [] {
      SeesThrough(gap, CLOSE_BRACKET, rest, CLOSE_BRACKET);
    } else {
      ElemsParse(elems, rest);
      OpensElems(elems, rest);
    }
  }

  /** `expect` for the closing bracket fails at the first value, and only skips its spaces. */
  lemma OpensElems(elems: seq<Elem>, rest: Text)
    requires LegalElems(elems) && elems != []
    ensures var u := ElemsText(elems) + ([CLOSE_BRACKET] + rest);
      !Sees(u, CLOSE_BRACKET) && Items(After(u, CLOSE_BRACKET)) == Items(u)
  {
    hide Items, Source, Sees, After, Spaces, Legal;
    var e, more := elems[0], if |elems| == 1 then [] else [COMMA] + ElemsText(elems[1..]);
    assert LegalElem(e);
    var p := Source(e.doc);
    SourceStarts(e.doc);
    var r := p[1..] + (e.after + (more + ([CLOSE_BRACKET] + rest)));
    assert p == [p[0]] + p[1..];
    assert ElemsText(elems) + ([CLOSE_BRACKET] + rest) == e.before + ([p[0]] + r);
    SeesThrough(e.before, p[0], r, CLOSE_BRACKET);
    ItemsSkips(e.before, [p[0]] + r);
  }

  lemma ElemParses(e: Elem, r: Text)
    requires LegalElem(e) && Closes(r)
    ensures Parse(ElemText(e) + r) == Ok(Meaning(e.doc), e.after + r)
    decreases e, 2
  {
    hide Parse, Spaces, Legal, Closes, Ends;
    EndsAfter(e.after, r);
    DocParses(e.doc, e.before, e.after + r);
    assert ElemText(e) + r == e.before + (Source(e.doc) + (e.after + r));
  }

  lemma {:induction false} ElemsParse(es: seq<Elem>, rest: Text)
    requires LegalElems(es) && es != []
    ensures Items(ElemsText(es) + ([CLOSE_BRACKET] + rest)) == Ok(Meanings(es), rest)
    decreases es, 0
  {
    hide Parse, Items, Sees, After, Spaces, ElemText, Meaning;
    assert LegalElem(es[0]);
    var e, close := es[0], [CLOSE_BRACKET] + rest;
    var r := if |es| == 1 then close else [COMMA] + (ElemsText(es[1..]) + close);
    assert ElemsText(es) + close == ElemText(e) + r;
    ElemParses(e, r);
    ItemsStep(ElemText(e) + r, Meaning(e.doc), e.after + r);
    if |es| == 1 {
      SeesThrough(e.after, CLOSE_BRACKET, rest, COMMA);
      SeesNow(CLOSE_BRACKET, rest, CLOSE_BRACKET);
      assert Meanings(es[1..]) == [] && Meanings(es) == [Meaning(e.doc)];
    } else {
      ElemsParse(es[1..], rest);
      SeesThrough(e.after, COMMA, ElemsText(es[1..]) + close, COMMA);
    }
  }

  lemma DictParses(gap: Text, entries: seq<Entry>, rest: Text)
    requires Spaces(gap) && LegalEntries(entries)
    ensures Parse(Source(Dict(gap, entries)) + rest) == Ok(Obj(Assigned([], entries)), rest)
    decreases entries, 1
  {
    hide Parse, Token, Members, Sees, After, Spaces, LegalEntries, EntriesText, Insert;
    var body := if entries == [] then gap else EntriesText(entries);
    var u := body + ([CLOSE_BRACE] + rest);
    assert Source(Dict(gap, entries)) + rest == [OPEN_BRACE] + u;
    ParseToken(OPEN_BRACE, u);
    TokenObject(u);
    if entries == [] {
      SeesThrough(gap, CLOSE_BRACE, rest, CLOSE_BRACE);
    } else {
      EntriesParse([], entries, rest);
      OpensEntries(entries, rest);
    }
  }

  /** `expect` for the closing brace fails at the first key, and only skips its spaces. */
  lemma OpensEntries(entries: seq<Entry>, rest: Text)
    requires LegalEntries(entries) && entries != []
    ensures var u := EntriesText(entries) + ([CLOSE_BRACE] + rest);
      !Sees(u, CLOSE_BRACE) && Members([], After(u, CLOSE_BRACE)) == Members([], u)
  {
    hide Members, Sees, After, Spaces, LegalEntry, EntryText;
    var close := [CLOSE_BRACE] + rest;
    var m := (if |entries| == 1 then [] else [COMMA] + EntriesText(entries[1..])) + close;
    assert EntriesText(entries) + close == EntryText(entries[0]) + m;
    var w, r := EntryOpens(entries[0], m);
    SeesThrough(w, QUOTE, r, CLOSE_BRACE);
    MembersSkips([], w, [QUOTE] + r);
  }

  lemma EntryOpens(e: Entry, m: Text) returns (w: Text, r: Text)
    requires LegalEntry(e)
    ensures Spaces(w) && EntryText(e) + m == w + ([QUOTE] + r)
  {
    hide LegalElem, StringText, ElemText;
    w := e.before;
    var t := StringText(e.key) + ([QUOTE] + (e.colon + ([COLON] + ElemText(e.elem))));
    r := t + m;
    Regroup(w, [QUOTE], t, m);
  }

  lemma Regroup(a: Text, b: Text, c: Text, d: Text)
    ensures a + (b + c) + d == a + (b + (c + d))
  {
  }

  lemma KeyReads(before: Text, key: seq<Piece>, colon: Text, s: Text)
    requires Spaces(before) && LegalString(key) && Spaces(colon)
    ensures Key(before + ([QUOTE] + (StringText(key) + ([QUOTE] + (colon + ([COLON] + s)))))) == Ok(StringBytes(key), s)
  {
    hide StringBody, Sees, After, StringText, Spaces;
    var body := StringText(key) + ([QUOTE] + (colon + ([COLON] + s)));
    SeesThrough(before, QUOTE, body, QUOTE);
    StringComplete(key, colon + ([COLON] + s));
    SeesThrough(colon, COLON, s, COLON);
  }

  lemma EntryReads(e: Entry, r: Text)
    requires LegalEntry(e) && Closes(r)
    ensures Key(EntryText(e) + r) == Ok(StringBytes(e.key), ElemText(e.elem) + r)
    ensures Parse(ElemText(e.elem) + r) == Ok(Meaning(e.elem.doc), e.elem.after + r)
    decreases e, 3
  {
    hide Key, Parse, LegalElem, StringText, ElemText, Spaces;
    KeyReads(e.before, e.key, e.colon, ElemText(e.elem) + r);
    assert EntryText(e) + r ==
      e.before + ([QUOTE] + (StringText(e.key) + ([QUOTE] + (e.colon + ([COLON] + (ElemText(e.elem) + r))))));
    ElemParses(e.elem, r);
  }

  lemma {:induction false} EntriesParse(ms: seq<Member>, es: seq<Entry>, rest: Text)
    requires LegalEntries(es) && es != []
    ensures Members(ms, EntriesText(es) + ([CLOSE_BRACE] + rest)) == Ok(Assigned(ms, es), rest)
    decreases es, 0
  {
    hide Parse, Members, Key, Sees, After, Spaces, EntryText, Meaning, Insert, StringBytes, ElemText;
    var e, close := es[0], [CLOSE_BRACE] + rest;
    var r := if |es| == 1 then close else [COMMA] + (EntriesText(es[1..]) + close);
    assert EntriesText(es) + close == EntryText(e) + r;
    EntryReads(e, r);
    var k, v := StringBytes(e.key), Meaning(e.elem.doc);
    MembersStep(ms, EntryText(e) + r, k, ElemText(e.elem) + r, v, e.elem.after + r);
    if |es| == 1 {
      SeesThrough(e.elem.after, CLOSE_BRACE, rest, COMMA);
      SeesNow(CLOSE_BRACE, rest, CLOSE_BRACE);
      assert es[1..] == [];
    } else {
      EntriesParse(Insert(ms, k, v), es[1..], rest);
      SeesThrough(e.elem.after, COMMA, EntriesText(es[1..]) + close, COMMA);
    }
  }

  // ---- Whatever is read was written by a tree ----

  lemma {:induction false} SkippedAreSpaces(s: Text)
    ensures forall i :: 0 <= i < |s| - |SkipSpace(s)| ==> IsSpace(s[i])
  {
    if s == [] || !IsSpace(s[0]) {
    } else {
      SkippedAreSpaces(s[1..]);
      forall i | 0 <= i < |s| - |SkipSpace(s)| ensures IsSpace(s[i]) {
        if i > 0 { assert s[i] == s[1..][i - 1]; }
      }
    }
  }

  lemma LeadingSpaces(s: Text) returns (w: Text)
    ensures Spaces(w) && s == w + SkipSpace(s)
  {
    SkippedAreSpaces(s);
    w := s[..|s| - |SkipSpace(s)|];
  }

  /** `expect` that succeeds reads spaces and its character; one that fails reads only the spaces. */
  lemma ExpectReads(s: Text, c: Byte) returns (w: Text)
    ensures Spaces(w) && s == w + if Sees(s, c) then [c] + After(s, c) else After(s, c)
  {
    hide SkipSpace;
    w := LeadingSpaces(s);
  }

  ghost predicate Derives(s: Text, v: Value, rest: Text, w: Text, doc: Doc) {
    && Spaces(w) && Legal(doc) && Meaning(doc) == v && s == w + (Source(doc) + rest)
    && (doc.Num? ==> Ends(rest))
  }

  lemma {:induction false} ParseSound(s: Text) returns (w: Text, doc: Doc)
    requires Parse(s).Ok?
    ensures Derives(s, Parse(s).value, Parse(s).rest, w, doc)
    decreases |s|, 1
  {
    hide Token, Legal, Meaning, Source;
    w := LeadingSpaces(s);
    doc := TokenSound(SkipSpace(s));
  }

  lemma {:induction false} TokenSound(t: Text) returns (doc: Doc)
    requires t != [] && Token(t).Ok?
    ensures Legal(doc) && Meaning(doc) == Token(t).value && t == Source(doc) + Token(t).rest
    ensures doc.Num? ==> Ends(Token(t).rest)
    decreases |t|, 0
  {
    hide Array, Object, Keyword, StringBody, Number;
    var c, u := t[0], t[1..];
    assert t == [c] + u;
    if c == 110 || c == 102 || c == 116 {
      doc := WordSound(t);
    } else if c == QUOTE {
      doc := CharsSound(t);
    } else if c == OPEN_BRACKET {
      doc := ArraySound(u);
    } else if c == OPEN_BRACE {
      doc := ObjectSound(u);
    } else {
      doc := NumberSound(t);
    }
  }

  lemma WordSound(t: Text) returns (doc: Doc)
    requires t != [] && (t[0] == 110 || t[0] == 102 || t[0] == 116) && Token(t).Ok?
    ensures doc.Word? && Legal(doc) && Meaning(doc) == Token(t).value && t == Source(doc) + Token(t).rest
  {
    hide Array, Object, Keyword, StringBody, Number;
    var c, u := t[0], t[1..];
    assert t == [c] + u;
    if c == 110 {
      KeywordSound(u, [117, 108, 108], Null);
      doc := Word(Null);
    } else if c == 102 {
      KeywordSound(u, [97, 108, 115, 101], Bool(false));
      doc := Word(Bool(false));
    } else {
      KeywordSound(u, [114, 117, 101], Bool(true));
      doc := Word(Bool(true));
    }
  }

  lemma CharsSound(t: Text) returns (doc: Doc)
    requires t != [] && t[0] == QUOTE && Token(t).Ok?
    ensures doc.Chars? && Legal(doc) && Meaning(doc) == Token(t).value && t == Source(doc) + Token(t).rest
  {
    hide Array, Object, Keyword, StringBody, Number, StringText, StringBytes;
    var u := t[1..];
    assert t == [QUOTE] + u;
    var ps := StringSound(u);
    doc := Chars(ps);
    Regroup([QUOTE], StringText(ps), [QUOTE], StringBody(u).rest);
  }

  lemma KeywordSound(s: Text, word: Text, v: Value)
    requires Keyword(s, word, v).Ok?
    ensures Keyword(s, word, v).value == v && s == word + Keyword(s, word, v).rest
  {
  }

  lemma {:induction false} RunOfNumber(s: Text)
    ensures forall i :: 0 <= i < NumberLength(s) ==> IsNumberChar(s[i])
    ensures Ends(s[NumberLength(s)..])
  {
    if s != [] && IsNumberChar(s[0]) {
      RunOfNumber(s[1..]);
      var n := NumberLength(s[1..]);
      assert s[1..][n..] == s[1 + n..];
      forall i | 0 <= i < NumberLength(s) ensures IsNumberChar(s[i]) {
        if i > 0 { assert s[i] == s[1..][i - 1]; }
      }
    }
  }

  lemma NumberSound(t: Text) returns (doc: Doc)
    requires t != [] && (IsDigit(t[0]) || t[0] == MINUS) && Number(t).Ok?
    ensures Legal(doc) && Meaning(doc) == Number(t).value && t == Source(doc) + Number(t).rest
    ensures doc.Num? && Ends(Number(t).rest)
  {
    hide IntOf, Decimal;
    var n := NumberLength(t);
    RunOfNumber(t);
    IntOfIs(t[..n], IntOf(t[..n]).value);
    var neg, d :| Writes(t[..n], neg, d, IntOf(t[..n]).value);
    doc := Num(neg, d);
  }

  lemma ArraySound(u: Text) returns (doc: Doc)
    requires Array(u).Ok?
    ensures Legal(doc) && Meaning(doc) == Array(u).value && !doc.Num?
    ensures [OPEN_BRACKET] + u == Source(doc) + Array(u).rest
    decreases |u|, 3
  {
    hide Items, Sees, After, Spaces, LegalElem, ElemText, Meaning;
    var w := ExpectReads(u, CLOSE_BRACKET);
    if Sees(u, CLOSE_BRACKET) {
      doc := List(w, []);
      EmptyDoc(w);
    } else {
      var t := After(u, CLOSE_BRACKET);
      var es := ItemsSound(t);
      var ds := Widen(es, w);
      doc := List([], ds);
      ListDoc(ds);
      assert u == ElemsText(ds) + ([CLOSE_BRACKET] + Items(t).rest);
    }
  }

  lemma EmptyDoc(w: Text)
    requires Spaces(w)
    ensures Legal(List(w, [])) && Meaning(List(w, [])) == Arr([])
    ensures Legal(Dict(w, [])) && Meaning(Dict(w, [])) == Obj([])
  {
  }

  lemma ListDoc(es: seq<Elem>)
    requires LegalElems(es)
    ensures Spaces([]) && Legal(List([], es)) && Meaning(List([], es)) == Arr(Meanings(es))
  {
  }

  lemma DictDoc(es: seq<Entry>)
    requires LegalEntries(es)
    ensures Spaces([]) && Legal(Dict([], es)) && Meaning(Dict([], es)) == Obj(Assigned([], es))
  {
  }

  lemma JoinSpaces(w: Text, x: Text)
    requires Spaces(w) && Spaces(x)
    ensures Spaces(w + x)
  {
  }

  /** More spaces before the first value. */
  lemma Widen(es: seq<Elem>, w: Text) returns (ds: seq<Elem>)
    requires LegalElems(es) && es != [] && Spaces(w)
    ensures LegalElems(ds) && ds != [] && ElemsText(ds) == w + ElemsText(es) && Meanings(ds) == Meanings(es)
  {
    hide Legal, Meaning, Source, Spaces;
    JoinSpaces(w, es[0].before);
    var e := es[0].(before := w + es[0].before);
    ds := [e] + es[1..];
    assert ds[1..] == es[1..];
    assert ElemText(e) == w + ElemText(es[0]);
  }

  lemma WidenEntry(es: seq<Entry>, w: Text) returns (ds: seq<Entry>)
    requires LegalEntries(es) && es != [] && Spaces(w)
    ensures LegalEntries(ds) && ds != [] && EntriesText(ds) == w + EntriesText(es)
    ensures forall ms :: Assigned(ms, ds) == Assigned(ms, es)
  {
    hide LegalElem, Meaning, ElemText, Spaces, Insert, StringBytes, StringText;
    JoinSpaces(w, es[0].before);
    var e := es[0].(before := w + es[0].before);
    ds := [e] + es[1..];
    assert ds[1..] == es[1..];
    assert EntryText(e) == w + EntryText(es[0]);
  }

  lemma {:induction false} ItemsSound(s: Text) returns (es: seq<Elem>)
    requires Items(s).Ok?
    ensures LegalElems(es) && es != [] && Meanings(es) == Items(s).value
    ensures s == ElemsText(es) + ([CLOSE_BRACKET] + Items(s).rest)
    decreases |s|, 2
  {
    hide Parse, Sees, After, Spaces, Legal, Meaning, Source;
    var w, doc := ParseSound(s);
    var t := Parse(s).rest;
    var after := ExpectReads(t, COMMA);
    var e := Elem(w, doc, after);
    if Sees(t, COMMA) {
      var ds := ItemsSound(After(t, COMMA));
      es := [e] + ds;
      assert es[1..] == ds;
    } else {
      var u := After(t, COMMA);
      var x := ExpectReads(u, CLOSE_BRACKET);
      JoinSpaces(after, x);
      e := Elem(w, doc, after + x);
      es := [e];
      assert es[1..] == [];
    }
  }

  lemma ObjectSound(u: Text) returns (doc: Doc)
    requires Object(u).Ok?
    ensures Legal(doc) && Meaning(doc) == Object(u).value && !doc.Num?
    ensures [OPEN_BRACE] + u == Source(doc) + Object(u).rest
    decreases |u|, 3
  {
    hide Members, Sees, After, Spaces, LegalEntry, EntryText, Meaning, Insert;
    var w := ExpectReads(u, CLOSE_BRACE);
    if Sees(u, CLOSE_BRACE) {
      doc := Dict(w, []);
      EmptyDoc(w);
    } else {
      var t := After(u, CLOSE_BRACE);
      var es := MembersSound([], t);
      var ds := WidenEntry(es, w);
      doc := Dict([], ds);
      DictDoc(ds);
      assert u == EntriesText(ds) + ([CLOSE_BRACE] + Members([], t).rest);
    }
  }

  lemma KeySound(s: Text) returns (before: Text, key: seq<Piece>, colon: Text)
    requires Key(s).Ok?
    ensures Spaces(before) && LegalString(key) && Spaces(colon) && StringBytes(key) == Key(s).value
    ensures s == before + ([QUOTE] + (StringText(key) + ([QUOTE] + (colon + ([COLON] + Key(s).rest)))))
  {
    hide StringBody, Sees, After, Spaces;
    before := ExpectReads(s, QUOTE);
    var t := After(s, QUOTE);
    key := StringSound(t);
    colon := ExpectReads(StringBody(t).rest, COLON);
  }

  lemma EntryFirst(ms: seq<Member>, e: Entry, ds: seq<Entry>)
    requires LegalEntry(e) && LegalEntries(ds)
    ensures LegalEntries([e] + ds)
    ensures Legal(e.elem.doc) && LegalString(e.key)
    ensures Assigned(ms, [e] + ds) == Assigned(Insert(ms, StringBytes(e.key), Meaning(e.elem.doc)), ds)
    ensures EntriesText([e] + ds) == EntryText(e) + if ds == [] then [] else [COMMA] + EntriesText(ds)
  {
    hide Meaning, StringBytes, Insert, EntryText;
    assert ([e] + ds)[1..] == ds;
    assert LegalElem(e.elem);
  }

  lemma {:induction false} MembersSound(ms: seq<Member>, s: Text) returns (es: seq<Entry>)
    requires Members(ms, s).Ok?
    ensures LegalEntries(es) && es != [] && Assigned(ms, es) == Members(ms, s).value
    ensures s == EntriesText(es) + ([CLOSE_BRACE] + Members(ms, s).rest)
    decreases |s|, 2
  {
    hide Parse, Sees, After, Spaces, Legal, Meaning, Source, Key, Insert, StringText, StringBytes;
    var before, key, colon := KeySound(s);
    var t0 := Key(s).rest;
    var w, doc := ParseSound(t0);
    var t := Parse(t0).rest;
    var ms' := Insert(ms, Key(s).value, Parse(t0).value);
    var after := ExpectReads(t, COMMA);
    if Sees(t, COMMA) {
      var e := Entry(before, key, colon, Elem(w, doc, after));
      var ds := MembersSound(ms', After(t, COMMA));
      es := [e] + ds;
      EntryFirst(ms, e, ds);
    } else {
      var u := After(t, COMMA);
      var x := ExpectReads(u, CLOSE_BRACE);
      JoinSpaces(after, x);
      var e := Entry(before, key, colon, Elem(w, doc, after + x));
      es := [e] + [];
      EntryFirst(ms, e, []);
    }
  }

  /** The parser accepts exactly the texts of the grammar, and reads each of them as its meaning: it returns a
      value and leaves a rest if and only if the text is some spaces, the text of a legal tree with that
      meaning, and that rest, which must not continue a number. */
  lemma GrammarIff(s: Text, v: Value, rest: Text)
    ensures Parse(s) == Ok(v, rest) <==> exists w, doc :: Derives(s, v, rest, w, doc)
  {
    hide Parse, Meaning, Source, Legal, Spaces;
    if Parse(s) == Ok(v, rest) {
      var w, doc := ParseSound(s);
    }
    forall w, doc | Derives(s, v, rest, w, doc) ensures Parse(s) == Ok(v, rest) {
      DocParses(doc, w, rest);
    }
  }

  /** An object that is read is sorted, its keys are exactly the keys of its text, and each has the value of its
      last occurrence there. */
  lemma ObjectIsLastWins(doc: Doc, key: Text, v: Value)
    requires Legal(doc) && Meaning(doc).Obj?
    ensures doc.Dict? && LegalEntries(doc.entries) && Sorted(Meaning(doc).members)
    ensures Has(Meaning(doc).members, key, v) <==> LastOf(doc.entries, key) == Some(v)
  {
    hide LegalElems, LegalEntries, Spaces, Meanings, LastOf;
    LastWins([], doc.entries, key, v);
  }
}
