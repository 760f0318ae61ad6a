/** The escapes of section 7 of RFC 8259 against the encoding of section 3 of RFC 3629. */
module JsonUnicode {
  import opened BitOps
  import opened JsonParser
  import opened JsonRoundTrip
  import opened JsonValue
  import opened Options

  /** UTF-8 as the table of RFC 3629 gives it. */
  function Utf8(u: nat): Text
    requires u < 0x110000
  {
    if u < 0x80 then [u]
    else if u < 0x800 then [0xc0 + u / 64, 0x80 + u % 64]
    else if u < 0x10000 then [0xe0 + u / 4096, 0x80 + u / 64 % 64, 0x80 + u % 64]
    else [0xf0 + u / 262144, 0x80 + u / 4096 % 64, 0x80 + u / 64 % 64, 0x80 + u % 64]
  }

  /** The code point at the start of a text, and its length. */
  function DecodeUtf8(s: Text): (nat, nat)
    requires s != []
  {
    var a: nat, b: nat := s[0], if |s| > 1 then s[1] else 0;
    var c: nat, d: nat := if |s| > 2 then s[2] else 0, if |s| > 3 then s[3] else 0;
    if a < 0xc0 then (a, 1)
    else if a < 0xe0 then ((a - 0xc0) * 64 + b % 64, 2)
    else if a < 0xf0 then ((a - 0xe0) * 4096 + b % 64 * 64 + c % 64, 3)
    else ((a - 0xf0) * 262144 + b % 64 * 4096 + c % 64 * 64 + d % 64, 4)
  }

  lemma DecodeByLength(a: Byte, b: Byte, c: Byte, d: Byte, s: Text)
    ensures a < 0xc0 ==> DecodeUtf8([a] + s) == (a, 1)
    ensures 0xc0 <= a < 0xe0 ==> DecodeUtf8([a, b] + s) == ((a - 0xc0) * 64 + b % 64, 2)
    ensures 0xe0 <= a < 0xf0 ==> DecodeUtf8([a, b, c] + s) == ((a - 0xe0) * 4096 + b % 64 * 64 + c % 64, 3)
    ensures 0xf0 <= a ==>
      DecodeUtf8([a, b, c, d] + s) == ((a - 0xf0) * 262144 + b % 64 * 4096 + c % 64 * 64 + d % 64, 4)
  {
  }

  /** The reference encoding can be decoded. */
  lemma Utf8Decodes(u: nat, s: Text)
    requires u < 0x110000
    ensures DecodeUtf8(Utf8(u) + s) == (u, |Utf8(u)|)
  {
    hide DecodeUtf8;
    SixBits(u);
    SixBits(u / 64);
    SixBits(u / 4096);
    Nested(u);
    if u < 0x80 {
      DecodeByLength(u, 0, 0, 0, s);
    } else if u < 0x800 {
      DecodeByLength(0xc0 + u / 64, 0x80 + u % 64, 0, 0, s);
    } else if u < 0x10000 {
      DecodeByLength(0xe0 + u / 4096, 0x80 + u / 64 % 64, 0x80 + u % 64, 0, s);
    } else {
      DecodeByLength(0xf0 + u / 262144, 0x80 + u / 4096 % 64, 0x80 + u / 64 % 64, 0x80 + u % 64, s);
    }
  }

  lemma SixBits(x: nat)
    ensures (0x80 + x % 64) % 64 == x % 64 && x == x / 64 * 64 + x % 64
  {
  }

  lemma Nested(u: nat)
    ensures u / 64 / 64 == u / 4096 && u / 4096 / 64 == u / 262144
  {
  }

  lemma LeadByte(mark: nat, x: nat, k: nat)
    requires x < Pow2(k) && (mark, k) in {(0xc0, 5), (0xe0, 4), (0xf0, 3), (0x80, 6)}
    ensures Or(mark, x) == mark + x < 256
  {
    hide Or, Pow2;
    Powers();
    OrDisjoint(if k == 5 then 6 else if k == 4 then 14 else if k == 3 then 30 else 2, x, k);
  }

  lemma LowSix(x: nat)
    ensures And(x, 0x3f) == x % 64
  {
    hide And, Pow2;
    Powers();
    AndLowMask(x, 6);
  }

  lemma Continuation(x: nat)
    ensures ToByte(Or(0x80, And(x, 0x3f))) == 0x80 + x % 64
  {
    hide Or, And, Pow2;
    Powers();
    LowSix(x);
    LeadByte(0x80, x % 64, 6);
  }

  /** The shifts and masks of the source compute UTF-8. */
  lemma EncodeIsUtf8(u: nat)
    requires u < 0x110000
    ensures Encode(u) == Utf8(u)
  {
    hide Or, And, Pow2;
    Powers();
    Continuation(u);
    if 0x80 <= u < 0x800 {
      LeadByte(0xc0, u / 64, 5);
    } else if 0x800 <= u {
      Continuation(u / 64);
      if u < 0x10000 {
        LeadByte(0xe0, u / 4096, 4);
      } else {
        Continuation(u / 4096);
        LeadByte(0xf0, u / 262144, 3);
      }
    }
  }

  lemma Powers()
    ensures Pow2(3) == 8 && Pow2(4) == 16 && Pow2(5) == 32 && Pow2(6) == 64 && Pow2(10) == 1024
  {
  }

  /** The sixteen digits, `0` to `9` and `a` to `f`, or `A` to `F`. */
  const LOWER_HEX: Text := [48, 49, 50, 51, 52, 53, 54, 55, 56, 57, 97, 98, 99, 100, 101, 102]
  const UPPER_HEX: Text := [48, 49, 50, 51, 52, 53, 54, 55, 56, 57, 65, 66, 67, 68, 69, 70]

  ghost predicate IsHex(c: Byte, n: nat) {
    n < 16 && (LOWER_HEX[n] == c || UPPER_HEX[n] == c)
  }

  /** A digit is read in either case, and nothing else is. */
  lemma HexValueIs(c: Byte, n: nat)
    ensures HexValue(c) == Some(n) <==> IsHex(c, n)
    ensures HexValue(c) == None <==> forall m :: !IsHex(c, m)
  {
    if HexValue(c).Some? { assert IsHex(c, HexValue(c).value); }
  }

  /** Four hexadecimal digits, in either case, with value `u`. */
  ghost predicate Quad(h: Text, u: nat) {
    |h| == 4 && exists a: nat, b: nat, c: nat, d: nat ::
      IsHex(h[0], a) && IsHex(h[1], b) && IsHex(h[2], c) && IsHex(h[3], d) && u == ((a * 16 + b) * 16 + c) * 16 + d
  }

  lemma QuadReads(h: Text, u: nat, s: Text)
    requires Quad(h, u)
    ensures QuadHex(h + s, 0, 0) == Ok(u, s)
  {
    hide QuadHex, HexValue, IsHex;
    var a: nat, b: nat, c: nat, d: nat :|
      IsHex(h[0], a) && IsHex(h[1], b) && IsHex(h[2], c) && IsHex(h[3], d) && u == ((a * 16 + b) * 16 + c) * 16 + d;
    HexValueIs(h[0], a);
    HexValueIs(h[1], b);
    HexValueIs(h[2], c);
    HexValueIs(h[3], d);
    assert h + s == [h[0]] + ([h[1]] + ([h[2]] + ([h[3]] + s)));
    QuadHexReads(h[0], h[1], h[2], h[3], s);
  }

  /** Only four hexadecimal digits are read. */
  lemma QuadIsRead(s: Text)
    requires QuadHex(s, 0, 0).Ok?
    ensures |s| >= 4 && Quad(s[..4], QuadHex(s, 0, 0).value) && QuadHex(s, 0, 0).rest == s[4..]
  {
    hide HexValue, Pow2, IsHex, QuadHex;
    FourDigits(s);
    HexValueIs(s[0], HexValue(s[0]).value);
    HexValueIs(s[1], HexValue(s[1]).value);
    HexValueIs(s[2], HexValue(s[2]).value);
    HexValueIs(s[3], HexValue(s[3]).value);
  }

  lemma FourDigits(s: Text)
    requires QuadHex(s, 0, 0).Ok?
    ensures |s| >= 4 && HexValue(s[0]).Some? && HexValue(s[1]).Some? && HexValue(s[2]).Some? && HexValue(s[3]).Some?
    ensures QuadHex(s, 0, 0).rest == s[4..]
    ensures QuadHex(s, 0, 0).value
      == ((HexValue(s[0]).value * 16 + HexValue(s[1]).value) * 16 + HexValue(s[2]).value) * 16 + HexValue(s[3]).value
  {
    hide HexValue, Pow2, QuadHex;
    ZeroBits();
    QuadHexStep(s, 0, 0);
    var a, s1 := HexValue(s[0]).value, s[1..];
    QuadHexStep(s1, 1, a);
    var b, s2 := HexValue(s1[0]).value, s1[1..];
    QuadHexStep(s2, 2, a * 16 + b);
    var c, s3 := HexValue(s2[0]).value, s2[1..];
    QuadHexStep(s3, 3, (a * 16 + b) * 16 + c);
    var d, s4 := HexValue(s3[0]).value, s3[1..];
    QuadHexDone(s4, ((a * 16 + b) * 16 + c) * 16 + d);
    assert s4 == s[4..];
  }

  predicate Surrogate(u: nat) { 0xd800 <= u <= 0xdfff }

  /** A code point of the basic plane that is no surrogate: its escape appends its UTF-8 encoding. */
  lemma BasicEscape(h: Text, u: nat, s: Text)
    requires Quad(h, u) && !Surrogate(u) && u < 0x10000
    ensures Codepoint(h + s) == Ok(Utf8(u), s)
  {
    hide QuadHex, Encode, Utf8;
    QuadReads(h, u, s);
    EncodeIsUtf8(u);
  }

  /** A lone or reversed low surrogate is rejected, and so is a high one without its partner. */
  lemma LoneSurrogate(h: Text, u: nat, s: Text)
    requires Quad(h, u) && Surrogate(u)
    requires u >= 0xdc00 || |s| < 2 || s[0] != BACKSLASH || s[1] != 117
    ensures Codepoint(h + s) == Fail
  {
    hide QuadHex, Encode;
    QuadReads(h, u, s);
  }

  /** The code point of a pair. */
  function PairValue(hi: nat, lo: nat): nat
    requires 0xd800 <= hi < 0xdc00 && 0xdc00 <= lo <= 0xdfff
  {
    0x10000 + (hi - 0xd800) * 0x400 + (lo - 0xdc00)
  }

  lemma PairBits(hi: nat, lo: nat)
    requires 0xd800 <= hi < 0xdc00 && 0xdc00 <= lo <= 0xdfff
    ensures Or((hi - 0xd800) * 1024, And(lo - 0xdc00, 0x3ff)) + 0x10000 == PairValue(hi, lo) < 0x110000
  {
    hide Or, And;
    Powers();
    AndLowMask(lo - 0xdc00, 10);
    OrDisjoint(hi - 0xd800, lo - 0xdc00, 10);
  }

  /** A high surrogate followed by another escape is accepted exactly when that one is a low surrogate, and
      then the pair appends the UTF-8 encoding of its code point. */
  lemma PairEscape(h: Text, hi: nat, l: Text, lo: nat, s: Text)
    requires Quad(h, hi) && 0xd800 <= hi < 0xdc00 && Quad(l, lo)
    ensures Codepoint(h + ([BACKSLASH, 117] + (l + s))) ==
      if 0xdc00 <= lo <= 0xdfff then Ok(Utf8(PairValue(hi, lo)), s) else Fail
  {
    hide QuadHex, Encode, Utf8, Quad, Or, And;
    var rest := [BACKSLASH, 117] + (l + s);
    QuadReads(h, hi, rest);
    QuadReads(l, lo, s);
    assert rest[2..] == l + s;
    if 0xdc00 <= lo <= 0xdfff {
      PairBits(hi, lo);
      EncodeIsUtf8(PairValue(hi, lo));
    }
  }

  /** Every supplementary code point is the value of exactly one pair. */
  lemma PairOf(u: nat) returns (hi: nat, lo: nat)
    requires 0x10000 <= u < 0x110000
    ensures 0xd800 <= hi < 0xdc00 && 0xdc00 <= lo <= 0xdfff && PairValue(hi, lo) == u
    ensures forall h, l :: 0xd800 <= h < 0xdc00 && 0xdc00 <= l <= 0xdfff && PairValue(h, l) == u ==> h == hi && l == lo
  {
    hi, lo := 0xd800 + (u - 0x10000) / 0x400, 0xdc00 + (u - 0x10000) % 0x400;
  }
}
