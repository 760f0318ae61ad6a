/** The 64-bit chunks of src/utils/bitmap.c: their masks, their counts, and the flat sequence of bits that
    a row of chunks stands for. */
module BitmapWords {
  import opened BitOps
  import opened BitmapSpec

  const WIDTH: nat := 64

  type Word = w: nat | w < Pow2(WIDTH)

  /** All ones: a full chunk. */
  function Ones(): (w: Word)
    ensures Mask(w, 0, 64)
  {
    OnesMask(WIDTH);
    Pow2(WIDTH) - 1
  }

  function Shl(w: Word, k: nat): Word {
    w * Pow2(k) % Pow2(WIDTH)
  }

  function Shr(w: Word, k: nat): Word {
    if k == 0 then w else Shr(w, k - 1) / 2
  }

  function Not(w: Word): Word {
    Pow2(WIDTH) - 1 - w
  }

  function OrWord(a: Word, b: Word): Word {
    OrRange(a, b, WIDTH);
    Or(a, b)
  }

  function AndWord(a: Word, b: Word): Word {
    AndRange(a, b);
    And(a, b)
  }

  /** `__builtin_popcountl`. */
  function PopCount(w: nat): nat {
    if w == 0 then 0 else w % 2 + PopCount(w / 2)
  }

  /** The number of zero digits just below digit `k`; `__builtin_clzl` is the case `k == 64`. */
  function LeadingZeros(w: nat, k: nat): (r: nat)
    ensures r <= k
  {
    if k == 0 || TestBit(w, k - 1) then 0 else 1 + LeadingZeros(w, k - 1)
  }

  // ---- Masks ----

  /** `m` has exactly the digits `lo..hi` set. */
  ghost predicate Mask(m: nat, lo: nat, hi: nat) {
    hi <= 64 && forall i: nat :: i < 64 ==> (TestBit(m, i) <==> lo <= i < hi)
  }

  lemma OnesMask(k: nat)
    requires k <= 64
    ensures Mask(Pow2(k) - 1, 0, k)
  {
    var m := Pow2(k) - 1;
    forall i: nat | i < 64 ensures TestBit(m, i) <==> 0 <= i < k {
      OnesBit(k, i);
    }
  }

  lemma ShlMask(m: Word, lo: nat, hi: nat, k: nat)
    requires Mask(m, lo, hi)
    ensures Mask(Shl(m, k), if lo + k < 64 then lo + k else 64, if hi + k < 64 then hi + k else 64)
  {
    forall i: nat | i < 64 ensures TestBit(Shl(m, k), i) <==> lo + k <= i < hi + k {
      TruncateBit(m * Pow2(k), WIDTH, i);
      ShlBit(m, k, i);
      if i >= k { assert TestBit(m, i - k) <==> lo <= i - k < hi; }
    }
  }

  /** `(1 << n) - 1`, and all ones for a whole word. */
  function LowMask(n: nat): (m: Word)
    requires n <= 64
    ensures Mask(m, 0, n)
  {
    OnesMask(n);
    Pow2Monotone(n, WIDTH);
    if n == 64 then Ones() else
      assert Shl(1, n) == Pow2(n) by { Pow2Less(n, WIDTH); }
      Shl(1, n) - 1
  }

  lemma {:induction false} Pow2Monotone(a: nat, b: nat)
    requires a <= b
    ensures Pow2(a) <= Pow2(b)
    decreases b
  {
    if a == b {
    } else {
      Pow2Monotone(a, b - 1);
    }
  }

  lemma Pow2Less(a: nat, b: nat)
    requires a < b
    ensures 1 * Pow2(a) % Pow2(b) == Pow2(a)
  {
    Pow2Monotone(a, b - 1);
    ModUnique(Pow2(a), Pow2(b), 0, Pow2(a));
  }

  /** `-1 << k`. */
  function HighMask(k: nat): (m: Word)
    requires k < 64
    ensures Mask(m, k, 64)
  {
    ShlMask(Ones(), 0, 64, k);
    Shl(Ones(), k)
  }

  /** `-1 >> (64 - k)`. */
  function LowMaskByShr(k: nat): (m: Word)
    requires k <= 64
    ensures Mask(m, 0, k)
  {
    ShrOnes(64 - k);
    OnesMask(k);
    Shr(Ones(), 64 - k)
  }

  lemma {:induction false} ShrOnes(k: nat)
    requires k <= WIDTH
    ensures Shr(Ones(), k) == Pow2(WIDTH - k) - 1
  {
    if k == 0 {
    } else {
      ShrOnes(k - 1);
    }
  }

  // ---- Chunks as flat bits ----

  ghost function Flat(cs: seq<Word>): (b: Bits)
    ensures |b| == 64 * |cs|
  {
    seq(64 * |cs|, i requires 0 <= i < 64 * |cs| => TestBit(cs[i / 64], i % 64))
  }

  lemma FlatAt(cs: seq<Word>, c: nat, i: nat)
    requires c < |cs| && i < 64
    ensures Flat(cs)[64 * c + i] == TestBit(cs[c], i)
  {
    assert (64 * c + i) / 64 == c && (64 * c + i) % 64 == i;
  }

  /** A mask test reads exactly the masked bits. */
  lemma MaskIsFree(cs: seq<Word>, c: nat, m: Word, lo: nat, hi: nat)
    requires c < |cs| && lo <= hi && Mask(m, lo, hi)
    ensures AndWord(m, cs[c]) == 0 <==> FreeAt(Flat(cs), 64 * c + lo, hi - lo)
  {
    if AndWord(m, cs[c]) == 0 {
      forall j | 64 * c + lo <= j < 64 * c + hi ensures !Flat(cs)[j] {
        FlatAt(cs, c, j - 64 * c);
        AndBit(m, cs[c], j - 64 * c);
        ZeroBit(j - 64 * c);
      }
    } else {
      var i := NonZeroHasBit(And(m, cs[c]), WIDTH);
      AndBit(m, cs[c], i);
      FlatAt(cs, c, i);
      assert Flat(cs)[64 * c + i];
    }
  }

  lemma ZeroIsFree(cs: seq<Word>, c: nat)
    requires c < |cs|
    ensures cs[c] == 0 <==> FreeAt(Flat(cs), 64 * c, 64)
  {
    if cs[c] == 0 {
      forall j | 64 * c <= j < 64 * c + 64 ensures !Flat(cs)[j] {
        FlatAt(cs, c, j - 64 * c);
        ZeroBit(j - 64 * c);
      }
    } else {
      var i := NonZeroHasBit(cs[c], WIDTH);
      FlatAt(cs, c, i);
      assert Flat(cs)[64 * c + i];
    }
  }

  lemma OnesIsTaken(cs: seq<Word>, c: nat)
    requires c < |cs|
    ensures cs[c] == Ones() <==> TakenAt(Flat(cs), 64 * c, 64)
  {
    forall i: nat | i < 64 ensures Flat(cs)[64 * c + i] == TestBit(cs[c], i) {
      FlatAt(cs, c, i);
    }
    if TakenAt(Flat(cs), 64 * c, 64) {
      BitsDetermineWord(cs[c], Ones(), WIDTH);
    }
    if cs[c] == Ones() {
      forall j | 64 * c <= j < 64 * c + 64 ensures Flat(cs)[j] {
        assert Flat(cs)[64 * c + (j - 64 * c)] == TestBit(cs[c], j - 64 * c);
      }
    }
  }

  /** Or-ing a mask into a chunk takes exactly the masked bits. */
  lemma OrFills(cs: seq<Word>, c: nat, m: Word, lo: nat, hi: nat)
    requires c < |cs| && lo <= hi && Mask(m, lo, hi)
    ensures Flat(cs[c := OrWord(cs[c], m)]) == Fill(Flat(cs), 64 * c + lo, hi - lo, true)
  {
    forall i: nat | i < 64 ensures TestBit(OrWord(cs[c], m), i) <==> TestBit(cs[c], i) || lo <= i < hi {
      OrBit(cs[c], m, i);
    }
    UpdateFills(cs, c, OrWord(cs[c], m), lo, hi, true);
  }

  /** And-ing with the complement gives them back. */
  lemma AndNotFills(cs: seq<Word>, c: nat, m: Word, lo: nat, hi: nat)
    requires c < |cs| && lo <= hi && Mask(m, lo, hi)
    ensures Flat(cs[c := AndWord(cs[c], Not(m))]) == Fill(Flat(cs), 64 * c + lo, hi - lo, false)
  {
    forall i: nat | i < 64
      ensures TestBit(AndWord(cs[c], Not(m)), i) <==> TestBit(cs[c], i) && !(lo <= i < hi)
    {
      AndBit(cs[c], Not(m), i);
      ComplementBit(m, WIDTH, i);
    }
    UpdateFills(cs, c, AndWord(cs[c], Not(m)), lo, hi, false);
  }

  lemma UpdateFills(cs: seq<Word>, c: nat, w: Word, lo: nat, hi: nat, v: bool)
    requires c < |cs| && lo <= hi <= 64
    requires forall i: nat :: i < 64 ==> TestBit(w, i) == if lo <= i < hi then v else TestBit(cs[c], i)
    ensures Flat(cs[c := w]) == Fill(Flat(cs), 64 * c + lo, hi - lo, v)
  {
    var f, g := Flat(cs[c := w]), Fill(Flat(cs), 64 * c + lo, hi - lo, v);
    forall j | 0 <= j < |f| ensures f[j] == g[j] {
      if j / 64 == c { assert TestBit(w, j % 64) == if lo <= j % 64 < hi then v else TestBit(cs[c], j % 64); }
    }
  }

  lemma StoreFills(cs: seq<Word>, c: nat, w: Word, n: nat)
    requires c < |cs| && Mask(w, 0, n) && FreeAt(Flat(cs), 64 * c, 64)
    ensures Flat(cs[c := w]) == Fill(Flat(cs), 64 * c, n, true)
  {
    forall i: nat | i < 64 ensures TestBit(w, i) == if 0 <= i < n then true else TestBit(cs[c], i) {
      FlatAt(cs, c, i);
      assert !Flat(cs)[64 * c + i];
    }
    UpdateFills(cs, c, w, 0, n, true);
  }

  lemma FillFill(b: Bits, x: nat, m: nat, n: nat, v: bool)
    requires x + m + n <= |b|
    ensures Fill(Fill(b, x, m, v), x + m, n, v) == Fill(b, x, m + n, v)
    ensures Fill(Fill(b, x + m, n, v), x, m, v) == Fill(b, x, m + n, v)
  {
  }

  // ---- Counting ----

  ghost function PopBelow(w: nat, k: nat): nat {
    if k == 0 then 0 else PopBelow(w, k - 1) + if TestBit(w, k - 1) then 1 else 0
  }

  lemma {:induction false} PopBelowHalf(w: nat, k: nat)
    requires k > 0
    ensures PopBelow(w, k) == w % 2 + PopBelow(w / 2, k - 1)
  {
    if k == 1 {
    } else {
      PopBelowHalf(w, k - 1);
    }
  }

  lemma {:induction false} PopCountBelow(w: nat, k: nat)
    requires w < Pow2(k)
    ensures PopCount(w) == PopBelow(w, k)
  {
    if k == 0 {
    } else {
      PopCountBelow(w / 2, k - 1);
      PopBelowHalf(w, k);
    }
  }

  lemma {:induction false} PopBelowIsUsed(cs: seq<Word>, c: nat, k: nat)
    requires c < |cs| && k <= 64
    ensures PopBelow(cs[c], k) == Used(Flat(cs), 64 * c, 64 * c + k)
  {
    if k == 0 {
    } else {
      PopBelowIsUsed(cs, c, k - 1);
      FlatAt(cs, c, k - 1);
    }
  }

  lemma PopCountIsUsed(cs: seq<Word>, c: nat)
    requires c < |cs|
    ensures PopCount(cs[c]) == Used(Flat(cs), 64 * c, 64 * c + 64)
  {
    PopCountBelow(cs[c], WIDTH);
    PopBelowIsUsed(cs, c, 64);
  }

  lemma {:induction false} LeadingZerosIsTrail(cs: seq<Word>, c: nat, k: nat)
    requires c < |cs| && k <= 64
    ensures LeadingZeros(cs[c], k) == Trail(Flat(cs), 64 * c, 64 * c + k)
  {
    if k == 0 {
    } else {
      FlatAt(cs, c, k - 1);
      LeadingZerosIsTrail(cs, c, k - 1);
    }
  }
}
