/** The bitmap allocator seen as one flat sequence of booleans.

    `Alloc` and `Free` say which bits the chunked allocator of src/utils/bitmap.c takes and gives back,
    without its words and masks. The module `Bitmap` proves that the word-level code computes them; the
    lemmas here say what they guarantee. */
module BitmapSpec {
  import opened Options

  type Bits = seq<bool>

  /** `size` usable bits, stored in whole 64-bit chunks; `used` is the cached population count and
      `freeP` the chunk where the next search starts. */
  datatype State = State(bits: Bits, size: nat, used: nat, freeP: nat)

  ghost predicate Valid(s: State) {
    && |s.bits| == 64 * ((s.size + 63) / 64)
    && s.used == Used(s.bits, 0, |s.bits|) <= s.size
    && s.freeP <= |s.bits| / 64
  }

  /** The `n` bits from `x` are in the bitmap and free. */
  ghost predicate FreeAt(b: Bits, x: nat, n: nat) {
    x + n <= |b| && forall i :: x <= i < x + n ==> !b[i]
  }

  /** The `n` bits from `x` are in the bitmap and taken. */
  ghost predicate TakenAt(b: Bits, x: nat, n: nat) {
    x + n <= |b| && forall i :: x <= i < x + n ==> b[i]
  }

  /** `b` with the `n` bits from `lo` set to `v`. */
  ghost function Fill(b: Bits, lo: nat, n: nat, v: bool): Bits
    requires lo + n <= |b|
  {
    seq(|b|, i requires 0 <= i < |b| => if lo <= i < lo + n then v else b[i])
  }

  /** The number of set bits in `lo..hi`. */
  ghost function Used(b: Bits, lo: nat, hi: nat): (r: nat)
    requires lo <= hi <= |b|
    ensures r <= hi - lo
    decreases hi
  {
    if lo == hi then 0 else Used(b, lo, hi - 1) + if b[hi - 1] then 1 else 0
  }

  /** The number of clear bits just below `hi`, not looking below `lo`. */
  ghost function Trail(b: Bits, lo: nat, hi: nat): (f: nat)
    requires lo <= hi <= |b|
    ensures f <= hi - lo
    ensures FreeAt(b, hi - f, f)
    ensures f < hi - lo ==> b[hi - f - 1]
    decreases hi
  {
    if lo == hi || b[hi - 1] then 0 else 1 + Trail(b, lo, hi - 1)
  }

  /** The lowest `s >= lo` with `n` clear bits below `hi`. */
  ghost function FirstFit(b: Bits, lo: nat, hi: nat, n: nat): (r: Option<nat>)
    requires hi <= |b|
    ensures r.Some? ==> lo <= r.value && r.value + n <= hi && FreeAt(b, r.value, n)
    ensures r.None? ==> forall x: nat :: lo <= x && x + n <= hi ==> !FreeAt(b, x, n)
    decreases hi - lo
  {
    if lo + n > hi then None
    else if FreeAt(b, lo, n) then Some(lo)
    else FirstFit(b, lo + 1, hi, n)
  }

  /** An extent that starts in the clear tail of chunk `c` and continues in the following chunks. */
  ghost function CrossFit(b: Bits, c: nat, n: nat): Option<nat>
    requires 64 * c + 64 <= |b|
  {
    var hi := 64 * c + 64;
    var f := Trail(b, hi - 64, hi);
    if hi == |b| || f == 0 || !FreeAt(b, hi - f, n) then None
    else Some(hi - f)
  }

  /** Where chunk `c` lets an extent of `n` bits start. */
  ghost function ChunkFit(b: Bits, size: nat, c: nat, n: nat): Option<nat>
    requires 64 * c + 64 <= |b| && 64 * c <= size
  {
    var lo, hi := 64 * c, 64 * c + 64;
    var top := if size < hi then size else hi;
    if n > 64 then CrossFit(b, c, n)
    else if TakenAt(b, lo, 64) then None
    else if top - lo - Used(b, lo, top) >= n then FirstFit(b, lo, top, n)
    else CrossFit(b, c, n)
  }

  /** The first chunk of `first..last` that has room. */
  ghost function ScanFit(b: Bits, size: nat, n: nat, first: nat, last: nat): Option<nat>
    requires first <= last && 64 * last <= |b| < size + 64
    decreases last - first
  {
    if first == last then None
    else
      var r := ChunkFit(b, size, first, n);
      if r.Some? then r else ScanFit(b, size, n, first + 1, last)
  }

  ghost function StartChunk(s: State): nat {
    if s.freeP == |s.bits| / 64 then 0 else s.freeP
  }

  /** The extent an allocation of `n` bits gets. */
  ghost function AllocAt(s: State, n: nat): Option<nat>
    requires Valid(s)
  {
    var chunks, p := |s.bits| / 64, StartChunk(s);
    if s.size - s.used < n then None
    else
      var r := ScanFit(s.bits, s.size, n, p, chunks);
      if r.Some? then r else ScanFit(s.bits, s.size, n, 0, p)
  }

  ghost function Alloc(s: State, n: nat): State
    requires Valid(s)
  {
    match AllocAt(s, n)
    case None => s.(freeP := StartChunk(s))
    case Some(x) =>
      AllocAtIsClear(s, n);
      State(Fill(s.bits, x, n, true), s.size, s.used + n, x / 64)
  }

  /** The extent is allocated. */
  ghost predicate CanFree(s: State, start: nat, n: nat) {
    1 <= n && TakenAt(s.bits, start, n)
  }

  ghost function Free(s: State, start: nat, n: nat): State
    requires Valid(s) && CanFree(s, start, n)
  {
    UsedFull(s.bits, 0, start, n);
    UsedMonotone(s.bits, start + n);
    s.(bits := Fill(s.bits, start, n, false), used := s.used - n)
  }

  // ---- Counting ----

  lemma {:induction false} UsedSplit(b: Bits, lo: nat, mid: nat, hi: nat)
    requires lo <= mid <= hi <= |b|
    ensures Used(b, lo, hi) == Used(b, lo, mid) + Used(b, mid, hi)
    decreases hi
  {
    if mid == hi {
    } else {
      UsedSplit(b, lo, mid, hi - 1);
    }
  }

  lemma {:induction false} UsedSame(b: Bits, b': Bits, lo: nat, hi: nat)
    requires lo <= hi <= |b| && hi <= |b'|
    requires forall i :: lo <= i < hi ==> b[i] == b'[i]
    ensures Used(b, lo, hi) == Used(b', lo, hi)
    decreases hi
  {
    if lo == hi {
    } else {
      UsedSame(b, b', lo, hi - 1);
    }
  }

  lemma {:induction false} UsedFull(b: Bits, lo: nat, start: nat, n: nat)
    requires lo <= start && TakenAt(b, start, n)
    ensures Used(b, lo, start + n) == Used(b, lo, start) + n
    decreases n
  {
    if n == 0 {
    } else {
      UsedFull(b, lo, start, n - 1);
    }
  }

  lemma {:induction false} UsedClear(b: Bits, lo: nat, start: nat, n: nat)
    requires lo <= start && FreeAt(b, start, n)
    ensures Used(b, lo, start + n) == Used(b, lo, start)
    decreases n
  {
    if n == 0 {
    } else {
      UsedClear(b, lo, start, n - 1);
    }
  }

  lemma UsedMonotone(b: Bits, k: nat)
    requires k <= |b|
    ensures Used(b, 0, k) <= Used(b, 0, |b|)
  {
    UsedSplit(b, 0, k, |b|);
  }

  lemma UsedFill(b: Bits, start: nat, n: nat, v: bool)
    requires if v then FreeAt(b, start, n) else TakenAt(b, start, n)
    ensures Used(Fill(b, start, n, v), 0, |b|) + (if v then 0 else n) == Used(b, 0, |b|) + if v then n else 0
  {
    var b', e := Fill(b, start, n, v), start + n;
    UsedSplit(b, 0, e, |b|);
    UsedSplit(b', 0, e, |b|);
    UsedSame(b, b', e, |b|);
    UsedSame(b, b', 0, start);
    if v {
      UsedClear(b, 0, start, n);
      UsedFull(b', 0, start, n);
    } else {
      UsedFull(b, 0, start, n);
      UsedClear(b', 0, start, n);
    }
  }

  // ---- Soundness ----

  lemma {:induction false} ScanFitFound(b: Bits, size: nat, n: nat, first: nat, last: nat)
    requires first <= last && 64 * last <= |b| < size + 64
    ensures (var r := ScanFit(b, size, n, first, last);
      && (r.Some? <==> exists c :: first <= c < last && ChunkFit(b, size, c, n).Some?)
      && (r.Some? ==>
            exists c :: && first <= c < last && ChunkFit(b, size, c, n) == r
                        && forall d :: first <= d < c ==> ChunkFit(b, size, d, n).None?))
    decreases last - first
  {
    hide ChunkFit;
    if first == last {
    } else {
      ScanFitFound(b, size, n, first + 1, last);
    }
  }

  lemma ChunkFitIsClear(b: Bits, size: nat, c: nat, n: nat)
    requires 64 * c + 64 <= |b| < size + 64 && ChunkFit(b, size, c, n).Some?
    ensures var x := ChunkFit(b, size, c, n).value;
      && x / 64 == c && FreeAt(b, x, n)
      && (size == |b| || |b| == 64 ==> x + n <= size)
  {
  }

  lemma FreeInRange(b: Bits, x: nat, n: nat)
    requires FreeAt(b, x, n)
    ensures x + n <= |b|
  {
  }

  /** An allocation only ever takes bits that were free, and in a bitmap of whole chunks, or of a single
      chunk, it takes them from below `size`. */
  lemma AllocAtIsClear(s: State, n: nat)
    requires Valid(s) && AllocAt(s, n).Some?
    ensures var x := AllocAt(s, n).value;
      && FreeAt(s.bits, x, n)
      && (s.size % 64 == 0 || s.size < 64 ==> x + n <= s.size)
      && x / 64 < |s.bits| / 64
  {
    hide AllocAt, ChunkFit, Used;
    var c := AllocChunk(s, n);
    ChunkFitIsClear(s.bits, s.size, c, n);
  }

  /** The chunk an allocation lands in. */
  lemma AllocChunk(s: State, n: nat) returns (c: nat)
    requires Valid(s) && AllocAt(s, n).Some?
    ensures 64 * c + 64 <= |s.bits| && ChunkFit(s.bits, s.size, c, n) == AllocAt(s, n)
  {
    hide ChunkFit;
    var chunks, p := |s.bits| / 64, StartChunk(s);
    ScanFitFound(s.bits, s.size, n, p, chunks);
    ScanFitFound(s.bits, s.size, n, 0, p);
    var d :| 0 <= d < chunks && ChunkFit(s.bits, s.size, d, n) == AllocAt(s, n);
    c := d;
  }

  /** An allocation fails only when it asks for more bits than are free or no chunk has room. */
  lemma AllocTriesEveryChunk(s: State, n: nat, c: nat)
    requires Valid(s) && n <= s.size - s.used
    requires 64 * c + 64 <= |s.bits| && ChunkFit(s.bits, s.size, c, n).Some?
    ensures AllocAt(s, n).Some?
  {
    hide ChunkFit;
    var chunks, p := |s.bits| / 64, StartChunk(s);
    ScanFitFound(s.bits, s.size, n, p, chunks);
    ScanFitFound(s.bits, s.size, n, 0, p);
  }

  /** Every allocation keeps the bitmap valid: the cached count stays the population count. */
  lemma AllocKeepsValid(s: State, n: nat)
    requires Valid(s)
    ensures Valid(Alloc(s, n))
    ensures Alloc(s, n).used == s.used + if AllocAt(s, n).Some? then n else 0
    ensures AllocAt(s, n).None? ==> Alloc(s, n).bits == s.bits
    ensures |Alloc(s, n).bits| == |s.bits|
    ensures AllocAt(s, n).Some? ==> forall i :: 0 <= i < |s.bits| ==>
      (Alloc(s, n).bits[i] <==> s.bits[i] || AllocAt(s, n).value <= i < AllocAt(s, n).value + n)
  {
    hide ScanFit, Used;
    if AllocAt(s, n).Some? {
      var x := AllocAt(s, n).value;
      AllocAtIsClear(s, n);
      UsedFill(s.bits, x, n, true);
    }
  }

  lemma FreeKeepsValid(s: State, start: nat, n: nat)
    requires Valid(s) && CanFree(s, start, n)
    ensures Valid(Free(s, start, n))
    ensures Free(s, start, n).used + n == s.used
    ensures |Free(s, start, n).bits| == |s.bits|
      && forall i :: 0 <= i < |s.bits| ==> (Free(s, start, n).bits[i] <==> s.bits[i] && !(start <= i < start + n))
  {
    UsedFull(s.bits, 0, start, n);
    UsedMonotone(s.bits, start + n);
    UsedFill(s.bits, start, n, false);
  }

  /** Freeing what was just allocated restores every bit and the count. */
  lemma FreeUndoesAlloc(s: State, n: nat)
    requires Valid(s) && n >= 1 && AllocAt(s, n).Some?
    ensures var x := AllocAt(s, n).value;
      && Valid(Alloc(s, n)) && CanFree(Alloc(s, n), x, n)
      && Free(Alloc(s, n), x, n).bits == s.bits
      && Free(Alloc(s, n), x, n).used == s.used
  {
    AllocKeepsValid(s, n);
    AllocAtIsClear(s, n);
    var x := AllocAt(s, n).value;
    assert Free(Alloc(s, n), x, n).bits == s.bits;
  }

  // ---- Completeness ----

  /** The extent lies in one chunk. */
  predicate InOneChunk(x: nat, n: nat) { x / 64 == (x + n - 1) / 64 }

  /** `n` free bits from `x` that an allocation may use: a partial last chunk ends at `size`. */
  ghost predicate FreeExtent(b: Bits, size: nat, x: nat, n: nat) {
    n >= 1 && FreeAt(b, x, n) && (InOneChunk(x, n) ==> x + n <= size)
  }

  /** ... and that the search can see: they lie in one chunk, or start in a chunk that holds fewer than `n`
      free bits in all. */
  ghost predicate Visible(b: Bits, size: nat, x: nat, n: nat)
    requires |b| % 64 == 0
  {
    FreeExtent(b, size, x, n) && (InOneChunk(x, n) || 64 - Used(b, 64 * (x / 64), 64 * (x / 64) + 64) < n)
  }

  lemma {:induction false} FirstFitLowest(b: Bits, lo: nat, hi: nat, n: nat, x: nat)
    requires hi <= |b| && lo <= x && x + n <= hi && FreeAt(b, x, n)
    ensures FirstFit(b, lo, hi, n).Some? && FirstFit(b, lo, hi, n).value <= x
    decreases x - lo
  {
    if lo == x {
    } else {
      FirstFitLowest(b, lo + 1, hi, n, x);
    }
  }

  lemma VisibleFits(b: Bits, size: nat, x: nat, n: nat)
    requires |b| == 64 * ((size + 63) / 64) && Visible(b, size, x, n)
    ensures 64 * (x / 64) + 64 <= |b| && ChunkFit(b, size, x / 64, n).Some?
  {
    hide ChunkFit, Used;
    if n <= 64 && x + n <= 64 * (x / 64) + 64 {
      InsideFits(b, size, x / 64, x, n);
    } else {
      CrossingFits(b, size, x / 64, x, n);
    }
  }

  /** A free extent inside a chunk. */
  lemma InsideFits(b: Bits, size: nat, c: nat, x: nat, n: nat)
    requires 64 * c + 64 <= |b| < size + 64 && 1 <= n && 64 * c <= x && x + n <= 64 * c + 64
    requires FreeAt(b, x, n) && x + n <= size
    ensures ChunkFit(b, size, c, n).Some?
  {
    hide Used, Trail;
    var lo, hi := 64 * c, 64 * c + 64;
    var top := if size < hi then size else hi;
    assert !b[x];
    FreeInside(b, lo, x, n, top);
    FirstFitLowest(b, lo, top, n, x);
  }

  /** One that leaves its chunk, which holds fewer free bits in all. */
  lemma CrossingFits(b: Bits, size: nat, c: nat, x: nat, n: nat)
    requires |b| % 64 == 0 && |b| < size + 64 && 64 * c <= x < 64 * c + 64 < x + n && FreeAt(b, x, n)
    requires 64 - Used(b, 64 * c, 64 * c + 64) < n
    ensures ChunkFit(b, size, c, n).Some?
  {
    hide Used, Trail, FirstFit;
    TailFits(b, 64 * c, x, n);
    assert !b[x];
  }

  lemma FreeInside(b: Bits, lo: nat, x: nat, n: nat, hi: nat)
    requires lo <= x && x + n <= hi <= |b| && FreeAt(b, x, n)
    ensures n <= hi - lo - Used(b, lo, hi)
  {
    UsedSplit(b, lo, x + n, hi);
    UsedClear(b, lo, x, n);
  }

  /** A free extent that leaves its chunk can start at the beginning of the chunk's clear tail. */
  lemma TailFits(b: Bits, lo: nat, x: nat, n: nat)
    requires lo <= x < lo + 64 < x + n && FreeAt(b, x, n)
    ensures var f := Trail(b, lo, lo + 64);
      f > 0 && FreeAt(b, lo + 64 - f, n)
  {
    TrailCovers(b, lo, lo + 64, x);
  }

  lemma {:induction false} TrailCovers(b: Bits, lo: nat, hi: nat, x: nat)
    requires lo <= x <= hi <= |b| && FreeAt(b, x, hi - x)
    ensures Trail(b, lo, hi) >= hi - x
    decreases hi
  {
    if x == hi {
    } else {
      TrailCovers(b, lo, hi - 1, x);
    }
  }

  lemma FitIsVisible(b: Bits, size: nat, c: nat, n: nat)
    requires |b| == 64 * ((size + 63) / 64) && n >= 1 && 64 * c + 64 <= |b| && ChunkFit(b, size, c, n).Some?
    ensures Visible(b, size, ChunkFit(b, size, c, n).value, n)
  {
    hide Used, Trail;
    var x, hi := ChunkFit(b, size, c, n).value, 64 * c + 64;
    ChunkFitIsClear(b, size, c, n);
    if x + n > hi { assert !InOneChunk(x, n); }
  }

  /** The free bits of an extent are counted. */
  lemma ClearIsCounted(b: Bits, x: nat, n: nat)
    requires FreeAt(b, x, n)
    ensures n <= |b| - Used(b, 0, |b|)
  {
    UsedSplit(b, 0, x + n, |b|);
    UsedClear(b, 0, x, n);
  }

  lemma VisibleIsFound(s: State, n: nat, x: nat)
    requires Valid(s) && n <= s.size - s.used && Visible(s.bits, s.size, x, n)
    ensures AllocAt(s, n).Some?
  {
    hide AllocAt, ChunkFit, Used;
    VisibleFits(s.bits, s.size, x, n);
    AllocTriesEveryChunk(s, n, x / 64);
  }

  lemma FoundIsVisible(s: State, n: nat)
    requires Valid(s) && n >= 1 && AllocAt(s, n).Some?
    ensures Visible(s.bits, s.size, AllocAt(s, n).value, n)
  {
    hide AllocAt, ChunkFit, Visible, Used;
    var c := AllocChunk(s, n);
    FitIsVisible(s.bits, s.size, c, n);
  }

  /** An allocation succeeds exactly when it asks for no more than the cached count leaves and a visible free
      extent exists, wherever the search starts. */
  lemma AllocSucceedsIffVisible(s: State, n: nat)
    requires Valid(s) && n >= 1
    ensures AllocAt(s, n).Some? <==> n <= s.size - s.used && exists x: nat :: Visible(s.bits, s.size, x, n)
  {
    hide Visible, ScanFit, Used;
    if AllocAt(s, n).Some? { FoundIsVisible(s, n); }
    forall x: nat | n <= s.size - s.used && Visible(s.bits, s.size, x, n) ensures AllocAt(s, n).Some? {
      VisibleIsFound(s, n, x);
    }
  }

  ghost predicate HasRun(b: Bits, size: nat, n: nat) {
    exists x: nat :: FreeExtent(b, size, x, n)
  }

  /** For one bit, and from 64 bits up, nothing is hidden: the request fails exactly when it asks for more
      than the cached count leaves or the bitmap holds no free extent of that length. */
  lemma AllocComplete(s: State, n: nat)
    requires Valid(s) && (n == 1 || n >= 64)
    ensures AllocAt(s, n).Some? <==> n <= s.size - s.used && HasRun(s.bits, s.size, n)
  {
    hide AllocAt, Used;
    AllocSucceedsIffVisible(s, n);
    if HasRun(s.bits, s.size, n) {
      var x: nat :| FreeExtent(s.bits, s.size, x, n);
      RunMakesVisible(s.bits, s.size, x, n);
    }
  }

  /** In a bitmap of whole chunks, where the count is that of the free bits, any free extent will do. */
  lemma AllocCompleteWhole(s: State, n: nat)
    requires Valid(s) && s.size % 64 == 0 && (n == 1 || n >= 64)
    ensures AllocAt(s, n).Some? <==> exists x: nat :: FreeAt(s.bits, x, n)
  {
    hide AllocAt, Used;
    AllocComplete(s, n);
    forall x: nat | FreeAt(s.bits, x, n) ensures n <= s.size - s.used && HasRun(s.bits, s.size, n) {
      ClearIsCounted(s.bits, x, n);
      assert FreeExtent(s.bits, s.size, x, n);
    }
  }

  lemma RunMakesVisible(b: Bits, size: nat, x: nat, n: nat)
    requires |b| == 64 * ((size + 63) / 64) && (n == 1 || n >= 64) && FreeExtent(b, size, x, n)
    ensures exists y: nat :: Visible(b, size, y, n)
  {
    var lo := 64 * (x / 64);
    if n == 64 && !InOneChunk(x, n) && Used(b, lo, lo + 64) == 0 {
      UsedZero(b, lo, lo + 64);
      assert Visible(b, size, lo, n);
    } else {
      assert Visible(b, size, x, n);
    }
  }

  lemma {:induction false} UsedZero(b: Bits, lo: nat, hi: nat)
    requires lo <= hi <= |b| && Used(b, lo, hi) == 0
    ensures FreeAt(b, lo, hi - lo)
    decreases hi
  {
    if lo == hi {
    } else {
      UsedZero(b, lo, hi - 1);
    }
  }

  // ---- Which extent is taken ----

  /** How far chunk `c` is from chunk `start`, going round. */
  function Round(chunks: nat, start: nat, c: nat): nat
    requires start <= chunks
  {
    if c >= start then c - start else c + chunks - start
  }

  /** The visible extent that comes first: in the nearest chunk going round from `start`, and there at the
      lowest bit. */
  ghost predicate Nearest(b: Bits, size: nat, start: nat, x: nat, n: nat)
    requires |b| % 64 == 0 && start <= |b| / 64
  {
    && Visible(b, size, x, n)
    && forall y: nat :: Visible(b, size, y, n) ==>
         var k := |b| / 64;
         Round(k, start, x / 64) < Round(k, start, y / 64) || (x / 64 == y / 64 && x <= y)
  }

  /** Inside a chunk the lowest visible start is taken. */
  lemma ChunkFitLowest(b: Bits, size: nat, c: nat, n: nat, y: nat)
    requires |b| == 64 * ((size + 63) / 64) && n >= 1 && 64 * c + 64 <= |b| && ChunkFit(b, size, c, n).Some?
    requires Visible(b, size, y, n) && y / 64 == c
    ensures ChunkFit(b, size, c, n).value <= y
  {
    hide Used, Trail;
    var lo, hi := 64 * c, 64 * c + 64;
    var top := if size < hi then size else hi;
    if y + n > hi {
      TrailCovers(b, lo, hi, y);
    } else {
      FreeInside(b, lo, y, n, top);
      FirstFitLowest(b, lo, top, n, y);
    }
  }

  /** A scan of chunks finds nothing before the chunk of the extent it returns. */
  lemma ScanFitNearest(b: Bits, size: nat, n: nat, first: nat, last: nat, y: nat)
    requires first <= last && 64 * last <= |b| == 64 * ((size + 63) / 64) && n >= 1
    requires Visible(b, size, y, n) && first <= y / 64 < last
    ensures var r := ScanFit(b, size, n, first, last);
      r.Some? && first <= r.value / 64 <= y / 64 && (r.value / 64 == y / 64 ==> r.value <= y)
  {
    hide ChunkFit, Visible;
    ScanFitFound(b, size, n, first, last);
    VisibleFits(b, size, y, n);
    var r := ScanFit(b, size, n, first, last);
    var c :| first <= c < last && ChunkFit(b, size, c, n) == r
      && forall d :: first <= d < c ==> ChunkFit(b, size, d, n).None?;
    ChunkFitIsClear(b, size, c, n);
    if c == y / 64 { ChunkFitLowest(b, size, c, n, y); }
  }

  /** An allocation takes the visible extent that comes first from the chunk where the search starts. */
  lemma AllocIsNearest(s: State, n: nat, x: nat)
    requires Valid(s) && n >= 1 && n <= s.size - s.used
    ensures AllocAt(s, n) == Some(x) <==> Nearest(s.bits, s.size, s.freeP, x, n)
  {
    hide Visible, ScanFit, Used;
    AllocSucceedsIffVisible(s, n);
    if AllocAt(s, n) == Some(x) {
      TakenIsNearest(s, n);
    } else if Nearest(s.bits, s.size, s.freeP, x, n) {
      TakenIsNearest(s, n);
    }
  }

  lemma TakenIsNearest(s: State, n: nat)
    requires Valid(s) && n >= 1 && AllocAt(s, n).Some?
    ensures Nearest(s.bits, s.size, s.freeP, AllocAt(s, n).value, n)
  {
    hide Visible, Used;
    var x := AllocAt(s, n).value;
    FoundIsVisible(s, n);
    forall y: nat | Visible(s.bits, s.size, y, n)
      ensures var k := |s.bits| / 64;
        Round(k, s.freeP, x / 64) < Round(k, s.freeP, y / 64) || (x / 64 == y / 64 && x <= y)
    {
      TakenBefore(s, n, y);
    }
  }

  lemma TakenBefore(s: State, n: nat, y: nat)
    requires Valid(s) && n >= 1 && AllocAt(s, n).Some? && Visible(s.bits, s.size, y, n)
    ensures var x, k := AllocAt(s, n).value, |s.bits| / 64;
      Round(k, s.freeP, x / 64) < Round(k, s.freeP, y / 64) || (x / 64 == y / 64 && x <= y)
  {
    hide Visible, ScanFit, Used, Round, AllocAt;
    var x, k, p := AllocAt(s, n).value, |s.bits| / 64, StartChunk(s);
    AllocAtIsClear(s, n);
    VisibleFits(s.bits, s.size, y, n);
    RoundOrder(k, s.freeP, p, x / 64, y / 64);
    if p <= y / 64 { TakenUp(s, n, y); } else { TakenRound(s, n, y); }
  }

  /** A visible extent in or above the chunk where the search starts. */
  lemma TakenUp(s: State, n: nat, y: nat)
    requires Valid(s) && n >= 1 && AllocAt(s, n).Some? && Visible(s.bits, s.size, y, n) && StartChunk(s) <= y / 64
    ensures var x := AllocAt(s, n).value;
      StartChunk(s) <= x / 64 <= y / 64 && (x / 64 == y / 64 ==> x <= y)
  {
    hide Visible, ScanFit, ChunkFit, Used;
    VisibleFits(s.bits, s.size, y, n);
    ScanFitNearest(s.bits, s.size, n, StartChunk(s), |s.bits| / 64, y);
  }

  /** One below it: what is found above goes first. */
  lemma TakenRound(s: State, n: nat, y: nat)
    requires Valid(s) && n >= 1 && AllocAt(s, n).Some? && Visible(s.bits, s.size, y, n) && y / 64 < StartChunk(s)
    ensures var x := AllocAt(s, n).value;
      StartChunk(s) <= x / 64 || (x / 64 <= y / 64 && (x / 64 == y / 64 ==> x <= y))
  {
    hide Visible, ScanFit, ChunkFit, Used;
    FoundBetween(s.bits, s.size, n, StartChunk(s), |s.bits| / 64);
    ScanFitNearest(s.bits, s.size, n, 0, StartChunk(s), y);
  }

  /** Going round from `p`: upwards first, then from 0. */
  lemma RoundOrder(chunks: nat, freeP: nat, p: nat, c: nat, d: nat)
    requires freeP <= chunks && p == (if freeP == chunks then 0 else freeP) && c < chunks && d < chunks
    ensures Round(chunks, freeP, c) < Round(chunks, freeP, d)
      <==> (if p <= d then p <= c < d else c >= p || c < d)
  {
  }

  lemma FoundBetween(b: Bits, size: nat, n: nat, first: nat, last: nat)
    requires first <= last && 64 * last <= |b| == 64 * ((size + 63) / 64)
    ensures var r := ScanFit(b, size, n, first, last);
      r.Some? ==> first <= r.value / 64 < last
  {
    hide ChunkFit;
    ScanFitFound(b, size, n, first, last);
    var r := ScanFit(b, size, n, first, last);
    if r.Some? {
      var c :| first <= c < last && ChunkFit(b, size, c, n) == r;
      ChunkFitIsClear(b, size, c, n);
    }
  }
}
