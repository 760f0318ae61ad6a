/** The chunked bitmap of src/utils/bitmap.c.

    Every method is proved against the flat specification of `BitmapSpec`. The spin lock around the
    public calls makes each of them one step. */
module Bitmap {
  import BitOps
  import opened BitmapSpec
  import opened BitmapWords
  import opened Options

  class Allocator {
    const chunks: array<Word>
    const sizeBits: nat
    var usedBits: nat
    var freeP: nat

    ghost function Bits(): (b: Bits)
      reads chunks
    {
      Flat(chunks[..])
    }

    ghost function View(): State
      reads this, chunks
    {
      State(Bits(), sizeBits, usedBits, freeP)
    }

    constructor (size: nat)
      ensures Valid(View()) && fresh(chunks)
      ensures sizeBits == size && usedBits == 0 && freeP == 0
      ensures FreeAt(Bits(), 0, |Bits()|)
    {
      hide Flat;
      sizeBits := size;
      usedBits, freeP := 0, 0;
      chunks := new Word[(size + 63) / 64](_ => 0);
      new;
      AllZero(chunks[..]);
      UsedClear(Bits(), 0, 0, |Bits()|);
    }

    /** Takes the first `n` bits of a chunk if they are free. */
    method FindEndSmall(n: nat, chunk: nat) returns (ok: bool)
      requires n <= 64 && chunk < chunks.Length
      modifies chunks
      ensures ok <==> old(FreeAt(Bits(), 64 * chunk, n))
      ensures Bits() == if ok then Fill(old(Bits()), 64 * chunk, n, true) else old(Bits())
      ensures forall c :: 0 <= c < chunks.Length && c != chunk ==> chunks[c] == old(chunks[c])
    {
      ghost var cs := chunks[..];
      var mask := LowMask(n);
      MaskIsFree(cs, chunk, mask, 0, n);
      if AndWord(mask, chunks[chunk]) == 0 {
        OrFills(cs, chunk, mask, 0, n);
        chunks[chunk] := OrWord(chunks[chunk], mask);
        assert chunks[..] == cs[chunk := OrWord(cs[chunk], mask)];
        return true;
      } else {
        return false;
      }
    }

    /** The chunk, with the bits past the end of the bitmap marked as taken. */
    function Usable(chunk: nat): (w: Word)
      requires chunk < chunks.Length
      reads chunks
    {
      var shift := sizeBits % 64;
      if chunk + 1 == chunks.Length && shift != 0 then OrWord(chunks[chunk], HighMask(shift))
      else chunks[chunk]
    }

    /** Looks for `n <= 64` bits that start in `chunk`, and takes them. */
    method FindStartSmall(n: nat, chunk: nat) returns (r: Option<nat>)
      requires Valid(View()) && n <= 64 && chunk < chunks.Length
      modifies this`usedBits, chunks
      ensures r == ChunkFit(old(Bits()), sizeBits, chunk, n)
      ensures r.None? ==> Bits() == old(Bits()) && usedBits == old(usedBits)
      ensures r.Some? ==> r.value + n <= |old(Bits())| && usedBits == old(usedBits) + n
      ensures r.Some? ==> Bits() == Fill(old(Bits()), r.value, n, true)
    {
      ghost var cs, b := chunks[..], Bits();
      var usable := Usable(chunk);
      UsableFacts(cs, chunk, sizeBits, usable);
      if usable == 0 {
        EmptyChunkFits(b, sizeBits, chunk, n);
        chunks[chunk] := if n == 64 then Ones() else LowMask(n);
        usedBits := usedBits + n;
        StoreFills(cs, chunk, chunks[chunk], n);
        assert chunks[..] == cs[chunk := chunks[chunk]];
        return Some(64 * chunk);
      }
      OnesIsTaken(cs, chunk);
      if chunks[chunk] == Ones() {
        return None;
      }
      var freeBits := 64 - PopCount(usable);
      if freeBits >= n {
        r := TakeGap(n, chunk, usable);
      } else {
        r := TakeAcross(n, chunk);
      }
    }

    /** The lowest gap of `n` bits inside one chunk. */
    method TakeGap(n: nat, chunk: nat, usable: Word) returns (r: Option<nat>)
      requires Valid(View()) && chunk < chunks.Length && usable == Usable(chunk)
      requires n < 64
      modifies this`usedBits, chunks
      ensures r == FirstFit(old(Bits()), 64 * chunk, Top(sizeBits, chunk), n)
      ensures r.None? ==> Bits() == old(Bits()) && usedBits == old(usedBits)
      ensures r.Some? ==> Bits() == Fill(old(Bits()), r.value, n, true) && usedBits == old(usedBits) + n
    {
      hide BitOps.Pow2, Mask, Flat, Fill, Used, LowMask, Shl, FirstFit;
      ghost var cs, b, lo, top := chunks[..], Bits(), 64 * chunk, Top(sizeBits, chunk);
      var mask := LowMask(n);
      var shift := 0;
      while shift <= 64 - n
        invariant 0 <= shift <= 65 - n
        invariant n == 0 ==> shift == 0
        invariant shift + n <= 64 ==> Mask(mask, shift, shift + n)
        invariant FirstFit(b, lo, top, n) == FirstFit(b, lo + shift, top, n)
        invariant chunks[..] == cs && usedBits == old(usedBits)
      {
        UsableGap(cs, chunk, sizeBits, usable, mask, shift, n);
        FirstFitNext(b, lo + shift, top, n);
        if AndWord(mask, usable) == 0 {
          OrFills(cs, chunk, mask, shift, shift + n);
          chunks[chunk] := OrWord(chunks[chunk], mask);
          usedBits := usedBits + n;
          assert chunks[..] == cs[chunk := OrWord(cs[chunk], mask)];
          return Some(64 * chunk + shift);
        }
        ShlMask(mask, shift, shift + n, 1);
        mask := Shl(mask, 1);
        shift := shift + 1;
      }
      FirstFitNext(b, lo + shift, top, n);
      return None;
    }

    /** The clear end of `chunk` together with the beginning of the next one. */
    method TakeAcross(n: nat, chunk: nat) returns (r: Option<nat>)
      requires n <= 64 && chunk < chunks.Length
      requires chunk + 1 < chunks.Length ==> 64 - Used(Bits(), 64 * chunk, 64 * chunk + 64) < n
      modifies this`usedBits, chunks
      ensures r == CrossFit(old(Bits()), chunk, n)
      ensures r.None? ==> Bits() == old(Bits()) && usedBits == old(usedBits)
      ensures r.Some? ==> Bits() == Fill(old(Bits()), r.value, n, true) && usedBits == old(usedBits) + n
    {
      hide BitOps.Pow2, Mask, Flat, Fill, FreeAt, Trail, Used, HighMask;
      ghost var cs, b := chunks[..], Bits();
      var freeEnd := if chunks[chunk] != 0 then LeadingZeros(chunks[chunk], 64) else 64;
      FreeEndIsTrail(cs, chunk, freeEnd);
      if freeEnd == 0 {
        return None;
      }
      if chunk + 1 == chunks.Length {
        return None;
      }
      TrailIsFree(b, 64 * chunk, 64 * chunk + 64);
      var remainder := n - freeEnd;
      CrossFitNext(b, chunk, n);
      var ok := FindEndSmall(remainder, chunk + 1);
      if ok {
        r := Some(64 * chunk + (64 - freeEnd));
        OrChunk(chunk, HighMask(64 - freeEnd), 64 - freeEnd, 64);
        usedBits := usedBits + n;
        FillFill(b, 64 * chunk + 64 - freeEnd, freeEnd, remainder, true);
      } else {
        r := None;
      }
    }

    method OrChunk(chunk: nat, mask: Word, ghost lo: nat, ghost hi: nat)
      requires chunk < chunks.Length && lo <= hi && Mask(mask, lo, hi)
      modifies chunks
      ensures Bits() == Fill(old(Bits()), 64 * chunk + lo, hi - lo, true)
    {
      ghost var cs := chunks[..];
      OrFills(cs, chunk, mask, lo, hi);
      chunks[chunk] := OrWord(chunks[chunk], mask);
      assert chunks[..] == cs[chunk := OrWord(cs[chunk], mask)];
    }

    method ClearChunk(chunk: nat, mask: Word, ghost lo: nat, ghost hi: nat)
      requires chunk < chunks.Length && lo <= hi && Mask(mask, lo, hi)
      modifies chunks
      ensures Bits() == Fill(old(Bits()), 64 * chunk + lo, hi - lo, false)
    {
      ghost var cs := chunks[..];
      AndNotFills(cs, chunk, mask, lo, hi);
      chunks[chunk] := AndWord(chunks[chunk], Not(mask));
      assert chunks[..] == cs[chunk := AndWord(cs[chunk], Not(mask))];
    }

    /** `memset` of `span` whole chunks. */
    method SetChunks(first: nat, span: nat, w: Word, ghost v: bool)
      requires first + span <= chunks.Length && w == if v then Ones() else 0
      modifies chunks
      ensures Bits() == Fill(old(Bits()), 64 * first, 64 * span, v)
    {
      ghost var b := Bits();
      for i := 0 to span
        invariant Bits() == Fill(b, 64 * first, 64 * i, v)
      {
        ghost var cs := chunks[..];
        WholeChunk(cs, first + i, w, v);
        chunks[first + i] := w;
        assert chunks[..] == cs[first + i := w];
        FillFill(b, 64 * first, 64 * i, 64, v);
      }
    }

    /** Looks for more than 64 bits that start in `chunk`, and takes them. */
    method FindStartBig(n: nat, chunk: nat) returns (r: Option<nat>)
      requires n > 64 && chunk < chunks.Length
      modifies this`usedBits, chunks
      ensures r == CrossFit(old(Bits()), chunk, n)
      ensures r.None? ==> Bits() == old(Bits()) && usedBits == old(usedBits)
      ensures r.Some? ==> Bits() == Fill(old(Bits()), r.value, n, true) && usedBits == old(usedBits) + n
    {
      hide BitOps.Pow2, Mask, Flat, Fill, FreeAt;
      ghost var cs, b := chunks[..], Bits();
      var freeEnd := if chunks[chunk] == 0 then 64 else LeadingZeros(chunks[chunk], 64);
      FreeEndIsTrail(cs, chunk, freeEnd);
      OnesIsTaken(cs, chunk);
      if chunks[chunk] == Ones() {
        assert b[64 * chunk + 63];
        return None;
      }
      var firstMask := if chunks[chunk] == 0 then Ones() else if freeEnd != 0 then HighMask(64 - freeEnd) else 0;
      if freeEnd == 0 {
        return None;
      }
      if chunk + 1 == chunks.Length {
        return None;
      }
      var remainder := n - freeEnd;
      CrossFitNext(b, chunk, n);
      var ok;
      if remainder < 65 {
        ok := FindEndSmall(remainder, chunk + 1);
      } else {
        ok := TakeSpan(remainder, chunk + 1);
      }
      if !ok {
        return None;
      }
      FreeInRange(b, 64 * chunk + 64, remainder);
      r := Some(64 * chunk + (64 - freeEnd));
      OrChunk(chunk, firstMask, 64 - freeEnd, 64);
      usedBits := usedBits + n;
      FillFill(b, 64 * chunk + 64 - freeEnd, freeEnd, remainder, true);
    }

    /** Takes `n >= 65` bits from the start of chunk `first`: whole chunks, then a partial one. */
    method TakeSpan(n: nat, first: nat) returns (ok: bool)
      requires n >= 65 && first < chunks.Length
      modifies chunks
      ensures ok <==> old(FreeAt(Bits(), 64 * first, n))
      ensures Bits() == if ok then Fill(old(Bits()), 64 * first, n, true) else old(Bits())
    {
      hide BitOps.Pow2, Mask, Flat, Fill;
      ghost var b := Bits();
      var span, lastRemainder := n / 64, n % 64;
      if first - 1 + span + (if lastRemainder != 0 then 1 else 0) >= chunks.Length {
        return false;
      }
      var c := 0;
      while c < span
        invariant c <= span
        invariant FreeAt(b, 64 * first, 64 * c)
        invariant chunks[..] == old(chunks[..])
      {
        ZeroIsFree(chunks[..], first + c);
        FreeJoin(b, 64 * first, 64 * c, 64);
        if chunks[first + c] != 0 {
          NotFreeLonger(b, 64 * first, 64 * c + 64, n);
          return false;
        }
        c := c + 1;
      }
      FreeJoin(b, 64 * first, 64 * span, lastRemainder);
      if lastRemainder != 0 {
        var lastMask := LowMask(lastRemainder);
        MaskIsFree(chunks[..], first + span, lastMask, 0, lastRemainder);
        AndWordComm(chunks[first + span], lastMask);
        if AndWord(chunks[first + span], lastMask) != 0 {
          return false;
        }
        OrChunk(first + span, lastMask, 0, lastRemainder);
      }
      SetChunks(first, span, Ones(), true);
      FillFill(b, 64 * first, 64 * span, lastRemainder, true);
      return true;
    }

    method FindStart(n: nat, chunk: nat) returns (r: Option<nat>)
      requires Valid(View()) && chunk < chunks.Length
      modifies this`usedBits, chunks
      ensures r == ChunkFit(old(Bits()), sizeBits, chunk, n)
      ensures r.None? ==> Bits() == old(Bits()) && usedBits == old(usedBits)
      ensures r.Some? ==> r.value + n <= |old(Bits())| && usedBits == old(usedBits) + n
      ensures r.Some? ==> Bits() == Fill(old(Bits()), r.value, n, true)
    {
      if n < 65 {
        r := FindStartSmall(n, chunk);
      } else {
        r := FindStartBig(n, chunk);
      }
    }

    /** Allocates `n` contiguous bits: the state becomes the one the specification names. */
    method AllocBits(n: nat) returns (r: Option<nat>)
      requires Valid(View())
      modifies this, chunks
      ensures r == AllocAt(old(View()), n)
      ensures View() == Alloc(old(View()), n)
    {
      hide ScanFit, Flat, Used;
      ghost var s := View();
      if freeP == chunks.Length {
        freeP := 0;
      }
      if sizeBits - usedBits < n {
        return None;
      }
      r := Scan(n, freeP, chunks.Length);
      if r.None? {
        r := Scan(n, 0, freeP);
      }
      if r.Some? {
        freeP := r.value / 64;
      }
    }

    /** One of the two passes of the search. */
    method Scan(n: nat, first: nat, last: nat) returns (r: Option<nat>)
      requires Valid(View()) && first <= last <= chunks.Length
      modifies this`usedBits, chunks
      ensures r == ScanFit(old(Bits()), sizeBits, n, first, last)
      ensures r.None? ==> Bits() == old(Bits()) && usedBits == old(usedBits)
      ensures r.Some? ==> r.value + n <= |old(Bits())| && usedBits == old(usedBits) + n
      ensures r.Some? ==> Bits() == Fill(old(Bits()), r.value, n, true)
    {
      hide ChunkFit, Fill, Flat, Used;
      var chunk := first;
      while chunk < last
        invariant first <= chunk <= last
        invariant Bits() == old(Bits()) && usedBits == old(usedBits)
        invariant ScanFit(old(Bits()), sizeBits, n, first, last) == ScanFit(old(Bits()), sizeBits, n, chunk, last)
      {
        r := FindStart(n, chunk);
        if r.Some? {
          return;
        }
        chunk := chunk + 1;
      }
      return None;
    }

    /** Gives back `n` allocated bits. */
    method FreeBits(start: nat, n: nat)
      requires Valid(View()) && CanFree(View(), start, n)
      modifies this`usedBits, chunks
      ensures View() == Free(old(View()), start, n)
    {
      hide Flat, Fill, Used;
      FreeKeepsValid(View(), start, n);
      if n == 1 {
        OneBit(start % 64);
        ClearChunk(start / 64, Shl(1, start % 64), start % 64, start % 64 + 1);
      } else if start / 64 == (start + n - 1) / 64 {
        ClearWithin(start, n);
      } else {
        ClearAcross(start, n);
      }
      usedBits := usedBits - n;
    }

    /** Clears bits of a single chunk. */
    method ClearWithin(start: nat, n: nat)
      requires 1 <= n && start + n <= |Bits()| && start / 64 == (start + n - 1) / 64
      modifies chunks
      ensures Bits() == Fill(old(Bits()), start, n, false)
    {
      hide BitOps.Pow2, Mask, Flat, Fill;
      var lo := start % 64;
      SegmentMask(n, lo);
      var mask := if n != 64 then Shl(LowMask(n), lo) else Ones();
      ClearChunk(start / 64, mask, lo, lo + n);
    }

    /** Clears the end of one chunk, whole chunks, and the beginning of another. */
    method ClearAcross(start: nat, n: nat)
      requires 1 <= n && start + n <= |Bits()| && start / 64 < (start + n - 1) / 64
      modifies chunks
      ensures Bits() == Fill(old(Bits()), start, n, false)
    {
      hide BitOps.Pow2, Mask, Flat, Fill;
      ghost var b := Bits();
      var startChunk, endChunk := start / 64, (start + n - 1) / 64;
      var lo, hi := start % 64, (start + n) % 64;
      var span := endChunk - startChunk - 1;
      var endMask := if hi != 0 then LowMaskByShr(hi) else Ones();
      ghost var tail := if hi != 0 then hi else 64;
      ClearChunk(startChunk, HighMask(lo), lo, 64);
      ClearChunk(endChunk, endMask, 0, tail);
      FillThree(b, start, 64 - lo, 64 * span, tail);
      if span != 0 {
        SetChunks(startChunk + 1, span, 0, false);
      }
    }

    /** The slow count that the tests compare with `usedBits`. */
    method CountAllocated() returns (total: nat)
      requires Valid(View())
      ensures total == Used(Bits(), 0, |Bits()|) == usedBits
    {
      hide Flat;
      total := 0;
      for c := 0 to (sizeBits + 63) / 64
        invariant total == Used(Bits(), 0, 64 * c)
      {
        PopCountIsUsed(chunks[..], c);
        UsedSplit(Bits(), 0, 64 * c, 64 * c + 64);
        if chunks[c] != 0 {
          total := total + PopCount(chunks[c]);
        }
      }
    }
  }

  // ---- What the chunk tests mean on the flat bits ----

  ghost function Top(size: nat, chunk: nat): nat {
    if size < 64 * chunk + 64 then size else 64 * chunk + 64
  }

  lemma AllZero(cs: seq<Word>)
    requires forall c :: 0 <= c < |cs| ==> cs[c] == 0
    ensures FreeAt(Flat(cs), 0, |Flat(cs)|)
  {
    forall j | 0 <= j < |Flat(cs)| ensures !Flat(cs)[j] {
      ZeroIsFree(cs, j / 64);
    }
  }

  ghost predicate IsUsable(cs: seq<Word>, c: nat, size: nat, u: Word) {
    && |cs| == (size + 63) / 64 && c < |cs|
    && u == if c + 1 == |cs| && size % 64 != 0 then OrWord(cs[c], HighMask(size % 64)) else cs[c]
  }

  lemma UsableBits(cs: seq<Word>, c: nat, size: nat, u: Word)
    requires IsUsable(cs, c, size, u)
    ensures Top(size, c) <= 64 * c + 64
    ensures Flat(cs[c := u]) == Fill(Flat(cs), Top(size, c), 64 * c + 64 - Top(size, c), true)
  {
    hide Flat, Fill, BitOps.Pow2, Mask, OrWord, HighMask;
    TopOf(size, c, |cs|);
    if c + 1 == |cs| && size % 64 != 0 {
      TailMask(size % 64);
      OrFills(cs, c, HighMask(size % 64), size % 64, 64);
    } else {
      assert cs[c := u] == cs;
      FillNone(Flat(cs), Top(size, c));
    }
  }

  /** Where the bits of a chunk end: early in a partial last chunk, at its width in any other. */
  lemma TopOf(size: nat, c: nat, count: nat)
    requires count == (size + 63) / 64 && c < count
    ensures Top(size, c) == 64 * c + if c + 1 == count && size % 64 != 0 then size % 64 else 64
  {
  }

  lemma TailMask(k: nat)
    requires k < 64
    ensures Mask(HighMask(k), k, 64)
  {
    hide Mask;
    var _ := HighMask(k);
  }

  lemma FillNone(b: Bits, x: nat)
    requires x <= |b|
    ensures Fill(b, x, 0, true) == b
  {
  }

  /** A usable chunk is zero only when it is whole and free; otherwise its population count leaves the
      free bits below the end of the bitmap. */
  lemma UsableFacts(cs: seq<Word>, c: nat, size: nat, u: Word)
    requires IsUsable(cs, c, size, u)
    ensures u == 0 ==> Top(size, c) == 64 * c + 64 && FreeAt(Flat(cs), 64 * c, 64)
    ensures u != 0 ==> PopCount(u) > 0
    ensures 64 - PopCount(u) == Top(size, c) - 64 * c - Used(Flat(cs), 64 * c, Top(size, c))
  {
    hide Flat, PopCount;
    UsableBits(cs, c, size, u);
    ZeroIsFree(cs[c := u], c);
    PopCountIsUsed(cs[c := u], c);
    MarkedTail(Flat(cs), 64 * c, Top(size, c), 64 * c + 64);
  }

  /** Marking `top..hi` as taken. */
  lemma MarkedTail(b: Bits, lo: nat, top: nat, hi: nat)
    requires lo <= top <= hi <= |b|
    ensures var m := Fill(b, top, hi - top, true);
      && Used(m, lo, hi) == Used(b, lo, top) + hi - top
      && (FreeAt(m, lo, hi - lo) ==> top == hi && FreeAt(b, lo, hi - lo))
      && (Used(m, lo, hi) == 0 ==> FreeAt(m, lo, hi - lo))
  {
    var m := Fill(b, top, hi - top, true);
    UsedFull(m, lo, top, hi - top);
    UsedSame(b, m, lo, top);
    if top < hi { TakenIsNotFree(m, lo, hi - lo, top); }
    if Used(m, lo, hi) == 0 { UsedZero(m, lo, hi); }
  }

  lemma TakenIsNotFree(b: Bits, x: nat, n: nat, i: nat)
    requires x <= i < x + n <= |b| && b[i]
    ensures !FreeAt(b, x, n)
  {
  }

  lemma EmptyChunkFits(b: Bits, size: nat, c: nat, n: nat)
    requires 64 * c + 64 <= |b| < size + 64 && n <= 64
    requires Top(size, c) == 64 * c + 64 && FreeAt(b, 64 * c, 64)
    ensures ChunkFit(b, size, c, n) == Some(64 * c)
  {
    UsedClear(b, 64 * c, 64 * c, 64);
    assert !b[64 * c];
    assert FreeAt(b, 64 * c, n);
  }

  /** One round of the gap search. */
  lemma UsableGap(cs: seq<Word>, c: nat, size: nat, u: Word, mask: Word, shift: nat, n: nat)
    requires IsUsable(cs, c, size, u) && shift + n <= 64 && Mask(mask, shift, shift + n)
    requires shift == 0 || n > 0
    ensures var x := 64 * c + shift;
      AndWord(mask, u) == 0 <==> x + n <= Top(size, c) && FreeAt(Flat(cs), x, n)
  {
    var us, x, top := cs[c := u], 64 * c + shift, Top(size, c);
    UsableBits(cs, c, size, u);
    MaskIsFree(us, c, mask, shift, shift + n);
    GapBelowMark(Flat(cs), top, 64 * c + 64, x, n);
  }

  lemma GapBelowMark(b: Bits, top: nat, hi: nat, x: nat, n: nat)
    requires top <= hi <= |b| && x + n <= hi && (n > 0 || x <= top)
    ensures FreeAt(Fill(b, top, hi - top, true), x, n) <==> x + n <= top && FreeAt(b, x, n)
  {
    var m := Fill(b, top, hi - top, true);
    if x + n > top {
      TakenIsNotFree(m, x, n, if x < top then top else x);
    } else {
      assert forall i :: x <= i < x + n ==> m[i] == b[i];
    }
  }

  lemma FirstFitNext(b: Bits, lo: nat, hi: nat, n: nat)
    requires hi <= |b|
    ensures lo + n > hi ==> FirstFit(b, lo, hi, n) == None
    ensures FirstFit(b, lo, hi, n) == if lo + n <= hi && FreeAt(b, lo, n) then Some(lo) else FirstFit(b, lo + 1, hi, n)
  {
  }

  lemma FreeEndIsTrail(cs: seq<Word>, c: nat, f: nat)
    requires c < |cs| && f == if cs[c] != 0 then LeadingZeros(cs[c], 64) else 64
    ensures f == Trail(Flat(cs), 64 * c, 64 * c + 64)
  {
    LeadingZerosIsTrail(cs, c, 64);
    ZeroIsFree(cs, c);
    if cs[c] == 0 { TrailCovers(Flat(cs), 64 * c, 64 * c + 64, 64 * c); }
  }

  lemma TrailIsFree(b: Bits, lo: nat, hi: nat)
    requires lo <= hi <= |b|
    ensures Trail(b, lo, hi) <= hi - lo - Used(b, lo, hi)
  {
    var f := Trail(b, lo, hi);
    UsedClear(b, lo, hi - f, f);
  }

  lemma CrossFitNext(b: Bits, c: nat, n: nat)
    requires 64 * c + 64 < |b|
    requires 0 < Trail(b, 64 * c, 64 * c + 64) <= n
    ensures var hi, f := 64 * c + 64, Trail(b, 64 * c, 64 * c + 64);
      CrossFit(b, c, n) == if FreeAt(b, hi, n - f) then Some(hi - f) else None
  {
    var hi, f := 64 * c + 64, Trail(b, 64 * c, 64 * c + 64);
    FreeJoin(b, hi - f, f, n - f);
  }

  lemma FreeJoin(b: Bits, x: nat, m: nat, n: nat)
    ensures FreeAt(b, x, m + n) <==> FreeAt(b, x, m) && FreeAt(b, x + m, n)
  {
  }

  lemma NotFreeLonger(b: Bits, x: nat, m: nat, n: nat)
    requires m <= n && !FreeAt(b, x, m)
    ensures !FreeAt(b, x, n)
  {
  }

  lemma AndWordComm(a: Word, b: Word)
    ensures AndWord(a, b) == AndWord(b, a)
  {
    BitOps.AndComm(a, b);
  }

  lemma WholeChunk(cs: seq<Word>, c: nat, w: Word, v: bool)
    requires c < |cs| && w == if v then Ones() else 0
    ensures Flat(cs[c := w]) == Fill(Flat(cs), 64 * c, 64, v)
  {
    forall i: nat | i < 64 ensures BitOps.TestBit(w, i) == v {
      if !v { BitOps.ZeroBit(i); }
    }
    UpdateFills(cs, c, w, 0, 64, v);
  }

  lemma OneBit(k: nat)
    requires k < 64
    ensures Mask(Shl(1, k), k, k + 1)
  {
    OnesMask(1);
    ShlMask(1, 0, 1, k);
  }

  lemma SegmentMask(n: nat, lo: nat)
    requires lo + n <= 64
    ensures Mask(Shl(LowMask(n), lo), lo, lo + n)
  {
    ShlMask(LowMask(n), 0, n, lo);
  }

  lemma FillThree(b: Bits, x: nat, m: nat, mid: nat, n: nat)
    requires x + m + mid + n <= |b|
    ensures Fill(Fill(Fill(b, x, m, false), x + m + mid, n, false), x + m, mid, false) == Fill(b, x, m + mid + n, false)
    ensures mid == 0 ==> Fill(Fill(b, x, m, false), x + m + mid, n, false) == Fill(b, x, m + mid + n, false)
  {
  }
}
