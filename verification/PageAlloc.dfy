/** The page allocator of src/alloc/dlmalloc/alloc.c: where it puts its bit array and its pages, and the
    regions it hands out. Addresses are natural numbers. */
module PageAlloc {
  import opened Bitmap
  import opened BitmapSpec
  import opened BitmapTrace
  import opened Options

  const PAGE: nat := 4096
  const BITS_PER_PAGE: nat := PAGE * 8

  function CeilDiv(x: nat, d: nat): nat
    requires d > 0
  {
    (x + d - 1) / d
  }

  function RoundUp(x: nat): nat {
    (x + PAGE - 1) / PAGE * PAGE
  }

  /** Room for the header and its padding. */
  predicate HoldsHeader(base: nat, header: nat, size: nat) {
    RoundUp(base + header) <= base + size
  }

  /** The first data page and the number of data pages of a segment of `size` bytes at `base`, whose
      allocator header takes `header` bytes. */
  function Layout(base: nat, header: nat, size: nat): (nat, nat)
    requires HoldsHeader(base, header, size)
  {
    var alignedStart := RoundUp(base + header);
    var alignedSize := size - (alignedStart - base);
    var alignedPages := alignedSize / PAGE;
    var bitmapPages := CeilDiv(alignedPages, BITS_PER_PAGE);
    (alignedStart + PAGE * bitmapPages, alignedPages - bitmapPages)
  }

  /** The bit array, which starts right after the header, ends before the first data page; data pages are
      page-aligned and end inside the segment; less than a page, beside the pages the bit array was
      given, is left over at the end. */
  lemma LayoutFits(base: nat, header: nat, size: nat)
    requires HoldsHeader(base, header, size)
    ensures var (start, pages) := Layout(base, header, size);
      && base + header + 8 * CeilDiv(pages, 64) <= start
      && start % PAGE == 0
      && start + PAGE * pages <= base + size < start + PAGE * pages + PAGE
  {
    var alignedStart := RoundUp(base + header);
    var alignedPages := (size - (alignedStart - base)) / PAGE;
    var bitmapPages := CeilDiv(alignedPages, BITS_PER_PAGE);
    assert base + header <= alignedStart;
    assert alignedPages <= BITS_PER_PAGE * bitmapPages;
  }

  /** The layout of the source, in terms of its outcome: `first` is the first page boundary after the header;
      the `k` pages before the data pages hold a bit for themselves and each data page, and `k` is the least
      such number; the data pages are all the other whole pages. */
  ghost predicate Laid(base: nat, header: nat, size: nat, start: nat, pages: nat, first: nat, k: nat) {
    && first % PAGE == 0 && base + header <= first < base + header + PAGE
    && start == first + PAGE * k
    && start + PAGE * pages <= base + size < start + PAGE * pages + PAGE
    && pages + k <= BITS_PER_PAGE * k && (k == 0 || BITS_PER_PAGE * (k - 1) < pages + k)
  }

  /** The layout is the only one like that. */
  lemma LayoutIff(base: nat, header: nat, size: nat, start: nat, pages: nat)
    requires HoldsHeader(base, header, size)
    ensures Layout(base, header, size) == (start, pages)
      <==> exists first, k :: Laid(base, header, size, start, pages, first, k)
  {
    var first, k := LayoutIsLaid(base, header, size);
    forall f, j | Laid(base, header, size, start, pages, f, j)
      ensures Layout(base, header, size) == (start, pages)
    {
      LaidOnce(base, header, size, start, pages, f, j, first, k);
    }
  }

  lemma LayoutIsLaid(base: nat, header: nat, size: nat) returns (first: nat, k: nat)
    requires HoldsHeader(base, header, size)
    ensures var (start, pages) := Layout(base, header, size);
      Laid(base, header, size, start, pages, first, k)
  {
    first := RoundUp(base + header);
    var alignedPages := (size - (first - base)) / PAGE;
    k := CeilDiv(alignedPages, BITS_PER_PAGE);
    assert k <= alignedPages;
  }

  lemma LaidOnce(
    base: nat, header: nat, size: nat, start: nat, pages: nat, f: nat, j: nat, first: nat, k: nat)
    requires HoldsHeader(base, header, size) && Laid(base, header, size, start, pages, f, j)
    requires var (s, p) := Layout(base, header, size); Laid(base, header, size, s, p, first, k)
    ensures Layout(base, header, size) == (start, pages)
  {
    var (s, p) := Layout(base, header, size);
    assert f == first;
    assert pages + j == p + k;
  }

  /** The bit array begins right after the header and can use the rest of that page, which the source does not
      count: this segment has room for its bits without a page of their own, and still gives one up. */
  lemma LayoutIsNotTight()
    ensures Layout(0, 64, 2097152) == (8192, 510)
    ensures 0 + 64 + 8 * CeilDiv(511, 64) <= 4096 && 4096 + PAGE * 511 == 2097152
  {
  }

  lemma RegionFacts(start: nat, page: nat, n: nat)
    requires start % PAGE == 0
    ensures (start + PAGE * page) % PAGE == 0
    ensures (start + PAGE * page - start) / PAGE == page
  {
  }

  /** What taking an extent means for the extents already held. */
  lemma TakeFacts(o: Owned, n: nat)
    requires Exact(o)
    ensures Valid(o.s) && Take(o, n).s == Alloc(o.s, n)
    ensures AllocAt(o.s, n).None? ==> Take(o, n).live == o.live && Alloc(o.s, n).bits == o.s.bits
    ensures AllocAt(o.s, n).Some? ==>
      var x := AllocAt(o.s, n).value;
      && (o.s.size % 64 == 0 || o.s.size < 64 ==> x + n <= o.s.size)
      && Take(o, n).live == (if n == 0 then o.live else o.live[x := n])
      && (n > 0 ==> forall y :: y in o.live ==> Apart(x, n, y, o.live[y]))
  {
    hide AllocAt, Used;
    if AllocAt(o.s, n).Some? {
      AllocAtIsClear(o.s, n);
      if n > 0 {
        forall y | y in o.live ensures Apart(AllocAt(o.s, n).value, n, y, o.live[y]) {
          FreeAndTakenApart(o.s.bits, AllocAt(o.s, n).value, n, y, o.live[y]);
        }
      }
    }
  }

  class Pages {
    const base: nat
    const size: nat
    const start: nat
    const bmp: Allocator
    /** The regions callers hold, as first page and number of pages. */
    ghost var live: map<nat, nat>

    ghost predicate Ok()
      reads this, bmp, bmp.chunks
    {
      && Exact(Owned(bmp.View(), live))
      && start % PAGE == 0 && base <= start
      && start + PAGE * bmp.sizeBits <= base + size
    }

    constructor (base: nat, header: nat, size: nat)
      requires HoldsHeader(base, header, size)
      ensures Ok() && live == map[] && fresh(bmp) && fresh(bmp.chunks)
      ensures this.base == base && this.size == size && (start, bmp.sizeBits) == Layout(base, header, size)
    {
      this.base, this.size := base, size;
      var (first, pages) := Layout(base, header, size);
      LayoutFits(base, header, size);
      start := first;
      bmp := new Allocator(pages);
      live := map[];
    }

    /** `arax_mmap`; none where the source asserts. A region is page-aligned, apart from every live
        region, and inside the segment when the page count fills whole chunks or less than one. */
    method Mmap(s: nat) returns (r: Option<nat>)
      requires Ok() && s % PAGE == 0
      modifies this`live, bmp, bmp.chunks
      ensures Ok()
      ensures r.None? <==> old(AllocAt(bmp.View(), s / PAGE)).None?
      ensures r.None? ==> live == old(live) && bmp.Bits() == old(bmp.Bits())
      ensures r.Some? ==> r.value % PAGE == 0 && start <= r.value
      ensures r.Some? && (bmp.sizeBits % 64 == 0 || bmp.sizeBits < 64) ==> r.value + s <= base + size
      ensures r.Some? && s > 0 ==> live == old(live)[(r.value - start) / PAGE := s / PAGE]
      ensures r.Some? && s > 0 ==>
        forall x :: x in old(live) ==> Apart(r.value, s, start + PAGE * x, PAGE * old(live)[x])
    {
      hide Exact, AllocAt, Used, Alloc, Take;
      var n := s / PAGE;
      ghost var o := Owned(bmp.View(), live);
      TakeFacts(o, n);
      var off := bmp.AllocBits(n);
      live := Take(o, n).live;
      assert Owned(bmp.View(), live) == Take(o, n);
      if off.None? {
        return None;
      }
      r := Some(start + PAGE * off.value);
      RegionFacts(start, off.value, n);
      forall x | x in o.live && s > 0 ensures Apart(r.value, s, start + PAGE * x, PAGE * o.live[x]) {
        assert Apart(off.value, n, x, o.live[x]);
      }
    }

    /** `arax_ummap` of a region that is held: the allocator is as if it had not been handed out. */
    method Ummap(a: nat, s: nat)
      requires Ok() && start <= a
      requires (a - start) / PAGE in live && live[(a - start) / PAGE] == s / PAGE
      modifies this`live, bmp, bmp.chunks
      ensures Ok() && live == old(live) - {(a - start) / PAGE}
      ensures bmp.Bits() == Fill(old(bmp.Bits()), (a - start) / PAGE, s / PAGE, false)
    {
      var page := (a - start) / PAGE;
      ghost var o := Owned(bmp.View(), live);
      GiveExact(o, page);
      bmp.FreeBits(page, s / PAGE);
      live := live - {page};
    }
  }
}
