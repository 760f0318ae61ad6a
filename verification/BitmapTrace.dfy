/** Whole runs of the bitmap allocator: what every sequence of allocations and frees keeps, when an
    allocation can leave the bitmap, and for which lengths the search is complete. */
module BitmapTrace {
  import opened BitmapSpec
  import opened Options

  datatype Op = AllocOp(n: nat) | FreeOp(start: nat, n: nat)

  ghost function Init(size: nat): State {
    State(seq(64 * ((size + 63) / 64), _ => false), size, 0, 0)
  }

  ghost predicate CanStep(s: State, op: Op) {
    op.FreeOp? ==> CanFree(s, op.start, op.n)
  }

  ghost function Step(s: State, op: Op): (s': State)
    requires Valid(s) && CanStep(s, op)
    ensures Valid(s') && s'.size == s.size
  {
    match op
    case AllocOp(n) => AllocKeepsValid(s, n); Alloc(s, n)
    case FreeOp(start, n) => FreeKeepsValid(s, start, n); Free(s, start, n)
  }

  /** The state after `ops` on a fresh bitmap; none when a free names bits that are not allocated. In
      every run the cached count is the population count and never exceeds the size. */
  ghost function Run(size: nat, ops: seq<Op>): (r: Option<State>)
    ensures r.Some? ==> Valid(r.value) && r.value.size == size
  {
    if ops == [] then
      InitValid(size);
      Some(Init(size))
    else
      var last := |ops| - 1;
      match Run(size, ops[..last])
      case None => None
      case Some(s) => if CanStep(s, ops[last]) then Some(Step(s, ops[last])) else None
  }

  lemma InitValid(size: nat)
    ensures Valid(Init(size))
  {
    var b := Init(size).bits;
    UsedClear(b, 0, 0, |b|);
  }

  lemma RunExtend(size: nat, ops: seq<Op>, op: Op)
    requires Run(size, ops).Some? && CanStep(Run(size, ops).value, op)
    ensures Run(size, ops + [op]) == Some(Step(Run(size, ops).value, op))
  {
    assert (ops + [op])[..|ops|] == ops;
  }

  // ---- When every allocation stays below `size` ----

  ghost predicate AlwaysInRange(size: nat) {
    forall ops: seq<Op>, n: nat ::
      Run(size, ops).Some? ==> InRange(Run(size, ops).value, n)
  }

  ghost predicate InRange(s: State, n: nat) {
    Valid(s) && (AllocAt(s, n).Some? ==> AllocAt(s, n).value + n <= s.size)
  }

  /** Allocations stay inside the bitmap in every run exactly when the last chunk is whole or is the
      only one. */
  lemma InRangeIff(size: nat)
    ensures AlwaysInRange(size) <==> size % 64 == 0 || size < 64
  {
    if size % 64 == 0 || size < 64 {
      forall ops: seq<Op>, n: nat | Run(size, ops).Some? ensures InRange(Run(size, ops).value, n) {
        if AllocAt(Run(size, ops).value, n).Some? {
          AllocAtIsClear(Run(size, ops).value, n);
        }
      }
    } else {
      var ops, s := OverrunRun(size / 64, size % 64);
      OverrunAlloc(size / 64, size % 64, s);
      assert !InRange(s, size % 64 + 2);
    }
  }

  /** The bitmap that breaks the range: whole chunks `0..k` full but for bit 0 and the last bit. */
  ghost predicate Overrun(k: nat, r: nat, s: State) {
    && k >= 1 && 1 <= r < 64
    && Valid(s) && s.size == 64 * k + r && s.used == 64 * k - 2 && s.freeP == 0
    && |s.bits| == 64 * k + 64
    && forall i :: 0 <= i < |s.bits| ==> (s.bits[i] <==> 1 <= i < 64 * k - 1)
  }

  lemma ScanFirst(b: Bits, size: nat, n: nat, first: nat, c: nat, last: nat)
    requires first <= c < last && 64 * last <= |b| < size + 64
    requires forall d :: first <= d < c ==> ChunkFit(b, size, d, n).None?
    requires ChunkFit(b, size, c, n).Some?
    ensures ScanFit(b, size, n, first, last) == ChunkFit(b, size, c, n)
    decreases c - first
  {
    if first < c { ScanFirst(b, size, n, first + 1, c, last); }
  }

  lemma FirstChunk(b: Bits, size: nat, n: nat)
    requires |b| == 64 * ((size + 63) / 64) && FreeAt(b, 0, |b|) && 1 <= n <= size
    ensures ChunkFit(b, size, 0, n) == Some(0)
  {
    hide Used, Trail;
    assert FreeAt(b, 0, n) && !b[0];
    UsedClear(b, 0, 0, if size < 64 then size else 64);
    TrailCovers(b, 0, 64, 0);
  }

  /** On an empty bitmap any request that fits starts at bit 0. */
  lemma FirstAlloc(size: nat, n: nat)
    requires 1 <= n <= size
    ensures Valid(Init(size)) && AllocAt(Init(size), n) == Some(0)
  {
    hide ChunkFit, Used;
    var b := Init(size).bits;
    InitValid(size);
    FirstChunk(b, size, n);
    ScanFirst(b, size, n, 0, 0, |b| / 64);
  }

  lemma OverrunRun(k: nat, r: nat) returns (ops: seq<Op>, s: State)
    requires k >= 1 && 1 <= r < 64
    ensures Run(64 * k + r, ops) == Some(s) && Overrun(k, r, s)
  {
    hide AllocAt, Used;
    var size, n := 64 * k + r, 64 * k - 1;
    FirstAlloc(size, n);
    var s0 := Init(size);
    var s1 := Alloc(s0, n);
    AllocKeepsValid(s0, n);
    s := Free(s1, 0, 1);
    FreeKeepsValid(s1, 0, 1);
    RunExtend(size, [], AllocOp(n));
    RunExtend(size, [] + [AllocOp(n)], FreeOp(0, 1));
    ops := [] + [AllocOp(n)] + [FreeOp(0, 1)];
  }

  /** From there a request of `r + 2` bits is placed across the end of the bitmap. */
  lemma OverrunAlloc(k: nat, r: nat, s: State)
    requires Overrun(k, r, s)
    ensures AllocAt(s, r + 2) == Some(64 * k - 1) && 64 * k - 1 + (r + 2) > s.size
  {
    hide ChunkFit, Used, FreeAt;
    var n := r + 2;
    forall d | 0 <= d < k - 1 ensures ChunkFit(s.bits, s.size, d, n).None? {
      OverrunSkips(k, r, s, d);
    }
    OverrunLands(k, r, s);
    ScanFirst(s.bits, s.size, n, 0, k - 1, k + 1);
  }

  lemma OverrunSkips(k: nat, r: nat, s: State, d: nat)
    requires Overrun(k, r, s) && d < k - 1
    ensures ChunkFit(s.bits, s.size, d, r + 2).None?
  {
    var b, lo := s.bits, 64 * d;
    UsedFull(b, lo + 1, lo + 1, 63);
    UsedSplit(b, lo, lo + 1, lo + 64);
    assert b[lo + 63];
    assert Trail(b, lo, lo + 64) == 0;
  }

  lemma OverrunTail(k: nat, r: nat, s: State)
    requires Overrun(k, r, s)
    ensures var lo := 64 * (k - 1);
      Trail(s.bits, lo, lo + 64) == 1 && Used(s.bits, lo, lo + 64) >= 62
  {
    var b, lo := s.bits, 64 * (k - 1);
    UsedFull(b, lo + 1, lo + 1, 62);
    UsedSplit(b, lo, lo + 1, lo + 64);
    assert b[lo + 62] && !b[lo + 63];
    assert Trail(b, lo, lo + 63) == 0;
  }

  lemma OverrunLands(k: nat, r: nat, s: State)
    requires Overrun(k, r, s)
    ensures ChunkFit(s.bits, s.size, k - 1, r + 2) == Some(64 * k - 1)
  {
    hide Used, Trail;
    OverrunTail(k, r, s);
    var b, lo := s.bits, 64 * (k - 1);
    assert lo + 64 == 64 * k && !b[lo + 63];
    assert FreeAt(b, lo + 63, r + 2);
  }

  // ---- For which lengths the search is complete ----

  ghost predicate AlwaysComplete(n: nat) {
    forall size: nat, ops: seq<Op> ::
      Run(size, ops).Some? ==> Complete(Run(size, ops).value, n)
  }

  ghost predicate Complete(s: State, n: nat) {
    Valid(s) && (n <= s.size - s.used && HasRun(s.bits, s.size, n) ==> AllocAt(s, n).Some?)
  }

  /** A free extent of `n` bits, which the cached count leaves room for, is found in every run on every size
      exactly when `n` is 1 or at least 64. */
  lemma CompleteIff(n: nat)
    requires n >= 1
    ensures AlwaysComplete(n) <==> n == 1 || n >= 64
  {
    if n == 1 || n >= 64 {
      forall size: nat, ops: seq<Op> | Run(size, ops).Some?
        ensures Complete(Run(size, ops).value, n)
      {
        AllocComplete(Run(size, ops).value, n);
      }
    } else {
      var ops, s := HiddenRun(n);
      HiddenExtent(n, s);
      assert FreeExtent(s.bits, s.size, 63, n);
      ClearIsCounted(s.bits, 63, n);
      assert !Complete(s, n);
    }
  }

  /** 128 bits, free in `0..n-1` and `63..63+n`. */
  ghost predicate Hidden(n: nat, s: State) {
    && 2 <= n < 64 && Valid(s) && s.size == 128 && |s.bits| == 128
    && forall i :: 0 <= i < 128 ==> (s.bits[i] <==> !(i < n - 1) && !(63 <= i < 63 + n))
  }

  lemma HiddenRun(n: nat) returns (ops: seq<Op>, s: State)
    requires 2 <= n < 64
    ensures Run(128, ops) == Some(s) && Hidden(n, s)
  {
    hide AllocAt, Used;
    var s1 := FullRun();
    var o1, o2, o3 := AllocOp(128), FreeOp(0, n - 1), FreeOp(63, n);
    RunExtend(128, [o1], o2);
    var s2 := Step(s1, o2);
    assert TakenAt(s2.bits, 63, n);
    RunExtend(128, [o1] + [o2], o3);
    ops, s := [o1] + [o2] + [o3], Step(s2, o3);
  }

  lemma FullRun() returns (s: State)
    ensures Run(128, [AllocOp(128)]) == Some(s) && TakenAt(s.bits, 0, 128) && |s.bits| == 128
  {
    hide AllocAt, Used;
    FirstAlloc(128, 128);
    RunExtend(128, [], AllocOp(128));
    assert [] + [AllocOp(128)] == [AllocOp(128)];
    s := Alloc(Init(128), 128);
  }

  /** The extent `63..63+n` is free, but chunk 0 holds `n` free bits that are not contiguous, so the
      search gives up on it. */
  lemma HiddenExtent(n: nat, s: State)
    requires Hidden(n, s)
    ensures AllocAt(s, n).None?
  {
    forall x: nat ensures !Visible(s.bits, s.size, x, n) {
      if x == 63 {
        UsedClear(s.bits, 0, 0, n - 1);
        UsedFull(s.bits, 0, n - 1, 64 - n);
        assert Used(s.bits, 0, 64) == 64 - n;
      } else {
        HiddenOnly(n, s, x);
      }
    }
    AllocSucceedsIffVisible(s, n);
  }

  lemma HiddenOnly(n: nat, s: State, x: nat)
    requires Hidden(n, s) && x != 63
    ensures !FreeAt(s.bits, x, n)
  {
    if x + n <= 128 {
      var i := if x < 63 then (if x < n - 1 then n - 1 else x) else if x < 63 + n then 63 + n else x;
      assert s.bits[i];
    }
  }

  // ---- Which extent a run takes ----

  /** The chunk of the last successful allocation, or 0. */
  ghost function LastChunk(size: nat, ops: seq<Op>): nat
    requires Run(size, ops).Some?
  {
    if ops == [] then 0
    else
      var last := |ops| - 1;
      var s := Run(size, ops[..last]).value;
      if ops[last].AllocOp? && AllocAt(s, ops[last].n).Some? then AllocAt(s, ops[last].n).value / 64
      else LastChunk(size, ops[..last])
  }

  lemma {:induction false} RovesFromLast(size: nat, ops: seq<Op>)
    requires Run(size, ops).Some?
    ensures Run(size, ops).value.freeP == LastChunk(size, ops)
    ensures LastChunk(size, ops) < |Run(size, ops).value.bits| / 64 || |Run(size, ops).value.bits| == 0
  {
    hide AllocAt, Used;
    if ops == [] {
    } else {
      var last := |ops| - 1;
      RovesFromLast(size, ops[..last]);
      var s := Run(size, ops[..last]).value;
      if ops[last].AllocOp? && AllocAt(s, ops[last].n).Some? { AllocAtIsClear(s, ops[last].n); }
    }
  }

  /** In every run an allocation that the cached count leaves room for takes exactly the visible extent that
      comes first, going round from the chunk of the last successful allocation. */
  lemma AllocChoice(size: nat, ops: seq<Op>, n: nat, x: nat)
    requires Run(size, ops).Some? && n >= 1
    requires n <= size - Run(size, ops).value.used
    ensures var s := Run(size, ops).value;
      && LastChunk(size, ops) <= |s.bits| / 64
      && (AllocAt(s, n) == Some(x) <==> Nearest(s.bits, size, LastChunk(size, ops), x, n))
  {
    hide AllocAt, Nearest;
    RovesFromLast(size, ops);
    AllocIsNearest(Run(size, ops).value, n, x);
  }

  // ---- Live extents ----

  /** An allocator together with the extents its callers hold, by start bit. */
  datatype Owned = Owned(s: State, live: map<nat, nat>)

  ghost predicate Within(i: int, x: nat, n: nat) { x <= i < x + n }

  ghost predicate Apart(x: nat, n: nat, y: nat, m: nat) { x + n <= y || y + m <= x }

  /** The live extents are disjoint and are together exactly the taken bits. */
  ghost predicate Exact(o: Owned) {
    && Valid(o.s)
    && (forall x :: x in o.live ==> o.live[x] >= 1 && TakenAt(o.s.bits, x, o.live[x]))
    && (forall x, y :: x in o.live && y in o.live && x != y ==> Apart(x, o.live[x], y, o.live[y]))
    && (forall i :: 0 <= i < |o.s.bits| && o.s.bits[i] ==>
          exists x :: x in o.live && Within(i, x, o.live[x]))
  }

  ghost function Take(o: Owned, n: nat): (o': Owned)
    requires Exact(o)
    ensures Exact(o')
  {
    var r := AllocAt(o.s, n);
    AllocKeepsValid(o.s, n);
    if r.None? then
      Owned(Alloc(o.s, n), o.live)
    else if n == 0 then
      AllocAtIsClear(o.s, n);
      TakeNothing(o, r.value);
      Owned(Alloc(o.s, n), o.live)
    else
      TakeExact(o, n);
      Owned(Alloc(o.s, n), o.live[r.value := n])
  }

  ghost function Give(o: Owned, x: nat): (o': Owned)
    requires Exact(o) && x in o.live
    ensures Exact(o')
  {
    GiveExact(o, x);
    Owned(Free(o.s, x, o.live[x]), o.live - {x})
  }

  lemma TakeNothing(o: Owned, x: nat)
    requires x <= |o.s.bits|
    ensures Fill(o.s.bits, x, 0, true) == o.s.bits
  {
  }

  lemma TakeExact(o: Owned, n: nat)
    requires Exact(o) && n >= 1 && AllocAt(o.s, n).Some?
    ensures AllocAt(o.s, n).value !in o.live
    ensures Exact(Owned(Alloc(o.s, n), o.live[AllocAt(o.s, n).value := n]))
  {
    hide AllocAt, Used;
    var x := AllocAt(o.s, n).value;
    AllocKeepsValid(o.s, n);
    AllocAtIsClear(o.s, n);
    var b' := Fill(o.s.bits, x, n, true);
    assert x !in o.live by {
      if x in o.live { FreeIsNotTaken(o.s.bits, x, n, x, o.live[x], x); assert false; }
    }
    forall y | y in o.live ensures Apart(x, n, y, o.live[y]) {
      FreeAndTakenApart(o.s.bits, x, n, y, o.live[y]);
    }
    forall y | y in o.live ensures TakenAt(b', y, o.live[y]) {
      assert TakenAt(o.s.bits, y, o.live[y]);
    }
    CoverageGrows(o, x, n, b');
  }

  lemma CoverageGrows(o: Owned, x: nat, n: nat, b': Bits)
    requires Exact(o) && x !in o.live && x + n <= |o.s.bits| && b' == Fill(o.s.bits, x, n, true)
    ensures var live := o.live[x := n];
      forall i :: 0 <= i < |b'| && b'[i] ==> exists y :: y in live && Within(i, y, live[y])
  {
    var live := o.live[x := n];
    forall i | 0 <= i < |b'| && b'[i] ensures exists y :: y in live && Within(i, y, live[y]) {
      if x <= i < x + n {
        assert x in live && Within(i, x, live[x]);
      } else {
        assert o.s.bits[i];
        var y :| y in o.live && Within(i, y, o.live[y]);
        assert y in live && Within(i, y, live[y]);
      }
    }
  }

  lemma FreeIsNotTaken(b: Bits, x: nat, n: nat, y: nat, m: nat, i: nat)
    requires FreeAt(b, x, n) && x <= i < x + n && y <= i < y + m
    ensures !b[i] && !TakenAt(b, y, m)
  {
  }

  lemma FreeAndTakenApart(b: Bits, x: nat, n: nat, y: nat, m: nat)
    requires FreeAt(b, x, n) && TakenAt(b, y, m) && n >= 1 && m >= 1
    ensures Apart(x, n, y, m)
  {
    if x < y + m && y < x + n {
      FreeIsNotTaken(b, x, n, y, m, if x < y then y else x);
      assert false;
    }
  }

  lemma GiveExact(o: Owned, x: nat)
    requires Exact(o) && x in o.live
    ensures CanFree(o.s, x, o.live[x])
    ensures Exact(Owned(Free(o.s, x, o.live[x]), o.live - {x}))
  {
    FreeKeepsValid(o.s, x, o.live[x]);
    var o' := Owned(Free(o.s, x, o.live[x]), o.live - {x});
    forall y | y in o'.live ensures TakenAt(o'.s.bits, y, o'.live[y]) {
      assert Apart(x, o.live[x], y, o.live[y]);
    }
    forall i | 0 <= i < |o'.s.bits| && o'.s.bits[i]
      ensures exists y :: y in o'.live && Within(i, y, o'.live[y])
    {
      var y :| y in o.live && Within(i, y, o.live[y]);
      assert y in o'.live && Within(i, y, o'.live[y]);
    }
  }

  /** A run of callers that only give back extents they hold. */
  datatype OwnerOp = TakeOp(n: nat) | GiveOp(x: nat)

  /** In every run of owners the live extents are disjoint, the taken bits are exactly theirs, and the
      cached count is the population count; none when an owner gives back what it does not hold. */
  ghost function OwnerRun(size: nat, ops: seq<OwnerOp>): (r: Option<Owned>)
    ensures r.Some? ==> Exact(r.value)
  {
    if ops == [] then
      InitValid(size);
      Some(Owned(Init(size), map[]))
    else
      var last := |ops| - 1;
      match OwnerRun(size, ops[..last])
      case None => None
      case Some(o) =>
        match ops[last]
        case TakeOp(n) => Some(Take(o, n))
        case GiveOp(x) => if x in o.live then Some(Give(o, x)) else None
  }
}
