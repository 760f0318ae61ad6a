/** The work queue of src/utils/queue.c used by one thread at a time: a ring of slots addressed by two
    free-running 16-bit indices. `QueueThreads` models the same code under interleaving. */
module QueueIndex {
  import opened BitOps

  /** The indices are `uint16_t`. */
  const RANGE: nat := 65536

  /** `bottom - top`, corrected for wrap-around. */
  function SlotsUsed(bottom: nat, top: nat): nat
    requires bottom < RANGE && top < RANGE
  {
    var used := bottom - top;
    if used < 0 then used + RANGE else used
  }

  /** `x & (capacity - 1)`. */
  function Slot(x: nat, capacity: nat): nat
    requires capacity > 0
  {
    And(x, capacity - 1)
  }

  /** The slot of the item number `n`. */
  ghost function Home(n: nat, capacity: nat): (i: nat)
    requires capacity > 0
    ensures i < capacity
  {
    n % capacity
  }

  /** The capacity is a power of two that divides the index range. */
  ghost predicate Capacity(capacity: nat) {
    exists k: nat :: k <= 16 && capacity == Pow2(k)
  }

  lemma {:induction false} Pow2Sum(a: nat, b: nat)
    ensures Pow2(a + b) == Pow2(a) * Pow2(b)
  {
    if a == 0 {
    } else {
      Pow2Sum(a - 1, b);
    }
  }

  lemma CapacityDivides(capacity: nat) returns (q: nat)
    requires Capacity(capacity)
    ensures 0 < capacity && capacity * q == RANGE
  {
    hide Pow2;
    var k: nat :| k <= 16 && capacity == Pow2(k);
    q := Pow2(16 - k);
    Pow2Sum(k, 16 - k);
    RangeIsPow2();
  }

  lemma RangeIsPow2()
    ensures Pow2(16) == RANGE
  {
    assert Pow2(4) == 16 && Pow2(8) == 256 && Pow2(12) == 4096;
  }

  lemma RangeIsCapacity()
    ensures Capacity(RANGE)
  {
    hide Pow2;
    RangeIsPow2();
  }

  lemma CapacityAtMost(capacity: nat)
    requires Capacity(capacity)
    ensures capacity <= RANGE
  {
    var q := CapacityDivides(capacity);
    if q == 0 { assert false; }
    MulAtLeast(capacity, q);
  }

  lemma MulAtLeast(c: nat, q: nat)
    requires q >= 1
    ensures c * q >= c
  {
  }

  /** Masking an index that has wrapped around finds the same slot as the unbounded count. */
  lemma SlotOfWrapped(n: nat, capacity: nat)
    requires Capacity(capacity)
    ensures capacity > 0 && Slot(n % RANGE, capacity) == Home(n, capacity)
  {
    var k: nat :| k <= 16 && capacity == Pow2(k);
    AndLowMask(n % RANGE, k);
    var q := CapacityDivides(capacity);
    ModOfMod(n, capacity, q);
  }

  lemma ModOfMod(n: nat, c: nat, q: nat)
    requires c > 0 && q > 0
    ensures c * q > 0 && n % (c * q) % c == n % c
  {
    var m := c * q;
    MulPositive(c, q);
    var a, r := n / m, n % m;
    var b, t := r / c, r % c;
    MulAssoc(c, q, a);
    MulDistributes(c, q * a, b);
    ModUnique(n, c, q * a + b, t);
  }

  lemma MulPositive(a: nat, b: nat)
    requires a > 0 && b > 0
    ensures a * b > 0
  {
  }

  lemma MulAssoc(a: nat, b: nat, c: nat)
    ensures a * b * c == a * (b * c)
  {
  }

  lemma MulDistributes(a: nat, b: nat, c: nat)
    ensures a * (b + c) == a * b + a * c
  {
  }

  /** Two counts less than a capacity apart fall in different slots. */
  lemma SlotsApart(m: nat, n: nat, capacity: nat)
    requires capacity > 0 && m < n < m + capacity
    ensures Home(m, capacity) != Home(n, capacity)
  {
    var a, b := m / capacity, n / capacity;
    if m % capacity == n % capacity {
      assert n - m == capacity * b - capacity * a;
      if b > a { MulGap(capacity, a, b); } else if b < a { MulGap(capacity, b, a); }
      assert false;
    }
  }

  /** The 16-bit difference is the number of items as long as fewer than 65536 are stored. */
  lemma SlotsUsedExact(pushed: nat, popped: nat)
    requires popped <= pushed < popped + RANGE
    ensures SlotsUsed(pushed % RANGE, popped % RANGE) == pushed - popped
  {
  }
}

module Queue {
  import opened Options
  import opened QueueIndex

  /** The items number `popped..pushed`, oldest first. */
  ghost function Ring<T>(entries: seq<T>, popped: nat, pushed: nat): seq<T>
    requires entries != [] && popped <= pushed
  {
    seq(pushed - popped, i requires 0 <= i < pushed - popped => entries[Home(popped + i, |entries|)])
  }

  lemma RingLength<T>(entries: seq<T>, popped: nat, pushed: nat)
    requires entries != [] && popped <= pushed
    ensures |Ring(entries, popped, pushed)| == pushed - popped
  {
  }

  lemma RingPush<T>(entries: seq<T>, popped: nat, pushed: nat, x: T)
    requires entries != [] && popped <= pushed < popped + |entries|
    ensures Ring(entries[Home(pushed, |entries|) := x], popped, pushed + 1) == Ring(entries, popped, pushed) + [x]
  {
    hide Home;
    forall i | popped <= i < pushed ensures Home(i, |entries|) != Home(pushed, |entries|) {
      SlotsApart(i, pushed, |entries|);
    }
  }

  lemma RingPop<T>(entries: seq<T>, popped: nat, pushed: nat)
    requires entries != [] && popped < pushed
    ensures Ring(entries, popped, pushed) == [entries[Home(popped, |entries|)]] + Ring(entries, popped + 1, pushed)
  {
    hide Home;
    var r, tail := Ring(entries, popped, pushed), Ring(entries, popped + 1, pushed);
    forall i | 0 <= i < |tail| ensures tail[i] == r[i + 1] {
      assert popped + 1 + i == popped + (i + 1);
    }
  }

  /** `T` stands for a non-null pointer; none is the null result. */
  class Queue<T(0)> {
    const entries: array<T>
    var bottom: nat
    var top: nat
    /** Items ever pushed and popped; the indices are these counts modulo 65536. */
    ghost var pushed: nat
    ghost var popped: nat

    ghost predicate Valid()
      reads this
    {
      && Capacity(entries.Length) && 0 < entries.Length < RANGE
      && popped <= pushed <= popped + entries.Length
      && bottom == pushed % RANGE && top == popped % RANGE
    }

    ghost function Contents(): seq<T>
      requires Valid()
      reads this, entries
    {
      Ring(entries[..], popped, pushed)
    }

    constructor (capacity: nat, init: T)
      requires Capacity(capacity) && 0 < capacity < RANGE
      ensures Valid() && fresh(entries) && entries.Length == capacity && Contents() == []
    {
      entries := new T[capacity](_ => init);
      bottom, top := 0, 0;
      pushed, popped := 0, 0;
    }

    method UsedSlots() returns (n: nat)
      requires Valid()
      ensures n == |Contents()|
    {
      SlotsUsedExact(pushed, popped);
      n := SlotsUsed(bottom, top);
    }

    /** Appends, and fails exactly when the queue holds `capacity` items. */
    method Push(data: T) returns (r: Option<T>)
      requires Valid()
      modifies this, entries
      ensures Valid()
      ensures r == if |old(Contents())| == entries.Length then None else Some(data)
      ensures Contents() == if r.Some? then old(Contents()) + [data] else old(Contents())
    {
      hide Ring, SlotsUsed, Slot, Home, Capacity;
      var b, t := bottom, top;
      RingLength(entries[..], popped, pushed);
      SlotsUsedExact(pushed, popped);
      if SlotsUsed(b, t) == entries.Length {
        return None;
      }
      SlotOfWrapped(pushed, entries.Length);
      RingPush(entries[..], popped, pushed, data);
      ghost var es := entries[..];
      entries[Slot(b, entries.Length)] := data;
      assert entries[..] == es[Home(pushed, |es|) := data];
      bottom := (b + 1) % RANGE;
      pushed := pushed + 1;
      return Some(data);
    }

    /** Removes the oldest item. */
    method Pop() returns (r: Option<T>)
      requires Valid()
      modifies this
      ensures Valid()
      ensures old(Contents()) == [] ==> r.None? && Contents() == []
      ensures old(Contents()) != [] ==> r == Some(old(Contents())[0]) && Contents() == old(Contents())[1..]
    {
      hide Ring, Slot, Home, Capacity;
      var t, b := top, bottom;
      RingLength(entries[..], popped, pushed);
      SlotsUsedExact(pushed, popped);
      if b == t {
        return None;
      }
      SlotOfWrapped(popped, entries.Length);
      RingPop(entries[..], popped, pushed);
      r := Some(entries[Slot(t, entries.Length)]);
      top := (t + 1) % RANGE;
      popped := popped + 1;
    }

    /** Shows the oldest item. */
    method Peek() returns (r: Option<T>)
      requires Valid()
      ensures r == if Contents() == [] then None else Some(Contents()[0])
    {
      hide Ring, Slot, Home, Capacity;
      var t, b := top, bottom;
      RingLength(entries[..], popped, pushed);
      SlotsUsedExact(pushed, popped);
      if b == t {
        return None;
      }
      SlotOfWrapped(popped, entries.Length);
      RingPop(entries[..], popped, pushed);
      r := Some(entries[Slot(t, entries.Length)]);
    }
  }
}
