/** The round robin of controller/src/Schedulers/RoundRobinScheduler.cpp over the queues assigned to one
    worker. */
module RoundRobin {
  import BitOps
  import opened Options

  /** The lengths of the assigned queues, and the queue served last. */
  datatype Sched = Sched(len: seq<nat>, rr: nat)

  /** The first non-empty queue of `lo..hi`. */
  ghost function First(len: seq<nat>, lo: nat, hi: nat): (r: Option<nat>)
    requires lo <= hi <= |len|
    ensures r.Some? ==> lo <= r.value < hi && len[r.value] > 0
    ensures forall i :: lo <= i < (if r.Some? then r.value else hi) ==> len[i] == 0
    decreases hi - lo
  {
    if lo == hi then None else if len[lo] > 0 then Some(lo) else First(len, lo + 1, hi)
  }

  /** Where the search starts. */
  function Offset(s: Sched): nat
    requires s.len != []
  {
    (s.rr + 1) % |s.len|
  }

  ghost function Choice(s: Sched): Option<nat> {
    if s.len == [] then None
    else
      var r := First(s.len, Offset(s), |s.len|);
      if r.Some? then r else First(s.len, 0, Offset(s))
  }

  ghost function Select(s: Sched): (s': Sched)
    ensures |s'.len| == |s.len|
  {
    match Choice(s)
    case None => s
    case Some(i) => Sched(s.len[i := s.len[i] - 1], i)
  }

  class Scheduler {
    var len: seq<nat>
    var rr: nat

    ghost function View(): Sched
      reads this
    {
      Sched(len, rr)
    }

    constructor (len: seq<nat>)
      ensures View() == Sched(len, 0)
    {
      this.len, rr := len, 0;
    }

    /** `selectTask`: the queue a task was popped from; none only when all assigned queues are empty. */
    method SelectTask() returns (r: Option<nat>)
      modifies this
      ensures r == Choice(old(View())) && View() == Select(old(View()))
      ensures r.None? <==> forall i :: 0 <= i < |old(len)| ==> old(len)[i] == 0
      ensures r.None? ==> len == old(len) && rr == old(rr)
      ensures r.Some? ==> r.value < |old(len)| && old(len)[r.value] > 0 && rr == r.value
      ensures r.Some? ==> len == old(len)[r.value := old(len)[r.value] - 1]
    {
      if |len| == 0 {
        return None;
      }
      var start := (rr + 1) % |len|;
      r := PopFrom(start, |len|);
      if r.None? {
        r := PopFrom(0, start);
      }
    }

    /** One of the two loops: pops from the first queue of `lo..hi` that has a task. */
    method PopFrom(lo: nat, hi: nat) returns (r: Option<nat>)
      requires lo <= hi <= |len|
      modifies this
      ensures r == First(old(len), lo, hi)
      ensures r.None? ==> View() == old(View())
      ensures r.Some? ==> View() == Sched(old(len)[r.value := old(len)[r.value] - 1], r.value)
    {
      var itr := lo;
      while itr != hi
        invariant lo <= itr <= hi
        invariant First(len, lo, hi) == First(len, itr, hi)
        decreases hi - itr
      {
        if len[itr] > 0 {
          len := len[itr := len[itr] - 1];
          rr := itr;
          return Some(itr);
        }
        itr := itr + 1;
      }
      return None;
    }
  }

  /** The queue looked at after `k` others. */
  ghost function After(s: Sched, k: nat): nat
    requires s.len != []
  {
    (s.rr + 1 + k) % |s.len|
  }

  /** The queue chosen is the first non-empty one after the queue served last, going round. */
  lemma ChoiceIsNext(s: Sched, q: nat)
    requires s.len != []
    ensures Choice(s) == Some(q) <==>
      exists k: nat :: k < |s.len| && After(s, k) == q && s.len[q] > 0
        && forall j: nat :: j < k ==> s.len[After(s, j)] == 0
  {
    forall k: nat | k < |s.len|
      ensures After(s, k) == if Offset(s) + k < |s.len| then Offset(s) + k else Offset(s) + k - |s.len|
    {
      ModStep(s.rr + 1, k, |s.len|);
    }
    if Choice(s) == Some(q) {
      var k := Distance(s, q);
      assert After(s, k) == q;
    }
    forall k: nat
      | k < |s.len| && After(s, k) == q && s.len[q] > 0 && forall j: nat :: j < k ==> s.len[After(s, j)] == 0
      ensures Choice(s) == Some(q)
    {
      var r := Choice(s);
      assert s.len[After(s, k)] > 0;
      var j := Distance(s, r.value);
      assert After(s, j) == r.value && k == Distance(s, q);
      assert k <= j <= k;
    }
  }

  lemma ModStep(x: nat, k: nat, n: nat)
    requires k < n
    ensures (x + k) % n == if x % n + k < n then x % n + k else x % n + k - n
  {
    var q := x / n;
    assert x == n * q + x % n;
    if x % n + k < n {
      ModIs(x + k, n, q, x % n + k);
    } else {
      assert n * (q + 1) == n * q + n;
      ModIs(x + k, n, q + 1, x % n + k - n);
    }
  }

  lemma ModIs(x: nat, n: nat, q: nat, r: nat)
    requires n > 0 && x == n * q + r && r < n
    ensures x % n == r
  {
    BitOps.ModUnique(x, n, q, r);
  }

  // ---- Bounded waiting ----

  /** How many queues are looked at before `q`. */
  ghost function Distance(s: Sched, q: nat): nat
    requires q < |s.len|
  {
    if q >= Offset(s) then q - Offset(s) else q + |s.len| - Offset(s)
  }

  /** A selection that does not serve the waiting queue brings it closer. */
  lemma SelectApproaches(s: Sched, q: nat)
    requires q < |s.len| && s.len[q] > 0 && Choice(s) != Some(q)
    ensures Choice(s).Some? && Distance(Select(s), q) < Distance(s, q) < |s.len|
    ensures Select(s).len[q] == s.len[q]
  {
    var i, n := Choice(s).value, |s.len|;
    NextOffset(i, n);
  }

  lemma NextOffset(i: nat, n: nat)
    requires i < n
    ensures (i + 1) % n == if i + 1 == n then 0 else i + 1
  {
  }

  /** Successive states before each call; between calls tasks may arrive. */
  ghost predicate Run(ss: seq<Sched>) {
    && forall i :: 0 <= i < |ss| - 1 ==> Arrives(Select(ss[i]), ss[i + 1])
  }

  ghost predicate Arrives(s: Sched, s': Sched) {
    && s'.rr == s.rr && |s'.len| == |s.len|
    && forall c :: 0 <= c < |s.len| ==> s.len[c] <= s'.len[c]
  }

  lemma {:induction false} ServedInTime(ss: seq<Sched>, q: nat) returns (k: nat)
    requires ss != [] && Run(ss) && q < |ss[0].len| && ss[0].len[q] > 0 && Distance(ss[0], q) < |ss|
    ensures k <= Distance(ss[0], q) && k < |ss| && Choice(ss[k]) == Some(q)
    decreases |ss|
  {
    if Choice(ss[0]) == Some(q) {
      k := 0;
    } else {
      SelectApproaches(ss[0], q);
      assert Arrives(Select(ss[0]), ss[0 + 1]);
      var rest := ss[1..];
      forall i | 0 <= i < |rest| - 1 ensures Arrives(Select(rest[i]), rest[i + 1]) {
        assert Arrives(Select(ss[i + 1]), ss[i + 1 + 1]);
      }
      var j := ServedInTime(rest, q);
      k := j + 1;
    }
  }

  /** For a fixed set of `n` queues and any arrivals, a non-empty queue is served within `n` selections. */
  lemma BoundedWaiting(ss: seq<Sched>, q: nat) returns (k: nat)
    requires ss != [] && Run(ss) && q < |ss[0].len| == |ss| && ss[0].len[q] > 0
    ensures k < |ss[0].len| && Choice(ss[k]) == Some(q)
  {
    assert Distance(ss[0], q) < |ss[0].len|;
    k := ServedInTime(ss, q);
  }
}
