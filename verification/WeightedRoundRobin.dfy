/** The weighted round robin of controller/src/Schedulers/WeightedRoundRobinScheduler.cpp, with one queue per
    client, one group, fixed weights and unit reduction. Each `selectTask` is one step; the control queues
    are not full. */
module WeightedRoundRobin {
  import opened Options
  import opened Sequences

  /** Per client: its weight, its credit, whether its queue is in a control queue, and its queue length. */
  datatype Sched = Sched(
    weight: seq<nat>, credit: seq<int>, inGroup: seq<bool>, len: seq<nat>,
    high: seq<nat>, low: seq<nat>)

  ghost predicate WellFormed(s: Sched) {
    && |s.credit| == |s.inGroup| == |s.len| == |s.weight|
    && Clients(s.high, |s.weight|) && Clients(s.low, |s.weight|)
  }

  ghost predicate Clients(q: seq<nat>, n: nat) {
    forall i :: 0 <= i < |q| ==> q[i] < n
  }

  /** Puts a client in the control queue its credit names. */
  ghost function Enqueue(s: Sched, c: nat): Sched
    requires WellFormed(s) && c < |s.weight|
  {
    if s.credit[c] > 0 then s.(high := s.high + [c]) else s.(low := s.low + [c])
  }

  /** Step 1 for one client. */
  ghost function Admit(s: Sched, c: nat): Sched
    requires WellFormed(s) && c < |s.weight|
  {
    if !s.inGroup[c] && s.weight[c] != 0 && s.len[c] > 0 then Enqueue(s.(inGroup := s.inGroup[c := true]), c) else s
  }

  ghost function AdmitFrom(s: Sched, c: nat): (s': Sched)
    requires WellFormed(s) && c <= |s.weight|
    ensures WellFormed(s') && |s'.weight| == |s.weight|
    decreases |s.weight| - c
  {
    if c == |s.weight| then s else AdmitFrom(Admit(s, c), c + 1)
  }

  /** Pops until a client with a weight, or the last one. */
  ghost function PopWeighted(weight: seq<nat>, q: seq<nat>): (r: (nat, seq<nat>))
    requires q != [] && Clients(q, |weight|)
    ensures r.0 < |weight| && Clients(r.1, |weight|)
    decreases |q|
  {
    if weight[q[0]] == 0 && |q| > 1 then PopWeighted(weight, q[1..]) else (q[0], q[1..])
  }

  /** Step 2 chose client `c`: charge it, pop a task, and queue it again if it has more. */
  ghost function Serve(s: Sched, c: nat, fromLow: bool): (Sched, Option<nat>)
    requires WellFormed(s) && c < |s.weight|
  {
    if s.len[c] == 0 then (s.(inGroup := s.inGroup[c := false]), None)
    else
      var gain := if fromLow then s.weight[c] as int else 0;
      var s1 := s.(credit := s.credit[c := s.credit[c] - 1 + gain], len := s.len[c := s.len[c] - 1]);
      if s1.len[c] == 0 || s1.weight[c] == 0 then (s1.(inGroup := s1.inGroup[c := false]), Some(c))
      else (Enqueue(s1, c), Some(c))
  }

  /** `selectTask`: the new state and the client whose task was taken. */
  ghost function Select(s: Sched): (Sched, Option<nat>)
    requires WellFormed(s)
  {
    var s1 := AdmitFrom(s, 0);
    if s1.high != [] then
      var (c, rest) := PopWeighted(s1.weight, s1.high);
      Serve(s1.(high := rest), c, false)
    else if s1.low == [] then (s1, None)
    else
      var (c, rest) := PopWeighted(s1.weight, s1.low);
      Serve(s1.(low := rest), c, true)
  }

  /** The scheduler as an object whose calls change its credits and control queues. */
  class Scheduler {
    const weight: seq<nat>
    var credit: seq<int>
    var inGroup: seq<bool>
    var len: seq<nat>
    var high: seq<nat>
    var low: seq<nat>

    ghost function View(): Sched
      reads this
    {
      Sched(weight, credit, inGroup, len, high, low)
    }

    constructor (weight: seq<nat>)
      ensures Inv(View()) && this.weight == weight && credit == weight && high == [] && low == []
    {
      this.weight := weight;
      credit := weight;
      inGroup := seq(|weight|, _ => false);
      len := seq(|weight|, _ => 0);
      high, low := [], [];
    }

    method PushControl(c: nat)
      requires WellFormed(View()) && c < |weight|
      modifies this`high, this`low
      ensures View() == Enqueue(old(View()), c)
    {
      if credit[c] > 0 {
        high := high + [c];
      } else {
        low := low + [c];
      }
    }

    method AdmitAll()
      requires WellFormed(View())
      modifies this`inGroup, this`high, this`low
      ensures View() == AdmitFrom(old(View()), 0)
    {
      var q := 0;
      while q < |weight|
        invariant 0 <= q <= |weight| && WellFormed(View())
        invariant AdmitFrom(old(View()), 0) == AdmitFrom(View(), q)
      {
        if !inGroup[q] && weight[q] != 0 {
          if len[q] > 0 {
            inGroup := inGroup[q := true];
            PushControl(q);
          }
        }
        q := q + 1;
      }
    }

    method PopControl(q: seq<nat>) returns (c: nat, rest: seq<nat>)
      requires q != [] && Clients(q, |weight|)
      ensures (c, rest) == PopWeighted(weight, q)
    {
      c, rest := q[0], q[1..];
      assert [c] + rest == q;
      while weight[c] == 0 && rest != []
        invariant Clients([c] + rest, |weight|)
        invariant PopWeighted(weight, q) == PopWeighted(weight, [c] + rest)
        decreases |rest|
      {
        assert ([c] + rest)[1..] == rest == [rest[0]] + rest[1..];
        c, rest := rest[0], rest[1..];
      }
      assert ([c] + rest)[1..] == rest;
    }

    /** Charges the chosen client, pops its task, and queues it again if it has more. */
    method ServeClient(c: nat, fromLow: bool) returns (r: Option<nat>)
      requires WellFormed(View()) && c < |weight|
      modifies this
      ensures (View(), r) == Serve(old(View()), c, fromLow)
    {
      if len[c] == 0 {
        inGroup := inGroup[c := false];
        return None;
      }
      ghost var before := credit;
      credit := credit[c := credit[c] - 1];
      if fromLow {
        credit := credit[c := credit[c] + weight[c]];
        assert credit == before[c := before[c] - 1 + weight[c]];
      }
      len := len[c := len[c] - 1];
      if len[c] == 0 {
        inGroup := inGroup[c := false];
      } else if weight[c] > 0 {
        PushControl(c);
      } else {
        inGroup := inGroup[c := false];
      }
      return Some(c);
    }

    /** A task is taken exactly when some client with a weight has one, and then one task leaves one queue. */
    method SelectTask() returns (r: Option<nat>)
      requires Inv(View())
      modifies this
      ensures Inv(View()) && (View(), r) == Select(old(View()))
      ensures r.Some? <==> exists c :: 0 <= c < |weight| && weight[c] > 0 && c < |old(len)| && old(len)[c] > 0
      ensures r.None? ==> len == old(len)
      ensures r.Some? ==> r.value < |old(len)| && old(len)[r.value] > 0
      ensures r.Some? ==> len == old(len)[r.value := old(len)[r.value] - 1]
    {
      hide AdmitFrom, Serve, Inv;
      InvShape(View());
      SelectInv(View());
      SelectServes(View());
      SelectTakesOne(View());
      AdmitAll();
      var c;
      if high != [] {
        c, high := PopControl(high);
        r := ServeClient(c, false);
      } else if low == [] {
        r := None;
      } else {
        c, low := PopControl(low);
        r := ServeClient(c, true);
      }
    }

    /** The application submits to the queue of `c`. */
    method Submit(c: nat)
      requires Inv(View()) && c < |weight|
      modifies this`len
      ensures Inv(View()) && View() == old(View()).(len := old(len)[c := old(len)[c] + 1])
    {
      len := len[c := len[c] + 1];
    }
  }

  // ---- Credits and control queues ----

  /** Every credit is between zero and the weight; a client is queued once, while it has tasks and a weight;
      HIGH holds exactly the queued clients with credit. */
  ghost predicate Inv(s: Sched) {
    && WellFormed(s)
    && (forall c :: 0 <= c < |s.weight| ==> 0 <= s.credit[c] <= s.weight[c])
    && Distinct(s.high) && Distinct(s.low) && (forall c :: c in s.high ==> c !in s.low)
    && (forall c :: 0 <= c < |s.weight| ==> (s.inGroup[c] <==> c in s.high || c in s.low))
    && (forall c :: c in s.high ==> s.credit[c] > 0)
    && (forall c :: c in s.low ==> s.credit[c] == 0)
    && (forall c :: c in s.high || c in s.low ==> s.len[c] > 0 && s.weight[c] > 0)
  }

  lemma EnqueueInv(s: Sched, c: nat)
    requires WellFormed(s) && c < |s.weight| && s.inGroup[c] && c !in s.high && c !in s.low
    requires s.len[c] > 0 && s.weight[c] > 0
    requires Inv(s.(inGroup := s.inGroup[c := false]))
    ensures Inv(Enqueue(s, c))
  {
    assert forall d :: d in s.high + [c] <==> d in s.high || d == c;
    assert forall d :: d in s.low + [c] <==> d in s.low || d == c;
  }

  lemma AdmitOneInv(s: Sched, c: nat)
    requires Inv(s) && c < |s.weight|
    ensures var s' := Admit(s, c);
      && Inv(s') && s'.weight == s.weight && s'.credit == s.credit && s'.len == s.len
      && (s.weight[c] > 0 && s.len[c] > 0 ==> s'.inGroup[c])
      && (forall d :: 0 <= d < |s.weight| && s.inGroup[d] ==> s'.inGroup[d])
      && ((forall d :: 0 <= d < |s.weight| ==> s.inGroup[d] || s.weight[d] == 0 || s.len[d] == 0) ==> s' == s)
  {
    if Admit(s, c) != s {
      var t := s.(inGroup := s.inGroup[c := true]);
      assert t.(inGroup := t.inGroup[c := false]) == s;
      EnqueueInv(t, c);
    }
  }

  /** Step 1 queues every client that has tasks and a weight, and changes nothing else. */
  lemma {:induction false} AdmitInv(s: Sched, c: nat)
    requires Inv(s) && c <= |s.weight| && |s.inGroup| == |s.len| == |s.weight|
    ensures var s' := AdmitFrom(s, c);
      && Inv(s') && s'.weight == s.weight && s'.credit == s.credit && s'.len == s.len
      && |s'.inGroup| == |s.weight|
      && (forall d :: c <= d < |s.weight| && s.weight[d] > 0 && s.len[d] > 0 ==> s'.inGroup[d])
      && (forall d :: 0 <= d < |s.weight| && s.inGroup[d] ==> s'.inGroup[d])
      && ((forall d :: 0 <= d < |s.weight| ==> s.inGroup[d] || s.weight[d] == 0 || s.len[d] == 0) ==> s' == s)
    decreases |s.weight| - c
  {
    hide Inv, Admit;
    InvShape(s);
    if c == |s.weight| {
    } else {
      AdmitOneInv(s, c);
      InvShape(Admit(s, c));
      AdmitInv(Admit(s, c), c + 1);
    }
  }

  /** Taking the head of a control queue. */
  lemma ServeInv(s: Sched, c: nat, fromLow: bool)
    requires WellFormed(s) && c < |s.weight| && c !in s.high && c !in s.low && s.inGroup[c]
    requires s.len[c] > 0 && s.weight[c] > 0 && (if fromLow then s.credit[c] == 0 else s.credit[c] > 0)
    requires Inv(s.(inGroup := s.inGroup[c := false]))
    ensures Inv(Serve(s, c, fromLow).0) && Serve(s, c, fromLow).1 == Some(c)
  {
    hide Inv, Enqueue;
    CreditBound(s, c);
    var gain := if fromLow then s.weight[c] as int else 0;
    var s1 := s.(credit := s.credit[c := s.credit[c] - 1 + gain], len := s.len[c := s.len[c] - 1]);
    var t := s1.(inGroup := s1.inGroup[c := false]);
    ChangeUnqueued(s.(inGroup := s.inGroup[c := false]), t, c);
    if s1.len[c] > 0 { EnqueueInv(s1, c); }
  }

  lemma CreditBound(s: Sched, c: nat)
    requires WellFormed(s) && c < |s.weight| && Inv(s.(inGroup := s.inGroup[c := false]))
    ensures 0 <= s.credit[c] <= s.weight[c]
  {
  }

  /** The credit and the length of a client that is in no control queue may change. */
  lemma ChangeUnqueued(s: Sched, t: Sched, c: nat)
    requires Inv(s) && c < |s.weight| && !s.inGroup[c]
    requires t == s.(credit := t.credit, len := t.len) && |t.credit| == |t.len| == |s.weight|
    requires forall d :: 0 <= d < |s.weight| && d != c ==> t.credit[d] == s.credit[d] && t.len[d] == s.len[d]
    requires 0 <= t.credit[c] <= s.weight[c]
    ensures Inv(t)
  {
  }

  /** Dequeuing the head of a control queue leaves the client queued nowhere. */
  lemma PopInv(s: Sched, fromLow: bool)
    requires Inv(s) && (if fromLow then s.low != [] else s.high != [])
    ensures var q := if fromLow then s.low else s.high;
      var s' := if fromLow then s.(low := q[1..]) else s.(high := q[1..]);
      && PopWeighted(s.weight, q) == (q[0], q[1..])
      && q[0] < |s.weight| && q[0] !in s'.high && q[0] !in s'.low && s.inGroup[q[0]]
      && s.len[q[0]] > 0 && s.weight[q[0]] > 0
      && (if fromLow then s.credit[q[0]] == 0 else s.credit[q[0]] > 0)
      && WellFormed(s') && Inv(s'.(inGroup := s'.inGroup[q[0] := false]))
  {
    var q := if fromLow then s.low else s.high;
    assert q[0] in q;
    assert forall d :: d in q <==> d == q[0] || d in q[1..];
  }

  /** Every call keeps the credits within their bounds and the control queues right. */
  lemma SelectInv(s: Sched)
    requires Inv(s)
    ensures Inv(Select(s).0) && Select(s).0.weight == s.weight
  {
    hide Inv, AdmitFrom, Serve, PopWeighted;
    InvShape(s);
    AdmitInv(s, 0);
    var s1 := AdmitFrom(s, 0);
    if s1.high != [] {
      PopInv(s1, false);
      ServeInv(s1.(high := s1.high[1..]), s1.high[0], false);
      ServeWeight(s1.(high := s1.high[1..]), s1.high[0], false);
    } else if s1.low != [] {
      PopInv(s1, true);
      ServeInv(s1.(low := s1.low[1..]), s1.low[0], true);
      ServeWeight(s1.(low := s1.low[1..]), s1.low[0], true);
    }
  }

  lemma InvShape(s: Sched)
    requires Inv(s)
    ensures WellFormed(s)
  {
  }

  lemma ServeWeight(s: Sched, c: nat, fromLow: bool)
    requires WellFormed(s) && c < |s.weight|
    ensures Serve(s, c, fromLow).0.weight == s.weight
  {
  }

  /** Submissions keep the invariant. */
  lemma ArrivalInv(s: Sched, len: seq<nat>)
    requires Inv(s) && |len| == |s.len| && forall c :: 0 <= c < |len| ==> s.len[c] <= len[c]
    ensures Inv(s.(len := len))
  {
  }

  /** A task is taken exactly when some client with a weight has one. */
  lemma SelectServes(s: Sched)
    requires Inv(s)
    ensures Select(s).1.Some? <==> exists c :: 0 <= c < |s.weight| && s.weight[c] > 0 && s.len[c] > 0
  {
    hide Serve, PopWeighted;
    AdmitInv(s, 0);
    var s1 := AdmitFrom(s, 0);
    if s1.high != [] {
      PopInv(s1, false);
      ServeInv(s1.(high := s1.high[1..]), s1.high[0], false);
    } else if s1.low != [] {
      PopInv(s1, true);
      ServeInv(s1.(low := s1.low[1..]), s1.low[0], true);
    }
  }

  /** A call takes one task of the client it serves, whose credit falls by one, after a refill by its weight if
      it had none left; the queues and credits of all others stay. */
  lemma SelectTakesOne(s: Sched)
    requires Inv(s)
    ensures var (s', r) := Select(s);
      if r.None? then s'.len == s.len && s'.credit == s.credit
      else
        var c := r.value;
        && c < |s.weight| && c < |s.len| && c < |s.credit| && s.weight[c] > 0 && s.len[c] > 0
        && s'.len == s.len[c := s.len[c] - 1]
        && s'.credit == s.credit[c := if s.credit[c] > 0 then s.credit[c] - 1 else s.weight[c] - 1]
  {
    hide Inv, AdmitFrom, PopWeighted;
    InvShape(s);
    AdmitInv(s, 0);
    var t := AdmitFrom(s, 0);
    if t.high != [] { PopInv(t, false); } else if t.low != [] { PopInv(t, true); }
  }

  /** What happens to the scheduler: a client submits a task, or a worker asks for one. */
  datatype Event = Submitted(c: nat) | Called

  ghost function Play(s0: Sched, events: seq<Event>): (s: Sched)
    requires Inv(s0)
    ensures Inv(s) && s.weight == s0.weight
  {
    if events == [] then s0
    else
      var last := |events| - 1;
      var s := Play(s0, events[..last]);
      match events[last]
      case Called => SelectInv(s); Select(s).0
      case Submitted(c) => if c < |s.len| then Arrived(s, c) else s
  }

  ghost function Arrived(s: Sched, c: nat): (s': Sched)
    requires Inv(s) && c < |s.len|
    ensures Inv(s')
  {
    ArrivalInv(s, s.len[c := s.len[c] + 1]);
    s.(len := s.len[c := s.len[c] + 1])
  }

  ghost function Submissions(events: seq<Event>, c: nat): nat {
    if events == [] then 0
    else
      var last := |events| - 1;
      Submissions(events[..last], c) + if events[last] == Submitted(c) then 1 else 0
  }

  /** How many of the calls return a task of `c`. */
  ghost function Returned(s0: Sched, events: seq<Event>, c: nat): nat
    requires Inv(s0)
  {
    if events == [] then 0
    else
      var last := |events| - 1;
      Returned(s0, events[..last], c)
      + if events[last].Called? && Select(Play(s0, events[..last])).1 == Some(c) then 1 else 0
  }

  /** No task is lost: whatever happens, the tasks of a client at the start and those submitted are those
      returned and those still queued. */
  lemma {:induction false} TaskBalance(s0: Sched, events: seq<Event>, c: nat)
    requires Inv(s0) && c < |s0.len|
    ensures c < |Play(s0, events).len|
    ensures s0.len[c] + Submissions(events, c) == Returned(s0, events, c) + Play(s0, events).len[c]
  {
    hide Inv, Select;
    if events == [] {
    } else {
      var last := |events| - 1;
      TaskBalance(s0, events[..last], c);
      SelectTakesOne(Play(s0, events[..last]));
    }
  }

  ghost predicate Increasing(q: seq<nat>) {
    forall i, j :: 0 <= i < j < |q| ==> q[i] < q[j]
  }

  /** The scan adds the new clients behind those that wait, in the order of their numbers. */
  lemma {:induction false} AdmitOrder(s: Sched, c: nat)
    requires Inv(s) && c <= |s.weight|
    ensures var s' := AdmitFrom(s, c);
      && |s.high| <= |s'.high| && s'.high[..|s.high|] == s.high
      && |s.low| <= |s'.low| && s'.low[..|s.low|] == s.low
      && Increasing(s'.high[|s.high|..]) && Increasing(s'.low[|s.low|..])
      && (forall d :: d in s'.high[|s.high|..] || d in s'.low[|s.low|..] ==> d >= c)
    decreases |s.weight| - c
  {
    hide Inv;
    InvShape(s);
    if c == |s.weight| {
    } else {
      AdmitOneInv(s, c);
      AdmitOrder(Admit(s, c), c + 1);
      AdmitsAtEnd(s, c, AdmitFrom(s, c));
    }
  }

  lemma AdmitsAtEnd(s: Sched, c: nat, s': Sched)
    requires WellFormed(s) && c < |s.weight|
    requires var t := Admit(s, c);
      && |t.high| <= |s'.high| && s'.high[..|t.high|] == t.high
      && |t.low| <= |s'.low| && s'.low[..|t.low|] == t.low
      && Increasing(s'.high[|t.high|..]) && Increasing(s'.low[|t.low|..])
      && (forall d :: d in s'.high[|t.high|..] || d in s'.low[|t.low|..] ==> d > c)
    ensures |s.high| <= |s'.high| && s'.high[..|s.high|] == s.high
    ensures |s.low| <= |s'.low| && s'.low[..|s.low|] == s.low
    ensures Increasing(s'.high[|s.high|..]) && Increasing(s'.low[|s.low|..])
    ensures forall d :: d in s'.high[|s.high|..] || d in s'.low[|s.low|..] ==> d >= c
  {
    var t := Admit(s, c);
    if t.high != s.high {
      GrowsByOne(s.high, c, s'.high, s'.high[|t.high|..]);
    } else if t.low != s.low {
      GrowsByOne(s.low, c, s'.low, s'.low[|t.low|..]);
    }
  }

  lemma GrowsByOne(q: seq<nat>, c: nat, q': seq<nat>, rest: seq<nat>)
    requires |q| < |q'| && q'[..|q| + 1] == q + [c] && rest == q'[|q| + 1..]
    requires Increasing(rest) && forall d :: d in rest ==> d > c
    ensures q'[..|q|] == q && q'[|q|..] == [c] + rest && Increasing(q'[|q|..])
    ensures forall d :: d in q'[|q|..] ==> d >= c
  {
    assert q'[..|q|] == q'[..|q| + 1][..|q|];
    assert q'[|q|] == q'[..|q| + 1][|q|];
    assert q'[|q|..] == [c] + rest;
    forall i, j | 0 <= i < j < |q'[|q|..]| ensures q'[|q|..][i] < q'[|q|..][j] {
      assert rest[j - 1] in rest;
    }
  }

  // ---- Service between two turns of a backlogged client ----

  /** What the choice of the next client depends on once the scan has queued every client with tasks. */
  datatype Core = Core(credit: seq<int>, high: seq<nat>, low: seq<nat>)

  ghost function CoreOf(s: Sched): Core { Core(s.credit, s.high, s.low) }

  /** The core a call works on, after its scan. */
  ghost function Admitted(s: Sched): Core
    requires WellFormed(s)
  {
    CoreOf(AdmitFrom(s, 0))
  }

  ghost predicate CoreShape(w: seq<nat>, k: Core) {
    && |k.credit| == |w| && Clients(k.high, |w|) && Clients(k.low, |w|) && (k.high != [] || k.low != [])
  }

  ghost function Served(k: Core): nat
    requires k.high != [] || k.low != []
  {
    if k.high != [] then k.high[0] else k.low[0]
  }

  /** The client is charged, refilled when it came from LOW, and queued by its new credit. */
  ghost function CoreStep(w: seq<nat>, k: Core): (k': Core)
    requires CoreShape(w, k)
    ensures CoreShape(w, k')
  {
    var c := Served(k);
    var n := k.credit[c] - 1 + if k.high != [] then 0 else w[c];
    var high, low := if k.high != [] then k.high[1..] else [], if k.high != [] then k.low else k.low[1..];
    if n > 0 then Core(k.credit[c := n], high + [c], low) else Core(k.credit[c := n], high, low + [c])
  }

  /** The clients `busy` have a weight and a task; every other has no task or no weight. */
  ghost predicate Backlogged(s: Sched, busy: set<nat>)
    requires WellFormed(s)
  {
    && (forall c :: c in busy ==> c < |s.weight| && s.weight[c] > 0 && s.len[c] > 0)
    && (forall c :: 0 <= c < |s.weight| && c !in busy ==> s.len[c] == 0 || s.weight[c] == 0)
  }

  lemma {:induction false} AdmitNone(s: Sched, c: nat)
    requires WellFormed(s) && c <= |s.weight|
    requires forall d :: c <= d < |s.weight| ==> s.inGroup[d] || s.weight[d] == 0 || s.len[d] == 0
    ensures AdmitFrom(s, c) == s
    decreases |s.weight| - c
  {
    if c == |s.weight| {
    } else {
      AdmitNone(s, c + 1);
    }
  }

  lemma {:induction false} AdmitOnly(s: Sched, c: nat, x: nat)
    requires WellFormed(s) && c <= x < |s.weight| && !s.inGroup[x] && s.weight[x] > 0 && s.len[x] > 0
    requires forall d :: c <= d < |s.weight| && d != x ==> s.inGroup[d] || s.weight[d] == 0 || s.len[d] == 0
    ensures AdmitFrom(s, c) == Enqueue(s.(inGroup := s.inGroup[x := true]), x)
    decreases |s.weight| - c
  {
    if c == x {
      AdmitNone(Admit(s, x), x + 1);
    } else {
      AdmitOnly(s, c + 1, x);
    }
  }

  /** After the scan the busy clients, and no others, are in the control queues. */
  lemma AdmittedAreBusy(s: Sched, busy: set<nat>)
    requires Inv(s) && Backlogged(s, busy)
    ensures var t := AdmitFrom(s, 0);
      && Inv(t) && t.weight == s.weight && t.credit == s.credit && t.len == s.len && |t.inGroup| == |s.weight|
      && (forall c :: 0 <= c < |s.weight| ==> (t.inGroup[c] <==> c in busy))
      && (forall c :: c in t.high || c in t.low <==> c in busy)
  {
    hide AdmitFrom;
    AdmitInv(s, 0);
    QueuedIsBusy(AdmitFrom(s, 0), busy);
  }

  lemma QueuedIsBusy(t: Sched, busy: set<nat>)
    requires Inv(t) && Backlogged(t, busy)
    requires forall d :: 0 <= d < |t.weight| && t.weight[d] > 0 && t.len[d] > 0 ==> t.inGroup[d]
    ensures forall c :: 0 <= c < |t.weight| ==> (t.inGroup[c] <==> c in busy)
    ensures forall c :: c in t.high || c in t.low <==> c in busy
  {
    forall c | c in busy ensures c in t.high || c in t.low {
      assert t.inGroup[c];
    }
  }

  lemma AdmittedShape(s: Sched, busy: set<nat>)
    requires Inv(s) && Backlogged(s, busy) && busy != {}
    ensures CoreShape(s.weight, Admitted(s))
  {
    hide AdmitFrom;
    AdmittedAreBusy(s, busy);
    var c :| c in busy;
    var t := AdmitFrom(s, 0);
    assert c in t.high || c in t.low;
  }

  /** What the chosen client is charged. */
  ghost function Charge(p: Sched, x: nat, fromLow: bool): Sched
    requires WellFormed(p) && x < |p.weight|
  {
    p.(credit := p.credit[x := p.credit[x] - 1 + if fromLow then p.weight[x] else 0])
  }

  /** A served client is back in its control queue after the next scan, even if its queue ran empty. */
  lemma ServeThenAdmit(p: Sched, x: nat, fromLow: bool, s': Sched, busy: set<nat>)
    requires WellFormed(p) && x in busy && x < |p.weight| && p.weight[x] > 0 && p.len[x] > 0
    requires forall c :: 0 <= c < |p.weight| ==> (p.inGroup[c] <==> c in busy)
    requires WellFormed(s') && Arrives(Serve(p, x, fromLow).0, s') && Backlogged(s', busy)
    ensures Admitted(s') == CoreOf(Enqueue(Charge(p, x, fromLow), x))
  {
    hide AdmitFrom;
    if p.len[x] > 1 {
      AdmitNone(s', 0);
    } else {
      AdmitOnly(s', 0, x);
    }
  }

  /** The call takes a task of the client at the head. */
  lemma SelectTakesHead(s: Sched, busy: set<nat>)
    requires Inv(s) && Backlogged(s, busy) && busy != {}
    ensures CoreShape(s.weight, Admitted(s)) && Select(s).1 == Some(Served(Admitted(s)))
  {
    hide Inv, AdmitFrom, PopWeighted;
    InvShape(s);
    AdmittedShape(s, busy);
    AdmittedAreBusy(s, busy);
    var t := AdmitFrom(s, 0);
    PopInv(t, t.high == []);
  }

  /** While the busy clients are backlogged, a call, the arrivals after it, and the scan of the next call
      together are the core step. */
  lemma SelectIsCoreStep(s: Sched, s': Sched, busy: set<nat>)
    requires Inv(s) && Backlogged(s, busy) && busy != {}
    requires Arrives(Select(s).0, s') && WellFormed(s') && Backlogged(s', busy)
    ensures CoreShape(s.weight, Admitted(s)) && Admitted(s') == CoreStep(s.weight, Admitted(s))
  {
    hide Inv, AdmitFrom, PopWeighted, Serve, Backlogged, Arrives;
    InvShape(s);
    AdmittedShape(s, busy);
    AdmittedAreBusy(s, busy);
    var t := AdmitFrom(s, 0);
    var fromLow := t.high == [];
    PopInv(t, fromLow);
    var p := if fromLow then t.(low := t.low[1..]) else t.(high := t.high[1..]);
    var x := if fromLow then t.low[0] else t.high[0];
    ServeThenAdmit(p, x, fromLow, s', busy);
  }

  ghost function Iterate(w: seq<nat>, k: Core, n: nat): (k': Core)
    requires CoreShape(w, k)
    ensures CoreShape(w, k')
    decreases n
  {
    if n == 0 then k else Iterate(w, CoreStep(w, k), n - 1)
  }

  /** How often `b` is served in the first `n` steps. */
  ghost function Count(w: seq<nat>, k: Core, n: nat, b: nat): nat
    requires CoreShape(w, k)
    decreases n
  {
    if n == 0 then 0 else (if Served(k) == b then 1 else 0) + Count(w, CoreStep(w, k), n - 1, b)
  }

  /** The next step serves `a` from LOW. */
  ghost predicate LowTurn(k: Core, a: nat) {
    k.high == [] && k.low != [] && k.low[0] == a
  }

  lemma {:induction false} IterateAdd(w: seq<nat>, k: Core, m: nat, n: nat, b: nat)
    requires CoreShape(w, k)
    ensures Iterate(w, k, m + n) == Iterate(w, Iterate(w, k, m), n)
    ensures Count(w, k, m + n, b) == Count(w, k, m, b) + Count(w, Iterate(w, k, m), n, b)
    decreases m
  {
    if m == 0 {
    } else {
      IterateAdd(w, CoreStep(w, k), m - 1, n, b);
    }
  }

  /** A client alone in HIGH is served until its credit is used up, and then goes to the end of LOW. */
  lemma {:induction false} HighPhase(w: seq<nat>, k: Core, x: nat, b: nat)
    requires CoreShape(w, k) && k.high == [x] && k.high[0] == x && k.credit[x] >= 1
    ensures var n := k.credit[x];
      && Iterate(w, k, n) == Core(k.credit[x := 0], [], k.low + [x])
      && Count(w, k, n, b) == (if b == x then n else 0)
      && forall i :: 0 <= i < n ==> Iterate(w, k, i).high != []
    decreases k.credit[x]
  {
    var n, k1 := k.credit[x], CoreStep(w, k);
    assert k.high[1..] == [] && [] + [x] == [x];
    if n > 1 {
      HighPhase(w, k1, x, b);
      assert k1.credit[x := 0] == k.credit[x := 0];
      forall i | 0 <= i < n ensures Iterate(w, k, i).high != [] {
        if i > 0 { assert Iterate(w, k, i) == Iterate(w, k1, i - 1); }
      }
    } else {
      assert k1 == Core(k.credit[x := 0], [], k.low + [x]);
      assert Iterate(w, k, 1) == Iterate(w, k1, 0);
      assert Count(w, k, 1, b) == (if x == b then 1 else 0) + Count(w, k1, 0, b);
    }
  }

  /** Only LOW is in use; its clients wait there once, with their credits used up. */
  ghost predicate Resting(w: seq<nat>, k: Core) {
    && CoreShape(w, k) && k.high == [] && Distinct(k.low)
    && (forall i :: 0 <= i < |k.low| ==> k.credit[k.low[i]] == 0 && w[k.low[i]] > 0)
  }

  /** One client's turn: it is served as often as its weight says, and goes to the end of LOW. */
  lemma Turn(w: seq<nat>, k: Core, b: nat)
    requires Resting(w, k)
    ensures var x := k.low[0];
      && Iterate(w, k, w[x]) == Core(k.credit, [], k.low[1..] + [x])
      && Count(w, k, w[x], b) == (if b == x then w[x] else 0)
      && forall i :: 0 < i < w[x] ==> Iterate(w, k, i).high != []
  {
    var x, k1 := k.low[0], CoreStep(w, k);
    var n := w[x] - 1;
    assert k.credit[k.low[0]] == 0 && w[k.low[0]] > 0;
    assert Iterate(w, k, w[x]) == Iterate(w, k1, n);
    assert Count(w, k, w[x], b) == (if x == b then 1 else 0) + Count(w, k1, n, b);
    if n > 0 {
      assert [] + [x] == [x];
      HighPhase(w, k1, x, b);
      assert k1.credit[x := 0] == k.credit;
      forall i | 0 < i < w[x] ensures Iterate(w, k, i).high != [] {
        assert Iterate(w, k, i) == Iterate(w, k1, i - 1);
      }
    } else {
      assert k.credit[x := 0] == k.credit;
    }
  }

  ghost function TotalWeight(w: seq<nat>, q: seq<nat>): nat
    requires Clients(q, |w|)
  {
    if q == [] then 0 else w[q[0]] + TotalWeight(w, q[1..])
  }

  /** The turns of the clients `q` at the front of LOW, ahead of `done`. */
  lemma {:induction false} Turns(w: seq<nat>, k: Core, q: seq<nat>, done: seq<nat>, b: nat)
    requires Resting(w, k) && k.low == q + done && Clients(q, |w|)
    ensures var n := TotalWeight(w, q);
      && Iterate(w, k, n) == Core(k.credit, [], done + q)
      && Count(w, k, n, b) == (if b in q then w[b] else 0)
      && forall a, i :: a !in q && 0 <= i < n ==> !LowTurn(Iterate(w, k, i), a)
    decreases |q|
  {
    hide CoreStep, Iterate, Count;
    if q == [] {
      ZeroSteps(w, k, b);
      assert done + q == q + done;
    } else {
      var x, rest := q[0], q[1..];
      var k2 := Core(k.credit, [], rest + (done + [x]));
      assert k.low[0] == x && k.low[1..] + [x] == rest + (done + [x]);
      Turn(w, k, b);
      RestingRotates(w, k, k2);
      Turns(w, k2, rest, done + [x], b);
      IterateAdd(w, k, w[x], TotalWeight(w, rest), b);
      assert done + [x] + rest == done + q;
      TailOf(k.low, q, done);
      assert forall a :: a in q <==> a == x || a in rest;
      forall a, i | a !in q && 0 <= i < TotalWeight(w, q) ensures !LowTurn(Iterate(w, k, i), a) {
        ZeroSteps(w, k, b);
        if i > 0 { QuietThrough(w, k, k2, a, w[x], TotalWeight(w, rest), i); }
      }
    }
  }

  /** No LOW turn of `a` in two successive phases. */
  lemma QuietThrough(w: seq<nat>, k: Core, k2: Core, a: nat, p: nat, m: nat, i: nat)
    requires CoreShape(w, k) && k2 == Iterate(w, k, p) && 0 < i < p + m
    requires forall j :: 0 < j < p ==> Iterate(w, k, j).high != []
    requires forall j :: 0 <= j < m ==> !LowTurn(Iterate(w, k2, j), a)
    ensures !LowTurn(Iterate(w, k, i), a)
  {
    if i >= p { IterateAdd(w, k, p, i - p, a); }
  }

  lemma QuietCycle(w: seq<nat>, k: Core, k2: Core, a: nat, p: nat, m: nat)
    requires CoreShape(w, k) && k2 == Iterate(w, k, p)
    requires forall j :: 0 < j < p ==> Iterate(w, k, j).high != []
    requires forall j :: 0 <= j < m ==> !LowTurn(Iterate(w, k2, j), a)
    ensures forall i :: 0 < i < p + m ==> !LowTurn(Iterate(w, k, i), a)
  {
    hide CoreStep, Iterate, CoreShape;
    forall i | 0 < i < p + m ensures !LowTurn(Iterate(w, k, i), a) {
      QuietThrough(w, k, k2, a, p, m, i);
    }
  }

  lemma ZeroSteps(w: seq<nat>, k: Core, b: nat)
    requires CoreShape(w, k)
    ensures Iterate(w, k, 0) == k && Count(w, k, 0, b) == 0
  {
  }

  lemma TailOf(low: seq<nat>, q: seq<nat>, done: seq<nat>)
    requires Distinct(low) && low == q + done && q != []
    ensures q[0] !in q[1..]
  {
    forall i | 0 <= i < |q[1..]| ensures q[1..][i] != q[0] {
      assert low[0] != low[i + 1];
    }
  }

  lemma RestingRotates(w: seq<nat>, k: Core, k': Core)
    requires Resting(w, k) && k.low != [] && k' == Core(k.credit, [], k.low[1..] + [k.low[0]])
    ensures Resting(w, k')
  {
    forall i | 0 <= i < |k'.low| ensures k'.low[i] < |w| && k.credit[k'.low[i]] == 0 && w[k'.low[i]] > 0 {
      assert k'.low[i] == (if i < |k.low| - 1 then k.low[i + 1] else k.low[0]);
    }
  }

  /** A client's LOW turn comes back after exactly as many steps as LOW weighs, and not before; by then every
      client in LOW, that one included, was served as often as its weight says, and the scheduler is where it
      was. */
  lemma Cycle(w: seq<nat>, k: Core, a: nat, b: nat)
    requires Resting(w, k) && LowTurn(k, a) && b < |w|
    ensures var n := TotalWeight(w, k.low);
      && n > 0 && Iterate(w, k, n) == k && Count(w, k, n, b) == (if b in k.low then w[b] else 0)
      && forall i :: 0 < i < n ==> !LowTurn(Iterate(w, k, i), a)
  {
    hide CoreStep, Iterate, Count;
    var rest := k.low[1..];
    var k2, m := Core(k.credit, [], rest + [a]), TotalWeight(w, rest);
    assert k.low == [a] + rest && k.low == k.low + [];
    Turn(w, k, b);
    RestingRotates(w, k, k2);
    Turns(w, k2, rest, [a], b);
    IterateAdd(w, k, w[a], m, b);
    TailOf(k.low, k.low, []);
    assert forall c :: c in k.low <==> c == a || c in rest;
    QuietCycle(w, k, k2, a, w[a], m);
  }

  /** Two successive LOW turns of a client are one cycle apart. */
  lemma TurnsAreFair(w: seq<nat>, k: Core, a: nat, n: nat, b: nat)
    requires Resting(w, k) && LowTurn(k, a) && b < |w|
    requires n > 0 && LowTurn(Iterate(w, k, n), a)
    requires forall i :: 0 < i < n ==> !LowTurn(Iterate(w, k, i), a)
    ensures n == TotalWeight(w, k.low)
    ensures Iterate(w, k, n) == k && Count(w, k, n, b) == if b in k.low then w[b] else 0
  {
    hide CoreStep, Iterate, Count, Resting;
    Cycle(w, k, a, b);
  }

  // ---- Service from any state ----

  /** Each queued client waits once; those in HIGH have credit, those in LOW have used theirs up. */
  ghost predicate CoreInv(w: seq<nat>, k: Core) {
    && CoreShape(w, k) && Distinct(k.high) && Distinct(k.low) && (forall c :: c in k.high ==> c !in k.low)
    && (forall c :: c in k.high ==> 0 < k.credit[c] <= w[c])
    && (forall c :: c in k.low ==> k.credit[c] == 0 < w[c])
  }

  ghost function TotalCredit(credit: seq<int>, q: seq<nat>): int
    requires Clients(q, |credit|)
  {
    if q == [] then 0 else credit[q[0]] + TotalCredit(credit, q[1..])
  }

  lemma {:induction false} TotalCreditSame(credit: seq<int>, credit': seq<int>, q: seq<nat>)
    requires Clients(q, |credit|) && |credit'| == |credit|
    requires forall c :: c in q ==> credit[c] == credit'[c]
    ensures TotalCredit(credit, q) == TotalCredit(credit', q)
  {
    if q == [] {
    } else {
      TotalCreditSame(credit, credit', q[1..]);
    }
  }

  lemma {:induction false} TotalCreditAppend(credit: seq<int>, q: seq<nat>, x: nat)
    requires Clients(q, |credit|) && x < |credit|
    ensures TotalCredit(credit, q + [x]) == TotalCredit(credit, q) + credit[x]
  {
    if q == [] {
      assert TotalCredit(credit, [x]) == credit[x] + TotalCredit(credit, []);
    } else {
      assert (q + [x])[1..] == q[1..] + [x];
      TotalCreditAppend(credit, q[1..], x);
    }
  }

  lemma {:induction false} TotalWeightAppend(w: seq<nat>, q: seq<nat>, x: nat)
    requires Clients(q, |w|) && x < |w|
    ensures TotalWeight(w, q + [x]) == TotalWeight(w, q) + w[x]
  {
    if q == [] {
      assert TotalWeight(w, [x]) == w[x] + TotalWeight(w, []);
    } else {
      assert (q + [x])[1..] == q[1..] + [x];
      TotalWeightAppend(w, q[1..], x);
    }
  }

  lemma {:induction false} TotalCreditBound(w: seq<nat>, credit: seq<int>, q: seq<nat>)
    requires Clients(q, |w|) && |credit| == |w| && forall c :: c in q ==> 0 < credit[c] <= w[c]
    ensures |q| <= TotalCredit(credit, q) <= TotalWeight(w, q)
  {
    if q == [] {
    } else {
      assert q[0] in q;
      TotalCreditBound(w, credit, q[1..]);
    }
  }

  /** The weight of all queued clients. */
  ghost function QueuedWeight(w: seq<nat>, k: Core): nat
    requires CoreShape(w, k)
  {
    TotalWeight(w, k.high) + TotalWeight(w, k.low)
  }

  ghost predicate Queued(k: Core, c: nat) { c in k.high || c in k.low }

  /** A step of a client in HIGH. */
  lemma HighStep(w: seq<nat>, k: Core)
    requires CoreInv(w, k) && k.high != []
    ensures var k', x := CoreStep(w, k), k.high[0];
      && CoreInv(w, k') && TotalCredit(k'.credit, k'.high) == TotalCredit(k.credit, k.high) - 1
      && QueuedWeight(w, k') == QueuedWeight(w, k)
      && k'.credit == k.credit[x := k.credit[x] - 1]
      && (forall c :: Queued(k', c) <==> Queued(k, c))
  {
    var k', x, rest := CoreStep(w, k), k.high[0], k.high[1..];
    assert k.high == [x] + rest;
    assert x in k.high;
    TailOf(k.high, k.high, []);
    TotalCreditSame(k.credit, k'.credit, rest);
    TotalCreditAppend(k'.credit, rest, x);
    TotalWeightAppend(w, rest, x);
    TotalWeightAppend(w, k.low, x);
    HighStepInv(w, k);
  }

  lemma HighStepInv(w: seq<nat>, k: Core)
    requires CoreInv(w, k) && k.high != []
    ensures CoreInv(w, CoreStep(w, k))
    ensures forall c :: Queued(CoreStep(w, k), c) <==> Queued(k, c)
  {
    var x, rest := k.high[0], k.high[1..];
    assert k.high == [x] + rest;
    TailOf(k.high, k.high, []);
    assert forall c :: c in rest + [x] <==> c in k.high;
    assert forall c :: c in k.low + [x] <==> c in k.low || c == x;
  }

  /** As many steps as HIGH holds credit empty it; each client is served as often as its credit says. */
  lemma {:induction false} Drain(w: seq<nat>, k: Core, n: nat, b: nat)
    requires CoreInv(w, k) && n == TotalCredit(k.credit, k.high) && Queued(k, b)
    ensures var k' := Iterate(w, k, n);
      && Resting(w, k') && QueuedWeight(w, k') == QueuedWeight(w, k) && Queued(k', b)
      && Count(w, k, n, b) == k.credit[b]
    decreases n
  {
    hide CoreStep;
    TotalCreditBound(w, k.credit, k.high);
    if n == 0 {
      assert k.high == [];
    } else {
      assert k.high != [];
      HighStep(w, k);
      Drain(w, CoreStep(w, k), n - 1, b);
    }
  }

  /** From any state, a window of as many steps as the clients in HIGH have credit and all queued clients have
      weight serves each client exactly as often as its credit and its weight say together. */
  lemma ServiceWindow(w: seq<nat>, k: Core, b: nat)
    requires CoreInv(w, k) && Queued(k, b)
    ensures var n := TotalCredit(k.credit, k.high) + QueuedWeight(w, k);
      && 0 < n <= 2 * QueuedWeight(w, k) && Count(w, k, n, b) == k.credit[b] + w[b]
  {
    hide CoreStep, Iterate, Count;
    TotalCreditBound(w, k.credit, k.high);
    var c, m := TotalCredit(k.credit, k.high), QueuedWeight(w, k);
    Drain(w, k, c, b);
    var k2 := Iterate(w, k, c);
    Cycle(w, k2, k2.low[0], b);
    IterateAdd(w, k, c, m, b);
  }

  // ---- Runs of the scheduler ----

  /** Successive states before each call; between calls tasks may arrive, and no busy client runs out. */
  ghost predicate BackloggedRun(ss: seq<Sched>, busy: set<nat>) {
    && ss != [] && Inv(ss[0]) && busy != {}
    && (forall i :: 0 <= i < |ss| ==> WellFormed(ss[i]) && Backlogged(ss[i], busy))
    && (forall i :: 0 <= i < |ss| - 1 ==> Arrives(Select(ss[i]).0, ss[i + 1]))
  }

  ghost predicate Arrives(s: Sched, s': Sched) {
    && s' == s.(len := s'.len) && |s'.len| == |s.len|
    && forall c :: 0 <= c < |s.len| ==> s.len[c] <= s'.len[c]
  }

  ghost predicate ServesLow(s: Sched, a: nat)
    requires WellFormed(s)
  {
    LowTurn(Admitted(s), a)
  }

  /** How many of the calls `m..n` take a task of `b`. */
  ghost function Services(ss: seq<Sched>, m: nat, n: nat, b: nat): nat
    requires m <= n <= |ss| && forall i :: 0 <= i < |ss| ==> WellFormed(ss[i])
    decreases n - m
  {
    if m == n then 0 else (if Select(ss[m]).1 == Some(b) then 1 else 0) + Services(ss, m + 1, n, b)
  }

  lemma {:induction false} RunInv(ss: seq<Sched>, busy: set<nat>, m: nat)
    requires BackloggedRun(ss, busy) && m < |ss|
    ensures Inv(ss[m]) && ss[m].weight == ss[0].weight
  {
    hide Select, Inv, Backlogged;
    if m == 0 {
    } else {
      RunInv(ss, busy, m - 1);
      SelectInv(ss[m - 1]);
      assert Arrives(Select(ss[m - 1]).0, ss[m - 1 + 1]);
      ArrivalInv(Select(ss[m - 1]).0, ss[m].len);
    }
  }

  lemma {:induction false} RunIterates(ss: seq<Sched>, busy: set<nat>, m: nat, n: nat, b: nat)
    requires BackloggedRun(ss, busy) && m <= n < |ss|
    ensures CoreShape(ss[0].weight, Admitted(ss[m]))
    ensures Admitted(ss[n]) == Iterate(ss[0].weight, Admitted(ss[m]), n - m)
    ensures Services(ss, m, n, b) == Count(ss[0].weight, Admitted(ss[m]), n - m, b)
    decreases n - m
  {
    hide Select, Inv, Backlogged, Admitted, CoreStep, CoreShape, Arrives;
    RunInv(ss, busy, m);
    SelectTakesHead(ss[m], busy);
    if m == n {
    } else {
      assert Arrives(Select(ss[m]).0, ss[m + 1]);
      SelectIsCoreStep(ss[m], ss[m + 1], busy);
      RunIterates(ss, busy, m + 1, n, b);
    }
  }

  lemma AdmittedInv(s: Sched, busy: set<nat>)
    requires Inv(s) && Backlogged(s, busy) && busy != {}
    ensures CoreInv(s.weight, Admitted(s)) && Admitted(s).credit == s.credit
    ensures forall b :: Queued(Admitted(s), b) <==> b in busy
    ensures Admitted(s).high == [] ==> Resting(s.weight, Admitted(s))
  {
    hide AdmitFrom;
    AdmittedShape(s, busy);
    AdmittedAreBusy(s, busy);
  }

  /** While a fixed set of clients is backlogged and the others are idle or weightless, the LOW service of a
      client comes back after exactly as many calls as the backlogged clients weigh together; in between each
      of them, that one included, is served exactly as often as its weight says, and nobody else is. */
  lemma WeightedService(ss: seq<Sched>, busy: set<nat>, m: nat, a: nat, b: nat)
    requires BackloggedRun(ss, busy) && m < |ss| && b < |ss[0].weight| && ServesLow(ss[m], a)
    ensures Inv(ss[m]) && CoreShape(ss[0].weight, Admitted(ss[m]))
    ensures var q := Admitted(ss[m]).low; var n := TotalWeight(ss[0].weight, q);
      && Distinct(q) && (forall c :: c in q <==> c in busy) && n > 0
      && (forall i :: m < i < m + n && i < |ss| ==> !ServesLow(ss[i], a))
      && (m + n < |ss| ==> ServesLow(ss[m + n], a))
      && (m + n < |ss| ==> Services(ss, m, m + n, b) == if b in busy then ss[0].weight[b] else 0)
  {
    hide Select, Inv, Backlogged, Iterate, Count, Services, Arrives, Admitted, TotalWeight;
    var w, k := ss[0].weight, Admitted(ss[m]);
    RunInv(ss, busy, m);
    AdmittedInv(ss[m], busy);
    RunIterates(ss, busy, m, m, b);
    Cycle(w, k, a, b);
    var n := TotalWeight(w, k.low);
    forall i | m < i < m + n && i < |ss| ensures !ServesLow(ss[i], a) {
      RunIterates(ss, busy, m, i, b);
    }
    if m + n < |ss| { RunIterates(ss, busy, m, m + n, b); }
  }

  /** From any state of such a run, a window of at most twice the weight of the backlogged clients serves each
      of them exactly as often as its credit and its weight say together: at least once. */
  lemma BoundedService(ss: seq<Sched>, busy: set<nat>, m: nat, b: nat)
    requires BackloggedRun(ss, busy) && m < |ss| && b in busy
    ensures Inv(ss[m]) && b < |ss[0].weight| && |ss[m].credit| == |ss[0].weight| && ss[0].weight[b] > 0
    ensures CoreInv(ss[0].weight, Admitted(ss[m])) && forall c :: Queued(Admitted(ss[m]), c) <==> c in busy
    ensures var k := Admitted(ss[m]); var n := TotalCredit(k.credit, k.high) + QueuedWeight(ss[0].weight, k);
      && 0 < n <= 2 * QueuedWeight(ss[0].weight, k)
      && (m + n < |ss| ==> Services(ss, m, m + n, b) == ss[m].credit[b] + ss[0].weight[b])
  {
    hide Select, Inv, Iterate, Count, Services, Arrives, Admitted, TotalWeight, TotalCredit;
    var w, k := ss[0].weight, Admitted(ss[m]);
    RunInv(ss, busy, m);
    assert Backlogged(ss[m], busy);
    AdmittedInv(ss[m], busy);
    ServiceWindow(w, k, b);
    var n := TotalCredit(k.credit, k.high) + QueuedWeight(w, k);
    if m + n < |ss| { RunIterates(ss, busy, m, m + n, b); }
  }
}
