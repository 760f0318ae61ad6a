/** The spin-lock condition of src/async/spin/async.c and the byte throttle of src/core/arax_throttle.c on
    top of it, for any number of threads. Every atomic access of the source is one step. */
module Throttle {
  import opened MapSum
  import opened Options

  /** A call: take bytes, or give bytes back. */
  datatype Job = Dec(size: nat) | Inc(size: nat)

  /** Where a thread is. */
  datatype Pc =
    | Out
    | Locking(job: Job)              // spins on the mutex
    | In(job: Job)                   // holds the mutex
    | Applied(job: Job)              // holds it, has changed the byte count
    | Notified(job: Job)             // holds it, has notified
    | Sleeping(job: Job)             // released it to wait, spins on the semaphore
    | SawSem(job: Job, value: nat)   // has read the semaphore

  /** `completed` is the mutex: set when free. `owed` counts the bytes granted and not yet being given
      back. `notifies` and `waits` count finished notifications and semaphore decrements. */
  datatype State = State(
    threads: map<nat, Pc>, completed: bool, sem: nat, available: nat,
    owed: nat, notifies: nat, waits: nat)

  datatype Op =
    | Call(t: nat, job: Job)
    | Lock(t: nat)
    | Apply(t: nat)
    | Notify(t: nat)
    | Unlock(t: nat)
    | WaitRelease(t: nat)
    | SemRead(t: nat)
    | SemSwap(t: nat)

  ghost predicate At(s: State, t: nat) { t in s.threads }

  ghost predicate Enabled(s: State, op: Op) {
    && At(s, op.t)
    && var pc := s.threads[op.t];
       match op
       case Call(_, job) => pc.Out? && job.size > 0 && (job.Inc? ==> job.size <= s.owed)
       case Lock(_) => pc.Locking? && s.completed
       case Apply(_) => pc.In? && (pc.job.Dec? ==> pc.job.size <= s.available)
       case Notify(_) => pc.Applied? && pc.job.Inc?
       case Unlock(_) => (pc.Applied? && pc.job.Dec?) || pc.Notified?
       case WaitRelease(_) => pc.In? && pc.job.Dec? && s.available < pc.job.size
       case SemRead(_) => pc.Sleeping? && s.sem >= 1
       case SemSwap(_) => pc.SawSem?
  }

  ghost function Move(s: State, t: nat, pc: Pc): State {
    s.(threads := s.threads[t := pc])
  }

  ghost function Step(s: State, op: Op): State
    requires Enabled(s, op)
  {
    var t, pc := op.t, s.threads[op.t];
    match op
    case Call(_, job) =>
      var s1 := Move(s, t, Locking(job));
      if job.Inc? then s1.(owed := s.owed - job.size) else s1
    case Lock(_) => Move(s, t, In(pc.job)).(completed := false)
    case Apply(_) =>
      var s1 := Move(s, t, Applied(pc.job));
      if pc.job.Dec? then s1.(available := s.available - pc.job.size, owed := s.owed + pc.job.size)
      else s1.(available := s.available + pc.job.size)
    case Notify(_) => Move(s, t, Notified(pc.job)).(sem := s.sem + 1, notifies := s.notifies + 1)
    case Unlock(_) => Move(s, t, Out).(completed := true)
    case WaitRelease(_) => Move(s, t, Sleeping(pc.job)).(completed := true)
    case SemRead(_) => Move(s, t, SawSem(pc.job, s.sem))
    case SemSwap(_) =>
      if s.sem == pc.value && pc.value >= 1 then
        Move(s, t, Locking(pc.job)).(sem := pc.value - 1, waits := s.waits + 1)
      else Move(s, t, Sleeping(pc.job))
  }

  /** `async_condition_init` and `arax_throttle_init`: part of the capacity may be in use from the start. */
  ghost function Init(threads: set<nat>, initial: nat, capacity: nat): State
    requires initial <= capacity
  {
    State(map t | t in threads :: Out, true, 0, initial, capacity - initial, 0, 0)
  }

  // ---- Mutual exclusion, the semaphore, and the bytes ----

  predicate Inside(pc: Pc) { pc.In? || pc.Applied? || pc.Notified? }

  ghost function Insiders(): Pc -> nat { (pc: Pc) => if Inside(pc) then 1 else 0 }

  /** The bytes a thread is about to give back. */
  ghost function Returning(): Pc -> nat {
    (pc: Pc) => if (pc.Locking? || pc.In? || pc.Sleeping? || pc.SawSem?) && pc.job.Inc? then pc.job.size else 0
  }

  ghost predicate Inv(s: State, capacity: nat) {
    && (if s.completed then 1 else 0) + Sum(s.threads, Insiders()) == 1
    && s.notifies == s.sem + s.waits
    && s.available + s.owed + Sum(s.threads, Returning()) == capacity
  }

  lemma InitInv(threads: set<nat>, initial: nat, capacity: nat)
    requires initial <= capacity
    ensures Inv(Init(threads, initial, capacity), capacity)
  {
    SumOfZeros(Init(threads, initial, capacity).threads, Insiders());
    SumOfZeros(Init(threads, initial, capacity).threads, Returning());
  }

  lemma StepInv(s: State, op: Op, capacity: nat)
    requires Inv(s, capacity) && Enabled(s, op)
    ensures Inv(Step(s, op), capacity)
  {
    hide Sum;
    var pc' := Step(s, op).threads[op.t];
    SumReplace(s.threads, Insiders(), op.t, pc');
    SumReplace(s.threads, Returning(), op.t, pc');
    SumSplit(s.threads, Insiders(), op.t);
    SumSplit(s.threads, Returning(), op.t);
  }

  // ---- Wake-ups ----

  predicate Waiting(pc: Pc) { pc.Sleeping? || pc.SawSem? }

  /** A thread that took the mutex to give bytes has not notified yet. */
  ghost predicate NotifyComing(s: State) {
    exists u :: u in s.threads && s.threads[u].Applied? && s.threads[u].job.Inc?
  }

  ghost predicate WaiterInv(s: State, t: nat)
    requires t in s.threads
  {
    Waiting(s.threads[t]) ==>
      s.threads[t].job.Dec? && (s.available < s.threads[t].job.size || s.sem >= 1 || NotifyComing(s))
  }

  /** A semaphore decrement takes no notification from another waiter for which there are enough bytes. */
  ghost predicate Spares(s: State, op: Op) {
    op.SemSwap? && Enabled(s, op) ==>
      forall u :: u in s.threads && u != op.t && Waiting(s.threads[u]) ==> s.available < s.threads[u].job.size
  }

  ghost predicate AllWaiters(s: State) {
    forall t :: t in s.threads ==> WaiterInv(s, t)
  }

  lemma StepWaiters(s: State, op: Op)
    requires AllWaiters(s) && Enabled(s, op) && Spares(s, op)
    ensures AllWaiters(Step(s, op))
  {
    var s' := Step(s, op);
    forall t | t in s'.threads ensures WaiterInv(s', t) {
      assert WaiterInv(s, t);
      if NotifyComing(s) {
        var u :| u in s.threads && s.threads[u].Applied? && s.threads[u].job.Inc?;
        if u != op.t { assert s'.threads[u] == s.threads[u]; }
      }
      if op.Apply? && s.threads[op.t].job.Inc? {
        assert s'.threads[op.t].Applied?;
      }
    }
  }

  // ---- Whole runs ----

  ghost function Run(threads: set<nat>, initial: nat, capacity: nat, ops: seq<Op>, sparing: bool): Option<State>
    requires initial <= capacity
  {
    if ops == [] then Some(Init(threads, initial, capacity))
    else
      var last := |ops| - 1;
      match Run(threads, initial, capacity, ops[..last], sparing)
      case None => None
      case Some(s) =>
        if Enabled(s, ops[last]) && (sparing ==> Spares(s, ops[last])) then Some(Step(s, ops[last])) else None
  }

  /** In every interleaving the mutex flag plus the number of threads inside is one, the semaphore is the
      number of notifications minus that of finished waits, and every byte of the capacity is available,
      granted, or on its way back. */
  lemma {:induction false} RunInv(threads: set<nat>, initial: nat, capacity: nat, ops: seq<Op>, sparing: bool)
    requires initial <= capacity && Run(threads, initial, capacity, ops, sparing).Some?
    ensures Inv(Run(threads, initial, capacity, ops, sparing).value, capacity)
  {
    if ops == [] {
      InitInv(threads, initial, capacity);
    } else {
      var last := |ops| - 1;
      RunInv(threads, initial, capacity, ops[..last], sparing);
      StepInv(Run(threads, initial, capacity, ops[..last], sparing).value, ops[last], capacity);
    }
  }

  /** No two threads are inside the mutex, and the assertion of the source, that the available bytes do not
      exceed the capacity, holds. */
  lemma MutualExclusion(threads: set<nat>, initial: nat, capacity: nat, ops: seq<Op>, t: nat, u: nat)
    requires initial <= capacity && Run(threads, initial, capacity, ops, false).Some?
    requires var s := Run(threads, initial, capacity, ops, false).value;
      t in s.threads && u in s.threads && Inside(s.threads[t]) && Inside(s.threads[u])
    ensures t == u && !Run(threads, initial, capacity, ops, false).value.completed
    ensures Run(threads, initial, capacity, ops, false).value.available <= capacity
  {
    hide Run, Sum;
    RunInv(threads, initial, capacity, ops, false);
    var m := Run(threads, initial, capacity, ops, false).value.threads;
    SumSplit(m, Insiders(), t);
    if t != u { SumSplit(m - {t}, Insiders(), u); }
  }

  lemma {:induction false} RunWaiters(threads: set<nat>, initial: nat, capacity: nat, ops: seq<Op>)
    requires initial <= capacity && Run(threads, initial, capacity, ops, true).Some?
    ensures AllWaiters(Run(threads, initial, capacity, ops, true).value)
  {
    if ops == [] {
    } else {
      var last := |ops| - 1;
      RunWaiters(threads, initial, capacity, ops[..last]);
      StepWaiters(Run(threads, initial, capacity, ops[..last], true).value, ops[last]);
    }
  }

  /** A thread that sleeps with no notification left, and none coming, while enough bytes are available. */
  ghost predicate Stuck(s: State, t: nat) {
    && t in s.threads && s.threads[t].Sleeping? && s.threads[t].job.size <= s.available
    && s.sem == 0 && !NotifyComing(s)
  }

  /** While no decrement takes a notification from a waiter that could go on, nobody is stuck. */
  lemma NobodyStuck(threads: set<nat>, initial: nat, capacity: nat, ops: seq<Op>, t: nat)
    requires initial <= capacity && Run(threads, initial, capacity, ops, true).Some?
    ensures !Stuck(Run(threads, initial, capacity, ops, true).value, t)
  {
    hide Run;
    RunWaiters(threads, initial, capacity, ops);
    var s := Run(threads, initial, capacity, ops, true).value;
    if t in s.threads { assert WaiterInv(s, t); }
  }

  // ---- What the operations of a run say ----

  /** The job of the last call of a thread. */
  ghost function LastJob(ops: seq<Op>, t: nat): Option<Job> {
    if ops == [] then None
    else
      var last := |ops| - 1;
      if ops[last].Call? && ops[last].t == t then Some(ops[last].job) else LastJob(ops[..last], t)
  }

  /** The bytes given back less those taken, each by the size its caller asked for. */
  ghost function Returns(ops: seq<Op>): int {
    if ops == [] then 0
    else
      var last := |ops| - 1;
      Returns(ops[..last])
      + if ops[last].Apply? then Gain(LastJob(ops[..last], ops[last].t)) else 0
  }

  ghost function Gain(job: Option<Job>): int {
    match job
    case None => 0
    case Some(Dec(size)) => 0 - size as int
    case Some(Inc(size)) => size
  }

  ghost function Notifies(ops: seq<Op>): nat {
    if ops == [] then 0
    else Notifies(ops[..|ops| - 1]) + if ops[|ops| - 1].Notify? then 1 else 0
  }

  /** In every run each thread works for its last call, the available bytes are those at the start with all
      that was given back and without all that was taken, and each notification counts once. */
  lemma {:induction false} BytesBalance(threads: set<nat>, initial: nat, capacity: nat, ops: seq<Op>)
    requires initial <= capacity && Run(threads, initial, capacity, ops, false).Some?
    ensures var s := Run(threads, initial, capacity, ops, false).value;
      && (forall t :: t in s.threads && !s.threads[t].Out? ==> LastJob(ops, t) == Some(s.threads[t].job))
      && s.available == initial + Returns(ops)
      && s.notifies == Notifies(ops)
  {
    if ops == [] {
    } else {
      BytesBalance(threads, initial, capacity, ops[..|ops| - 1]);
    }
  }

  // ---- Two threads can lose a wake-up ----

  lemma {:induction false} RunThreads(threads: set<nat>, initial: nat, capacity: nat, ops: seq<Op>)
    requires initial <= capacity && Run(threads, initial, capacity, ops, false).Some?
    ensures Run(threads, initial, capacity, ops, false).value.threads.Keys == threads
  {
    if ops == [] {
    } else {
      var last := |ops| - 1;
      RunThreads(threads, initial, capacity, ops[..last]);
    }
  }

  /** One thread never finds another one waiting. */
  lemma {:induction false} OneThreadSpares(threads: set<nat>, initial: nat, capacity: nat, ops: seq<Op>)
    requires initial <= capacity && |threads| <= 1 && Run(threads, initial, capacity, ops, false).Some?
    ensures Run(threads, initial, capacity, ops, true) == Run(threads, initial, capacity, ops, false)
  {
    if ops == [] {
    } else {
      var last := |ops| - 1;
      OneThreadSpares(threads, initial, capacity, ops[..last]);
      RunThreads(threads, initial, capacity, ops[..last]);
      var t := ops[last].t;
      if t in threads {
        forall u | u in threads ensures u == t {
          if u != t { TwoMembers(threads, u, t); }
        }
      }
    }
  }

  lemma TwoMembers(threads: set<nat>, t: nat, u: nat)
    requires t in threads && u in threads && t != u
    ensures |threads| >= 2
  {
    assert |threads - {t}| == |threads| - 1 && u in threads - {t};
  }

  lemma Extend(threads: set<nat>, initial: nat, capacity: nat, ops: seq<Op>, s: State, op: Op)
    returns (ops': seq<Op>, s': State)
    requires initial <= capacity && Run(threads, initial, capacity, ops, false) == Some(s) && Enabled(s, op)
    ensures Run(threads, initial, capacity, ops', false) == Some(s') && s' == Step(s, op) && ops' == ops + [op]
  {
    ops', s' := ops + [op], Step(s, op);
    assert ops'[..|ops|] == ops;
  }

  /** The only new calls are for `job`. */
  predicate Calls(ops: seq<Op>, ops': seq<Op>, job: Job) {
    forall op :: op in ops' && op.Call? ==> op in ops || op.job == job
  }

  /** Thread `t` calls for more bytes than there are and goes to sleep. */
  lemma FallsAsleep(threads: set<nat>, initial: nat, capacity: nat, ops: seq<Op>, s: State, t: nat, size: nat)
    returns (ops': seq<Op>, s': State)
    requires initial <= capacity && Run(threads, initial, capacity, ops, false) == Some(s)
    requires t in s.threads && s.threads[t].Out? && s.completed && s.available < size
    ensures Run(threads, initial, capacity, ops', false) == Some(s') && Calls(ops, ops', Dec(size))
    ensures s' == s.(threads := s.threads[t := Sleeping(Dec(size))])
  {
    hide Run;
    ops', s' := Extend(threads, initial, capacity, ops, s, Call(t, Dec(size)));
    ops', s' := Extend(threads, initial, capacity, ops', s', Lock(t));
    ops', s' := Extend(threads, initial, capacity, ops', s', WaitRelease(t));
  }

  /** Thread `t` takes bytes that are there. */
  lemma Takes(threads: set<nat>, initial: nat, capacity: nat, ops: seq<Op>, s: State, t: nat, size: nat)
    returns (ops': seq<Op>, s': State)
    requires initial <= capacity && Run(threads, initial, capacity, ops, false) == Some(s)
    requires t in s.threads && s.threads[t].Out? && s.completed && 0 < size <= s.available
    ensures Run(threads, initial, capacity, ops', false) == Some(s') && Calls(ops, ops', Dec(size))
    ensures s' == s.(available := s.available - size, owed := s.owed + size)
  {
    hide Run;
    ops', s' := Extend(threads, initial, capacity, ops, s, Call(t, Dec(size)));
    ops', s' := Extend(threads, initial, capacity, ops', s', Lock(t));
    ops', s' := Extend(threads, initial, capacity, ops', s', Apply(t));
    ops', s' := Extend(threads, initial, capacity, ops', s', Unlock(t));
    assert s'.threads == s.threads;
  }

  lemma {:induction false} TakesMany(
    threads: set<nat>, initial: nat, capacity: nat, ops: seq<Op>, s: State, t: nat, size: nat, k: nat)
    returns (ops': seq<Op>, s': State)
    requires initial <= capacity && Run(threads, initial, capacity, ops, false) == Some(s)
    requires t in s.threads && s.threads[t].Out? && s.completed && size > 0 && size * k <= s.available
    ensures Run(threads, initial, capacity, ops', false) == Some(s') && Calls(ops, ops', Dec(size))
    ensures s' == s.(available := s.available - size * k, owed := s.owed + size * k)
  {
    hide Run;
    if k == 0 {
      ops', s' := ops, s;
    } else {
      Times(size, k - 1);
      ops', s' := TakesMany(threads, initial, capacity, ops, s, t, size, k - 1);
      var before := ops';
      ops', s' := Takes(threads, initial, capacity, before, s', t, size);
    }
  }

  lemma Times(d: nat, n: nat)
    ensures d * (n + 1) == d * n + d
  {
  }

  /** Thread `t` takes all the bytes there are. */
  lemma Drains(threads: set<nat>, initial: nat, capacity: nat, t: nat) returns (ops: seq<Op>, s: State)
    requires initial <= capacity && t in threads
    ensures Run(threads, initial, capacity, ops, false) == Some(s)
    ensures s == Init(threads, initial, capacity).(available := 0, owed := capacity)
  {
    hide Run;
    s := Init(threads, initial, capacity);
    ops := StartRun(threads, initial, capacity);
    if initial > 0 {
      ops, s := Takes(threads, initial, capacity, ops, s, t, initial);
    }
  }

  lemma StartRun(threads: set<nat>, initial: nat, capacity: nat) returns (ops: seq<Op>)
    requires initial <= capacity
    ensures Run(threads, initial, capacity, ops, false) == Some(Init(threads, initial, capacity)) && ops == []
  {
    ops := [];
  }

  /** Thread `t` gives bytes back and leaves one notification. */
  lemma GivesBack(threads: set<nat>, initial: nat, capacity: nat, ops: seq<Op>, s: State, t: nat, size: nat)
    returns (ops': seq<Op>, s': State)
    requires initial <= capacity && Run(threads, initial, capacity, ops, false) == Some(s)
    requires t in s.threads && s.threads[t].Out? && s.completed && 0 < size <= s.owed
    ensures Run(threads, initial, capacity, ops', false) == Some(s') && Calls(ops, ops', Inc(size))
    ensures s' == s.(available := s.available + size, owed := s.owed - size,
                     sem := s.sem + 1, notifies := s.notifies + 1)
  {
    hide Run;
    ops', s' := Extend(threads, initial, capacity, ops, s, Call(t, Inc(size)));
    ops', s' := Extend(threads, initial, capacity, ops', s', Lock(t));
    ops', s' := Extend(threads, initial, capacity, ops', s', Apply(t));
    ops', s' := Extend(threads, initial, capacity, ops', s', Notify(t));
    ops', s' := Extend(threads, initial, capacity, ops', s', Unlock(t));
    assert s'.threads == s.threads;
  }

  /** Thread `t` sleeps, takes the notification, finds too few bytes, and sleeps again. */
  lemma EatsNotification(threads: set<nat>, initial: nat, capacity: nat, ops: seq<Op>, s: State, t: nat, size: nat)
    returns (ops': seq<Op>, s': State)
    requires initial <= capacity && Run(threads, initial, capacity, ops, false) == Some(s)
    requires t in s.threads && s.threads[t].Out? && s.completed && s.available < size && s.sem >= 1
    ensures Run(threads, initial, capacity, ops', false) == Some(s') && Calls(ops, ops', Dec(size))
    ensures s' == s.(threads := s.threads[t := Sleeping(Dec(size))], sem := s.sem - 1, waits := s.waits + 1)
  {
    hide Run;
    ops', s' := FallsAsleep(threads, initial, capacity, ops, s, t, size);
    ops', s' := Extend(threads, initial, capacity, ops', s', SemRead(t));
    ops', s' := Extend(threads, initial, capacity, ops', s', SemSwap(t));
    ops', s' := Extend(threads, initial, capacity, ops', s', Lock(t));
    ops', s' := Extend(threads, initial, capacity, ops', s', WaitRelease(t));
  }

  /** With two threads, whatever the capacity: the one notification goes to the thread that still has too few
      bytes; the other, for which there are now enough, stays asleep. */
  lemma SecondWaiterStuck(threads: set<nat>, initial: nat, capacity: nat, t: nat, u: nat) returns (ops: seq<Op>)
    requires initial <= capacity && capacity >= 1 && t in threads && u in threads && t != u
    ensures Run(threads, initial, capacity, ops, false).Some?
    ensures var s := Run(threads, initial, capacity, ops, false).value;
      Stuck(s, u) && s.completed && forall x :: x in s.threads ==> s.threads[x].Sleeping? || s.threads[x].Out?
  {
    hide Run;
    var s;
    ops, s := Drains(threads, initial, capacity, t);
    ops, s := FallsAsleep(threads, initial, capacity, ops, s, u, 1);
    ops, s := GivesBack(threads, initial, capacity, ops, s, t, 1);
    ops, s := EatsNotification(threads, initial, capacity, ops, s, t, 2);
  }

  /** Nobody is ever stuck, in any interleaving of any calls, if and only if there is at most one thread. */
  lemma StuckIff(threads: set<nat>, initial: nat, capacity: nat)
    requires initial <= capacity && capacity >= 1
    ensures (forall ops, t :: Run(threads, initial, capacity, ops, false).Some? ==>
               !Stuck(Run(threads, initial, capacity, ops, false).value, t))
      <==> |threads| <= 1
  {
    hide Run, Stuck;
    if |threads| <= 1 {
      forall ops, t | Run(threads, initial, capacity, ops, false).Some?
        ensures !Stuck(Run(threads, initial, capacity, ops, false).value, t)
      {
        OneThreadSpares(threads, initial, capacity, ops);
        NobodyStuck(threads, initial, capacity, ops, t);
      }
    } else {
      var t :| t in threads;
      assert |threads - {t}| == |threads| - 1;
      var u :| u in threads - {t};
      var ops := SecondWaiterStuck(threads, initial, capacity, t, u);
    }
  }

  // ---- Which sizes strand a thread ----

  /** Stuck, while no other thread is under way: only a new call could help. */
  ghost predicate Stranded(s: State, t: nat) {
    Stuck(s, t) && forall u :: u in s.threads ==> s.threads[u].Out? || s.threads[u].Sleeping?
  }

  /** The calls take sizes of `decs` and give back sizes of `incs`. */
  ghost predicate Asks(job: Job, decs: iset<nat>, incs: iset<nat>) {
    match job
    case Dec(size) => size in decs
    case Inc(size) => size in incs
  }

  ghost predicate AllAsk(ops: seq<Op>, decs: iset<nat>, incs: iset<nat>) {
    forall op :: op in ops && op.Call? ==> Asks(op.job, decs, incs)
  }

  /** The jobs under way are of those sizes, and only takers wait. */
  ghost predicate Jobs(s: State, decs: iset<nat>, incs: iset<nat>) {
    forall t :: t in s.threads && !s.threads[t].Out? ==>
      Asks(s.threads[t].job, decs, incs) && (Waiting(s.threads[t]) ==> s.threads[t].job.Dec?)
  }

  ghost predicate OneSize(decs: iset<nat>, d: nat) {
    forall x :: x in decs ==> x == d
  }

  /** Each waiter lacks bytes, or is matched by a notification, a coming one, or a taker under way. */
  ghost function Incoming(): Pc -> nat {
    (pc: Pc) => if ((pc.Locking? || pc.In?) && pc.job.Dec?) || (pc.Applied? && pc.job.Inc?) then 1 else 0
  }

  ghost function Margin(s: State): nat {
    s.sem + Sum(s.threads, Incoming())
  }

  ghost predicate Matched(s: State, d: nat) {
    forall t :: t in s.threads && Waiting(s.threads[t]) ==> s.available < d * (Margin(s) + 1)
  }

  lemma StepJobs(s: State, op: Op, decs: iset<nat>, incs: iset<nat>)
    requires Jobs(s, decs, incs) && Enabled(s, op) && (op.Call? ==> Asks(op.job, decs, incs))
    ensures Jobs(Step(s, op), decs, incs)
  {
  }

  lemma TimesMonotone(d: nat, m: nat, n: nat)
    requires m <= n
    ensures d * m <= d * n
  {
  }

  lemma StepMargin(s: State, op: Op)
    requires Enabled(s, op)
    ensures Margin(Step(s, op)) + Incoming()(s.threads[op.t]) + s.sem
      == Margin(s) + Incoming()(Step(s, op).threads[op.t]) + Step(s, op).sem
  {
    hide Sum;
    SumReplace(s.threads, Incoming(), op.t, Step(s, op).threads[op.t]);
  }

  /** With one size `d` of requests and no larger returns, the waiters stay matched. */
  lemma StepMatched(s: State, op: Op, d: nat, decs: iset<nat>, incs: iset<nat>)
    requires Matched(s, d) && Jobs(s, decs, incs) && Enabled(s, op)
    requires OneSize(decs, d) && forall x :: x in incs ==> x <= d
    ensures Matched(Step(s, op), d)
  {
    hide Sum, Margin, Incoming;
    StepMargin(s, op);
    IncomingOf(s.threads[op.t]);
    IncomingOf(Step(s, op).threads[op.t]);
    var m, m', a, a' := Margin(s), Margin(Step(s, op)), s.available, Step(s, op).available;
    if op.WaitRelease? {
      TimesMonotone(d, 1, m' + 1);
    } else if op.Apply? && s.threads[op.t].job.Dec? {
      assert s.threads[op.t].job.size in decs;
      assert m' + 1 == m && a' == a - d;
      Times(d, m);
    } else if op.Apply? {
      assert s.threads[op.t].job.size in incs;
      assert m' == m + 1 && a' <= a + d;
      Times(d, m + 1);
    } else {
      assert m' >= m && a' == a;
      TimesMonotone(d, m + 1, m' + 1);
    }
  }

  lemma IncomingOf(pc: Pc)
    ensures Incoming()(pc)
      == if ((pc.Locking? || pc.In?) && pc.job.Dec?) || (pc.Applied? && pc.job.Inc?) then 1 else 0
  {
  }

  lemma {:induction false} RunMatched(
    threads: set<nat>, initial: nat, capacity: nat, ops: seq<Op>, d: nat, decs: iset<nat>, incs: iset<nat>)
    requires initial <= capacity && Run(threads, initial, capacity, ops, false).Some? && AllAsk(ops, decs, incs)
    requires OneSize(decs, d) && forall x :: x in incs ==> x <= d
    ensures var s := Run(threads, initial, capacity, ops, false).value; Jobs(s, decs, incs) && Matched(s, d)
  {
    hide Matched, Jobs, Step, Enabled;
    if ops == [] {
      InitMatched(threads, initial, capacity, d, decs, incs);
    } else {
      var last := |ops| - 1;
      RunMatched(threads, initial, capacity, ops[..last], d, decs, incs);
      var s := Run(threads, initial, capacity, ops[..last], false).value;
      assert ops[last] in ops;
      StepMatched(s, ops[last], d, decs, incs);
      StepJobs(s, ops[last], decs, incs);
    }
  }

  lemma InitMatched(threads: set<nat>, initial: nat, capacity: nat, d: nat, decs: iset<nat>, incs: iset<nat>)
    requires initial <= capacity
    ensures var s := Init(threads, initial, capacity); Jobs(s, decs, incs) && Matched(s, d)
  {
  }

  /** A stranded thread is matched by nothing. */
  lemma MatchedIsNotStranded(s: State, t: nat, d: nat, decs: iset<nat>, incs: iset<nat>)
    requires Matched(s, d) && Jobs(s, decs, incs) && OneSize(decs, d)
    ensures !Stranded(s, t)
  {
    hide Sum;
    if t in s.threads && Waiting(s.threads[t]) && s.sem == 0
      && forall u :: u in s.threads ==> s.threads[u].Out? || s.threads[u].Sleeping?
    {
      SumOfZeros(s.threads, Incoming());
      assert s.threads[t].job.size in decs;
      assert s.available < d * 1;
    }
  }

  // ---- Two threads and one size; no returns ----

  /** Two waiters at once both lack bytes. */
  ghost predicate PairLacks(s: State, d: nat) {
    forall t, u :: t in s.threads && u in s.threads && t != u ==>
      Waiting(s.threads[t]) && Waiting(s.threads[u]) ==> s.available < d
  }

  lemma ThreeMembers(threads: set<nat>, t: nat, u: nat, v: nat)
    requires t in threads && u in threads && v in threads && t != u && t != v && u != v
    ensures |threads| >= 3
  {
    TwoMembers(threads - {t}, u, v);
    assert |threads - {t}| == |threads| - 1;
  }

  lemma StepPair(s: State, op: Op, d: nat, decs: iset<nat>, incs: iset<nat>)
    requires PairLacks(s, d) && Jobs(s, decs, incs) && Enabled(s, op) && OneSize(decs, d)
    requires |s.threads.Keys| <= 2
    ensures PairLacks(Step(s, op), d) && Spares(s, op)
  {
    var s' := Step(s, op);
    forall t, u | t in s'.threads && u in s'.threads && t != u && Waiting(s'.threads[t]) && Waiting(s'.threads[u])
      ensures s'.available < d
    {
      if op.t != t && op.t != u {
        assert s'.threads.Keys == s.threads.Keys;
        ThreeMembers(s.threads.Keys, op.t, t, u);
      }
    }
  }

  lemma {:induction false} RunPair(
    threads: set<nat>, initial: nat, capacity: nat, ops: seq<Op>, d: nat, decs: iset<nat>, incs: iset<nat>)
    requires initial <= capacity && Run(threads, initial, capacity, ops, false).Some? && AllAsk(ops, decs, incs)
    requires OneSize(decs, d) && |threads| <= 2
    ensures Run(threads, initial, capacity, ops, true) == Run(threads, initial, capacity, ops, false)
    ensures var s := Run(threads, initial, capacity, ops, false).value; Jobs(s, decs, incs) && PairLacks(s, d)
  {
    hide Jobs, PairLacks, Step, Enabled, Spares;
    if ops == [] {
      InitPair(threads, initial, capacity, d, decs, incs);
    } else {
      var last := |ops| - 1;
      RunPair(threads, initial, capacity, ops[..last], d, decs, incs);
      RunThreads(threads, initial, capacity, ops[..last]);
      var s := Run(threads, initial, capacity, ops[..last], false).value;
      assert ops[last] in ops;
      StepPair(s, ops[last], d, decs, incs);
      StepJobs(s, ops[last], decs, incs);
    }
  }

  lemma InitPair(threads: set<nat>, initial: nat, capacity: nat, d: nat, decs: iset<nat>, incs: iset<nat>)
    requires initial <= capacity
    ensures var s := Init(threads, initial, capacity); Jobs(s, decs, incs) && PairLacks(s, d)
  {
  }

  /** Without returns every waiter lacks bytes for good. */
  ghost predicate WaitersLack(s: State) {
    forall t :: t in s.threads && Waiting(s.threads[t]) ==> s.available < s.threads[t].job.size
  }

  lemma {:induction false} RunLacks(threads: set<nat>, initial: nat, capacity: nat, ops: seq<Op>, decs: iset<nat>)
    requires initial <= capacity && Run(threads, initial, capacity, ops, false).Some? && AllAsk(ops, decs, iset{})
    ensures var s := Run(threads, initial, capacity, ops, false).value; Jobs(s, decs, iset{}) && WaitersLack(s)
  {
    if ops == [] {
    } else {
      var last := |ops| - 1;
      RunLacks(threads, initial, capacity, ops[..last], decs);
      var s := Run(threads, initial, capacity, ops[..last], false).value;
      assert ops[last] in ops;
      StepJobs(s, ops[last], decs, iset{});
      if ops[last].Apply? { assert Asks(s.threads[ops[last].t].job, decs, iset{}); }
    }
  }

  // ---- The sizes that strand a thread ----

  /** Bytes in use at the start such that a return of `x` leaves a multiple of `a`. */
  lemma Remainder(a: nat, x: nat) returns (r: nat, k: nat)
    requires a > 0 && x > 0
    ensures r < a && r + x == a * k + a
  {
    k := (x - 1) / a;
    r := a * k + a - x;
  }

  /** Two sizes: a return makes room for the smaller request; the larger one eats its notification. */
  lemma TwoSizesStrand(threads: set<nat>, t: nat, u: nat, a: nat, b: nat, x: nat)
    returns (initial: nat, capacity: nat, ops: seq<Op>)
    requires t in threads && u in threads && t != u && 0 < a < b && x > 0
    ensures initial <= capacity && Run(threads, initial, capacity, ops, false).Some?
    ensures Stranded(Run(threads, initial, capacity, ops, false).value, u)
    ensures AllAsk(ops, iset{a, b}, iset{x})
  {
    hide Run, Calls;
    var r, k := Remainder(a, x);
    initial, capacity := r, r + x;
    ops := StartRun(threads, initial, capacity);
    var o0, s0 := ops, Init(threads, initial, capacity);
    var o1, s1 := FallsAsleep(threads, initial, capacity, o0, s0, u, a);
    var o2, s2 := GivesBack(threads, initial, capacity, o1, s1, t, x);
    var o3, s3 := TakesMany(threads, initial, capacity, o2, s2, t, a, k);
    var o4, s4 := EatsNotification(threads, initial, capacity, o3, s3, t, b);
    CallsAsk(o0, o1, Dec(a), iset{a, b}, iset{x});
    CallsAsk(o1, o2, Inc(x), iset{a, b}, iset{x});
    CallsAsk(o2, o3, Dec(a), iset{a, b}, iset{x});
    CallsAsk(o3, o4, Dec(b), iset{a, b}, iset{x});
    ops := o4;
  }

  lemma CallsAsk(ops: seq<Op>, ops': seq<Op>, job: Job, decs: iset<nat>, incs: iset<nat>)
    requires AllAsk(ops, decs, incs) && Calls(ops, ops', job) && Asks(job, decs, incs)
    ensures AllAsk(ops', decs, incs)
  {
  }

  /** A return larger than the requests makes room for two waiters and wakes one. */
  lemma LargeReturnStrands(threads: set<nat>, t: nat, u: nat, v: nat, d: nat, x: nat)
    returns (initial: nat, capacity: nat, ops: seq<Op>)
    requires t in threads && u in threads && v in threads && t != u && t != v && u != v && 0 < d < x
    ensures initial <= capacity && Run(threads, initial, capacity, ops, false).Some?
    ensures Stranded(Run(threads, initial, capacity, ops, false).value, u)
    ensures AllAsk(ops, iset{d}, iset{x})
  {
    hide Run, Calls;
    initial, capacity := d - 1, d - 1 + x;
    ops := StartRun(threads, initial, capacity);
    var o0, s0 := ops, Init(threads, initial, capacity);
    var o1, s1 := FallsAsleep(threads, initial, capacity, o0, s0, u, d);
    var o2, s2 := FallsAsleep(threads, initial, capacity, o1, s1, v, d);
    var o3, s3 := GivesBack(threads, initial, capacity, o2, s2, t, x);
    CallsAsk(o0, o1, Dec(d), iset{d}, iset{x});
    CallsAsk(o1, o2, Dec(d), iset{d}, iset{x});
    CallsAsk(o2, o3, Inc(x), iset{d}, iset{x});
    var s4;
    ops, s4 := WakesAndTakes(threads, initial, capacity, o3, s3, v, d);
  }

  lemma WakesAndTakes(threads: set<nat>, initial: nat, capacity: nat, ops: seq<Op>, s: State, t: nat, size: nat)
    returns (ops': seq<Op>, s': State)
    requires initial <= capacity && Run(threads, initial, capacity, ops, false) == Some(s)
    requires t in s.threads && s.threads[t] == Sleeping(Dec(size)) && s.completed && size <= s.available && s.sem >= 1
    ensures Run(threads, initial, capacity, ops', false) == Some(s')
    ensures s'.threads == s.threads[t := Out] && s'.available == s.available - size && s'.sem == s.sem - 1
    ensures forall op :: op in ops' && op.Call? ==> op in ops
  {
    hide Run;
    ops', s' := Extend(threads, initial, capacity, ops, s, SemRead(t));
    ops', s' := Extend(threads, initial, capacity, ops', s', SemSwap(t));
    ops', s' := Extend(threads, initial, capacity, ops', s', Lock(t));
    ops', s' := Extend(threads, initial, capacity, ops', s', Apply(t));
    ops', s' := Extend(threads, initial, capacity, ops', s', Unlock(t));
  }

  ghost predicate NeverStrands(threads: set<nat>, decs: iset<nat>, incs: iset<nat>) {
    forall initial: nat, capacity: nat, ops, t ::
      initial <= capacity && AllAsk(ops, decs, incs) && Run(threads, initial, capacity, ops, false).Some? ==>
        !Stranded(Run(threads, initial, capacity, ops, false).value, t)
  }

  /** The sizes are harmless: one thread, nothing ever returned, or a single size of requests, with two threads
      at most or no return larger than a request. */
  ghost predicate Harmless(threads: set<nat>, decs: iset<nat>, incs: iset<nat>) {
    || |threads| <= 1
    || incs == iset{}
    || ((forall d, e :: d in decs && e in decs ==> d == e)
        && (|threads| <= 2 || forall d, x :: d in decs && x in incs ==> x <= d))
  }

  lemma HarmlessNeverStrands(
    threads: set<nat>, initial: nat, capacity: nat, ops: seq<Op>, t: nat, decs: iset<nat>, incs: iset<nat>)
    requires Harmless(threads, decs, incs) && initial <= capacity && AllAsk(ops, decs, incs)
    requires Run(threads, initial, capacity, ops, false).Some?
    ensures !Stranded(Run(threads, initial, capacity, ops, false).value, t)
  {
    hide Run;
    if |threads| <= 1 {
      OneThreadSpares(threads, initial, capacity, ops);
      NobodyStuck(threads, initial, capacity, ops, t);
    } else if incs == iset{} {
      RunLacks(threads, initial, capacity, ops, decs);
    } else {
      var d := TheSize(decs, incs);
      if |threads| <= 2 {
        RunPair(threads, initial, capacity, ops, d, decs, incs);
        NobodyStuck(threads, initial, capacity, ops, t);
      } else if decs == iset{} {
        NobodyAsks(threads, initial, capacity, ops, t, incs);
      } else {
        RunMatched(threads, initial, capacity, ops, d, decs, incs);
        MatchedIsNotStranded(Run(threads, initial, capacity, ops, false).value, t, d, decs, incs);
      }
    }
  }

  lemma TheSize(decs: iset<nat>, incs: iset<nat>) returns (d: nat)
    requires forall d, e :: d in decs && e in decs ==> d == e
    ensures OneSize(decs, d) && (decs != iset{} ==> d in decs)
  {
    d := 0;
    if x :| x in decs { d := x; }
  }

  lemma {:induction false} NobodyAsks(
    threads: set<nat>, initial: nat, capacity: nat, ops: seq<Op>, t: nat, incs: iset<nat>)
    requires initial <= capacity && AllAsk(ops, iset{}, incs) && Run(threads, initial, capacity, ops, false).Some?
    ensures Jobs(Run(threads, initial, capacity, ops, false).value, iset{}, incs)
    ensures !Stuck(Run(threads, initial, capacity, ops, false).value, t)
  {
    if ops == [] {
    } else {
      var last := |ops| - 1;
      NobodyAsks(threads, initial, capacity, ops[..last], t, incs);
      assert ops[last] in ops;
      StepJobs(Run(threads, initial, capacity, ops[..last], false).value, ops[last], iset{}, incs);
    }
  }

  /** No run with those sizes strands a thread, whatever the capacity and the bytes in use at the start, if and
      only if the sizes are harmless. */
  lemma StrandedIff(threads: set<nat>, decs: iset<nat>, incs: iset<nat>)
    requires 0 !in decs && 0 !in incs
    ensures NeverStrands(threads, decs, incs) <==> Harmless(threads, decs, incs)
  {
    if Harmless(threads, decs, incs) {
      forall initial: nat, capacity: nat, ops, t
        | initial <= capacity && AllAsk(ops, decs, incs) && Run(threads, initial, capacity, ops, false).Some?
        ensures !Stranded(Run(threads, initial, capacity, ops, false).value, t)
      {
        HarmlessNeverStrands(threads, initial, capacity, ops, t, decs, incs);
      }
    } else {
      var initial, capacity, ops, u := Strands(threads, decs, incs);
    }
  }

  lemma Strands(threads: set<nat>, decs: iset<nat>, incs: iset<nat>)
    returns (initial: nat, capacity: nat, ops: seq<Op>, u: nat)
    requires 0 !in decs && 0 !in incs && !Harmless(threads, decs, incs)
    ensures initial <= capacity && AllAsk(ops, decs, incs) && Run(threads, initial, capacity, ops, false).Some?
    ensures Stranded(Run(threads, initial, capacity, ops, false).value, u)
  {
    hide Run, Stranded;
    var t :| t in threads;
    assert |threads - {t}| == |threads| - 1;
    u :| u in threads - {t};
    if d, e :| d in decs && e in decs && d < e {
      var x :| x in incs;
      initial, capacity, ops := TwoSizesStrand(threads, t, u, d, e, x);
    } else {
      assert |threads - {t} - {u}| == |threads| - 2;
      var v :| v in threads - {t} - {u};
      var d, x :| d in decs && x in incs && x > d;
      initial, capacity, ops := LargeReturnStrands(threads, t, u, v, d, x);
    }
  }
}
