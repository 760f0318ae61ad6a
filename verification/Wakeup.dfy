/** Assignment of virtual accelerators and the wake-up tokens of their workers (src/core/arax_accel.c,
    arax_vaccel.c, arax_pipe.c, the worker loop of controller/src/Core/accelThread.cpp and the un-assign
    path of controller/src/Schedulers/HeterogeneousScheduler.cpp), as a state machine.

    One step is one critical section or one lock-free queue access. Each physical accelerator has one
    worker; only that worker, or a destructor, un-assigns from it; and a virtual accelerator that is in no
    list is handled by one thread. */
module Wakeup {
  import opened Options
  import opened Sequences

  type VId = nat
  type PId = nat

  /** The submitter that holds the lock of a virtual accelerator: it spins until the queue has room, or has
      pushed its task and not raised the token count yet. */
  datatype Submitter = Absent | Waiting | Pushed

  /** A virtual accelerator: the device it is assigned to, the length and the capacity of its task queue, and
      its submitter. */
  datatype Vac = Vac(phys: Option<PId>, len: nat, capacity: nat, submit: Submitter)

  /** `Idle` is about to look at the token count; `Asleep` spins on the semaphore. */
  datatype Worker =
    | Idle
    | Asleep
    | Awake
    | Scanning(rest: set<VId>, token: bool)
    | Running

  /** A physical accelerator: its token count, the semaphore its worker sleeps on, its list of assigned
      virtual accelerators, its worker. A negative count stands for the unsigned one after wrap-around. */
  datatype Acc = Acc(tasks: int, sem: nat, vacs: seq<VId>, worker: Worker)

  /** `transit` holds the virtual accelerators a thread is moving. */
  datatype State = State(vacs: map<VId, Vac>, accs: map<PId, Acc>, orphans: seq<VId>, transit: set<VId>)

  datatype Op =
    | Create(v: VId, capacity: nat)
    | Destroy(v: VId)
    | AddOrphan(v: VId)
    | GetOrphan
    | RemoveOrphan(v: VId)
    | Attach(p: PId, v: VId)
    | SubmitLock(v: VId)
    | SubmitPush(v: VId)
    | SubmitAnnounce(v: VId)
    | Poke(p: PId)
    | Wait(p: PId)
    | Block(p: PId)
    | Wake(p: PId)
    | Snapshot(p: PId)
    | ScanEmpty(p: PId, v: VId)
    | ScanRun(p: PId, v: VId)
    | ScanUnassign(p: PId, v: VId)
    | ScanDone(p: PId)
    | Finish(p: PId)

  ghost predicate ScansNext(s: State, p: PId, v: VId) {
    && p in s.accs && s.accs[p].worker.Scanning? && v in s.accs[p].worker.rest && v in s.vacs
  }

  /** The last reference on a virtual accelerator can go: its queue is empty and no thread uses it. */
  ghost predicate Unused(s: State, v: VId) {
    && v in s.vacs && s.vacs[v].len == 0 && s.vacs[v].submit.Absent? && v !in s.transit
    && forall p :: p in s.accs && s.accs[p].worker.Scanning? ==> v !in s.accs[p].worker.rest
  }

  ghost predicate Enabled(s: State, op: Op) {
    match op
    case Create(v, _) => v !in s.vacs
    case Destroy(v) => Unused(s, v)
    case AddOrphan(v) => v in s.transit
    case GetOrphan => s.orphans != []
    case RemoveOrphan(v) => v in s.orphans
    case Attach(p, v) => p in s.accs && v in s.transit && v in s.vacs && s.vacs[v].submit.Absent?
    case SubmitLock(v) => v in s.vacs && s.vacs[v].submit.Absent?
    case SubmitPush(v) => v in s.vacs && s.vacs[v].submit.Waiting? && s.vacs[v].len < s.vacs[v].capacity
    case SubmitAnnounce(v) => v in s.vacs && s.vacs[v].submit.Pushed?
    case Poke(p) => p in s.accs
    case Wait(p) => p in s.accs && s.accs[p].worker.Idle? && s.accs[p].tasks != 0
    case Block(p) => p in s.accs && s.accs[p].worker.Idle? && s.accs[p].tasks == 0
    case Wake(p) => p in s.accs && s.accs[p].worker.Asleep? && s.accs[p].sem >= 1
    case Snapshot(p) => p in s.accs && s.accs[p].worker.Awake?
    case ScanEmpty(p, v) => ScansNext(s, p, v) && s.vacs[v].len == 0
    case ScanRun(p, v) => ScansNext(s, p, v) && s.vacs[v].len > 0
    case ScanUnassign(p, v) => ScansNext(s, p, v) && s.vacs[v].len > 0 && s.vacs[v].submit.Absent?
    case ScanDone(p) => p in s.accs && s.accs[p].worker.Scanning? && s.accs[p].worker.rest == {}
    case Finish(p) => p in s.accs && s.accs[p].worker.Running?
  }

  /** `utils_list_del`. */
  function Without(vs: seq<VId>, v: VId): seq<VId> {
    if vs == [] then [] else if vs[0] == v then vs[1..] else [vs[0]] + Without(vs[1..], v)
  }

  /** `arax_accel_del_vaccel`: gives back all but one of the tokens of the queued tasks. */
  ghost function Detach(a: Acc, v: VId, len: nat): Acc {
    if len > 0 then a.(tasks := a.tasks - (len - 1), sem := a.sem + 1, vacs := Without(a.vacs, v))
    else a.(vacs := Without(a.vacs, v))
  }

  /** `arax_accel_add_vaccel`: brings a token for each queued task. */
  ghost function Join(a: Acc, v: VId, len: nat): Acc {
    a.(vacs := [v] + a.vacs, tasks := a.tasks + len, sem := if len > 0 then a.sem + 1 else a.sem)
  }

  /** `arax_accel_add_task`. */
  ghost function AddToken(a: Acc): Acc {
    a.(tasks := a.tasks + 1, sem := a.sem + 1)
  }

  ghost function Step(s: State, op: Op): State
    requires Enabled(s, op)
  {
    match op
    case Create(v, n) => s.(vacs := s.vacs[v := Vac(None, 0, n, Absent)], transit := s.transit + {v})
    case Destroy(v) =>
      var p := s.vacs[v].phys;
      if p.Some? && p.value in s.accs then
        s.(vacs := s.vacs - {v}, accs := s.accs[p.value := Detach(s.accs[p.value], v, 0)])
      else s.(vacs := s.vacs - {v}, orphans := Without(s.orphans, v))
    case AddOrphan(v) => s.(orphans := [v] + s.orphans, transit := s.transit - {v})
    case GetOrphan => s.(orphans := s.orphans[1..], transit := s.transit + {s.orphans[0]})
    case RemoveOrphan(v) => s.(orphans := Without(s.orphans, v), transit := s.transit + {v})
    case Attach(p, v) =>
      s.(vacs := s.vacs[v := s.vacs[v].(phys := Some(p))],
         accs := s.accs[p := Join(s.accs[p], v, s.vacs[v].len)],
         transit := s.transit - {v})
    case SubmitLock(v) => s.(vacs := s.vacs[v := s.vacs[v].(submit := Waiting)])
    case SubmitPush(v) => s.(vacs := s.vacs[v := s.vacs[v].(len := s.vacs[v].len + 1, submit := Pushed)])
    case SubmitAnnounce(v) =>
      var p := s.vacs[v].phys;
      var s1 := s.(vacs := s.vacs[v := s.vacs[v].(submit := Absent)]);
      if p.Some? && p.value in s.accs then s1.(accs := s1.accs[p.value := AddToken(s1.accs[p.value])]) else s1
    case Poke(p) => s.(accs := s.accs[p := AddToken(s.accs[p])])
    case Wait(p) => s.(accs := s.accs[p := s.accs[p].(tasks := s.accs[p].tasks - 1, worker := Awake)])
    case Block(p) => SetWorker(s, p, Asleep)
    case Wake(p) => s.(accs := s.accs[p := s.accs[p].(sem := s.accs[p].sem - 1, worker := Idle)])
    case Snapshot(p) => SetWorker(s, p, Scanning(Elements(s.accs[p].vacs), true))
    case ScanEmpty(p, v) =>
      var w := s.accs[p].worker;
      SetWorker(s, p, w.(rest := w.rest - {v}))
    case ScanRun(p, v) =>
      SetWorker(s.(vacs := s.vacs[v := s.vacs[v].(len := s.vacs[v].len - 1)]), p, Running)
    case ScanUnassign(p, v) =>
      var w := s.accs[p].worker;
      SetWorker(
        s.(vacs := s.vacs[v := s.vacs[v].(phys := None)],
           accs := s.accs[p := Detach(s.accs[p], v, s.vacs[v].len)],
           transit := s.transit + {v}),
        p, Scanning(w.rest - {v}, false))
    case ScanDone(p) => SetWorker(s, p, Idle)
    case Finish(p) => SetWorker(s, p, Idle)
  }

  ghost function SetWorker(s: State, p: PId, w: Worker): State
    requires p in s.accs
  {
    s.(accs := s.accs[p := s.accs[p].(worker := w)])
  }

  ghost function Elements(vs: seq<VId>): set<VId> { set v | v in vs }

  // ---- Lists ----

  lemma {:induction false} WithoutElements(vs: seq<VId>, v: VId)
    requires Distinct(vs)
    ensures Distinct(Without(vs, v))
    ensures forall u :: u in Without(vs, v) <==> u in vs && u != v
    ensures |Without(vs, v)| == |vs| - if v in vs then 1 else 0
  {
    if vs != [] {
      var t := vs[1..];
      WithoutElements(t, v);
      assert forall u :: u in vs <==> u == vs[0] || u in t;
      if vs[0] == v {
        assert v !in t;
      } else {
        assert vs[0] !in t;
        assert Without(vs, v) == [vs[0]] + Without(t, v);
      }
    }
  }

  // ---- Tokens ----

  /** The announced tasks of a virtual accelerator. */
  function Weight(x: Vac): int { x.len - if x.submit.Pushed? then 1 else 0 }

  /** The announced tasks of the listed virtual accelerators that are not in `skip`. */
  ghost function Load(m: map<VId, Vac>, vs: seq<VId>, skip: set<VId>): int {
    if vs == [] then 0
    else (if vs[0] in m && vs[0] !in skip then Weight(m[vs[0]]) else 0) + Load(m, vs[1..], skip)
  }

  lemma {:induction false} LoadSame(m: map<VId, Vac>, m': map<VId, Vac>, vs: seq<VId>, skip: set<VId>)
    requires forall v :: v in vs && v !in skip ==> (v in m <==> v in m') && (v in m ==> Weight(m[v]) == Weight(m'[v]))
    ensures Load(m, vs, skip) == Load(m', vs, skip)
  {
    if vs == [] {
    } else {
      LoadSame(m, m', vs[1..], skip);
    }
  }

  lemma {:induction false} LoadUpdate(m: map<VId, Vac>, vs: seq<VId>, skip: set<VId>, v: VId, x: Vac)
    requires Distinct(vs) && v in vs && v in m && v !in skip
    ensures Load(m[v := x], vs, skip) == Load(m, vs, skip) + Weight(x) - Weight(m[v])
  {
    if vs[0] == v {
      LoadSame(m, m[v := x], vs[1..], skip);
    } else {
      LoadUpdate(m, vs[1..], skip, v, x);
    }
  }

  lemma {:induction false} LoadWithout(m: map<VId, Vac>, vs: seq<VId>, skip: set<VId>, v: VId)
    requires Distinct(vs) && v in vs && v in m
    ensures Load(m, Without(vs, v), skip) == Load(m, vs, skip) - if v in skip then 0 else Weight(m[v])
  {
    if vs[0] == v {
    } else {
      LoadWithout(m, vs[1..], skip, v);
      assert Without(vs, v)[1..] == Without(vs[1..], v);
    }
  }

  /** Skipping `v` too. */
  lemma {:induction false} LoadSkip(m: map<VId, Vac>, vs: seq<VId>, skip: set<VId>, v: VId)
    requires Distinct(vs) && v in vs && v in m && v in skip
    ensures Load(m, vs, skip - {v}) == Load(m, vs, skip) + Weight(m[v])
  {
    if vs[0] == v {
      LoadSkipSame(m, vs[1..], skip, skip - {v});
    } else {
      LoadSkip(m, vs[1..], skip, v);
    }
  }

  lemma {:induction false} LoadSkipSame(m: map<VId, Vac>, vs: seq<VId>, skip: set<VId>, skip': set<VId>)
    requires forall v :: v in vs ==> (v in skip <==> v in skip')
    ensures Load(m, vs, skip) == Load(m, vs, skip')
  {
    if vs == [] {
    } else {
      LoadSkipSame(m, vs[1..], skip, skip');
    }
  }

  lemma {:induction false} LoadSkipAll(m: map<VId, Vac>, vs: seq<VId>, skip: set<VId>)
    requires forall v :: v in vs ==> v in skip
    ensures Load(m, vs, skip) == 0
  {
    if vs == [] {
    } else {
      LoadSkipAll(m, vs[1..], skip);
    }
  }

  /** Skipping more lowers the load when no weight is negative. */
  lemma {:induction false} LoadMonotone(m: map<VId, Vac>, vs: seq<VId>, skip: set<VId>)
    requires forall v :: v in vs && v in m ==> Weight(m[v]) >= 0
    ensures 0 <= Load(m, vs, skip) <= Load(m, vs, {})
  {
    if vs == [] {
    } else {
      LoadMonotone(m, vs[1..], skip);
    }
  }

  lemma {:induction false} LoadCovers(m: map<VId, Vac>, vs: seq<VId>, v: VId)
    requires forall u :: u in vs && u in m ==> Weight(m[u]) >= 0
    requires v in vs && v in m
    ensures Weight(m[v]) <= Load(m, vs, {})
  {
    LoadMonotone(m, vs[1..], {});
    if vs[0] == v {
    } else {
      LoadCovers(m, vs[1..], v);
    }
  }

  // ---- What every step keeps ----

  /** Each virtual accelerator is in one place, and its device says which. */
  ghost predicate Places(s: State) {
    && Distinct(s.orphans)
    && (forall v :: v in s.orphans ==> v in s.vacs && s.vacs[v].phys == None && v !in s.transit)
    && (forall v :: v in s.transit ==> v in s.vacs && s.vacs[v].phys == None)
    && (forall p :: p in s.accs ==> Distinct(s.accs[p].vacs))
    && (forall p, v :: p in s.accs && v in s.accs[p].vacs ==> v in s.vacs && s.vacs[v].phys == Some(p))
    && (forall v :: v in s.vacs && s.vacs[v].phys == None ==> v in s.orphans || v in s.transit)
    && (forall v :: v in s.vacs && s.vacs[v].phys.Some? ==>
          s.vacs[v].phys.value in s.accs && v in s.accs[s.vacs[v].phys.value].vacs)
  }

  /** A worker only scans what is assigned to it, and one that sleeps on a count that is not zero has a
      notification to wake it. */
  ghost predicate Attends(a: Acc) {
    && (a.worker.Scanning? ==> a.worker.rest <= Elements(a.vacs))
    && (a.worker.Asleep? && a.tasks != 0 ==> a.sem >= 1)
  }

  /** No queue holds more tasks than its capacity. */
  ghost predicate Fits(m: map<VId, Vac>) {
    forall v :: v in m ==> m[v].len <= m[v].capacity
  }

  ghost predicate Placed(s: State) {
    Places(s) && Fits(s.vacs) && forall p :: p in s.accs ==> Attends(s.accs[p])
  }

  /** The token the worker took and has not used. */
  function Held(w: Worker): nat {
    match w
    case Awake => 1
    case Scanning(_, token) => if token then 1 else 0
    case _ => 0
  }

  /** The tokens, with the one the worker holds, cover the announced tasks; while the worker scans with its
      token unused, those of the queues it has passed are covered without it. */
  ghost predicate Tokens(m: map<VId, Vac>, a: Acc) {
    && 0 <= a.tasks
    && Load(m, a.vacs, {}) <= a.tasks + Held(a.worker)
    && (a.worker.Scanning? && a.worker.token ==> Load(m, a.vacs, a.worker.rest) <= a.tasks)
  }

  ghost predicate Inv(s: State) {
    Placed(s) && forall p :: p in s.accs ==> Tokens(s.vacs, s.accs[p])
  }

  /** An un-assign finds enough tokens for `tasks -= (len - 1)`; both numbers can be read under the locks it
      holds. */
  ghost predicate Guarded(s: State, op: Op) {
    op.ScanUnassign? && Enabled(s, op) ==> s.vacs[op.v].len - 1 <= s.accs[op.p].tasks
  }

  lemma TokensSame(m: map<VId, Vac>, m': map<VId, Vac>, a: Acc)
    requires Tokens(m, a)
    requires forall v :: v in a.vacs ==> v in m && v in m' && Weight(m[v]) == Weight(m'[v])
    ensures Tokens(m', a)
  {
    hide Load;
    LoadSame(m, m', a.vacs, {});
    if a.worker.Scanning? { LoadSame(m, m', a.vacs, a.worker.rest); }
  }

  lemma UnassignTokens(m: map<VId, Vac>, m': map<VId, Vac>, a: Acc, v: VId)
    requires Tokens(m, a) && Distinct(a.vacs) && a.worker.Scanning? && v in a.vacs && v in m
    requires m[v].len > 0 && !m[v].submit.Pushed? && m[v].len - 1 <= a.tasks
    requires forall u :: u in a.vacs && u != v ==> u in m && u in m' && Weight(m[u]) == Weight(m'[u])
    ensures Tokens(m', Detach(a, v, m[v].len).(worker := Scanning(a.worker.rest - {v}, false)))
  {
    hide Load;
    var vs := Without(a.vacs, v);
    WithoutElements(a.vacs, v);
    LoadWithout(m, a.vacs, {}, v);
    LoadSame(m, m', vs, {});
  }

  /** Too few tokens for an un-assign: the task of another queue of the device was popped before its
      submitter raised the count. */
  lemma ShortageNeedsEarlyPop(m: map<VId, Vac>, a: Acc, v: VId)
    requires Tokens(m, a) && a.worker.Scanning? && v in a.vacs && v in m
    requires !m[v].submit.Pushed? && m[v].len - 1 > a.tasks
    ensures exists u :: u in a.vacs && u != v && u in m && m[u].len == 0 && m[u].submit.Pushed?
  {
    hide Load;
    if forall u :: u in a.vacs && u in m ==> Weight(m[u]) >= 0 {
      LoadCovers(m, a.vacs, v);
    } else {
      var u :| u in a.vacs && u in m && Weight(m[u]) < 0;
      assert m[u].len == 0 && m[u].submit.Pushed? && u != v;
    }
  }

  lemma DestroyTokens(m: map<VId, Vac>, m': map<VId, Vac>, a: Acc, v: VId)
    requires Tokens(m, a) && Distinct(a.vacs) && v in a.vacs && v in m && Weight(m[v]) == 0
    requires a.worker.Scanning? ==> v !in a.worker.rest
    requires forall u :: u in a.vacs && u != v ==> u in m && u in m' && Weight(m[u]) == Weight(m'[u])
    ensures Tokens(m', Detach(a, v, 0))
  {
    hide Load;
    var vs := Without(a.vacs, v);
    WithoutElements(a.vacs, v);
    LoadWithout(m, a.vacs, {}, v);
    LoadSame(m, m', vs, {});
    if a.worker.Scanning? {
      LoadWithout(m, a.vacs, a.worker.rest, v);
      LoadSame(m, m', vs, a.worker.rest);
    }
  }

  lemma AttachTokens(m: map<VId, Vac>, m': map<VId, Vac>, a: Acc, v: VId)
    requires Tokens(m, a) && v !in a.vacs && v in m && v in m' && !m[v].submit.Pushed?
    requires a.worker.Scanning? ==> v !in a.worker.rest
    requires Weight(m'[v]) == Weight(m[v])
    requires forall u :: u in a.vacs ==> u in m && u in m' && Weight(m[u]) == Weight(m'[u])
    ensures Tokens(m', Join(a, v, m[v].len))
  {
    var vs := [v] + a.vacs;
    assert vs[1..] == a.vacs;
    LoadSame(m, m', a.vacs, {});
    if a.worker.Scanning? { LoadSame(m, m', a.vacs, a.worker.rest); }
  }

  lemma AnnounceTokens(m: map<VId, Vac>, a: Acc, v: VId, x: Vac)
    requires Tokens(m, a) && Distinct(a.vacs) && v in a.vacs && v in m && Weight(x) == Weight(m[v]) + 1
    ensures Tokens(m[v := x], AddToken(a))
  {
    hide Load;
    LoadUpdate(m, a.vacs, {}, v, x);
    if a.worker.Scanning? {
      if v in a.worker.rest {
        LoadSame(m, m[v := x], a.vacs, a.worker.rest);
      } else {
        LoadUpdate(m, a.vacs, a.worker.rest, v, x);
      }
    }
  }

  lemma RunTokens(m: map<VId, Vac>, a: Acc, v: VId, x: Vac)
    requires Tokens(m, a) && Distinct(a.vacs) && v in a.vacs && v in m && Weight(x) == Weight(m[v]) - 1
    ensures Tokens(m[v := x], a.(worker := Running))
  {
    hide Load;
    LoadUpdate(m, a.vacs, {}, v, x);
  }

  /** Steps that only the worker of `p` and its tokens take part in. */
  lemma WorkerTokens(m: map<VId, Vac>, a: Acc)
    requires Tokens(m, a)
    ensures Tokens(m, AddToken(a))
    ensures a.worker.Idle? ==> Tokens(m, a.(worker := Asleep))
    ensures a.worker.Asleep? && a.sem >= 1 ==> Tokens(m, a.(sem := a.sem - 1, worker := Idle))
    ensures a.worker.Idle? && a.tasks != 0 ==> Tokens(m, a.(tasks := a.tasks - 1, worker := Awake))
    ensures a.worker.Awake? ==> Tokens(m, a.(worker := Scanning(Elements(a.vacs), true)))
    ensures a.worker.Scanning? && a.worker.rest == {} ==> Tokens(m, a.(worker := Idle))
    ensures a.worker.Running? ==> Tokens(m, a.(worker := Idle))
  {
    hide Load;
    LoadSkipAll(m, a.vacs, Elements(a.vacs));
  }

  lemma ScanEmptyTokens(m: map<VId, Vac>, a: Acc, v: VId)
    requires Tokens(m, a) && Distinct(a.vacs) && a.worker.Scanning? && v in a.worker.rest && v in a.vacs && v in m
    requires m[v].len == 0
    ensures Tokens(m, a.(worker := a.worker.(rest := a.worker.rest - {v})))
  {
    hide Load;
    LoadSkip(m, a.vacs, a.worker.rest, v);
  }

  lemma DestroyPlaces(s: State, v: VId)
    requires Places(s) && Unused(s, v)
    ensures Places(Step(s, Destroy(v)))
  {
    if s.vacs[v].phys.Some? {
      DestroyAssigned(s, v, s.vacs[v].phys.value);
    } else {
      DestroyOrphan(s, v);
    }
  }

  lemma DestroyAssigned(s: State, v: VId, p: PId)
    requires Places(s) && Unused(s, v) && s.vacs[v].phys == Some(p)
    ensures Places(Step(s, Destroy(v)))
  {
    hide Without, Distinct;
    WithoutElements(s.accs[p].vacs, v);
  }

  lemma DestroyOrphan(s: State, v: VId)
    requires Places(s) && Unused(s, v) && s.vacs[v].phys == None
    ensures Places(Step(s, Destroy(v)))
  {
    hide Without, Distinct;
    WithoutElements(s.orphans, v);
  }

  lemma AttachPlaces(s: State, p: PId, v: VId)
    requires Places(s) && Enabled(s, Attach(p, v))
    ensures Places(Step(s, Attach(p, v)))
  {
    hide Distinct;
    assert v !in s.accs[p].vacs;
    DistinctCons(v, s.accs[p].vacs);
  }

  lemma DistinctCons(v: VId, vs: seq<VId>)
    ensures Distinct([v] + vs) <==> Distinct(vs) && v !in vs
    ensures forall u :: u in [v] + vs <==> u == v || u in vs
  {
    var ws := [v] + vs;
    assert ws[0] == v && forall i :: 0 <= i < |vs| ==> ws[i + 1] == vs[i];
  }

  lemma UnassignPlaces(s: State, p: PId, v: VId)
    requires Places(s) && Enabled(s, ScanUnassign(p, v)) && s.vacs[v].phys == Some(p)
    ensures Places(Step(s, ScanUnassign(p, v)))
  {
    hide Without, Distinct;
    WithoutElements(s.accs[p].vacs, v);
  }

  lemma OrphanPlaces(s: State, op: Op)
    requires Places(s) && Enabled(s, op)
    requires op.AddOrphan? || op.GetOrphan? || op.RemoveOrphan? || op.Create?
    ensures Places(Step(s, op))
  {
    hide Distinct, Without;
    match op
    case AddOrphan(v) => DistinctCons(v, s.orphans);
    case GetOrphan =>
      assert s.orphans == [s.orphans[0]] + s.orphans[1..];
      DistinctCons(s.orphans[0], s.orphans[1..]);
    case RemoveOrphan(v) => WithoutElements(s.orphans, v);
    case Create(v, _) =>
  }

  /** Same lists, same devices, same owners. */
  ghost predicate SamePlaces(s: State, s': State) {
    && s'.orphans == s.orphans && s'.transit == s.transit
    && s'.accs.Keys == s.accs.Keys && (forall p :: p in s.accs ==> s'.accs[p].vacs == s.accs[p].vacs)
    && s'.vacs.Keys == s.vacs.Keys && (forall v :: v in s.vacs ==> s'.vacs[v].phys == s.vacs[v].phys)
  }

  lemma PlacesSame(s: State, s': State)
    requires Places(s) && SamePlaces(s, s')
    ensures Places(s')
  {
    assert forall p :: p in s'.accs ==> p in s.accs;
    assert forall v :: v in s'.vacs ==> v in s.vacs;
  }

  ghost predicate Quiet(op: Op) {
    && !op.AddOrphan? && !op.GetOrphan? && !op.RemoveOrphan? && !op.Create?
    && !op.Attach? && !op.Destroy? && !op.ScanUnassign?
  }

  lemma QuietPlaces(s: State, op: Op)
    requires Enabled(s, op) && Quiet(op)
    ensures SamePlaces(s, Step(s, op))
  {
  }

  /** A worker only scans what is assigned to it. */
  lemma ScannedIsAssigned(s: State, p: PId, v: VId)
    requires Placed(s) && ScansNext(s, p, v)
    ensures v in s.accs[p].vacs && s.vacs[v].phys == Some(p)
  {
    assert Attends(s.accs[p]);
  }

  lemma StepPlaces(s: State, op: Op)
    requires Placed(s) && Enabled(s, op)
    ensures Places(Step(s, op))
  {
    hide Step, Places, Enabled, SamePlaces;
    match op
    case Destroy(v) => DestroyEnabled(s, v); DestroyPlaces(s, v);
    case Attach(p, v) => AttachPlaces(s, p, v);
    case ScanUnassign(p, v) => UnassignEnabled(s, p, v); ScannedIsAssigned(s, p, v); UnassignPlaces(s, p, v);
    case AddOrphan(_) => OrphanPlaces(s, op);
    case GetOrphan => OrphanPlaces(s, op);
    case RemoveOrphan(_) => OrphanPlaces(s, op);
    case Create(_, _) => OrphanPlaces(s, op);
    case _ => QuietPlaces(s, op); PlacesSame(s, Step(s, op));
  }

  lemma DestroyEnabled(s: State, v: VId)
    requires Enabled(s, Destroy(v))
    ensures Unused(s, v)
  {
  }

  lemma UnassignEnabled(s: State, p: PId, v: VId)
    requires Enabled(s, ScanUnassign(p, v))
    ensures ScansNext(s, p, v)
  {
  }

  lemma StepAttends(s: State, op: Op, q: PId)
    requires Placed(s) && Enabled(s, op) && q in Step(s, op).accs
    ensures q in s.accs && Attends(Step(s, op).accs[q])
  {
    hide Without, Places;
    assert q in s.accs && Attends(s.accs[q]);
    match op
    case Destroy(v) => DestroyEnabled(s, v); WithoutAttends(s, v, q);
    case ScanUnassign(p, v) => UnassignEnabled(s, p, v); WithoutAttends(s, v, q);
    case Attach(_, v) => DistinctCons(v, s.accs[q].vacs);
    case _ =>
  }

  lemma WithoutAttends(s: State, v: VId, q: PId)
    requires Placed(s) && q in s.accs
    ensures forall u :: u in Without(s.accs[q].vacs, v) <==> u in s.accs[q].vacs && u != v
  {
    WithoutElements(s.accs[q].vacs, v);
  }

  lemma StepFits(s: State, op: Op)
    requires Fits(s.vacs) && Enabled(s, op)
    ensures Fits(Step(s, op).vacs)
  {
  }

  /** Every step keeps each virtual accelerator in one place. */
  lemma StepPlaced(s: State, op: Op)
    requires Placed(s) && Enabled(s, op)
    ensures Placed(Step(s, op))
  {
    hide Step, Places, Attends, Enabled, Fits;
    StepPlaces(s, op);
    StepFits(s, op);
    forall q | q in Step(s, op).accs ensures Attends(Step(s, op).accs[q]) {
      StepAttends(s, op, q);
    }
  }

  /** What the invariant says about one device. */
  lemma DeviceFacts(s: State, q: PId)
    requires Inv(s) && q in s.accs
    ensures Tokens(s.vacs, s.accs[q]) && Distinct(s.accs[q].vacs)
    ensures Placed(s) && Attends(s.accs[q])
    ensures forall v :: v in s.accs[q].vacs ==> v in s.vacs && s.vacs[v].phys == Some(q)
    ensures forall v :: v in s.vacs && s.vacs[v].phys == Some(q) ==> v in s.accs[q].vacs
  {
    hide Tokens;
  }

  lemma AssignmentTokens(s: State, op: Op, q: PId)
    requires Inv(s) && Enabled(s, op) && (op.Destroy? || op.Attach?) && q in Step(s, op).accs
    ensures Tokens(Step(s, op).vacs, Step(s, op).accs[q])
  {
    DeviceFacts(s, q);
    TransitHasNoDevice(s);
    hide Tokens, Inv;
    var s', a := Step(s, op), s.accs[q];
    match op
    case Destroy(v) =>
      if s.vacs[v].phys == Some(q) { DestroyTokens(s.vacs, s'.vacs, a, v); } else { TokensSame(s.vacs, s'.vacs, a); }
    case Attach(p, v) =>
      if p == q { AttachTokens(s.vacs, s'.vacs, a, v); } else { TokensSame(s.vacs, s'.vacs, a); }
  }

  lemma TransitHasNoDevice(s: State)
    requires Inv(s)
    ensures forall v :: v in s.transit ==> v in s.vacs && s.vacs[v].phys == None
  {
    hide Tokens;
  }

  lemma SubmitTokens(s: State, op: Op, q: PId)
    requires Inv(s) && Enabled(s, op) && q in Step(s, op).accs
    requires op.SubmitLock? || op.SubmitPush? || op.SubmitAnnounce? || op.Create?
    ensures Tokens(Step(s, op).vacs, Step(s, op).accs[q])
  {
    hide Tokens, Inv;
    DeviceFacts(s, q);
    var s', a := Step(s, op), s.accs[q];
    if op.SubmitAnnounce? && s.vacs[op.v].phys == Some(q) {
      AnnounceTokens(s.vacs, a, op.v, s'.vacs[op.v]);
    } else {
      TokensSame(s.vacs, s'.vacs, a);
    }
  }

  lemma ScanTokens(s: State, op: Op, q: PId)
    requires Inv(s) && Enabled(s, op) && Guarded(s, op) && q in Step(s, op).accs
    requires op.ScanRun? || op.ScanUnassign? || op.ScanEmpty?
    ensures Tokens(Step(s, op).vacs, Step(s, op).accs[q])
  {
    hide Tokens, Inv;
    DeviceFacts(s, q);
    ScannedIsAssigned(s, op.p, op.v);
    var s', a := Step(s, op), s.accs[q];
    if op.p != q {
      TokensSame(s.vacs, s'.vacs, a);
    } else {
      match op
      case ScanRun(_, v) => RunTokens(s.vacs, a, v, s'.vacs[v]);
      case ScanUnassign(_, v) => UnassignTokens(s.vacs, s'.vacs, a, v);
      case ScanEmpty(_, v) => ScanEmptyTokens(s.vacs, a, v);
    }
  }

  /** The tokens of every device after a step. */
  lemma StepTokens(s: State, op: Op, q: PId)
    requires Inv(s) && Enabled(s, op) && Guarded(s, op) && q in Step(s, op).accs
    ensures Tokens(Step(s, op).vacs, Step(s, op).accs[q])
  {
    if op.Destroy? || op.Attach? {
      AssignmentTokens(s, op, q);
    } else if op.SubmitLock? || op.SubmitPush? || op.SubmitAnnounce? || op.Create? {
      SubmitTokens(s, op, q);
    } else if op.ScanRun? || op.ScanUnassign? || op.ScanEmpty? {
      ScanTokens(s, op, q);
    } else {
      QuietTokens(s, op, q);
    }
  }

  lemma QuietTokens(s: State, op: Op, q: PId)
    requires Inv(s) && Enabled(s, op) && q in Step(s, op).accs
    requires op.AddOrphan? || op.GetOrphan? || op.RemoveOrphan? || op.Poke? || op.Wait? || op.Block? || op.Wake?
      || op.Snapshot? || op.ScanDone? || op.Finish?
    ensures Tokens(Step(s, op).vacs, Step(s, op).accs[q])
  {
    hide Tokens, Inv;
    DeviceFacts(s, q);
    WorkerTokens(s.vacs, s.accs[q]);
  }

  /** A step keeps places, tokens and loads right exactly when it is no un-assign that finds too few tokens. */
  lemma StepInvIff(s: State, op: Op)
    requires Inv(s) && Enabled(s, op)
    ensures Inv(Step(s, op)) <==> Guarded(s, op)
  {
    hide Tokens, Placed, Step, Guarded, Enabled;
    if Guarded(s, op) {
      StepPlaced(s, op);
      forall q | q in Step(s, op).accs ensures Tokens(Step(s, op).vacs, Step(s, op).accs[q]) {
        StepTokens(s, op, q);
      }
    } else {
      Underflow(s, op);
    }
  }

  lemma Underflow(s: State, op: Op)
    requires Enabled(s, op) && !Guarded(s, op)
    ensures op.ScanUnassign? && op.p in Step(s, op).accs && Step(s, op).accs[op.p].tasks < 0
    ensures !Inv(Step(s, op))
  {
    hide Load;
    assert op.ScanUnassign? && Step(s, op).accs[op.p].tasks < 0;
    assert Inv(Step(s, op)) ==> Tokens(Step(s, op).vacs, Step(s, op).accs[op.p]);
  }

  // ---- Whole runs ----

  ghost function Init(devices: set<PId>): State {
    State(map[], map p | p in devices :: Acc(0, 0, [], Idle), [], {})
  }

  /** The state after `ops`; with `guarded`, only if their un-assigns find enough tokens. */
  ghost function Continue(s0: State, ops: seq<Op>, guarded: bool): Option<State> {
    if ops == [] then Some(s0)
    else
      var last := |ops| - 1;
      match Continue(s0, ops[..last], guarded)
      case None => None
      case Some(s) =>
        if Enabled(s, ops[last]) && (guarded ==> Guarded(s, ops[last])) then Some(Step(s, ops[last])) else None
  }

  ghost function Run(devices: set<PId>, ops: seq<Op>, guarded: bool): Option<State> {
    Continue(Init(devices), ops, guarded)
  }

  lemma {:induction false} RunInv(devices: set<PId>, ops: seq<Op>)
    requires Run(devices, ops, true).Some?
    ensures Inv(Run(devices, ops, true).value)
  {
    if ops == [] {
      assert Inv(Init(devices));
    } else {
      var last := |ops| - 1;
      RunInv(devices, ops[..last]);
      StepInvIff(Run(devices, ops[..last], true).value, ops[last]);
    }
  }

  lemma {:induction false} RunPlaced(devices: set<PId>, ops: seq<Op>)
    requires Run(devices, ops, false).Some?
    ensures Placed(Run(devices, ops, false).value)
  {
    if ops == [] {
      assert Placed(Init(devices));
    } else {
      var last := |ops| - 1;
      RunPlaced(devices, ops[..last]);
      StepPlaced(Run(devices, ops[..last], false).value, ops[last]);
    }
  }

  /** In every run each virtual accelerator is in exactly one place, the list of its device if it has one,
      and otherwise the orphan list or the hands of one thread; it is in that list once. */
  lemma OnePlace(devices: set<PId>, ops: seq<Op>, v: VId, p: PId, q: PId)
    requires Run(devices, ops, false).Some?
    requires v in Run(devices, ops, false).value.vacs
    requires p in Run(devices, ops, false).value.accs && q in Run(devices, ops, false).value.accs
    ensures var s := Run(devices, ops, false).value;
      && (v in s.accs[p].vacs <==> s.vacs[v].phys == Some(p))
      && (s.vacs[v].phys == None <==> v in s.orphans || v in s.transit)
      && !(v in s.orphans && v in s.transit)
      && (v in s.accs[p].vacs && v in s.accs[q].vacs ==> p == q)
      && Distinct(s.accs[p].vacs) && Distinct(s.orphans)
  {
    hide Run, Attends;
    RunPlaced(devices, ops);
  }

  /** No worker sleeps on a count that is not zero without a notification to wake it, in any run. */
  lemma SleeperIsNotified(devices: set<PId>, ops: seq<Op>, p: PId)
    requires Run(devices, ops, false).Some? && p in Run(devices, ops, false).value.accs
    ensures var a := Run(devices, ops, false).value.accs[p];
      a.worker.Asleep? && a.sem == 0 ==> a.tasks == 0
  {
    hide Run, Places;
    RunPlaced(devices, ops);
    assert Attends(Run(devices, ops, false).value.accs[p]);
  }

  /** In every run whose un-assigns find enough tokens, a worker that sleeps with no notification left has at
      most as many tasks in its queues as there are submitters about to raise the count; with none of those,
      all its queues are empty. */
  lemma NoLostWakeup(devices: set<PId>, ops: seq<Op>, p: PId)
    requires Run(devices, ops, true).Some?
    requires var s := Run(devices, ops, true).value;
      p in s.accs && s.accs[p].worker.Asleep? && s.accs[p].sem == 0
    ensures var s := Run(devices, ops, true).value;
      && (forall v :: v in s.accs[p].vacs <==> v in s.vacs && s.vacs[v].phys == Some(p))
      && Load(s.vacs, s.accs[p].vacs, {}) <= 0
      && ((forall v :: v in s.accs[p].vacs ==> !s.vacs[v].submit.Pushed?) ==>
            forall v :: v in s.accs[p].vacs ==> s.vacs[v].len == 0)
  {
    hide Load, Run, Inv;
    RunInv(devices, ops);
    var s := Run(devices, ops, true).value;
    DeviceFacts(s, p);
    if forall v :: v in s.accs[p].vacs ==> !s.vacs[v].submit.Pushed? {
      forall v | v in s.accs[p].vacs ensures s.vacs[v].len == 0 {
        LoadCovers(s.vacs, s.accs[p].vacs, v);
      }
    }
  }

  /** ... and `tasks -= (len - 1)` makes the unsigned count wrap around only while the task of another queue
      of that device was popped ahead of its announcement. */
  lemma WrapNeedsEarlyPop(devices: set<PId>, ops: seq<Op>, p: PId, v: VId)
    requires Run(devices, ops, true).Some?
    requires Enabled(Run(devices, ops, true).value, ScanUnassign(p, v))
    requires !Guarded(Run(devices, ops, true).value, ScanUnassign(p, v))
    ensures var s := Run(devices, ops, true).value;
      exists u :: u in s.accs[p].vacs && u != v && u in s.vacs && s.vacs[u].len == 0 && s.vacs[u].submit.Pushed?
  {
    hide Load, Run, Inv, Tokens;
    RunInv(devices, ops);
    var s := Run(devices, ops, true).value;
    DeviceFacts(s, p);
    ScannedIsAssigned(s, p, v);
    ShortageNeedsEarlyPop(s.vacs, s.accs[p], v);
  }

  ghost predicate CountsNonNegative(s: State) {
    forall p :: p in s.accs ==> s.accs[p].tasks >= 0
  }

  /** A run never makes a count wrap around exactly when each of its un-assigns finds enough tokens; any run
      without an un-assign is one. */
  lemma {:induction false} NeverWrapsIff(devices: set<PId>, ops: seq<Op>)
    requires Run(devices, ops, false).Some?
    ensures forall k :: 0 <= k <= |ops| ==> Run(devices, ops[..k], false).Some?
    ensures (forall k :: 0 <= k <= |ops| ==> CountsNonNegative(Run(devices, ops[..k], false).value))
      <==> Run(devices, ops, true).Some?
    ensures Run(devices, ops, true).Some? ==> Run(devices, ops, true) == Run(devices, ops, false)
    ensures (forall op :: op in ops ==> !op.ScanUnassign?) ==> Run(devices, ops, true).Some?
  {
    hide Step, Enabled, Guarded, Inv;
    assert ops[..|ops|] == ops;
    if Run(devices, ops, true).Some? { RunInv(devices, ops); CountsOfInv(Run(devices, ops, true).value); }
    if ops == [] {
    } else {
      var last := |ops| - 1;
      var init := ops[..last];
      NeverWrapsIff(devices, init);
      assert forall k :: 0 <= k <= last ==> init[..k] == ops[..k];
      var s := Run(devices, init, false).value;
      UnassignOnly(s, ops[last]);
      if !Guarded(s, ops[last]) { Underflow(s, ops[last]); }
    }
  }

  lemma UnassignOnly(s: State, op: Op)
    ensures !op.ScanUnassign? ==> Guarded(s, op)
  {
  }

  lemma CountsOfInv(s: State)
    requires Inv(s)
    ensures CountsNonNegative(s)
  {
    hide Load, Placed;
    forall p | p in s.accs ensures s.accs[p].tasks >= 0 { assert Tokens(s.vacs, s.accs[p]); }
  }

  // ---- A submitter that waits for room ----

  lemma GoOn(s0: State, ops: seq<Op>, s: State, op: Op) returns (ops': seq<Op>, s': State)
    requires Continue(s0, ops, false) == Some(s) && Enabled(s, op)
    ensures Continue(s0, ops', false) == Some(s') && s' == Step(s, op) && ops' == ops + [op]
  {
    ops', s' := ops + [op], Step(s, op);
    assert ops'[..|ops|] == ops;
  }

  /** The submitter spins on a full queue, and holds the lock that assigning it would need. */
  ghost predicate Jammed(s: State, v: VId) {
    && v in s.vacs && s.vacs[v].submit.Waiting? && s.vacs[v].phys == None
    && s.vacs[v].len == s.vacs[v].capacity
  }

  lemma JammedStays(s: State, op: Op, v: VId)
    requires Placed(s) && Jammed(s, v) && Enabled(s, op)
    ensures Jammed(Step(s, op), v)
  {
    if op.ScanRun? && op.v == v { ScannedIsAssigned(s, op.p, v); }
  }

  lemma {:induction false} JammedForever(s0: State, ops: seq<Op>, v: VId)
    requires Placed(s0) && Jammed(s0, v) && Continue(s0, ops, false).Some?
    ensures var s := Continue(s0, ops, false).value; Placed(s) && Jammed(s, v)
  {
    hide Placed, Jammed, Step, Enabled;
    if ops == [] {
    } else {
      var last := |ops| - 1;
      JammedForever(s0, ops[..last], v);
      JammedStays(Continue(s0, ops[..last], false).value, ops[last], v);
      StepPlaced(Continue(s0, ops[..last], false).value, ops[last]);
    }
  }

  /** A step of a call that is under way or of a worker that takes tasks. */
  predicate Ongoing(op: Op) {
    op.SubmitPush? || op.SubmitAnnounce? || op.Wait? || op.Wake? || op.Snapshot?
    || op.ScanEmpty? || op.ScanRun? || op.ScanDone? || op.Finish?
  }

  predicate AllOngoing(ops: seq<Op>) {
    forall op :: op in ops ==> Ongoing(op)
  }

  ghost predicate Freed(s0: State, ops: seq<Op>, v: VId) {
    && AllOngoing(ops) && Continue(s0, ops, false).Some?
    && v in Continue(s0, ops, false).value.vacs
    && !Continue(s0, ops, false).value.vacs[v].submit.Waiting?
  }

  /** A submitter waits on the full queue of `v`, assigned to `p`, and every other task is announced. */
  ghost predicate CanDrain(s: State, p: PId, v: VId) {
    && Inv(s) && p in s.accs && v in s.vacs && s.vacs[v].phys == Some(p)
    && s.vacs[v].submit.Waiting? && s.vacs[v].len == s.vacs[v].capacity > 0
    && forall u :: u in s.vacs ==> !s.vacs[u].submit.Pushed?
  }

  lemma StaysDrainable(s: State, op: Op, p: PId, v: VId)
    requires CanDrain(s, p, v) && Enabled(s, op) && Ongoing(op) && !op.SubmitPush? && !op.SubmitAnnounce?
    requires op.ScanRun? ==> op.v != v
    ensures CanDrain(Step(s, op), p, v)
  {
    hide Inv;
    StepInvIff(s, op);
  }

  /** The worker has tokens for the full queue. */
  lemma HasTokens(s: State, p: PId, v: VId)
    requires CanDrain(s, p, v) && (s.accs[p].worker.Idle? || s.accs[p].worker.Asleep?)
    ensures s.accs[p].tasks > 0 && (s.accs[p].worker.Asleep? ==> s.accs[p].sem >= 1)
    ensures v in s.accs[p].vacs
  {
    hide Inv, Load;
    DeviceFacts(s, p);
    LoadCovers(s.vacs, s.accs[p].vacs, v);
  }

  /** A worker whose scan has `v` before it takes a task, and the submitter pushes. */
  lemma DrainFromScan(s0: State, ops: seq<Op>, s: State, p: PId, v: VId) returns (ops': seq<Op>)
    requires Continue(s0, ops, false) == Some(s) && AllOngoing(ops) && CanDrain(s, p, v)
    requires s.accs[p].worker.Scanning? && v in s.accs[p].worker.rest
    ensures Freed(s0, ops', v)
  {
    hide Continue, Inv;
    var s';
    ops', s' := GoOn(s0, ops, s, ScanRun(p, v));
    ops', s' := GoOn(s0, ops', s', SubmitPush(v));
  }

  lemma DrainFromAwake(s0: State, ops: seq<Op>, s: State, p: PId, v: VId) returns (ops': seq<Op>)
    requires Continue(s0, ops, false) == Some(s) && AllOngoing(ops) && CanDrain(s, p, v)
    requires s.accs[p].worker.Awake?
    ensures Freed(s0, ops', v)
  {
    hide Continue, Freed, CanDrain;
    DrainFacts(s, p, v);
    var s';
    ops', s' := GoOn(s0, ops, s, Snapshot(p));
    StaysDrainable(s, Snapshot(p), p, v);
    ops' := DrainFromScan(s0, ops', s', p, v);
  }

  lemma DrainFacts(s: State, p: PId, v: VId)
    requires CanDrain(s, p, v)
    ensures p in s.accs && v in s.vacs && v in s.accs[p].vacs && Inv(s)
  {
    DeviceFacts(s, p);
  }

  lemma DrainFromIdle(s0: State, ops: seq<Op>, s: State, p: PId, v: VId) returns (ops': seq<Op>)
    requires Continue(s0, ops, false) == Some(s) && AllOngoing(ops) && CanDrain(s, p, v)
    requires s.accs[p].worker.Idle? || s.accs[p].worker.Asleep?
    ensures Freed(s0, ops', v)
    decreases if s.accs[p].worker.Idle? then 0 else 1
  {
    hide Continue, Freed, CanDrain;
    DrainFacts(s, p, v);
    HasTokens(s, p, v);
    var s';
    if s.accs[p].worker.Idle? {
      ops', s' := GoOn(s0, ops, s, Wait(p));
      StaysDrainable(s, Wait(p), p, v);
      ops' := DrainFromAwake(s0, ops', s', p, v);
    } else {
      ops', s' := GoOn(s0, ops, s, Wake(p));
      StaysDrainable(s, Wake(p), p, v);
      ops' := DrainFromIdle(s0, ops', s', p, v);
    }
  }

  lemma DrainFromRunning(s0: State, ops: seq<Op>, s: State, p: PId, v: VId) returns (ops': seq<Op>)
    requires Continue(s0, ops, false) == Some(s) && AllOngoing(ops) && CanDrain(s, p, v)
    requires s.accs[p].worker.Running?
    ensures Freed(s0, ops', v)
  {
    hide Continue, Freed, CanDrain;
    DrainFacts(s, p, v);
    var s';
    ops', s' := GoOn(s0, ops, s, Finish(p));
    StaysDrainable(s, Finish(p), p, v);
    ops' := DrainFromIdle(s0, ops', s', p, v);
  }

  /** A worker that scans finds `v`, or comes back to it. */
  lemma {:induction false} DrainFromScanning(s0: State, ops: seq<Op>, s: State, p: PId, v: VId)
    returns (ops': seq<Op>)
    requires Continue(s0, ops, false) == Some(s) && AllOngoing(ops) && CanDrain(s, p, v)
    requires s.accs[p].worker.Scanning?
    ensures Freed(s0, ops', v)
    decreases s.accs[p].worker.rest
  {
    hide Continue, Freed, CanDrain, Inv;
    DrainFacts(s, p, v);
    var s', rest := s, s.accs[p].worker.rest;
    if v in rest {
      ops' := DrainFromScan(s0, ops, s, p, v);
    } else if rest == {} {
      ops', s' := GoOn(s0, ops, s, ScanDone(p));
      StaysDrainable(s, ScanDone(p), p, v);
      ops' := DrainFromIdle(s0, ops', s', p, v);
    } else {
      var u :| u in rest;
      RestIsKnown(s, p, v, u);
      if s.vacs[u].len == 0 {
        ops', s' := GoOn(s0, ops, s, ScanEmpty(p, u));
        StaysDrainable(s, ScanEmpty(p, u), p, v);
        ops' := DrainFromScanning(s0, ops', s', p, v);
      } else {
        ops', s' := GoOn(s0, ops, s, ScanRun(p, u));
        StaysDrainable(s, ScanRun(p, u), p, v);
        ops' := DrainFromRunning(s0, ops', s', p, v);
      }
    }
  }

  lemma RestIsKnown(s: State, p: PId, v: VId, u: VId)
    requires CanDrain(s, p, v) && s.accs[p].worker.Scanning? && u in s.accs[p].worker.rest
    ensures u in s.vacs
  {
    hide Tokens;
    assert Attends(s.accs[p]);
  }

  lemma Drains(s0: State, ops: seq<Op>, s: State, p: PId, v: VId) returns (ops': seq<Op>)
    requires Continue(s0, ops, false) == Some(s) && AllOngoing(ops) && CanDrain(s, p, v)
    ensures Freed(s0, ops', v)
  {
    hide Continue, Freed, CanDrain;
    DrainFacts(s, p, v);
    match s.accs[p].worker
    case Idle => ops' := DrainFromIdle(s0, ops, s, p, v);
    case Asleep => ops' := DrainFromIdle(s0, ops, s, p, v);
    case Awake => ops' := DrainFromAwake(s0, ops, s, p, v);
    case Scanning(_, _) => ops' := DrainFromScanning(s0, ops, s, p, v);
    case Running => ops' := DrainFromRunning(s0, ops, s, p, v);
  }

  /** The submitters that have pushed raise their counts. */
  lemma {:induction false} AnnounceAll(s0: State, ops: seq<Op>, s: State, v: VId) returns (ops': seq<Op>, s': State)
    requires Continue(s0, ops, false) == Some(s) && AllOngoing(ops) && Inv(s)
    requires v in s.vacs && s.vacs[v].submit.Waiting?
    ensures Continue(s0, ops', false) == Some(s') && AllOngoing(ops') && Inv(s')
    ensures v in s'.vacs && s'.vacs[v] == s.vacs[v]
    ensures forall u :: u in s'.vacs ==> !s'.vacs[u].submit.Pushed?
    decreases set u | u in s.vacs && s.vacs[u].submit.Pushed?
  {
    hide Continue, Inv;
    ops', s' := ops, s;
    if u :| u in s.vacs && s.vacs[u].submit.Pushed? {
      StepInvIff(s, SubmitAnnounce(u));
      ops', s' := GoOn(s0, ops, s, SubmitAnnounce(u));
      FewerPushed(s, u);
      ops', s' := AnnounceAll(s0, ops', s', v);
    }
  }

  lemma FewerPushed(s: State, u: VId)
    requires u in s.vacs && s.vacs[u].submit.Pushed?
    ensures var s' := Step(s, SubmitAnnounce(u));
      (set x | x in s'.vacs && s'.vacs[x].submit.Pushed?) == (set x | x in s.vacs && s.vacs[x].submit.Pushed?) - {u}
  {
  }

  lemma PlacedOnDevice(s: State, v: VId)
    requires Inv(s) && v in s.vacs && s.vacs[v].phys.Some?
    ensures s.vacs[v].phys.value in s.accs
  {
  }

  /** A submitter that waits for room in a queue can get on, by steps of the calls under way and of a worker
      that takes tasks, if and only if the queue has room or is assigned to a device. If it is full and
      unassigned nothing can help: it holds the lock that assigning the queue would need. */
  lemma WaiterFreedIff(s: State, v: VId)
    requires Inv(s) && v in s.vacs && s.vacs[v].submit.Waiting? && s.vacs[v].capacity > 0
    ensures (exists ops :: Freed(s, ops, v)) <==> s.vacs[v].len < s.vacs[v].capacity || s.vacs[v].phys.Some?
    ensures Jammed(s, v) ==>
      forall ops :: Continue(s, ops, false).Some? ==> Jammed(Continue(s, ops, false).value, v)
  {
    hide Inv;
    InvIsPlaced(s);
    if Jammed(s, v) {
      forall ops | Continue(s, ops, false).Some? ensures Jammed(Continue(s, ops, false).value, v) {
        JammedForever(s, ops, v);
      }
    } else {
      var ops := FreesWaiter(s, v);
    }
  }

  lemma InvIsPlaced(s: State)
    requires Inv(s)
    ensures Placed(s) && Fits(s.vacs)
  {
  }

  lemma FreesWaiter(s: State, v: VId) returns (ops: seq<Op>)
    requires Inv(s) && v in s.vacs && s.vacs[v].submit.Waiting? && s.vacs[v].capacity > 0
    requires s.vacs[v].len < s.vacs[v].capacity || s.vacs[v].phys.Some?
    ensures Freed(s, ops, v)
  {
    hide Inv;
    InvIsPlaced(s);
    var s' := s;
    if s.vacs[v].len < s.vacs[v].capacity {
      ops, s' := GoOn(s, [], s, SubmitPush(v));
    } else {
      ops, s' := AnnounceAll(s, [], s, v);
      PlacedOnDevice(s', v);
      ops := Drains(s, ops, s', s.vacs[v].phys.value, v);
    }
  }

  /** That can happen at every capacity: a queue nobody has assigned yet fills up, and one more task is
      submitted. */
  lemma JamHappens(devices: set<PId>, n: nat) returns (ops: seq<Op>)
    ensures Run(devices, ops, false).Some? && Jammed(Run(devices, ops, false).value, 1)
  {
    hide Continue;
    var s;
    ops, s := FillQueue(devices, n, n);
    ops, s := GoOn(Init(devices), ops, s, SubmitLock(1));
  }

  lemma {:induction false} FillQueue(devices: set<PId>, n: nat, k: nat) returns (ops: seq<Op>, s: State)
    requires k <= n
    ensures Run(devices, ops, false) == Some(s) && 1 in s.vacs && s.vacs[1] == Vac(None, k, n, Absent)
  {
    hide Continue;
    if k == 0 {
      ContinueFrom(Init(devices));
      ops, s := GoOn(Init(devices), [], Init(devices), Create(1, n));
    } else {
      ops, s := FillQueue(devices, n, k - 1);
      ops, s := GoOn(Init(devices), ops, s, SubmitLock(1));
      ops, s := GoOn(Init(devices), ops, s, SubmitPush(1));
      ops, s := GoOn(Init(devices), ops, s, SubmitAnnounce(1));
    }
  }

  lemma ContinueFrom(s: State)
    ensures Continue(s, [], false) == Some(s)
  {
  }

  // ---- A pop before the announcement loses a wake-up ----

  lemma Extend(devices: set<PId>, ops: seq<Op>, s: State, op: Op) returns (ops': seq<Op>, s': State)
    requires Run(devices, ops, false) == Some(s) && Enabled(s, op)
    ensures Run(devices, ops', false) == Some(s') && s' == Step(s, op)
  {
    ops', s' := GoOn(Init(devices), ops, s, op);
  }

  /** Device `p` with the virtual accelerators 1 and 2. */
  ghost predicate Looks(s: State, p: PId, one: Vac, two: Vac, a: Acc) {
    s.vacs == map[1 := one, 2 := two] && p in s.accs && s.accs[p] == a
  }

  lemma BothAttached(devices: set<PId>, p: PId, n: nat) returns (ops: seq<Op>, s: State)
    requires p in devices && n >= 2
    ensures Run(devices, ops, false) == Some(s)
    ensures Looks(s, p, Vac(Some(p), 0, n, Absent), Vac(Some(p), 0, n, Absent), Acc(0, 0, [2, 1], Idle))
    ensures s.transit == {}
  {
    hide Run;
    InitRun(devices);
    ops, s := Extend(devices, [], Init(devices), Create(1, n));
    ops, s := Extend(devices, ops, s, Create(2, n));
    assert Looks(s, p, Vac(None, 0, n, Absent), Vac(None, 0, n, Absent), Acc(0, 0, [], Idle));
    ops, s := Extend(devices, ops, s, Attach(p, 1));
    assert [1] + [] == [1];
    ops, s := Extend(devices, ops, s, Attach(p, 2));
    assert [2] + [1] == [2, 1];
  }

  /** Two announced tasks in queue 1, none in queue 2, and the worker about to look at both. */
  lemma TwoTasksQueued(devices: set<PId>, p: PId, n: nat) returns (ops: seq<Op>, s: State)
    requires p in devices && n >= 2
    ensures Run(devices, ops, false) == Some(s)
    ensures Looks(s, p, Vac(Some(p), 2, n, Absent), Vac(Some(p), 0, n, Absent),
      Acc(1, 2, [2, 1], Scanning({1, 2}, true)))
    ensures s.transit == {}
  {
    hide Run;
    ops, s := BothAttached(devices, p, n);
    ops, s := Extend(devices, ops, s, SubmitLock(1));
    ops, s := Extend(devices, ops, s, SubmitPush(1));
    ops, s := Extend(devices, ops, s, SubmitAnnounce(1));
    assert Looks(s, p, Vac(Some(p), 1, n, Absent), Vac(Some(p), 0, n, Absent), Acc(1, 1, [2, 1], Idle));
    ops, s := Extend(devices, ops, s, SubmitLock(1));
    ops, s := Extend(devices, ops, s, SubmitPush(1));
    ops, s := Extend(devices, ops, s, SubmitAnnounce(1));
    assert Looks(s, p, Vac(Some(p), 2, n, Absent), Vac(Some(p), 0, n, Absent), Acc(2, 2, [2, 1], Idle));
    ops, s := TakeToken(devices, ops, s, p, [2, 1], {1, 2});
  }

  /** The worker takes a token and a snapshot. */
  lemma TakeToken(devices: set<PId>, ops: seq<Op>, s: State, p: PId, vs: seq<VId>, rest: set<VId>)
    returns (ops': seq<Op>, s': State)
    requires Run(devices, ops, false) == Some(s) && p in s.accs && s.accs[p].worker.Idle? && s.accs[p].tasks != 0
    requires s.accs[p].vacs == vs && forall v :: v in vs <==> v in rest
    ensures Run(devices, ops', false) == Some(s') && s'.vacs == s.vacs && s'.transit == s.transit
    ensures s'.accs == s.accs[p := Acc(s.accs[p].tasks - 1, s.accs[p].sem, vs, Scanning(rest, true))]
  {
    hide Run;
    ops', s' := Extend(devices, ops, s, Wait(p));
    ops', s' := Extend(devices, ops', s', Snapshot(p));
    assert Elements(vs) == rest;
  }

  lemma InitRun(devices: set<PId>)
    ensures Run(devices, [], false) == Some(Init(devices))
    ensures forall p :: p in devices ==> p in Init(devices).accs && Init(devices).accs[p] == Acc(0, 0, [], Idle)
  {
  }

  lemma PopsUnannounced(devices: set<PId>, p: PId, n: nat) returns (ops: seq<Op>, s: State)
    requires p in devices && n >= 2
    ensures Run(devices, ops, false) == Some(s)
    ensures Looks(s, p, Vac(Some(p), 2, n, Absent), Vac(Some(p), 0, n, Pushed), Acc(1, 2, [2, 1], Idle))
    ensures s.transit == {}
  {
    hide Run, Without;
    ops, s := TwoTasksQueued(devices, p, n);
    ops, s := Extend(devices, ops, s, SubmitLock(2));
    ops, s := Extend(devices, ops, s, SubmitPush(2));
    ops, s := Extend(devices, ops, s, ScanRun(p, 2));
    ops, s := Extend(devices, ops, s, Finish(p));
  }

  /** The worker of any device runs a task of queue 2 before its submitter raises the count, and then
      un-assigns queue 1: the count wraps around. */
  lemma CountWraps(devices: set<PId>, p: PId, n: nat) returns (ops: seq<Op>, s: State)
    requires p in devices && n >= 2
    ensures Run(devices, ops, false) == Some(s)
    ensures Looks(s, p, Vac(None, 2, n, Absent), Vac(Some(p), 0, n, Pushed), Acc(-1, 3, [2], Scanning({2}, false)))
    ensures s.transit == {1}
  {
    hide Run;
    ops, s := PopsUnannounced(devices, p, n);
    ops, s := TakeToken(devices, ops, s, p, [2, 1], {1, 2});
    assert Looks(s, p, Vac(Some(p), 2, n, Absent), Vac(Some(p), 0, n, Pushed),
      Acc(0, 2, [2, 1], Scanning({1, 2}, true)));
    assert [2, 1][1..] == [1] && Without([1], 1) == [] && Without([2, 1], 1) == [2];
    ops, s := Extend(devices, ops, s, ScanUnassign(p, 1));
    assert {1, 2} - {1} == {2};
  }

  /** The worker finds queue 2 empty and goes back to wait. */
  lemma FindsNothing(devices: set<PId>, ops: seq<Op>, s: State, p: PId) returns (ops': seq<Op>, s': State)
    requires Run(devices, ops, false) == Some(s) && p in s.accs && s.accs[p].worker.Scanning?
    requires s.accs[p].worker.rest == {2} && 2 in s.vacs && s.vacs[2].len == 0
    ensures Run(devices, ops', false) == Some(s') && s'.vacs == s.vacs && s'.transit == s.transit
    ensures s'.accs == s.accs[p := s.accs[p].(worker := Idle)]
  {
    hide Run;
    ops', s' := Extend(devices, ops, s, ScanEmpty(p, 2));
    assert {2} - {2} == {};
    ops', s' := Extend(devices, ops', s', ScanDone(p));
  }

  /** A worker that finds no token goes to sleep, and again after each notification that is left. */
  lemma {:induction false} SleepsIn(devices: set<PId>, ops: seq<Op>, s: State, p: PId)
    returns (ops': seq<Op>, s': State)
    requires Run(devices, ops, false) == Some(s) && p in s.accs && s.accs[p].worker.Idle? && s.accs[p].tasks == 0
    ensures Run(devices, ops', false) == Some(s') && s'.vacs == s.vacs && s'.transit == s.transit
    ensures s'.accs == s.accs[p := s.accs[p].(sem := 0, worker := Asleep)]
    decreases s.accs[p].sem
  {
    hide Run;
    ops', s' := Extend(devices, ops, s, Block(p));
    if s.accs[p].sem == 0 {
    } else {
      ops', s' := Extend(devices, ops', s', Wake(p));
      ops', s' := SleepsIn(devices, ops', s', p);
    }
  }

  /** After such a wrap-around a wake-up can be lost: on any device, for queues of any capacity above one, there
      is a run after which the worker sleeps with no notification left, no thread is in the middle of a
      submission or of an assignment, and a queue assigned to it holds a task. */
  lemma EarlyPopLosesWakeup(devices: set<PId>, p: PId, n: nat) returns (ops: seq<Op>)
    requires p in devices && n >= 2
    ensures Run(devices, ops, false).Some?
    ensures var s := Run(devices, ops, false).value;
      && p in s.accs && s.accs[p].worker.Asleep? && s.accs[p].sem == 0 && s.accs[p].tasks == 0
      && s.transit == {} && (forall v :: v in s.vacs ==> s.vacs[v].submit.Absent?)
      && 2 in s.vacs && s.vacs[2] == Vac(Some(p), 1, n, Absent)
  {
    hide Run;
    var s;
    ops, s := CountWraps(devices, p, n);
    ops, s := Extend(devices, ops, s, AddOrphan(1));
    ops, s := FindsNothing(devices, ops, s, p);
    assert Looks(s, p, Vac(None, 2, n, Absent), Vac(Some(p), 0, n, Pushed), Acc(-1, 3, [2], Idle));
    ops, s := TakeToken(devices, ops, s, p, [2], {2});
    ops, s := FindsNothing(devices, ops, s, p);
    assert Looks(s, p, Vac(None, 2, n, Absent), Vac(Some(p), 0, n, Pushed), Acc(-2, 3, [2], Idle));
    ops, s := Extend(devices, ops, s, SubmitAnnounce(2));
    ops, s := Extend(devices, ops, s, SubmitLock(2));
    ops, s := Extend(devices, ops, s, SubmitPush(2));
    ops, s := Extend(devices, ops, s, SubmitAnnounce(2));
    assert Looks(s, p, Vac(None, 2, n, Absent), Vac(Some(p), 1, n, Absent), Acc(0, 5, [2], Idle));
    ops, s := SleepsIn(devices, ops, s, p);
  }
}
