/** What the operations of a run say about its state: every task pushed is run or still queued, every token
    is accounted for, and lists are in the order of their additions. */
module WakeupLaws {
  import opened MapSum
  import opened Options
  import opened Sequences
  import opened Wakeup

  /** How many operations satisfy `f`. */
  ghost function CountIf(ops: seq<Op>, f: Op -> bool): nat {
    if ops == [] then 0
    else
      var last := |ops| - 1;
      CountIf(ops[..last], f) + if f(ops[last]) then 1 else 0
  }

  ghost function Bit(b: bool): int { if b then 1 else 0 }

  // ---- Tasks ----

  ghost function Pushes(v: VId): Op -> bool { (op: Op) => op == SubmitPush(v) }

  ghost function Pops(v: VId): Op -> bool { (op: Op) => op.ScanRun? && op.v == v }

  ghost function Length(s: State, v: VId): nat { if v in s.vacs then s.vacs[v].len else 0 }

  lemma TaskStep(s: State, op: Op, v: VId)
    requires Enabled(s, op)
    ensures Length(Step(s, op), v) - Length(s, v) == Bit(op == SubmitPush(v)) - Bit(op.ScanRun? && op.v == v)
  {
    hide Without;
  }

  /** No task is lost or run twice: in every run the tasks pushed to a queue, less those a worker has popped,
      are those it holds. */
  lemma {:induction false} TaskBalance(devices: set<PId>, ops: seq<Op>, v: VId)
    requires Run(devices, ops, false).Some?
    ensures var s := Run(devices, ops, false).value;
      CountIf(ops, Pushes(v)) - CountIf(ops, Pops(v)) == if v in s.vacs then s.vacs[v].len else 0
  {
    hide Step, Enabled;
    if ops == [] {
    } else {
      var last := |ops| - 1;
      TaskBalance(devices, ops[..last], v);
      TaskStep(Run(devices, ops[..last], false).value, ops[last], v);
    }
  }

  /** A queue keeps the capacity it was created with. */
  lemma CapacityKept(s: State, op: Op, v: VId)
    requires Enabled(s, op) && v in Step(s, op).vacs
    ensures if op.Create? && op.v == v then Step(s, op).vacs[v].capacity == op.capacity
      else v in s.vacs && Step(s, op).vacs[v].capacity == s.vacs[v].capacity
  {
  }

  // ---- The worker ----

  ghost function Is(op: Op): Op -> bool { (o: Op) => o == op }

  ghost function RunsOn(p: PId): Op -> bool { (op: Op) => op.ScanRun? && op.p == p }

  lemma WorkerStep(s: State, op: Op, p: PId)
    requires Enabled(s, op) && p in s.accs
    ensures p in Step(s, op).accs
    ensures var w, w' := s.accs[p].worker, Step(s, op).accs[p].worker;
      && Bit(w'.Awake?) - Bit(w.Awake?) == Bit(op == Wait(p)) - Bit(op == Snapshot(p))
      && Bit(w'.Scanning?) - Bit(w.Scanning?)
        == Bit(op == Snapshot(p)) - Bit(op.ScanRun? && op.p == p) - Bit(op == ScanDone(p))
      && Bit(w'.Running?) - Bit(w.Running?) == Bit(op.ScanRun? && op.p == p) - Bit(op == Finish(p))
      && Bit(w'.Asleep?) - Bit(w.Asleep?) == Bit(op == Block(p)) - Bit(op == Wake(p))
  {
    hide Without;
  }

  /** In every run a worker goes from its wait to a snapshot, from there over its queues to a task or back to
      the wait, and from a task back to the wait; it sleeps between blocking and waking up. */
  lemma {:induction false} WorkerCycle(devices: set<PId>, ops: seq<Op>, p: PId)
    requires Run(devices, ops, false).Some? && p in Run(devices, ops, false).value.accs
    ensures var w := Run(devices, ops, false).value.accs[p].worker;
      && CountIf(ops, Is(Wait(p))) - CountIf(ops, Is(Snapshot(p))) == Bit(w.Awake?)
      && CountIf(ops, Is(Snapshot(p))) - CountIf(ops, RunsOn(p)) - CountIf(ops, Is(ScanDone(p)))
        == Bit(w.Scanning?)
      && CountIf(ops, RunsOn(p)) - CountIf(ops, Is(Finish(p))) == Bit(w.Running?)
      && CountIf(ops, Is(Block(p))) - CountIf(ops, Is(Wake(p))) == Bit(w.Asleep?)
  {
    hide Step, Enabled;
    if ops == [] {
    } else {
      var last := |ops| - 1;
      DevicesStay(Run(devices, ops[..last], false).value, ops[last]);
      WorkerCycle(devices, ops[..last], p);
      WorkerStep(Run(devices, ops[..last], false).value, ops[last], p);
    }
  }

  lemma DevicesStay(s: State, op: Op)
    requires Enabled(s, op)
    ensures Step(s, op).accs.Keys == s.accs.Keys
  {
  }

  /** The queues the worker of `p` has passed since its last snapshot, and whether it un-assigned one. */
  ghost function Passed(ops: seq<Op>, p: PId): (set<VId>, bool) {
    if ops == [] then ({}, false)
    else
      var last := |ops| - 1;
      var (vs, lost) := Passed(ops[..last], p);
      match ops[last]
      case Snapshot(q) => if q == p then ({}, false) else (vs, lost)
      case ScanEmpty(q, v) => if q == p then (vs + {v}, lost) else (vs, lost)
      case ScanUnassign(q, v) => if q == p then (vs + {v}, true) else (vs, lost)
      case _ => (vs, lost)
  }

  /** The queues that were assigned to `p` at the last snapshot of its worker. */
  ghost function Seen(devices: set<PId>, ops: seq<Op>, p: PId): set<VId>
    requires Run(devices, ops, false).Some?
  {
    if ops == [] then {}
    else
      var last := |ops| - 1;
      var s := Run(devices, ops[..last], false).value;
      if ops[last] == Snapshot(p) then set v | v in s.vacs && s.vacs[v].phys == Some(p)
      else Seen(devices, ops[..last], p)
  }

  /** In every run a scanning worker has before it exactly the queues that were assigned to its device at its
      last snapshot and that it has not passed since, and its token until it un-assigns a queue. */
  lemma {:induction false} ScanIsExact(devices: set<PId>, ops: seq<Op>, p: PId)
    requires Run(devices, ops, false).Some? && p in Run(devices, ops, false).value.accs
    requires Run(devices, ops, false).value.accs[p].worker.Scanning?
    ensures var w := Run(devices, ops, false).value.accs[p].worker;
      w.rest == Seen(devices, ops, p) - Passed(ops, p).0 && w.token == !Passed(ops, p).1
  {
    hide Step, Enabled, Placed;
    if ops == [] {
    } else {
      var last := |ops| - 1;
      var s := Run(devices, ops[..last], false).value;
      RunPlaced(devices, ops[..last]);
      DevicesStay(s, ops[last]);
      ScanStep(s, ops[last], p);
      if ops[last] == Snapshot(p) {
        SnapshotSees(s, p);
      } else {
        ScanIsExact(devices, ops[..last], p);
      }
    }
  }

  lemma ScanStep(s: State, op: Op, p: PId)
    requires Enabled(s, op) && p in s.accs && p in Step(s, op).accs && Step(s, op).accs[p].worker.Scanning?
    ensures var w, w' := s.accs[p].worker, Step(s, op).accs[p].worker;
      if op == Snapshot(p) then w'.rest == Elements(s.accs[p].vacs) && w'.token
      else
        && w.Scanning?
        && w'.rest == w.rest - (if (op.ScanEmpty? || op.ScanUnassign?) && op.p == p then {op.v} else {})
        && w'.token == (w.token && !(op.ScanUnassign? && op.p == p))
  {
    hide Without;
  }

  lemma SnapshotSees(s: State, p: PId)
    requires Placed(s) && p in s.accs
    ensures Elements(s.accs[p].vacs) == set v | v in s.vacs && s.vacs[v].phys == Some(p)
  {
  }

  // ---- Tokens ----

  ghost function TokensOf(): Acc -> int { (a: Acc) => a.tasks }

  /** The announced tasks of a virtual accelerator no device has. */
  ghost function Unassigned(): Vac -> int { (x: Vac) => if x.phys == None then Weight(x) else 0 }

  ghost function TokenSteps(): Op -> bool {
    (op: Op) => op.SubmitAnnounce? || op.Poke? || op.ScanUnassign?
  }

  ghost function Waits(): Op -> bool { (op: Op) => op.Wait? }

  /** Every token is accounted for: in every run the tokens of all devices together, with the announced tasks
      in unassigned queues, are the announcements, the pokes and one for each un-assign, less the waits. */
  lemma {:induction false} TokenBalance(devices: set<PId>, ops: seq<Op>)
    requires Run(devices, ops, false).Some?
    ensures var s := Run(devices, ops, false).value;
      Net(s.accs, TokensOf()) + Net(s.vacs, Unassigned())
        == CountIf(ops, TokenSteps()) - CountIf(ops, Waits())
  {
    hide Net, Step, Enabled, Placed;
    if ops == [] {
      NothingYet(devices);
    } else {
      var last := |ops| - 1;
      TokenBalance(devices, ops[..last]);
      RunPlaced(devices, ops[..last]);
      TokenStep(Run(devices, ops[..last], false).value, ops[last]);
    }
  }

  lemma NothingYet(devices: set<PId>)
    ensures Net(Init(devices).accs, TokensOf()) == 0 && Net(Init(devices).vacs, Unassigned()) == 0
  {
    NetOfZeros(Init(devices).accs, TokensOf());
    NetOfZeros(Init(devices).vacs, Unassigned());
  }

  ghost function Issued(s: State): int { Net(s.accs, TokensOf()) + Net(s.vacs, Unassigned()) }

  lemma TokenStep(s: State, op: Op)
    requires Placed(s) && Enabled(s, op)
    ensures Issued(Step(s, op)) == Issued(s) + Bit(TokenSteps()(op)) - Bit(Waits()(op))
  {
    hide Net, Placed, Enabled, Step, Issued;
    match op
    case Create(v, _) => CreateKeepsTokens(s, op);
    case Destroy(v) => DestroyKeepsTokens(s, v);
    case Attach(_, _) => QueueTokens(s, op);
    case SubmitLock(_) => QueueTokens(s, op);
    case SubmitPush(_) => QueueTokens(s, op);
    case SubmitAnnounce(v) => AnnounceAddsToken(s, v);
    case ScanRun(_, _) => QueueTokens(s, op);
    case ScanUnassign(p, v) => UnassignKeepsToken(s, p, v);
    case AddOrphan(_) => OrphanKeepsTokens(s, op);
    case GetOrphan => OrphanKeepsTokens(s, op);
    case RemoveOrphan(_) => OrphanKeepsTokens(s, op);
    case _ => WorkerTokens(s, op);
  }

  lemma CreateKeepsTokens(s: State, op: Op)
    requires Enabled(s, op) && op.Create?
    ensures Issued(Step(s, op)) == Issued(s)
  {
    hide Net;
    NetAdd(s.vacs, Unassigned(), op.v, Step(s, op).vacs[op.v]);
  }

  lemma OrphanKeepsTokens(s: State, op: Op)
    requires Enabled(s, op) && (op.AddOrphan? || op.GetOrphan? || op.RemoveOrphan?)
    ensures Issued(Step(s, op)) == Issued(s)
  {
    hide Net;
  }

  lemma WorkerTokens(s: State, op: Op)
    requires Enabled(s, op) && (op.Poke? || op.Wait? || op.Block? || op.Wake? || op.Snapshot? || op.ScanEmpty?
      || op.ScanDone? || op.Finish?)
    ensures Issued(Step(s, op)) == Issued(s) + Bit(op.Poke?) - Bit(op.Wait?)
  {
    hide Net;
    NetReplace(s.accs, TokensOf(), op.p, Step(s, op).accs[op.p]);
  }

  lemma QueueTokens(s: State, op: Op)
    requires Placed(s) && Enabled(s, op) && (op.Attach? || op.SubmitLock? || op.SubmitPush? || op.ScanRun?)
    ensures Issued(Step(s, op)) == Issued(s)
  {
    hide Net, Attends;
    var s' := Step(s, op);
    if op.ScanRun? { ScannedIsAssigned(s, op.p, op.v); }
    if op.Attach? || op.ScanRun? { NetReplace(s.accs, TokensOf(), op.p, s'.accs[op.p]); }
    NetReplace(s.vacs, Unassigned(), op.v, s'.vacs[op.v]);
  }

  lemma AnnounceAddsToken(s: State, v: VId)
    requires Placed(s) && Enabled(s, SubmitAnnounce(v))
    ensures Issued(Step(s, SubmitAnnounce(v))) == Issued(s) + 1
  {
    hide Net, Attends;
    var s' := Step(s, SubmitAnnounce(v));
    NetReplace(s.vacs, Unassigned(), v, s'.vacs[v]);
    if s.vacs[v].phys.Some? {
      var p := s.vacs[v].phys.value;
      NetReplace(s.accs, TokensOf(), p, s'.accs[p]);
    }
  }

  lemma UnassignKeepsToken(s: State, p: PId, v: VId)
    requires Placed(s) && Enabled(s, ScanUnassign(p, v))
    ensures Issued(Step(s, ScanUnassign(p, v))) == Issued(s) + 1
  {
    hide Net, Attends, Without;
    var s' := Step(s, ScanUnassign(p, v));
    ScannedIsAssigned(s, p, v);
    assert s'.accs == s.accs[p := s'.accs[p]];
    NetReplace(s.accs, TokensOf(), p, s'.accs[p]);
    NetReplace(s.vacs, Unassigned(), v, s'.vacs[v]);
  }

  lemma DestroyKeepsTokens(s: State, v: VId)
    requires Placed(s) && Enabled(s, Destroy(v))
    ensures Issued(Step(s, Destroy(v))) == Issued(s)
  {
    hide Net, Attends, Without;
    NetRemove(s.vacs, Unassigned(), v);
    if s.vacs[v].phys.Some? {
      var p := s.vacs[v].phys.value;
      NetReplace(s.accs, TokensOf(), p, Step(s, Destroy(v)).accs[p]);
    }
  }

  /** The steps that notify the worker of `p`: they change the tokens of its device. */
  ghost predicate Signals(s: State, op: Op, p: PId) {
    match op
    case Poke(q) => q == p
    case ScanUnassign(q, _) => q == p
    case SubmitAnnounce(v) => v in s.vacs && s.vacs[v].phys == Some(p)
    case Attach(q, v) => q == p && v in s.vacs && s.vacs[v].len > 0
    case _ => false
  }

  ghost function SignalCount(devices: set<PId>, ops: seq<Op>, p: PId): nat
    requires Run(devices, ops, false).Some?
  {
    if ops == [] then 0
    else
      var last := |ops| - 1;
      SignalCount(devices, ops[..last], p)
      + if Signals(Run(devices, ops[..last], false).value, ops[last], p) then 1 else 0
  }

  lemma SignalStep(s: State, op: Op, p: PId)
    requires Enabled(s, op) && p in s.accs
    ensures p in Step(s, op).accs
    ensures Step(s, op).accs[p].sem + Bit(op == Wake(p)) == s.accs[p].sem + Bit(Signals(s, op, p))
  {
    hide Without;
  }

  /** Each of them notifies exactly once. */
  lemma {:induction false} SignalBalance(devices: set<PId>, ops: seq<Op>, p: PId)
    requires Run(devices, ops, false).Some? && p in Run(devices, ops, false).value.accs
    ensures Run(devices, ops, false).value.accs[p].sem + CountIf(ops, Is(Wake(p))) == SignalCount(devices, ops, p)
  {
    hide Step, Enabled, Signals;
    if ops == [] {
    } else {
      var last := |ops| - 1;
      DevicesStay(Run(devices, ops[..last], false).value, ops[last]);
      SignalBalance(devices, ops[..last], p);
      SignalStep(Run(devices, ops[..last], false).value, ops[last], p);
    }
  }

  // ---- The order of lists ----

  /** The position of the last `op`, or -1. */
  ghost function LastAt(ops: seq<Op>, op: Op): (k: int)
    ensures -1 <= k < |ops|
  {
    if ops == [] then -1
    else if ops[|ops| - 1] == op then |ops| - 1
    else LastAt(ops[..|ops| - 1], op)
  }

  /** The list is in the order of the operations `add`, the latest first. */
  ghost predicate NewestFirst(ops: seq<Op>, vs: seq<VId>, add: VId -> Op) {
    && (forall i :: 0 <= i < |vs| ==> LastAt(ops, add(vs[i])) >= 0)
    && (forall i, j :: 0 <= i < j < |vs| ==> LastAt(ops, add(vs[i])) > LastAt(ops, add(vs[j])))
  }

  ghost function Adds(): VId -> Op { (v: VId) => AddOrphan(v) }

  ghost function Attaches(p: PId): VId -> Op { (v: VId) => Attach(p, v) }

  /** Elements at some of the positions of `vs`, in their order. */
  ghost predicate Thinned(vs: seq<VId>, ws: seq<VId>) {
    exists f: seq<nat> :: |f| == |ws| && (forall i :: 0 <= i < |f| ==> f[i] < |vs| && ws[i] == vs[f[i]])
      && (forall i, j :: 0 <= i < j < |f| ==> f[i] < f[j])
  }

  lemma {:induction false} WithoutThins(vs: seq<VId>, v: VId)
    ensures Thinned(vs, Without(vs, v))
  {
    hide Thinned;
    if vs == [] {
      NoneThins();
    } else if vs[0] == v {
      TailThins(vs);
    } else {
      WithoutThins(vs[1..], v);
      ConsThins(vs[0], vs[1..], Without(vs[1..], v));
      assert [vs[0]] + vs[1..] == vs;
    }
  }

  lemma NoneThins()
    ensures Thinned([], [])
  {
    var f: seq<nat> := [];
    assert |f| == 0;
  }

  lemma ConsThins(x: VId, vs: seq<VId>, ws: seq<VId>)
    requires Thinned(vs, ws)
    ensures Thinned([x] + vs, [x] + ws)
  {
    var g: seq<nat> :| |g| == |ws| && (forall i :: 0 <= i < |g| ==> g[i] < |vs| && ws[i] == vs[g[i]])
      && (forall i, j :: 0 <= i < j < |g| ==> g[i] < g[j]);
    var f := [0] + seq(|g|, i requires 0 <= i < |g| => g[i] + 1);
    var all, some := [x] + vs, [x] + ws;
    assert |f| == |some|;
    forall i | 0 <= i < |f| ensures f[i] < |all| && some[i] == all[f[i]] {
      if i > 0 { assert f[i] == g[i - 1] + 1; }
    }
  }

  lemma TailThins(vs: seq<VId>)
    requires vs != []
    ensures Thinned(vs, vs[1..])
  {
    var f := seq(|vs| - 1, i requires 0 <= i => i + 1);
    assert |f| == |vs[1..]|;
  }

  lemma StaysNewest(ops: seq<Op>, op: Op, vs: seq<VId>, ws: seq<VId>, add: VId -> Op)
    requires NewestFirst(ops, vs, add) && Thinned(vs, ws) && forall v :: v in vs ==> add(v) != op
    ensures NewestFirst(ops + [op], ws, add)
  {
    assert (ops + [op])[..|ops|] == ops;
  }

  lemma SameNewest(ops: seq<Op>, op: Op, vs: seq<VId>, add: VId -> Op)
    requires NewestFirst(ops, vs, add) && forall v :: v in vs ==> add(v) != op
    ensures NewestFirst(ops + [op], vs, add)
  {
    assert (ops + [op])[..|ops|] == ops;
  }

  lemma AddedIsNewest(ops: seq<Op>, v: VId, vs: seq<VId>, add: VId -> Op)
    requires NewestFirst(ops, vs, add) && forall u :: u in vs ==> add(u) != add(v)
    ensures NewestFirst(ops + [add(v)], [v] + vs, add)
  {
    var ws := [v] + vs;
    assert (ops + [add(v)])[..|ops|] == ops;
    forall i | 0 <= i < |ws| ensures ws[i] == (if i == 0 then v else vs[i - 1]) {
    }
  }

  /** In every run the orphan that is taken next is the one added last. */
  lemma {:induction false} OrphansNewestFirst(devices: set<PId>, ops: seq<Op>)
    requires Run(devices, ops, false).Some?
    ensures NewestFirst(ops, Run(devices, ops, false).value.orphans, Adds())
  {
    hide NewestFirst, Thinned, Attends;
    if ops == [] {
      NoneIsNewest(Adds());
    } else {
      var last := |ops| - 1;
      OrphansNewestFirst(devices, ops[..last]);
      RunPlaced(devices, ops[..last]);
      OrphanStep(ops[..last], Run(devices, ops[..last], false).value, ops[last]);
      assert ops[..last] + [ops[last]] == ops;
    }
  }

  lemma NoneIsNewest(add: VId -> Op)
    ensures NewestFirst([], [], add)
  {
  }

  lemma OrphanStep(ops: seq<Op>, s: State, op: Op)
    requires Placed(s) && Enabled(s, op) && NewestFirst(ops, s.orphans, Adds())
    ensures NewestFirst(ops + [op], Step(s, op).orphans, Adds())
  {
    hide NewestFirst, Thinned, Attends, Without;
    match op
    case AddOrphan(v) => AddedIsNewest(ops, v, s.orphans, Adds());
    case GetOrphan =>
      TailThins(s.orphans);
      StaysNewest(ops, op, s.orphans, s.orphans[1..], Adds());
    case RemoveOrphan(v) =>
      WithoutThins(s.orphans, v);
      StaysNewest(ops, op, s.orphans, Without(s.orphans, v), Adds());
    case Destroy(v) =>
      WithoutThins(s.orphans, v);
      StaysNewest(ops, op, s.orphans, Without(s.orphans, v), Adds());
      SameNewest(ops, op, s.orphans, Adds());
    case _ => SameNewest(ops, op, s.orphans, Adds());
  }

  /** ... and the list of a device begins with the queue assigned last. */
  lemma {:induction false} AssignedNewestFirst(devices: set<PId>, ops: seq<Op>, p: PId)
    requires Run(devices, ops, false).Some? && p in Run(devices, ops, false).value.accs
    ensures NewestFirst(ops, Run(devices, ops, false).value.accs[p].vacs, Attaches(p))
  {
    hide NewestFirst, Thinned, Attends;
    if ops == [] {
      NoneIsNewest(Attaches(p));
    } else {
      var last := |ops| - 1;
      DevicesStay(Run(devices, ops[..last], false).value, ops[last]);
      AssignedNewestFirst(devices, ops[..last], p);
      RunPlaced(devices, ops[..last]);
      AssignedStep(ops[..last], Run(devices, ops[..last], false).value, ops[last], p);
      assert ops[..last] + [ops[last]] == ops;
    }
  }

  lemma AssignedStep(ops: seq<Op>, s: State, op: Op, p: PId)
    requires Placed(s) && Enabled(s, op) && p in s.accs && p in Step(s, op).accs
    requires NewestFirst(ops, s.accs[p].vacs, Attaches(p))
    ensures NewestFirst(ops + [op], Step(s, op).accs[p].vacs, Attaches(p))
  {
    hide NewestFirst, Thinned, Attends, Without;
    var vs := s.accs[p].vacs;
    match op
    case Attach(q, v) =>
      if q == p { AddedIsNewest(ops, v, vs, Attaches(p)); } else { SameNewest(ops, op, vs, Attaches(p)); }
    case ScanUnassign(q, v) =>
      WithoutThins(vs, v);
      StaysNewest(ops, op, vs, Without(vs, v), Attaches(p));
      SameNewest(ops, op, vs, Attaches(p));
    case Destroy(v) =>
      WithoutThins(vs, v);
      StaysNewest(ops, op, vs, Without(vs, v), Attaches(p));
      SameNewest(ops, op, vs, Attaches(p));
    case _ => SameNewest(ops, op, vs, Attaches(p));
  }
}
