/** The work queue of src/utils/queue.c under interleaving: locked pushes and compare-and-swap pops, each
    split into its individual reads and writes of the shared fields. Memory is sequentially consistent. */
module QueueThreads {
  import opened Options
  import opened QueueIndex

  /** A non-null pointer. */
  type Item = nat

  /** The thread inside the push lock and what it has read. `seen` is the number of pops completed when
      it read `top`. */
  datatype Pusher =
    | Outside
    | Locked(item: Item)
    | HasBottom(item: Item, b: nat)
    | HasTop(item: Item, b: nat, t: nat, seen: nat)
    | Written(item: Item, b: nat)
    | Leaving

  /** A thread inside pop. `seen` is the number of pops completed when it read `top`. */
  datatype Popper =
    | HasT(t: nat, seen: nat)
    | NonEmpty(t: nat, seen: nat)
    | HasEntry(t: nat, seen: nat, entry: Option<Item>)

  /** The shared fields, the threads, and what has happened: the items of successful pushes and the
      results of successful pops, in order. */
  datatype State = State(
    entries: seq<Option<Item>>, bottom: nat, top: nat,
    pusher: Pusher, poppers: map<nat, Popper>,
    pushed: seq<Item>, popped: seq<Option<Item>>)

  datatype Op =
    | PushLock(item: Item)
    | PushReadBottom
    | PushReadTop
    | PushWrite
    | PushPublish
    | PushUnlock
    | PopReadTop(id: nat)
    | PopReadBottom(id: nat)
    | PopReadEntry(id: nat)
    | PopSwap(id: nat)

  ghost function Init(capacity: nat): State {
    State(seq(capacity, _ => None), 0, 0, Outside, map[], [], [])
  }

  ghost predicate Indexed(s: State) {
    && 0 < |s.entries| && s.bottom < RANGE && s.top < RANGE
    && (s.pusher.HasTop? ==> s.pusher.b < RANGE && s.pusher.t < RANGE)
  }

  /** The thread named by `op` is at that point of its code. */
  ghost predicate Enabled(s: State, op: Op) {
    match op
    case PushLock(_) => s.pusher.Outside?
    case PushReadBottom => s.pusher.Locked?
    case PushReadTop => s.pusher.HasBottom?
    case PushWrite => s.pusher.HasTop?
    case PushPublish => s.pusher.Written?
    case PushUnlock => s.pusher.Leaving?
    case PopReadTop(id) => id !in s.poppers
    case PopReadBottom(id) => id in s.poppers && s.poppers[id].HasT?
    case PopReadEntry(id) => id in s.poppers && s.poppers[id].NonEmpty?
    case PopSwap(id) => id in s.poppers && s.poppers[id].HasEntry?
  }

  ghost function Step(s: State, op: Op): (s': State)
    requires Indexed(s) && Enabled(s, op)
  {
    var capacity := |s.entries|;
    match op
    case PushLock(item) => s.(pusher := Locked(item))
    case PushReadBottom => s.(pusher := HasBottom(s.pusher.item, s.bottom))
    case PushReadTop => s.(pusher := HasTop(s.pusher.item, s.pusher.b, s.top, |s.popped|))
    case PushWrite =>
      if SlotsUsed(s.pusher.b, s.pusher.t) == capacity then s.(pusher := Leaving)
      else s.(entries := Store(s.entries, Slot(s.pusher.b, capacity), Some(s.pusher.item)),
              pusher := Written(s.pusher.item, s.pusher.b))
    case PushPublish =>
      s.(bottom := (s.pusher.b + 1) % RANGE, pusher := Leaving, pushed := s.pushed + [s.pusher.item])
    case PushUnlock => s.(pusher := Outside)
    case PopReadTop(id) => s.(poppers := s.poppers[id := HasT(s.top, |s.popped|)])
    case PopReadBottom(id) =>
      var p := s.poppers[id];
      if s.bottom == p.t then s.(poppers := s.poppers - {id})
      else s.(poppers := s.poppers[id := NonEmpty(p.t, p.seen)])
    case PopReadEntry(id) =>
      var p := s.poppers[id];
      s.(poppers := s.poppers[id := HasEntry(p.t, p.seen, Load(s.entries, Slot(p.t, capacity)))])
    case PopSwap(id) =>
      var p := s.poppers[id];
      if s.top == p.t then
        s.(top := (p.t + 1) % RANGE, poppers := s.poppers - {id}, popped := s.popped + [p.entry])
      else s.(poppers := s.poppers - {id})
  }

  ghost function Load(entries: seq<Option<Item>>, i: nat): Option<Item> {
    if i < |entries| then entries[i] else None
  }

  ghost function Store(entries: seq<Option<Item>>, i: nat, x: Option<Item>): (r: seq<Option<Item>>)
    ensures |r| == |entries|
  {
    if i < |entries| then entries[i := x] else entries
  }

  /** A popper that swaps was overtaken by fewer than `limit` pops since it read `top`. */
  ghost predicate InTime(s: State, op: Op, limit: nat) {
    op.PopSwap? && Enabled(s, op) ==> |s.popped| < s.poppers[op.id].seen + limit
  }

  // ---- What every step keeps ----

  ghost predicate PusherInv(s: State)
    requires |s.entries| > 0
  {
    var capacity, n, m := |s.entries|, |s.pushed|, |s.popped|;
    match s.pusher
    case HasBottom(_, b) => b == s.bottom
    case HasTop(_, b, t, seen) => b == s.bottom && seen <= m && t == seen % RANGE && n <= seen + capacity
    case Written(item, b) => b == s.bottom && n < m + capacity && s.entries[Home(n, capacity)] == Some(item)
    case _ => true
  }

  ghost predicate PopperInv(s: State, p: Popper) {
    var n, m := |s.pushed|, |s.popped|;
    && p.seen <= m && p.t == p.seen % RANGE
    && (!p.HasT? && p.seen == m ==> m < n)
    && (p.HasEntry? && p.seen == m ==> p.entry == Some(s.pushed[m]))
  }

  /** The indices are the counts modulo 65536, the items not yet popped are in their slots, and the pops
      returned a prefix of the pushes. */
  ghost predicate Inv(s: State) {
    var capacity, n, m := |s.entries|, |s.pushed|, |s.popped|;
    && Capacity(capacity) && 0 < capacity < RANGE
    && m <= n <= m + capacity
    && s.bottom == n % RANGE && s.top == m % RANGE
    && (forall i :: m <= i < n ==> s.entries[Home(i, capacity)] == Some(s.pushed[i]))
    && (forall i :: 0 <= i < m ==> s.popped[i] == Some(s.pushed[i]))
    && PusherInv(s)
    && (forall id :: id in s.poppers ==> PopperInv(s, s.poppers[id]))
  }

  lemma InvIndexed(s: State)
    requires Inv(s)
    ensures Indexed(s)
  {
  }

  lemma PushWriteKeepsInv(s: State)
    requires Inv(s) && Indexed(s) && Enabled(s, PushWrite)
    ensures Inv(Step(s, PushWrite))
  {
    hide Home, Slot, Capacity;
    var capacity, n, m := |s.entries|, |s.pushed|, |s.popped|;
    SlotsUsedExact(n, s.pusher.seen);
    SlotOfWrapped(n, capacity);
    if SlotsUsed(s.pusher.b, s.pusher.t) != capacity {
      forall i | m <= i < n ensures Home(i, capacity) != Home(n, capacity) {
        SlotsApart(i, n, capacity);
      }
    }
  }

  lemma PushPublishKeepsInv(s: State)
    requires Inv(s) && Indexed(s) && Enabled(s, PushPublish)
    ensures Inv(Step(s, PushPublish))
  {
    hide Home, Slot, Capacity;
    var s' := Step(s, PushPublish);
    NextIndex(|s.pushed|);
    assert s'.entries == s.entries && s'.popped == s.popped;
    forall i | |s.popped| <= i < |s'.pushed| ensures s'.entries[Home(i, |s.entries|)] == Some(s'.pushed[i]) {
      if i < |s.pushed| { assert s'.pushed[i] == s.pushed[i]; }
    }
    forall id | id in s'.poppers ensures PopperInv(s', s'.poppers[id]) {
      assert PopperInv(s, s.poppers[id]);
    }
  }

  lemma PopReadKeepsInv(s: State, op: Op)
    requires Inv(s) && Indexed(s) && Enabled(s, op)
    requires op.PopReadTop? || op.PopReadBottom? || op.PopReadEntry?
    ensures Inv(Step(s, op))
  {
    hide Home, Slot, Capacity;
    if op.PopReadEntry? {
      SlotOfWrapped(s.poppers[op.id].seen, |s.entries|);
    }
    if op.PopReadBottom? {
      assert PopperInv(s, s.poppers[op.id]);
    }
  }

  lemma NextIndex(n: nat)
    ensures (n % RANGE + 1) % RANGE == (n + 1) % RANGE
  {
  }

  lemma SameCount(m: nat, n: nat)
    requires m <= n < m + RANGE && m % RANGE == n % RANGE
    ensures m == n
  {
  }

  /** A swap in time succeeds only when nobody popped since `top` was read. */
  lemma PopSwapKeepsInv(s: State, id: nat)
    requires Inv(s) && Indexed(s) && Enabled(s, PopSwap(id)) && InTime(s, PopSwap(id), RANGE)
    ensures Inv(Step(s, PopSwap(id)))
  {
    hide Home, Slot, Capacity;
    var p, s' := s.poppers[id], Step(s, PopSwap(id));
    assert PopperInv(s, p);
    if s.top == p.t {
      NextIndex(|s.popped|);
      SameCount(p.seen, |s.popped|);
      forall j | j in s'.poppers ensures PopperInv(s', s'.poppers[j]) {
        assert PopperInv(s, s.poppers[j]);
      }
    }
  }

  lemma StepKeepsInv(s: State, op: Op)
    requires Inv(s) && Enabled(s, op) && InTime(s, op, RANGE)
    ensures Indexed(s) && Inv(Step(s, op))
  {
    hide Home, Slot, Capacity;
    InvIndexed(s);
    match op
    case PushWrite => PushWriteKeepsInv(s);
    case PushPublish => PushPublishKeepsInv(s);
    case PopReadTop(_) => PopReadKeepsInv(s, op);
    case PopReadBottom(_) => PopReadKeepsInv(s, op);
    case PopReadEntry(_) => PopReadKeepsInv(s, op);
    case PopSwap(id) => PopSwapKeepsInv(s, id);
    case _ =>
  }

  // ---- Whole runs ----

  /** The state after an interleaving; none when a step is taken by a thread that is not there, or a popper
      that swaps was overtaken by `limit` or more pops. */
  ghost function Run(capacity: nat, ops: seq<Op>, limit: nat): Option<State> {
    if ops == [] then Some(Init(capacity))
    else
      var last := |ops| - 1;
      match Run(capacity, ops[..last], limit)
      case None => None
      case Some(s) =>
        if Indexed(s) && Enabled(s, ops[last]) && InTime(s, ops[last], limit) then Some(Step(s, ops[last])) else None
  }

  lemma {:induction false} RunInv(capacity: nat, ops: seq<Op>, limit: nat)
    requires Capacity(capacity) && 0 < capacity < RANGE && limit <= RANGE && Run(capacity, ops, limit).Some?
    ensures Inv(Run(capacity, ops, limit).value) && |Run(capacity, ops, limit).value.entries| == capacity
  {
    if ops == [] {
    } else {
      var last := |ops| - 1;
      RunInv(capacity, ops[..last], limit);
      StepKeepsInv(Run(capacity, ops[..last], limit).value, ops[last]);
    }
  }

  /** In every interleaving, whatever the number of threads and however often the indices wrap around,
      the k-th successful pop returns the k-th pushed item: nothing is lost, duplicated or reordered. At
      most `capacity` items are stored, and the indices give their number. */
  lemma RunIsFifo(capacity: nat, ops: seq<Op>, limit: nat)
    requires Capacity(capacity) && 0 < capacity < RANGE && limit <= RANGE && Run(capacity, ops, limit).Some?
    ensures var s := Run(capacity, ops, limit).value;
      && |s.popped| <= |s.pushed| <= |s.popped| + capacity
      && (forall k :: 0 <= k < |s.popped| ==> s.popped[k] == Some(s.pushed[k]))
      && s.bottom < RANGE && s.top < RANGE && SlotsUsed(s.bottom, s.top) == |s.pushed| - |s.popped|
  {
    RunInv(capacity, ops, limit);
    var s := Run(capacity, ops, limit).value;
    SlotsUsedExact(|s.pushed|, |s.popped|);
  }

  /** A push is refused only if the queue was full when it read `top`. */
  lemma RefusalIsReal(capacity: nat, ops: seq<Op>, limit: nat)
    requires Capacity(capacity) && 0 < capacity < RANGE && limit <= RANGE && Run(capacity, ops, limit).Some?
    ensures var s := Run(capacity, ops, limit).value;
      && Indexed(s)
      && (s.pusher.HasTop? && SlotsUsed(s.pusher.b, s.pusher.t) == capacity ==> |s.pushed| == s.pusher.seen + capacity)
  {
    RunInv(capacity, ops, limit);
    var s := Run(capacity, ops, limit).value;
    InvIndexed(s);
    if s.pusher.HasTop? { SlotsUsedExact(|s.pushed|, s.pusher.seen); }
  }

  /** A pop that finds nothing, and was not overtaken since it read `top`, found the queue empty. */
  lemma EmptinessIsReal(capacity: nat, ops: seq<Op>, id: nat, limit: nat)
    requires Capacity(capacity) && 0 < capacity < RANGE && limit <= RANGE && Run(capacity, ops, limit).Some?
    requires var s := Run(capacity, ops, limit).value;
      Enabled(s, PopReadBottom(id)) && s.bottom == s.poppers[id].t && s.poppers[id].seen == |s.popped|
    ensures var s := Run(capacity, ops, limit).value;
      |s.pushed| == |s.popped|
  {
    RunInv(capacity, ops, limit);
    var s := Run(capacity, ops, limit).value;
    assert PopperInv(s, s.poppers[id]);
    SameCount(|s.popped|, |s.pushed|);
  }

  /** What the deciding accesses do: a push is refused exactly when the queue was full as it read `top`; a pop
      that was not overtaken gives up exactly when the queue is empty; a swap succeeds exactly when nobody popped
      since `top` was read. */
  lemma Outcomes(capacity: nat, ops: seq<Op>, limit: nat, op: Op)
    requires Capacity(capacity) && 0 < capacity < RANGE && limit <= RANGE
    requires Run(capacity, ops, limit).Some? && Run(capacity, ops + [op], limit).Some?
    ensures var s, s' := Run(capacity, ops, limit).value, Run(capacity, ops + [op], limit).value;
      && (op.PushWrite? ==>
            s.pusher.HasTop? && (s'.pusher.Leaving? <==> |s.pushed| == s.pusher.seen + capacity))
      && (op.PopReadBottom? ==>
            op.id in s.poppers
            && (s.poppers[op.id].seen == |s.popped| ==> (op.id !in s'.poppers <==> |s.pushed| == |s.popped|)))
      && (op.PopSwap? ==>
            op.id in s.poppers && op.id !in s'.poppers
            && |s'.popped| == |s.popped| + if s.poppers[op.id].seen == |s.popped| then 1 else 0)
  {
    hide Home, Slot, Capacity;
    assert (ops + [op])[..|ops|] == ops;
    RunInv(capacity, ops, limit);
    var s := Run(capacity, ops, limit).value;
    match op
    case PushWrite => SlotsUsedExact(|s.pushed|, s.pusher.seen);
    case PopReadBottom(id) =>
      assert PopperInv(s, s.poppers[id]);
      if s.bottom == s.poppers[id].t && s.poppers[id].seen == |s.popped| { SameCount(|s.popped|, |s.pushed|); }
    case PopSwap(id) =>
      assert PopperInv(s, s.poppers[id]);
      if s.top == s.poppers[id].t { SameCount(s.poppers[id].seen, |s.popped|); }
    case _ =>
  }

  /** The item of the last push that entered the lock. */
  ghost function LastItem(ops: seq<Op>): Option<Item> {
    if ops == [] then None
    else
      var last := |ops| - 1;
      if ops[last].PushLock? then Some(ops[last].item) else LastItem(ops[..last])
  }

  /** The items of the pushes that were published. */
  ghost function Published(ops: seq<Op>): seq<Option<Item>> {
    if ops == [] then []
    else
      var last := |ops| - 1;
      if ops[last].PushPublish? then Published(ops[..last]) + [LastItem(ops[..last])] else Published(ops[..last])
  }

  /** The items pushed are those the callers passed, in the order of their publication. */
  lemma {:induction false} PushedArePassed(capacity: nat, ops: seq<Op>, limit: nat)
    requires Run(capacity, ops, limit).Some?
    ensures var s := Run(capacity, ops, limit).value;
      && |s.pushed| == |Published(ops)|
      && (forall k :: 0 <= k < |s.pushed| ==> Published(ops)[k] == Some(s.pushed[k]))
      && (s.pusher.Locked? || s.pusher.HasBottom? || s.pusher.HasTop? || s.pusher.Written? ==>
            LastItem(ops) == Some(s.pusher.item))
  {
    hide Slot, SlotsUsed, Load, Store;
    if ops == [] {
    } else {
      PushedArePassed(capacity, ops[..|ops| - 1], limit);
    }
  }

  // ---- Both limits are real ----

  lemma Extend(capacity: nat, limit: nat, ops: seq<Op>, s: State, op: Op) returns (ops': seq<Op>, s': State)
    requires Run(capacity, ops, limit) == Some(s) && Indexed(s) && Enabled(s, op) && InTime(s, op, limit)
    ensures Run(capacity, ops', limit) == Some(s') && s' == Step(s, op)
  {
    ops', s' := ops + [op], Step(s, op);
    assert ops'[..|ops|] == ops;
  }

  /** A whole push. */
  lemma PushOne(capacity: nat, limit: nat, ops: seq<Op>, s: State, item: Item) returns (ops': seq<Op>, s': State)
    requires Run(capacity, ops, limit) == Some(s) && Indexed(s) && s.pusher.Outside?
    requires SlotsUsed(s.bottom, s.top) != |s.entries|
    ensures Run(capacity, ops', limit) == Some(s')
    ensures s' == s.(entries := Store(s.entries, Slot(s.bottom, |s.entries|), Some(item)),
                     bottom := (s.bottom + 1) % RANGE, pushed := s.pushed + [item])
  {
    hide Run, Slot, SlotsUsed, Store, Load;
    ops', s' := Extend(capacity, limit, ops, s, PushLock(item));
    ops', s' := Extend(capacity, limit, ops', s', PushReadBottom);
    ops', s' := Extend(capacity, limit, ops', s', PushReadTop);
    ops', s' := Extend(capacity, limit, ops', s', PushWrite);
    ops', s' := Extend(capacity, limit, ops', s', PushPublish);
    ops', s' := Extend(capacity, limit, ops', s', PushUnlock);
  }

  /** The reads of a pop that finds an item. */
  lemma PopReads(capacity: nat, limit: nat, ops: seq<Op>, s: State, id: nat) returns (ops': seq<Op>, s': State)
    requires Run(capacity, ops, limit) == Some(s) && Indexed(s) && id !in s.poppers && s.bottom != s.top
    ensures Run(capacity, ops', limit) == Some(s')
    ensures s' == s.(poppers :=
      s.poppers[id := HasEntry(s.top, |s.popped|, Load(s.entries, Slot(s.top, |s.entries|)))])
  {
    hide Run, Slot, SlotsUsed, Store, Load;
    ops', s' := Extend(capacity, limit, ops, s, PopReadTop(id));
    ops', s' := Extend(capacity, limit, ops', s', PopReadBottom(id));
    ops', s' := Extend(capacity, limit, ops', s', PopReadEntry(id));
    assert s'.poppers == s.poppers[id := s'.poppers[id]];
  }

  /** A whole pop that finds an item and is not overtaken. */
  lemma PopOne(capacity: nat, limit: nat, ops: seq<Op>, s: State, id: nat) returns (ops': seq<Op>, s': State)
    requires Run(capacity, ops, limit) == Some(s) && Indexed(s) && id !in s.poppers && s.bottom != s.top && limit >= 1
    ensures Run(capacity, ops', limit) == Some(s')
    ensures s' == s.(top := (s.top + 1) % RANGE, popped := s.popped + [Load(s.entries, Slot(s.top, |s.entries|))])
  {
    hide Run, Slot, SlotsUsed, Store, Load;
    ops', s' := PopReads(capacity, limit, ops, s, id);
    ops', s' := Extend(capacity, limit, ops', s', PopSwap(id));
    assert s'.poppers == s.poppers;
  }

  /** Between calls, after pushing the numbers `0..pushes`. */
  ghost predicate Counting(s: State, pushes: nat, pops: nat) {
    && 0 < |s.entries| <= RANGE && s.pusher == Outside
    && |s.pushed| == pushes && |s.popped| == pops
    && (forall i :: 0 <= i < pushes ==> s.pushed[i] == i)
    && s.bottom == pushes % RANGE && s.top == pops % RANGE
  }

  lemma PushNext(capacity: nat, limit: nat, ops: seq<Op>, s: State, pops: nat) returns (ops': seq<Op>, s': State)
    requires Run(capacity, ops, limit) == Some(s) && Counting(s, |s.pushed|, pops)
    requires SlotsUsed(s.bottom, s.top) != |s.entries|
    ensures Run(capacity, ops', limit) == Some(s') && Counting(s', |s.pushed| + 1, pops)
    ensures s'.entries == Store(s.entries, Slot(s.bottom, |s.entries|), Some(|s.pushed|))
    ensures s'.poppers == s.poppers && s'.popped == s.popped
  {
    hide Run, Slot, SlotsUsed, Store, Load;
    ops', s' := PushOne(capacity, limit, ops, s, |s.pushed|);
    NextIndex(|s.pushed|);
  }

  lemma StartRun(capacity: nat, limit: nat) returns (ops: seq<Op>)
    requires 0 < capacity <= RANGE
    ensures Run(capacity, ops, limit) == Some(Init(capacity)) && Counting(Init(capacity), 0, 0)
  {
    ops := [];
  }

  /** Popper 0 sleeps before its swap since the very first item. */
  ghost predicate Asleep(s: State, pushes: nat, pops: nat) {
    && Counting(s, pushes, pops) && |s.entries| < RANGE
    && s.poppers == map[0 := HasEntry(0, 0, Some(0))]
  }

  lemma FallAsleep(capacity: nat, limit: nat) returns (ops: seq<Op>, s: State)
    requires Capacity(capacity) && 0 < capacity < RANGE
    ensures Run(capacity, ops, limit) == Some(s) && Asleep(s, 1, 0)
  {
    hide Run, Slot, Home, Capacity;
    ops := StartRun(capacity, limit);
    ops, s := PushNext(capacity, limit, ops, Init(capacity), 0);
    SlotOfWrapped(0, capacity);
    ops, s := PopReads(capacity, limit, ops, s, 0);
  }

  lemma {:induction false} SleepThrough(capacity: nat, limit: nat, ops: seq<Op>, s: State, n: nat)
    returns (ops': seq<Op>, s': State)
    requires Run(capacity, ops, limit) == Some(s) && Asleep(s, 1, 0) && limit >= 1
    ensures Run(capacity, ops', limit) == Some(s') && Asleep(s', n + 1, n)
  {
    hide Run, Slot, Load, Store;
    if n == 0 {
      ops', s' := ops, s;
    } else {
      ops', s' := SleepThrough(capacity, limit, ops, s, n - 1);
      ops', s' := PopOne(capacity, limit, ops', s', 1);
      NextIndex(n - 1);
      ops', s' := PushNext(capacity, limit, ops', s', n);
    }
  }

  /** A popper that sleeps through exactly 65536 pops, at every capacity, returns the first item a second
      time, in place of the item that was next; all other pops are in time. */
  lemma OvertakenPopRepeats(capacity: nat, limit: nat) returns (ops: seq<Op>)
    requires Capacity(capacity) && 0 < capacity < RANGE < limit
    ensures Run(capacity, ops, limit).Some?
    ensures var s := Run(capacity, ops, limit).value;
      && |s.pushed| == |s.popped| == RANGE + 1
      && s.popped[RANGE] == Some(s.pushed[0]) != Some(s.pushed[RANGE])
  {
    hide Run;
    var s;
    ops, s := FallAsleep(capacity, limit);
    ops, s := SleepThrough(capacity, limit, ops, s, RANGE);
    ops, s := Extend(capacity, limit, ops, s, PopSwap(0));
  }

  lemma {:induction false} PushMany(limit: nat, n: nat) returns (ops: seq<Op>, s: State)
    requires n <= RANGE
    ensures Run(RANGE, ops, limit) == Some(s) && Counting(s, n, 0) && |s.entries| == RANGE && s.poppers == map[]
  {
    hide Run, Slot;
    if n == 0 {
      ops := StartRun(RANGE, limit);
      s := Init(RANGE);
    } else {
      ops, s := PushMany(limit, n - 1);
      ops, s := PushNext(RANGE, limit, ops, s, 0);
    }
  }

  /** A full queue of 65536 slots looks empty: the next push is not refused, overwrites the first item, and
      the first pop returns the item number 65536. */
  lemma FullQueueOverwrites(limit: nat) returns (ops: seq<Op>)
    requires limit >= 1
    ensures Run(RANGE, ops, limit).Some?
    ensures var s := Run(RANGE, ops, limit).value;
      && |s.pushed| == RANGE + 1 && s.popped == [Some(s.pushed[RANGE])] != [Some(s.pushed[0])]
  {
    hide Run, Slot, Home, Capacity;
    RangeIsCapacity();
    SlotOfWrapped(0, RANGE);
    var s;
    ops, s := PushMany(limit, RANGE);
    ops, s := PushNext(RANGE, limit, ops, s, 0);
    ops, s := PopOne(RANGE, limit, ops, s, 0);
  }

  /** The pops returned a prefix of the pushes. */
  ghost predicate InOrder(s: State) {
    |s.popped| <= |s.pushed| && forall k :: 0 <= k < |s.popped| ==> s.popped[k] == Some(s.pushed[k])
  }

  /** For every power-of-two capacity: all interleavings in which no swap was overtaken by `limit` or more
      pops are first-in first-out if and only if the capacity is below 65536 and the limit at most 65536. */
  lemma FifoIff(capacity: nat, limit: nat)
    requires Capacity(capacity) && limit >= 1
    ensures (forall ops :: Run(capacity, ops, limit).Some? ==> InOrder(Run(capacity, ops, limit).value))
      <==> capacity < RANGE && limit <= RANGE
  {
    hide Run, Capacity;
    var q := CapacityDivides(capacity);
    if capacity < RANGE && limit <= RANGE {
      forall ops | Run(capacity, ops, limit).Some? ensures InOrder(Run(capacity, ops, limit).value) {
        RunIsFifo(capacity, ops, limit);
      }
    } else if capacity < RANGE {
      var ops := OvertakenPopRepeats(capacity, limit);
      assert !InOrder(Run(capacity, ops, limit).value);
    } else {
      CapacityAtMost(capacity);
      var ops := FullQueueOverwrites(limit);
      assert !InOrder(Run(RANGE, ops, limit).value);
    }
  }
}
