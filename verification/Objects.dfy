/** Object lifetime and memory accounting of src/core/arax_object.c, arax_task.c, arax_data.c and the pipe
    throttle: reference counts, the cascade of destructors, and the bytes charged for registered objects.

    Tasks hold data and virtual accelerators, data hold a virtual accelerator. Calls are atomic, data have
    no remote buffer, and allocation succeeds. */
module Objects {
  import opened MapSum
  import opened Options

  type Id = nat

  datatype Obj =
    | Vaccel(refs: int, size: nat, phys: Option<Id>)
    | Data(refs: int, size: nat, accel: Option<Id>)
    | Task(refs: int, size: nat, vaccel: Id, io: seq<Id>, submitted: bool)

  /** The registered objects and the bytes the throttle still grants. */
  datatype Heap = Heap(objs: map<Id, Obj>, available: nat)

  /** The references an object holds on others. A task takes the one on its accelerator at submission. */
  function Edges(o: Obj): seq<Id> {
    match o
    case Vaccel(_, _, _) => []
    case Data(_, _, accel) => if accel.Some? then [accel.value] else []
    case Task(_, _, vaccel, io, submitted) => if submitted then io + [vaccel] else io
  }

  /** The references the destructor of an object drops, in order. */
  function Drops(o: Obj): seq<Id> {
    match o
    case Vaccel(_, _, _) => []
    case Data(_, _, accel) => if accel.Some? then [accel.value] else []
    case Task(_, _, vaccel, io, _) => io + [vaccel]
  }

  function WithRefs(o: Obj, n: int): Obj {
    o.(refs := n)
  }

  function Rank(o: Obj): nat {
    match o
    case Vaccel(_, _, _) => 0
    case Data(_, _, _) => 1
    case Task(_, _, _, _, _) => 2
  }

  /** `arax_object_ref_dec`: drops one reference; at zero the object leaves the repository, its destructor
      runs, and its bytes are returned. */
  ghost function Dec(h: Heap, id: Id): (h': Heap)
    ensures h'.objs.Keys <= h.objs.Keys && |h'.objs| <= |h.objs|
    decreases |h.objs|, 0
  {
    if id !in h.objs then h
    else
      var o := h.objs[id];
      if o.refs != 1 then
        KeysKept(h.objs, id, WithRefs(o, o.refs - 1));
        h.(objs := h.objs[id := WithRefs(o, o.refs - 1)])
      else
        RemoveShrinks(h.objs, id);
        var h2 := DecAll(h.(objs := h.objs - {id}), Drops(o));
        h2.(available := h2.available + o.size)
  }

  /** The destructor's loop. */
  ghost function DecAll(h: Heap, ids: seq<Id>): (h': Heap)
    ensures h'.objs.Keys <= h.objs.Keys && |h'.objs| <= |h.objs|
    decreases |h.objs|, |ids|
  {
    if ids == [] then h else DecAll(Dec(h, ids[0]), ids[1..])
  }

  /** No drop of the cascade hits an object that is already freed. */
  ghost predicate Clean(h: Heap, id: Id)
    decreases |h.objs|, 0
  {
    if id !in h.objs || h.objs[id].refs != 1 then id in h.objs
    else
      RemoveShrinks(h.objs, id);
      CleanAll(h.(objs := h.objs - {id}), Drops(h.objs[id]))
  }

  ghost predicate CleanAll(h: Heap, ids: seq<Id>)
    decreases |h.objs|, |ids|
  {
    ids == [] || (Clean(h, ids[0]) && CleanAll(Dec(h, ids[0]), ids[1..]))
  }

  lemma KeysKept<V>(m: map<Id, V>, id: Id, v: V)
    requires id in m
    ensures m[id := v].Keys == m.Keys && |m[id := v]| == |m|
  {
    assert m[id := v].Keys == m.Keys;
    assert |m[id := v].Keys| == |m.Keys|;
  }

  // ---- Sums over the registered objects ----

  ghost function Size(): Obj -> nat { (o: Obj) => o.size }

  /** How often an object refers to `x`. */
  ghost function RefersTo(x: Id): Obj -> nat { (o: Obj) => multiset(Edges(o))[x] }

  /** The number of references to `x` held by registered objects. */
  ghost function In(objs: map<Id, Obj>, x: Id): nat {
    Sum(objs, RefersTo(x))
  }

  // ---- The invariant ----

  /** Every count is the number of references held outside, `held`, plus the references held by objects;
      all of them name registered objects, and they go from tasks to data to accelerators. */
  ghost predicate Inv(objs: map<Id, Obj>, held: multiset<Id>) {
    && (forall x :: x in held ==> x in objs)
    && (forall x :: x in objs ==> Counted(objs, held, x))
    && (forall x, y :: x in objs && y in Edges(objs[x]) ==> y in objs && Rank(objs[y]) < Rank(objs[x]))
  }

  ghost predicate Counted(objs: map<Id, Obj>, held: multiset<Id>, x: Id)
    requires x in objs
  {
    objs[x].refs == held[x] + In(objs, x) >= 1
  }

  /** Destroying the object would drop exactly the references it holds: it is not a task that was never
      submitted. */
  predicate Destroyable(o: Obj) {
    o.Task? ==> o.submitted
  }

  /** The survivors are as before, but for their counts. */
  ghost predicate Survives(h: Heap, h': Heap) {
    && h'.objs.Keys <= h.objs.Keys
    && forall x :: x in h'.objs ==> h'.objs[x] == WithRefs(h.objs[x], h'.objs[x].refs)
  }

  lemma InUpdate(objs: map<Id, Obj>, k: Id, o: Obj, x: Id)
    requires k in objs && Edges(o) == Edges(objs[k])
    ensures In(objs[k := o], x) == In(objs, x)
  {
    SumReplace(objs, RefersTo(x), k, o);
  }

  /** Changing one count by what changed outside. */
  lemma CountChange(h: Heap, held: multiset<Id>, k: Id, o: Obj, held': multiset<Id>)
    requires Inv(h.objs, held) && k in h.objs
    requires Edges(o) == Edges(h.objs[k]) && Rank(o) == Rank(h.objs[k])
    requires o.refs + held[k] == h.objs[k].refs + held'[k] && o.refs >= 1
    requires forall x :: x != k ==> held'[x] == held[x]
    ensures Inv(h.objs[k := o], held')
  {
    hide In, Edges, Rank;
    var objs' := h.objs[k := o];
    forall x | x in objs' ensures Counted(objs', held', x) {
      InUpdate(h.objs, k, o, x);
      assert Counted(h.objs, held, x);
    }
    forall x | x in held' ensures x in objs' {
      assert x == k || held'[x] == held[x];
    }
  }

  lemma NobodyRefers(objs: map<Id, Obj>, id: Id, x: Id)
    requires In(objs, id) == 0 && x in objs
    ensures id !in Edges(objs[x])
  {
    SumSplit(objs, RefersTo(id), x);
    assert RefersTo(id)(objs[x]) == 0;
  }

  lemma InSplit(objs: map<Id, Obj>, id: Id, x: Id)
    requires id in objs
    ensures In(objs, x) == multiset(Edges(objs[id]))[x] + In(objs - {id}, x)
  {
    SumSplit(objs, RefersTo(x), id);
  }

  /** An object whose last reference goes is referred to by nobody; without it, what it held is still owed. */
  lemma RemoveOwes(h: Heap, held: multiset<Id>, id: Id)
    requires Inv(h.objs, held) && id in held && h.objs[id].refs == 1
    ensures Inv(h.objs - {id}, held - multiset{id} + multiset(Edges(h.objs[id])))
  {
    hide In, Edges, Rank;
    var o, objs' := h.objs[id], h.objs - {id};
    var held' := held - multiset{id} + multiset(Edges(o));
    assert Counted(h.objs, held, id);
    assert held[id] == 1 && In(h.objs, id) == 0;
    forall x | x in h.objs ensures id !in Edges(h.objs[x]) {
      NobodyRefers(h.objs, id, x);
    }
    forall x | x in objs' ensures Counted(objs', held', x) {
      InSplit(h.objs, id, x);
      assert Counted(h.objs, held, x);
    }
    forall x | x in held' ensures x in objs' {
      assert x in held - multiset{id} || x in Edges(o);
    }
  }

  ghost function Charged(h: Heap): nat {
    h.available + Sum(h.objs, Size())
  }

  lemma DecNotLast(h: Heap, id: Id)
    requires id in h.objs && h.objs[id].refs != 1
    ensures Dec(h, id) == h.(objs := h.objs[id := WithRefs(h.objs[id], h.objs[id].refs - 1)])
  {
  }

  lemma DecLast(h: Heap, id: Id)
    requires id in h.objs && h.objs[id].refs == 1
    ensures var h2 := DecAll(h.(objs := h.objs - {id}), Drops(h.objs[id]));
      Dec(h, id) == h2.(available := h2.available + h.objs[id].size)
  {
  }

  lemma CleanNotLast(h: Heap, id: Id)
    requires id in h.objs && h.objs[id].refs != 1
    ensures Clean(h, id)
  {
  }

  lemma CleanLast(h: Heap, id: Id)
    requires id in h.objs && h.objs[id].refs == 1
    ensures Clean(h, id) <==> CleanAll(h.(objs := h.objs - {id}), Drops(h.objs[id]))
  {
  }

  /** Dropping a reference that is held keeps every count right, never touches a freed object, keeps the
      survivors as they were, and returns to the throttle exactly the bytes of the objects it destroys. */
  lemma {:induction false} DecInv(h: Heap, held: multiset<Id>, id: Id)
    requires Inv(h.objs, held) && id in held
    requires h.objs[id].refs == 1 ==> Destroyable(h.objs[id])
    ensures Inv(Dec(h, id).objs, held - multiset{id}) && Clean(h, id)
    ensures Survives(h, Dec(h, id)) && Charged(Dec(h, id)) == Charged(h)
    decreases |h.objs|, 0
  {
    if h.objs[id].refs != 1 {
      DecNotLastInv(h, held, id);
      CleanNotLast(h, id);
    } else {
      OwedAreNotTasks(h, held, id);
      CleanLast(h, id);
      hide Inv, Sum, Edges, Drops, Dec, DecAll, Clean, CleanAll;
      var h1 := h.(objs := h.objs - {id});
      RemoveShrinks(h.objs, id);
      RemoveOwes(h, held, id);
      DecAllInv(h1, held - multiset{id}, Drops(h.objs[id]));
      DecLastFacts(h, held - multiset{id}, id);
    }
  }

  lemma DecNotLastInv(h: Heap, held: multiset<Id>, id: Id)
    requires Inv(h.objs, held) && id in held && id in h.objs && h.objs[id].refs != 1
    ensures Inv(Dec(h, id).objs, held - multiset{id})
    ensures Survives(h, Dec(h, id)) && Charged(Dec(h, id)) == Charged(h)
  {
    hide Inv, Dec, Sum;
    LowerCount(h, held, id);
    DecNotLast(h, id);
    var o' := WithRefs(h.objs[id], h.objs[id].refs - 1);
    SumReplace(h.objs, Size(), id, o');
  }

  lemma LowerCount(h: Heap, held: multiset<Id>, id: Id)
    requires Inv(h.objs, held) && id in held && h.objs[id].refs != 1
    ensures Inv(h.objs[id := WithRefs(h.objs[id], h.objs[id].refs - 1)], held - multiset{id})
  {
    hide In, Edges, Rank;
    assert Counted(h.objs, held, id);
    SameEdges(h.objs[id], h.objs[id].refs - 1);
    CountChange(h, held, id, WithRefs(h.objs[id], h.objs[id].refs - 1), held - multiset{id});
  }

  lemma SameEdges(o: Obj, n: int)
    ensures Edges(WithRefs(o, n)) == Edges(o) && Rank(WithRefs(o, n)) == Rank(o)
  {
  }

  /** Returning the bytes of the destroyed object after its destructor ran. */
  lemma DecLastFacts(h: Heap, held: multiset<Id>, id: Id)
    requires id in h.objs && h.objs[id].refs == 1
    requires var h1 := h.(objs := h.objs - {id});
      var h2 := DecAll(h1, Drops(h.objs[id]));
      Inv(h2.objs, held) && Survives(h1, h2) && Charged(h2) == Charged(h1)
    ensures Inv(Dec(h, id).objs, held) && Survives(h, Dec(h, id)) && Charged(Dec(h, id)) == Charged(h)
  {
    hide Dec, DecAll, Sum, Drops, Inv;
    DecLast(h, id);
    SumSplit(h.objs, Size(), id);
  }

  lemma OwedAreNotTasks(h: Heap, held: multiset<Id>, id: Id)
    requires Inv(h.objs, held) && id in h.objs && Destroyable(h.objs[id])
    ensures Drops(h.objs[id]) == Edges(h.objs[id])
    ensures forall y :: y in Edges(h.objs[id]) ==> y in h.objs - {id} && !h.objs[y].Task?
  {
    hide Counted;
  }

  lemma HeldKept(h: Heap, h1: Heap, held: multiset<Id>, ids: seq<Id>)
    requires forall y :: y in ids ==> y in h.objs && !h.objs[y].Task?
    requires Inv(h1.objs, held + multiset(ids)) && Survives(h, h1)
    ensures forall y :: y in ids ==> y in h1.objs && !h1.objs[y].Task?
  {
    hide Counted;
    forall y | y in ids ensures y in h1.objs && !h1.objs[y].Task? {
      assert y in held + multiset(ids);
    }
  }

  lemma {:induction false} DecAllInv(h: Heap, held: multiset<Id>, ids: seq<Id>)
    requires Inv(h.objs, held + multiset(ids))
    requires forall y :: y in ids ==> y in h.objs && !h.objs[y].Task?
    ensures Inv(DecAll(h, ids).objs, held) && CleanAll(h, ids)
    ensures Survives(h, DecAll(h, ids)) && Charged(DecAll(h, ids)) == Charged(h)
    decreases |h.objs|, |ids|
  {
    hide Inv, Charged, Dec, Clean;
    if ids == [] {
      assert held + multiset(ids) == held;
    } else {
      var x, rest := ids[0], ids[1..];
      FirstOwed(held, ids);
      DecInv(h, held + multiset(ids), x);
      var h1 := Dec(h, x);
      HeldKept(h, h1, held, rest);
      DecAllInv(h1, held, rest);
    }
  }

  lemma FirstOwed(held: multiset<Id>, ids: seq<Id>)
    requires ids != []
    ensures ids[0] in held + multiset(ids)
    ensures held + multiset(ids) - multiset{ids[0]} == held + multiset(ids[1..])
  {
    assert ids == [ids[0]] + ids[1..];
  }

  // ---- Reachability ----

  /** A chain of references that starts at a reference held outside. */
  ghost predicate Path(objs: map<Id, Obj>, held: multiset<Id>, p: seq<Id>) {
    && p != [] && p[0] in held
    && (forall i :: 0 <= i < |p| ==> p[i] in objs)
    && (forall i :: 0 <= i < |p| - 1 ==> p[i + 1] in Edges(objs[p[i]]))
  }

  ghost predicate Reachable(objs: map<Id, Obj>, held: multiset<Id>, x: Id) {
    exists p :: Path(objs, held, p) && p[|p| - 1] == x
  }

  /** Every registered object is reachable: its count is positive, so something refers to it, and chains
      of references cannot be longer than the ranks. */
  lemma {:induction false} RegisteredIsReachable(objs: map<Id, Obj>, held: multiset<Id>, x: Id) returns (p: seq<Id>)
    requires Inv(objs, held) && x in objs
    ensures Path(objs, held, p) && p[|p| - 1] == x
    decreases 2 - Rank(objs[x])
  {
    hide Sum;
    assert Counted(objs, held, x);
    if x in held {
      p := [x];
    } else {
      var k := PositiveSumHasTerm(objs, RefersTo(x));
      assert x in Edges(objs[k]);
      var q := RegisteredIsReachable(objs, held, k);
      p := q + [x];
      forall i | 0 <= i < |p| - 1 ensures p[i + 1] in Edges(objs[p[i]]) {
        if i < |q| - 1 { assert q[i + 1] in Edges(objs[q[i]]); }
      }
    }
  }

  /** In a heap whose counts are right, exactly the reachable objects are registered. */
  lemma RegisteredIffReachable(objs: map<Id, Obj>, held: multiset<Id>, x: Id)
    requires Inv(objs, held)
    ensures x in objs <==> Reachable(objs, held, x)
  {
    if x in objs {
      var p := RegisteredIsReachable(objs, held, x);
    }
  }

  lemma EdgeSurvives(h: Heap, h': Heap, held: multiset<Id>, y: Id, z: Id)
    requires Inv(h'.objs, held) && Survives(h, h') && y in h'.objs && z in Edges(h.objs[y])
    ensures z in h'.objs
  {
    hide Counted;
    assert Edges(h'.objs[y]) == Edges(h.objs[y]);
  }

  /** A chain of the old heap, from what is still held, survives. */
  lemma {:induction false} PathSurvives(h: Heap, h': Heap, held: multiset<Id>, p: seq<Id>)
    requires Inv(h'.objs, held) && Survives(h, h') && Path(h.objs, held, p)
    ensures p[|p| - 1] in h'.objs
  {
    hide Inv, Edges;
    if |p| == 1 {
      HeldIsRegistered(h'.objs, held, p[0]);
    } else {
      var q := p[..|p| - 1];
      PathSurvives(h, h', held, q);
      assert p[|p| - 2 + 1] in Edges(h.objs[p[|p| - 2]]);
      EdgeSurvives(h, h', held, p[|p| - 2], p[|p| - 1]);
    }
  }

  lemma SurvivorsAreReachable(h: Heap, h': Heap, held: multiset<Id>, x: Id)
    requires Inv(h'.objs, held) && Survives(h, h')
    ensures x in h'.objs <==> Reachable(h.objs, held, x)
  {
    hide Inv;
    if x in h'.objs {
      var p := RegisteredIsReachable(h'.objs, held, x);
      OldPath(h, h', held, p);
    }
    if Reachable(h.objs, held, x) {
      var p :| Path(h.objs, held, p) && p[|p| - 1] == x;
      PathSurvives(h, h', held, p);
    }
  }

  lemma OldPath(h: Heap, h': Heap, held: multiset<Id>, p: seq<Id>)
    requires Survives(h, h') && Path(h'.objs, held, p)
    ensures Path(h.objs, held, p)
  {
    forall i | 0 <= i < |p| - 1 ensures p[i + 1] in Edges(h.objs[p[i]]) {
      assert Edges(h'.objs[p[i]]) == Edges(h.objs[p[i]]);
    }
  }

  /** Giving up a reference frees exactly the objects that no remaining reference reaches. */
  lemma DecFreesUnreachable(h: Heap, held: multiset<Id>, id: Id, x: Id)
    requires Inv(h.objs, held) && id in held
    requires h.objs[id].refs == 1 ==> Destroyable(h.objs[id])
    ensures x in Dec(h, id).objs <==> Reachable(h.objs, held - multiset{id}, x)
  {
    DecInv(h, held, id);
    SurvivorsAreReachable(h, Dec(h, id), held - multiset{id}, x);
  }

  // ---- Tasks that were never submitted ----

  /** Dropping a held reference leaves every count right and touches no freed object exactly when it does not
      destroy a task that was never submitted: the destructor of a task drops a reference on its accelerator
      that only submission takes. */
  lemma DecIff(h: Heap, held: multiset<Id>, id: Id)
    requires Inv(h.objs, held) && id in held
    ensures Inv(Dec(h, id).objs, held - multiset{id}) && Clean(h, id)
      <==> (h.objs[id].refs == 1 ==> Destroyable(h.objs[id]))
  {
    hide Inv, Dec, Clean, Edges;
    HeldIsRegistered(h.objs, held, id);
    if h.objs[id].refs == 1 && !Destroyable(h.objs[id]) {
      UnsubmittedDestroyed(h, held, id);
    } else {
      DecInv(h, held, id);
    }
  }

  lemma UnsubmittedDestroyed(h: Heap, held: multiset<Id>, id: Id)
    requires Inv(h.objs, held) && id in held && id in h.objs
    requires h.objs[id].Task? && h.objs[id].refs == 1 && !h.objs[id].submitted
    ensures !(Inv(Dec(h, id).objs, held - multiset{id}) && Clean(h, id))
  {
    hide Dec, DecAll, Inv, Charged, Edges, Clean, CleanAll;
    var t, h1, held' := h.objs[id], h.(objs := h.objs - {id}), held - multiset{id};
    OwedByIo(h, held, id);
    RemoveOwes(h, held, id);
    DecAllInv(h1, held', t.io);
    var h2 := DecAll(h1, t.io);
    DecLast(h, id);
    DecAllAppend(h1, t.io, t.vaccel);
    CleanLast(h, id);
    if t.vaccel in h2.objs {
      DropOfBorrowed(h2, held', t.vaccel);
    } else {
      DropOfFreed(h2, t.vaccel);
    }
  }

  lemma DropOfFreed(h: Heap, a: Id)
    requires a !in h.objs
    ensures !Clean(h, a)
  {
  }

  /** A task that was never submitted can hold the last objects on its accelerator: then the destructor's own
      loop frees the accelerator before the destructor drops it. */
  lemma FreedBeforeDrop(h: Heap)
    requires h.objs == map[0 := Vaccel(1, 1, None), 1 := Data(1, 1, Some(0)), 2 := Task(1, 1, 0, [1], false)]
    ensures Inv(h.objs, multiset{2}) && Dec(h, 2).objs == map[] && !Clean(h, 2)
  {
    hide Dec, DecAll, Clean, CleanAll, Sum, In;
    var h1 := h.(objs := h.objs - {2});
    ChainCounted(h.objs);
    assert h1.objs == map[0 := Vaccel(1, 1, None), 1 := Data(1, 1, Some(0))];
    DecLast(h, 2);
    DecAllAppend(h1, [1], 0);
    DecAllOne(h1, 1);
    DecChain(h1);
    DecAllowsFreed(Dec(h1, 1), 0);
    UnsubmittedDestroyed(h, multiset{2}, 2);
    NothingCounted();
    assert multiset{2} - multiset{2} == multiset{};
  }

  lemma DecChain(h: Heap)
    requires h.objs == map[0 := Vaccel(1, 1, None), 1 := Data(1, 1, Some(0))]
    ensures Dec(h, 1).objs == map[]
  {
    hide Dec, DecAll;
    var h2 := h.(objs := h.objs - {1});
    DecLast(h, 1);
    DecAllOne(h2, 0);
    DecVaccel(h2, 0);
  }

  lemma DecAllOne(h: Heap, x: Id)
    ensures DecAll(h, [x]) == Dec(h, x)
  {
    hide Dec;
    assert DecAll(h, [x]) == DecAll(Dec(h, x), []);
  }

  lemma DecAllowsFreed(h: Heap, x: Id)
    requires x !in h.objs
    ensures Dec(h, x) == h
  {
  }

  /** Dropping a reference on an accelerator touches nothing else. */
  lemma DecVaccel(h: Heap, v: Id)
    requires v in h.objs && h.objs[v].Vaccel?
    ensures Dec(h, v).objs
      == if h.objs[v].refs != 1 then h.objs[v := WithRefs(h.objs[v], h.objs[v].refs - 1)] else h.objs - {v}
  {
  }

  lemma NothingCounted()
    ensures Inv(map[], multiset{})
  {
  }

  lemma ChainCounted(objs: map<Id, Obj>)
    requires objs == map[0 := Vaccel(1, 1, None), 1 := Data(1, 1, Some(0)), 2 := Task(1, 1, 0, [1], false)]
    ensures Inv(objs, multiset{2})
  {
    hide Sum, In;
    ChainIn(objs, 0);
    ChainIn(objs, 1);
    ChainIn(objs, 2);
  }

  lemma ChainIn(objs: map<Id, Obj>, x: Id)
    requires objs == map[0 := Vaccel(1, 1, None), 1 := Data(1, 1, Some(0)), 2 := Task(1, 1, 0, [1], false)]
    ensures In(objs, x) == if x < 2 then 1 else 0
  {
    hide Sum;
    SumSplit(objs, RefersTo(x), 0);
    SumSplit(objs - {0}, RefersTo(x), 1);
    SumSplit(objs - {0} - {1}, RefersTo(x), 2);
    SumOfZeros(objs - {0} - {1} - {2}, RefersTo(x));
    assert Edges(objs[0]) == [] && Edges(objs[1]) == [0] && Edges(objs[2]) == [1];
    assert multiset([0])[x] == (if x == 0 then 1 else 0) && multiset([1])[x] == if x == 1 then 1 else 0;
  }

  lemma HeldIsRegistered(objs: map<Id, Obj>, held: multiset<Id>, x: Id)
    requires Inv(objs, held) && x in held
    ensures x in objs
  {
  }

  lemma OwedByIo(h: Heap, held: multiset<Id>, id: Id)
    requires Inv(h.objs, held) && id in h.objs && h.objs[id].Task? && !h.objs[id].submitted
    ensures Edges(h.objs[id]) == h.objs[id].io
    ensures forall y :: y in h.objs[id].io ==> y in h.objs - {id} && !h.objs[y].Task?
  {
    hide Counted;
  }

  lemma {:induction false} DecAllAppend(h: Heap, ids: seq<Id>, x: Id)
    ensures DecAll(h, ids + [x]) == Dec(DecAll(h, ids), x)
    ensures CleanAll(h, ids + [x]) <==> CleanAll(h, ids) && Clean(DecAll(h, ids), x)
    decreases |ids|
  {
    hide Dec, Clean;
    if ids == [] {
      assert DecAll(h, [x]) == DecAll(Dec(h, x), []);
      assert CleanAll(h, [x]) == (Clean(h, x) && CleanAll(Dec(h, x), []));
    } else {
      assert (ids + [x])[1..] == ids[1..] + [x];
      DecAllAppend(Dec(h, ids[0]), ids[1..], x);
    }
  }

  /** Dropping a reference nobody gave up leaves a wrong count, or a reference to an unregistered object. */
  lemma DropOfBorrowed(h: Heap, held: multiset<Id>, a: Id)
    requires Inv(h.objs, held) && a in h.objs
    ensures !Inv(Dec(h, a).objs, held)
  {
    hide Dec, DecAll, Inv, In, Edges, Drops, Rank;
    if h.objs[a].refs != 1 {
      DecNotLast(h, a);
      BorrowedCount(h, held, a);
    } else {
      DecLast(h, a);
      var h1 := h.(objs := h.objs - {a});
      if a in held {
        UnregisteredIsHeld(DecAll(h1, Drops(h.objs[a])).objs, held, a);
      } else {
        BorrowedObject(h, held, a);
      }
    }
  }

  lemma UnregisteredIsHeld(objs: map<Id, Obj>, held: multiset<Id>, a: Id)
    requires a in held && a !in objs
    ensures !Inv(objs, held)
  {
  }

  lemma BorrowedCount(h: Heap, held: multiset<Id>, a: Id)
    requires Inv(h.objs, held) && a in h.objs
    ensures !Inv(h.objs[a := WithRefs(h.objs[a], h.objs[a].refs - 1)], held)
  {
    hide In;
    var o' := WithRefs(h.objs[a], h.objs[a].refs - 1);
    assert Counted(h.objs, held, a);
    InUpdate(h.objs, a, o', a);
    assert !Counted(h.objs[a := o'], held, a);
  }

  /** An object referred to by another one only: that one outlives the cascade of a drop nobody owes. */
  lemma BorrowedObject(h: Heap, held: multiset<Id>, a: Id)
    requires Inv(h.objs, held) && a in h.objs && a !in held && h.objs[a].refs == 1
    ensures !Inv(DecAll(h.(objs := h.objs - {a}), Drops(h.objs[a])).objs, held)
  {
    var k := BorrowedReferrer(h.objs, held, a);
    hide Inv, Dec, DecAll, Edges, Drops;
    var h1 := h.(objs := h.objs - {a});
    if Drops(h.objs[a]) == [] {
      DecNothing(h1);
    } else {
      DecAllOne(h1, Drops(h.objs[a])[0]);
      DecVaccel(h1, Drops(h.objs[a])[0]);
    }
    Dangling(DecAll(h1, Drops(h.objs[a])).objs, held, k, a);
  }

  /** Something refers to the object, and destroying the object drops at most one accelerator. */
  lemma BorrowedReferrer(objs: map<Id, Obj>, held: multiset<Id>, a: Id) returns (k: Id)
    requires Inv(objs, held) && a in objs && a !in held
    ensures k in objs && k != a && a in Edges(objs[k])
    ensures var d := Drops(objs[a]);
      d == [] || (d == [d[0]] && d[0] in objs && d[0] != a && d[0] != k && objs[d[0]].Vaccel?)
  {
    hide In;
    assert Counted(objs, held, a);
    k := ReferrerOf(objs, a);
    assert Rank(objs[a]) < Rank(objs[k]);
    assert forall y :: y in Edges(objs[a]) ==> y in objs && Rank(objs[y]) < Rank(objs[a]);
  }

  lemma Dangling(objs: map<Id, Obj>, held: multiset<Id>, k: Id, a: Id)
    requires k in objs && a in Edges(objs[k]) && a !in objs
    ensures !Inv(objs, held)
  {
    hide In;
  }

  lemma DecNothing(h: Heap)
    ensures DecAll(h, []) == h
  {
  }

  lemma ReferrerOf(objs: map<Id, Obj>, a: Id) returns (k: Id)
    requires In(objs, a) > 0
    ensures k in objs && a in Edges(objs[k])
  {
    k := PositiveSumHasTerm(objs, RefersTo(a));
  }
}
