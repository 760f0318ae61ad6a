/** The calls that create, share and release objects, as methods of the pipe that registers them
    (src/core/arax_object.c, arax_data.c, arax_task.c, arax_throttle.c). */
module ObjectPipe {
  import opened MapSum
  import opened Objects
  import opened Options

  // ---- How single updates move references between holders ----

  /** Replacing an object by one with other references, when what it gains was held outside and what it
      loses is held outside afterwards. */
  lemma EdgeChange(objs: map<Id, Obj>, held: multiset<Id>, k: Id, o: Obj, held': multiset<Id>)
    requires Inv(objs, held) && k in objs
    requires o.refs == objs[k].refs && Rank(o) == Rank(objs[k])
    requires forall x :: held'[x] + multiset(Edges(o))[x] == held[x] + multiset(Edges(objs[k]))[x]
    requires forall y :: y in Edges(o) ==> y in objs && Rank(objs[y]) < Rank(o)
    ensures Inv(objs[k := o], held')
  {
    hide In, Edges, Rank;
    var objs' := objs[k := o];
    assert k !in Edges(o);
    forall x | x in objs' ensures Counted(objs', held', x) {
      InChange(objs, k, o, x);
      assert Counted(objs, held, x);
    }
    forall x | x in held' ensures x in objs' {
      assert held[x] + multiset(Edges(objs[k]))[x] > 0;
      assert x in held || x in Edges(objs[k]);
    }
  }

  lemma InChange(objs: map<Id, Obj>, k: Id, o: Obj, x: Id)
    requires k in objs
    ensures In(objs[k := o], x) + multiset(Edges(objs[k]))[x] == In(objs, x) + multiset(Edges(o))[x]
  {
    SumReplace(objs, RefersTo(x), k, o);
  }

  lemma Unreferenced(objs: map<Id, Obj>, held: multiset<Id>, id: Id)
    requires Inv(objs, held) && id !in objs
    ensures In(objs, id) == 0
  {
    hide Sum, Counted;
    forall k | k in objs ensures RefersTo(id)(objs[k]) == 0 {
      assert id !in Edges(objs[k]);
    }
    if In(objs, id) > 0 {
      var k := PositiveSumHasTerm(objs, RefersTo(id));
      assert false;
    }
  }

  lemma InRegister(objs: map<Id, Obj>, id: Id, o: Obj, x: Id)
    requires id !in objs && Edges(o) == []
    ensures In(objs[id := o], x) == In(objs, x)
  {
    assert objs - {id} == objs;
    SumUpdate(objs, RefersTo(x), id, o);
  }

  /** A new object, referred to by its creator only. */
  lemma RegisterInv(objs: map<Id, Obj>, held: multiset<Id>, id: Id, o: Obj)
    requires Inv(objs, held) && id !in objs && o.refs == 1 && Edges(o) == []
    ensures Inv(objs[id := o], held + multiset{id})
  {
    hide In, Edges, Rank;
    var objs', held' := objs[id := o], held + multiset{id};
    Unreferenced(objs, held, id);
    forall x | x in objs' ensures Counted(objs', held', x) {
      InRegister(objs, id, o, x);
      if x != id { assert Counted(objs, held, x); }
    }
  }

  lemma IncInv(h: Heap, held: multiset<Id>, id: Id)
    requires Inv(h.objs, held) && id in h.objs
    ensures Inv(h.objs[id := WithRefs(h.objs[id], h.objs[id].refs + 1)], held + multiset{id})
  {
    hide In;
    assert Counted(h.objs, held, id);
    CountChange(h, held, id, WithRefs(h.objs[id], h.objs[id].refs + 1), held + multiset{id});
  }

  lemma SameSize(h: Heap, k: Id, o: Obj)
    requires k in h.objs && o.size == h.objs[k].size
    ensures Charged(h.(objs := h.objs[k := o])) == Charged(h)
  {
    SumReplace(h.objs, Size(), k, o);
  }

  ghost predicate PositiveSizes(objs: map<Id, Obj>) {
    forall x :: x in objs ==> objs[x].size > 0
  }

  /** All bytes are available exactly when nothing is registered. */
  lemma AvailableIffEmpty(h: Heap)
    requires PositiveSizes(h.objs)
    ensures h.available == Charged(h) <==> h.objs == map[]
  {
    if k :| k in h.objs {
      SumSplit(h.objs, Size(), k);
      assert Size()(h.objs[k]) > 0;
    }
  }

  /** A migration is possible: the data is unassigned, or its accelerator is `a` or shares `a`'s device. */
  predicate CanMigrate(objs: map<Id, Obj>, d: Id, a: Id) {
    && d in objs && objs[d].Data? && a in objs && objs[a].Vaccel?
    && (objs[d].accel.Some? && objs[d].accel.value != a ==>
          objs[d].accel.value in objs && objs[objs[d].accel.value].Vaccel?
          && objs[objs[d].accel.value].phys == objs[a].phys)
  }

  /** The data belongs to `a`; otherwise only counts of accelerators changed, and of the accelerators at
      most the one left behind is gone. */
  ghost predicate Migrated(objs: map<Id, Obj>, objs': map<Id, Obj>, d: Id, a: Id) {
    && d in objs && objs[d].Data? && d in objs' && objs'[d] == objs[d].(accel := Some(a)) && a in objs'
    && (forall x :: x in objs' ==> x in objs)
    && (forall x :: x in objs && !objs[x].Vaccel? && x != d ==> x in objs' && objs'[x] == objs[x])
    && (forall x :: x in objs' && objs[x].Vaccel? ==> objs'[x] == WithRefs(objs[x], objs'[x].refs))
    && (forall x :: x in objs && x !in objs' ==> objs[d].accel == Some(x))
  }

  function Assign(objs: map<Id, Obj>, d: Id, a: Id): map<Id, Obj>
    requires a in objs && d in objs && objs[d].Data? && a != d
  {
    objs[a := WithRefs(objs[a], objs[a].refs + 1)][d := objs[d].(accel := Some(a))]
  }

  /** Giving unassigned data to an accelerator. */
  lemma AssignInv(h: Heap, held: multiset<Id>, d: Id, a: Id)
    requires Inv(h.objs, held) && d in h.objs && h.objs[d].Data? && h.objs[d].accel == None
    requires a in h.objs && h.objs[a].Vaccel?
    ensures Inv(Assign(h.objs, d, a), held)
    ensures Charged(h.(objs := Assign(h.objs, d, a))) == Charged(h)
  {
    hide Sum, Counted;
    var o, d' := WithRefs(h.objs[a], h.objs[a].refs + 1), h.objs[d].(accel := Some(a));
    var h1 := h.(objs := h.objs[a := o]);
    IncInv(h, held, a);
    SameSize(h, a, o);
    EdgeChange(h1.objs, held + multiset{a}, d, d', held);
    SameSize(h1, d, d');
  }

  lemma AssignMigrates(objs: map<Id, Obj>, d: Id, a: Id)
    requires d in objs && objs[d].Data? && a in objs && objs[a].Vaccel?
    ensures Migrated(objs, Assign(objs, d, a), d, a)
    ensures forall x :: x in objs ==> x in Assign(objs, d, a)
  {
  }

  /** Data whose reference on `v` is given up first. */
  function Unassign(objs: map<Id, Obj>, d: Id): map<Id, Obj>
    requires d in objs && objs[d].Data?
  {
    objs[d := objs[d].(accel := None)]
  }

  lemma UnassignEdge(objs: map<Id, Obj>, held: multiset<Id>, d: Id, v: Id)
    requires Inv(objs, held) && d in objs && objs[d].Data? && objs[d].accel == Some(v)
    ensures Inv(Unassign(objs, d), held + multiset{v})
  {
    hide Inv;
    EdgeChange(objs, held, d, objs[d].(accel := None), held + multiset{v});
  }

  /** Dropping a reference on an accelerator does not read the data that held it. */
  lemma UnassignCommutes(h: Heap, d: Id, v: Id)
    requires d in h.objs && h.objs[d].Data? && v in h.objs && h.objs[v].Vaccel?
    ensures var g := h.(objs := Unassign(h.objs, d));
      && d in Dec(h, v).objs && Dec(h, v).objs[d] == h.objs[d]
      && Dec(g, v).objs == Unassign(Dec(h, v).objs, d)
      && Dec(g, v).available == Dec(h, v).available
  {
    hide Dec;
    var g := h.(objs := Unassign(h.objs, d));
    DecVaccel(g, v);
    DecVaccel(h, v);
    DecVaccelBytes(g, v);
    DecVaccelBytes(h, v);
    assert h.objs[v].refs == 1 ==> Unassign(h.objs, d) - {v} == Unassign(h.objs - {v}, d);
  }

  lemma UnassignInv(h: Heap, held: multiset<Id>, d: Id, v: Id)
    requires Inv(h.objs, held) && d in h.objs && h.objs[d].Data? && h.objs[d].accel == Some(v)
    requires v in h.objs && h.objs[v].Vaccel?
    ensures var g := h.(objs := Unassign(h.objs, d));
      Inv(Dec(g, v).objs, held) && Charged(Dec(g, v)) == Charged(h)
  {
    hide Inv, Dec, Charged, Survives;
    var g := h.(objs := Unassign(h.objs, d));
    UnassignEdge(h.objs, held, d, v);
    SameSize(h, d, h.objs[d].(accel := None));
    DecInv(g, held + multiset{v}, v);
    assert held + multiset{v} - multiset{v} == held;
  }

  lemma DecVaccelBytes(h: Heap, v: Id)
    requires v in h.objs && h.objs[v].Vaccel?
    ensures Dec(h, v).available == h.available + if h.objs[v].refs != 1 then 0 else h.objs[v].size
  {
  }

  /** Moving the reference of data between accelerators of one device, in the order of the source. */
  lemma ReassignInv(h: Heap, held: multiset<Id>, d: Id, v: Id, a: Id)
    requires Inv(h.objs, held) && CanMigrate(h.objs, d, a) && h.objs[d].accel == Some(v) && v != a
    ensures v in h.objs && h.objs[v].Vaccel?
    ensures var h1 := Dec(h, v);
      && a in h1.objs && h1.objs[a] == h.objs[a] && d in h1.objs && h1.objs[d] == h.objs[d]
      && Inv(Assign(h1.objs, d, a), held) && Charged(h1.(objs := Assign(h1.objs, d, a))) == Charged(h)
      && Migrated(h.objs, Assign(h1.objs, d, a), d, a)
  {
    hide Inv, Dec, Charged, Assign;
    UnassignInv(h, held, d, v);
    UnassignCommutes(h, d, v);
    DecVaccel(h, v);
    var h1, g := Dec(h, v), h.(objs := Unassign(h.objs, d));
    AssignInv(Dec(g, v), held, d, a);
    AssignUnassigned(h1.objs, d, a);
    AssignMigrates(h1.objs, d, a);
    MigratedAfterDrop(h.objs, h1.objs, Assign(h1.objs, d, a), d, v, a);
  }

  lemma AssignUnassigned(objs: map<Id, Obj>, d: Id, a: Id)
    requires d in objs && objs[d].Data? && a in objs && objs[a].Vaccel?
    ensures Assign(Unassign(objs, d), d, a) == Assign(objs, d, a)
  {
  }

  lemma MigratedAfterDrop(objs: map<Id, Obj>, objs1: map<Id, Obj>, objs2: map<Id, Obj>, d: Id, v: Id, a: Id)
    requires v in objs && objs[v].Vaccel? && d in objs && objs[d].Data? && objs[d].accel == Some(v)
    requires objs1 == if objs[v].refs != 1 then objs[v := WithRefs(objs[v], objs[v].refs - 1)] else objs - {v}
    requires Migrated(objs1, objs2, d, a)
    requires forall x :: x in objs1 ==> x in objs2
    ensures Migrated(objs, objs2, d, a)
  {
  }

  /** Other data can still move to `a` afterwards. */
  lemma CanMigrateKept(objs: map<Id, Obj>, objs': map<Id, Obj>, held: multiset<Id>, d: Id, a: Id, e: Id)
    requires Inv(objs', held) && Migrated(objs, objs', d, a) && CanMigrate(objs, e, a)
    ensures CanMigrate(objs', e, a)
  {
    hide Counted;
    assert objs'[e].accel.Some? ==> objs'[e].accel.value in Edges(objs'[e]);
  }

  /** A task takes a reference on its next argument. */
  function Argue(objs: map<Id, Obj>, t: Id, d: Id): map<Id, Obj>
    requires t in objs && objs[t].Task? && d in objs && d != t
  {
    objs[t := objs[t].(io := objs[t].io + [d])][d := WithRefs(objs[d], objs[d].refs + 1)]
  }

  lemma ArgumentEdge(objs: map<Id, Obj>, held: multiset<Id>, t: Id, d: Id)
    requires Inv(objs, held + multiset{d}) && t in objs && objs[t].Task? && !objs[t].submitted
    requires d in objs && objs[d].Data?
    ensures Inv(objs[t := objs[t].(io := objs[t].io + [d])], held)
  {
    hide Counted;
    EdgeChange(objs, held + multiset{d}, t, objs[t].(io := objs[t].io + [d]), held);
  }

  lemma ArgumentInv(h: Heap, held: multiset<Id>, t: Id, d: Id)
    requires Inv(h.objs, held) && t in h.objs && h.objs[t].Task? && !h.objs[t].submitted
    requires d in h.objs && h.objs[d].Data?
    ensures Inv(Argue(h.objs, t, d), held)
    ensures Charged(h.(objs := Argue(h.objs, t, d))) == Charged(h)
  {
    hide Inv, Charged;
    var o, t' := WithRefs(h.objs[d], h.objs[d].refs + 1), h.objs[t].(io := h.objs[t].io + [d]);
    var h1 := h.(objs := h.objs[d := o]);
    IncInv(h, held, d);
    SameSize(h, d, o);
    ArgumentEdge(h1.objs, held, t, d);
    SameSize(h1, t, t');
    assert h1.objs[t := t'] == Argue(h.objs, t, d);
  }

  ghost predicate Owns(objs: map<Id, Obj>, a: Id, d: Id) {
    d in objs && objs[d].Data? && objs[d].accel == Some(a)
  }

  /** Adding an argument spoils neither the arguments before nor those to come. */
  lemma ArgumentKeeps(objs: map<Id, Obj>, objs': map<Id, Obj>, held: multiset<Id>, t: Id, d: Id, a: Id, e: Id)
    requires t in objs && objs[t].Task? && d in objs && d != t
    requires Inv(objs', held) && Migrated(Argue(objs, t, d), objs', d, a)
    ensures CanMigrate(objs, e, a) ==> CanMigrate(objs', e, a)
    ensures Owns(objs, a, e) ==> Owns(objs', a, e)
  {
    hide Inv;
    if CanMigrate(objs, e, a) {
      CanMigrateKept(Argue(objs, t, d), objs', held, d, a, e);
    }
  }

  class Pipe {
    var objs: map<Id, Obj>
    var available: nat
    const capacity: nat
    /** The references held by the application and the controller. */
    ghost var held: multiset<Id>

    ghost function State(): Heap
      reads this
    {
      Heap(objs, available)
    }

    /** The counts are right and no byte is lost. */
    ghost predicate Valid()
      reads this
    {
      Inv(objs, held) && Charged(State()) == capacity && PositiveSizes(objs)
    }

    constructor (size: nat)
      ensures Valid() && objs == map[] && available == capacity == size && held == multiset{}
    {
      objs, available, capacity, held := map[], size, size, multiset{};
    }

    /** `arax_object_register`, once the throttle grants the bytes. */
    method Register(id: Id, o: Obj)
      requires Valid() && id !in objs && o.refs == 1 && Edges(o) == [] && 0 < o.size <= available
      modifies this
      ensures Valid() && objs == old(objs)[id := o] && held == old(held) + multiset{id}
      ensures available == old(available) - o.size
    {
      hide Inv;
      RegisterInv(objs, held, id, o);
      SumUpdate(objs, Size(), id, o);
      assert objs - {id} == objs;
      available := available - o.size;
      objs := objs[id := o];
      held := held + multiset{id};
    }

    /** `arax_object_ref_inc` by the application or the controller. */
    method Retain(id: Id)
      requires Valid() && id in objs
      modifies this
      ensures Valid() && held == old(held) + multiset{id} && available == old(available)
      ensures objs == old(objs)[id := WithRefs(old(objs)[id], old(objs)[id].refs + 1)]
    {
      hide Inv, Sum;
      IncInv(State(), held, id);
      SameSize(State(), id, WithRefs(objs[id], objs[id].refs + 1));
      RefInc(id);
      held := held + multiset{id};
    }

    method RefInc(id: Id)
      requires id in objs
      modifies this`objs
      ensures objs == old(objs)[id := WithRefs(old(objs)[id], old(objs)[id].refs + 1)]
    {
      objs := objs[id := WithRefs(objs[id], objs[id].refs + 1)];
    }

    /** `arax_object_ref_dec`: the cascade of destructors ends, and computes `Dec`. `owed` names the
        references that are to be dropped beside those held. */
    method RefDec(id: Id, ghost owed: multiset<Id>)
      requires id in objs
      requires !objs[id].Vaccel? ==> Inv(objs, owed) && id in owed
      requires objs[id].refs == 1 ==> Destroyable(objs[id])
      modifies this`objs, this`available
      ensures State() == Dec(old(State()), id)
      decreases |objs|, 0
    {
      hide Inv, Dec, DecAll;
      ghost var h := State();
      var o := objs[id];
      if o.refs - 1 != 0 {
        DecNotLast(h, id);
        objs := objs[id := WithRefs(o, o.refs - 1)];
        return;
      }
      DecLast(h, id);
      RemoveShrinks(objs, id);
      objs := objs - {id};
      if !o.Vaccel? {
        DestroyReferences(id, o, h, owed);
      } else {
        DecNothing(State());
      }
      available := available + o.size;
    }

    /** The loop of a destructor, after its object left the repository. */
    method DestroyReferences(ghost id: Id, o: Obj, ghost h: Heap, ghost owed: multiset<Id>)
      requires Inv(h.objs, owed) && id in owed && id in h.objs && h.objs[id] == o
      requires o.refs == 1 && Destroyable(o)
      requires objs == h.objs - {id} && available == h.available
      modifies this`objs, this`available
      ensures State() == DecAll(old(State()), Drops(o))
      decreases |objs|, 1
    {
      hide Inv, Dec, DecAll, Edges;
      var drops := Drops(o);
      ghost var h1, kept, rest := State(), owed - multiset{id}, drops;
      OwedAreNotTasks(h, owed, id);
      RemoveOwes(h, owed, id);
      var i := 0;
      while i < |drops|
        invariant 0 <= i <= |drops| && rest == drops[i..]
        invariant Pending(State(), kept, rest)
        invariant DecAll(h1, drops) == DecAll(State(), rest)
        invariant |objs| <= |h1.objs|
      {
        assert rest[0] == drops[i];
        PendingStep(State(), kept, rest);
        RefDec(drops[i], kept + multiset(rest));
        rest := rest[1..];
        i := i + 1;
      }
      DecNothing(State());
    }

    /** Gives up a reference: exactly the objects no remaining reference reaches are destroyed. */
    method Release(id: Id)
      requires Valid() && id in held
      requires objs[id].refs == 1 ==> Destroyable(objs[id])
      modifies this
      ensures Valid() && held == old(held) - multiset{id}
      ensures State() == Dec(old(State()), id)
      ensures forall x :: x in objs <==> Reachable(old(objs), held, x)
    {
      hide Inv, Dec, Charged, PositiveSizes, Reachable;
      HeldIsRegistered(objs, held, id);
      ReleaseFacts(State(), held, id);
      RefDec(id, held);
      held := held - multiset{id};
    }

    /** `arax_data_migrate_accel`: the reference of the data moves to `a`. */
    method MigrateAccel(d: Id, a: Id)
      requires Valid() && CanMigrate(objs, d, a)
      modifies this`objs, this`available
      ensures Valid() && Migrated(old(objs), objs, d, a)
    {
      hide Inv, Dec, Charged;
      ghost var h := State();
      if objs[d].accel == Some(a) {
        return;
      }
      if objs[d].accel == None {
        AssignInv(h, held, d, a);
        AssignMigrates(objs, d, a);
        RefInc(a);
        objs := objs[d := objs[d].(accel := Some(a))];
        return;
      }
      var v := objs[d].accel.value;
      ReassignInv(h, held, d, v, a);
      RefDec(v, multiset{});
      RefInc(a);
      objs := objs[d := objs[d].(accel := Some(a))];
    }

    /** `arax_data_input_init` and `arax_data_output_init`, for the next argument of a task. */
    method AddArgument(t: Id, d: Id, a: Id)
      requires Valid() && CanMigrate(objs, d, a) && t in objs && objs[t].Task? && !objs[t].submitted
      modifies this`objs, this`available
      ensures Valid() && Migrated(Argue(old(objs), t, d), objs, d, a)
    {
      hide Inv, Charged;
      ArgumentInv(State(), held, t, d);
      objs := objs[t := objs[t].(io := objs[t].io + [d])];
      RefInc(d);
      MigrateAccel(d, a);
    }

    /** `arax_task_alloc`: registers a task whose arguments all belong to its accelerator. */
    method TaskAlloc(t: Id, size: nat, a: Id, devIn: seq<Id>, devOut: seq<Id>)
      requires Valid() && t !in objs && 0 < size <= available
      requires a in objs && objs[a].Vaccel?
      requires forall d :: d in devIn + devOut ==> CanMigrate(objs, d, a)
      modifies this
      ensures Valid() && held == old(held) + multiset{t}
      ensures t in objs && objs[t] == Task(1, size, a, devIn + devOut, false)
      ensures forall d :: d in devIn + devOut ==> d in objs && objs[d].Data? && objs[d].accel == Some(a)
    {
      hide Inv, Charged;
      forall d | d in devIn || d in devOut
        ensures CanMigrate(objs[t := Task(1, size, a, [], false)], d, a)
      {
        assert d in devIn + devOut;
        assert CanMigrate(objs, d, a);
      }
      Register(t, Task(1, size, a, [], false));
      AddArguments(t, a, devIn);
      AddArguments(t, a, devOut);
    }

    /** One of the two loops over the arguments. */
    method AddArguments(t: Id, a: Id, ds: seq<Id>)
      requires Valid() && t in objs && objs[t].Task? && !objs[t].submitted
      requires forall d :: d in ds ==> CanMigrate(objs, d, a)
      modifies this`objs, this`available
      ensures Valid() && t in objs && objs[t] == old(objs[t]).(io := old(objs[t]).io + ds)
      ensures forall e :: CanMigrate(old(objs), e, a) ==> CanMigrate(objs, e, a)
      ensures forall e :: e in ds || Owns(old(objs), a, e) ==> Owns(objs, a, e)
    {
      hide Inv, Charged, CanMigrate, Owns;
      for i := 0 to |ds|
        invariant Valid() && t in objs && objs[t] == old(objs[t]).(io := old(objs[t]).io + ds[..i])
        invariant forall e :: CanMigrate(old(objs), e, a) ==> CanMigrate(objs, e, a)
        invariant forall e :: e in ds[..i] || Owns(old(objs), a, e) ==> Owns(objs, a, e)
      {
        ghost var before := objs;
        MigratableIsData(objs, ds[i], a);
        AddArgument(t, ds[i], a);
        forall e ensures CanMigrate(before, e, a) ==> CanMigrate(objs, e, a)
          ensures Owns(before, a, e) ==> Owns(objs, a, e)
        {
          ArgumentKeeps(before, objs, held, t, ds[i], a, e);
        }
        MigratedIsOwned(Argue(before, t, ds[i]), objs, ds[i], a);
        assert ds[..i + 1] == ds[..i] + [ds[i]];
        assert objs[t].io == before[t].io + [ds[i]];
      }
      assert ds[..|ds|] == ds;
    }

    /** `arax_task_submit`: the task takes its reference on the accelerator. */
    method Submit(t: Id)
      requires Valid() && t in objs && objs[t].Task? && !objs[t].submitted
      requires objs[t].vaccel in objs && objs[objs[t].vaccel].Vaccel?
      modifies this`objs
      ensures Valid() && t in objs && objs[t] == old(objs[t]).(submitted := true)
      ensures var a := objs[t].vaccel;
        objs == old(objs)[a := WithRefs(old(objs)[a], old(objs)[a].refs + 1)][t := objs[t]]
    {
      hide Inv, Charged;
      SubmitInv(State(), held, t);
      RefInc(objs[t].vaccel);
      objs := objs[t := objs[t].(submitted := true)];
    }

    /** The ownership step of `arax_data_set`. */
    method SetOwner(d: Id, a: Id)
      requires Valid() && d in objs && objs[d].Data? && a in objs && objs[a].Vaccel?
      requires objs[d].accel == None || objs[d].accel == Some(a)
      modifies this`objs
      ensures Valid() && Migrated(old(objs), objs, d, a)
    {
      hide Inv, Charged;
      if objs[d].accel == None {
        AssignInv(State(), held, d, a);
        AssignMigrates(objs, d, a);
        RefInc(a);
      } else {
        assert objs == objs[d := objs[d].(accel := Some(a))];
      }
      objs := objs[d := objs[d].(accel := Some(a))];
    }
  }

  lemma MigratableIsData(objs: map<Id, Obj>, d: Id, a: Id)
    requires CanMigrate(objs, d, a)
    ensures d in objs && objs[d].Data?
  {
  }

  lemma MigratedIsOwned(objs: map<Id, Obj>, objs': map<Id, Obj>, d: Id, a: Id)
    requires Migrated(objs, objs', d, a)
    ensures Owns(objs', a, d)
  {
  }

  lemma SubmitEdge(objs: map<Id, Obj>, held: multiset<Id>, t: Id)
    requires t in objs && objs[t].Task? && !objs[t].submitted
    requires objs[t].vaccel in objs && objs[objs[t].vaccel].Vaccel?
    requires Inv(objs, held + multiset{objs[t].vaccel})
    ensures Inv(objs[t := objs[t].(submitted := true)], held)
  {
    hide Counted;
    EdgeChange(objs, held + multiset{objs[t].vaccel}, t, objs[t].(submitted := true), held);
  }

  lemma SubmitInv(h: Heap, held: multiset<Id>, t: Id)
    requires Inv(h.objs, held) && t in h.objs && h.objs[t].Task? && !h.objs[t].submitted
    requires h.objs[t].vaccel in h.objs && h.objs[h.objs[t].vaccel].Vaccel?
    ensures var a := h.objs[t].vaccel;
      var objs' := h.objs[a := WithRefs(h.objs[a], h.objs[a].refs + 1)][t := h.objs[t].(submitted := true)];
      Inv(objs', held) && Charged(h.(objs := objs')) == Charged(h)
  {
    hide Inv, Charged;
    var a := h.objs[t].vaccel;
    var h1 := h.(objs := h.objs[a := WithRefs(h.objs[a], h.objs[a].refs + 1)]);
    IncInv(h, held, a);
    SameSize(h, a, WithRefs(h.objs[a], h.objs[a].refs + 1));
    SubmitEdge(h1.objs, held, t);
    SameSize(h1, t, h1.objs[t].(submitted := true));
  }

  lemma PositiveKept(h: Heap, h': Heap)
    requires PositiveSizes(h.objs) && Survives(h, h')
    ensures PositiveSizes(h'.objs)
  {
  }

  lemma ReleaseFacts(h: Heap, held: multiset<Id>, id: Id)
    requires Inv(h.objs, held) && id in held && PositiveSizes(h.objs) && id in h.objs
    requires h.objs[id].refs == 1 ==> Destroyable(h.objs[id])
    ensures Inv(Dec(h, id).objs, held - multiset{id})
    ensures Charged(Dec(h, id)) == Charged(h) && PositiveSizes(Dec(h, id).objs)
    ensures forall x :: x in Dec(h, id).objs <==> Reachable(h.objs, held - multiset{id}, x)
  {
    hide Inv, Dec, Charged, Reachable, PositiveSizes, Survives;
    DecInv(h, held, id);
    PositiveKept(h, Dec(h, id));
    forall x ensures x in Dec(h, id).objs <==> Reachable(h.objs, held - multiset{id}, x) {
      DecFreesUnreachable(h, held, id, x);
    }
  }

  /** References still to be dropped, none of them on a task. */
  ghost predicate Pending(h: Heap, kept: multiset<Id>, rest: seq<Id>) {
    Inv(h.objs, kept + multiset(rest)) && forall y :: y in rest ==> y in h.objs && !h.objs[y].Task?
  }

  lemma PendingStep(h: Heap, kept: multiset<Id>, rest: seq<Id>)
    requires Pending(h, kept, rest) && rest != []
    ensures rest[0] in h.objs && !h.objs[rest[0]].Task? && rest[0] in kept + multiset(rest)
    ensures Pending(Dec(h, rest[0]), kept, rest[1..]) && |Dec(h, rest[0]).objs| <= |h.objs|
    ensures DecAll(h, rest) == DecAll(Dec(h, rest[0]), rest[1..])
  {
    hide Inv, Dec, Charged;
    FirstOwed(kept, rest);
    DecInv(h, kept + multiset(rest), rest[0]);
    HeldKept(h, Dec(h, rest[0]), kept, rest[1..]);
  }
}
