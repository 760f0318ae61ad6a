/** Sums over the values of a finite map. */
module MapSum {

  lemma RemoveShrinks<V>(m: map<nat, V>, k: nat)
    requires k in m
    ensures |m - {k}| == |m| - 1
  {
    assert (m - {k}).Keys == m.Keys - {k};
    assert |(m - {k}).Keys| == |m.Keys| - 1;
  }

  ghost function Sum<V>(m: map<nat, V>, weight: V -> nat): nat
    decreases |m|
  {
    if m == map[] then 0
    else
      var k :| k in m;
      RemoveShrinks(m, k);
      weight(m[k]) + Sum(m - {k}, weight)
  }

  /** Any value can be counted first. */
  lemma {:induction false} SumSplit<V>(m: map<nat, V>, weight: V -> nat, k: nat)
    requires k in m
    ensures Sum(m, weight) == weight(m[k]) + Sum(m - {k}, weight)
    decreases |m|
  {
    var j :| j in m && Sum(m, weight) == weight(m[j]) + Sum(m - {j}, weight);
    if j != k {
      RemoveShrinks(m, j);
      RemoveShrinks(m, k);
      SumSplit(m - {j}, weight, k);
      SumSplit(m - {k}, weight, j);
      assert m - {j} - {k} == m - {k} - {j};
    }
  }

  lemma SumUpdate<V>(m: map<nat, V>, weight: V -> nat, k: nat, v: V)
    ensures Sum(m[k := v], weight) == weight(v) + Sum(m - {k}, weight)
  {
    SumSplit(m[k := v], weight, k);
    assert m[k := v] - {k} == m - {k};
  }

  /** Replacing a value changes the sum by the difference of the weights. */
  lemma SumReplace<V>(m: map<nat, V>, weight: V -> nat, k: nat, v: V)
    requires k in m
    ensures Sum(m[k := v], weight) + weight(m[k]) == Sum(m, weight) + weight(v)
  {
    SumUpdate(m, weight, k, v);
    SumSplit(m, weight, k);
  }

  lemma {:induction false} PositiveSumHasTerm<V>(m: map<nat, V>, weight: V -> nat) returns (k: nat)
    requires Sum(m, weight) > 0
    ensures k in m && weight(m[k]) > 0
    decreases |m|
  {
    var j :| j in m && Sum(m, weight) == weight(m[j]) + Sum(m - {j}, weight);
    if weight(m[j]) > 0 {
      k := j;
    } else {
      RemoveShrinks(m, j);
      k := PositiveSumHasTerm(m - {j}, weight);
    }
  }

  lemma {:induction false} SumOfZeros<V>(m: map<nat, V>, weight: V -> nat)
    requires forall k :: k in m ==> weight(m[k]) == 0
    ensures Sum(m, weight) == 0
    decreases |m|
  {
    if Sum(m, weight) > 0 {
      var k := PositiveSumHasTerm(m, weight);
      assert false;
    }
  }

  // ---- Sums of integers ----

  ghost function Above<V>(f: V -> int): V -> nat { (v: V) => if f(v) > 0 then f(v) else 0 }

  ghost function Below<V>(f: V -> int): V -> nat { (v: V) => if f(v) < 0 then -f(v) else 0 }

  ghost function Net<V>(m: map<nat, V>, f: V -> int): int {
    Sum(m, Above(f)) - Sum(m, Below(f))
  }

  lemma NetReplace<V>(m: map<nat, V>, f: V -> int, k: nat, v: V)
    requires k in m
    ensures Net(m[k := v], f) == Net(m, f) - f(m[k]) + f(v)
  {
    hide Sum;
    SumReplace(m, Above(f), k, v);
    SumReplace(m, Below(f), k, v);
  }

  lemma NetRemove<V>(m: map<nat, V>, f: V -> int, k: nat)
    requires k in m
    ensures Net(m - {k}, f) == Net(m, f) - f(m[k])
  {
    hide Sum;
    SumSplit(m, Above(f), k);
    SumSplit(m, Below(f), k);
  }

  lemma NetAdd<V>(m: map<nat, V>, f: V -> int, k: nat, v: V)
    requires k !in m
    ensures Net(m[k := v], f) == Net(m, f) + f(v)
  {
    hide Sum;
    NetRemove(m[k := v], f, k);
    assert m[k := v] - {k} == m;
  }

  lemma NetOfZeros<V>(m: map<nat, V>, f: V -> int)
    requires forall k :: k in m ==> f(m[k]) == 0
    ensures Net(m, f) == 0
  {
    SumOfZeros(m, Above(f));
    SumOfZeros(m, Below(f));
  }
}
