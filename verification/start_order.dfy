/** The order in which the init process starts its units. */
module StartOrder {
  import opened Wrappers
  import opened Distinctness

  datatype Unit = Unit(name: string, after: seq<string>, needs: seq<string>)

  type Graph = seq<seq<nat>>

  /** The first unit with the given name. */
  function FindUnit(units: seq<Unit>, name: string): (r: Option<nat>)
    ensures r.Some? ==> r.value < |units| && units[r.value].name == name
    ensures r.Some? ==> forall i :: 0 <= i < r.value ==> units[i].name != name
    ensures r.None? ==> forall i :: 0 <= i < |units| ==> units[i].name != name
  {
    if units == [] then None
    else if units[0].name == name then Some(0)
    else
      match FindUnit(units[1..], name)
      case None => None
      case Some(i) => Some(i + 1)
  }

  /** Unit `i` names unit `j`, another one, in `After=` or `Requires=`. */
  ghost predicate DependsOn(units: seq<Unit>, i: nat, j: nat) {
    i < |units| && j < |units| && i != j && NamesUnit(units, units[i].after + units[i].needs, j)
  }

  ghost predicate NamesUnit(units: seq<Unit>, names: seq<string>, j: nat) {
    exists name :: name in names && FindUnit(units, name) == Some(j)
  }

  lemma NamesOneMore(units: seq<Unit>, names: seq<string>, k: nat, j: nat)
    requires k < |names|
    ensures NamesUnit(units, names[..k + 1], j) <==>
              NamesUnit(units, names[..k], j) || FindUnit(units, names[k]) == Some(j)
  {
    hide FindUnit;
    assert names[..k + 1] == names[..k] + [names[k]];
    assert names[k] in names[..k + 1];
  }

  // ---- Walks --------------------------------------------------------------

  ghost predicate IsWalk(units: seq<Unit>, w: seq<nat>) {
    && (forall k :: 0 <= k < |w| ==> w[k] < |units|)
    && (forall k :: 0 <= k < |w| - 1 ==> DependsOn(units, w[k], w[k + 1]))
  }

  /** Some walk along dependencies from `i` comes to a unit twice. */
  ghost predicate ReachesCycle(units: seq<Unit>, i: nat) {
    exists w :: IsWalk(units, w) && w != [] && w[0] == i && !NoRepeats(w)
  }

  // ---- Counting down ------------------------------------------------------

  /** How many entries of `deps` are not in `done`. */
  function Missing(deps: seq<nat>, done: seq<nat>): nat {
    if deps == [] then 0 else Missing(deps[..|deps| - 1], done) + if deps[|deps| - 1] in done then 0 else 1
  }

  lemma {:induction false} MissingNone(deps: seq<nat>, done: seq<nat>)
    ensures Missing(deps, done) == 0 <==> forall j :: j in deps ==> j in done
  {
    if deps != [] {
      var front, last := deps[..|deps| - 1], deps[|deps| - 1];
      assert deps == front + [last];
      MissingNone(front, done);
    }
  }

  lemma {:induction false} MissingAtFirst(deps: seq<nat>)
    ensures Missing(deps, []) == |deps|
  {
    if deps != [] { MissingAtFirst(deps[..|deps| - 1]); }
  }

  lemma {:induction false} MissingLess(deps: seq<nat>, done: seq<nat>, x: nat)
    requires NoRepeats(deps) && x !in done
    ensures Missing(deps, done + [x]) == Missing(deps, done) - if x in deps then 1 else 0
  {
    if deps != [] {
      var front, last := deps[..|deps| - 1], deps[|deps| - 1];
      assert deps == front + [last];
      assert last !in front;
      MissingLess(front, done, x);
    }
  }

  // ---- The state of the main loop -----------------------------------------

  ghost predicate IsGraph(deps: Graph) {
    && (forall i :: 0 <= i < |deps| ==> NoRepeats(deps[i]))
    && (forall i, j :: 0 <= i < |deps| && j in deps[i] ==> j < |deps|)
  }

  ghost predicate HasEdge(g: Graph, i: nat, j: nat) {
    i < |g| && j in g[i]
  }

  /** `enables` has the same edges, turned round. */
  ghost predicate IsReverse(deps: Graph, enables: Graph) {
    && |enables| == |deps|
    && (forall j :: 0 <= j < |deps| ==> NoRepeats(enables[j]))
    && (forall i: nat, j: nat :: HasEdge(enables, j, i) <==> HasEdge(deps, i, j))
  }

  /** Units are scheduled exactly when they wait for nothing more. */
  ghost predicate Counted(deps: Graph, done: seq<nat>, scheduled: seq<nat>, inDegree: seq<nat>) {
    && |inDegree| == |deps|
    && (forall i :: 0 <= i < |deps| ==> inDegree[i] == Missing(deps[i], done))
    && Scheduled(scheduled, inDegree)
  }

  ghost predicate Scheduled(scheduled: seq<nat>, inDegree: seq<nat>) {
    && NoRepeats(scheduled)
    && (forall i :: 0 <= i < |scheduled| ==> scheduled[i] < |inDegree|)
    && (forall i :: 0 <= i < |inDegree| ==> (i in scheduled <==> inDegree[i] == 0))
  }

  /** Every dependency of an ordered unit comes earlier. */
  ghost predicate Topological(deps: Graph, order: seq<nat>) {
    && (forall p :: 0 <= p < |order| ==> order[p] < |deps|)
    && (forall p, j :: 0 <= p < |order| && j in deps[order[p]] ==> j in order[..p])
  }

  // ---- Ordered units reach no cycle, the others do ------------------------

  ghost predicate Represents(units: seq<Unit>, deps: Graph) {
    && |deps| == |units|
    && (forall i, j :: 0 <= i < |units| ==> (j in deps[i] <==> DependsOn(units, i, j)))
  }

  /** Along a walk from an ordered unit the positions in the order go down. */
  lemma {:induction false} WalkDescends(units: seq<Unit>, deps: Graph, order: seq<nat>, w: seq<nat>, p: nat)
    requires Represents(units, deps) && Topological(deps, order) && NoRepeats(order)
    requires IsWalk(units, w) && w != [] && p < |order| && w[0] == order[p]
    ensures NoRepeats(w)
    ensures forall k :: 0 < k < |w| ==> w[k] in order[..p]
  {
    if |w| > 1 {
      assert DependsOn(units, w[0], w[1]);
      assert w[1] in deps[order[p]];
      var q :| 0 <= q < p && order[q] == w[1];
      var tail := w[1..];
      forall k | 0 <= k < |tail| - 1
        ensures DependsOn(units, tail[k], tail[k + 1])
      {
        assert DependsOn(units, w[k + 1], w[k + 1 + 1]);
      }
      WalkDescends(units, deps, order, tail, q);
      forall k | 0 < k < |w|
        ensures w[k] in order[..p]
      {
        if k > 1 { assert tail[k - 1] in order[..q]; }
      }
      forall i, j | 0 <= i < j < |w|
        ensures w[i] != w[j]
      {
        if i > 0 { assert tail[i - 1] != tail[j - 1]; }
      }
    }
  }

  /** From a unit that was never scheduled one can walk as long as one likes. */
  lemma {:induction false} WalkOn(units: seq<Unit>, deps: Graph, order: seq<nat>, i: nat, steps: nat) returns (w: seq<nat>)
    requires Represents(units, deps) && i < |units| && i !in order
    requires forall k :: 0 <= k < |units| && k !in order ==> Missing(deps[k], order) > 0
    ensures IsWalk(units, w) && |w| == steps + 1 && w[0] == i
    decreases steps
  {
    if steps == 0 {
      w := [i];
    } else {
      MissingNone(deps[i], order);
      var j :| j in deps[i] && j !in order;
      assert DependsOn(units, i, j);
      var rest := WalkOn(units, deps, order, j, steps - 1);
      w := [i] + rest;
      forall k | 0 <= k < |w| - 1
        ensures DependsOn(units, w[k], w[k + 1])
      {
        if k > 0 { assert DependsOn(units, rest[k - 1], rest[k - 1 + 1]); }
      }
    }
  }

  /** What the order leaves out is exactly what reaches a cycle. */
  lemma LeftOutReachesCycle(units: seq<Unit>, deps: Graph, order: seq<nat>, i: nat)
    requires Represents(units, deps) && Topological(deps, order) && NoRepeats(order) && i < |units|
    requires forall k :: 0 <= k < |units| && k !in order ==> Missing(deps[k], order) > 0
    ensures i !in order <==> ReachesCycle(units, i)
  {
    if i in order {
      var p :| 0 <= p < |order| && order[p] == i;
      forall w | IsWalk(units, w) && w != [] && w[0] == i
        ensures NoRepeats(w)
      {
        WalkDescends(units, deps, order, w, p);
      }
    } else {
      var w := WalkOn(units, deps, order, i, |units|);
      if NoRepeats(w) { NoRepeatsBound(w, |units|); }
    }
  }

  // ---- Finishing one unit -------------------------------------------------

  /** The in-degrees after `enabled` have each been counted down by one. */
  ghost predicate CountedDown(inDegree: seq<nat>, enabled: seq<nat>, now: seq<nat>) {
    && |now| == |inDegree|
    && forall i :: 0 <= i < |inDegree| ==> now[i] + (if i in enabled then 1 else 0) == inDegree[i]
  }

  lemma UnitDone(deps: Graph, enables: Graph, done: seq<nat>, x: nat, inDegree: seq<nat>, now: seq<nat>)
    requires IsGraph(deps) && IsReverse(deps, enables) && x < |deps| && x !in done
    requires |inDegree| == |deps| && forall i :: 0 <= i < |deps| ==> inDegree[i] == Missing(deps[i], done)
    requires CountedDown(inDegree, enables[x], now)
    ensures forall i :: 0 <= i < |deps| ==> now[i] == Missing(deps[i], done + [x])
  {
    forall i | 0 <= i < |deps|
      ensures now[i] == Missing(deps[i], done + [x])
    {
      assert HasEdge(enables, x, i) <==> HasEdge(deps, i, x);
      MissingLess(deps[i], done, x);
    }
  }

  /** A unit that waits for `x` has not been counted down to zero before `x`. */
  lemma StillWaiting(deps: Graph, enables: Graph, done: seq<nat>, x: nat, i: nat)
    requires IsGraph(deps) && IsReverse(deps, enables) && x < |deps| && x !in done && i in enables[x]
    ensures i < |deps| && Missing(deps[i], done) > 0
  {
    assert HasEdge(enables, x, i);
    MissingNone(deps[i], done);
  }

  lemma OrderGrows(deps: Graph, order: seq<nat>, x: nat)
    requires Topological(deps, order) && x < |deps| && Missing(deps[x], order) == 0
    ensures Topological(deps, order + [x])
  {
    MissingNone(deps[x], order);
    var order' := order + [x];
    forall p, j | 0 <= p < |order'| && j in deps[order'[p]]
      ensures j in order'[..p]
    {
      assert order'[..p] == order[..p];
    }
  }

  class Engine {
    var units: seq<Unit>

    /** The dependencies of every unit, without repetitions. */
    method BuildDependsOn() returns (deps: Graph)
      ensures Represents(units, deps) && IsGraph(deps)
    {
      deps := seq(|units|, _ => []);
      for i := 0 to |units|
        invariant |deps| == |units|
        invariant forall k :: 0 <= k < i ==> NoRepeats(deps[k])
        invariant forall k, j :: 0 <= k < i ==> (j in deps[k] <==> DependsOn(units, k, j))
        invariant forall k :: i <= k < |units| ==> deps[k] == []
      {
        var ds := UnitDependsOn(i);
        deps := deps[i := ds];
      }
    }

    method UnitDependsOn(i: nat) returns (ds: seq<nat>)
      requires i < |units|
      ensures NoRepeats(ds) && forall j: nat :: j in ds <==> DependsOn(units, i, j)
    {
      hide FindUnit;
      ds := [];
      var names := units[i].after + units[i].needs;
      for k := 0 to |names|
        invariant NoRepeats(ds)
        invariant forall j: nat :: j in ds <==> i != j && j < |units| && NamesUnit(units, names[..k], j)
      {
        forall j: nat
          ensures NamesUnit(units, names[..k + 1], j) <==>
                    NamesUnit(units, names[..k], j) || FindUnit(units, names[k]) == Some(j)
        {
          NamesOneMore(units, names, k, j);
        }
        var r := FindUnit(units, names[k]);
        if r.Some? && i != r.value && r.value !in ds {
          ds := ds + [r.value];
        }
      }
      assert names[..|names|] == names;
    }

    /** The edges turned round. */
    method BuildEnables(deps: Graph) returns (enables: Graph)
      requires IsGraph(deps)
      ensures IsReverse(deps, enables)
    {
      enables := seq(|deps|, _ => []);
      for i := 0 to |deps|
        invariant |enables| == |deps|
        invariant forall j :: 0 <= j < |deps| ==> NoRepeats(enables[j])
        invariant forall j: nat, k: nat :: HasEdge(enables, j, k) <==> k < i && HasEdge(deps, k, j)
      {
        for d := 0 to |deps[i]|
          invariant |enables| == |deps|
          invariant forall j :: 0 <= j < |deps| ==> NoRepeats(enables[j])
          invariant forall j: nat, k: nat :: HasEdge(enables, j, k) <==>
                      (k < i && HasEdge(deps, k, j)) || (k == i && j in deps[i][..d])
        {
          var j := deps[i][d];
          assert j in deps[i] && j !in deps[i][..d];
          assert !HasEdge(enables, j, i);
          ghost var was := enables;
          enables := enables[j := enables[j] + [i]];
          assert forall m: nat, k: nat :: HasEdge(enables, m, k) <==> HasEdge(was, m, k) || (m == j && k == i);
        }
        assert deps[i][..|deps[i]|] == deps[i];
      }
    }

    /** Counts down the units that waited for `x`, and schedules those that now
        wait for nothing. No count goes below zero. */
    method Finish(enabled: seq<nat>, inDegree: seq<nat>, ready: seq<nat>, ghost order: seq<nat>)
      returns (inDegree': seq<nat>, ready': seq<nat>)
      requires NoRepeats(enabled) && forall i :: i in enabled ==> i < |inDegree| && inDegree[i] > 0
      requires Scheduled(order + ready, inDegree)
      ensures CountedDown(inDegree, enabled, inDegree')
      ensures Scheduled(order + ready', inDegree')
    {
      inDegree', ready' := inDegree, ready;
      for k := 0 to |enabled|
        invariant CountedDown(inDegree, enabled[..k], inDegree')
        invariant Scheduled(order + ready', inDegree')
      {
        var next := enabled[k];
        assert next in enabled && next !in enabled[..k];
        inDegree' := inDegree'[next := inDegree'[next] - 1];
        if inDegree'[next] == 0 {
          assert order + (ready' + [next]) == order + ready' + [next];
          ready' := ready' + [next];
        }
      }
      assert enabled[..|enabled|] == enabled;
    }

    /** The units to start, in order, and those that cannot be started. */
    method ResolveStartOrder() returns (order: seq<nat>, cycle: seq<nat>)
      ensures NoRepeats(order + cycle)
      ensures forall i: nat :: i < |units| <==> i in order + cycle
      ensures forall p, j :: 0 <= p < |order| && DependsOn(units, order[p], j) ==> j in order[..p]
      ensures forall i: nat :: i in cycle <==> i < |units| && ReachesCycle(units, i)
    {
      if |units| == 0 {
        return [], [];
      }
      var deps := BuildDependsOn();
      var enables := BuildEnables(deps);
      var inDegree, ready := Start(deps);
      inDegree, order := Run(deps, enables, inDegree, ready);
      cycle := [];
      if |order| < |units| {
        cycle := Waiting(inDegree);
      } else {
        AllOrdered(order, |units|);
      }
      assert forall i :: 0 <= i < |order| ==> order[i] in order;
      assert forall i :: 0 <= i < |cycle| ==> cycle[i] in cycle;
      forall i | 0 <= i < |units|
        ensures i !in order <==> ReachesCycle(units, i)
      {
        LeftOutReachesCycle(units, deps, order, i);
      }
    }

    /** The number of dependencies of each unit, and the units without any. */
    method Start(deps: Graph) returns (inDegree: seq<nat>, ready: seq<nat>)
      requires IsGraph(deps)
      ensures Counted(deps, [], ready, inDegree)
    {
      inDegree := seq(|deps|, i requires 0 <= i < |deps| => |deps[i]|);
      ready := [];
      for i := 0 to |deps|
        invariant NoRepeats(ready)
        invariant forall k: nat :: k in ready <==> k < i && inDegree[k] == 0
      {
        if inDegree[i] == 0 {
          ready := ready + [i];
        }
      }
      forall i | 0 <= i < |deps|
        ensures inDegree[i] == Missing(deps[i], [])
      {
        MissingAtFirst(deps[i]);
      }
      forall i | 0 <= i < |ready|
        ensures ready[i] < |inDegree|
      {
        assert ready[i] in ready;
      }
    }

    /** Takes ready units one by one until there are none. */
    method Run(deps: Graph, enables: Graph, start: seq<nat>, startReady: seq<nat>)
      returns (inDegree: seq<nat>, order: seq<nat>)
      requires IsGraph(deps) && IsReverse(deps, enables) && Counted(deps, [], startReady, start)
      ensures Counted(deps, order, order, inDegree) && Topological(deps, order)
    {
      var ready := startReady;
      inDegree, order := start, [];
      assert order + ready == ready;
      while ready != []
        invariant Counted(deps, order, order + ready, inDegree) && Topological(deps, order)
        decreases |deps| - |order|
      {
        var idx := ready[|ready| - 1];
        OneLeft(deps, order, ready, inDegree);
        ghost var done := order;
        ready := ready[..|ready| - 1];
        order := order + [idx];
        forall i | i in enables[idx]
          ensures i < |inDegree| && inDegree[i] > 0
        {
          StillWaiting(deps, enables, done, idx, i);
        }
        ghost var was := inDegree;
        inDegree, ready := Finish(enables[idx], inDegree, ready, order);
        UnitDone(deps, enables, done, idx, was, inDegree);
      }
      assert order + ready == order;
    }

    method Waiting(inDegree: seq<nat>) returns (cycle: seq<nat>)
      ensures NoRepeats(cycle) && forall i: nat :: i in cycle <==> i < |inDegree| && inDegree[i] > 0
    {
      cycle := [];
      for i := 0 to |inDegree|
        invariant NoRepeats(cycle) && forall k: nat :: k in cycle <==> k < i && inDegree[k] > 0
      {
        if inDegree[i] > 0 {
          cycle := cycle + [i];
        }
      }
    }
  }

  /** What holds when the last ready unit is taken. */
  lemma OneLeft(deps: Graph, order: seq<nat>, ready: seq<nat>, inDegree: seq<nat>)
    requires Counted(deps, order, order + ready, inDegree) && Topological(deps, order) && ready != []
    ensures
      var idx, rest := ready[|ready| - 1], ready[..|ready| - 1];
      && idx < |deps| && idx !in order && |order| < |deps|
      && Scheduled(order + [idx] + rest, inDegree) && Topological(deps, order + [idx])
  {
    var idx, rest := ready[|ready| - 1], ready[..|ready| - 1];
    var all := order + ready;
    assert all[|all| - 1] == idx && all[|all| - 1] in all;
    assert forall i :: 0 <= i < |order| ==> all[i] == order[i];
    NoRepeatsBound(all, |deps|);
    OrderGrows(deps, order, idx);
    var all' := order + [idx] + rest;
    forall i | 0 <= i < |all'|
      ensures all'[i] == all[if i < |order| then i else if i == |order| then |all| - 1 else i - 1]
    {
    }
    assert forall i :: i in all' <==> i in all;
  }

  lemma AllOrdered(order: seq<nat>, n: nat)
    requires NoRepeats(order) && (forall i :: 0 <= i < |order| ==> order[i] < n) && |order| >= n
    ensures forall i: nat :: i < n ==> i in order
  {
    NoRepeatsBound(order, n);
    forall i: nat | i < n
      ensures i in order
    {
      NoRepeatsIsAll(order, n, i);
    }
  }

  /** All units can be started exactly when the dependencies have no cycle. */
  lemma NothingLeftOut(units: seq<Unit>, cycle: seq<nat>)
    requires forall i: nat :: i in cycle <==> i < |units| && ReachesCycle(units, i)
    ensures cycle == [] <==> forall w :: IsWalk(units, w) ==> NoRepeats(w)
  {
    if cycle == [] {
      forall w | IsWalk(units, w)
        ensures NoRepeats(w)
      {
        if w != [] { assert w[0] !in cycle; }
      }
    } else {
      assert cycle[0] in cycle;
    }
  }
}
