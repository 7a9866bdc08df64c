/**
 * The forward and backward passes of the Critical Path Method (tasks/critical_path.py,
 * `_forward_pass`, `_get_project_duration`, `_backward_pass`, `_calculate_float`), and what the
 * times they produce satisfy.
 */
module Schedule {
  import opened Seqs
  import opened Tasks
  import opened DependencyGraph

  /** `task_dict[id].duration or 0` for every key in scope. */
  function DurationOf(tasks: seq<Task>): (dur: map<Id, int>)
    requires DistinctIds(tasks)
    ensures dur.Keys == Ids(tasks)
    ensures forall i :: 0 <= i < |tasks| ==> dur[tasks[i].id] == Duration(tasks[i])
  {
    if tasks == [] then map[]
    else
      DistinctIdsTail(tasks);
      var rest := DurationOf(tasks[1..]);
      assert IdsOf(tasks) == [tasks[0].id] + IdsOf(tasks[1..]);
      assert forall i :: 1 <= i < |tasks| ==> tasks[i].id == tasks[1..][i - 1].id && tasks[i].id != tasks[0].id by {
        forall i | 1 <= i < |tasks| ensures tasks[i].id != tasks[0].id {
          assert IdsOf(tasks)[i] == tasks[i].id && IdsOf(tasks)[0] == tasks[0].id;
        }
      }
      rest[tasks[0].id := Duration(tasks[0])]
  }

  /** The latest finish among `ps`: `max(early_start[p] + duration(p) for p in ps)`. */
  function MaxFinish(es: map<Id, int>, dur: map<Id, int>, ps: seq<Id>): (m: int)
    requires ps != []
    requires forall k :: 0 <= k < |ps| ==> ps[k] in es && ps[k] in dur
    ensures forall k :: 0 <= k < |ps| ==> es[ps[k]] + dur[ps[k]] <= m
    ensures exists k :: 0 <= k < |ps| && es[ps[k]] + dur[ps[k]] == m
  {
    var f := es[ps[0]] + dur[ps[0]];
    if |ps| == 1 then f
    else
      var m := MaxFinish(es, dur, ps[1..]);
      var k :| 0 <= k < |ps[1..]| && es[ps[1..][k]] + dur[ps[1..][k]] == m;
      assert ps[k + 1] == ps[1..][k];
      if f >= m then f else m
  }

  /** The earliest late start among `ss`: `min(late_finish[s] - duration(s) for s in ss)`. */
  function MinStart(lf: map<Id, int>, dur: map<Id, int>, ss: seq<Id>): (m: int)
    requires ss != []
    requires forall k :: 0 <= k < |ss| ==> ss[k] in lf && ss[k] in dur
    ensures forall k :: 0 <= k < |ss| ==> m <= lf[ss[k]] - dur[ss[k]]
    ensures exists k :: 0 <= k < |ss| && lf[ss[k]] - dur[ss[k]] == m
  {
    var f := lf[ss[0]] - dur[ss[0]];
    if |ss| == 1 then f
    else
      var m := MinStart(lf, dur, ss[1..]);
      var k :| 0 <= k < |ss[1..]| && lf[ss[1..][k]] - dur[ss[1..][k]] == m;
      assert ss[k + 1] == ss[1..][k];
      if f <= m then f else m
  }

  /** A map with one entry per node. */
  ghost predicate PerNode(g: Graph, m: map<Id, int>) {
    ListsInside(g) && m.Keys == NodeSet(g)
  }

  /**
   * The early start of `v` is 0 without dependencies, and otherwise the latest early finish
   * among them: no dependency finishes after it starts, and one finishes exactly then.
   */
  ghost predicate EarlyStartAt(g: Graph, dur: map<Id, int>, es: map<Id, int>, v: Id)
    requires PerNode(g, dur) && PerNode(g, es) && v in NodeSet(g)
  {
    var ps := g.pred[v];
    && (ps == [] ==> es[v] == 0)
    && (forall k :: 0 <= k < |ps| ==> es[ps[k]] + dur[ps[k]] <= es[v])
    && (ps != [] ==> exists k :: 0 <= k < |ps| && es[ps[k]] + dur[ps[k]] == es[v])
  }

  ghost predicate EarlyStarts(g: Graph, dur: map<Id, int>, es: map<Id, int>)
    requires PerNode(g, dur) && PerNode(g, es)
  {
    forall v :: v in NodeSet(g) ==> EarlyStartAt(g, dur, es, v)
  }

  /**
   * The late finish of `v` is the project duration without dependents, and otherwise the
   * earliest late start among them.
   */
  ghost predicate LateFinishAt(g: Graph, dur: map<Id, int>, pd: int, lf: map<Id, int>, v: Id)
    requires PerNode(g, dur) && PerNode(g, lf) && v in NodeSet(g)
  {
    var ss := g.succ[v];
    && (ss == [] ==> lf[v] == pd)
    && (forall k :: 0 <= k < |ss| ==> lf[v] <= lf[ss[k]] - dur[ss[k]])
    && (ss != [] ==> exists k :: 0 <= k < |ss| && lf[ss[k]] - dur[ss[k]] == lf[v])
  }

  ghost predicate LateFinishes(g: Graph, dur: map<Id, int>, pd: int, lf: map<Id, int>)
    requires PerNode(g, dur) && PerNode(g, lf)
  {
    forall v :: v in NodeSet(g) ==> LateFinishAt(g, dur, pd, lf, v)
  }

  /** Setting the start of a task that is neither `w` nor one of its dependencies leaves `w`'s equation alone. */
  lemma EarlyStartFrame(g: Graph, dur: map<Id, int>, es: map<Id, int>, w: Id, x: Id, val: int)
    requires PerNode(g, dur) && PerNode(g, es) && w in NodeSet(g) && x in NodeSet(g)
    requires x != w && x !in g.pred[w]
    ensures EarlyStartAt(g, dur, es, w) <==> EarlyStartAt(g, dur, es[x := val], w)
  {
    var ps := g.pred[w];
    assert forall k :: 0 <= k < |ps| ==> es[x := val][ps[k]] == es[ps[k]];
  }

  /** Setting the finish of a task that is neither `w` nor one of its dependents leaves `w`'s equation alone. */
  lemma LateFinishFrame(g: Graph, dur: map<Id, int>, pd: int, lf: map<Id, int>, w: Id, x: Id, val: int)
    requires PerNode(g, dur) && PerNode(g, lf) && w in NodeSet(g) && x in NodeSet(g)
    requires x != w && x !in g.succ[w]
    ensures LateFinishAt(g, dur, pd, lf, w) <==> LateFinishAt(g, dur, pd, lf[x := val], w)
  {
    var ss := g.succ[w];
    assert forall k :: 0 <= k < |ss| ==> lf[x := val][ss[k]] == lf[ss[k]];
  }

  /** A later task in a topological order is not among the dependents of an earlier one. */
  lemma OrderSeparatesSucc(g: Graph, order: seq<Id>, i: nat, j: nat)
    requires ListsInside(g) && TopoOrder(g, order)
    requires j < i < |order|
    ensures order[i] != order[j]
    ensures order[j] !in g.succ[order[i]]
  {
    var a, b := order[i], order[j];
    assert a in NodeSet(g);
    assert b in g.succ[a] ==> Edge(g, a, b);
  }

  /** A later task in a topological order is not among the dependencies of an earlier one. */
  lemma OrderSeparates(g: Graph, order: seq<Id>, i: nat, j: nat)
    requires ListsInside(g) && Mirrored(g) && TopoOrder(g, order)
    requires j < i < |order|
    ensures order[i] != order[j]
    ensures order[i] !in g.pred[order[j]]
  {
    var a, b := order[i], order[j];
    assert a in NodeSet(g) && b in NodeSet(g);
    assert a in g.pred[b] ==> Edge(g, a, b);
  }

  /**
   * `_forward_pass`: walking the topological order, each task's early start becomes the latest
   * early finish among its dependencies, or 0 when it has none.
   */
  method ForwardPass(g: Graph, dur: map<Id, int>, order: seq<Id>) returns (es: map<Id, int>)
    requires PerNode(g, dur) && Mirrored(g)
    requires TopoOrder(g, order)
    ensures PerNode(g, es)
    ensures EarlyStarts(g, dur, es)
  {
    es := map v | v in NodeSet(g) :: 0;
    var i := 0;
    while i < |order|
      invariant 0 <= i <= |order|
      invariant PerNode(g, es)
      invariant forall j :: 0 <= j < i ==> EarlyStartAt(g, dur, es, order[j])
    {
      EarlierNotDependencies(g, order, i);
      ForwardStep(g, dur, order, i, es);
      es := es[order[i] := StartFromPreds(g, dur, es, order[i])];
      i := i + 1;
    }
    forall v | v in NodeSet(g) ensures EarlyStartAt(g, dur, es, v) {
      var j := FirstIndex(order, v);
    }
  }

  /** The start the forward pass gives `v` from the current early starts of its dependencies. */
  function StartFromPreds(g: Graph, dur: map<Id, int>, es: map<Id, int>, v: Id): (start: int)
    requires PerNode(g, dur) && PerNode(g, es) && v in NodeSet(g)
    ensures g.pred[v] == [] ==> start == 0
    ensures forall k :: 0 <= k < |g.pred[v]| ==> es[g.pred[v][k]] + dur[g.pred[v][k]] <= start
    ensures g.pred[v] != [] ==> exists k :: 0 <= k < |g.pred[v]| && es[g.pred[v][k]] + dur[g.pred[v][k]] == start
  {
    if g.pred[v] != [] then MaxFinish(es, dur, g.pred[v]) else 0
  }

  /** One round of the forward pass keeps the equations of the tasks already placed and settles the next. */
  lemma ForwardStep(g: Graph, dur: map<Id, int>, order: seq<Id>, i: nat, es: map<Id, int>)
    requires PerNode(g, dur) && PerNode(g, es)
    requires i < |order| && order[i] in NodeSet(g) && order[i] !in g.pred[order[i]]
    requires forall j :: 0 <= j < i ==> order[j] in NodeSet(g) && order[j] != order[i] && order[i] !in g.pred[order[j]]
    requires forall j :: 0 <= j < i ==> EarlyStartAt(g, dur, es, order[j])
    ensures forall j :: 0 <= j < i + 1 ==>
      EarlyStartAt(g, dur, es[order[i] := StartFromPreds(g, dur, es, order[i])], order[j])
  {
    var v := order[i];
    var start := StartFromPreds(g, dur, es, v);
    var es' := es[v := start];
    EarlyStartSettle(g, dur, es, v, start);
    forall j | 0 <= j < i + 1 ensures EarlyStartAt(g, dur, es', order[j]) {
      if j < i {
        EarlyStartFrame(g, dur, es, order[j], v, start);
      }
    }
  }

  /** In a topological order, no task is its own dependency or a dependency of an earlier task. */
  lemma EarlierNotDependencies(g: Graph, order: seq<Id>, i: nat)
    requires ListsInside(g) && Mirrored(g) && TopoOrder(g, order)
    requires i < |order|
    ensures order[i] in NodeSet(g) && order[i] !in g.pred[order[i]]
    ensures forall j :: 0 <= j < i ==> order[j] in NodeSet(g) && order[j] != order[i] && order[i] !in g.pred[order[j]]
  {
    var v := order[i];
    assert v in NodeSet(g);
    assert v in g.pred[v] ==> Edge(g, v, v);
    assert !Edge(g, order[i], order[i]);
    forall j | 0 <= j < i ensures order[j] in NodeSet(g) && order[j] != order[i] && order[i] !in g.pred[order[j]] {
      OrderSeparates(g, order, i, j);
    }
  }

  /** Giving a task with no self-dependency the start its dependencies call for satisfies its equation. */
  lemma EarlyStartSettle(g: Graph, dur: map<Id, int>, es: map<Id, int>, v: Id, start: int)
    requires PerNode(g, dur) && PerNode(g, es) && v in NodeSet(g) && v !in g.pred[v]
    requires g.pred[v] == [] ==> start == 0
    requires forall k :: 0 <= k < |g.pred[v]| ==> es[g.pred[v][k]] + dur[g.pred[v][k]] <= start
    requires g.pred[v] != [] ==> exists k :: 0 <= k < |g.pred[v]| && es[g.pred[v][k]] + dur[g.pred[v][k]] == start
    ensures EarlyStartAt(g, dur, es[v := start], v)
  {
    var ps := g.pred[v];
    assert forall k :: 0 <= k < |ps| ==> es[v := start][ps[k]] == es[ps[k]];
  }

  /** The finish the backward pass gives `v` from the current late finishes of its dependents. */
  function FinishFromSuccs(g: Graph, dur: map<Id, int>, pd: int, lf: map<Id, int>, v: Id): (finish: int)
    requires PerNode(g, dur) && PerNode(g, lf) && v in NodeSet(g)
    ensures g.succ[v] == [] ==> finish == pd
    ensures forall k :: 0 <= k < |g.succ[v]| ==> finish <= lf[g.succ[v][k]] - dur[g.succ[v][k]]
    ensures g.succ[v] != [] ==> exists k :: 0 <= k < |g.succ[v]| && lf[g.succ[v][k]] - dur[g.succ[v][k]] == finish
  {
    if g.succ[v] != [] then MinStart(lf, dur, g.succ[v]) else pd
  }

  /** One round of the backward pass keeps the equations of the tasks already placed and settles the next. */
  lemma BackwardStep(g: Graph, dur: map<Id, int>, pd: int, order: seq<Id>, i: nat, lf: map<Id, int>)
    requires PerNode(g, dur) && PerNode(g, lf)
    requires i < |order| && order[i] in NodeSet(g) && order[i] !in g.succ[order[i]]
    requires forall j :: i < j < |order| ==> order[j] in NodeSet(g) && order[j] != order[i] && order[i] !in g.succ[order[j]]
    requires forall j :: i < j < |order| ==> LateFinishAt(g, dur, pd, lf, order[j])
    ensures forall j :: i <= j < |order| ==>
      LateFinishAt(g, dur, pd, lf[order[i] := FinishFromSuccs(g, dur, pd, lf, order[i])], order[j])
  {
    var v := order[i];
    var finish := FinishFromSuccs(g, dur, pd, lf, v);
    var lf' := lf[v := finish];
    LateFinishSettle(g, dur, pd, lf, v, finish);
    forall j | i <= j < |order| ensures LateFinishAt(g, dur, pd, lf', order[j]) {
      if j > i {
        LateFinishFrame(g, dur, pd, lf, order[j], v, finish);
      }
    }
  }

  /** In a topological order, no task is its own dependent or a dependent of a later task. */
  lemma LaterNotDependents(g: Graph, order: seq<Id>, i: nat)
    requires ListsInside(g) && TopoOrder(g, order)
    requires i < |order|
    ensures order[i] in NodeSet(g) && order[i] !in g.succ[order[i]]
    ensures forall j :: i < j < |order| ==> order[j] in NodeSet(g) && order[j] != order[i] && order[i] !in g.succ[order[j]]
  {
    assert !Edge(g, order[i], order[i]);
    forall j | i < j < |order| ensures order[j] in NodeSet(g) && order[j] != order[i] && order[i] !in g.succ[order[j]] {
      OrderSeparatesSucc(g, order, j, i);
    }
  }

  /** Giving a task with no self-dependency the finish its dependents call for satisfies its equation. */
  lemma LateFinishSettle(g: Graph, dur: map<Id, int>, pd: int, lf: map<Id, int>, v: Id, finish: int)
    requires PerNode(g, dur) && PerNode(g, lf) && v in NodeSet(g) && v !in g.succ[v]
    requires g.succ[v] == [] ==> finish == pd
    requires forall k :: 0 <= k < |g.succ[v]| ==> finish <= lf[g.succ[v][k]] - dur[g.succ[v][k]]
    requires g.succ[v] != [] ==> exists k :: 0 <= k < |g.succ[v]| && lf[g.succ[v][k]] - dur[g.succ[v][k]] == finish
    ensures LateFinishAt(g, dur, pd, lf[v := finish], v)
  {
    var ss := g.succ[v];
    assert v !in ss;
    assert forall k :: 0 <= k < |ss| ==> lf[v := finish][ss[k]] == lf[ss[k]];
  }

  /** `_get_project_duration`: the latest early finish over all tasks. */
  function ProjectDuration(g: Graph, dur: map<Id, int>, es: map<Id, int>): (pd: int)
    requires PerNode(g, dur) && PerNode(g, es)
    requires g.nodes != []
    ensures forall v :: v in NodeSet(g) ==> es[v] + dur[v] <= pd
    ensures exists v :: v in NodeSet(g) && es[v] + dur[v] == pd
  {
    var pd := MaxFinish(es, dur, g.nodes);
    forall v | v in NodeSet(g) ensures es[v] + dur[v] <= pd {
      var k := FirstIndex(g.nodes, v);
    }
    var k :| 0 <= k < |g.nodes| && es[g.nodes[k]] + dur[g.nodes[k]] == pd;
    var w := g.nodes[k];
    assert w in NodeSet(g) && es[w] + dur[w] == pd;
    pd
  }

  /**
   * `_backward_pass`: walking the topological order backwards, each task's late finish becomes the
   * earliest late start among its dependents, or the project duration when it has none.
   */
  method BackwardPass(g: Graph, dur: map<Id, int>, order: seq<Id>, pd: int) returns (lf: map<Id, int>)
    requires PerNode(g, dur)
    requires TopoOrder(g, order)
    ensures PerNode(g, lf)
    ensures LateFinishes(g, dur, pd, lf)
  {
    lf := map v | v in NodeSet(g) :: pd;
    var i := |order|;
    while i > 0
      invariant 0 <= i <= |order|
      invariant PerNode(g, lf)
      invariant forall j :: i <= j < |order| ==> LateFinishAt(g, dur, pd, lf, order[j])
    {
      i := i - 1;
      LaterNotDependents(g, order, i);
      BackwardStep(g, dur, pd, order, i, lf);
      lf := lf[order[i] := FinishFromSuccs(g, dur, pd, lf, order[i])];
    }
    forall v | v in NodeSet(g) ensures LateFinishAt(g, dur, pd, lf, v) {
      var j := FirstIndex(order, v);
    }
  }

  /** `_calculate_float`: a task is critical when its late start equals its early start. */
  ghost predicate Critical(g: Graph, dur: map<Id, int>, es: map<Id, int>, lf: map<Id, int>, v: Id)
    requires PerNode(g, dur) && PerNode(g, es) && PerNode(g, lf) && v in NodeSet(g)
  {
    (lf[v] - dur[v]) - es[v] == 0
  }

  /** The setting shared by the lemmas below: both passes ran, from a project duration no early finish exceeds. */
  ghost predicate Scheduled(g: Graph, dur: map<Id, int>, es: map<Id, int>, lf: map<Id, int>, pd: int) {
    && PerNode(g, dur) && PerNode(g, es) && PerNode(g, lf)
    && Mirrored(g)
    && EarlyStarts(g, dur, es) && LateFinishes(g, dur, pd, lf)
    && (forall v :: v in NodeSet(g) ==> es[v] + dur[v] <= pd)
  }

  /** A dependency finishes, early, no later than its dependent starts. */
  lemma DependencyFinishesFirst(g: Graph, dur: map<Id, int>, es: map<Id, int>, u: Id, v: Id)
    requires PerNode(g, dur) && PerNode(g, es) && Mirrored(g)
    requires EarlyStarts(g, dur, es)
    requires Edge(g, u, v)
    ensures u in NodeSet(g) && v in NodeSet(g)
    ensures es[u] + dur[u] <= es[v]
  {
    assert u in g.pred[v];
    var k :| 0 <= k < |g.pred[v]| && g.pred[v][k] == u;
    assert EarlyStartAt(g, dur, es, v);
  }

  /** Total float is never negative: every task's late finish is at or after its early finish. */
  lemma FloatNonNegative(g: Graph, dur: map<Id, int>, es: map<Id, int>, lf: map<Id, int>, pd: int, order: seq<Id>)
    requires Scheduled(g, dur, es, lf, pd) && TopoOrder(g, order)
    ensures forall v :: v in NodeSet(g) ==> es[v] + dur[v] <= lf[v]
  {
    var pos := TopoOrderRanked(g, order);
    forall v | v in NodeSet(g) ensures es[v] + dur[v] <= lf[v] {
      FloatAt(g, dur, es, lf, pd, pos, |order|, v);
    }
  }

  /** The float of `v`, by induction on how far `v` sits from the end of the numbering. */
  lemma {:induction false} FloatAt(g: Graph, dur: map<Id, int>, es: map<Id, int>, lf: map<Id, int>, pd: int,
                                   pos: map<Id, int>, n: int, v: Id)
    requires Scheduled(g, dur, es, lf, pd) && Ranked(g, pos, n)
    requires v in NodeSet(g)
    ensures es[v] + dur[v] <= lf[v]
    decreases n - pos[v]
  {
    assert LateFinishAt(g, dur, pd, lf, v);
    var ss := g.succ[v];
    if ss != [] {
      var k :| 0 <= k < |ss| && lf[ss[k]] - dur[ss[k]] == lf[v];
      assert Edge(g, v, ss[k]);
      DependencyFinishesFirst(g, dur, es, v, ss[k]);
      FloatAt(g, dur, es, lf, pd, pos, n, ss[k]);
    }
  }

  /** With no negative durations, no task's late finish lies beyond the project duration. */
  lemma LateWithinProject(g: Graph, dur: map<Id, int>, es: map<Id, int>, lf: map<Id, int>, pd: int, order: seq<Id>)
    requires Scheduled(g, dur, es, lf, pd) && TopoOrder(g, order)
    requires forall v :: v in dur ==> dur[v] >= 0
    ensures forall v :: v in NodeSet(g) ==> lf[v] <= pd
  {
    var pos := TopoOrderRanked(g, order);
    forall v | v in NodeSet(g) ensures lf[v] <= pd {
      LateWithinAt(g, dur, es, lf, pd, pos, |order|, v);
    }
  }

  lemma {:induction false} LateWithinAt(g: Graph, dur: map<Id, int>, es: map<Id, int>, lf: map<Id, int>, pd: int,
                                        pos: map<Id, int>, n: int, v: Id)
    requires Scheduled(g, dur, es, lf, pd) && Ranked(g, pos, n)
    requires forall v :: v in dur ==> dur[v] >= 0
    requires v in NodeSet(g)
    ensures lf[v] <= pd
    decreases n - pos[v]
  {
    assert LateFinishAt(g, dur, pd, lf, v);
    var ss := g.succ[v];
    if ss != [] {
      var k :| 0 <= k < |ss| && lf[ss[k]] - dur[ss[k]] == lf[v];
      assert Edge(g, v, ss[k]);
      LateWithinAt(g, dur, es, lf, pd, pos, n, ss[k]);
    }
  }

  /**
   * With no negative durations, some task is critical: one whose early finish is the project
   * duration.
   */
  lemma SomeTaskCritical(g: Graph, dur: map<Id, int>, es: map<Id, int>, lf: map<Id, int>, pd: int, order: seq<Id>)
    requires Scheduled(g, dur, es, lf, pd) && TopoOrder(g, order)
    requires forall v :: v in dur ==> dur[v] >= 0
    requires exists v :: v in NodeSet(g) && es[v] + dur[v] == pd
    ensures exists v :: v in NodeSet(g) && Critical(g, dur, es, lf, v)
  {
    var v :| v in NodeSet(g) && es[v] + dur[v] == pd;
    FloatNonNegative(g, dur, es, lf, pd, order);
    LateWithinProject(g, dur, es, lf, pd, order);
    assert Critical(g, dur, es, lf, v);
  }

  /** A critical task with dependencies has a critical one: a dependency that finishes last. */
  lemma CriticalHasCriticalPred(g: Graph, dur: map<Id, int>, es: map<Id, int>, lf: map<Id, int>, pd: int,
                                v: Id) returns (u: Id)
    requires Scheduled(g, dur, es, lf, pd)
    requires forall x :: x in NodeSet(g) ==> es[x] + dur[x] <= lf[x]
    requires v in NodeSet(g) && Critical(g, dur, es, lf, v)
    requires g.pred[v] != []
    ensures u in g.pred[v] && u in NodeSet(g) && Critical(g, dur, es, lf, u)
  {
    assert EarlyStartAt(g, dur, es, v);
    var k :| 0 <= k < |g.pred[v]| && es[g.pred[v][k]] + dur[g.pred[v][k]] == es[v];
    u := g.pred[v][k];
    assert u in g.pred[v];
    assert Edge(g, u, v);
    assert u in NodeSet(g);
    assert LateFinishAt(g, dur, pd, lf, u);
    var i :| 0 <= i < |g.succ[u]| && g.succ[u][i] == v;
  }

  /** A critical task with dependents has a critical one: a dependent that must start first. */
  lemma CriticalHasCriticalSucc(g: Graph, dur: map<Id, int>, es: map<Id, int>, lf: map<Id, int>, pd: int,
                                v: Id) returns (w: Id)
    requires Scheduled(g, dur, es, lf, pd)
    requires forall x :: x in NodeSet(g) ==> es[x] + dur[x] <= lf[x]
    requires v in NodeSet(g) && Critical(g, dur, es, lf, v)
    requires g.succ[v] != []
    ensures w in g.succ[v] && w in NodeSet(g) && Critical(g, dur, es, lf, w)
  {
    assert LateFinishAt(g, dur, pd, lf, v);
    var k :| 0 <= k < |g.succ[v]| && lf[g.succ[v][k]] - dur[g.succ[v][k]] == lf[v];
    w := g.succ[v][k];
    assert Edge(g, v, w);
    DependencyFinishesFirst(g, dur, es, v, w);
  }

  /**
   * Two maps that both satisfy the forward-pass equations agree: the early starts are determined
   * by the durations and the graph alone.
   */
  lemma EarlyStartsUnique(g: Graph, dur: map<Id, int>, es1: map<Id, int>, es2: map<Id, int>, order: seq<Id>)
    requires PerNode(g, dur) && PerNode(g, es1) && PerNode(g, es2) && Mirrored(g) && TopoOrder(g, order)
    requires EarlyStarts(g, dur, es1) && EarlyStarts(g, dur, es2)
    ensures es1 == es2
  {
    var pos := TopoOrderRanked(g, order);
    forall v | v in NodeSet(g) ensures es1[v] == es2[v] {
      UniqueAt(g, dur, es1, es2, pos, |order|, v);
    }
  }

  lemma {:induction false} UniqueAt(g: Graph, dur: map<Id, int>, es1: map<Id, int>, es2: map<Id, int>,
                                    pos: map<Id, int>, n: int, v: Id)
    requires PerNode(g, dur) && PerNode(g, es1) && PerNode(g, es2) && Mirrored(g) && Ranked(g, pos, n)
    requires EarlyStarts(g, dur, es1) && EarlyStarts(g, dur, es2)
    requires v in NodeSet(g)
    ensures es1[v] == es2[v]
    decreases pos[v]
  {
    var ps := g.pred[v];
    forall k | 0 <= k < |ps| ensures es1[ps[k]] == es2[ps[k]] {
      assert ps[k] in ps;
      assert Edge(g, ps[k], v);
      UniqueAt(g, dur, es1, es2, pos, n, ps[k]);
    }
    assert EarlyStartAt(g, dur, es1, v) && EarlyStartAt(g, dur, es2, v);
    if ps != [] {
      var k1 :| 0 <= k1 < |ps| && es1[ps[k1]] + dur[ps[k1]] == es1[v];
      var k2 :| 0 <= k2 < |ps| && es2[ps[k2]] + dur[ps[k2]] == es2[v];
      assert es1[ps[k2]] + dur[ps[k2]] <= es1[v];
      assert es2[ps[k1]] + dur[ps[k1]] <= es2[v];
    }
  }
}
