/** `_topological_sort` (tasks/critical_path.py): Kahn's algorithm over the dependency graph. */
module TopologicalSort {
  import opened Seqs
  import opened Tasks
  import opened DependencyGraph

  /** `for v in vs: in_degree[v] += 1`. */
  function Bump(deg: map<Id, int>, vs: seq<Id>): (r: map<Id, int>)
    requires Elems(vs) <= deg.Keys
    ensures r.Keys == deg.Keys
    ensures Distinct(vs) ==> forall x :: x in r ==> r[x] == deg[x] + (if x in vs then 1 else 0)
  {
    if vs == [] then deg
    else
      assert forall k :: 0 <= k < |vs[1..]| ==> vs[1..][k] != vs[0] || !Distinct(vs);
      Bump(deg[vs[0] := deg[vs[0]] + 1], vs[1..])
  }

  /**
   * The in-degree loop: for every task `u` of `us` in order and every successor `v` of it,
   * `in_degree[v] += 1`. The result adds to each count the number of predecessors found in `us`.
   */
  function CountInDegrees(g: Graph, us: seq<Id>, deg: map<Id, int>): (r: map<Id, int>)
    requires Valid(g)
    requires deg.Keys == NodeSet(g)
    requires Elems(us) <= NodeSet(g)
    requires Distinct(us)
    ensures r.Keys == NodeSet(g)
    ensures forall v :: v in r ==> r[v] == deg[v] + |g.pred[v]| - CountOutside(g.pred[v], Elems(us))
  {
    if us == [] then
      assert forall v :: v in deg ==> CountOutside(g.pred[v], Elems(us)) == |g.pred[v]| by {
        forall v | v in deg ensures CountOutside(g.pred[v], Elems(us)) == |g.pred[v]| {
          CountOutsideNone(g.pred[v], Elems(us));
        }
      }
      deg
    else
      var u := us[0];
      SuccsAreNodes(g, u);
      var bumped := Bump(deg, g.succ[u]);
      var r := CountInDegrees(g, us[1..], bumped);
      assert Elems(us) == Elems(us[1..]) + {u};
      assert u !in us[1..] by {
        assert forall k :: 0 <= k < |us[1..]| ==> us[1..][k] != u;
      }
      forall v | v in r ensures r[v] == deg[v] + |g.pred[v]| - CountOutside(g.pred[v], Elems(us)) {
        CountOutsideAdd(g.pred[v], Elems(us[1..]), u);
      }
      r
  }

  /** With `s` empty, every element counts as outside. */
  lemma {:induction false} CountOutsideNone(p: seq<Id>, s: set<Id>)
    requires s == {}
    ensures CountOutside(p, s) == |p|
  {
    if p != [] {
      CountOutsideNone(p[1..], s);
    }
  }

  /** `in_degree` after the counting loop: each task's number of in-scope dependencies. */
  function InitialInDegrees(g: Graph): (deg: map<Id, int>)
    requires Valid(g)
    ensures deg.Keys == NodeSet(g)
    ensures forall v :: v in deg ==> deg[v] == |g.pred[v]|
  {
    var zero := map v | v in NodeSet(g) :: 0;
    var deg := CountInDegrees(g, g.nodes, zero);
    forall v | v in deg ensures deg[v] == |g.pred[v]| {
      CountOutsideZero(g.pred[v], NodeSet(g));
      assert Elems(g.pred[v]) <= NodeSet(g) by {
        forall w | w in g.pred[v] ensures w in NodeSet(g) {
          assert Edge(g, w, v);
        }
      }
    }
    deg
  }

  /**
   * The inner loop of Kahn's algorithm: `in_degree[v] -= 1` for every successor `v`, appending to
   * the queue each one whose count reaches zero.
   */
  function Release(deg: map<Id, int>, vs: seq<Id>, queue: seq<Id>): (r: (map<Id, int>, seq<Id>))
    requires Elems(vs) <= deg.Keys
    ensures r.0.Keys == deg.Keys
    ensures |r.1| >= |queue| && r.1[..|queue|] == queue
  {
    if vs == [] then (deg, queue)
    else
      var v := vs[0];
      var deg' := deg[v := deg[v] - 1];
      var queue' := if deg'[v] == 0 then queue + [v] else queue;
      var r := Release(deg', vs[1..], queue');
      assert r.1[..|queue|] == r.1[..|queue'|][..|queue|];
      r
  }

  /** When no successor is listed twice, each successor's count drops by exactly one. */
  lemma {:induction false} ReleaseCounts(deg: map<Id, int>, vs: seq<Id>, queue: seq<Id>)
    requires Elems(vs) <= deg.Keys && Distinct(vs)
    ensures forall x :: x in deg ==> Release(deg, vs, queue).0[x] == deg[x] - (if x in vs then 1 else 0)
  {
    if vs != [] {
      var v := vs[0];
      var deg' := deg[v := deg[v] - 1];
      var queue' := if deg'[v] == 0 then queue + [v] else queue;
      assert vs == [v] + vs[1..];
      DistinctSplit([v], vs[1..]);
      ReleaseCounts(deg', vs[1..], queue');
    }
  }

  /**
   * When no successor is listed twice, the queue gains, in successor order, exactly the successors
   * whose count was one.
   */
  lemma {:induction false} ReleaseQueue(deg: map<Id, int>, vs: seq<Id>, queue: seq<Id>)
    requires Elems(vs) <= deg.Keys && Distinct(vs)
    ensures Release(deg, vs, queue).1 == queue + Filter(vs, x => x in deg && deg[x] == 1)
  {
    if vs != [] {
      var v := vs[0];
      var deg' := deg[v := deg[v] - 1];
      var queue' := if deg'[v] == 0 then queue + [v] else queue;
      assert vs == [v] + vs[1..];
      DistinctSplit([v], vs[1..]);
      var one := x => x in deg && deg[x] == 1;
      var one' := x => x in deg' && deg'[x] == 1;
      assert Release(deg, vs, queue) == Release(deg', vs[1..], queue');
      assert Filter(vs, one) == (if one(v) then [v] else []) + Filter(vs[1..], one);
      ReleaseQueue(deg', vs[1..], queue');
      FilterSame(vs[1..], one', one);
      QueueStep(queue, v, deg[v] == 1, Filter(vs[1..], one));
    }
  }

  /** Appending `v` before the rest or with it gives the same queue. */
  lemma QueueStep(queue: seq<Id>, v: Id, b: bool, rest: seq<Id>)
    ensures (if b then queue + [v] else queue) + rest == queue + ((if b then [v] else []) + rest)
  {
    if b {
      AppendAssoc(queue, [v], rest);
    }
  }

  /** What holds before each round of Kahn's loop. */
  ghost predicate KahnInv(g: Graph, queue: seq<Id>, deg: map<Id, int>, sorted: seq<Id>) {
    && g.pred.Keys == NodeSet(g)
    && deg.Keys == NodeSet(g)
    && Elems(sorted) <= NodeSet(g)
    && Elems(queue) <= NodeSet(g)
    && Distinct(sorted + queue)
    && CountsPending(g, deg, sorted)
    && ZeroExactlyListed(g, deg, sorted + queue)
    && PredsFirst(g, sorted)
  }

  /** Each count is the number of the task's dependencies not yet emitted. */
  ghost predicate CountsPending(g: Graph, deg: map<Id, int>, sorted: seq<Id>)
    requires g.pred.Keys == NodeSet(g) && deg.Keys == NodeSet(g)
  {
    forall v :: v in NodeSet(g) ==> deg[v] == CountOutside(g.pred[v], Elems(sorted))
  }

  /** A task has been emitted or queued exactly when its count is zero. */
  ghost predicate ZeroExactlyListed(g: Graph, deg: map<Id, int>, listed: seq<Id>)
    requires deg.Keys == NodeSet(g)
  {
    forall v :: v in NodeSet(g) ==> (v in listed <==> deg[v] == 0)
  }

  /** Every emitted task comes after all of its dependencies. */
  ghost predicate PredsFirst(g: Graph, sorted: seq<Id>)
    requires g.pred.Keys == NodeSet(g) && Elems(sorted) <= NodeSet(g)
  {
    forall i :: 0 <= i < |sorted| ==> Elems(g.pred[sorted[i]]) <= Elems(sorted[..i])
  }

  /** Successors are nodes, and `u` is a dependency of each of its successors. */
  lemma SuccsAreNodes(g: Graph, u: Id)
    requires Valid(g)
    requires u in NodeSet(g)
    ensures Elems(g.succ[u]) <= NodeSet(g)
    ensures forall v :: v in NodeSet(g) ==> (v in g.succ[u] <==> u in g.pred[v])
    ensures Distinct(g.succ[u])
  {
    forall w | w in g.succ[u] ensures w in NodeSet(g) && u in g.pred[w] {
      assert Edge(g, u, w);
    }
    forall v | v in NodeSet(g) ensures (v in g.succ[u] <==> u in g.pred[v]) {
      assert Edge(g, u, v) <==> v in g.pred && u in g.pred[v];
    }
  }

  /** After emitting `u`, the counts of its successors dropped by one are still the pending counts. */
  lemma StepCounts(g: Graph, deg: map<Id, int>, sorted: seq<Id>, u: Id, deg': map<Id, int>)
    requires Valid(g)
    requires u in NodeSet(g) && u !in sorted && Elems(sorted) <= NodeSet(g)
    requires deg.Keys == NodeSet(g) && deg'.Keys == NodeSet(g)
    requires CountsPending(g, deg, sorted)
    requires forall x :: x in deg' ==> deg'[x] == deg[x] - (if x in g.succ[u] then 1 else 0)
    ensures CountsPending(g, deg', sorted + [u])
  {
    SuccsAreNodes(g, u);
    assert Elems(sorted + [u]) == Elems(sorted) + {u};
    forall v | v in NodeSet(g) ensures deg'[v] == CountOutside(g.pred[v], Elems(sorted + [u])) {
      CountOutsideAdd(g.pred[v], Elems(sorted), u);
    }
  }

  /** A successor of a task still pending was neither emitted nor queued, and its count is positive. */
  lemma SuccsPending(g: Graph, deg: map<Id, int>, sorted: seq<Id>, queue: seq<Id>, u: Id)
    requires Valid(g)
    requires u in NodeSet(g) && u !in sorted && Elems(sorted) <= NodeSet(g)
    requires deg.Keys == NodeSet(g)
    requires CountsPending(g, deg, sorted)
    requires ZeroExactlyListed(g, deg, sorted + queue)
    ensures forall v :: v in g.succ[u] ==> v in deg && v !in sorted + queue && deg[v] >= 1
  {
    SuccsAreNodes(g, u);
    assert u !in Elems(sorted);
    forall v | v in g.succ[u] ensures v in deg && v !in sorted + queue && deg[v] >= 1 {
      assert u in g.pred[v];
      CountOutsideZero(g.pred[v], Elems(sorted));
      assert !(Elems(g.pred[v]) <= Elems(sorted));
    }
  }

  /** One round keeps the invariant: pop `u`, emit it, release its successors. */
  lemma KahnStep(g: Graph, queue: seq<Id>, deg: map<Id, int>, sorted: seq<Id>)
    requires Valid(g)
    requires KahnInv(g, queue, deg, sorted)
    requires queue != []
    ensures queue[0] in NodeSet(g) && Elems(g.succ[queue[0]]) <= deg.Keys
    ensures queue[0] !in sorted
    ensures var r := Release(deg, g.succ[queue[0]], queue[1..]);
            KahnInv(g, r.1, r.0, sorted + [queue[0]])
  {
    var u := queue[0];
    DistinctSplit(sorted, queue);
    assert u in queue;
    SuccsAreNodes(g, u);
    var r := Release(deg, g.succ[u], queue[1..]);
    ReleaseCounts(deg, g.succ[u], queue[1..]);
    ReleaseQueue(deg, g.succ[u], queue[1..]);
    var added := Filter(g.succ[u], x => x in deg && deg[x] == 1);
    StepListed(g, queue, deg, sorted, r.0, added);
  }

  /** The invariant after a round, given the counts and the queue it leaves. */
  lemma StepListed(g: Graph, queue: seq<Id>, deg: map<Id, int>, sorted: seq<Id>, deg': map<Id, int>,
                   added: seq<Id>)
    requires Valid(g)
    requires KahnInv(g, queue, deg, sorted)
    requires queue != [] && queue[0] !in sorted
    requires deg'.Keys == NodeSet(g)
    requires forall x :: x in deg' ==> deg'[x] == deg[x] - (if x in g.succ[queue[0]] then 1 else 0)
    requires added == Filter(g.succ[queue[0]], x => x in deg && deg[x] == 1)
    ensures KahnInv(g, queue[1..] + added, deg', sorted + [queue[0]])
  {
    var u := queue[0];
    var sq := sorted + queue;
    assert u in sq;
    SuccsAreNodes(g, u);
    StepCounts(g, deg, sorted, u, deg');
    SuccsPending(g, deg, sorted, queue, u);
    FilterDistinct(g.succ[u], x => x in deg && deg[x] == 1);
    ShiftQueue(sorted, queue, added, NodeSet(g));
    StepZero(g, deg, deg', sq, u, added);
    StepPredsFirst(g, deg, sorted, u);
  }

  /** Moving the head of the queue to the output and appending fresh tasks keeps them distinct nodes. */
  lemma ShiftQueue(sorted: seq<Id>, queue: seq<Id>, added: seq<Id>, nodes: set<Id>)
    requires queue != []
    requires Distinct(sorted + queue) && Distinct(added)
    requires Elems(queue) <= nodes && Elems(added) <= nodes
    requires forall v :: v in added ==> v !in sorted + queue
    ensures Distinct(sorted + [queue[0]] + (queue[1..] + added))
    ensures Elems(queue[1..] + added) <= nodes
  {
    assert sorted + [queue[0]] + (queue[1..] + added) == (sorted + queue) + added;
    forall x | x in sorted + queue ensures x !in added { }
    DistinctAppend(sorted + queue, added);
    assert Elems(queue[1..] + added) <= Elems(queue) + Elems(added);
  }

  /** The queued-or-emitted tasks are those with count zero after the round. */
  lemma StepZero(g: Graph, deg: map<Id, int>, deg': map<Id, int>, sq: seq<Id>, u: Id, added: seq<Id>)
    requires Valid(g)
    requires u in NodeSet(g)
    requires deg.Keys == NodeSet(g) && deg'.Keys == NodeSet(g)
    requires ZeroExactlyListed(g, deg, sq)
    requires forall x :: x in deg' ==> deg'[x] == deg[x] - (if x in g.succ[u] then 1 else 0)
    requires forall v :: v in g.succ[u] ==> v in deg && v !in sq && deg[v] >= 1
    requires added == Filter(g.succ[u], x => x in deg && deg[x] == 1)
    ensures ZeroExactlyListed(g, deg', sq + added)
  {
    forall v | v in NodeSet(g) ensures (v in sq + added <==> deg'[v] == 0) {
      if v in g.succ[u] {
        assert v in added <==> deg[v] == 1;
      } else {
        assert v !in added;
      }
    }
  }

  /** Emitting a task whose count is zero keeps every emitted task after its dependencies. */
  lemma StepPredsFirst(g: Graph, deg: map<Id, int>, sorted: seq<Id>, u: Id)
    requires g.pred.Keys == NodeSet(g) && deg.Keys == NodeSet(g)
    requires u in NodeSet(g) && Elems(sorted) <= NodeSet(g)
    requires PredsFirst(g, sorted)
    requires CountsPending(g, deg, sorted)
    requires deg[u] == 0
    ensures PredsFirst(g, sorted + [u])
  {
    var sorted' := sorted + [u];
    forall i | 0 <= i < |sorted'| ensures Elems(g.pred[sorted'[i]]) <= Elems(sorted'[..i]) {
      if i < |sorted| {
        assert sorted'[..i] == sorted[..i];
      } else {
        assert sorted'[..i] == sorted;
        CountOutsideZero(g.pred[u], Elems(sorted));
      }
    }
  }

  /** Kahn's loop: `while queue: task_id = queue.popleft(); sorted_tasks.append(task_id); ...`. */
  function Kahn(g: Graph, queue: seq<Id>, deg: map<Id, int>, sorted: seq<Id>): (order: seq<Id>)
    requires Valid(g)
    requires KahnInv(g, queue, deg, sorted)
    ensures Distinct(order) && Elems(order) <= NodeSet(g)
    ensures forall i :: 0 <= i < |order| ==> Elems(g.pred[order[i]]) <= Elems(order[..i])
    ensures forall v :: v in NodeSet(g) && v !in order ==> CountOutside(g.pred[v], Elems(order)) > 0
    decreases NodeSet(g) - Elems(sorted)
  {
    if queue == [] then
      assert sorted + queue == sorted;
      sorted
    else
      KahnStep(g, queue, deg, sorted);
      var u := queue[0];
      var r := Release(deg, g.succ[u], queue[1..]);
      assert Elems(sorted + [u]) == Elems(sorted) + {u};
      Kahn(g, r.1, r.0, sorted + [u])
  }

  /**
   * `_topological_sort`: every task at most once, each after all its dependencies; every task
   * exactly when the graph has no cycle.
   */
  function TopologicalSort(g: Graph): (order: seq<Id>)
    requires Valid(g)
    ensures Distinct(order) && Elems(order) <= NodeSet(g)
    ensures forall i, j :: 0 <= i < |order| && 0 <= j < |order| && Edge(g, order[i], order[j]) ==> i < j
    ensures !HasCycle(g) <==> Elems(order) == NodeSet(g)
    ensures !HasCycle(g) <==> |order| == |g.nodes|
    ensures !HasCycle(g) <==> TopoOrder(g, order)
  {
    var deg := InitialInDegrees(g);
    var queue := Filter(g.nodes, v => v in deg && deg[v] == 0);
    KahnStart(g, deg, queue);
    var order := Kahn(g, queue, deg, []);
    TopologicalSortProperties(g, order);
    order
  }

  /** Before the loop nothing is emitted and the queue holds the tasks without dependencies, in task order. */
  lemma KahnStart(g: Graph, deg: map<Id, int>, queue: seq<Id>)
    requires Distinct(g.nodes) && g.pred.Keys == NodeSet(g)
    requires deg.Keys == NodeSet(g) && forall v :: v in deg ==> deg[v] == |g.pred[v]|
    requires queue == Filter(g.nodes, v => v in deg && deg[v] == 0)
    ensures KahnInv(g, queue, deg, [])
  {
    FilterDistinct(g.nodes, v => v in deg && deg[v] == 0);
    assert [] + queue == queue;
    forall v | v in NodeSet(g) ensures deg[v] == CountOutside(g.pred[v], Elems<Id>([])) {
      CountOutsideNone(g.pred[v], Elems<Id>([]));
    }
  }

  /** The ordering, completeness and length facts that follow from Kahn's loop. */
  lemma TopologicalSortProperties(g: Graph, order: seq<Id>)
    requires Valid(g)
    requires Distinct(order) && Elems(order) <= NodeSet(g)
    requires forall i :: 0 <= i < |order| ==> Elems(g.pred[order[i]]) <= Elems(order[..i])
    requires forall v :: v in NodeSet(g) && v !in order ==> CountOutside(g.pred[v], Elems(order)) > 0
    ensures forall i, j :: 0 <= i < |order| && 0 <= j < |order| && Edge(g, order[i], order[j]) ==> i < j
    ensures !HasCycle(g) <==> Elems(order) == NodeSet(g)
    ensures !HasCycle(g) <==> |order| == |g.nodes|
  {
    EdgesForward(g, order);
    DistinctCard(order);
    DistinctCard(g.nodes);
    if Elems(order) == NodeSet(g) {
      TopologicalOrderAcyclic(g, order);
    } else {
      LeftoverCycle(g, order);
      if |order| == |g.nodes| {
        SubsetSameCard(Elems(order), NodeSet(g));
      }
    }
  }

  /** Tasks emitted after all their dependencies put every edge forward in the order. */
  lemma EdgesForward(g: Graph, order: seq<Id>)
    requires g.pred.Keys == NodeSet(g) && Mirrored(g)
    requires Elems(order) <= NodeSet(g) && Distinct(order)
    requires forall i :: 0 <= i < |order| ==> Elems(g.pred[order[i]]) <= Elems(order[..i])
    ensures forall i, j :: 0 <= i < |order| && 0 <= j < |order| && Edge(g, order[i], order[j]) ==> i < j
  {
    forall i, j | 0 <= i < |order| && 0 <= j < |order| && Edge(g, order[i], order[j]) ensures i < j {
      assert order[i] in g.pred[order[j]];
      assert order[i] in Elems(order[..j]);
      var k :| 0 <= k < j && order[..j][k] == order[i];
      assert order[k] == order[i];
    }
  }

  /** Tasks left out of the order, each still waiting on a left-out dependency, lie on a cycle. */
  lemma LeftoverCycle(g: Graph, order: seq<Id>)
    requires SuccShaped(g) && g.pred.Keys == NodeSet(g) && Mirrored(g)
    requires Elems(order) <= NodeSet(g) && Elems(order) != NodeSet(g)
    requires forall v :: v in NodeSet(g) && v !in order ==> CountOutside(g.pred[v], Elems(order)) > 0
    ensures HasCycle(g)
  {
    var rest := NodeSet(g) - Elems(order);
    var x := OutsideWitness(g.nodes, Elems(order));
    forall y | y in rest ensures HasPredIn(g, rest, y) {
      var k := OverlapWitnessOutside(g.pred[y], Elems(order));
      assert g.pred[y][k] in g.pred[y];
      assert Edge(g, g.pred[y][k], y);
    }
    NoSourceMeansCycle(g, rest, x);
  }

  /** A node of `nodes` outside a set that does not cover them. */
  lemma OutsideWitness(nodes: seq<Id>, s: set<Id>) returns (x: Id)
    requires !(Elems(nodes) <= s)
    ensures x in nodes && x !in s
  {
    CountOutsideZero(nodes, s);
    var k := OverlapWitnessOutside(nodes, s);
    x := nodes[k];
  }

  /** When some element of `p` lies outside `s`, a position holds one. */
  lemma OverlapWitnessOutside(p: seq<Id>, s: set<Id>) returns (k: nat)
    requires CountOutside(p, s) > 0
    ensures k < |p| && p[k] !in s
  {
    CountOutsideZero(p, s);
    if forall i :: 0 <= i < |p| ==> p[i] in s {
      assert false;
    }
    k :| 0 <= k < |p| && p[k] !in s;
  }
}
