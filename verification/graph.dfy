/**
 * The dependency graph of one computation (tasks/critical_path.py, `_build_dependency_graph`):
 * an edge p -> t says that p must finish before t starts.
 */
module DependencyGraph {
  import opened Seqs
  import opened Tasks

  /**
   * The task keys in scope (in task order, like `task_dict.keys()`), the forward adjacency lists
   * (`graph`) and the reverse ones (`reverse_graph`). Every key in scope has both lists, possibly
   * empty, as a `defaultdict(list)` reads.
   */
  datatype Graph = Graph(nodes: seq<Id>, succ: map<Id, seq<Id>>, pred: map<Id, seq<Id>>)

  function NodeSet(g: Graph): set<Id> {
    Elems(g.nodes)
  }

  /** u -> v: v is listed among u's successors. */
  predicate Edge(g: Graph, u: Id, v: Id) {
    u in g.succ && v in g.succ[u]
  }

  /** The shape every built graph has: keys are the nodes, lists repeat nothing, the two lists agree. */
  ghost predicate Valid(g: Graph) {
    && Distinct(g.nodes)
    && SuccShaped(g)
    && g.pred.Keys == NodeSet(g)
    && (forall u | u in g.succ :: Distinct(g.succ[u]))
    && (forall v | v in g.pred :: Distinct(g.pred[v]))
    && Mirrored(g)
  }

  /** Every node has a successor list, and successors are nodes. */
  ghost predicate SuccShaped(g: Graph) {
    && g.succ.Keys == NodeSet(g)
    && (forall u, v :: Edge(g, u, v) ==> v in NodeSet(g))
  }

  /** `reverse_graph` is exactly the inverse of `graph`. */
  ghost predicate Mirrored(g: Graph) {
    forall u, v :: Edge(g, u, v) <==> v in g.pred && u in g.pred[v]
  }

  /** Both adjacency lists of every node exist and name only nodes. */
  ghost predicate ListsInside(g: Graph) {
    && g.succ.Keys == NodeSet(g)
    && g.pred.Keys == NodeSet(g)
    && (forall u, k :: u in g.succ && 0 <= k < |g.succ[u]| ==> g.succ[u][k] in NodeSet(g))
    && (forall v, k :: v in g.pred && 0 <= k < |g.pred[v]| ==> g.pred[v][k] in NodeSet(g))
  }

  lemma ValidListsInside(g: Graph)
    requires Valid(g)
    ensures ListsInside(g)
  {
    forall u, k | u in g.succ && 0 <= k < |g.succ[u]| ensures g.succ[u][k] in NodeSet(g) {
      assert Edge(g, u, g.succ[u][k]);
    }
    forall v, k | v in g.pred && 0 <= k < |g.pred[v]| ensures g.pred[v][k] in NodeSet(g) {
      assert g.pred[v][k] in g.pred[v];
      assert Edge(g, g.pred[v][k], v);
    }
  }

  /** Every node exactly once, each edge pointing forward: the order the passes walk. */
  predicate TopoOrder(g: Graph, order: seq<Id>) {
    && Distinct(order)
    && Elems(order) == NodeSet(g)
    && (forall i, j :: 0 <= i < |order| && 0 <= j < |order| && Edge(g, order[i], order[j]) ==> i < j)
  }

  /** A numbering of the nodes, each in `0..n-1`, under which every edge climbs. */
  ghost predicate Ranked(g: Graph, pos: map<Id, int>, n: int) {
    && NodeSet(g) <= pos.Keys
    && (forall v :: v in NodeSet(g) ==> 0 <= pos[v] < n)
    && (forall u, v :: Edge(g, u, v) ==> u in pos && v in pos && pos[u] < pos[v])
  }

  /** Positions in a topological order are such a numbering. */
  lemma TopoOrderRanked(g: Graph, order: seq<Id>) returns (pos: map<Id, int>)
    requires ListsInside(g) && TopoOrder(g, order)
    ensures Ranked(g, pos, |order|)
  {
    pos := map x | x in NodeSet(g) :: FirstIndex(order, x) as int;
    forall u, v | Edge(g, u, v) ensures u in pos && v in pos && pos[u] < pos[v] {
      var k :| 0 <= k < |g.succ[u]| && g.succ[u][k] == v;
      assert u in NodeSet(g) && v in NodeSet(g);
      assert Edge(g, order[FirstIndex(order, u)], order[FirstIndex(order, v)]);
    }
  }

  /** Keys, in task order, of the tasks that list `d` as a dependency. */
  function Dependents(tasks: seq<Task>, d: Id): (r: seq<Id>)
    ensures forall v :: v in r <==> exists i :: 0 <= i < |tasks| && tasks[i].id == v && d in tasks[i].deps
    ensures DistinctIds(tasks) ==> Distinct(r)
  {
    if tasks == [] then []
    else
      var rest := Dependents(tasks[1..], d);
      assert forall v :: v in rest <==> exists i :: 1 <= i < |tasks| && tasks[i].id == v && d in tasks[i].deps by {
        forall v ensures v in rest <==> exists i :: 1 <= i < |tasks| && tasks[i].id == v && d in tasks[i].deps {
          if v in rest {
            var i :| 0 <= i < |tasks[1..]| && tasks[1..][i].id == v && d in tasks[1..][i].deps;
            assert tasks[i + 1] == tasks[1..][i];
          }
          if exists i :: 1 <= i < |tasks| && tasks[i].id == v && d in tasks[i].deps {
            var i :| 1 <= i < |tasks| && tasks[i].id == v && d in tasks[i].deps;
            assert tasks[1..][i - 1] == tasks[i];
          }
        }
      }
      if DistinctIds(tasks) then
        DistinctIdsTail(tasks);
        assert forall i :: 1 <= i < |tasks| ==> tasks[i].id != tasks[0].id by {
          assert forall i :: 0 <= i < |tasks| ==> IdsOf(tasks)[i] == tasks[i].id;
        }
        DistinctCons(tasks[0].id, rest);
        (if d in tasks[0].deps then [tasks[0].id] else []) + rest
      else
        (if d in tasks[0].deps then [tasks[0].id] else []) + rest
  }

  /** Keys, in task order, of the tasks whose key is in `deps`: the dependencies that are in scope. */
  function InScope(tasks: seq<Task>, deps: set<Id>): (r: seq<Id>)
    ensures forall u :: u in r <==> u in deps && u in Ids(tasks)
    ensures DistinctIds(tasks) ==> Distinct(r)
  {
    if tasks == [] then []
    else
      var rest := InScope(tasks[1..], deps);
      assert Ids(tasks) == Ids(tasks[1..]) + {tasks[0].id} by {
        assert IdsOf(tasks) == [tasks[0].id] + IdsOf(tasks[1..]);
      }
      if DistinctIds(tasks) then
        DistinctIdsTail(tasks);
        DistinctCons(tasks[0].id, rest);
        (if tasks[0].id in deps then [tasks[0].id] else []) + rest
      else
        (if tasks[0].id in deps then [tasks[0].id] else []) + rest
  }

  /**
   * `_build_dependency_graph`: for every task and every dependency of it that is in scope, an edge
   * from the dependency to the task; references to tasks outside the list are ignored.
   */
  function BuildGraph(tasks: seq<Task>): (g: Graph)
    requires DistinctIds(tasks)
    ensures Valid(g)
    ensures g.nodes == IdsOf(tasks)
    ensures forall u, v :: Edge(g, u, v) <==> u in Ids(tasks) && v in Ids(tasks) && u in Find(tasks, v).deps
  {
    var ids := Ids(tasks);
    var g := Graph(IdsOf(tasks),
                   map d | d in ids :: Dependents(tasks, d),
                   map t | t in ids :: InScope(tasks, Find(tasks, t).deps));
    assert forall u, v :: Edge(g, u, v) <==> u in ids && v in ids && u in Find(tasks, v).deps by {
      forall u, v ensures Edge(g, u, v) <==> u in ids && v in ids && u in Find(tasks, v).deps {
        if Edge(g, u, v) {
          var i :| 0 <= i < |tasks| && tasks[i].id == v && u in tasks[i].deps;
          FindAt(tasks, i);
        }
        if u in ids && v in ids && u in Find(tasks, v).deps {
          var i := IndexOfId(tasks, v);
          assert v in g.succ[u];
        }
      }
    }
    g
  }

  /** A walk along edges through nodes of the graph. */
  predicate IsPath(g: Graph, p: seq<Id>) {
    && |p| >= 1
    && (forall i :: 0 <= i < |p| ==> p[i] in NodeSet(g))
    && (forall i :: 0 <= i < |p| - 1 ==> Edge(g, p[i], p[i + 1]))
  }

  /** A walk of at least one edge that returns to where it started; a self-dependency is one. */
  predicate IsCycle(g: Graph, p: seq<Id>) {
    IsPath(g, p) && |p| >= 2 && p[0] == p[|p| - 1]
  }

  ghost predicate HasCycle(g: Graph) {
    exists p :: IsCycle(g, p)
  }

  /** A task listing itself among its dependencies closes a cycle on its own. */
  lemma SelfDependencyIsCycle(tasks: seq<Task>, i: nat)
    requires DistinctIds(tasks) && i < |tasks| && tasks[i].id in tasks[i].deps
    ensures HasCycle(BuildGraph(tasks))
  {
    var g := BuildGraph(tasks);
    var v := tasks[i].id;
    FindAt(tasks, i);
    assert g.nodes[i] == v;
    SelfLoopCycle(g, v);
  }

  /** An edge from a node to itself is a cycle. */
  lemma SelfLoopCycle(g: Graph, v: Id)
    requires v in NodeSet(g) && Edge(g, v, v)
    ensures HasCycle(g)
  {
    assert IsCycle(g, [v, v]);
  }

  /** Along a walk, a rank that grows on every edge grows from the first node to the last. */
  lemma {:induction false} PathRankGrows(g: Graph, rank: map<Id, int>, p: seq<Id>)
    requires forall u, v :: Edge(g, u, v) ==> u in rank && v in rank && rank[u] < rank[v]
    requires IsPath(g, p) && |p| >= 2
    ensures p[0] in rank && p[|p| - 1] in rank && rank[p[0]] < rank[p[|p| - 1]]
  {
    assert Edge(g, p[0], p[1]);
    if |p| > 2 {
      PathRankGrows(g, rank, p[1..]);
    }
  }

  /** A graph whose nodes can be ranked so that every edge climbs has no cycle. */
  lemma RankedAcyclic(g: Graph, rank: map<Id, int>)
    requires forall u, v :: Edge(g, u, v) ==> u in rank && v in rank && rank[u] < rank[v]
    ensures !HasCycle(g)
  {
    forall p ensures !IsCycle(g, p) {
      if IsCycle(g, p) {
        PathRankGrows(g, rank, p);
        assert false;
      }
    }
  }

  /** An order listing every node once, with each edge pointing forward, rules out cycles. */
  lemma TopologicalOrderAcyclic(g: Graph, order: seq<Id>)
    requires NodeSet(g) <= Elems(order)
    requires Valid(g)
    requires forall i, j :: 0 <= i < |order| && 0 <= j < |order| && Edge(g, order[i], order[j]) ==> i < j
    ensures !HasCycle(g)
  {
    var rank := map x | x in NodeSet(g) :: FirstIndex(order, x) as int;
    forall u, v | Edge(g, u, v) ensures u in rank && v in rank && rank[u] < rank[v] {
      assert u in NodeSet(g) && v in NodeSet(g);
      assert Edge(g, order[FirstIndex(order, u)], order[FirstIndex(order, v)]);
    }
    RankedAcyclic(g, rank);
  }

  /** `y` has a dependency inside `s`. */
  ghost predicate HasPredIn(g: Graph, s: set<Id>, y: Id) {
    y in g.pred && exists k :: 0 <= k < |g.pred[y]| && g.pred[y][k] in s
  }

  /** Every node of `s` has a dependency inside `s`: no node of `s` can start. */
  ghost predicate NoSourceIn(g: Graph, s: set<Id>) {
    forall y {:trigger HasPredIn(g, s, y)} :: y in s ==> HasPredIn(g, s, y)
  }

  /** Walks backwards `n` steps inside a set where every node has a predecessor in the set. */
  lemma {:induction false} WalkBack(g: Graph, s: set<Id>, x: Id, n: nat) returns (p: seq<Id>)
    decreases n
    requires g.pred.Keys == NodeSet(g) && Mirrored(g)
    requires s <= NodeSet(g)
    requires x in s
    requires NoSourceIn(g, s)
    ensures |p| == n + 1 && p[n] == x && IsPath(g, p) && Elems(p) <= s
  {
    if n == 0 {
      p := [x];
    } else {
      assert HasPredIn(g, s, x);
      var k :| 0 <= k < |g.pred[x]| && g.pred[x][k] in s;
      var z := g.pred[x][k];
      assert z in g.pred[x];
      var q := WalkBack(g, s, z, n - 1);
      PathSnoc(g, q, x);
      p := q + [x];
      assert Elems(p) == Elems(q) + {x};
    }
  }

  /** A walk extended by one more edge is a walk. */
  lemma PathSnoc(g: Graph, q: seq<Id>, x: Id)
    requires IsPath(g, q)
    requires x in NodeSet(g) && Edge(g, q[|q| - 1], x)
    ensures IsPath(g, q + [x])
  {
    var p := q + [x];
    forall k | 0 <= k < |p| - 1 ensures Edge(g, p[k], p[k + 1]) {
      if k < |q| - 1 {
        assert p[k] == q[k] && p[k + 1] == q[k + 1];
      }
    }
  }

  /** A stretch of a walk is a walk. */
  lemma SubPath(g: Graph, p: seq<Id>, i: nat, j: nat)
    requires IsPath(g, p)
    requires i <= j < |p|
    ensures IsPath(g, p[i..j + 1])
  {
    var c := p[i..j + 1];
    forall k | 0 <= k < |c| - 1 ensures Edge(g, c[k], c[k + 1]) {
      assert c[k] == p[i + k] && c[k + 1] == p[i + k + 1];
    }
    forall k | 0 <= k < |c| ensures c[k] in NodeSet(g) {
      assert c[k] == p[i + k];
    }
  }

  /** If every node of a non-empty set has a predecessor in the set, the graph has a cycle. */
  lemma NoSourceMeansCycle(g: Graph, s: set<Id>, x: Id)
    requires g.pred.Keys == NodeSet(g) && Mirrored(g)
    requires s <= NodeSet(g)
    requires x in s
    requires NoSourceIn(g, s)
    ensures HasCycle(g)
  {
    var p := WalkBack(g, s, x, |s|);
    var i, j := PigeonHole(p, s);
    SubPath(g, p, i, j);
    assert IsCycle(g, p[i..j + 1]);
  }
}
