/**
 * `_find_critical_paths` (tasks/critical_path.py): every walk along critical tasks from one with no
 * critical dependency to one with no critical dependent.
 */
module CriticalPaths {
  import opened Seqs
  import opened Tasks
  import opened DependencyGraph

  /** A non-empty walk along edges through tasks of `crit`. */
  predicate CriticalChain(g: Graph, crit: set<Id>, p: seq<Id>) {
    && |p| >= 1
    && (forall i :: 0 <= i < |p| ==> p[i] in crit && p[i] in NodeSet(g))
    && (forall i :: 0 <= i < |p| - 1 ==> Edge(g, p[i], p[i + 1]))
  }

  /** `critical_predecessors` is empty. */
  predicate NoCriticalPred(g: Graph, crit: set<Id>, v: Id)
    requires v in g.pred
  {
    forall k :: 0 <= k < |g.pred[v]| ==> g.pred[v][k] !in crit
  }

  /** `critical_successors` is empty. */
  predicate NoCriticalSucc(g: Graph, crit: set<Id>, v: Id)
    requires v in g.succ
  {
    forall k :: 0 <= k < |g.succ[v]| ==> g.succ[v][k] !in crit
  }

  /** What `find_paths_dfs` reports: a critical chain from a task with no critical dependency to one with no critical dependent. */
  predicate IsCriticalPath(g: Graph, crit: set<Id>, p: seq<Id>)
    requires ListsInside(g)
  {
    && CriticalChain(g, crit, p)
    && NoCriticalPred(g, crit, p[0])
    && NoCriticalSucc(g, crit, p[|p| - 1])
  }

  /** `[v] + path` for every path. */
  function Prepend(v: Id, ps: seq<seq<Id>>): (r: seq<seq<Id>>)
    ensures |r| == |ps|
    ensures forall i :: 0 <= i < |ps| ==> r[i] == [v] + ps[i]
  {
    seq(|ps|, i requires 0 <= i < |ps| => [v] + ps[i])
  }

  /**
   * `find_paths_dfs(v, ...)`: the paths that continue from `v` along its critical successors, in
   * successor order, ending where a task has none. `pos` and `n` only measure termination.
   */
  function PathsFrom(g: Graph, crit: set<Id>, ghost pos: map<Id, int>, ghost n: int, v: Id): (r: seq<seq<Id>>)
    requires ListsInside(g) && Ranked(g, pos, n) && v in NodeSet(g)
    decreases n - pos[v], 1, 0
  {
    var cs := Filter(g.succ[v], x => x in crit);
    if cs == [] then [[v]]
    else Prepend(v, PathsVia(g, crit, pos, n, v, cs))
  }

  /** The paths from each task of `cs`, one after the other. */
  function PathsVia(g: Graph, crit: set<Id>, ghost pos: map<Id, int>, ghost n: int, v: Id, cs: seq<Id>): (r: seq<seq<Id>>)
    requires ListsInside(g) && Ranked(g, pos, n) && v in NodeSet(g)
    requires forall k :: 0 <= k < |cs| ==> cs[k] in g.succ[v]
    decreases n - pos[v], 0, |cs|
  {
    if cs == [] then []
    else
      assert Edge(g, v, cs[0]);
      PathsFrom(g, crit, pos, n, cs[0]) + PathsVia(g, crit, pos, n, v, cs[1..])
  }

  /** A path of `PathsVia` is a path from one of the given tasks. */
  lemma {:induction false} PathsViaMember(g: Graph, crit: set<Id>, pos: map<Id, int>, n: int, v: Id, cs: seq<Id>, p: seq<Id>)
    requires ListsInside(g) && Ranked(g, pos, n) && v in NodeSet(g)
    requires forall k :: 0 <= k < |cs| ==> cs[k] in g.succ[v]
    ensures forall k :: 0 <= k < |cs| ==> cs[k] in NodeSet(g)
    ensures p in PathsVia(g, crit, pos, n, v, cs) <==>
      exists k :: 0 <= k < |cs| && p in PathsFrom(g, crit, pos, n, cs[k])
    decreases |cs|
  {
    forall k | 0 <= k < |cs| ensures cs[k] in NodeSet(g) {
      assert Edge(g, v, cs[k]);
    }
    if cs != [] {
      PathsViaMember(g, crit, pos, n, v, cs[1..], p);
      if exists k :: 0 <= k < |cs| && p in PathsFrom(g, crit, pos, n, cs[k]) {
        var k :| 0 <= k < |cs| && p in PathsFrom(g, crit, pos, n, cs[k]);
        if k > 0 {
          assert cs[1..][k - 1] == cs[k];
        }
      }
      if exists k :: 0 <= k < |cs[1..]| && p in PathsFrom(g, crit, pos, n, cs[1..][k]) {
        var k :| 0 <= k < |cs[1..]| && p in PathsFrom(g, crit, pos, n, cs[1..][k]);
        assert cs[1..][k] == cs[k + 1];
      }
    }
  }

  /** A critical task followed by a critical chain it has an edge into is a critical chain. */
  lemma ConsChain(g: Graph, crit: set<Id>, v: Id, q: seq<Id>)
    requires v in crit && v in NodeSet(g)
    requires CriticalChain(g, crit, q) && Edge(g, v, q[0])
    ensures CriticalChain(g, crit, [v] + q)
    ensures ([v] + q)[0] == v && ([v] + q)[|q|] == q[|q| - 1]
  {
    var p := [v] + q;
    forall j | 0 <= j < |p| - 1 ensures Edge(g, p[j], p[j + 1]) {
      if j > 0 {
        assert p[j] == q[j - 1] && p[j + 1] == q[j];
      }
    }
    forall j | 0 <= j < |p| ensures p[j] in crit && p[j] in NodeSet(g) {
      if j > 0 {
        assert p[j] == q[j - 1];
      }
    }
  }

  /** Every path `find_paths_dfs(v, ...)` records is a critical chain from `v` that cannot be extended. */
  lemma {:induction false} PathsFromSound(g: Graph, crit: set<Id>, pos: map<Id, int>, n: int, v: Id, p: seq<Id>)
    requires ListsInside(g) && Ranked(g, pos, n) && v in NodeSet(g) && v in crit
    requires p in PathsFrom(g, crit, pos, n, v)
    ensures CriticalChain(g, crit, p) && p[0] == v && NoCriticalSucc(g, crit, p[|p| - 1])
    decreases n - pos[v]
  {
    var cs := Filter(g.succ[v], x => x in crit);
    if cs == [] {
      assert p == [v];
    } else {
      var ps := PathsVia(g, crit, pos, n, v, cs);
      assert PathsFrom(g, crit, pos, n, v) == Prepend(v, ps);
      var i :| 0 <= i < |ps| && Prepend(v, ps)[i] == p;
      var q := ps[i];
      assert p == [v] + q;
      PathsViaMember(g, crit, pos, n, v, cs, q);
      var k :| 0 <= k < |cs| && q in PathsFrom(g, crit, pos, n, cs[k]);
      var w := cs[k];
      assert w in g.succ[v] && w in crit;
      assert Edge(g, v, w);
      PathsFromSound(g, crit, pos, n, w, q);
      ConsChain(g, crit, v, q);
    }
  }

  /** Every critical chain from `v` that cannot be extended is among the paths `find_paths_dfs(v, ...)` records. */
  lemma {:induction false} PathsFromComplete(g: Graph, crit: set<Id>, pos: map<Id, int>, n: int, v: Id, p: seq<Id>)
    requires ListsInside(g) && Ranked(g, pos, n) && v in NodeSet(g)
    requires CriticalChain(g, crit, p) && p[0] == v && NoCriticalSucc(g, crit, p[|p| - 1])
    ensures p in PathsFrom(g, crit, pos, n, v)
    decreases n - pos[v]
  {
    var cs := Filter(g.succ[v], x => x in crit);
    if |p| == 1 {
      FilterNone(g.succ[v], x => x in crit);
      assert p == [v];
    } else {
      var w := p[1];
      assert Edge(g, v, w);
      var j := FirstIndex(g.succ[v], w);
      assert w in cs;
      var q := p[1..];
      assert q[|q| - 1] == p[|p| - 1];
      assert CriticalChain(g, crit, q) by {
        forall i | 0 <= i < |q| - 1 ensures Edge(g, q[i], q[i + 1]) {
          assert q[i] == p[i + 1] && q[i + 1] == p[i + 2];
        }
      }
      PathsFromComplete(g, crit, pos, n, w, q);
      PathsViaMember(g, crit, pos, n, v, cs, q);
      var ps := PathsVia(g, crit, pos, n, v, cs);
      var i :| 0 <= i < |ps| && ps[i] == q;
      assert Prepend(v, ps)[i] == p;
    }
  }

  /** `start_tasks`: the critical tasks with no critical dependency, in task order. */
  function StartTasks(g: Graph, crit: set<Id>): (r: seq<Id>)
    requires ListsInside(g)
    ensures forall i :: 0 <= i < |r| ==> r[i] in NodeSet(g) && r[i] in crit && NoCriticalPred(g, crit, r[i])
    ensures forall v :: v in NodeSet(g) && v in crit && NoCriticalPred(g, crit, v) ==> v in r
  {
    var r := Filter(g.nodes, v => v in crit && v in g.pred && NoCriticalPred(g, crit, v));
    forall v | v in NodeSet(g) && v in crit && NoCriticalPred(g, crit, v) ensures v in r {
      var k := FirstIndex(g.nodes, v);
    }
    r
  }

  /** The paths `find_paths_dfs` records from each start task in turn. */
  function PathsFromAll(g: Graph, crit: set<Id>, ghost pos: map<Id, int>, ghost n: int, starts: seq<Id>): (r: seq<seq<Id>>)
    requires ListsInside(g) && Ranked(g, pos, n)
    requires forall k :: 0 <= k < |starts| ==> starts[k] in NodeSet(g)
  {
    if starts == [] then []
    else PathsFrom(g, crit, pos, n, starts[0]) + PathsFromAll(g, crit, pos, n, starts[1..])
  }

  /** `_find_critical_paths`, as keys: the paths from every start task. */
  function FindCriticalPaths(g: Graph, crit: set<Id>, ghost pos: map<Id, int>, ghost n: int): (r: seq<seq<Id>>)
    requires ListsInside(g) && Ranked(g, pos, n)
  {
    PathsFromAll(g, crit, pos, n, StartTasks(g, crit))
  }

  lemma {:induction false} PathsFromAllMember(g: Graph, crit: set<Id>, pos: map<Id, int>, n: int, starts: seq<Id>, p: seq<Id>)
    requires ListsInside(g) && Ranked(g, pos, n)
    requires forall k :: 0 <= k < |starts| ==> starts[k] in NodeSet(g)
    ensures p in PathsFromAll(g, crit, pos, n, starts) <==>
      exists k :: 0 <= k < |starts| && p in PathsFrom(g, crit, pos, n, starts[k])
    decreases |starts|
  {
    if starts != [] {
      PathsFromAllMember(g, crit, pos, n, starts[1..], p);
      if exists k :: 0 <= k < |starts| && p in PathsFrom(g, crit, pos, n, starts[k]) {
        var k :| 0 <= k < |starts| && p in PathsFrom(g, crit, pos, n, starts[k]);
        if k > 0 {
          assert starts[1..][k - 1] == starts[k];
        }
      }
      if exists k :: 0 <= k < |starts[1..]| && p in PathsFrom(g, crit, pos, n, starts[1..][k]) {
        var k :| 0 <= k < |starts[1..]| && p in PathsFrom(g, crit, pos, n, starts[1..][k]);
        assert starts[1..][k] == starts[k + 1];
      }
    }
  }

  /**
   * The reported paths are exactly the critical chains that start at a task with no critical
   * dependency and end at a task with no critical dependent.
   */
  lemma FindCriticalPathsExact(g: Graph, crit: set<Id>, pos: map<Id, int>, n: int, p: seq<Id>)
    requires ListsInside(g) && Ranked(g, pos, n)
    ensures p in FindCriticalPaths(g, crit, pos, n) <==> IsCriticalPath(g, crit, p)
  {
    var starts := StartTasks(g, crit);
    PathsFromAllMember(g, crit, pos, n, starts, p);
    if p in FindCriticalPaths(g, crit, pos, n) {
      var k :| 0 <= k < |starts| && p in PathsFrom(g, crit, pos, n, starts[k]);
      PathsFromSound(g, crit, pos, n, starts[k], p);
    }
    if IsCriticalPath(g, crit, p) {
      assert p[0] in starts;
      var k :| 0 <= k < |starts| && starts[k] == p[0];
      PathsFromComplete(g, crit, pos, n, p[0], p);
    }
  }

  /** Walking back along critical dependencies from a critical task reaches one with none. */
  lemma {:induction false} ChainBack(g: Graph, crit: set<Id>, pos: map<Id, int>, n: int, v: Id) returns (p: seq<Id>)
    requires ListsInside(g) && Mirrored(g) && Ranked(g, pos, n)
    requires v in NodeSet(g) && v in crit
    ensures CriticalChain(g, crit, p) && p[|p| - 1] == v && NoCriticalPred(g, crit, p[0])
    decreases pos[v]
  {
    if NoCriticalPred(g, crit, v) {
      p := [v];
    } else {
      var k :| 0 <= k < |g.pred[v]| && g.pred[v][k] in crit;
      var u := g.pred[v][k];
      assert u in g.pred[v];
      assert Edge(g, u, v);
      var b := ChainBack(g, crit, pos, n, u);
      p := b + [v];
      forall j | 0 <= j < |p| - 1 ensures Edge(g, p[j], p[j + 1]) {
        if j < |b| - 1 {
          assert p[j] == b[j] && p[j + 1] == b[j + 1];
        }
      }
      assert forall j :: 0 <= j < |b| ==> p[j] == b[j];
    }
  }

  /** Walking on along critical dependents from a critical task reaches one with none. */
  lemma {:induction false} ChainOn(g: Graph, crit: set<Id>, pos: map<Id, int>, n: int, v: Id) returns (p: seq<Id>)
    requires ListsInside(g) && Ranked(g, pos, n)
    requires v in NodeSet(g) && v in crit
    ensures CriticalChain(g, crit, p) && p[0] == v && NoCriticalSucc(g, crit, p[|p| - 1])
    decreases n - pos[v]
  {
    if NoCriticalSucc(g, crit, v) {
      p := [v];
    } else {
      var k :| 0 <= k < |g.succ[v]| && g.succ[v][k] in crit;
      var w := g.succ[v][k];
      assert Edge(g, v, w);
      var f := ChainOn(g, crit, pos, n, w);
      ConsChain(g, crit, v, f);
      p := [v] + f;
    }
  }

  /** Every critical task lies on at least one reported critical path. */
  lemma EveryCriticalTaskOnAPath(g: Graph, crit: set<Id>, pos: map<Id, int>, n: int, v: Id) returns (p: seq<Id>)
    requires ListsInside(g) && Mirrored(g) && Ranked(g, pos, n)
    requires v in NodeSet(g) && v in crit
    ensures p in FindCriticalPaths(g, crit, pos, n) && v in p
  {
    var b := ChainBack(g, crit, pos, n, v);
    var f := ChainOn(g, crit, pos, n, v);
    p := b + f[1..];
    forall j | 0 <= j < |p| - 1 ensures Edge(g, p[j], p[j + 1]) {
      if j < |b| - 1 {
        assert p[j] == b[j] && p[j + 1] == b[j + 1];
      } else if j == |b| - 1 {
        assert p[j] == f[0] && p[j + 1] == f[1];
      } else {
        assert p[j] == f[j - |b| + 1] && p[j + 1] == f[j - |b| + 2];
      }
    }
    forall j | 0 <= j < |p| ensures p[j] in crit && p[j] in NodeSet(g) {
      if j >= |b| {
        assert p[j] == f[j - |b| + 1];
      }
    }
    assert p[|p| - 1] == f[|f| - 1];
    assert p[|b| - 1] == v;
    FindCriticalPathsExact(g, crit, pos, n, p);
  }
}
