/**
 * `_has_circular_dependencies` (tasks/critical_path.py): a depth-first search that keeps the set of
 * visited tasks and the recursion stack, and reports a cycle on an edge back into the stack.
 */
module CycleDetection {
  import opened Seqs
  import opened Tasks
  import opened DependencyGraph

  /**
   * The search state: the `visited` set, and the order in which tasks left the recursion stack
   * (their finishing order, which `dfs` does not keep but which the model records).
   */
  datatype Traversal = Traversal(visited: set<Id>, finished: seq<Id>)

  /** Either an edge back into the recursion stack was met, or the search went through. */
  datatype Outcome = CycleFound | Explored(state: Traversal)

  /** Every finished task saw all its successors finish before it. */
  ghost predicate Closed(g: Graph, fin: seq<Id>) {
    forall i :: 0 <= i < |fin| ==> fin[i] in g.succ && forall v :: v in g.succ[fin[i]] ==> v in fin[..i]
  }

  /**
   * What holds between calls: a task is visited iff it finished or is on the recursion stack
   * `path`, which is a walk along edges.
   */
  ghost predicate Inv(g: Graph, path: seq<Id>, st: Traversal) {
    && st.visited == Elems(st.finished) + Elems(path)
    && Closed(g, st.finished)
    && (path != [] ==> IsPath(g, path))
  }

  /** Appending a task whose successors all finished keeps the finishing order closed. */
  lemma ClosedSnoc(g: Graph, fin: seq<Id>, u: Id)
    requires Closed(g, fin)
    requires u in g.succ
    requires forall v :: v in g.succ[u] ==> v in Elems(fin)
    ensures Closed(g, fin + [u])
  {
    var fin' := fin + [u];
    forall i | 0 <= i < |fin'|
      ensures fin'[i] in g.succ && forall v :: v in g.succ[fin'[i]] ==> v in fin'[..i]
    {
      if i < |fin| {
        assert fin'[..i] == fin[..i];
      } else {
        assert fin'[..i] == fin;
      }
    }
  }

  /** An edge from the top of the recursion stack back into the stack closes a cycle. */
  lemma BackEdgeCycle(g: Graph, path: seq<Id>, v: Id)
    requires IsPath(g, path)
    requires v in path
    requires Edge(g, path[|path| - 1], v)
    ensures HasCycle(g)
  {
    var j := FirstIndex(path, v);
    SubPath(g, path, j, |path| - 1);
    var c := path[j..] + [v];
    assert path[j..|path|] == path[j..];
    forall k | 0 <= k < |c| - 1 ensures Edge(g, c[k], c[k + 1]) {
      if k < |c| - 2 {
        assert c[k] == path[j..][k] && c[k + 1] == path[j..][k + 1];
      }
    }
    assert IsCycle(g, c);
  }

  /** A closed finishing order that contains every task rules out cycles. */
  lemma ClosedAcyclic(g: Graph, fin: seq<Id>)
    requires SuccShaped(g)
    requires Closed(g, fin)
    requires NodeSet(g) <= Elems(fin)
    ensures !HasCycle(g)
  {
    var rank := map x | x in Elems(fin) :: -(FirstIndex(fin, x) as int);
    forall u, v | Edge(g, u, v) ensures u in rank && v in rank && rank[u] < rank[v] {
      var i := FirstIndex(fin, u);
      assert v in fin[..i];
      var k :| 0 <= k < i && fin[..i][k] == v;
      assert fin[k] == v;
    }
    RankedAcyclic(g, rank);
  }

  /** `dfs(u)`: marks `u` visited, pushes it, explores its successors in order, then pops it. */
  function Visit(g: Graph, u: Id, path: seq<Id>, st: Traversal): (r: Outcome)
    requires SuccShaped(g)
    requires u in NodeSet(g) && u !in st.visited
    requires Inv(g, path, st)
    requires path != [] ==> Edge(g, path[|path| - 1], u)
    ensures r.CycleFound? ==> HasCycle(g)
    ensures r.Explored? ==> Inv(g, path, r.state)
    ensures r.Explored? ==> u in Elems(r.state.finished)
    ensures r.Explored? ==> st.visited <= r.state.visited && Elems(st.finished) <= Elems(r.state.finished)
    decreases NodeSet(g) - st.visited, 0, 0
  {
    var path' := path + [u];
    forall k | 0 <= k < |path'| - 1 ensures Edge(g, path'[k], path'[k + 1]) {
      if k < |path| - 1 {
        assert path'[k] == path[k] && path'[k + 1] == path[k + 1];
      }
    }
    assert IsPath(g, path');
    var st' := Traversal(st.visited + {u}, st.finished);
    assert NodeSet(g) - st'.visited < NodeSet(g) - st.visited;
    match VisitAll(g, path', g.succ[u], st')
    case CycleFound => CycleFound
    case Explored(s) =>
      ClosedSnoc(g, s.finished, u);
      Explored(Traversal(s.visited, s.finished + [u]))
  }

  /** The `for successor_id in self.graph[task_id]` loop of `dfs`, over the successors still to see. */
  function VisitAll(g: Graph, path: seq<Id>, succs: seq<Id>, st: Traversal): (r: Outcome)
    requires SuccShaped(g)
    requires path != [] && Inv(g, path, st)
    requires path[|path| - 1] in g.succ
    requires |succs| <= |g.succ[path[|path| - 1]]|
    requires succs == g.succ[path[|path| - 1]][|g.succ[path[|path| - 1]]| - |succs|..]
    requires forall v :: v in g.succ[path[|path| - 1]] && v !in succs ==> v in Elems(st.finished)
    ensures r.CycleFound? ==> HasCycle(g)
    ensures r.Explored? ==> Inv(g, path, r.state)
    ensures r.Explored? ==> forall v :: v in g.succ[path[|path| - 1]] ==> v in Elems(r.state.finished)
    ensures r.Explored? ==> st.visited <= r.state.visited && Elems(st.finished) <= Elems(r.state.finished)
    decreases NodeSet(g) - st.visited, 1, |succs|
  {
    var u := path[|path| - 1];
    if succs == [] then Explored(st)
    else
      var v := succs[0];
      assert v in g.succ[u];
      assert Edge(g, u, v);
      assert succs[1..] == g.succ[u][|g.succ[u]| - |succs[1..]|..];
      if v !in st.visited then
        match Visit(g, v, path, st)
        case CycleFound => CycleFound
        case Explored(s) => VisitAll(g, path, succs[1..], s)
      else if v in path then
        BackEdgeCycle(g, path, v);
        CycleFound
      else
        VisitAll(g, path, succs[1..], st)
  }

  /** The outer loop: start a search from every task not yet visited, in task order. */
  function DetectFrom(g: Graph, todo: seq<Id>, st: Traversal): (found: bool)
    requires SuccShaped(g)
    requires Inv(g, [], st)
    requires Elems(todo) <= NodeSet(g)
    requires forall x :: x in NodeSet(g) && x !in todo ==> x in st.visited
    ensures found ==> HasCycle(g)
    ensures !found ==> !HasCycle(g)
    decreases |todo|
  {
    if todo == [] then
      assert Elems<Id>([]) == {};
      assert forall x :: x in NodeSet(g) ==> x !in todo && x in st.visited;
      ClosedAcyclic(g, st.finished);
      false
    else if todo[0] in st.visited then
      DetectFrom(g, todo[1..], st)
    else
      match Visit(g, todo[0], [], st)
      case CycleFound => true
      case Explored(s) => DetectFrom(g, todo[1..], s)
  }

  /** `_has_circular_dependencies`: true exactly when the dependency graph has a directed cycle. */
  function HasCircularDependencies(g: Graph): (found: bool)
    requires Valid(g)
    ensures found <==> HasCycle(g)
  {
    DetectFrom(g, g.nodes, Traversal({}, []))
  }
}
