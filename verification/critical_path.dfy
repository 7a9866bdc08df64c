/**
 * `CriticalPathCalculator.calculate` and `calculate_critical_path` (tasks/critical_path.py): the
 * whole pipeline from task records to the result dictionary. The attributes `calculate` writes back
 * onto each task (`early_start_day`, ..., `is_critical`) are returned as one schedule record per
 * task instead.
 */
module Calculator {
  import opened Wrappers
  import opened Seqs
  import opened Tasks
  import opened DependencyGraph
  import opened CycleDetection
  import opened TopologicalSort
  import opened Schedule
  import opened CriticalPaths

  /** Why `calculate` gives up: the `ValueError` on a cycle, or `max()` over no tasks at all. */
  datatype CpmError = CircularDependency | EmptyTaskList

  /** The times and flags the passes write onto one task. */
  datatype TaskSchedule = TaskSchedule(id: Id, earlyStart: int, earlyFinish: int, lateStart: int,
                                       lateFinish: int, totalFloat: int, isCritical: bool)

  /** One element of a reported critical path: the task's key, title and raw duration, and its early times. */
  datatype PathEntry = PathEntry(id: Id, title: string, duration: Option<int>, earlyStart: int, earlyFinish: int)

  /** `'low'`, `'medium'`, `'high'`, `'critical'`. */
  datatype RiskLevel = LowRisk | MediumRisk | HighRisk | CriticalRisk

  /**
   * The dictionary `calculate` returns, plus the per-task schedules. The critical paths form a set:
   * `calculate` lists them in the iteration order of a Python set of keys.
   */
  datatype CpmResult = CpmResult(
    schedules: seq<TaskSchedule>,
    criticalTasks: seq<TaskSchedule>,
    criticalPaths: set<seq<PathEntry>>,
    projectDuration: int,
    earliestCompletion: Option<int>,
    latestCompletion: Option<int>,
    totalTasks: nat,
    criticalTasksCount: nat,
    riskLevel: RiskLevel)

  /**
   * The schedule of task `t` from its early start and late finish: both finishes lie one duration
   * after the starts, the float is the slack between late and early times measured at either end,
   * and the task is critical exactly when it cannot start later than it can start earliest.
   */
  function ScheduleOf(t: Task, es: int, lf: int): (s: TaskSchedule)
    ensures s.id == t.id && s.earlyStart == es && s.lateFinish == lf
    ensures s.earlyFinish - s.earlyStart == Duration(t) && s.lateFinish - s.lateStart == Duration(t)
    ensures s.totalFloat == s.lateFinish - s.earlyFinish
    ensures s.isCritical <==> s.lateStart == s.earlyStart
  {
    var ls := lf - Duration(t);
    TaskSchedule(t.id, es, es + Duration(t), ls, lf, ls - es, ls - es == 0)
  }

  /** The schedule of every task, in task order. */
  function Schedules(tasks: seq<Task>, es: map<Id, int>, lf: map<Id, int>): (sch: seq<TaskSchedule>)
    requires Ids(tasks) <= es.Keys && Ids(tasks) <= lf.Keys
    ensures |sch| == |tasks|
    ensures forall i :: 0 <= i < |tasks| ==> sch[i] == ScheduleOf(tasks[i], es[tasks[i].id], lf[tasks[i].id])
  {
    assert forall i :: 0 <= i < |tasks| ==> IdsOf(tasks)[i] in IdsOf(tasks);
    seq(|tasks|, i requires 0 <= i < |tasks| => ScheduleOf(tasks[i], es[tasks[i].id], lf[tasks[i].id]))
  }

  /** The `is_critical` flag, as a function to filter by. */
  function CriticalFlag(s: TaskSchedule): bool {
    s.isCritical
  }

  /** `critical_task_ids`: the keys of the tasks with zero float. */
  function CriticalIds(sch: seq<TaskSchedule>): set<Id> {
    set s | s in sch && s.isCritical :: s.id
  }

  /** The path element for the task with key `id`. */
  function EntryOf(tasks: seq<Task>, sch: seq<TaskSchedule>, id: Id): (e: PathEntry)
    requires |sch| == |tasks| && id in Ids(tasks)
    ensures e.id == id
  {
    var i := IndexOfId(tasks, id);
    PathEntry(id, tasks[i].title, tasks[i].duration, sch[i].earlyStart, sch[i].earlyFinish)
  }

  /** `path_details`: a path of keys turned into path elements. */
  function EntriesOf(tasks: seq<Task>, sch: seq<TaskSchedule>, p: seq<Id>): (q: seq<PathEntry>)
    requires |sch| == |tasks|
    requires forall k :: 0 <= k < |p| ==> p[k] in Ids(tasks)
    ensures |q| == |p|
    ensures forall k :: 0 <= k < |p| ==> q[k] == EntryOf(tasks, sch, p[k])
    ensures IdsAlong(q) == p
  {
    seq(|p|, k requires 0 <= k < |p| => EntryOf(tasks, sch, p[k]))
  }

  /** The keys along a reported path. */
  function IdsAlong(q: seq<PathEntry>): (p: seq<Id>)
    ensures |p| == |q|
    ensures forall k :: 0 <= k < |q| ==> p[k] == q[k].id
  {
    seq(|q|, k requires 0 <= k < |q| => q[k].id)
  }

  /** The earliest start date among the tasks that have one. */
  function MinStartDate(tasks: seq<Task>): (m: Option<int>)
    ensures m.None? <==> forall i :: 0 <= i < |tasks| ==> tasks[i].startDate.None?
    ensures m.Some? ==> exists i :: 0 <= i < |tasks| && tasks[i].startDate == m
    ensures m.Some? ==> forall i :: 0 <= i < |tasks| && tasks[i].startDate.Some? ==> m.value <= tasks[i].startDate.value
  {
    if tasks == [] then None
    else
      var rest := MinStartDate(tasks[1..]);
      assert forall i :: 1 <= i < |tasks| ==> tasks[i] == tasks[1..][i - 1];
      match tasks[0].startDate
      case None => rest
      case Some(d) =>
        if rest.Some? && rest.value < d then rest else Some(d)
  }

  /**
   * `_get_earliest_completion_date`: nothing when there are no tasks or the first task has no start
   * date (even if later ones do), otherwise the earliest start date plus the project duration.
   */
  function EarliestCompletion(tasks: seq<Task>, pd: int): (d: Option<int>)
    ensures d.None? <==> tasks == [] || tasks[0].startDate.None?
    ensures d.Some? ==> exists i :: 0 <= i < |tasks| && tasks[i].startDate == Some(d.value - pd)
    ensures d.Some? ==> forall i :: 0 <= i < |tasks| && tasks[i].startDate.Some? ==>
      d.value - pd <= tasks[i].startDate.value
  {
    if tasks == [] || tasks[0].startDate.None? then None
    else
      var m := MinStartDate(tasks);
      Some(m.value + pd)
  }

  /** The percentage of critical tasks each level starts at. */
  function Threshold(r: RiskLevel): int {
    match r
    case LowRisk => 0
    case MediumRisk => 20
    case HighRisk => 40
    case CriticalRisk => 60
  }

  /** The next level up, if any. */
  function Above(r: RiskLevel): Option<RiskLevel> {
    match r
    case LowRisk => Some(MediumRisk)
    case MediumRisk => Some(HighRisk)
    case HighRisk => Some(CriticalRisk)
    case CriticalRisk => None
  }

  /**
   * `_calculate_risk_level`: the highest level whose threshold the share of critical tasks reaches,
   * compared exactly as `100 * critical` against `threshold * total`; low when there are no tasks.
   */
  function RiskOf(critical: nat, total: nat): (r: RiskLevel)
    ensures total == 0 ==> r == LowRisk
    ensures total > 0 ==> 100 * critical >= Threshold(r) * total
    ensures total > 0 && Above(r).Some? ==> 100 * critical < Threshold(Above(r).value) * total
  {
    if total == 0 then LowRisk
    else if 100 * critical >= 60 * total then CriticalRisk
    else if 100 * critical >= 40 * total then HighRisk
    else if 100 * critical >= 20 * total then MediumRisk
    else LowRisk
  }

  /** More critical tasks out of the same total never lower the risk level. */
  lemma RiskMonotone(c1: nat, c2: nat, total: nat)
    requires c1 <= c2
    ensures Threshold(RiskOf(c1, total)) <= Threshold(RiskOf(c2, total))
  {
  }

  /** Every schedule record belongs to the task at its position and its times fit together. */
  ghost predicate Aligned(tasks: seq<Task>, sch: seq<TaskSchedule>) {
    && |sch| == |tasks|
    && forall i :: 0 <= i < |tasks| ==>
      && sch[i].id == tasks[i].id
      && sch[i].earlyFinish == sch[i].earlyStart + Duration(tasks[i])
      && sch[i].lateStart == sch[i].lateFinish - Duration(tasks[i])
      && sch[i].totalFloat == sch[i].lateStart - sch[i].earlyStart
      && (sch[i].isCritical <==> sch[i].totalFloat == 0)
  }

  /** The early starts of the schedules, by key. */
  ghost function StartsOf(tasks: seq<Task>, sch: seq<TaskSchedule>): map<Id, int>
    requires |sch| == |tasks|
  {
    map id | id in Ids(tasks) :: sch[IndexOfId(tasks, id)].earlyStart
  }

  /** The late finishes of the schedules, by key. */
  ghost function FinishesOf(tasks: seq<Task>, sch: seq<TaskSchedule>): map<Id, int>
    requires |sch| == |tasks|
  {
    map id | id in Ids(tasks) :: sch[IndexOfId(tasks, id)].lateFinish
  }

  /** The early starts and late finishes solve the forward- and backward-pass equations of the task graph. */
  ghost predicate TimesSolve(tasks: seq<Task>, sch: seq<TaskSchedule>, pd: int)
    requires DistinctIds(tasks) && |sch| == |tasks|
  {
    Scheduled(BuildGraph(tasks), DurationOf(tasks), StartsOf(tasks, sch), FinishesOf(tasks, sch), pd)
  }

  /** The project duration is the latest early finish. */
  ghost predicate SpansProject(sch: seq<TaskSchedule>, pd: int) {
    && (forall i :: 0 <= i < |sch| ==> sch[i].earlyFinish <= pd)
    && (exists i :: 0 <= i < |sch| && sch[i].earlyFinish == pd)
  }

  /** `critical_tasks`: exactly the critical schedules, each once, in task order. */
  ghost predicate CriticalListed(sch: seq<TaskSchedule>, ct: seq<TaskSchedule>) {
    && (forall s :: s in ct <==> s in sch && s.isCritical)
    && Distinct(ct)
    && InOrder(sch, ct)
  }

  /**
   * `critical_paths`: exactly the critical paths of the task graph, each written out element by
   * element from the task and its schedule.
   */
  ghost predicate PathsListed(tasks: seq<Task>, sch: seq<TaskSchedule>, paths: set<seq<PathEntry>>)
    requires DistinctIds(tasks) && |sch| == |tasks|
  {
    var g := BuildGraph(tasks);
    ValidListsInside(g);
    var crit := CriticalIds(sch);
    && (forall q :: q in paths ==> IsCriticalPath(g, crit, IdsAlong(q)) && q == EntriesOf(tasks, sch, IdsAlong(q)))
    && (forall p :: IsCriticalPath(g, crit, p) ==> EntriesOf(tasks, sch, p) in paths)
  }

  /** A written-out path starts on day 0, ends with the project, and no task on it starts before the one before it finishes. */
  predicate PathTimed(q: seq<PathEntry>, pd: int) {
    && q != []
    && q[0].earlyStart == 0
    && q[|q| - 1].earlyFinish == pd
    && forall k :: 0 <= k < |q| - 1 ==> q[k].earlyFinish <= q[k + 1].earlyStart
  }

  /** Some reported path passes through the task with key `id`. */
  ghost predicate OnSomePath(paths: set<seq<PathEntry>>, id: Id) {
    exists q: seq<PathEntry>, k :: q in paths && 0 <= k < |q| && q[k].id == id
  }

  /** No task has negative float. */
  ghost predicate FloatsNonNegative(res: CpmResult) {
    forall i :: 0 <= i < |res.schedules| ==> res.schedules[i].totalFloat >= 0
  }

  /** Unless some duration is negative, at least one task is critical. */
  ghost predicate SomeCritical(tasks: seq<Task>, res: CpmResult) {
    (forall i :: 0 <= i < |tasks| ==> Duration(tasks[i]) >= 0) ==> res.criticalTasksCount >= 1
  }

  /** Every reported path is timed end to end. */
  ghost predicate PathsTimed(res: CpmResult) {
    forall q :: q in res.criticalPaths ==> PathTimed(q, res.projectDuration)
  }

  /** Every critical task lies on a reported path. */
  ghost predicate CriticalOnPaths(res: CpmResult) {
    forall s :: s in res.criticalTasks ==> OnSomePath(res.criticalPaths, s.id)
  }

  /** What the critical path method promises of a result. */
  ghost predicate Guarantees(tasks: seq<Task>, res: CpmResult) {
    FloatsNonNegative(res) && SomeCritical(tasks, res) && PathsTimed(res) && CriticalOnPaths(res)
  }

  /** What a successful `calculate` returns for `tasks`. */
  ghost predicate Describes(tasks: seq<Task>, res: CpmResult)
    requires DistinctIds(tasks)
  {
    && tasks != []
    && !HasCycle(BuildGraph(tasks))
    && Aligned(tasks, res.schedules)
    && TimesSolve(tasks, res.schedules, res.projectDuration)
    && SpansProject(res.schedules, res.projectDuration)
    && CriticalListed(res.schedules, res.criticalTasks)
    && PathsListed(tasks, res.schedules, res.criticalPaths)
    && res.totalTasks == |tasks|
    && res.criticalTasksCount == |res.criticalTasks|
    && res.riskLevel == RiskOf(res.criticalTasksCount, res.totalTasks)
    && res.earliestCompletion == EarliestCompletion(tasks, res.projectDuration)
    && res.latestCompletion == res.earliestCompletion
  }

  /**
   * `calculate`: fails on a dependency cycle before computing anything, fails on an empty task
   * list when taking the project duration, and otherwise returns the schedules, critical tasks,
   * critical paths and aggregates.
   */
  method Calculate(tasks: seq<Task>) returns (r: Result<CpmResult, CpmError>)
    requires DistinctIds(tasks)
    ensures HasCycle(BuildGraph(tasks)) ==> r == Failure(CircularDependency)
    ensures !HasCycle(BuildGraph(tasks)) && tasks == [] ==> r == Failure(EmptyTaskList)
    ensures !HasCycle(BuildGraph(tasks)) && tasks != [] ==> r.Success? && Describes(tasks, r.value)
    ensures r.Success? ==> Guarantees(tasks, r.value)
  {
    var g := BuildGraph(tasks);
    if HasCircularDependencies(g) {
      return Failure(CircularDependency);
    }
    // With no tasks the sort and the forward pass do nothing and `max()` then fails.
    if tasks == [] {
      return Failure(EmptyTaskList);
    }
    var res := Analyse(tasks, g);
    return Success(res);
  }

  /** `_topological_sort` on an acyclic graph: an order that lists every task after its dependencies. */
  method SortTasks(g: Graph) returns (order: seq<Id>)
    requires Valid(g) && !HasCycle(g)
    ensures ListsInside(g) && Mirrored(g) && TopoOrder(g, order)
  {
    order := TopologicalSort.TopologicalSort(g);
    ValidListsInside(g);
  }

  /**
   * The sort, the forward pass, the project duration and the backward pass: times that solve the
   * pass equations, with a project duration some task finishes at.
   */
  method Passes(tasks: seq<Task>, g: Graph) returns (order: seq<Id>, dur: map<Id, int>, es: map<Id, int>,
                                                    lf: map<Id, int>, pd: int)
    requires DistinctIds(tasks) && Valid(g) && g.nodes == IdsOf(tasks) && !HasCycle(g) && tasks != []
    ensures ListsInside(g) && TopoOrder(g, order)
    ensures dur == DurationOf(tasks)
    ensures Scheduled(g, dur, es, lf, pd)
    ensures exists v :: v in NodeSet(g) && es[v] + dur[v] == pd
  {
    dur := DurationOf(tasks);
    order := SortTasks(g);
    es := ForwardPass(g, dur, order);
    pd := ProjectDuration(g, dur, es);
    lf := BackwardPass(g, dur, order, pd);
  }

  /** Everything after the cycle check, on a non-empty acyclic task list. */
  method Analyse(tasks: seq<Task>, g: Graph) returns (res: CpmResult)
    requires DistinctIds(tasks) && g == BuildGraph(tasks) && !HasCycle(g) && tasks != []
    ensures Describes(tasks, res) && Guarantees(tasks, res)
  {
    var order, dur, es, lf, pd := Passes(tasks, g);
    var sch := Schedules(tasks, es, lf);
    var crit := CriticalIds(sch);
    ghost var pos := TopoOrderRanked(g, order);
    var ps := FindCriticalPaths(g, crit, pos, |order|);
    PathsInScope(tasks, g, crit, pos, |order|, ps);
    var paths := set p | p in ps :: EntriesOf(tasks, sch, p);
    var ct := Filter(sch, CriticalFlag);
    var done := EarliestCompletion(tasks, pd);
    res := CpmResult(sch, ct, paths, pd, done, done, |tasks|, |ct|, RiskOf(|ct|, |tasks|));
    DescribesAssembled(tasks, g, dur, es, lf, pd, pos, |order|, ps, res);
    GuaranteesAssembled(tasks, g, dur, es, lf, pd, order, pos, ps, res);
  }

  /** How `calculate` puts its result together from the pass times and the enumerated key paths. */
  ghost predicate Assembled(tasks: seq<Task>, es: map<Id, int>, lf: map<Id, int>, pd: int, ps: seq<seq<Id>>,
                            res: CpmResult)
    requires es.Keys == Ids(tasks) && lf.Keys == Ids(tasks)
    requires forall p :: p in ps ==> forall k :: 0 <= k < |p| ==> p[k] in Ids(tasks)
  {
    && res.schedules == Schedules(tasks, es, lf)
    && res.criticalTasks == Filter(res.schedules, CriticalFlag)
    && res.criticalPaths == (set p | p in ps :: EntriesOf(tasks, res.schedules, p))
    && res.projectDuration == pd
    && res.earliestCompletion == EarliestCompletion(tasks, pd)
    && res.latestCompletion == res.earliestCompletion
    && res.totalTasks == |tasks|
    && res.criticalTasksCount == |res.criticalTasks|
    && res.riskLevel == RiskOf(res.criticalTasksCount, res.totalTasks)
  }

  /** The assembled result is what `calculate` is meant to return. */
  lemma DescribesAssembled(tasks: seq<Task>, g: Graph, dur: map<Id, int>, es: map<Id, int>, lf: map<Id, int>,
                           pd: int, pos: map<Id, int>, n: int, ps: seq<seq<Id>>, res: CpmResult)
    requires DistinctIds(tasks) && g == BuildGraph(tasks) && !HasCycle(g) && tasks != []
    requires ListsInside(g) && Ranked(g, pos, n)
    requires dur == DurationOf(tasks) && Scheduled(g, dur, es, lf, pd)
    requires exists v :: v in NodeSet(g) && es[v] + dur[v] == pd
    requires forall p :: p in ps ==> forall k :: 0 <= k < |p| ==> p[k] in Ids(tasks)
    requires Assembled(tasks, es, lf, pd, ps, res)
    requires ps == FindCriticalPaths(g, CriticalIds(res.schedules), pos, n)
    ensures Describes(tasks, res)
  {
    ScheduleAssembled(tasks, g, dur, es, lf, pd, res);
    CriticalAssembled(tasks, res.schedules);
    PathsAssembled(tasks, g, res.schedules, pos, n, ps, res.criticalPaths);
  }

  /** The schedules of the assembled result line up with the tasks and solve the passes. */
  lemma ScheduleAssembled(tasks: seq<Task>, g: Graph, dur: map<Id, int>, es: map<Id, int>, lf: map<Id, int>,
                          pd: int, res: CpmResult)
    requires DistinctIds(tasks) && g == BuildGraph(tasks)
    requires dur == DurationOf(tasks) && Scheduled(g, dur, es, lf, pd)
    requires exists v :: v in NodeSet(g) && es[v] + dur[v] == pd
    requires res.schedules == Schedules(tasks, es, lf) && res.projectDuration == pd
    ensures Aligned(tasks, res.schedules)
    ensures TimesSolve(tasks, res.schedules, res.projectDuration)
    ensures SpansProject(res.schedules, res.projectDuration)
  {
    TimesAssembled(tasks, g, dur, es, lf, pd);
    AlignedAssembled(tasks, es, lf);
    SpanAssembled(tasks, dur, es, lf, pd);
  }

  /** The assembled result keeps the promises of the critical path method. */
  lemma GuaranteesAssembled(tasks: seq<Task>, g: Graph, dur: map<Id, int>, es: map<Id, int>, lf: map<Id, int>,
                            pd: int, order: seq<Id>, pos: map<Id, int>, ps: seq<seq<Id>>, res: CpmResult)
    requires DistinctIds(tasks) && NodeSet(g) == Ids(tasks)
    requires TopoOrder(g, order) && Ranked(g, pos, |order|)
    requires dur == DurationOf(tasks) && Scheduled(g, dur, es, lf, pd)
    requires exists v :: v in NodeSet(g) && es[v] + dur[v] == pd
    requires forall p :: p in ps ==> forall k :: 0 <= k < |p| ==> p[k] in Ids(tasks)
    requires Assembled(tasks, es, lf, pd, ps, res)
    requires ps == FindCriticalPaths(g, CriticalIds(res.schedules), pos, |order|)
    ensures Guarantees(tasks, res)
  {
    FloatsNonNegativeAssembled(tasks, g, dur, es, lf, pd, order, pos, ps, res);
    SomeCriticalCounted(tasks, g, dur, es, lf, pd, order, res);
    PathsTimedListed(tasks, g, dur, es, lf, pd, order, pos, ps, res);
    CriticalOnPathsListed(tasks, g, dur, es, lf, pd, order, pos, ps, res);
  }

  /** The floats of the assembled result are not negative. */
  lemma FloatsNonNegativeAssembled(tasks: seq<Task>, g: Graph, dur: map<Id, int>, es: map<Id, int>, lf: map<Id, int>,
                            pd: int, order: seq<Id>, pos: map<Id, int>, ps: seq<seq<Id>>, res: CpmResult)
    requires DistinctIds(tasks) && NodeSet(g) == Ids(tasks)
    requires TopoOrder(g, order) && Ranked(g, pos, |order|)
    requires dur == DurationOf(tasks) && Scheduled(g, dur, es, lf, pd)
    requires exists v :: v in NodeSet(g) && es[v] + dur[v] == pd
    requires forall p :: p in ps ==> forall k :: 0 <= k < |p| ==> p[k] in Ids(tasks)
    requires Assembled(tasks, es, lf, pd, ps, res)
    requires ps == FindCriticalPaths(g, CriticalIds(res.schedules), pos, |order|)
    ensures FloatsNonNegative(res)
  {
    FloatsAssembled(tasks, g, dur, es, lf, pd, order);
  }

  /** The assembled result counts at least one critical task when no duration is negative. */
  lemma SomeCriticalCounted(tasks: seq<Task>, g: Graph, dur: map<Id, int>, es: map<Id, int>, lf: map<Id, int>,
                            pd: int, order: seq<Id>, res: CpmResult)
    requires Scheduled(g, dur, es, lf, pd) && TopoOrder(g, order) && NodeSet(g) == Ids(tasks)
    requires forall i :: 0 <= i < |tasks| ==> dur[tasks[i].id] == Duration(tasks[i])
    requires exists v :: v in NodeSet(g) && es[v] + dur[v] == pd
    requires res.criticalTasks == Filter(Schedules(tasks, es, lf), CriticalFlag)
    requires res.criticalTasksCount == |res.criticalTasks|
    ensures SomeCritical(tasks, res)
  {
    if forall i :: 0 <= i < |tasks| ==> Duration(tasks[i]) >= 0 {
      var v := SomeCriticalAssembled(tasks, g, dur, es, lf, pd, order);
      var i := CriticalScheduled(tasks, g, dur, es, lf, v);
      assert CriticalFlag(Schedules(tasks, es, lf)[i]);
    }
  }

  /** The paths of the assembled result are timed end to end. */
  lemma PathsTimedListed(tasks: seq<Task>, g: Graph, dur: map<Id, int>, es: map<Id, int>, lf: map<Id, int>,
                            pd: int, order: seq<Id>, pos: map<Id, int>, ps: seq<seq<Id>>, res: CpmResult)
    requires DistinctIds(tasks) && NodeSet(g) == Ids(tasks)
    requires TopoOrder(g, order) && Ranked(g, pos, |order|)
    requires dur == DurationOf(tasks) && Scheduled(g, dur, es, lf, pd)
    requires exists v :: v in NodeSet(g) && es[v] + dur[v] == pd
    requires forall p :: p in ps ==> forall k :: 0 <= k < |p| ==> p[k] in Ids(tasks)
    requires Assembled(tasks, es, lf, pd, ps, res)
    requires ps == FindCriticalPaths(g, CriticalIds(res.schedules), pos, |order|)
    ensures PathsTimed(res)
  {
    FloatsAssembled(tasks, g, dur, es, lf, pd, order);
    CriticalIdsExact(tasks, g, dur, es, lf);
    PathsTimedAssembled(tasks, g, dur, es, lf, pd, pos, |order|, ps, res.criticalPaths);
  }

  /** The critical tasks of the assembled result all lie on its paths. */
  lemma CriticalOnPathsListed(tasks: seq<Task>, g: Graph, dur: map<Id, int>, es: map<Id, int>, lf: map<Id, int>,
                            pd: int, order: seq<Id>, pos: map<Id, int>, ps: seq<seq<Id>>, res: CpmResult)
    requires DistinctIds(tasks) && NodeSet(g) == Ids(tasks)
    requires TopoOrder(g, order) && Ranked(g, pos, |order|)
    requires dur == DurationOf(tasks) && Scheduled(g, dur, es, lf, pd)
    requires exists v :: v in NodeSet(g) && es[v] + dur[v] == pd
    requires forall p :: p in ps ==> forall k :: 0 <= k < |p| ==> p[k] in Ids(tasks)
    requires Assembled(tasks, es, lf, pd, ps, res)
    requires ps == FindCriticalPaths(g, CriticalIds(res.schedules), pos, |order|)
    ensures CriticalOnPaths(res)
  {
    OnPathAssembled(tasks, g, res.schedules, pos, |order|, ps, res.criticalPaths);
  }

  /** Every path the enumeration reports runs through tasks in scope. */
  lemma PathsInScope(tasks: seq<Task>, g: Graph, crit: set<Id>, pos: map<Id, int>, n: int, ps: seq<seq<Id>>)
    requires DistinctIds(tasks) && g == BuildGraph(tasks)
    requires ListsInside(g) && Ranked(g, pos, n)
    requires ps == FindCriticalPaths(g, crit, pos, n)
    ensures forall p :: p in ps ==> forall k :: 0 <= k < |p| ==> p[k] in Ids(tasks)
  {
    forall p | p in ps ensures forall k :: 0 <= k < |p| ==> p[k] in Ids(tasks) {
      FindCriticalPathsExact(g, crit, pos, n, p);
    }
  }

  /** Reading the early starts and late finishes back off the schedules gives the maps they came from. */
  lemma TimesReadBack(tasks: seq<Task>, es: map<Id, int>, lf: map<Id, int>)
    requires es.Keys == Ids(tasks) && lf.Keys == Ids(tasks)
    ensures StartsOf(tasks, Schedules(tasks, es, lf)) == es
    ensures FinishesOf(tasks, Schedules(tasks, es, lf)) == lf
  {
    var sch := Schedules(tasks, es, lf);
    forall id | id in Ids(tasks) ensures StartsOf(tasks, sch)[id] == es[id] && FinishesOf(tasks, sch)[id] == lf[id] {
      var i := IndexOfId(tasks, id);
    }
  }

  /** The schedules carry the times of the two passes, so they solve the equations. */
  lemma TimesAssembled(tasks: seq<Task>, g: Graph, dur: map<Id, int>, es: map<Id, int>, lf: map<Id, int>, pd: int)
    requires DistinctIds(tasks) && g == BuildGraph(tasks) && dur == DurationOf(tasks)
    requires Scheduled(g, dur, es, lf, pd)
    ensures TimesSolve(tasks, Schedules(tasks, es, lf), pd)
  {
    TimesReadBack(tasks, es, lf);
  }

  /** Each schedule belongs to the task at its position, with times that fit its duration. */
  lemma AlignedAssembled(tasks: seq<Task>, es: map<Id, int>, lf: map<Id, int>)
    requires Ids(tasks) <= es.Keys && Ids(tasks) <= lf.Keys
    ensures Aligned(tasks, Schedules(tasks, es, lf))
  {
  }

  /** The project duration is attained by some schedule and exceeded by none. */
  lemma SpanAssembled(tasks: seq<Task>, dur: map<Id, int>, es: map<Id, int>, lf: map<Id, int>, pd: int)
    requires es.Keys == Ids(tasks) && lf.Keys == Ids(tasks) && dur.Keys == Ids(tasks)
    requires forall i :: 0 <= i < |tasks| ==> dur[tasks[i].id] == Duration(tasks[i])
    requires forall v :: v in Ids(tasks) ==> es[v] + dur[v] <= pd
    requires exists v :: v in Ids(tasks) && es[v] + dur[v] == pd
    ensures SpansProject(Schedules(tasks, es, lf), pd)
  {
    var sch := Schedules(tasks, es, lf);
    var v :| v in Ids(tasks) && es[v] + dur[v] == pd;
    var i := IndexOfId(tasks, v);
    assert sch[i].earlyFinish == pd;
    forall j | 0 <= j < |sch| ensures sch[j].earlyFinish <= pd {
      assert tasks[j].id in Ids(tasks) by {
        assert IdsOf(tasks)[j] == tasks[j].id;
      }
    }
  }

  /** Schedules of tasks with distinct keys are distinct. */
  lemma SchedulesDistinct(tasks: seq<Task>, sch: seq<TaskSchedule>)
    requires DistinctIds(tasks)
    requires |sch| == |tasks| && forall i :: 0 <= i < |tasks| ==> sch[i].id == tasks[i].id
    ensures Distinct(sch)
  {
    forall i, j | 0 <= i < j < |sch| ensures sch[i] != sch[j] {
      assert IdsOf(tasks)[i] != IdsOf(tasks)[j];
    }
  }

  /** Filtering the schedules by their flag lists the critical ones in task order. */
  lemma CriticalAssembled(tasks: seq<Task>, sch: seq<TaskSchedule>)
    requires DistinctIds(tasks)
    requires |sch| == |tasks| && forall i :: 0 <= i < |tasks| ==> sch[i].id == tasks[i].id
    ensures CriticalListed(sch, Filter(sch, CriticalFlag))
  {
    SchedulesDistinct(tasks, sch);
    FilterDistinct(sch, CriticalFlag);
    FilterInOrder(sch, CriticalFlag);
  }

  /** Writing out the enumerated key paths gives exactly the critical paths. */
  lemma PathsAssembled(tasks: seq<Task>, g: Graph, sch: seq<TaskSchedule>, pos: map<Id, int>, n: int,
                       ps: seq<seq<Id>>, paths: set<seq<PathEntry>>)
    requires DistinctIds(tasks) && g == BuildGraph(tasks) && |sch| == |tasks|
    requires ListsInside(g) && Ranked(g, pos, n)
    requires ps == FindCriticalPaths(g, CriticalIds(sch), pos, n)
    requires forall p :: p in ps ==> forall k :: 0 <= k < |p| ==> p[k] in Ids(tasks)
    requires paths == set p | p in ps :: EntriesOf(tasks, sch, p)
    ensures PathsListed(tasks, sch, paths)
  {
    var crit := CriticalIds(sch);
    forall q | q in paths
      ensures IsCriticalPath(g, crit, IdsAlong(q)) && q == EntriesOf(tasks, sch, IdsAlong(q))
    {
      var p :| p in ps && q == EntriesOf(tasks, sch, p);
      FindCriticalPathsExact(g, crit, pos, n, p);
    }
    forall p | IsCriticalPath(g, crit, p) ensures EntriesOf(tasks, sch, p) in paths {
      FindCriticalPathsExact(g, crit, pos, n, p);
    }
  }

  /** No schedule has negative float: each task finishes early no later than it must finish. */
  lemma FloatsAssembled(tasks: seq<Task>, g: Graph, dur: map<Id, int>, es: map<Id, int>, lf: map<Id, int>, pd: int,
                        order: seq<Id>)
    requires Scheduled(g, dur, es, lf, pd) && TopoOrder(g, order) && NodeSet(g) == Ids(tasks)
    requires forall i :: 0 <= i < |tasks| ==> dur[tasks[i].id] == Duration(tasks[i])
    ensures forall x :: x in NodeSet(g) ==> es[x] + dur[x] <= lf[x]
    ensures forall i :: 0 <= i < |tasks| ==> Schedules(tasks, es, lf)[i].totalFloat >= 0
  {
    FloatNonNegative(g, dur, es, lf, pd, order);
    forall i | 0 <= i < |tasks| ensures Schedules(tasks, es, lf)[i].totalFloat >= 0 {
      assert IdsOf(tasks)[i] == tasks[i].id;
    }
  }

  /** A task's `is_critical` flag is the zero-float test on the times of the two passes. */
  lemma CriticalIdsExact(tasks: seq<Task>, g: Graph, dur: map<Id, int>, es: map<Id, int>, lf: map<Id, int>)
    requires PerNode(g, dur) && PerNode(g, es) && PerNode(g, lf) && NodeSet(g) == Ids(tasks)
    requires forall i :: 0 <= i < |tasks| ==> dur[tasks[i].id] == Duration(tasks[i])
    ensures forall v :: v in NodeSet(g) ==> (v in CriticalIds(Schedules(tasks, es, lf)) <==> Critical(g, dur, es, lf, v))
  {
    var sch := Schedules(tasks, es, lf);
    forall v | v in NodeSet(g) ensures v in CriticalIds(sch) <==> Critical(g, dur, es, lf, v) {
      if v in CriticalIds(sch) {
        var s :| s in sch && s.isCritical && s.id == v;
        var j :| 0 <= j < |sch| && sch[j] == s;
        assert tasks[j].id == v;
      } else {
        var i := IndexOfId(tasks, v);
        assert sch[i] in sch;
      }
    }
  }

  /** When no duration is negative, the task that finishes with the project leaves a critical task behind. */
  lemma SomeCriticalAssembled(tasks: seq<Task>, g: Graph, dur: map<Id, int>, es: map<Id, int>, lf: map<Id, int>,
                              pd: int, order: seq<Id>) returns (v: Id)
    requires Scheduled(g, dur, es, lf, pd) && TopoOrder(g, order) && NodeSet(g) == Ids(tasks)
    requires forall i :: 0 <= i < |tasks| ==> dur[tasks[i].id] == Duration(tasks[i])
    requires exists v :: v in NodeSet(g) && es[v] + dur[v] == pd
    requires forall i :: 0 <= i < |tasks| ==> Duration(tasks[i]) >= 0
    ensures v in NodeSet(g) && Critical(g, dur, es, lf, v)
  {
    forall u | u in dur ensures dur[u] >= 0 {
      var j := IndexOfId(tasks, u);
    }
    SomeTaskCritical(g, dur, es, lf, pd, order);
    v :| v in NodeSet(g) && Critical(g, dur, es, lf, v);
  }

  /** The schedule of a critical task carries the `is_critical` flag. */
  lemma CriticalScheduled(tasks: seq<Task>, g: Graph, dur: map<Id, int>, es: map<Id, int>, lf: map<Id, int>, v: Id)
    returns (i: nat)
    requires PerNode(g, dur) && PerNode(g, es) && PerNode(g, lf) && NodeSet(g) == Ids(tasks)
    requires forall i :: 0 <= i < |tasks| ==> dur[tasks[i].id] == Duration(tasks[i])
    requires v in NodeSet(g) && Critical(g, dur, es, lf, v)
    ensures i < |tasks| && Schedules(tasks, es, lf)[i].isCritical
  {
    i := IndexOfId(tasks, v);
  }

  /** A critical task with no critical dependency has no dependency at all, so it starts on day 0. */
  lemma StartIsRoot(g: Graph, dur: map<Id, int>, es: map<Id, int>, lf: map<Id, int>, pd: int, crit: set<Id>, v: Id)
    requires Scheduled(g, dur, es, lf, pd)
    requires forall x :: x in NodeSet(g) ==> es[x] + dur[x] <= lf[x]
    requires forall x :: x in NodeSet(g) ==> (x in crit <==> Critical(g, dur, es, lf, x))
    requires v in NodeSet(g) && v in crit && NoCriticalPred(g, crit, v)
    ensures es[v] == 0
  {
    if g.pred[v] != [] {
      var u := CriticalHasCriticalPred(g, dur, es, lf, pd, v);
      assert false;
    }
    assert EarlyStartAt(g, dur, es, v);
  }

  /** A critical task with no critical dependent has no dependent at all, so it finishes with the project. */
  lemma EndIsLeaf(g: Graph, dur: map<Id, int>, es: map<Id, int>, lf: map<Id, int>, pd: int, crit: set<Id>, w: Id)
    requires Scheduled(g, dur, es, lf, pd)
    requires forall x :: x in NodeSet(g) ==> es[x] + dur[x] <= lf[x]
    requires forall x :: x in NodeSet(g) ==> (x in crit <==> Critical(g, dur, es, lf, x))
    requires w in NodeSet(g) && w in crit && NoCriticalSucc(g, crit, w)
    ensures es[w] + dur[w] == pd
  {
    if g.succ[w] != [] {
      var x := CriticalHasCriticalSucc(g, dur, es, lf, pd, w);
      assert false;
    }
    assert LateFinishAt(g, dur, pd, lf, w);
  }

  /** A path written out carries, at each step, the early start and early finish of its task. */
  lemma EntriesTimes(tasks: seq<Task>, dur: map<Id, int>, es: map<Id, int>, lf: map<Id, int>, p: seq<Id>)
    requires dur.Keys == Ids(tasks) && es.Keys == Ids(tasks) && lf.Keys == Ids(tasks)
    requires forall i :: 0 <= i < |tasks| ==> dur[tasks[i].id] == Duration(tasks[i])
    requires forall k :: 0 <= k < |p| ==> p[k] in Ids(tasks)
    ensures forall k :: 0 <= k < |p| ==>
      && EntriesOf(tasks, Schedules(tasks, es, lf), p)[k].earlyStart == es[p[k]]
      && EntriesOf(tasks, Schedules(tasks, es, lf), p)[k].earlyFinish == es[p[k]] + dur[p[k]]
  {
    var q := EntriesOf(tasks, Schedules(tasks, es, lf), p);
    forall k | 0 <= k < |p| ensures q[k].earlyStart == es[p[k]] && q[k].earlyFinish == es[p[k]] + dur[p[k]] {
      var i := IndexOfId(tasks, p[k]);
    }
  }

  /** A critical path, written out, starts on day 0, ends with the project and runs forward in time. */
  lemma CriticalPathTimed(tasks: seq<Task>, g: Graph, dur: map<Id, int>, es: map<Id, int>, lf: map<Id, int>, pd: int,
                          crit: set<Id>, p: seq<Id>)
    requires Scheduled(g, dur, es, lf, pd) && NodeSet(g) == Ids(tasks)
    requires forall i :: 0 <= i < |tasks| ==> dur[tasks[i].id] == Duration(tasks[i])
    requires forall x :: x in NodeSet(g) ==> es[x] + dur[x] <= lf[x]
    requires forall x :: x in NodeSet(g) ==> (x in crit <==> Critical(g, dur, es, lf, x))
    requires IsCriticalPath(g, crit, p)
    ensures PathTimed(EntriesOf(tasks, Schedules(tasks, es, lf), p), pd)
  {
    EntriesTimes(tasks, dur, es, lf, p);
    StartIsRoot(g, dur, es, lf, pd, crit, p[0]);
    EndIsLeaf(g, dur, es, lf, pd, crit, p[|p| - 1]);
    forall k | 0 <= k < |p| - 1 ensures es[p[k]] + dur[p[k]] <= es[p[k + 1]] {
      DependencyFinishesFirst(g, dur, es, p[k], p[k + 1]);
    }
  }

  /** Every written-out path the enumeration reports is timed end to end. */
  lemma PathsTimedAssembled(tasks: seq<Task>, g: Graph, dur: map<Id, int>, es: map<Id, int>, lf: map<Id, int>,
                            pd: int, pos: map<Id, int>, n: int, ps: seq<seq<Id>>, paths: set<seq<PathEntry>>)
    requires Scheduled(g, dur, es, lf, pd) && NodeSet(g) == Ids(tasks) && Ranked(g, pos, n)
    requires forall i :: 0 <= i < |tasks| ==> dur[tasks[i].id] == Duration(tasks[i])
    requires forall x :: x in NodeSet(g) ==> es[x] + dur[x] <= lf[x]
    requires forall x :: x in NodeSet(g) ==> (x in CriticalIds(Schedules(tasks, es, lf)) <==> Critical(g, dur, es, lf, x))
    requires ps == FindCriticalPaths(g, CriticalIds(Schedules(tasks, es, lf)), pos, n)
    requires forall p :: p in ps ==> forall k :: 0 <= k < |p| ==> p[k] in Ids(tasks)
    requires paths == set p | p in ps :: EntriesOf(tasks, Schedules(tasks, es, lf), p)
    ensures forall q :: q in paths ==> PathTimed(q, pd)
  {
    var sch := Schedules(tasks, es, lf);
    forall q | q in paths ensures PathTimed(q, pd) {
      var p :| p in ps && q == EntriesOf(tasks, sch, p);
      FindCriticalPathsExact(g, CriticalIds(sch), pos, n, p);
      CriticalPathTimed(tasks, g, dur, es, lf, pd, CriticalIds(sch), p);
    }
  }

  /** Every critical task lies on some written-out path the enumeration reports. */
  lemma OnPathAssembled(tasks: seq<Task>, g: Graph, sch: seq<TaskSchedule>, pos: map<Id, int>, n: int,
                        ps: seq<seq<Id>>, paths: set<seq<PathEntry>>)
    requires ListsInside(g) && Mirrored(g) && Ranked(g, pos, n) && NodeSet(g) == Ids(tasks)
    requires |sch| == |tasks| && forall i :: 0 <= i < |tasks| ==> sch[i].id == tasks[i].id
    requires ps == FindCriticalPaths(g, CriticalIds(sch), pos, n)
    requires forall p :: p in ps ==> forall k :: 0 <= k < |p| ==> p[k] in Ids(tasks)
    requires paths == set p | p in ps :: EntriesOf(tasks, sch, p)
    ensures forall s :: s in sch && s.isCritical ==> OnSomePath(paths, s.id)
  {
    forall s | s in sch && s.isCritical ensures OnSomePath(paths, s.id) {
      var i :| 0 <= i < |sch| && sch[i] == s;
      assert IdsOf(tasks)[i] == s.id;
      var p := EveryCriticalTaskOnAPath(g, CriticalIds(sch), pos, n, s.id);
      var q := EntriesOf(tasks, sch, p);
      var k := FirstIndex(p, s.id);
      assert q in paths && q[k].id == s.id;
    }
  }
}
