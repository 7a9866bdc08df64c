/** The task records the scheduling engine reads (tasks/models.py, tasks/critical_path.py). */
module Tasks {
  import opened Wrappers
  import opened Seqs

  /** A task's primary key. */
  type Id = int

  /**
   * The fields of a task that the Critical Path Method engine reads: its key, its title (copied
   * into path summaries), its duration in days (the database column may be null), its start date
   * as a day number, and the keys of the tasks it depends on.
   */
  datatype Task = Task(id: Id, title: string, duration: Option<int>, startDate: Option<int>, deps: set<Id>)

  /** `task.duration or 0`: a missing duration counts as zero days. */
  function Duration(t: Task): int {
    t.duration.GetOr(0)
  }

  /** The keys of the tasks, in task order. */
  function IdsOf(tasks: seq<Task>): (r: seq<Id>)
    ensures |r| == |tasks|
    ensures forall i :: 0 <= i < |tasks| ==> r[i] == tasks[i].id
  {
    seq(|tasks|, i requires 0 <= i < |tasks| => tasks[i].id)
  }

  /** The keys in scope of one computation. */
  function Ids(tasks: seq<Task>): set<Id> {
    Elems(IdsOf(tasks))
  }

  /** Records loaded from one table have pairwise different primary keys. */
  predicate DistinctIds(tasks: seq<Task>) {
    Distinct(IdsOf(tasks))
  }

  /** Position of the task with key `id`. */
  function IndexOfId(tasks: seq<Task>, id: Id): (r: nat)
    requires id in Ids(tasks)
    ensures r < |tasks| && tasks[r].id == id
  {
    FirstIndex(IdsOf(tasks), id)
  }

  /** `task_dict[id]`: the task with key `id`. */
  function Find(tasks: seq<Task>, id: Id): (t: Task)
    requires id in Ids(tasks)
    ensures t in tasks && t.id == id
  {
    tasks[IndexOfId(tasks, id)]
  }

  /** With distinct keys, looking up a task's own key finds that task. */
  lemma FindAt(tasks: seq<Task>, i: nat)
    requires DistinctIds(tasks)
    requires i < |tasks|
    ensures tasks[i].id in Ids(tasks)
    ensures Find(tasks, tasks[i].id) == tasks[i]
  {
    assert IdsOf(tasks)[i] == tasks[i].id;
  }

  /** Dropping the first task keeps the keys distinct. */
  lemma DistinctIdsTail(tasks: seq<Task>)
    requires DistinctIds(tasks)
    requires tasks != []
    ensures DistinctIds(tasks[1..])
    ensures tasks[0].id !in Ids(tasks[1..])
  {
    assert IdsOf(tasks[1..]) == IdsOf(tasks)[1..];
    assert forall k :: 0 <= k < |tasks| - 1 ==> IdsOf(tasks[1..])[k] != tasks[0].id;
  }
  /** With distinct keys, the position of a task's key is that task's position. */
  lemma IndexOfIdAt(tasks: seq<Task>, i: nat)
    requires DistinctIds(tasks)
    requires i < |tasks|
    ensures tasks[i].id in Ids(tasks)
    ensures IndexOfId(tasks, tasks[i].id) == i
  {
    assert IdsOf(tasks)[i] == tasks[i].id;
    var r := IndexOfId(tasks, tasks[i].id);
    assert IdsOf(tasks)[r] == tasks[i].id;
  }
}
