/**
 * The float bands of the `create_near_critical` management command
 * (tasks/management/commands/create_near_critical.py): after the critical path is computed, each
 * task is labelled critical, near-critical or normal by its total float, and the labels are counted.
 */
module FloatBands {
  import opened Seqs
  import opened Tasks
  import opened Calculator

  /** The three labels of the report. */
  datatype Band = CriticalBand | NearCritical | Normal

  /**
   * The label of one total float: zero is critical, anything else up to two days is near-critical
   * (a negative float would land there too), and more than two days is normal.
   */
  function BandOf(totalFloat: int): (b: Band)
    ensures b == CriticalBand <==> totalFloat == 0
    ensures b == NearCritical <==> totalFloat != 0 && totalFloat <= 2
    ensures b == Normal <==> totalFloat > 2
  {
    if totalFloat == 0 then CriticalBand
    else if totalFloat <= 2 then NearCritical
    else Normal
  }

  /** How many of `floats` carry label `b`: the reference the counting loop is measured against. */
  function CountBand(floats: seq<int>, b: Band): (n: nat)
    ensures n <= |floats|
  {
    if floats == [] then 0 else (if BandOf(floats[0]) == b then 1 else 0) + CountBand(floats[1..], b)
  }

  /** Counting one more float adds one to the count of its own label only. */
  lemma CountBandSnoc(floats: seq<int>, f: int, b: Band)
    ensures CountBand(floats + [f], b) == CountBand(floats, b) + (if BandOf(f) == b then 1 else 0)
  {
    if floats != [] {
      assert (floats + [f])[1..] == floats[1..] + [f];
      CountBandSnoc(floats[1..], f, b);
    }
  }

  /** Every float gets exactly one label, so the three counts add up to the number of tasks. */
  lemma {:induction false} CountBandsPartition(floats: seq<int>)
    ensures CountBand(floats, CriticalBand) + CountBand(floats, NearCritical) + CountBand(floats, Normal) == |floats|
  {
    if floats != [] {
      CountBandsPartition(floats[1..]);
    }
  }

  /**
   * The report loop: label each task in turn and keep three running counts, which end as the
   * number of tasks with each label and together as the number of tasks.
   */
  method CountBands(floats: seq<int>) returns (critical: nat, nearCritical: nat, normal: nat)
    ensures critical == CountBand(floats, CriticalBand)
    ensures nearCritical == CountBand(floats, NearCritical)
    ensures normal == CountBand(floats, Normal)
    ensures critical + nearCritical + normal == |floats|
  {
    critical, nearCritical, normal := 0, 0, 0;
    var i := 0;
    while i < |floats|
      invariant 0 <= i <= |floats|
      invariant critical == CountBand(floats[..i], CriticalBand)
      invariant nearCritical == CountBand(floats[..i], NearCritical)
      invariant normal == CountBand(floats[..i], Normal)
      invariant critical + nearCritical + normal == i
    {
      assert floats[..i + 1] == floats[..i] + [floats[i]];
      CountBandSnoc(floats[..i], floats[i], CriticalBand);
      CountBandSnoc(floats[..i], floats[i], NearCritical);
      CountBandSnoc(floats[..i], floats[i], Normal);
      match BandOf(floats[i]) {
        case CriticalBand => critical := critical + 1;
        case NearCritical => nearCritical := nearCritical + 1;
        case Normal => normal := normal + 1;
      }
      i := i + 1;
    }
    assert floats[..i] == floats;
  }

  /** The total floats of a list of schedules, in order. */
  function Floats(sch: seq<TaskSchedule>): (f: seq<int>)
    ensures |f| == |sch| && forall i :: 0 <= i < |sch| ==> f[i] == sch[i].totalFloat
  {
    seq(|sch|, i requires 0 <= i < |sch| => sch[i].totalFloat)
  }

  /** When the flag marks exactly the zero floats, the flagged schedules are as many as the critical labels. */
  lemma {:induction false} FlaggedAreCriticalBand(sch: seq<TaskSchedule>)
    requires forall i :: 0 <= i < |sch| ==> (sch[i].isCritical <==> sch[i].totalFloat == 0)
    ensures |Filter(sch, CriticalFlag)| == CountBand(Floats(sch), CriticalBand)
  {
    if sch != [] {
      assert Floats(sch)[1..] == Floats(sch[1..]);
      FlaggedAreCriticalBand(sch[1..]);
    }
  }

  /** A repetition-free listing of exactly the flagged schedules has as many entries as there are zero floats. */
  lemma ListedAreCriticalBand(sch: seq<TaskSchedule>, ct: seq<TaskSchedule>)
    requires Distinct(sch) && CriticalListed(sch, ct)
    requires forall i :: 0 <= i < |sch| ==> (sch[i].isCritical <==> sch[i].totalFloat == 0)
    ensures CountBand(Floats(sch), CriticalBand) == |ct|
  {
    FilterDistinct(sch, CriticalFlag);
    var flagged := Filter(sch, CriticalFlag);
    assert Elems(flagged) == Elems(ct);
    SameElemsSameLength(flagged, ct);
    FlaggedAreCriticalBand(sch);
  }

  /**
   * On a result of `calculate`, the report's critical count is the `critical_tasks_count` of the
   * result: a zero float and the `is_critical` flag pick out the same tasks.
   */
  lemma CriticalBandIsCriticalCount(tasks: seq<Task>, res: CpmResult)
    requires DistinctIds(tasks) && Describes(tasks, res)
    ensures CountBand(Floats(res.schedules), CriticalBand) == res.criticalTasksCount
  {
    SchedulesDistinct(tasks, res.schedules);
    ListedAreCriticalBand(res.schedules, res.criticalTasks);
  }

  /** Since no float of a result is negative, a near-critical task has one or two days of float. */
  lemma NearCriticalSlack(tasks: seq<Task>, res: CpmResult, i: nat)
    requires Guarantees(tasks, res) && i < |res.schedules|
    ensures BandOf(res.schedules[i].totalFloat) == NearCritical <==> 1 <= res.schedules[i].totalFloat <= 2
  {
  }
}
