/**
 * `Task.save` (tasks/models.py): before a task row is written, missing dates are filled in from
 * the duration and the progress percentage is brought in line with the status.
 */
module TaskSave {
  import opened Wrappers

  /**
   * The fields `save` reads and writes. Dates are day numbers; `status` is the raw column value
   * (the choices are not enforced on save); `stored` says the row already has a primary key.
   */
  datatype TaskRecord = TaskRecord(status: string, startDate: Option<int>, dueDate: Option<int>,
                                   duration: int, progress: int, stored: bool)

  /**
   * The date rule: a task with only a due date starts `duration - 1` days before it, one with only
   * a start date is due `duration - 1` days after it, and one with neither starts `today`. Given
   * dates are kept, and afterwards both dates are set.
   */
  function FillDates(t: TaskRecord, today: int): (r: TaskRecord)
    ensures r.startDate.Some? && r.dueDate.Some?
    ensures t.startDate.Some? ==> r.startDate == t.startDate
    ensures t.dueDate.Some? ==> r.dueDate == t.dueDate
    ensures t.startDate.None? || t.dueDate.None? ==> r.dueDate.value - r.startDate.value == t.duration - 1
    ensures t.startDate.None? && t.dueDate.None? ==> r.startDate == Some(today)
    ensures r.(startDate := t.startDate, dueDate := t.dueDate) == t
  {
    match (t.startDate, t.dueDate)
    case (None, Some(due)) => t.(startDate := Some(due - (t.duration - 1)))
    case (Some(start), None) => t.(dueDate := Some(start + (t.duration - 1)))
    case (None, None) => t.(startDate := Some(today), dueDate := Some(today + (t.duration - 1)))
    case (Some(_), Some(_)) => t
  }

  /**
   * The progress rule: a done task below 100 is set to 100, an in-progress task at 0 is put at 50,
   * and a new to-do task starts at 0. Progress already past those marks, other
   * statuses and stored to-do tasks are left alone.
   */
  function FillProgress(t: TaskRecord): (r: TaskRecord)
    ensures r.(progress := t.progress) == t
    ensures t.status == "Done" ==> r.progress == (if t.progress < 100 then 100 else t.progress)
    ensures t.status == "In Progress" ==> r.progress == (if t.progress == 0 then 50 else t.progress)
    ensures t.status == "To Do" ==> r.progress == (if t.stored then t.progress else 0)
    ensures t.status !in {"Done", "In Progress", "To Do"} ==> r == t
  {
    if t.status == "Done" && t.progress < 100 then t.(progress := 100)
    else if t.status == "In Progress" && t.progress == 0 then t.(progress := 50)
    else if t.status == "To Do" && !t.stored then t.(progress := 0)
    else t
  }

  /**
   * `save(skip_progress_auto=...)`: fill the dates, adjust the progress unless told to skip it,
   * and write the row, which then has a primary key.
   */
  function Save(t: TaskRecord, today: int, skipProgressAuto: bool): (r: TaskRecord)
    ensures r.stored
    ensures r.status == t.status && r.duration == t.duration
    ensures r.startDate.Some? && r.dueDate.Some?
    ensures t.startDate.Some? ==> r.startDate == t.startDate
    ensures t.dueDate.Some? ==> r.dueDate == t.dueDate
    ensures t.startDate.None? || t.dueDate.None? ==> r.dueDate.value - r.startDate.value == t.duration - 1
    ensures t.startDate.None? && t.dueDate.None? ==> r.startDate == Some(today)
    ensures skipProgressAuto ==> r.progress == t.progress
    ensures !skipProgressAuto && t.status == "Done" ==> r.progress == (if t.progress < 100 then 100 else t.progress)
    ensures !skipProgressAuto && t.status == "In Progress" ==> r.progress == (if t.progress == 0 then 50 else t.progress)
    ensures !skipProgressAuto && t.status == "To Do" ==> r.progress == (if t.stored then t.progress else 0)
    ensures t.status !in {"Done", "In Progress", "To Do"} ==> r.progress == t.progress
  {
    var dated := FillDates(t, today);
    var adjusted := if skipProgressAuto then dated else FillProgress(dated);
    adjusted.(stored := true)
  }

  /** Saving a saved task again with the same setting changes nothing, whatever the day. */
  lemma SaveIdempotent(t: TaskRecord, today: int, later: int, skipProgressAuto: bool)
    ensures Save(Save(t, today, skipProgressAuto), later, skipProgressAuto) == Save(t, today, skipProgressAuto)
  {
    var once := Save(t, today, skipProgressAuto);
    assert FillDates(once, later) == once;
    if !skipProgressAuto {
      assert FillProgress(once) == once;
    }
  }

  /** The filled-in dates span the duration whenever a date was missing; given dates are never moved. */
  lemma SavedSpan(t: TaskRecord, today: int, skipProgressAuto: bool)
    ensures t.startDate.None? || t.dueDate.None? ==>
      Save(t, today, skipProgressAuto).dueDate.value - Save(t, today, skipProgressAuto).startDate.value == t.duration - 1
    ensures t.startDate.Some? ==> Save(t, today, skipProgressAuto).startDate == t.startDate
    ensures t.dueDate.Some? ==> Save(t, today, skipProgressAuto).dueDate == t.dueDate
  {
    var dated := FillDates(t, today);
    assert Save(t, today, skipProgressAuto).startDate == dated.startDate;
    assert Save(t, today, skipProgressAuto).dueDate == dated.dueDate;
  }
}
