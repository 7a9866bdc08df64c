# Planora critical path and form rules, in Dafny

Planora is a project planner. Its backend computes the critical path of a project's tasks with
the Critical Path Method. That covers:

- a dependency graph;
- a check for circular dependencies;
- Kahn's topological sort;
- forward and backward passes giving early and late times;
- total float and critical tasks;
- every critical path;
- the earliest completion date;
- a risk level.

A management command labels tasks critical, near-critical or normal by their float. Before a task
is stored, missing dates and the progress percentage are filled in. The frontend has:

- login-token helpers that report the time left;
- validation rules for the user, sign-up and project forms;
- the permission toggles of the user form;
- the derivation of a project key from a project name.

This project models those parts as pure Dafny functions, plus a few methods with loops, over
immutable data. It proves what each part promises:

- The cycle check answers exactly "the graph has a cycle".
- The sort lists every task after its dependencies exactly when there is no cycle.
- The passes solve the CPM equations.
- Floats are never negative.
- Some task is critical, when no duration is negative.
- The reported paths are exactly the maximal chains of critical tasks, and every critical task lies on one.
- The form checks accept exactly the inputs their rules allow, and report the first rule broken.
- Toggling a permission twice restores the selection.
- Splitting a name at spaces undoes joining its words.

Modules, one per file:

| Module | File | Contents |
|---|---|---|
| `Wrappers` | `wrappers.dfy` | `Option` and `Result` |
| `Seqs` | `seqs.dfy` | sequence helpers |
| `Tasks` | `tasks.dfy` | the task record |
| `DependencyGraph` | `graph.dfy` | the dependency graph |
| `CycleDetection` | `cycle_detection.dfy` | the cycle check |
| `TopologicalSort` | `topological_sort.dfy` | Kahn's algorithm |
| `Schedule` | `schedule.dfy` | the passes and their properties |
| `CriticalPaths` | `critical_paths.dfy` | path search |
| `Calculator` | `critical_path.dfy` | `calculate` and the result dictionary |
| `FloatBands` | `float_bands.dfy` | the float bands |
| `TaskSave` | `task_save.dfy` | `Task.save` |
| `Text` | `text.dfy` | JavaScript `trim`, `\s`, the email pattern, number rendering |
| `TokenUtils` | `token_utils.dfy` | the login-token helpers |
| `UserForm` | `user_form.dfy` | the user form |
| `SignUp` | `sign_up.dfy` | the sign-up form |
| `ProjectForm` | `project_form.dfy` | the project form |

How the model stands in for the runtime:

- **Tasks.** A task is a record: a key, a title, an optional duration (`None` counts as 0, as in `task.duration or 0`), an optional start day, and the set of keys it depends on. Keys are distinct, as primary keys are. Durations may be negative, as the integer column allows; the results hold for them too, except where a row says it needs non-negative durations.
- **Schedules.** `calculate` writes the computed times onto the task objects. Here they come back as one `TaskSchedule` per task.
- **Dates.** Dates are day numbers.
- **The clock.** Every current time, such as `Date.now()` or `datetime.now()`, is a parameter.

## Model

| member | source | states |
|---|---|---|
| DependencyGraph.Dependents | tasks/critical_path.py:78-81 | The tasks listed under a dependency are exactly the tasks that name it among their dependencies, each once. |
| DependencyGraph.InScope | tasks/critical_path.py:78-82 | The dependencies kept for a task are exactly those that are tasks of this project; dependencies on other tasks are dropped. |
| DependencyGraph.BuildGraph | tasks/critical_path.py:72-82 | The forward and reverse adjacency lists mirror each other. There is an edge u→v exactly when both are tasks of the list and v depends on u. Every node is a task key, listed once. |
| DependencyGraph.SelfDependencyIsCycle | tasks/critical_path.py:72-82 | A task that lists itself among its dependencies gives the graph a cycle, so `calculate` rejects the list. |
| DependencyGraph.TopologicalOrderAcyclic | tasks/critical_path.py:115-143 | A graph whose nodes can be ordered with every edge pointing forward has no cycle. |
| DependencyGraph.NoSourceMeansCycle | tasks/critical_path.py:129-141 | A non-empty set of tasks in which every task has a dependency inside the set contains a cycle. This is why Kahn's algorithm stalls exactly on cyclic graphs. |
| CycleDetection.Visit | tasks/critical_path.py:94-106 | `dfs(task_id)`: reporting a cycle means the graph has one. Otherwise the task is finished, and the finished tasks stay closed under successors. |
| CycleDetection.VisitAll | tasks/critical_path.py:98-103 | The loop over successors: reporting a cycle means there is one, either through a back edge into the recursion stack or through a nested call. Otherwise every successor has been finished. |
| CycleDetection.DetectFrom | tasks/critical_path.py:108-113 | The outer loop over all tasks returns true exactly when the graph has a cycle, in both directions. |
| CycleDetection.HasCircularDependencies | tasks/critical_path.py:84-113 | `_has_circular_dependencies` returns true if and only if the dependency graph has a cycle. |
| TopologicalSort.CountInDegrees | tasks/critical_path.py:125-127 | The counting loop leaves each task's count equal to its number of dependencies among the tasks counted so far. |
| TopologicalSort.InitialInDegrees | tasks/critical_path.py:122-127 | Each task's in-degree is its number of in-project dependencies. |
| TopologicalSort.ReleaseCounts | tasks/critical_path.py:138-141 | Processing one task lowers each successor's count by exactly one and leaves all other counts alone. |
| TopologicalSort.ReleaseQueue | tasks/critical_path.py:138-141 | The tasks added to the queue are exactly the successors whose count falls to zero, in successor order, after the existing queue. |
| TopologicalSort.KahnStep | tasks/critical_path.py:133-141 | One iteration of the `while queue` loop keeps the algorithm's invariant. The listed tasks are distinct and each comes after its dependencies. The counts are the unlisted dependencies. The zero-count tasks are exactly those listed or queued. |
| TopologicalSort.TopologicalSort | tasks/critical_path.py:115-143 | The order holds distinct tasks and every edge points forward. It holds every task exactly when the graph has no cycle, equivalently when its length is the number of tasks. |
| Schedule.DurationOf | tasks/critical_path.py:163 | Each task's duration is its `duration`, or 0 when unset. |
| Schedule.MaxFinish | tasks/critical_path.py:160-165 | `max(predecessor_finish_times)` is at least every predecessor's early finish and equals one of them. |
| Schedule.MinStart | tasks/critical_path.py:199-204 | `min(successor_start_times)` is at most every successor's late start and equals one of them. |
| Schedule.ForwardPass | tasks/critical_path.py:145-171 | Each task's early start is 0 without dependencies, otherwise the latest early finish among its dependencies, for every task. |
| Schedule.ProjectDuration | tasks/critical_path.py:173-180 | The project duration is at least every task's early finish and equals one of them. |
| Schedule.BackwardPass | tasks/critical_path.py:182-210 | Each task's late finish is the project duration without dependents, otherwise the earliest late start among its dependents, for every task. |
| Schedule.EarlyStartsUnique | tasks/critical_path.py:145-171 | The forward-pass equations have only one solution on an acyclic graph, so the early starts do not depend on which topological order was used. |
| Schedule.FloatNonNegative | tasks/critical_path.py:212-219 | After both passes every task finishes early no later than it must finish late, so no total float is negative. |
| Schedule.LateWithinProject | tasks/critical_path.py:182-210 | With non-negative durations no late finish exceeds the project duration. |
| Schedule.SomeTaskCritical | tasks/critical_path.py:212-228 | With non-negative durations, a task whose early finish is the project duration has zero float, so at least one task is critical. |
| Schedule.CriticalHasCriticalPred | tasks/critical_path.py:240-248 | A critical task with dependencies has a critical dependency that finishes exactly when it starts, so critical chains can be followed backwards. |
| Schedule.CriticalHasCriticalSucc | tasks/critical_path.py:254-265 | A critical task with dependents has a critical dependent, so critical chains can be followed forwards. |
| CriticalPaths.PathsFromSound | tasks/critical_path.py:251-267 | Every path `find_paths_dfs` records from a critical task is a chain of critical tasks along edges. It starts at that task and ends at a task without critical dependents. |
| CriticalPaths.PathsFromComplete | tasks/critical_path.py:251-267 | Every such maximal critical chain from the task is among the recorded paths. |
| CriticalPaths.StartTasks | tasks/critical_path.py:240-248 | The start tasks are exactly the critical tasks with no critical dependency. |
| CriticalPaths.FindCriticalPathsExact | tasks/critical_path.py:230-270 | A sequence is reported if and only if it is a chain of critical tasks along edges that starts without a critical dependency and ends without a critical dependent. |
| CriticalPaths.EveryCriticalTaskOnAPath | tasks/critical_path.py:230-270 | On a graph with mirrored lists, every critical task lies on some reported path. |
| Calculator.ScheduleOf | tasks/critical_path.py:212-219 | Both finishes are one duration after their starts. The float is late minus early at either end. A task is critical exactly when its late start equals its early start. |
| Calculator.EntriesOf | tasks/critical_path.py:272-285 | `path_details` has one element per key of the path, carrying that task's key, title, duration and early times, so the keys can be read back unchanged. |
| Calculator.MinStartDate | tasks/critical_path.py:294-298 | The minimum is absent exactly when no task has a start date. Otherwise it is one task's start date and no later than any other. |
| Calculator.EarliestCompletion | tasks/critical_path.py:289-306 | The completion date is absent exactly when there are no tasks or the first task has no start date. Otherwise it is the earliest start date among all tasks plus the project duration. The latest completion date is the same value. |
| Calculator.RiskOf | tasks/critical_path.py:308-330 | The level is the highest whose threshold (20/40/60 %) the critical share reaches, and the next level's threshold is not reached. It is low with no tasks. |
| Calculator.RiskMonotone | tasks/critical_path.py:318-330 | More critical tasks out of the same total never lower the risk level. |
| Calculator.SortTasks | tasks/critical_path.py:40-41 | On an acyclic graph the sort returns a topological order of all tasks. |
| Calculator.Passes | tasks/critical_path.py:40-50 | The sort, forward pass, duration and backward pass yield times that solve both pass equations, with a project duration some task finishes at. |
| Calculator.Analyse | tasks/critical_path.py:40-70 | On a non-empty acyclic task list the result has schedules aligned with the tasks that solve both passes, exactly the critical tasks in task order, exactly the critical paths, and the matching counts, risk level and completion dates. It also keeps the CPM guarantees: no negative float, some critical task when durations are non-negative, paths timed from day 0 to the project duration, and every critical task on a path. |
| Calculator.DescribesAssembled | tasks/critical_path.py:53-70 | The assembled dictionary lists the schedules, critical tasks and paths computed from the passes as the result requires. |
| Calculator.Calculate | tasks/critical_path.py:26-70 | On a dependency cycle the result is the circular-dependency error. On an empty list it is the empty-list error (`max()` of nothing). Otherwise it is a result that describes the tasks and keeps the guarantees. |
| Calculator.PathsTimedAssembled | tasks/critical_path.py:230-287 | Every reported path starts on day 0 and ends on the project duration, and each task on it finishes no later than the next one starts. |
| FloatBands.BandOf | tasks/management/commands/create_near_critical.py:103-112 | A float of zero is critical, a non-zero float up to 2 is near-critical, and a float above 2 is normal, each if and only if. |
| FloatBands.CountBandsPartition | tasks/management/commands/create_near_critical.py:96-112 | The three label counts add up to the number of tasks. |
| FloatBands.CountBands | tasks/management/commands/create_near_critical.py:96-112 | The loop's three counters end equal to the number of floats carrying each label, and their sum is the number of tasks. |
| FloatBands.CriticalBandIsCriticalCount | tasks/management/commands/create_near_critical.py:103-106 | On a result of `calculate` the critical label count equals `critical_tasks_count`. |
| FloatBands.NearCriticalSlack | tasks/management/commands/create_near_critical.py:107-109 | On a result of `calculate` a task is near-critical exactly when its float is 1 or 2 days. |
| TaskSave.FillDates | tasks/models.py:35-42 | Afterwards both dates are set. Given dates are kept. A filled-in date is `duration - 1` days from the other. A task with neither date starts today. Nothing else changes. |
| TaskSave.FillProgress | tasks/models.py:44-52 | A "Done" task below 100 is set to exactly 100, and one at 100 or more keeps its progress. An "In Progress" task at 0 is set to exactly 50, and any other keeps its progress. A new "To Do" task is set to 0. A stored "To Do" task and other statuses keep their progress, and nothing else changes. |
| TaskSave.Save | tasks/models.py:31-54 | The saved task is stored with status and duration unchanged and both dates set. Given dates are kept, a filled-in date lies `duration - 1` days from the other, and a task with neither date starts today. When skipping is asked for, progress is untouched. Otherwise "Done" below 100 becomes 100, "In Progress" at 0 becomes 50, a new "To Do" becomes 0, and every other progress is kept. |
| TaskSave.SaveIdempotent | tasks/models.py:31-54 | Saving a saved task again, on any later day and with the same setting, changes nothing. |
| TaskSave.SavedSpan | tasks/models.py:35-42 | After saving, given dates are unmoved, and a missing date was filled in to span the duration. |
| Text.Trim | frontend/src/components/UserForm.js:128 | `trim()` keeps a slice of the text whose ends are not white space, and what it cuts from both sides is white space. |
| Text.BlankIffAllSpace | frontend/src/components/UserForm.js:128-133 | `!s.trim()` holds exactly when the text is nothing but white space. |
| Text.EmailShapeMatchesPattern | frontend/src/components/UserForm.js:134 | The computed email check accepts exactly what `/^[^\s@]+@[^\s@]+\.[^\s@]+$/` matches. |
| Text.NatToStringRoundTrip | frontend/src/utils/tokenUtils.js:46-48 | Reading back the decimal rendering of a count gives the count. |
| TokenUtils.ExpirationTime | frontend/src/utils/tokenUtils.js:2-11 | There is an expiry exactly when the token is present and readable, and it is `exp` seconds in milliseconds. |
| TokenUtils.RemainingTime | frontend/src/utils/tokenUtils.js:13-26 | Nothing is returned exactly when there is no expiry or it is not in the future. Otherwise the whole hours and the minutes below 60 bracket the time left. |
| TokenUtils.RemainingSplitUnique | frontend/src/utils/tokenUtils.js:22-23 | The hours and minutes bracketing the time left are the floor divisions `getTokenRemainingTime` computes, and no other pair does. |
| TokenUtils.IsTokenExpired | frontend/src/utils/tokenUtils.js:28-38 | A missing or unreadable token is expired. Otherwise the token is expired exactly when its expiry instant lies strictly before now. |
| TokenUtils.ExpiryBoundary | frontend/src/utils/tokenUtils.js:13-38 | "No time left" and "expired" agree everywhere except at the instant the expiry equals now. |
| TokenUtils.FormatTimeRemaining | frontend/src/utils/tokenUtils.js:40-50 | The text is "Expired" exactly when there is no time left, and otherwise ends in `m`. |
| TokenUtils.ShownWithHours | frontend/src/utils/tokenUtils.js:45-46 | With at least one hour and non-negative minutes left, the text is the hours in decimal, `h`, a space, the minutes in decimal, and `m`. |
| TokenUtils.ShownMinutes | frontend/src/utils/tokenUtils.js:47-48 | With no whole hour and non-negative minutes left, the text is the minutes in decimal followed by `m`. |
| TokenUtils.FormatTellsApart | frontend/src/utils/tokenUtils.js:40-50 | Two remaining times shown alike have the same hours and minutes, so the text determines them. |
| UserForm.UsernameError | frontend/src/components/UserForm.js:128-130 | There is an error, "Username is required", exactly when the user name is all white space. |
| UserForm.EmailError | frontend/src/components/UserForm.js:132-136 | There is an error exactly when the pattern does not match. It is "Email is required" for blank input and "Invalid email format" otherwise. |
| UserForm.PasswordError | frontend/src/components/UserForm.js:138-144 | There is an error exactly when the password is empty for a new user, or is 1 to 7 characters. |
| UserForm.Validate | frontend/src/components/UserForm.js:125-148 | Each field has an entry exactly when its rule fails, carrying that rule's message. |
| UserForm.ValidateAccepts | frontend/src/components/UserForm.js:146-147 | The form passes exactly when the user name is not blank, the email matches the pattern, and the password has 8 or more characters or is empty while editing. |
| UserForm.Drop | frontend/src/components/UserForm.js:101 | Filtering removes every occurrence of the given ids and keeps every other id with its multiplicity. On a list without repeats the kept ids stay in their original order. |
| UserForm.FilterOutside | frontend/src/components/UserForm.js:101 | The order-keeping filter keeps exactly the ids outside the removed ones, each as often as before, and keeps a list without repeats free of repeats and in order. |
| UserForm.Toggle | frontend/src/components/UserForm.js:97-104 | A selected permission is removed, every copy of it, and the other ids keep their counts. An unselected one is appended at the end. The set of selected ids changes by exactly that id, and a list without repeats keeps none. |
| UserForm.ToggleTwice | frontend/src/components/UserForm.js:97-104 | Toggling twice restores the selected ids. The list is restored exactly when the permission was off, and up to order when it was on and listed once. |
| UserForm.Dedup | frontend/src/components/UserForm.js:120 | `[...new Set(xs)]` keeps the first occurrence of each id, in order, with the same ids and no repeats. |
| UserForm.SelectAll | frontend/src/components/UserForm.js:106-123 | When every offered permission is selected they are all removed. Otherwise all are added, and the selection becomes the duplicate-free union. |
| UserForm.SelectAllKeepsSelection | frontend/src/components/UserForm.js:116-121 | Selecting all keeps the previous selection as a prefix, in order. |
| UserForm.SelectAllTwice | frontend/src/components/UserForm.js:106-123 | Pressing "select all" twice restores a full selection's ids after clearing them. A partial selection that was completed ends cleared of every offered permission. |
| SignUp.ValidateForm | frontend/src/components/SignUp.js:50-78 | The form passes exactly when all fields are filled, the user name has 3 or more characters, the email matches the pattern, the password has 6 or more characters, and the confirmation matches. |
| SignUp.ValidateFormFirstBroken | frontend/src/components/SignUp.js:50-78 | The message shown is that of the first rule broken, in the page's order. |
| SignUp.Submit | frontend/src/components/SignUp.js:80-90 | A failing form is not sent and shows its message. A passing form is sent without `confirmPassword`, and what is sent satisfies every rule. |
| ProjectForm.CleanedIsFilter | frontend/src/components/ProjectForm.js:83-84 | Cleaning a name is upper-casing every character and then keeping, in order, exactly the capitals, digits and white space. |
| ProjectForm.CleanedOne | frontend/src/components/ProjectForm.js:83-84 | A single character becomes its upper case if that is a capital, digit or white space, and disappears otherwise. |
| ProjectForm.CleanedAppend | frontend/src/components/ProjectForm.js:83-84 | Cleaning works character by character: the cleaned join of two texts is the join of their cleaned texts. |
| ProjectForm.CleanedIdempotent | frontend/src/components/ProjectForm.js:82-84 | Upper-casing and removing the characters outside `[A-Z0-9\s]` is idempotent. |
| ProjectForm.SplitSpaces | frontend/src/components/ProjectForm.js:85 | `split(' ')` yields at least one word, no word holds a space, and joining the words with single spaces gives back the text. |
| ProjectForm.SplitJoin | frontend/src/components/ProjectForm.js:85 | Splitting words joined with single spaces recovers the words. |
| ProjectForm.EmptyWordSkipped | frontend/src/components/ProjectForm.js:85-87 | An empty word, as two spaces in a row leave, contributes no initial to the key. |
| ProjectForm.DeriveKey | frontend/src/components/ProjectForm.js:82-88 | The derived key has at most 10 characters, each a capital, a digit or white space other than a plain space. |
| ProjectForm.DeriveKeyOfWords | frontend/src/components/ProjectForm.js:82-88 | For a name of non-empty words joined by single spaces, where no character is removed by cleaning, the key is the upper case of each word's first character, for the first 10 words. |
| ProjectForm.DeriveKeyIgnoresRemoved | frontend/src/components/ProjectForm.js:82-88 | A character that cleaning removes, typed anywhere in the name, leaves the key unchanged. |
| ProjectForm.MyProjectKey | frontend/src/components/ProjectForm.js:82-88 | The name "my project" gives the key "MP". |
| ProjectForm.HandleChange | frontend/src/components/ProjectForm.js:76-91 | The field takes the typed value. Typing a new project's name replaces the key with the derived one, and editing keeps it. |
| ProjectForm.Submit | frontend/src/components/ProjectForm.js:101-109 | The form is sent exactly when neither the name nor the key is blank. The name is checked first, and a form that is sent goes unchanged. |
| ProjectForm.NamedProjectSubmits | frontend/src/components/ProjectForm.js:76-109 | A new project named with such words, the first starting with a character other than white space, can be submitted right after typing the name, because the derived key is not blank. |
| ProjectForm.KeyOfTypedNameNotBlank | frontend/src/components/ProjectForm.js:82-88 | The key of such a name is not blank, because it starts with the upper case of the name's first character. |

## Left out

- **Persistence and display.** The ORM is left out. So are writing the computed attributes back to the task rows, the report printing of `create_near_critical`, and the sample data that command creates. The model returns values instead.
- **React.** The components' state hooks, rendering, navigation, timers and network requests are left out. Server error messages shown after a failed request are also not modelled.
- **Task identity.** Task keys are assumed distinct (they are primary keys). `Calculator.Calculate` requires it.
- **Adjacency-list order.**
  - The successor lists follow task order, as `_build_dependency_graph` builds them.
  - The reverse lists are also in task order. The Python code fills them in the ORM's order, but they are only used for `max`, `min` and emptiness, so the order does not change any result.
- **Path order.**
  - `Calculator.Calculate` returns the critical paths as a set.
  - `calculate` lists them in the iteration order of a Python set of keys, which is not modelled.
  - `CriticalPaths.FindCriticalPaths` uses the start tasks in task order for the same reason.
- **Path length.** A critical path is often described as a chain whose durations add up to the project duration. The code does not guarantee that, and the model follows the code.
  - Example: tasks A (2), C (1), B (2, depends on A and C) and D (3, depends on C).
  - Project duration: 4.
  - Critical tasks: A, B, C and D.
  - Reported path [C, B]: its durations add up to 3.
  - `Calculator.PathsTimedAssembled` states what does hold: a path starts on day 0, ends on the project duration, and its times never overlap backwards.
- **Dates.** Dates are day numbers. Month and year arithmetic, date overflow and time zones are left out.
- `Calculator.RiskOf` compares `100 * critical` against `threshold * total` exactly. The Python code compares a floating-point percentage. The two can differ only when rounding moves a share across a threshold.
- `TokenUtils.IsTokenExpired` compares `exp` against the exact quotient `now / 1000`, not IEEE doubles.
- **Tokens.**
  - `TokenUtils.ExpirationTime` abstracts base64 and JSON decoding into the outcome `Token`. Exceptions become `Unreadable`.
  - Unusual `exp` values (non-integral, non-numeric, missing) are left out.
- **String length.** Strings are sequences of code points. JavaScript's `length` counts UTF-16 units, so a character outside the Basic Multilingual Plane counts twice there. This affects `SignUp.ValidateForm` and `UserForm.PasswordError`.
- `ProjectForm.Upper` models `toUpperCase` on ASCII letters only. Non-ASCII letters whose upper case is an ASCII letter (`ı`, `ſ`, the ligature `ﬀ`) or that expand (`ß` to `SS`) are dropped by the model instead. Consequently `ProjectForm.DeriveKey` is only exact on such text up to those letters.
- **Other forms.** The user form's other fields (first and last name, role, active flag) and the membership picker of the project form pass through unchanged and are not modelled.
- CycleDetection.HasCircularDependencies, CriticalPaths.FindCriticalPaths, Calculator.Calculate: no recursion limit. `dfs` and `find_paths_dfs` recurse once per task along a dependency chain, and Python stops them with `RecursionError` at about 1000 nested calls, which `calculate` does not catch. The model returns a result for every task list, however long its chains.
- Schedule.SomeTaskCritical, Schedule.LateWithinProject: hold only when no duration is negative. The duration column is a plain integer, so negative durations are modelled. With A (5) followed by B (-3), the project lasts 5 days and neither task has zero float, so no task is critical.
