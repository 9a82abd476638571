# Sprint lifecycle and consistency rules of the `odoo_flow` add-on, in Dafny

The add-on attaches tasks of a project to *sprints*: time boxes of at most 28
days that belong to one project. A sprint's state (planned, active or done) is
either derived from its dates and the current day (auto mode) or set by hand
(manual mode). A set of constraints checks every write of a sprint or a task,
and a guard on `write` stops a sprint from changing project once it is in use.

This project models that core over an in-memory pair of tables
(`map<SprintId, Sprint>` and `map<TaskId, Task>`). Dates are integer day
numbers, and the current day `today` is a parameter. Modules:

- `Records` (records.dfy): the records, the error kinds with their messages,
  and `First`, the "raise on the first violation" order of every check loop.
- `TaskRules` (task_rules.dfy): the task constraint and the deadline suggestion
  of `project_task.py`.
- `SprintRules` (sprint_rules.dfy): the state derivation, the four sprint
  constraints, which of them a write triggers, the project guard of `write`,
  the four state actions, the task-selection read/write pair, the default end
  date and creation, all as functions over the tables;
- `Invariants` (invariants.dfy): the table-wide rules, and lemmas saying which
  accepted mutations keep them. The rules are: one active sprint per project;
  every sprint within the date rules; no task whose project differs from its
  sprint's; every sprint's tasks within its project; every task passing the
  task constraint.
- `Store` (store.dfy): class `Store` holding the two tables, with one method per
  operation that changes them in place. Each method states its new tables in
  terms of the functions above. Each keeps `Valid()`: tasks point at existing
  sprints, and the first three rules above hold. A rejected operation leaves
  both tables as they were (the transaction is rolled back).

How a write is modelled: the values are a `SprintPatch` whose fields are `Keep`
or `Put(v)`. The guard runs first, and only when the project is written. Then
the values are assigned. When `write` or `create` stores a start date, end
date, mode or manual state, the stored state is recomputed. Then every constraint watching a written
field runs over the written records, in the order the constraints are declared;
the state counts as written when it was recomputed. The stored state is not
re-derived as days pass; it changes only when one of its inputs is written.

Where the code and the consistency rules the add-on is meant to keep differ,
the model follows the code:

- Writing a sprint's end date does not re-run the task constraint. A sprint
  can therefore be shortened to end before the deadline of one of its tasks.
  `Invariants.EndWriteCanBreakTaskDeadline` gives such a write, and
  `Invariants.WriteKeepingEndPreservesTasks` shows every other accepted write
  keeps the tasks consistent.
- The task constraint accepts a task that has no project. The sprint's
  constraint, however, counts such a task as belonging to another project
  (`Invariants.ProjectlessTaskPassesTaskCheckOnly`).
- The past-date rule looks only at the end date. It is skipped while either
  date is missing.
- A task's project and its sprint's project never differ where both are set.
  Every accepted mutation keeps this, so it is part of `Store.Valid()`
  (`Invariants.WritePreservesTaskProjects` and the lemmas after it).
- Every sprint's tasks belong to its project. Every accepted sprint write,
  sprint creation and selection write keeps this, and so do both onchanges.
  A task write or creation keeps it when the task has a project or no sprint.
  It breaks in one way only: a task without a project passes the task
  constraint (`Invariants.ProjectlessTaskPassesTaskCheckOnly`).
- No manual sprint whose end date is past is planned or active. This holds on
  the day of each accepted write of a state input, for the records written
  (`Invariants.WriteLeavesNoPastPlanned`). It is not re-checked as days pass,
  so a sprint that passed yesterday may break it today.

## Model

| member | source | states |
|---|---|---|
| `Records.First` | addons/odoo_flow/models/sprint.py:196-202 | a check loop raises exactly when some record fails, and the error raised is that of the first failing record |
| `Records.TasksOf` | addons/odoo_flow/models/sprint.py:50-54 | a sprint's tasks are exactly the tasks whose sprint is it; this is also the value the selection field reads (sprint.py:68-70) |
| `Records.MessagesDistinct` | addons/odoo_flow/models/sprint.py:77-202 | `Message` gives each rejection its literal text (those of sprint.py and of project_task.py:21-29), and no two rejections share a text |
| `SprintRules.AutoState` | addons/odoo_flow/models/sprint.py:133-142 | with both dates set and in order: planned iff today < start, active iff start ≤ today ≤ end, done iff today > end; planned when the end date is missing; never active without a start date |
| `SprintRules.DerivedState` | addons/odoo_flow/models/sprint.py:129-142 | in manual mode the computed state is the manual state; in auto mode it is the state the dates give |
| `SprintRules.ManualStateIgnoresDates` | addons/odoo_flow/models/sprint.py:129-131 | in manual mode the state is the manual state, whatever the dates and the day |
| `SprintRules.AutoStateDependsOnDatesOnly` | addons/odoo_flow/models/sprint.py:133-142 | in auto mode two sprints with the same dates get the same state on the same day |
| `SprintRules.RecomputeIdempotent` | addons/odoo_flow/models/sprint.py:125-142 | recomputing changes only the state field, and recomputing again with unchanged inputs changes nothing |
| `SprintRules.CheckDurationAndOrder` | addons/odoo_flow/models/sprint.py:112-122 | accepted iff, when both dates are set, start ≤ end and end − start + 1 ≤ 28; an end before the start gives the end-before-start error, which takes precedence over the duration error |
| `SprintRules.CheckPastDate` | addons/odoo_flow/models/sprint.py:146-154 | rejected iff manual mode, both dates set, end < today and manual state planned or active |
| `SprintRules.PastDateRuleExemptions` | addons/odoo_flow/models/sprint.py:153 | auto mode, an end date equal to today, and a manual state of done are never rejected by the past-date rule |
| `SprintRules.OtherActive` | addons/odoo_flow/models/sprint.py:161-165 | the records the count query matches: the other sprints of the same project whose state is active |
| `SprintRules.CheckSingleActive` | addons/odoo_flow/models/sprint.py:157-167 | an active sprint is rejected iff another sprint of its project is active |
| `SprintRules.CheckTasksMatchProject` | addons/odoo_flow/models/sprint.py:90-96 | a sprint with a project is rejected iff one of its tasks has a different (or no) project |
| `SprintRules.RunOver` | addons/odoo_flow/models/sprint.py:159-167 | a constraint over a recordset passes iff every record passes it, otherwise it raises a failing record's error |
| `SprintRules.Validate` | addons/odoo_flow/models/sprint.py:90-167 | several constraints over a recordset pass iff every record passes every one of them |
| `SprintRules.Patch` | addons/odoo_flow/models/sprint.py:125-126 | a written record takes the written values and keeps the rest; its state is re-derived iff a state input was written |
| `SprintRules.PatchAllSplits` | addons/odoo_flow/models/sprint.py:203 | a write is the assignment of the values on the written records followed, iff a state input was written, by the recomputation of their state |
| `SprintRules.Triggered` | addons/odoo_flow/models/sprint.py:90-158 | for the fields a sprint write names here, each constraint runs iff the write names a field it watches: tasks-match and single-active on project or state, duration on the dates, past-date on the state inputs (a write of `task_ids` is not modelled) |
| `SprintRules.GuardProjectChange` | addons/odoo_flow/models/sprint.py:196-202 | changing a sprint's project is rejected with the has-tasks error iff a task points at it, else with the started error iff its state is active or done |
| `SprintRules.GuardWrite` | addons/odoo_flow/models/sprint.py:193-202 | a write without the project is never stopped by the guard; one with it passes iff no record has tasks and every record is planned |
| `SprintRules.WriteError` | addons/odoo_flow/models/sprint.py:193-203 | a write is accepted iff the guard passes and every triggered constraint passes on every written record of the table as written; a guard error is the error reported |
| `SprintRules.WriteGuard` | addons/odoo_flow/models/sprint.py:193-203 | a write without the project is decided by the constraints alone; with the project, a record with tasks gives the has-tasks error even when it is also started, and any record with tasks or started rejects the write |
| `SprintRules.ManualPatch` | addons/odoo_flow/models/sprint.py:175-185 | the manual actions write mode and manual state only, never the project or the dates, and so trigger tasks-match, past-date and single-active but not the date rule or the guard |
| `SprintRules.AutoPatch` | addons/odoo_flow/models/sprint.py:170-171 | the auto action writes the mode only, and triggers the same three constraints |
| `SprintRules.ManualActionReachesTarget` | addons/odoo_flow/models/sprint.py:175-185 | after a manual action each written sprint is in manual mode with the target as manual state and as state, its project and dates unchanged; other sprints are unchanged |
| `SprintRules.AutoActionFollowsDates` | addons/odoo_flow/models/sprint.py:170-173 | after the auto action each written sprint is in auto mode with the state its dates give, all else unchanged, and the explicit recomputation that follows changes nothing |
| `SprintRules.SecondActivationRejected` | addons/odoo_flow/models/sprint.py:158-167 | activating a sprint while another sprint of its project is active is rejected |
| `SprintRules.ToAdd` | addons/odoo_flow/models/sprint.py:79 | the selected tasks that do not point at the sprint yet |
| `SprintRules.ToRemove` | addons/odoo_flow/models/sprint.py:80 | the tasks pointing at the sprint that are no longer selected |
| `SprintRules.PointAt` | addons/odoo_flow/models/sprint.py:86-87 | a task write of the sprint field on a set of tasks: those tasks get the new sprint, and nothing else changes |
| `SprintRules.Reassigned` | addons/odoo_flow/models/sprint.py:79-87 | after both writes a selected task points at the sprint, a deselected one that pointed at it points at nothing, and every other sprint field, project and deadline is unchanged |
| `SprintRules.InverseError` | addons/odoo_flow/models/sprint.py:73-87 | writing a selection fails with the no-project error iff the sprint has no project; with the other-project error iff an added task has another project; and it succeeds iff every added task matches the project and passes the task constraint once pointed at the sprint |
| `SprintRules.SelectionApplied` | addons/odoo_flow/models/sprint.py:79-87 | after the selection is applied the sprint's tasks are exactly the selection; added tasks point at the sprint, removed ones at nothing, all others are untouched |
| `SprintRules.SelectionRoundTrip` | addons/odoo_flow/models/sprint.py:68-87 | writing back the selection as it reads is accepted and changes no task |
| `SprintRules.DefaultEnd` | addons/odoo_flow/models/sprint.py:99-104 | the end date becomes start + 14 only when the start is set and the end is not; no other field, and no existing end date, changes |
| `SprintRules.DefaultEndWithinLimit` | addons/odoo_flow/models/sprint.py:102-104 | the default end date always passes the date-order and 28-day rule |
| `SprintRules.NewSprint` | addons/odoo_flow/models/sprint.py:125-142 | a created sprint stores the given fields and the state derived from them |
| `SprintRules.CreateError` | addons/odoo_flow/models/sprint.py:90-167 | a creation is accepted iff the new record passes all four sprint constraints; otherwise one of their errors is reported |
| `TaskRules.CheckTask` | addons/odoo_flow/models/project_task.py:12-30 | a task without sprint is never rejected; otherwise the mismatch error iff both projects are set and differ, else the deadline error iff the deadline is set and after the sprint's set end date |
| `TaskRules.DeadlineOnSprintEndAccepted` | addons/odoo_flow/models/project_task.py:26 | a deadline equal to the sprint's end date is accepted |
| `TaskRules.MismatchReportedBeforeDeadline` | addons/odoo_flow/models/project_task.py:19-30 | when the project and the deadline rule both fail, the project-mismatch error is raised |
| `TaskRules.SuggestDeadline` | addons/odoo_flow/models/project_task.py:33-37 | the deadline becomes the sprint's end date iff the task has a sprint, has no deadline, and the sprint's end date is set; an existing deadline is never overwritten |
| `TaskRules.SuggestedDeadlinePasses` | addons/odoo_flow/models/project_task.py:36-37 | the suggestion never changes the task constraint's verdict, and a suggested deadline passes the deadline rule |
| `TaskRules.TaskWriteError` | addons/odoo_flow/models/project_task.py:12-13 | a task write is rejected iff it names a watched field and the written task fails the task constraint |
| `Invariants.WritePreservesOneActive` | addons/odoo_flow/models/sprint.py:157-167 | after any accepted write each project still has at most one active sprint |
| `Invariants.WriteLeavesNoPastPlanned` | addons/odoo_flow/models/sprint.py:146-154 | after an accepted write of a state input, every written sprint passes the past-date rule on the day of the write |
| `Invariants.WritePreservesTasksMatch` | addons/odoo_flow/models/sprint.py:90-96 | after any accepted write every sprint's tasks still belong to its project, if they did before |
| `Invariants.WritePreservesDates` | addons/odoo_flow/models/sprint.py:112-122 | after any accepted write every sprint still passes the date rules |
| `Invariants.WriteKeepingEndPreservesTasks` | addons/odoo_flow/models/sprint.py:193-203 | an accepted write that leaves end dates alone keeps every task consistent with its sprint, because a project change is only let through for sprints without tasks |
| `Invariants.EndWriteCanBreakTaskDeadline` | addons/odoo_flow/models/sprint.py:112-113 | an accepted end-date write can leave a task whose deadline is after its sprint's new end |
| `Invariants.ProjectlessTaskPassesTaskCheckOnly` | addons/odoo_flow/models/project_task.py:19 | a task with no project passes the task constraint but fails its sprint's tasks-match constraint |
| `Invariants.CreatePreservesInvariants` | addons/odoo_flow/models/sprint.py:112-167 | an accepted creation keeps one active sprint per project and every sprint within the date rules |
| `Invariants.TaskWritePreservesTasks` | addons/odoo_flow/models/project_task.py:12-30 | an accepted task write keeps every task consistent with its sprint |
| `Invariants.SelectionPreservesTasks` | addons/odoo_flow/models/sprint.py:82-87 | an accepted selection keeps every task consistent with its sprint, and keeps the sprint's tasks matching its project if they did before |
| `Invariants.SuggestionPreservesTasks` | addons/odoo_flow/models/project_task.py:33-37 | the deadline suggestion keeps every task consistent with its sprint |
| `Invariants.DefaultEndPreservesInvariants` | addons/odoo_flow/models/sprint.py:99-104 | the default end date keeps one active sprint per project and every sprint within the date rules |
| `Invariants.WritePreservesTaskProjects` | addons/odoo_flow/models/sprint.py:193-203 | after any accepted sprint write no task's project differs from its sprint's: a project change passes the guard only for sprints without tasks |
| `Invariants.SelectionPreservesProjects` | addons/odoo_flow/models/sprint.py:79-87 | an accepted selection keeps task and sprint projects in agreement, and keeps every sprint's tasks within its project, including the sprint a task left |
| `Invariants.PutTaskPreservesProjects` | addons/odoo_flow/models/project_task.py:12-23 | a task stored after passing the task constraint keeps task and sprint projects in agreement, and keeps every sprint's tasks within its project when the task has a project or no sprint |
| `Invariants.CreatePreservesProjects` | addons/odoo_flow/models/sprint.py:50-54 | a new sprint under a fresh id has no tasks, so both project rules are kept |
| `Invariants.DefaultEndPreservesProjects` | addons/odoo_flow/models/sprint.py:99-104 | the default end date changes no project, so both project rules are kept |
| `Invariants.SuggestionPreservesProjects` | addons/odoo_flow/models/project_task.py:33-37 | the deadline suggestion changes no project or sprint, so both project rules are kept |
| `Store.Store.RecomputeState` | addons/odoo_flow/models/sprint.py:126-142 | each written record's stored state becomes the derived one, every other record and the tasks unchanged |
| `Store.Store.GuardWriteLoop` | addons/odoo_flow/models/sprint.py:194-202 | the loop over the records raises exactly the error of the guard function |
| `Store.Store.AssignValues` | addons/odoo_flow/models/sprint.py:125-126 | the assignment step of a write leaves the sprint table equal to the written one, with the state recomputed iff a state input was written; tasks unchanged |
| `Store.Store.Write` | addons/odoo_flow/models/sprint.py:193-203 | the sprint table becomes the written one iff the guard and the triggered constraints accept, else it is unchanged; tasks unchanged; the class invariant is kept, and so is the rule that a sprint's tasks belong to its project; after a write of a state input every written sprint passes the past-date rule |
| `Store.Store.ActionSetManual` | addons/odoo_flow/models/sprint.py:175-185 | on success each written sprint is in manual mode with the target as manual state and state; on rejection nothing changes |
| `Store.Store.ActionSetAuto` | addons/odoo_flow/models/sprint.py:170-173 | on success each written sprint is in auto mode with the state its dates give; on rejection nothing changes |
| `Store.Store.InverseTaskSelect` | addons/odoo_flow/models/sprint.py:68-87 | on success the task table is the reassigned one and the selection reads back as written; on rejection no task changes; the class invariant is kept, and so is the rule that a sprint's tasks belong to its project |
| `Store.Store.OnchangeStartDate` | addons/odoo_flow/models/sprint.py:99-104 | the sprint gets the default end date; the class invariant and the tasks-in-project rule are kept |
| `Store.Store.OnchangeSprint` | addons/odoo_flow/models/project_task.py:33-37 | the task gets the suggested deadline; the class invariant, task consistency and the tasks-in-project rule are kept |
| `Store.Store.WriteTask` | addons/odoo_flow/models/project_task.py:12-30 | the task takes the written values iff the task constraint accepts them, else nothing changes; the class invariant is kept, and the tasks-in-project rule too when the written task has a project or no sprint |
| `Store.Store.CreateSprint` | addons/odoo_flow/models/sprint.py:112-167 | the new sprint is stored iff every sprint constraint accepts it, else nothing changes; the class invariant and the tasks-in-project rule are kept |
| `Store.Store.CreateTask` | addons/odoo_flow/models/project_task.py:12-30 | the new task is stored iff the task constraint accepts it; the class invariant is kept, and the tasks-in-project rule too when the task has a project or no sprint |

## Left out

- The ORM itself: field declarations, `compute`/`store`/`depends` wiring and
  recordset arithmetic. Records are map entries, and recordset differences are
  set differences.
- Required fields: the project and both dates are `Option` values, because the
  code tests them for emptiness. The datastore's NOT NULL checks are not modelled.
- The sprint's name, `_order`, and the cascade delete on project removal.
  These are persistence concerns.
- Deleting sprints or tasks. Task fields other than project, sprint and
  deadline.
- `search_count` runs against the datastore. Here it is a count over the
  in-memory table.
- Clock and timezone: `fields.Date.context_today` becomes the parameter
  `today`, without any calendar logic.
- `Store.Store.OnchangeStartDate` stores the default end date without
  recomputing the state and without running the date rule. In Odoo the value
  stays on the form until the form is saved, which runs both through `write`.
- `Store.Store.RecomputeState` and `Store.Store.AssignValues` are steps of
  `Write` and of the auto action. They neither need nor keep `Valid()`: called on its own, it could make a second
  sprint of a project active.
- Onchange form behaviour. `Store.OnchangeStartDate` and
  `Store.OnchangeSprint` apply only the resulting field update, directly to
  the stored record and without validation. The form's cascading onchanges are
  not modelled, including `_onchange_recompute_state`
  (addons/odoo_flow/models/sprint.py:107-110), which only refreshes the state
  shown on the form.
- Order among several failing constraints: the model checks them in the order
  they are declared and reports the first failure. Odoo checks them in another
  order. It runs the constraint methods in the order of their names, for the
  fields named in the values. It runs the ones that watch `state` again when
  the recomputed state is checked. The set of accepted writes is the same; only
  the error reported can differ. Example: an end-date write that fails both the
  tasks-match rule and the duration rule. The model reports
  `SprintTaskProjectMismatch`, while Odoo raises the duration error first.
- Writing a sprint's `task_ids` directly. `_check_tasks_match_project` watches
  this field (addons/odoo_flow/models/sprint.py:90). Such a write would reassign
  tasks, then run the task constraint on them and the tasks-match rule on the
  sprint. `SprintPatch` cannot name the field, so this way of reaching both
  constraints is not modelled. Tasks reach a sprint here through the selection
  field, task writes and task creation.
- Error texts: the deadline message leaves out its two dates, whose formatting
  is not modelled.
- Transactions and concurrent requests: one operation runs at a time, and a
  rejection restores the tables.
- Recordsets: `write` and the actions take a sequence of sprint ids. The
  selection write, the onchanges and task writes take one record each.
- `Store.Store.InverseTaskSelect`: after its own checks, only the task
  constraint runs on the written tasks, as Odoo does for a task write. The
  sprint's tasks-match constraint is not re-run by a task write.
