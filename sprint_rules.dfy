/** The sprint side of the add-on (sprint.py) as functions over the two tables:
    the state derivation, the four sprint constraints, the project-change guard
    of `write`, what a write does to the records it names, the four state
    actions, the task-selection pair and the default end date. */
module SprintRules {
  import opened Records
  import opened TaskRules

  /** The longest sprint, in days counted inclusively. */
  const MaxSprintDays: int := 28

  /** The length the form proposes for a new sprint, start to end. */
  const DefaultSprintDays: int := 14

  // ---------------------------------------------------------------- state

  /** The state the dates give a sprint in auto mode. */
  function AutoState(today: Day, start: Option<Day>, end: Option<Day>): (r: State)
    ensures start.Some? && end.Some? && start.value <= end.value ==>
      && (r == Planned <==> today < start.value)
      && (r == Active <==> start.value <= today <= end.value)
      && (r == Done <==> today > end.value)
    ensures end.None? ==> r == Planned
    ensures start.None? ==> r != Active && (r == Done <==> end.Some? && today > end.value)
  {
    if start.Some? && today < start.value then Planned
    else if start.Some? && end.Some? && start.value <= today <= end.value then Active
    else if end.Some? && today > end.value then Done
    else Planned
  }

  /** The computed state: the manual payload in manual mode, else the dates' state. */
  function DerivedState(s: Sprint, today: Day): (r: State)
    ensures s.mode == Manual ==> r == s.manual
    ensures s.mode == Auto ==> r == AutoState(today, s.start, s.end)
  {
    if s.mode == Manual then s.manual else AutoState(today, s.start, s.end)
  }

  /** In manual mode the state is the manual one, whatever the dates and the day. */
  lemma ManualStateIgnoresDates(s: Sprint, start: Option<Day>, end: Option<Day>, today: Day)
    requires s.mode == Manual
    ensures DerivedState(s.(start := start, end := end), today) == s.manual
  {
  }

  /** In auto mode the state depends on the day and the two dates only. */
  lemma AutoStateDependsOnDatesOnly(s: Sprint, s': Sprint, today: Day)
    requires s.mode == Auto && s'.mode == Auto
    requires s.start == s'.start && s.end == s'.end
    ensures DerivedState(s, today) == DerivedState(s', today)
  {
  }

  /** The record after the state is recomputed. */
  function Recomputed(s: Sprint, today: Day): Sprint
  {
    s.(state := DerivedState(s, today))
  }

  /** Recomputing changes the state field alone, and a second recomputation with
      the same inputs changes nothing. */
  lemma RecomputeIdempotent(s: Sprint, today: Day)
    ensures Recomputed(s, today).(state := s.state) == s
    ensures Recomputed(Recomputed(s, today), today) == Recomputed(s, today)
  {
  }

  // ---------------------------------------------------------------- constraints

  /** Date order first, then the 28-day cap; skipped while a date is missing. */
  function CheckDurationAndOrder(s: Sprint): (r: Option<Error>)
    ensures r.None? <==>
      (s.start.Some? && s.end.Some? ==>
         s.start.value <= s.end.value && s.end.value - s.start.value + 1 <= MaxSprintDays)
    ensures r == Some(EndBeforeStart) <==>
      s.start.Some? && s.end.Some? && s.end.value < s.start.value
    ensures r == Some(SprintTooLong) <==>
      s.start.Some? && s.end.Some? && s.start.value <= s.end.value
      && s.end.value - s.start.value + 1 > MaxSprintDays
  {
    if s.start.Some? && s.end.Some? then
      if s.end.value < s.start.value then Some(EndBeforeStart)
      else
        var durationDays := s.end.value - s.start.value + 1;
        if durationDays > MaxSprintDays then Some(SprintTooLong) else None
    else None
  }

  /** A manual sprint that ended before today may not be planned or active. */
  function CheckPastDate(s: Sprint, today: Day): (r: Option<Error>)
    ensures r.Some? ==> r == Some(PastSprintPlannedOrActive)
    ensures r.Some? <==>
      s.mode == Manual && s.start.Some? && s.end.Some? && s.end.value < today && s.manual != Done
  {
    if s.start.None? || s.end.None? then None
    else if s.mode == Manual && s.end.value < today && (s.manual == Planned || s.manual == Active) then
      Some(PastSprintPlannedOrActive)
    else
      assert s.manual.Planned? || s.manual.Active? || s.manual.Done?;
      None
  }

  /** The past-date rule never rejects auto mode, a sprint ending today, or a done one. */
  lemma PastDateRuleExemptions(s: Sprint, today: Day)
    ensures s.mode == Auto ==> CheckPastDate(s, today).None?
    ensures s.end == Some(today) ==> CheckPastDate(s, today).None?
    ensures s.manual == Done ==> CheckPastDate(s, today).None?
  {
  }

  /** The sprints the count query of the single-active rule matches: of the
      same project, stored state active, other than `id`. */
  function OtherActive(sprints: Sprints, id: SprintId, project: Option<ProjectId>): (r: set<SprintId>)
    ensures forall k :: k in r <==> k in sprints && k != id && sprints[k].project == project && sprints[k].state == Active
  {
    set k | k in sprints && k != id && sprints[k].project == project && sprints[k].state == Active
  }

  /** An active sprint is rejected when another sprint of its project is active. */
  function CheckSingleActive(sprints: Sprints, id: SprintId): (r: Option<Error>)
    requires id in sprints
    ensures r.Some? ==> r == Some(SecondActiveSprint)
    ensures r.Some? <==>
      sprints[id].state == Active &&
      exists k | k in sprints && k != id :: sprints[k].project == sprints[id].project && sprints[k].state == Active
  {
    var s := sprints[id];
    var otherActive := |OtherActive(sprints, id, s.project)|;
    if s.state == Active && otherActive > 0 then Some(SecondActiveSprint)
    else
      assert s.state == Active ==> OtherActive(sprints, id, s.project) == {};
      None
  }

  /** A sprint with a project rejects any of its tasks whose project differs
      (a task with no project differs too). */
  function CheckTasksMatchProject(sprints: Sprints, tasks: Tasks, id: SprintId): (r: Option<Error>)
    requires id in sprints
    ensures r.Some? ==> r == Some(SprintTaskProjectMismatch)
    ensures r.Some? <==>
      sprints[id].project.Some? &&
      exists k | k in tasks && tasks[k].sprint == Some(id) :: tasks[k].project != sprints[id].project
  {
    var s := sprints[id];
    var linked := TasksOf(tasks, id);
    if s.project.Some? && linked != {} && (exists k | k in linked :: tasks[k].project != s.project) then
      Some(SprintTaskProjectMismatch)
    else None
  }

  /** The sprint constraints, in the order the source declares them. */
  datatype Check = TasksMatchProject | DurationAndOrder | PastDate | SingleActive

  function RunCheck(c: Check, sprints: Sprints, tasks: Tasks, id: SprintId, today: Day): Option<Error>
    requires id in sprints
  {
    match c
    case TasksMatchProject => CheckTasksMatchProject(sprints, tasks, id)
    case DurationAndOrder => CheckDurationAndOrder(sprints[id])
    case PastDate => CheckPastDate(sprints[id], today)
    case SingleActive => CheckSingleActive(sprints, id)
  }

  /** One constraint over a recordset: the first record that fails it. */
  function RunOver(c: Check, sprints: Sprints, tasks: Tasks, ids: seq<SprintId>, today: Day): (r: Option<Error>)
    requires InTable(sprints, ids)
    ensures r.None? <==> forall i | 0 <= i < |ids| :: RunCheck(c, sprints, tasks, ids[i], today).None?
    ensures r.Some? ==> exists i | 0 <= i < |ids| :: RunCheck(c, sprints, tasks, ids[i], today) == r
  {
    var rs := seq(|ids|, i requires 0 <= i < |ids| => RunCheck(c, sprints, tasks, ids[i], today));
    assert forall i | 0 <= i < |ids| :: rs[i] == RunCheck(c, sprints, tasks, ids[i], today);
    First(rs)
  }

  /** Several constraints over a recordset: accepted exactly when every record
      passes every constraint; otherwise the first failing constraint's error. */
  function Validate(cs: seq<Check>, sprints: Sprints, tasks: Tasks, ids: seq<SprintId>, today: Day): (r: Option<Error>)
    requires InTable(sprints, ids)
    ensures r.None? <==>
      forall j, i | 0 <= j < |cs| && 0 <= i < |ids| :: RunCheck(cs[j], sprints, tasks, ids[i], today).None?
    ensures r.Some? ==> exists j, i | 0 <= j < |cs| && 0 <= i < |ids| :: RunCheck(cs[j], sprints, tasks, ids[i], today) == r
  {
    var rs := seq(|cs|, j requires 0 <= j < |cs| => RunOver(cs[j], sprints, tasks, ids, today));
    assert forall j | 0 <= j < |cs| :: rs[j] == RunOver(cs[j], sprints, tasks, ids, today);
    var r := First(rs);
    assert r.Some? ==> exists j, i | 0 <= j < |cs| && 0 <= i < |ids| :: RunCheck(cs[j], sprints, tasks, ids[i], today) == r by {
      if r.Some? {
        var j :| 0 <= j < |rs| && rs[j] == r;
        var i :| 0 <= i < |ids| && RunCheck(cs[j], sprints, tasks, ids[i], today) == r;
      }
    }
    r
  }

  /** The recordset is accepted by the constraint `c` at position j of `cs` when `cs` accepts it. */
  lemma ValidatedBy(cs: seq<Check>, c: Check, sprints: Sprints, tasks: Tasks, ids: seq<SprintId>, today: Day, i: nat)
    requires InTable(sprints, ids) && i < |ids| && c in cs
    requires Validate(cs, sprints, tasks, ids, today).None?
    ensures RunCheck(c, sprints, tasks, ids[i], today).None?
  {
    var j :| 0 <= j < |cs| && cs[j] == c;
    assert RunCheck(cs[j], sprints, tasks, ids[i], today).None?;
  }

  // ---------------------------------------------------------------- write

  /** The values of a sprint write. */
  datatype SprintPatch = SprintPatch(
    project: Update<Option<ProjectId>>,
    start: Update<Option<Day>>,
    end: Update<Option<Day>>,
    mode: Update<Mode>,
    manual: Update<State>)

  /** The write names one of the inputs of the computed state. */
  predicate TouchesState(p: SprintPatch)
  {
    p.start.Put? || p.end.Put? || p.mode.Put? || p.manual.Put?
  }

  /** The record with the written values assigned. */
  function WriteFields(s: Sprint, p: SprintPatch): Sprint
  {
    s.(project := Pick(p.project, s.project), start := Pick(p.start, s.start),
       end := Pick(p.end, s.end), mode := Pick(p.mode, s.mode), manual := Pick(p.manual, s.manual))
  }

  /** The record after a write: the values assigned, and the state recomputed
      when one of its inputs was written. */
  function Patch(s: Sprint, p: SprintPatch, today: Day): (r: Sprint)
    ensures r.project == Pick(p.project, s.project) && r.start == Pick(p.start, s.start)
    ensures r.end == Pick(p.end, s.end) && r.mode == Pick(p.mode, s.mode)
    ensures r.manual == Pick(p.manual, s.manual)
    ensures r.state == if TouchesState(p) then DerivedState(r, today) else s.state
  {
    var written := WriteFields(s, p);
    if TouchesState(p) then Recomputed(written, today) else written
  }

  /** The sprint table after a write of `p` to the records `ids`. */
  function PatchAll(sprints: Sprints, ids: seq<SprintId>, p: SprintPatch, today: Day): (r: Sprints)
    requires InTable(sprints, ids)
    ensures r.Keys == sprints.Keys
    ensures InTable(r, ids)
  {
    map k | k in sprints :: if k in ids then Patch(sprints[k], p, today) else sprints[k]
  }

  /** The sprint table with the written values assigned to the records `ids`. */
  function WriteAll(sprints: Sprints, ids: seq<SprintId>, p: SprintPatch): (r: Sprints)
    ensures r.Keys == sprints.Keys
  {
    map k | k in sprints :: if k in ids then WriteFields(sprints[k], p) else sprints[k]
  }

  /** The sprint table after the state of the records `ids` is recomputed. */
  function RecomputedAll(sprints: Sprints, ids: seq<SprintId>, today: Day): (r: Sprints)
    requires InTable(sprints, ids)
    ensures r.Keys == sprints.Keys
  {
    map k | k in sprints :: if k in ids then Recomputed(sprints[k], today) else sprints[k]
  }

  /** A write is the assignment of its values followed, when a state input was
      written, by the recomputation of the state. */
  lemma PatchAllSplits(sprints: Sprints, ids: seq<SprintId>, p: SprintPatch, today: Day)
    requires InTable(sprints, ids)
    ensures InTable(WriteAll(sprints, ids, p), ids)
    ensures PatchAll(sprints, ids, p, today) ==
      if TouchesState(p) then RecomputedAll(WriteAll(sprints, ids, p), ids, today)
      else WriteAll(sprints, ids, p)
  {
  }

  /** The constraints a write triggers, in declaration order: each runs when the
      write names a field it watches; the state counts as written when one of its
      inputs is, since it is then recomputed. */
  function Triggered(p: SprintPatch): (r: seq<Check>)
    ensures TasksMatchProject in r <==> p.project.Put? || TouchesState(p)
    ensures DurationAndOrder in r <==> p.start.Put? || p.end.Put?
    ensures PastDate in r <==> TouchesState(p)
    ensures SingleActive in r <==> p.project.Put? || TouchesState(p)
  {
    (if p.project.Put? || TouchesState(p) then [TasksMatchProject] else [])
    + (if p.start.Put? || p.end.Put? then [DurationAndOrder] else [])
    + (if TouchesState(p) then [PastDate] else [])
    + (if p.project.Put? || TouchesState(p) then [SingleActive] else [])
  }

  /** Every constraint, as a creation runs them. */
  const AllChecks: seq<Check> := [TasksMatchProject, DurationAndOrder, PastDate, SingleActive]

  /** The project of a sprint may not change once a task points at it (looked at
      first) or once its stored state is active or done. */
  function GuardProjectChange(sprints: Sprints, tasks: Tasks, id: SprintId): (r: Option<Error>)
    requires id in sprints
    ensures r == Some(ProjectChangeWithTasks) <==> TasksOf(tasks, id) != {}
    ensures r == Some(ProjectChangeWhenStarted) <==> TasksOf(tasks, id) == {} && sprints[id].state != Planned
    ensures r.None? <==> TasksOf(tasks, id) == {} && sprints[id].state == Planned
  {
    var hasTasks := |TasksOf(tasks, id)| > 0;
    if hasTasks then Some(ProjectChangeWithTasks)
    else if sprints[id].state == Active || sprints[id].state == Done then Some(ProjectChangeWhenStarted)
    else
      assert sprints[id].state == Planned;
      None
  }

  /** The guard of `write` over a recordset: only a write naming the project is
      looked at, and then every record must pass. */
  function GuardWrite(sprints: Sprints, tasks: Tasks, ids: seq<SprintId>, p: SprintPatch): (r: Option<Error>)
    requires InTable(sprints, ids)
    ensures p.project.Keep? ==> r.None?
    ensures p.project.Put? ==>
      (r.None? <==> forall i | 0 <= i < |ids| :: TasksOf(tasks, ids[i]) == {} && sprints[ids[i]].state == Planned)
  {
    if p.project.Put? then First(Guards(sprints, tasks, ids)) else None
  }

  /** The guard's verdict on each record of a recordset, in order. */
  function Guards(sprints: Sprints, tasks: Tasks, ids: seq<SprintId>): (r: seq<Option<Error>>)
    requires InTable(sprints, ids)
    ensures |r| == |ids| && forall i | 0 <= i < |ids| :: r[i] == GuardProjectChange(sprints, tasks, ids[i])
  {
    seq(|ids|, i requires 0 <= i < |ids| => GuardProjectChange(sprints, tasks, ids[i]))
  }

  /** The outcome of `write(vals)` on the records `ids`: the guard, then the
      constraints the write triggers, on the table as written. */
  function WriteError(sprints: Sprints, tasks: Tasks, ids: seq<SprintId>, p: SprintPatch, today: Day): (r: Option<Error>)
    requires InTable(sprints, ids)
    ensures r.None? <==>
      GuardWrite(sprints, tasks, ids, p).None? &&
      forall j, i | 0 <= j < |Triggered(p)| && 0 <= i < |ids| ::
        RunCheck(Triggered(p)[j], PatchAll(sprints, ids, p, today), tasks, ids[i], today).None?
    ensures GuardWrite(sprints, tasks, ids, p).Some? ==> r == GuardWrite(sprints, tasks, ids, p)
  {
    var guard := GuardWrite(sprints, tasks, ids, p);
    if guard.Some? then guard
    else Validate(Triggered(p), PatchAll(sprints, ids, p, today), tasks, ids, today)
  }

  /** A write that does not name the project is never stopped by the guard, and
      one that does is stopped when a record has tasks or has started; the tasks
      are looked at before the state. */
  lemma WriteGuard(sprints: Sprints, tasks: Tasks, ids: seq<SprintId>, p: SprintPatch, today: Day)
    requires InTable(sprints, ids)
    ensures p.project.Keep? ==>
      WriteError(sprints, tasks, ids, p, today) == Validate(Triggered(p), PatchAll(sprints, ids, p, today), tasks, ids, today)
    ensures p.project.Put? && |ids| > 0 && TasksOf(tasks, ids[0]) != {} ==>
      WriteError(sprints, tasks, ids, p, today) == Some(ProjectChangeWithTasks)
    ensures p.project.Put? && |ids| > 0 && TasksOf(tasks, ids[0]) == {} && sprints[ids[0]].state != Planned ==>
      WriteError(sprints, tasks, ids, p, today) == Some(ProjectChangeWhenStarted)
    ensures p.project.Put? && (exists i | 0 <= i < |ids| :: TasksOf(tasks, ids[i]) != {} || sprints[ids[i]].state != Planned) ==>
      WriteError(sprints, tasks, ids, p, today).Some?
  {
    if p.project.Put? && |ids| > 0 {
      var rs := Guards(sprints, tasks, ids);
      if rs[0].Some? {
        FirstAt(rs, 0);
      }
    }
  }

  // ---------------------------------------------------------------- actions

  /** The values `action_set_planned`, `_active` and `_done` write. */
  function ManualPatch(target: State): (r: SprintPatch)
    ensures r.project.Keep? && r.start.Keep? && r.end.Keep? && TouchesState(r)
    ensures Triggered(r) == [TasksMatchProject, PastDate, SingleActive]
  {
    SprintPatch(Keep, Keep, Keep, Put(Manual), Put(target))
  }

  /** The values `action_set_auto` writes. */
  function AutoPatch(): (r: SprintPatch)
    ensures r.project.Keep? && r.start.Keep? && r.end.Keep? && r.manual.Keep? && TouchesState(r)
    ensures Triggered(r) == [TasksMatchProject, PastDate, SingleActive]
  {
    SprintPatch(Keep, Keep, Keep, Put(Auto), Keep)
  }

  /** A manual action leaves every written record in manual mode with the target
      as its manual value and its state, and all else as it was. */
  lemma ManualActionReachesTarget(sprints: Sprints, ids: seq<SprintId>, target: State, today: Day, k: SprintId)
    requires InTable(sprints, ids) && k in sprints
    ensures k in ids ==>
      var s := PatchAll(sprints, ids, ManualPatch(target), today)[k];
      s.mode == Manual && s.manual == target && s.state == target
      && s.project == sprints[k].project && s.start == sprints[k].start && s.end == sprints[k].end
    ensures k !in ids ==> PatchAll(sprints, ids, ManualPatch(target), today)[k] == sprints[k]
  {
  }

  /** The auto action leaves every written record in auto mode with the state
      its dates give, and the recomputation it runs afterwards changes nothing. */
  lemma AutoActionFollowsDates(sprints: Sprints, ids: seq<SprintId>, today: Day)
    requires InTable(sprints, ids)
    ensures forall i | 0 <= i < |ids| ::
      var s := PatchAll(sprints, ids, AutoPatch(), today)[ids[i]];
      s.mode == Auto && s.state == AutoState(today, s.start, s.end)
      && s.(mode := sprints[ids[i]].mode, state := sprints[ids[i]].state) == sprints[ids[i]]
    ensures RecomputedAll(PatchAll(sprints, ids, AutoPatch(), today), ids, today) == PatchAll(sprints, ids, AutoPatch(), today)
  {
    var patched := PatchAll(sprints, ids, AutoPatch(), today);
    forall k | k in patched
      ensures RecomputedAll(patched, ids, today)[k] == patched[k]
    {
      if k in ids {
        RecomputeIdempotent(WriteFields(sprints[k], AutoPatch()), today);
      }
    }
  }

  /** Activating a sprint while another sprint of its project is active is
      rejected (the other one is not part of the write). */
  lemma SecondActivationRejected(sprints: Sprints, tasks: Tasks, id: SprintId, other: SprintId, today: Day)
    requires id in sprints && other in sprints && other != id
    requires sprints[other].project == sprints[id].project && sprints[other].state == Active
    ensures WriteError(sprints, tasks, [id], ManualPatch(Active), today).Some?
  {
    var p := ManualPatch(Active);
    var after := PatchAll(sprints, [id], p, today);
    assert after[other] == sprints[other];
    assert after[id].state == Active;
    if Validate(Triggered(p), after, tasks, [id], today).None? {
      ValidatedBy(Triggered(p), SingleActive, after, tasks, [id], today, 0);
      assert false;
    }
  }

  // ---------------------------------------------------------------- task selection

  /** The selected tasks that do not yet point at the sprint. */
  function ToAdd(tasks: Tasks, id: SprintId, selection: set<TaskId>): (r: set<TaskId>)
    ensures forall k :: k in r <==> k in selection && !(k in tasks && tasks[k].sprint == Some(id))
  {
    selection - TasksOf(tasks, id)
  }

  /** The tasks pointing at the sprint that are no longer selected. */
  function ToRemove(tasks: Tasks, id: SprintId, selection: set<TaskId>): (r: set<TaskId>)
    ensures forall k :: k in r <==> k in tasks && tasks[k].sprint == Some(id) && k !in selection
  {
    TasksOf(tasks, id) - selection
  }

  /** `recordset.write({"sprint_id": v})` on the tasks `ks`. */
  function PointAt(tasks: Tasks, ks: set<TaskId>, sprint: Option<SprintId>): (r: Tasks)
    ensures r.Keys == tasks.Keys
    ensures forall k | k in r :: r[k].project == tasks[k].project && r[k].deadline == tasks[k].deadline
    ensures forall k | k in r :: r[k].sprint == if k in ks then sprint else tasks[k].sprint
  {
    map k | k in tasks :: if k in ks then tasks[k].(sprint := sprint) else tasks[k]
  }

  /** The task table after the selection is applied: the added tasks are
      pointed at the sprint, then the removed ones at no sprint. */
  function Reassigned(tasks: Tasks, id: SprintId, selection: set<TaskId>): (r: Tasks)
    ensures r.Keys == tasks.Keys
    ensures forall k | k in r :: r[k].project == tasks[k].project && r[k].deadline == tasks[k].deadline
    ensures forall k | k in r :: r[k].sprint == (if k in selection then Some(id) else if tasks[k].sprint == Some(id) then None else tasks[k].sprint)
  {
    PointAt(PointAt(tasks, ToAdd(tasks, id, selection), Some(id)), ToRemove(tasks, id, selection), None)
  }

  /** The outcome of writing a selection: no project first, then an added task of
      another project, then the task constraint on the added tasks (removed ones
      have no sprint and always pass it). */
  function InverseError(sprints: Sprints, tasks: Tasks, id: SprintId, selection: set<TaskId>): (r: Option<Error>)
    requires id in sprints && selection <= tasks.Keys
    ensures sprints[id].project.None? <==> r == Some(NoProjectForTasks)
    ensures r == Some(TaskOfOtherProject) <==>
      sprints[id].project.Some? &&
      exists k | k in selection && tasks[k].sprint != Some(id) :: tasks[k].project != sprints[id].project
    ensures r == Some(DeadlineAfterSprintEnd) ==>
      exists k | k in ToAdd(tasks, id, selection) ::
        CheckTask(sprints, tasks[k].(sprint := Some(id))) == Some(DeadlineAfterSprintEnd)
    ensures r.None? <==>
      sprints[id].project.Some? &&
      forall k | k in ToAdd(tasks, id, selection) ::
        tasks[k].project == sprints[id].project && CheckTask(sprints, tasks[k].(sprint := Some(id))).None?
  {
    var s := sprints[id];
    if s.project.None? then Some(NoProjectForTasks)
    else if exists k | k in ToAdd(tasks, id, selection) :: tasks[k].project != s.project then
      Some(TaskOfOtherProject)
    else if exists k | k in ToAdd(tasks, id, selection) :: CheckTask(sprints, tasks[k].(sprint := Some(id))).Some? then
      Some(DeadlineAfterSprintEnd)
    else None
  }

  /** After an accepted selection the tasks pointing at the sprint are exactly
      the selection; added tasks now point at it, removed ones at nothing, and
      every other task is untouched. */
  lemma SelectionApplied(tasks: Tasks, id: SprintId, selection: set<TaskId>)
    requires selection <= tasks.Keys
    ensures TasksOf(Reassigned(tasks, id, selection), id) == selection
    ensures forall k | k in ToAdd(tasks, id, selection) ::
      Reassigned(tasks, id, selection)[k] == tasks[k].(sprint := Some(id))
    ensures forall k | k in ToRemove(tasks, id, selection) ::
      Reassigned(tasks, id, selection)[k] == tasks[k].(sprint := None)
    ensures forall k | k in tasks && k !in selection && k !in TasksOf(tasks, id) ::
      Reassigned(tasks, id, selection)[k] == tasks[k]
  {
    var r := Reassigned(tasks, id, selection);
    forall k ensures k in TasksOf(r, id) <==> k in selection {
      if k in selection {
        assert k in tasks;
      }
    }
  }

  /** Writing back the selection as it reads changes nothing: the read and the
      write of the selection field are inverse to each other. */
  lemma SelectionRoundTrip(sprints: Sprints, tasks: Tasks, id: SprintId)
    requires id in sprints && sprints[id].project.Some?
    ensures InverseError(sprints, tasks, id, TasksOf(tasks, id)).None?
    ensures Reassigned(tasks, id, TasksOf(tasks, id)) == tasks
  {
    assert ToAdd(tasks, id, TasksOf(tasks, id)) == {};
    assert ToRemove(tasks, id, TasksOf(tasks, id)) == {};
  }

  // ---------------------------------------------------------------- default end date

  /** The start-date onchange: an empty end date becomes start + 14 days. */
  function DefaultEnd(s: Sprint): (r: Sprint)
    ensures r.(end := s.end) == s
    ensures s.end.Some? || s.start.None? ==> r == s
    ensures s.start.Some? && s.end.None? ==> r.end == Some(s.start.value + DefaultSprintDays)
  {
    if s.start.Some? && s.end.None? then s.(end := Some(s.start.value + DefaultSprintDays)) else s
  }

  /** The default end date always passes the date-order and 28-day rule, and a
      sprint that passed it before still does. */
  lemma DefaultEndWithinLimit(s: Sprint)
    ensures s.start.Some? && s.end.None? ==> CheckDurationAndOrder(DefaultEnd(s)).None?
    ensures CheckDurationAndOrder(s).None? ==> CheckDurationAndOrder(DefaultEnd(s)).None?
  {
  }

  // ---------------------------------------------------------------- creation

  /** A new record as `create` stores it: its state computed at once. */
  function NewSprint(project: Option<ProjectId>, start: Option<Day>, end: Option<Day>, mode: Mode, manual: State, today: Day): (r: Sprint)
    ensures r.project == project && r.start == start && r.end == end && r.mode == mode && r.manual == manual
    ensures r.state == DerivedState(r, today)
  {
    Recomputed(Sprint(project, start, end, mode, manual, Planned), today)
  }

  /** The outcome of creating the record `s` under the fresh id `id`: every
      constraint runs on it. */
  function CreateError(sprints: Sprints, tasks: Tasks, id: SprintId, s: Sprint, today: Day): (r: Option<Error>)
    ensures r.None? <==> forall c | c in AllChecks :: RunCheck(c, sprints[id := s], tasks, id, today).None?
    ensures r.Some? ==> exists c | c in AllChecks :: RunCheck(c, sprints[id := s], tasks, id, today) == r
  {
    var r := Validate(AllChecks, sprints[id := s], tasks, [id], today);
    assert r.None? ==> forall c | c in AllChecks :: RunCheck(c, sprints[id := s], tasks, [id][0], today).None?;
    assert r.Some? ==> exists c | c in AllChecks :: RunCheck(c, sprints[id := s], tasks, id, today) == r by {
      if r.Some? {
        var j, i :| 0 <= j < |AllChecks| && 0 <= i < 1 && RunCheck(AllChecks[j], sprints[id := s], tasks, [id][i], today) == r;
        assert AllChecks[j] in AllChecks;
      }
    }
    r
  }
}
