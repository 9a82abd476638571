/** The sprint and task tables as the datastore holds them, and the operations
    of the add-on that change them in place. Every operation that can be
    rejected is all-or-nothing: on rejection both tables are as they were. */
module Store {
  import opened Records
  import opened TaskRules
  import opened SprintRules
  import opened Invariants

  class Store {
    var sprints: Sprints
    var tasks: Tasks

    /** Tasks point at existing sprints, no project has two active sprints,
        every sprint is within the date rules, and no task's project differs
        from its sprint's. */
    ghost predicate Valid()
      reads this
    {
      Linked(sprints, tasks) && OneActivePerProject(sprints) && AllDatesValid(sprints)
      && TaskProjectsMatch(sprints, tasks)
    }

    constructor ()
      ensures Valid() && sprints == map[] && tasks == map[]
    {
      sprints := map[];
      tasks := map[];
    }

    /** `_compute_state` over a recordset: each record's stored state becomes
        the derived one. A record named twice is recomputed twice, to no effect. */
    method RecomputeState(ids: seq<SprintId>, today: Day)
      requires InTable(sprints, ids)
      modifies this
      ensures sprints == RecomputedAll(old(sprints), ids, today)
      ensures tasks == old(tasks)
    {
      var i := 0;
      while i < |ids|
        invariant 0 <= i <= |ids|
        invariant sprints.Keys == old(sprints).Keys && tasks == old(tasks)
        invariant forall k | k in sprints ::
          sprints[k] == if k in ids[..i] then Recomputed(old(sprints)[k], today) else old(sprints)[k]
      {
        var id := ids[i];
        RecomputeIdempotent(old(sprints)[id], today);
        sprints := sprints[id := Recomputed(sprints[id], today)];
        assert ids[..i + 1] == ids[..i] + [id];
        i := i + 1;
      }
      assert ids[..i] == ids;
    }

    /** The guard at the head of `write(vals)`: when the values name the
        project, each record in turn is stopped if a task points at it or if it
        has started. */
    method GuardWriteLoop(ids: seq<SprintId>, p: SprintPatch) returns (err: Option<Error>)
      requires InTable(sprints, ids)
      ensures err == GuardWrite(sprints, tasks, ids, p)
    {
      err := None;
      if p.project.Put? {
        ghost var guards := Guards(sprints, tasks, ids);
        var i := 0;
        while i < |ids|
          invariant 0 <= i <= |ids| && err.None?
          invariant forall j | 0 <= j < i :: guards[j].None?
        {
          var hasTasks := |TasksOf(tasks, ids[i])| > 0;
          if hasTasks {
            err := Some(ProjectChangeWithTasks);
          } else if sprints[ids[i]].state == Active || sprints[ids[i]].state == Done {
            err := Some(ProjectChangeWhenStarted);
          }
          if err.Some? {
            assert guards[i] == err;
            FirstAt(guards, i);
            return;
          }
          i := i + 1;
        }
      }
    }

    /** `write(vals)` on the records `ids`: the project guard, the assignment of
        the values, the state recomputed when one of its inputs was written, and
        the constraints the write triggers; a rejection restores the table. */
    method Write(ids: seq<SprintId>, p: SprintPatch, today: Day) returns (err: Option<Error>)
      requires Valid() && InTable(sprints, ids)
      modifies this
      ensures Valid()
      ensures err == WriteError(old(sprints), old(tasks), ids, p, today)
      ensures sprints == if err.None? then PatchAll(old(sprints), ids, p, today) else old(sprints)
      ensures tasks == old(tasks)
      ensures err.None? && SprintTasksMatch(old(sprints), tasks) ==> SprintTasksMatch(sprints, tasks)
      ensures err.None? && TouchesState(p) ==> forall i | 0 <= i < |ids| :: CheckPastDate(sprints[ids[i]], today).None?
    {
      err := GuardWriteLoop(ids, p);
      if err.Some? {
        return;
      }
      var before := sprints;
      AssignValues(ids, p, today);
      err := Validate(Triggered(p), sprints, tasks, ids, today);
      if err.Some? {
        sprints := before;
      } else {
        WritePreservesOneActive(before, tasks, ids, p, today);
        WritePreservesDates(before, tasks, ids, p, today);
        WritePreservesTaskProjects(before, tasks, ids, p, today);
        if SprintTasksMatch(before, tasks) {
          WritePreservesTasksMatch(before, tasks, ids, p, today);
        }
        if TouchesState(p) {
          WriteLeavesNoPastPlanned(before, tasks, ids, p, today);
        }
      }
    }

    /** The assignment step of `write`: the values stored on the records, then
        their state recomputed when one of its inputs was written. */
    method AssignValues(ids: seq<SprintId>, p: SprintPatch, today: Day)
      requires InTable(sprints, ids)
      modifies this
      ensures sprints == PatchAll(old(sprints), ids, p, today)
      ensures tasks == old(tasks)
    {
      PatchAllSplits(sprints, ids, p, today);
      sprints := WriteAll(sprints, ids, p);
      if TouchesState(p) {
        RecomputeState(ids, today);
      }
    }

    /** `action_set_planned`, `action_set_active`, `action_set_done`: switch to
        manual mode with `target` as the manual state, through `write`. */
    method ActionSetManual(ids: seq<SprintId>, target: State, today: Day) returns (err: Option<Error>)
      requires Valid() && InTable(sprints, ids)
      modifies this
      ensures Valid() && tasks == old(tasks)
      ensures err == WriteError(old(sprints), old(tasks), ids, ManualPatch(target), today)
      ensures err.Some? ==> sprints == old(sprints)
      ensures err.None? ==> sprints.Keys == old(sprints).Keys
      ensures err.None? ==> forall k | k in sprints ::
        if k in ids then
          sprints[k] == old(sprints)[k].(mode := Manual, manual := target, state := target)
        else sprints[k] == old(sprints)[k]
    {
      err := Write(ids, ManualPatch(target), today);
      forall k | k in old(sprints) {
        ManualActionReachesTarget(old(sprints), ids, target, today, k);
      }
    }

    /** `action_set_auto`: switch to auto mode through `write`, then recompute
        the state, which the write has already brought up to date. */
    method ActionSetAuto(ids: seq<SprintId>, today: Day) returns (err: Option<Error>)
      requires Valid() && InTable(sprints, ids)
      modifies this
      ensures Valid() && tasks == old(tasks)
      ensures err == WriteError(old(sprints), old(tasks), ids, AutoPatch(), today)
      ensures sprints == if err.None? then PatchAll(old(sprints), ids, AutoPatch(), today) else old(sprints)
      ensures err.None? ==> forall i | 0 <= i < |ids| ::
        sprints[ids[i]].mode == Auto &&
        sprints[ids[i]].state == AutoState(today, sprints[ids[i]].start, sprints[ids[i]].end)
    {
      err := Write(ids, AutoPatch(), today);
      if err.None? {
        AutoActionFollowsDates(old(sprints), ids, today);
        RecomputeState(ids, today);
      }
    }

    /** `_inverse_task_select_ids`: make the selection the sprint's task set.
        Added tasks are pointed at the sprint, removed ones at no sprint, and the
        task constraint then runs on the written tasks. */
    method InverseTaskSelect(id: SprintId, selection: set<TaskId>) returns (err: Option<Error>)
      requires Valid() && id in sprints && selection <= tasks.Keys
      modifies this
      ensures Valid() && sprints == old(sprints)
      ensures err == InverseError(old(sprints), old(tasks), id, selection)
      ensures tasks == if err.None? then Reassigned(old(tasks), id, selection) else old(tasks)
      ensures err.None? ==> TasksOf(tasks, id) == selection
      ensures err.None? && TasksValid(sprints, old(tasks)) ==> TasksValid(sprints, tasks)
      ensures err.None? && SprintTasksMatch(sprints, old(tasks)) ==> SprintTasksMatch(sprints, tasks)
    {
      var sprint := sprints[id];
      if sprint.project.None? {
        err := Some(NoProjectForTasks);
        return;
      }
      var linked := TasksOf(tasks, id);
      var toAdd := selection - linked;
      var toRemove := linked - selection;
      if exists k | k in toAdd :: tasks[k].project != sprint.project {
        err := Some(TaskOfOtherProject);
        return;
      }
      var before := tasks;
      tasks := PointAt(tasks, toAdd, Some(id));
      tasks := PointAt(tasks, toRemove, None);
      assert forall k | k in toAdd :: tasks[k] == before[k].(sprint := Some(id));
      if exists k | k in toAdd :: CheckTask(sprints, tasks[k]).Some? {
        tasks := before;
        err := Some(DeadlineAfterSprintEnd);
        return;
      }
      err := None;
      SelectionApplied(before, id, selection);
      SelectionPreservesProjects(sprints, before, id, selection);
      if TasksValid(sprints, before) {
        SelectionPreservesTasks(sprints, before, id, selection);
      }
    }

    /** `_onchange_start_date_set_default_end`: an empty end date is set to the
        start date plus 14 days. */
    method OnchangeStartDate(id: SprintId)
      requires Valid() && id in sprints
      modifies this
      ensures Valid() && tasks == old(tasks)
      ensures sprints == old(sprints)[id := DefaultEnd(old(sprints)[id])]
      ensures SprintTasksMatch(old(sprints), tasks) ==> SprintTasksMatch(sprints, tasks)
    {
      var sprint := sprints[id];
      if sprint.start.Some? && sprint.end.None? {
        sprints := sprints[id := sprint.(end := Some(sprint.start.value + DefaultSprintDays))];
      }
      DefaultEndPreservesInvariants(old(sprints), id);
      DefaultEndPreservesProjects(old(sprints), tasks, id);
    }

    /** `_onchange_sprint_id`: a task with a sprint and no deadline gets its
        sprint's end date, when that is set, as its deadline. */
    method OnchangeSprint(tid: TaskId)
      requires Valid() && tid in tasks
      modifies this
      ensures Valid() && sprints == old(sprints)
      ensures tasks == old(tasks)[tid := SuggestDeadline(sprints, old(tasks)[tid])]
      ensures TasksValid(sprints, old(tasks)) ==> TasksValid(sprints, tasks)
      ensures SprintTasksMatch(sprints, old(tasks)) ==> SprintTasksMatch(sprints, tasks)
    {
      var task := tasks[tid];
      if task.sprint.Some? && task.deadline.None? && sprints[task.sprint.value].end.Some? {
        tasks := tasks[tid := task.(deadline := sprints[task.sprint.value].end)];
      }
      if TasksValid(sprints, old(tasks)) {
        SuggestionPreservesTasks(sprints, old(tasks), tid);
      }
      SuggestionPreservesProjects(sprints, old(tasks), tid);
    }

    /** A write of the task fields the task constraint watches; the constraint
        runs on the written record and a rejection restores it. */
    method WriteTask(tid: TaskId, p: TaskPatch) returns (err: Option<Error>)
      requires Valid() && tid in tasks && SprintKnown(sprints, PatchTask(tasks[tid], p))
      modifies this
      ensures Valid() && sprints == old(sprints)
      ensures err == TaskWriteError(sprints, old(tasks)[tid], p)
      ensures tasks == if err.None? then old(tasks)[tid := PatchTask(old(tasks)[tid], p)] else old(tasks)
      ensures err.None? && TasksValid(sprints, old(tasks)) ==> TasksValid(sprints, tasks)
      ensures var t := PatchTask(old(tasks)[tid], p);
        err.None? && SprintTasksMatch(sprints, old(tasks)) && (t.project.Some? || t.sprint.None?) ==>
          SprintTasksMatch(sprints, tasks)
    {
      var before := tasks;
      tasks := tasks[tid := PatchTask(tasks[tid], p)];
      err := if Touches(p) then CheckTask(sprints, tasks[tid]) else None;
      if err.Some? {
        tasks := before;
        return;
      }
      if TasksValid(sprints, before) {
        TaskWritePreservesTasks(sprints, before, tid, p);
      }
      if Touches(p) {
        PutTaskPreservesProjects(sprints, before, tid, tasks[tid]);
      } else {
        assert tasks == before;
      }
    }

    /** Creating a sprint under the fresh id `id`: its state is computed at once
        and every sprint constraint runs on it. */
    method CreateSprint(id: SprintId, project: Option<ProjectId>, start: Option<Day>, end: Option<Day>,
                        mode: Mode, manual: State, today: Day) returns (err: Option<Error>)
      requires Valid() && id !in sprints
      modifies this
      ensures Valid() && tasks == old(tasks)
      ensures err == CreateError(old(sprints), old(tasks), id, NewSprint(project, start, end, mode, manual, today), today)
      ensures sprints == if err.None? then old(sprints)[id := NewSprint(project, start, end, mode, manual, today)] else old(sprints)
      ensures SprintTasksMatch(old(sprints), tasks) ==> SprintTasksMatch(sprints, tasks)
    {
      var before := sprints;
      var sprint := Recomputed(Sprint(project, start, end, mode, manual, Planned), today);
      sprints := sprints[id := sprint];
      err := Validate(AllChecks, sprints, tasks, [id], today);
      if err.Some? {
        sprints := before;
      } else {
        CreatePreservesInvariants(before, tasks, id, sprint, today);
        CreatePreservesProjects(before, tasks, id, sprint);
      }
    }

    /** Creating a task under the fresh id `tid`: the task constraint runs on it. */
    method CreateTask(tid: TaskId, t: Task) returns (err: Option<Error>)
      requires Valid() && tid !in tasks && SprintKnown(sprints, t)
      modifies this
      ensures Valid() && sprints == old(sprints)
      ensures err == CheckTask(sprints, t)
      ensures tasks == if err.None? then old(tasks)[tid := t] else old(tasks)
      ensures err.None? && TasksValid(sprints, old(tasks)) ==> TasksValid(sprints, tasks)
      ensures err.None? && SprintTasksMatch(sprints, old(tasks)) && (t.project.Some? || t.sprint.None?) ==>
        SprintTasksMatch(sprints, tasks)
    {
      err := CheckTask(sprints, t);
      if err.None? {
        PutTaskPreservesProjects(sprints, tasks, tid, t);
        tasks := tasks[tid := t];
      }
    }
  }
}
