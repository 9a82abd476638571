/** The table-wide consistency the constraints are there to keep, and which
    accepted mutations keep it. */
module Invariants {
  import opened Records
  import opened TaskRules
  import opened SprintRules

  /** No two sprints of one project both have the stored state active. */
  ghost predicate OneActivePerProject(sprints: Sprints)
  {
    forall a, b | a in sprints && b in sprints && a != b && sprints[a].state == Active && sprints[b].state == Active ::
      sprints[a].project != sprints[b].project
  }

  /** Every sprint passes the date-order and 28-day rule. */
  ghost predicate AllDatesValid(sprints: Sprints)
  {
    forall k | k in sprints :: CheckDurationAndOrder(sprints[k]).None?
  }

  /** Every task's sprint exists and the task passes the task constraint. */
  ghost predicate TasksValid(sprints: Sprints, tasks: Tasks)
  {
    forall k | k in tasks :: SprintKnown(sprints, tasks[k]) && CheckTask(sprints, tasks[k]).None?
  }

  /** Every task with a sprint names an existing sprint, and the two projects
      do not differ where both are set. */
  ghost predicate TaskProjectsMatch(sprints: Sprints, tasks: Tasks)
  {
    forall k | k in tasks && tasks[k].sprint.Some? ::
      SprintKnown(sprints, tasks[k]) && !ProjectMismatch(sprints, tasks[k])
  }

  /** An accepted write leaves at most one active sprint per project. */
  lemma WritePreservesOneActive(sprints: Sprints, tasks: Tasks, ids: seq<SprintId>, p: SprintPatch, today: Day)
    requires InTable(sprints, ids) && OneActivePerProject(sprints)
    requires WriteError(sprints, tasks, ids, p, today).None?
    ensures OneActivePerProject(PatchAll(sprints, ids, p, today))
  {
    var after := PatchAll(sprints, ids, p, today);
    forall a, b | a in after && b in after && a != b && after[a].state == Active && after[b].state == Active
      ensures after[a].project != after[b].project
    {
      if (a in ids || b in ids) && (p.project.Put? || TouchesState(p)) {
        var i :| 0 <= i < |ids| && (ids[i] == a || ids[i] == b);
        ValidatedBy(Triggered(p), SingleActive, after, tasks, ids, today, i);
      } else {
        assert after[a].state == sprints[a].state && after[a].project == sprints[a].project;
        assert after[b].state == sprints[b].state && after[b].project == sprints[b].project;
      }
    }
  }

  /** An accepted write of a state input leaves no written sprint manual,
      past its end date and still planned or active, on the day of the write. */
  lemma WriteLeavesNoPastPlanned(sprints: Sprints, tasks: Tasks, ids: seq<SprintId>, p: SprintPatch, today: Day)
    requires InTable(sprints, ids) && TouchesState(p)
    requires WriteError(sprints, tasks, ids, p, today).None?
    ensures forall i | 0 <= i < |ids| :: CheckPastDate(PatchAll(sprints, ids, p, today)[ids[i]], today).None?
  {
    var after := PatchAll(sprints, ids, p, today);
    forall i | 0 <= i < |ids| ensures CheckPastDate(after[ids[i]], today).None? {
      ValidatedBy(Triggered(p), PastDate, after, tasks, ids, today, i);
    }
  }

  /** Every sprint with a project has only tasks of that project. */
  ghost predicate SprintTasksMatch(sprints: Sprints, tasks: Tasks)
  {
    forall k | k in sprints :: CheckTasksMatchProject(sprints, tasks, k).None?
  }

  /** An accepted write keeps every sprint's tasks within its project: a written
      sprint passed the tasks-match constraint, and the others are unchanged. */
  lemma WritePreservesTasksMatch(sprints: Sprints, tasks: Tasks, ids: seq<SprintId>, p: SprintPatch, today: Day)
    requires InTable(sprints, ids) && SprintTasksMatch(sprints, tasks)
    requires WriteError(sprints, tasks, ids, p, today).None?
    ensures SprintTasksMatch(PatchAll(sprints, ids, p, today), tasks)
  {
    var after := PatchAll(sprints, ids, p, today);
    forall k | k in after ensures CheckTasksMatchProject(after, tasks, k).None? {
      if k in ids && (p.project.Put? || TouchesState(p)) {
        var i :| 0 <= i < |ids| && ids[i] == k;
        ValidatedBy(Triggered(p), TasksMatchProject, after, tasks, ids, today, i);
      } else {
        assert after[k].project == sprints[k].project;
        assert CheckTasksMatchProject(sprints, tasks, k).None?;
      }
    }
  }

  /** An accepted write leaves every sprint within the date rules. */
  lemma WritePreservesDates(sprints: Sprints, tasks: Tasks, ids: seq<SprintId>, p: SprintPatch, today: Day)
    requires InTable(sprints, ids) && AllDatesValid(sprints)
    requires WriteError(sprints, tasks, ids, p, today).None?
    ensures AllDatesValid(PatchAll(sprints, ids, p, today))
  {
    var after := PatchAll(sprints, ids, p, today);
    forall k | k in after ensures CheckDurationAndOrder(after[k]).None? {
      if k in ids && (p.start.Put? || p.end.Put?) {
        var i :| 0 <= i < |ids| && ids[i] == k;
        ValidatedBy(Triggered(p), DurationAndOrder, after, tasks, ids, today, i);
      } else {
        assert after[k].start == sprints[k].start && after[k].end == sprints[k].end;
      }
    }
  }

  /** An accepted write that leaves the end dates alone keeps every task
      consistent with its sprint: a project change is only let through for
      sprints no task points at. */
  lemma WriteKeepingEndPreservesTasks(sprints: Sprints, tasks: Tasks, ids: seq<SprintId>, p: SprintPatch, today: Day)
    requires InTable(sprints, ids) && TasksValid(sprints, tasks) && p.end.Keep?
    requires WriteError(sprints, tasks, ids, p, today).None?
    ensures TasksValid(PatchAll(sprints, ids, p, today), tasks)
  {
    var after := PatchAll(sprints, ids, p, today);
    forall k | k in tasks ensures SprintKnown(after, tasks[k]) && CheckTask(after, tasks[k]).None? {
      var t := tasks[k];
      if t.sprint.Some? {
        var sid := t.sprint.value;
        assert after[sid].end == sprints[sid].end;
        assert after[sid].project == sprints[sid].project;
      }
    }
  }

  /** The sprint constraints do not look at task deadlines: moving a sprint's
      end date before a linked task's deadline is accepted, and leaves that task
      inconsistent with its sprint. */
  lemma EndWriteCanBreakTaskDeadline()
    ensures
      var sprints := map[0 := Sprint(Some(1), Some(0), Some(13), Auto, Planned, Planned)];
      var tasks := map[0 := Task(Some(1), Some(0), Some(13))];
      var p := SprintPatch(Keep, Keep, Put(Some(9)), Keep, Keep);
      && InTable(sprints, [0])
      && TasksValid(sprints, tasks)
      && WriteError(sprints, tasks, [0], p, -5).None?
      && !TasksValid(PatchAll(sprints, [0], p, -5), tasks)
  {
    var sprints := map[0 := Sprint(Some(1), Some(0), Some(13), Auto, Planned, Planned)];
    var tasks := map[0 := Task(Some(1), Some(0), Some(13))];
    var p := SprintPatch(Keep, Keep, Put(Some(9)), Keep, Keep);
    var after := PatchAll(sprints, [0], p, -5);
    assert after[0] == Sprint(Some(1), Some(0), Some(9), Auto, Planned, Planned);
    assert TasksOf(tasks, 0) == {0};
    assert Triggered(p) == [TasksMatchProject, DurationAndOrder, PastDate, SingleActive];
    forall j, i | 0 <= j < 4 && 0 <= i < 1
      ensures RunCheck(Triggered(p)[j], after, tasks, [0][i], -5).None?
    {
      assert OtherActive(after, 0, Some(1)) == {};
    }
    assert CheckTask(after, tasks[0]) == Some(DeadlineAfterSprintEnd);
  }

  /** The task constraint lets a task with no project join a sprint, while the
      sprint's own constraint counts that task as belonging to another project. */
  lemma ProjectlessTaskPassesTaskCheckOnly()
    ensures
      var sprints := map[0 := Sprint(Some(1), Some(0), Some(13), Auto, Planned, Planned)];
      var tasks := map[0 := Task(None, Some(0), None)];
      && CheckTask(sprints, tasks[0]).None?
      && CheckTasksMatchProject(sprints, tasks, 0) == Some(SprintTaskProjectMismatch)
  {
    var tasks := map[0 := Task(None, Some(0), None)];
    assert tasks[0].sprint == Some(0);
  }

  /** An accepted creation keeps both sprint invariants. */
  lemma CreatePreservesInvariants(sprints: Sprints, tasks: Tasks, id: SprintId, s: Sprint, today: Day)
    requires id !in sprints && OneActivePerProject(sprints) && AllDatesValid(sprints)
    requires CreateError(sprints, tasks, id, s, today).None?
    ensures OneActivePerProject(sprints[id := s]) && AllDatesValid(sprints[id := s])
  {
    var after := sprints[id := s];
    ValidatedBy(AllChecks, DurationAndOrder, after, tasks, [id], today, 0);
    ValidatedBy(AllChecks, SingleActive, after, tasks, [id], today, 0);
  }

  /** An accepted task write keeps every task consistent with its sprint. */
  lemma TaskWritePreservesTasks(sprints: Sprints, tasks: Tasks, tid: TaskId, p: TaskPatch)
    requires tid in tasks && TasksValid(sprints, tasks)
    requires SprintKnown(sprints, PatchTask(tasks[tid], p))
    requires TaskWriteError(sprints, tasks[tid], p).None?
    ensures TasksValid(sprints, tasks[tid := PatchTask(tasks[tid], p)])
  {
    if !Touches(p) {
      assert PatchTask(tasks[tid], p) == tasks[tid];
    }
  }

  /** An accepted selection keeps every task consistent with its sprint, and if
      the sprint's tasks matched its project before, they still do. */
  lemma SelectionPreservesTasks(sprints: Sprints, tasks: Tasks, id: SprintId, selection: set<TaskId>)
    requires id in sprints && selection <= tasks.Keys && TasksValid(sprints, tasks)
    requires InverseError(sprints, tasks, id, selection).None?
    ensures TasksValid(sprints, Reassigned(tasks, id, selection))
    ensures CheckTasksMatchProject(sprints, tasks, id).None? ==>
      CheckTasksMatchProject(sprints, Reassigned(tasks, id, selection), id).None?
  {
    var after := Reassigned(tasks, id, selection);
    SelectionApplied(tasks, id, selection);
    forall k | k in after ensures SprintKnown(sprints, after[k]) && CheckTask(sprints, after[k]).None? {
      if k in ToAdd(tasks, id, selection) {
        assert after[k] == tasks[k].(sprint := Some(id));
      }
    }
    if CheckTasksMatchProject(sprints, tasks, id).None? {
      forall k | k in after && after[k].sprint == Some(id) ensures after[k].project == sprints[id].project {
        if k in ToAdd(tasks, id, selection) {
          assert after[k].project == tasks[k].project;
        } else {
          assert after[k] == tasks[k];
        }
      }
    }
  }

  /** The suggested deadline keeps every task consistent with its sprint. */
  lemma SuggestionPreservesTasks(sprints: Sprints, tasks: Tasks, tid: TaskId)
    requires tid in tasks && TasksValid(sprints, tasks)
    ensures TasksValid(sprints, tasks[tid := SuggestDeadline(sprints, tasks[tid])])
  {
    SuggestedDeadlinePasses(sprints, tasks[tid]);
  }

  /** The default end date keeps both sprint invariants. */
  lemma DefaultEndPreservesInvariants(sprints: Sprints, id: SprintId)
    requires id in sprints && OneActivePerProject(sprints) && AllDatesValid(sprints)
    ensures OneActivePerProject(sprints[id := DefaultEnd(sprints[id])])
    ensures AllDatesValid(sprints[id := DefaultEnd(sprints[id])])
  {
    DefaultEndWithinLimit(sprints[id]);
  }

  /** An accepted write keeps task and sprint projects in agreement: the guard
      lets a project change through only for sprints no task points at. */
  lemma WritePreservesTaskProjects(sprints: Sprints, tasks: Tasks, ids: seq<SprintId>, p: SprintPatch, today: Day)
    requires InTable(sprints, ids) && TaskProjectsMatch(sprints, tasks)
    requires WriteError(sprints, tasks, ids, p, today).None?
    ensures TaskProjectsMatch(PatchAll(sprints, ids, p, today), tasks)
  {
    var after := PatchAll(sprints, ids, p, today);
    forall k | k in tasks && tasks[k].sprint.Some?
      ensures SprintKnown(after, tasks[k]) && !ProjectMismatch(after, tasks[k])
    {
      var sid := tasks[k].sprint.value;
      assert k in TasksOf(tasks, sid);
      forall i | 0 <= i < |ids| && p.project.Put? ensures ids[i] != sid {
      }
      assert after[sid].project == sprints[sid].project;
    }
  }

  /** An accepted selection keeps task and sprint projects in agreement, and
      keeps every sprint's tasks within its project if they were before: added
      tasks are of the sprint's project, and the others lose their sprint or
      keep it. */
  lemma SelectionPreservesProjects(sprints: Sprints, tasks: Tasks, id: SprintId, selection: set<TaskId>)
    requires id in sprints && selection <= tasks.Keys && TaskProjectsMatch(sprints, tasks)
    requires InverseError(sprints, tasks, id, selection).None?
    ensures TaskProjectsMatch(sprints, Reassigned(tasks, id, selection))
    ensures SprintTasksMatch(sprints, tasks) ==> SprintTasksMatch(sprints, Reassigned(tasks, id, selection))
  {
    var after := Reassigned(tasks, id, selection);
    forall k | k in after && after[k].sprint.Some?
      ensures SprintKnown(sprints, after[k]) && !ProjectMismatch(sprints, after[k])
    {
      if k in ToAdd(tasks, id, selection) {
        assert after[k].project == sprints[id].project;
      }
    }
    if SprintTasksMatch(sprints, tasks) {
      forall s | s in sprints ensures CheckTasksMatchProject(sprints, after, s).None? {
        assert CheckTasksMatchProject(sprints, tasks, s).None?;
        forall k | k in after && after[k].sprint == Some(s) && sprints[s].project.Some?
          ensures after[k].project == sprints[s].project
        {
          if k in ToAdd(tasks, id, selection) {
            assert after[k].project == tasks[k].project;
          } else {
            assert after[k] == tasks[k];
          }
        }
      }
    }
  }

  /** An accepted write or creation of one task keeps task and sprint projects
      in agreement, and keeps every sprint's tasks within its project when the
      task has a project or no sprint. */
  lemma PutTaskPreservesProjects(sprints: Sprints, tasks: Tasks, tid: TaskId, t: Task)
    requires TaskProjectsMatch(sprints, tasks)
    requires SprintKnown(sprints, t) && CheckTask(sprints, t).None?
    ensures TaskProjectsMatch(sprints, tasks[tid := t])
    ensures SprintTasksMatch(sprints, tasks) && (t.project.Some? || t.sprint.None?) ==>
      SprintTasksMatch(sprints, tasks[tid := t])
  {
    var after := tasks[tid := t];
    if SprintTasksMatch(sprints, tasks) && (t.project.Some? || t.sprint.None?) {
      forall s | s in sprints ensures CheckTasksMatchProject(sprints, after, s).None? {
        assert CheckTasksMatchProject(sprints, tasks, s).None?;
        forall k | k in after && after[k].sprint == Some(s) && sprints[s].project.Some?
          ensures after[k].project == sprints[s].project
        {
          if k != tid {
            assert after[k] == tasks[k];
          }
        }
      }
    }
  }

  /** A new sprint under a fresh id changes no task's sprint, so task and
      sprint projects stay in agreement and every sprint's tasks stay within
      its project. */
  lemma CreatePreservesProjects(sprints: Sprints, tasks: Tasks, id: SprintId, s: Sprint)
    requires id !in sprints && Linked(sprints, tasks)
    requires TaskProjectsMatch(sprints, tasks)
    ensures TaskProjectsMatch(sprints[id := s], tasks)
    ensures SprintTasksMatch(sprints, tasks) ==> SprintTasksMatch(sprints[id := s], tasks)
  {
    var after := sprints[id := s];
    assert TasksOf(tasks, id) == {};
    if SprintTasksMatch(sprints, tasks) {
      forall k | k in after ensures CheckTasksMatchProject(after, tasks, k).None? {
        if k != id {
          assert CheckTasksMatchProject(sprints, tasks, k).None?;
        }
      }
    }
  }

  /** The default end date changes no project, so both project rules are kept. */
  lemma DefaultEndPreservesProjects(sprints: Sprints, tasks: Tasks, id: SprintId)
    requires id in sprints
    ensures TaskProjectsMatch(sprints, tasks) ==> TaskProjectsMatch(sprints[id := DefaultEnd(sprints[id])], tasks)
    ensures SprintTasksMatch(sprints, tasks) ==> SprintTasksMatch(sprints[id := DefaultEnd(sprints[id])], tasks)
  {
    var after := sprints[id := DefaultEnd(sprints[id])];
    if SprintTasksMatch(sprints, tasks) {
      forall s | s in after ensures CheckTasksMatchProject(after, tasks, s).None? {
        assert CheckTasksMatchProject(sprints, tasks, s).None?;
      }
    }
  }

  /** The suggested deadline changes no task's project or sprint, so both
      project rules are kept. */
  lemma SuggestionPreservesProjects(sprints: Sprints, tasks: Tasks, tid: TaskId)
    requires tid in tasks && SprintKnown(sprints, tasks[tid])
    ensures TaskProjectsMatch(sprints, tasks) ==>
      TaskProjectsMatch(sprints, tasks[tid := SuggestDeadline(sprints, tasks[tid])])
    ensures SprintTasksMatch(sprints, tasks) ==>
      SprintTasksMatch(sprints, tasks[tid := SuggestDeadline(sprints, tasks[tid])])
  {
    var after := tasks[tid := SuggestDeadline(sprints, tasks[tid])];
    if SprintTasksMatch(sprints, tasks) {
      forall s | s in sprints ensures CheckTasksMatchProject(sprints, after, s).None? {
        assert CheckTasksMatchProject(sprints, tasks, s).None?;
        assert TasksOf(after, s) == TasksOf(tasks, s);
      }
    }
  }
}
