/** The task side of the add-on (project_task.py): the consistency check a task
    must pass whenever its sprint, deadline or project is written, and the
    deadline the form suggests when a sprint is picked. */
module TaskRules {
  import opened Records

  /** The task's sprint, if it has one, exists in the table. */
  predicate SprintKnown(sprints: Sprints, t: Task)
  {
    t.sprint.Some? ==> t.sprint.value in sprints
  }

  /** Task project and sprint project are both set and differ. */
  predicate ProjectMismatch(sprints: Sprints, t: Task)
    requires SprintKnown(sprints, t) && t.sprint.Some?
  {
    var s := sprints[t.sprint.value];
    t.project.Some? && s.project.Some? && t.project != s.project
  }

  /** The deadline is set and falls strictly after the sprint's (set) end date. */
  predicate DeadlineLate(sprints: Sprints, t: Task)
    requires SprintKnown(sprints, t) && t.sprint.Some?
  {
    var s := sprints[t.sprint.value];
    t.deadline.Some? && s.end.Some? && t.deadline.value > s.end.value
  }

  /** The task constraint: a task without sprint always passes; otherwise the
      project mismatch is looked at first, then the deadline. */
  function CheckTask(sprints: Sprints, t: Task): (r: Option<Error>)
    requires SprintKnown(sprints, t)
    ensures t.sprint.None? ==> r.None?
    ensures t.sprint.Some? ==> (r == Some(TaskSprintProjectMismatch) <==> ProjectMismatch(sprints, t))
    ensures t.sprint.Some? ==>
      (r == Some(DeadlineAfterSprintEnd) <==> !ProjectMismatch(sprints, t) && DeadlineLate(sprints, t))
    ensures r.None? <==> t.sprint.None? || (!ProjectMismatch(sprints, t) && !DeadlineLate(sprints, t))
  {
    if t.sprint.None? then None
    else
      var s := sprints[t.sprint.value];
      if t.project.Some? && s.project.Some? && t.project != s.project then
        Some(TaskSprintProjectMismatch)
      else if t.deadline.Some? && s.end.Some? && t.deadline.value > s.end.value then
        Some(DeadlineAfterSprintEnd)
      else
        None
  }

  /** A deadline equal to the sprint's end date is accepted: the bound is inclusive. */
  lemma DeadlineOnSprintEndAccepted(sprints: Sprints, t: Task)
    requires SprintKnown(sprints, t) && t.sprint.Some? && !ProjectMismatch(sprints, t)
    requires t.deadline.Some? && t.deadline == sprints[t.sprint.value].end
    ensures CheckTask(sprints, t).None?
  {
  }

  /** When both rules fail, the project mismatch is the error raised. */
  lemma MismatchReportedBeforeDeadline(sprints: Sprints, t: Task)
    requires SprintKnown(sprints, t) && t.sprint.Some?
    requires ProjectMismatch(sprints, t) && DeadlineLate(sprints, t)
    ensures CheckTask(sprints, t) == Some(TaskSprintProjectMismatch)
  {
  }

  /** The sprint onchange: fill an empty deadline with the sprint's end date. */
  function SuggestDeadline(sprints: Sprints, t: Task): (r: Task)
    requires SprintKnown(sprints, t)
    ensures r.project == t.project && r.sprint == t.sprint
    ensures t.deadline.Some? ==> r.deadline == t.deadline
    ensures r.deadline != t.deadline <==>
      t.sprint.Some? && t.deadline.None? && sprints[t.sprint.value].end.Some?
    ensures r.deadline != t.deadline ==> r.deadline == sprints[t.sprint.value].end
  {
    if t.sprint.Some? && t.deadline.None? && sprints[t.sprint.value].end.Some? then
      t.(deadline := sprints[t.sprint.value].end)
    else
      t
  }

  /** The suggested deadline never makes the task check fail: whatever the check
      said before the suggestion, it says after it. */
  lemma SuggestedDeadlinePasses(sprints: Sprints, t: Task)
    requires SprintKnown(sprints, t)
    ensures SprintKnown(sprints, SuggestDeadline(sprints, t))
    ensures CheckTask(sprints, SuggestDeadline(sprints, t)) == CheckTask(sprints, t)
    ensures t.sprint.Some? && !ProjectMismatch(sprints, t) && t.deadline.None? ==>
      CheckTask(sprints, SuggestDeadline(sprints, t)).None?
  {
  }

  /** The values of a task write; every field here is one the task check watches. */
  datatype TaskPatch = TaskPatch(
    project: Update<Option<ProjectId>>,
    sprint: Update<Option<SprintId>>,
    deadline: Update<Option<Day>>)

  predicate Touches(p: TaskPatch)
  {
    p.project.Put? || p.sprint.Put? || p.deadline.Put?
  }

  function PatchTask(t: Task, p: TaskPatch): Task
  {
    Task(Pick(p.project, t.project), Pick(p.sprint, t.sprint), Pick(p.deadline, t.deadline))
  }

  /** The error a task write raises: the task check on the written record, run
      when the write names a watched field. */
  function TaskWriteError(sprints: Sprints, t: Task, p: TaskPatch): (r: Option<Error>)
    requires SprintKnown(sprints, PatchTask(t, p))
    ensures r.None? <==> !Touches(p) || CheckTask(sprints, PatchTask(t, p)).None?
    ensures r.Some? ==> r == CheckTask(sprints, PatchTask(t, p))
  {
    if Touches(p) then CheckTask(sprints, PatchTask(t, p)) else None
  }
}
