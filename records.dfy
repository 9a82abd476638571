/** The records of the sprint add-on: sprints and tasks held in two tables,
    keyed by their database ids, and the validation errors the add-on raises.
    Dates are day numbers; a field that may be empty in the source is an Option. */
module Records {

  datatype Option<T> = None | Some(value: T)

  /** Whether a write's values name a field (Put) or leave it alone (Keep). */
  datatype Update<T> = Keep | Put(value: T)

  function Pick<T>(u: Update<T>, current: T): T
  {
    if u.Put? then u.value else current
  }

  type SprintId = nat
  type TaskId = nat
  type ProjectId = nat

  /** A calendar date as a day number. */
  type Day = int

  datatype State = Planned | Active | Done

  /** The discriminant of the sprint state: derived from the dates, or taken from `manual`. */
  datatype Mode = Auto | Manual

  /** A sprint record. `state` is the stored value of the computed field: it is
      recomputed only when one of its inputs is written, not as days pass. */
  datatype Sprint = Sprint(
    project: Option<ProjectId>,
    start: Option<Day>,
    end: Option<Day>,
    mode: Mode,
    manual: State,
    state: State)

  /** The part of a task record that the add-on reads or writes. */
  datatype Task = Task(
    project: Option<ProjectId>,
    sprint: Option<SprintId>,
    deadline: Option<Day>)

  type Sprints = map<SprintId, Sprint>
  type Tasks = map<TaskId, Task>

  /** Every validation rejection the add-on raises, one constructor per message. */
  datatype Error =
    | NoProjectForTasks
    | TaskOfOtherProject
    | SprintTaskProjectMismatch
    | EndBeforeStart
    | SprintTooLong
    | PastSprintPlannedOrActive
    | SecondActiveSprint
    | ProjectChangeWithTasks
    | ProjectChangeWhenStarted
    | TaskSprintProjectMismatch
    | DeadlineAfterSprintEnd

  /** The user-facing text of each rejection (the deadline message leaves out the two dates). */
  function Message(e: Error): string
  {
    match e
    case NoProjectForTasks => NoProjectForTasksText
    case TaskOfOtherProject => TaskOfOtherProjectText
    case SprintTaskProjectMismatch => SprintTaskProjectMismatchText
    case EndBeforeStart => EndBeforeStartText
    case SprintTooLong => SprintTooLongText
    case PastSprintPlannedOrActive => PastSprintPlannedOrActiveText
    case SecondActiveSprint => SecondActiveSprintText
    case ProjectChangeWithTasks => ProjectChangeWithTasksText
    case ProjectChangeWhenStarted => ProjectChangeWhenStartedText
    case TaskSprintProjectMismatch => TaskSprintProjectMismatchText
    case DeadlineAfterSprintEnd => DeadlineAfterSprintEndText
  }

  const NoProjectForTasksText: string := "Please select a Project before adding tasks to the sprint."
  const TaskOfOtherProjectText: string := "You can only add tasks from the project assigned to the sprint."
  const SprintTaskProjectMismatchText: string := "All tasks in the sprint must belong to the assigned project in the same sprint."
  const EndBeforeStartText: string := "Sprint end date cannot be before the start date."
  const SprintTooLongText: string := "Sprint duration cannot exceed 4 weeks (28 days)."
  const PastSprintPlannedOrActiveText: string := "A sprint whose end date is in the past cannot be set to Planned or Active."
  const SecondActiveSprintText: string := "Only one active sprint is allowed per project."
  const ProjectChangeWithTasksText: string := "You cannot change the Project of the sprint once it has tasks."
  const ProjectChangeWhenStartedText: string := "You cannot change the Project of the sprint once it is Active or Done."
  const TaskSprintProjectMismatchText: string := "A task can only be assigned to a sprint belonging to the same project.\n\n" + "Please update either the task's project or the assigned sprint to ensure they match."
  const DeadlineAfterSprintEndText: string := "The task deadline falls outside the sprint period.\n\n" + "Please set a deadline on or before the sprint's end date."

  /** No two rejections share a text, so the message tells which rule failed. */
  lemma MessagesDistinct(e: Error, e': Error)
    ensures Message(e) == Message(e') ==> e == e'
  {
  }

  /** The error a run of checks raises: the first one that fails, as a loop that
      raises on the first violation does. */
  function First(rs: seq<Option<Error>>): (r: Option<Error>)
    ensures r.None? <==> forall i | 0 <= i < |rs| :: rs[i].None?
    ensures r.Some? ==> exists i | 0 <= i < |rs| :: rs[i] == r && forall j | 0 <= j < i :: rs[j].None?
  {
    if |rs| == 0 then None
    else if rs[0].Some? then rs[0]
    else
      var r := First(rs[1..]);
      assert r.Some? ==> exists i | 1 <= i < |rs| :: rs[i] == r && forall j | 0 <= j < i :: rs[j].None? by {
        if r.Some? {
          var i :| 0 <= i < |rs| - 1 && rs[1..][i] == r && forall j | 0 <= j < i :: rs[1..][j].None?;
          assert rs[i + 1] == r;
          forall j | 0 <= j < i + 1 ensures rs[j].None? {
            if j > 0 { assert rs[j] == rs[1..][j - 1]; }
          }
        }
      }
      r
  }

  /** The check at index i is the first to fail, so it is the one raised. */
  lemma {:induction false} FirstAt(rs: seq<Option<Error>>, i: nat)
    requires i < |rs| && rs[i].Some?
    requires forall j | 0 <= j < i :: rs[j].None?
    ensures First(rs) == rs[i]
  {
    if i > 0 {
      assert rs[0].None?;
      FirstAt(rs[1..], i - 1);
    }
  }

  /** The tasks whose sprint is `id`: the reverse relation of a task's sprint. */
  function TasksOf(tasks: Tasks, id: SprintId): (r: set<TaskId>)
    ensures forall k :: k in r <==> k in tasks && tasks[k].sprint == Some(id)
  {
    set k | k in tasks && tasks[k].sprint == Some(id)
  }

  /** Referential integrity the datastore keeps: a task's sprint exists. */
  ghost predicate Linked(sprints: Sprints, tasks: Tasks)
  {
    forall k | k in tasks && tasks[k].sprint.Some? :: tasks[k].sprint.value in sprints
  }

  /** Every id of a recordset names a sprint of the table. */
  predicate InTable(sprints: Sprints, ids: seq<SprintId>)
  {
    forall i | 0 <= i < |ids| :: ids[i] in sprints
  }
}
