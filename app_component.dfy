/** The task editor of the to-do page: a list of task objects, two form fields
    and an optional reference to the task being edited. Task objects are
    shared between the list and the edit target, so changing one through
    `editingTask` changes the list entry it aliases. */
module App {
  import opened Subsequences

  /** The contents of a task at one instant. */
  datatype TaskValue = TaskValue(id: int, title: string, description: string, completed: bool)

  /** A task record as the page holds it: an object whose fields are
      assigned in place. */
  class Task {
    var id: int
    var title: string
    var description: string
    var completed: bool

    constructor (id: int, title: string, description: string, completed: bool)
      ensures Value() == TaskValue(id, title, description, completed)
    {
      this.id := id;
      this.title := title;
      this.description := description;
      this.completed := completed;
    }

    function Value(): TaskValue
      reads this
    {
      TaskValue(id, title, description, completed)
    }
  }

  /** The contents of a list of task objects, position by position. */
  function Values(ts: seq<Task>): (r: seq<TaskValue>)
    reads ts
    ensures |r| == |ts|
    ensures forall i :: 0 <= i < |ts| ==> r[i] == ts[i].Value()
  {
    if ts == [] then [] else [ts[0].Value()] + Values(ts[1..])
  }

  /** The task objects whose id differs from `id`, in their order. */
  function Remaining(ts: seq<Task>, id: int): (r: seq<Task>)
    reads ts
    ensures forall i :: 0 <= i < |r| ==> r[i] in ts && r[i].id != id
    ensures forall i :: 0 <= i < |ts| && ts[i].id != id ==> ts[i] in r
    ensures IsSubsequence(r, ts)
    ensures |r| <= |ts|
    ensures (forall i :: 0 <= i < |ts| ==> ts[i].id != id) ==> r == ts
  {
    if ts == [] then []
    else if ts[0].id == id then Remaining(ts[1..], id)
    else [ts[0]] + Remaining(ts[1..], id)
  }

  class AppComponent {
    var tasks: seq<Task>
    var taskTitle: string
    var taskDescription: string
    /** The task being edited, or null. It may be an object that is no longer
        in `tasks`: deleting the edited task does not clear it. */
    var editingTask: Task?

    /** Each task object occurs in the list at most once, so a change made
        through one object reaches exactly one list position. */
    ghost predicate Valid()
      reads this
    {
      Distinct(tasks)
    }

    /** Starts with empty form fields and the tasks that loading from storage
        produced: `loaded` is the decoded list, or empty when the stored text
        is missing or empty. A parse failure, which would throw, is not
        modelled. Each entry becomes a new object. */
    constructor (loaded: seq<TaskValue>)
      ensures Valid()
      ensures Values(tasks) == loaded
      ensures forall t :: t in tasks ==> fresh(t)
      ensures taskTitle == "" && taskDescription == "" && editingTask == null
    {
      var ts: seq<Task> := [];
      var i := 0;
      while i < |loaded|
        invariant 0 <= i <= |loaded|
        invariant |ts| == i
        invariant forall k :: 0 <= k < i ==> fresh(ts[k]) && ts[k].Value() == loaded[k]
        invariant Distinct(ts)
      {
        var v := loaded[i];
        var t := new Task(v.id, v.title, v.description, v.completed);
        ts := ts + [t];
        i := i + 1;
      }
      tasks := ts;
      taskTitle := "";
      taskDescription := "";
      editingTask := null;
    }

    /** Without an edit target, appends a new task built from the form and the
        clock reading `clock`. With one, writes the form into that task object
        and drops the target. Either way the form is cleared. */
    method SaveTask(clock: int)
      requires Valid()
      modifies this, editingTask
      ensures Valid()
      ensures taskTitle == "" && taskDescription == "" && editingTask == null
      ensures old(editingTask) == null ==>
        && |tasks| == |old(tasks)| + 1
        && tasks[..|old(tasks)|] == old(tasks)
        && fresh(tasks[|old(tasks)|])
        && Values(tasks) == old(Values(tasks)) + [TaskValue(clock, old(taskTitle), old(taskDescription), false)]
      ensures old(editingTask) != null ==>
        && tasks == old(tasks)
        && old(editingTask).Value()
           == old(editingTask.Value()).(title := old(taskTitle), description := old(taskDescription))
        && forall i :: 0 <= i < |tasks| ==>
             Values(tasks)[i]
             == if tasks[i] == old(editingTask)
                then old(Values(tasks))[i].(title := old(taskTitle), description := old(taskDescription))
                else old(Values(tasks))[i]
      ensures old(editingTask) != null ==>
        forall k, i :: 0 <= k < |tasks| && 0 <= i < |tasks| && tasks[k] == old(editingTask) && i != k ==>
          Values(tasks)[i] == old(Values(tasks))[i]
    {
      if editingTask != null {
        editingTask.title := taskTitle;
        editingTask.description := taskDescription;
        editingTask := null;
      } else {
        var t := new Task(clock, taskTitle, taskDescription, false);
        tasks := tasks + [t];
      }
      ClearForm();
    }

    /** Inverts `completed` of the given task object in place. */
    method ToggleCompletion(task: Task)
      requires Valid()
      modifies task
      ensures Valid()
      ensures task.Value() == old(task.Value()).(completed := !old(task.completed))
      ensures forall i :: 0 <= i < |tasks| ==>
        Values(tasks)[i]
        == if tasks[i] == task
           then old(Values(tasks))[i].(completed := !old(Values(tasks))[i].completed)
           else old(Values(tasks))[i]
      ensures forall k, i :: 0 <= k < |tasks| && 0 <= i < |tasks| && tasks[k] == task && i != k ==>
        Values(tasks)[i] == old(Values(tasks))[i]
    {
      task.completed := !task.completed;
    }

    /** Drops every task whose id is `id`; the form and the edit target stay. */
    method DeleteTask(id: int)
      requires Valid()
      modifies this
      ensures Valid()
      ensures tasks == old(Remaining(tasks, id))
      ensures taskTitle == old(taskTitle) && taskDescription == old(taskDescription)
      ensures editingTask == old(editingTask)
    {
      DistinctSubsequence(Remaining(tasks, id), tasks);
      tasks := Remaining(tasks, id);
    }

    /** Makes `task` the edit target and copies its text into the form. */
    method EditTask(task: Task)
      requires Valid()
      modifies this
      ensures Valid()
      ensures editingTask == task
      ensures taskTitle == task.title && taskDescription == task.description
      ensures tasks == old(tasks)
    {
      editingTask := task;
      taskTitle := task.title;
      taskDescription := task.description;
    }

    /** Clears the form and drops the edit target. */
    method CancelEdit()
      requires Valid()
      modifies this
      ensures Valid()
      ensures taskTitle == "" && taskDescription == "" && editingTask == null
      ensures tasks == old(tasks)
    {
      ClearForm();
      editingTask := null;
    }

    /** Empties both form fields. */
    method ClearForm()
      requires Valid()
      modifies this
      ensures Valid()
      ensures taskTitle == "" && taskDescription == ""
      ensures tasks == old(tasks) && editingTask == old(editingTask)
    {
      taskTitle := "";
      taskDescription := "";
    }
  }

  /** Toggling the same task twice restores it and the whole list. */
  method ToggleCompletionTwice(c: AppComponent, task: Task)
    requires c.Valid()
    modifies task
    ensures task.Value() == old(task.Value())
    ensures Values(c.tasks) == old(Values(c.tasks))
  {
    c.ToggleCompletion(task);
    c.ToggleCompletion(task);
  }

  /** Saving while the edit target has been deleted from the list changes no
      list entry: the edit reaches only the detached object. */
  method SaveAfterDeletingEditTarget(c: AppComponent, task: Task, clock: int)
    requires c.Valid()
    modifies c, task
    ensures c.tasks == old(Remaining(c.tasks, task.id))
    ensures Values(c.tasks) == old(Values(Remaining(c.tasks, task.id)))
  {
    c.EditTask(task);
    c.DeleteTask(task.id);
    ghost var kept := Values(c.tasks);
    assert task !in c.tasks;
    c.SaveTask(clock);
    assert forall i :: 0 <= i < |c.tasks| ==> Values(c.tasks)[i] == kept[i];
  }
}
