/** The CRUD helpers of the task service: total functions that build new
    records and new lists and never change their arguments. */
module TaskService {
  import opened Subsequences

  /** A stored task. The fields are those of the component's task record plus
      `createdAt`, which the service adds and omits from new tasks. The
      instant `createdAt` holds is kept only as its millisecond value. */
  datatype Task = Task(id: int, title: string, description: string, completed: bool, createdAt: int)

  /** What a caller hands to `AddTask`: a task without `id` and `createdAt`. */
  datatype NewTask = NewTask(title: string, description: string, completed: bool)

  /** The part of a task that `AddTask` copies from its argument. */
  function Omit(t: Task): NewTask
  {
    NewTask(t.title, t.description, t.completed)
  }

  /** Builds the record for a new task; `clock` stands for the id read from the
      clock and `now` for the creation instant, two separate readings. */
  function AddTask(task: NewTask, clock: int, now: int): (r: Task)
    ensures Omit(r) == task
    ensures r.id == clock && r.createdAt == now
  {
    Task(clock, task.title, task.description, task.completed, now)
  }

  /** A task is determined by its copied part, its id and its creation instant. */
  lemma AddTaskOmitInverse(t: Task)
    ensures AddTask(Omit(t), t.id, t.createdAt) == t
  {
  }

  /** Does any task carry this id? */
  predicate HasId(tasks: seq<Task>, id: int)
  {
    exists i :: 0 <= i < |tasks| && tasks[i].id == id
  }

  /** Replaces every task whose id is that of `updated` by `updated`. */
  function UpdateTask(tasks: seq<Task>, updated: Task): (r: seq<Task>)
    ensures |r| == |tasks|
    ensures forall i :: 0 <= i < |tasks| ==>
      r[i] == if tasks[i].id == updated.id then updated else tasks[i]
    ensures forall i :: 0 <= i < |tasks| ==> r[i].id == tasks[i].id
    ensures !HasId(tasks, updated.id) ==> r == tasks
  {
    if tasks == [] then []
    else [if tasks[0].id == updated.id then updated else tasks[0]] + UpdateTask(tasks[1..], updated)
  }

  /** Updating twice with the same record is the same as updating once. */
  lemma UpdateTaskIdempotent(tasks: seq<Task>, updated: Task)
    ensures UpdateTask(UpdateTask(tasks, updated), updated) == UpdateTask(tasks, updated)
  {
  }

  /** The record ends up in the list exactly when some task carries its id
      (a task equal to the record already carries that id). */
  lemma UpdateTaskContains(tasks: seq<Task>, updated: Task)
    ensures updated in UpdateTask(tasks, updated) <==> HasId(tasks, updated.id)
  {
  }

  /** Number of tasks carrying this id. */
  function CountWithId(tasks: seq<Task>, id: int): (n: nat)
    ensures n <= |tasks|
    ensures n == 0 <==> !HasId(tasks, id)
  {
    if tasks == [] then 0
    else (if tasks[0].id == id then 1 else 0) + CountWithId(tasks[1..], id)
  }

  /** Keeps the tasks whose id differs from `id`, in their order. */
  function DeleteTask(tasks: seq<Task>, id: int): (r: seq<Task>)
    ensures forall t :: t in r <==> t in tasks && t.id != id
    ensures !HasId(r, id)
    ensures IsSubsequence(r, tasks)
    ensures |r| == |tasks| - CountWithId(tasks, id)
    ensures !HasId(tasks, id) ==> r == tasks
  {
    if tasks == [] then []
    else if tasks[0].id == id then DeleteTask(tasks[1..], id)
    else [tasks[0]] + DeleteTask(tasks[1..], id)
  }

  /** An id-free subsequence of `tasks` is at most as long as the tasks
      without that id. */
  lemma {:induction false} IdFreeSubsequenceBound(r: seq<Task>, tasks: seq<Task>, id: int)
    requires IsSubsequence(r, tasks) && !HasId(r, id)
    ensures |r| <= |tasks| - CountWithId(tasks, id)
    decreases |tasks|
  {
    if tasks == [] {
    } else if r == [] {
    } else if r[0] == tasks[0] {
      assert !HasId(r[1..], id) by {
        forall i | 0 <= i < |r[1..]| ensures r[1..][i].id != id {
          assert r[1..][i] == r[i + 1];
        }
      }
      assert r[0].id != id;
      IdFreeSubsequenceBound(r[1..], tasks[1..], id);
    } else {
      IdFreeSubsequenceBound(r, tasks[1..], id);
    }
  }

  /** `DeleteTask` is characterised by its contract: the only order-preserving
      selection from `tasks` that avoids `id` and drops nothing else. */
  lemma {:induction false} DeleteTaskUnique(r: seq<Task>, tasks: seq<Task>, id: int)
    requires IsSubsequence(r, tasks) && !HasId(r, id)
    requires |r| == |tasks| - CountWithId(tasks, id)
    ensures r == DeleteTask(tasks, id)
    decreases |tasks|
  {
    if tasks == [] {
    } else if tasks[0].id == id {
      if r != [] {
        assert r[0] != tasks[0] by {
          assert r[0].id != id;
        }
        DeleteTaskUnique(r, tasks[1..], id);
      }
    } else if r == [] {
      assert false;
    } else if r[0] == tasks[0] {
      assert !HasId(r[1..], id) by {
        forall i | 0 <= i < |r[1..]| ensures r[1..][i].id != id {
          assert r[1..][i] == r[i + 1];
        }
      }
      DeleteTaskUnique(r[1..], tasks[1..], id);
      assert r == [r[0]] + r[1..];
    } else {
      IdFreeSubsequenceBound(r, tasks[1..], id);
    }
  }

  /** Deleting the same id twice is the same as deleting it once. */
  lemma DeleteTaskIdempotent(tasks: seq<Task>, id: int)
    ensures DeleteTask(DeleteTask(tasks, id), id) == DeleteTask(tasks, id)
  {
  }

  /** A copy of the task with `completed` inverted. */
  function ToggleComplete(task: Task): (r: Task)
    ensures r.completed == !task.completed
    ensures r.(completed := task.completed) == task
  {
    task.(completed := !task.completed)
  }

  /** Toggling twice gives back the original task. */
  lemma ToggleCompleteInvolutive(task: Task)
    ensures ToggleComplete(ToggleComplete(task)) == task
  {
  }
}
