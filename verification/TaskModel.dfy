/** The task record that the scheduler, the task store and the dashboard share. */
module TaskModel {
  import opened Collections

  datatype TaskStatus =
    | Draft
    | Ready
    | Resuming
    | Working
    | Paused
    | Blocked
    | Done
    | Removed

  /** Timestamps are numbers: ISO strings of one format order the way their instants do. */
  datatype Task = Task(
    id: string,
    repoId: string,
    changePath: string,
    worktreePath: Option<string>,
    status: TaskStatus,
    readyAt: Option<int>,
    preferredWorkflow: Option<string>,
    baseBranch: Option<string>,
    preferredProvider: Option<string>,
    retryFromStep: Option<string>,
    resumeInput: Option<string>,
    createdAt: int,
    updatedAt: int)

  /** The task cache: entries in insertion order, one per id. */
  type Snapshot = seq<Task>

  ghost predicate DistinctIds(tasks: Snapshot) {
    forall i, j :: 0 <= i < j < |tasks| ==> tasks[i].id != tasks[j].id
  }

  function IndexOfId(tasks: Snapshot, id: string): (r: Option<nat>)
    ensures r.None? ==> forall i :: 0 <= i < |tasks| ==> tasks[i].id != id
    ensures r.Some? ==> r.value < |tasks| && tasks[r.value].id == id
  {
    if tasks == [] then None
    else if tasks[0].id == id then Some(0)
    else
      match IndexOfId(tasks[1..], id)
      case None => None
      case Some(i) => Some(i + 1)
  }

  /** `cache.get(id)`. */
  function Lookup(tasks: Snapshot, id: string): Option<Task> {
    match IndexOfId(tasks, id)
    case None => None
    case Some(i) => Some(tasks[i])
  }

  lemma LookupAt(tasks: Snapshot, i: nat)
    requires DistinctIds(tasks) && i < |tasks|
    ensures IndexOfId(tasks, tasks[i].id) == Some(i)
    ensures Lookup(tasks, tasks[i].id) == Some(tasks[i])
  {
  }
}
