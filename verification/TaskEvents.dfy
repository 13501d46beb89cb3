/** The events that a cache refresh emits: the difference between two snapshots. */
module TaskEvents {
  import opened Collections
  import opened TaskModel

  datatype TaskEvent =
    | TaskCreated(task: Task)
    | TaskStatusChanged(taskId: string, previousStatus: TaskStatus, newStatus: TaskStatus)
    | TaskRemoved(taskId: string)

  /** `emitSnapshotTask`: created, changed, or nothing to say. */
  function EventsFor(prior: Snapshot, task: Task): seq<TaskEvent> {
    match Lookup(prior, task.id)
    case None => [TaskCreated(task)]
    case Some(previous) =>
      if previous.status != task.status then [TaskStatusChanged(task.id, previous.status, task.status)] else []
  }

  function ChangeEvents(prior: Snapshot, next: Snapshot): seq<TaskEvent> {
    if next == [] then [] else ChangeEvents(prior, next[..|next| - 1]) + EventsFor(prior, Last(next))
  }

  function RemovalEvents(prior: Snapshot, next: Snapshot): seq<TaskEvent> {
    if prior == [] then []
    else
      RemovalEvents(prior[..|prior| - 1], next)
      + if Lookup(next, Last(prior).id).None? then [TaskRemoved(Last(prior).id)] else []
  }

  /** First what is new or changed, then what is gone. */
  function SnapshotEvents(prior: Snapshot, next: Snapshot): seq<TaskEvent> {
    ChangeEvents(prior, next) + RemovalEvents(prior, next)
  }

  lemma {:induction false} NoChangesNoEvents(prior: Snapshot, next: Snapshot)
    requires forall i :: 0 <= i < |next| ==> Lookup(prior, next[i].id) == Some(next[i])
    ensures ChangeEvents(prior, next) == []
  {
    if next != [] {
      NoChangesNoEvents(prior, next[..|next| - 1]);
    }
  }

  lemma {:induction false} NothingGoneNoEvents(prior: Snapshot, next: Snapshot)
    requires forall i :: 0 <= i < |prior| ==> Lookup(next, prior[i].id).Some?
    ensures RemovalEvents(prior, next) == []
  {
    if prior != [] {
      NothingGoneNoEvents(prior[..|prior| - 1], next);
    }
  }

  /** A snapshot that does not change emits nothing. */
  lemma SameSnapshotEmitsNothing(tasks: Snapshot)
    requires DistinctIds(tasks)
    ensures SnapshotEvents(tasks, tasks) == []
  {
    forall i | 0 <= i < |tasks| ensures Lookup(tasks, tasks[i].id) == Some(tasks[i]) {
      LookupAt(tasks, i);
    }
    NoChangesNoEvents(tasks, tasks);
    NothingGoneNoEvents(tasks, tasks);
  }

  ghost predicate SaidOfSome(prior: Snapshot, next: Snapshot, event: TaskEvent) {
    exists i :: 0 <= i < |next| && event in EventsFor(prior, next[i])
  }

  lemma SaidOfSomeSnoc(prior: Snapshot, front: Snapshot, last: Task, event: TaskEvent)
    ensures SaidOfSome(prior, front + [last], event)
       <==> SaidOfSome(prior, front, event) || event in EventsFor(prior, last)
  {
    var next := front + [last];
    if i :| 0 <= i < |front| && event in EventsFor(prior, front[i]) {
      assert next[i] == front[i];
    }
    if event in EventsFor(prior, last) {
      assert next[|front|] == last;
    }
  }

  lemma {:induction false} ChangeEventsExactly(prior: Snapshot, next: Snapshot, event: TaskEvent)
    ensures event in ChangeEvents(prior, next) <==> SaidOfSome(prior, next, event)
  {
    if next != [] {
      var front := next[..|next| - 1];
      ChangeEventsExactly(prior, front, event);
      SaidOfSomeSnoc(prior, front, Last(next), event);
      assert next == front + [Last(next)];
    }
  }

  lemma {:induction false} RemovalEventsExactly(prior: Snapshot, next: Snapshot, event: TaskEvent)
    ensures event in RemovalEvents(prior, next)
       <==> exists i :: 0 <= i < |prior| && Lookup(next, prior[i].id).None? && event == TaskRemoved(prior[i].id)
  {
    if prior != [] {
      var front := prior[..|prior| - 1];
      RemovalEventsExactly(front, next, event);
      if i :| 0 <= i < |front| && Lookup(next, front[i].id).None? && event == TaskRemoved(front[i].id) {
        assert Lookup(next, prior[i].id).None?;
      }
      if i :| 0 <= i < |prior| && Lookup(next, prior[i].id).None? && event == TaskRemoved(prior[i].id) && i < |front| {
        assert Lookup(next, front[i].id).None?;
      }
      if Lookup(next, Last(prior).id).None? {
        assert Lookup(next, prior[|prior| - 1].id).None?;
      }
    }
  }

  /** An event is sent exactly when it is true of the two snapshots. */
  lemma EventsAreExact(prior: Snapshot, next: Snapshot, event: TaskEvent)
    requires DistinctIds(prior) && DistinctIds(next)
    ensures event in SnapshotEvents(prior, next)
       <==> match event
            case TaskCreated(task) => Lookup(prior, task.id).None? && Lookup(next, task.id) == Some(task)
            case TaskStatusChanged(id, previousStatus, newStatus) =>
              && previousStatus != newStatus
              && Lookup(prior, id).Some? && Lookup(prior, id).value.status == previousStatus
              && Lookup(next, id).Some? && Lookup(next, id).value.status == newStatus
            case TaskRemoved(id) => Lookup(prior, id).Some? && Lookup(next, id).None?
  {
    ChangeEventsExactly(prior, next, event);
    RemovalEventsExactly(prior, next, event);
    match event
    case TaskCreated(task) => CreatedExactly(prior, next, task);
    case TaskStatusChanged(id, previousStatus, newStatus) =>
      ChangedExactly(prior, next, id, previousStatus, newStatus);
    case TaskRemoved(id) =>
      if Lookup(prior, id).Some? {
        assert prior[IndexOfId(prior, id).value].id == id;
      }
      forall i | 0 <= i < |prior| && prior[i].id == id ensures Lookup(prior, id).Some? {
        LookupAt(prior, i);
      }
  }

  lemma CreatedExactly(prior: Snapshot, next: Snapshot, task: Task)
    requires DistinctIds(next)
    ensures SaidOfSome(prior, next, TaskCreated(task))
       <==> Lookup(prior, task.id).None? && Lookup(next, task.id) == Some(task)
  {
    forall i | 0 <= i < |next| && TaskCreated(task) in EventsFor(prior, next[i])
      ensures next[i] == task && Lookup(next, task.id) == Some(task)
    {
      LookupAt(next, i);
    }
    if Lookup(prior, task.id).None? && Lookup(next, task.id) == Some(task) {
      assert TaskCreated(task) in EventsFor(prior, next[IndexOfId(next, task.id).value]);
    }
  }

  lemma ChangedExactly(
    prior: Snapshot, next: Snapshot, id: string, previousStatus: TaskStatus, newStatus: TaskStatus)
    requires DistinctIds(next)
    ensures SaidOfSome(prior, next, TaskStatusChanged(id, previousStatus, newStatus))
       <==> && previousStatus != newStatus
            && Lookup(prior, id).Some? && Lookup(prior, id).value.status == previousStatus
            && Lookup(next, id).Some? && Lookup(next, id).value.status == newStatus
  {
    forall i | 0 <= i < |next| && TaskStatusChanged(id, previousStatus, newStatus) in EventsFor(prior, next[i])
      ensures Lookup(next, id) == Some(next[i]) && next[i].status == newStatus
    {
      LookupAt(next, i);
    }
    if Lookup(prior, id).Some? && Lookup(next, id).Some? {
      var task := next[IndexOfId(next, id).value];
      if Lookup(prior, id).value.status == previousStatus && task.status == newStatus && previousStatus != newStatus {
        assert TaskStatusChanged(id, previousStatus, newStatus) in EventsFor(prior, task);
      }
    }
  }
}
