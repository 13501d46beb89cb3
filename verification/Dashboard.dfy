/**
 The dashboard's event reducer, and why replaying a refresh's events brings a client from the prior
 snapshot to the new one.
 */
module Dashboard {
  import opened Collections
  import opened TaskModel
  import opened TaskEvents
  import Scheduler

  datatype ClientTask = ClientTask(id: string, status: TaskStatus)

  datatype Client = Client(tasks: seq<ClientTask>, working: nat, max: nat)

  /** `prev.tasks.find((t) => t.id === taskId)?.status`. */
  function StatusIn(tasks: seq<ClientTask>, id: string): Option<TaskStatus> {
    if tasks == [] then None
    else if tasks[0].id == id then Some(tasks[0].status)
    else StatusIn(tasks[1..], id)
  }

  /** `prev.tasks.map(...)`. */
  function WithNewStatus(tasks: seq<ClientTask>, id: string, status: TaskStatus): seq<ClientTask> {
    if tasks == [] then []
    else
      [if tasks[0].id == id then ClientTask(id, status) else tasks[0]] + WithNewStatus(tasks[1..], id, status)
  }

  /** `prev.tasks.filter(...)`. */
  function WithoutTask(tasks: seq<ClientTask>, id: string): seq<ClientTask> {
    if tasks == [] then []
    else (if tasks[0].id == id then [] else [tasks[0]]) + WithoutTask(tasks[1..], id)
  }

  /** `Math.max(0, working - 1)`. */
  function OneLess(working: nat): nat {
    if working == 0 then 0 else working - 1
  }

  function HandleEvent(prev: Client, event: TaskEvent): Client {
    match event
    case TaskCreated(task) => prev.(tasks := prev.tasks + [ClientTask(task.id, task.status)])
    case TaskStatusChanged(taskId, _, newStatus) =>
      prev.(tasks := WithNewStatus(prev.tasks, taskId, newStatus),
            working := if newStatus == Working then prev.working + 1
                       else if StatusIn(prev.tasks, taskId) == Some(Working) then OneLess(prev.working)
                       else prev.working)
    case TaskRemoved(taskId) =>
      prev.(tasks := WithoutTask(prev.tasks, taskId),
            working := if StatusIn(prev.tasks, taskId) == Some(Working) then OneLess(prev.working) else prev.working)
  }

  /** What an event does to the counter, which never goes below zero; the limit stays. */
  lemma CounterExactly(prev: Client, event: TaskEvent)
    ensures var next := HandleEvent(prev, event);
            && next.max == prev.max
            && (event.TaskCreated? ==> next.working == prev.working)
            && (event.TaskStatusChanged? ==>
                  if event.newStatus == Working then next.working == prev.working + 1
                  else if StatusIn(prev.tasks, event.taskId) == Some(Working) && prev.working > 0
                  then next.working == prev.working - 1
                  else next.working == prev.working)
            && (event.TaskRemoved? ==>
                  if StatusIn(prev.tasks, event.taskId) == Some(Working) && prev.working > 0
                  then next.working == prev.working - 1
                  else next.working == prev.working)
  {
  }

  function HandleAll(client: Client, events: seq<TaskEvent>): Client {
    if events == [] then client
    else HandleEvent(HandleAll(client, events[..|events| - 1]), Last(events))
  }

  // ---------------------------------------------------------------------------
  // The client as a map
  // ---------------------------------------------------------------------------

  function StatusMap(tasks: seq<ClientTask>): map<string, TaskStatus> {
    if tasks == [] then map[] else StatusMap(tasks[1..])[tasks[0].id := tasks[0].status]
  }

  /** No id is listed twice. */
  ghost predicate DistinctTasks(tasks: seq<ClientTask>) {
    tasks == [] || (tasks[0].id !in StatusMap(tasks[1..]) && DistinctTasks(tasks[1..]))
  }

  function SnapshotMap(tasks: Snapshot): map<string, TaskStatus> {
    if tasks == [] then map[] else SnapshotMap(tasks[..|tasks| - 1])[Last(tasks).id := Last(tasks).status]
  }

  lemma {:induction false} StatusInMap(tasks: seq<ClientTask>, id: string)
    ensures StatusIn(tasks, id) == if id in StatusMap(tasks) then Some(StatusMap(tasks)[id]) else None
  {
    if tasks != [] {
      StatusInMap(tasks[1..], id);
    }
  }

  lemma {:induction false} AppendMaps(tasks: seq<ClientTask>, task: ClientTask)
    requires DistinctTasks(tasks) && task.id !in StatusMap(tasks)
    ensures StatusMap(tasks + [task]) == StatusMap(tasks)[task.id := task.status]
    ensures DistinctTasks(tasks + [task])
  {
    if tasks == [] {
      assert tasks + [task] == [task];
    } else {
      AppendMaps(tasks[1..], task);
      assert (tasks + [task])[1..] == tasks[1..] + [task];
    }
  }

  lemma SetCommutes<K, V>(base: map<K, V>, a: K, x: V, b: K, y: V)
    requires a != b
    ensures base[a := x][b := y] == base[b := y][a := x]
  {
  }

  lemma ConsMaps(head: ClientTask, rest: seq<ClientTask>)
    ensures StatusMap([head] + rest) == StatusMap(rest)[head.id := head.status]
    ensures DistinctTasks([head] + rest) <==> head.id !in StatusMap(rest) && DistinctTasks(rest)
  {
    assert ([head] + rest)[1..] == rest;
  }

  lemma {:induction false} WithNewStatusMaps(tasks: seq<ClientTask>, id: string, status: TaskStatus)
    requires DistinctTasks(tasks)
    ensures StatusMap(WithNewStatus(tasks, id, status))
         == if id in StatusMap(tasks) then StatusMap(tasks)[id := status] else StatusMap(tasks)
    ensures DistinctTasks(WithNewStatus(tasks, id, status))
  {
    if tasks != [] {
      var head, rest := tasks[0], tasks[1..];
      WithNewStatusMaps(rest, id, status);
      ConsMaps(if head.id == id then ClientTask(id, status) else head, WithNewStatus(rest, id, status));
      if head.id != id && id in StatusMap(rest) {
        SetCommutes(StatusMap(rest), id, status, head.id, head.status);
      }
    }
  }

  lemma {:induction false} WithoutTaskMaps(tasks: seq<ClientTask>, id: string)
    requires DistinctTasks(tasks)
    ensures StatusMap(WithoutTask(tasks, id)) == StatusMap(tasks) - {id}
    ensures DistinctTasks(WithoutTask(tasks, id))
  {
    if tasks != [] {
      WithoutTaskMaps(tasks[1..], id);
      if tasks[0].id == id {
        assert WithoutTask(tasks, id) == WithoutTask(tasks[1..], id);
        assert StatusMap(tasks) - {id} == StatusMap(tasks[1..]) - {id};
      } else {
        assert WithoutTask(tasks, id)[1..] == WithoutTask(tasks[1..], id);
        assert StatusMap(tasks) - {id} == (StatusMap(tasks[1..]) - {id})[tasks[0].id := tasks[0].status];
      }
    }
  }

  lemma {:induction false} SnapshotMapLooksUp(tasks: Snapshot, id: string)
    requires DistinctIds(tasks)
    ensures id in SnapshotMap(tasks) <==> Lookup(tasks, id).Some?
    ensures id in SnapshotMap(tasks) ==> SnapshotMap(tasks)[id] == Lookup(tasks, id).value.status
  {
    if tasks != [] {
      var front := tasks[..|tasks| - 1];
      SnapshotMapLooksUp(front, id);
      var found := IndexOfId(front, id);
      if found.Some? {
        assert tasks[found.value] == front[found.value];
        LookupAt(tasks, found.value);
      } else if Last(tasks).id == id {
        LookupAt(tasks, |tasks| - 1);
      } else {
        forall i | 0 <= i < |tasks| ensures tasks[i].id != id {
          if i < |front| {
            assert front[i].id != id;
          }
        }
      }
    }
  }

  // ---------------------------------------------------------------------------
  // Replay
  // ---------------------------------------------------------------------------

  /** The tasks that work and that the client knew before the refresh. */
  ghost function KnownWorking(statuses: map<string, TaskStatus>, known: set<string>): set<string> {
    set id | id in statuses && statuses[id] == Working && id in known
  }

  /** The client shows `statuses`, and counts exactly the known tasks that work. */
  ghost predicate Shows(client: Client, statuses: map<string, TaskStatus>, known: set<string>) {
    && DistinctTasks(client.tasks)
    && StatusMap(client.tasks) == statuses
    && client.working == |KnownWorking(statuses, known)|
  }

  lemma CreationShows(client: Client, statuses: map<string, TaskStatus>, known: set<string>, task: Task)
    requires Shows(client, statuses, known) && task.id !in statuses && task.id !in known
    ensures Shows(HandleEvent(client, TaskCreated(task)), statuses[task.id := task.status], known)
    ensures HandleEvent(client, TaskCreated(task)).tasks == client.tasks + [ClientTask(task.id, task.status)]
  {
    AppendMaps(client.tasks, ClientTask(task.id, task.status));
    assert KnownWorking(statuses[task.id := task.status], known) == KnownWorking(statuses, known);
  }

  /** The clamp at zero is never reached: a known working task is one of those counted. */
  lemma ChangeShows(
    client: Client, statuses: map<string, TaskStatus>, known: set<string>, id: string, newStatus: TaskStatus)
    requires Shows(client, statuses, known) && id in statuses && id in known
    requires statuses[id] != newStatus
    ensures Shows(HandleEvent(client, TaskStatusChanged(id, statuses[id], newStatus)), statuses[id := newStatus], known)
    ensures newStatus != Working && statuses[id] == Working ==> client.working > 0
  {
    WithNewStatusMaps(client.tasks, id, newStatus);
    StatusInMap(client.tasks, id);
    KnownWorkingAfter(statuses, known, id, newStatus);
  }

  lemma KnownWorkingAfter(statuses: map<string, TaskStatus>, known: set<string>, id: string, newStatus: TaskStatus)
    requires id in statuses && id in known && statuses[id] != newStatus
    ensures var before, after := KnownWorking(statuses, known), KnownWorking(statuses[id := newStatus], known);
            && (newStatus == Working ==> |after| == |before| + 1)
            && (newStatus != Working && statuses[id] == Working ==> |after| + 1 == |before|)
            && (newStatus != Working && statuses[id] != Working ==> |after| == |before|)
  {
    var before := KnownWorking(statuses, known);
    var after := KnownWorking(statuses[id := newStatus], known);
    if newStatus == Working {
      assert after == before + {id};
    } else if statuses[id] == Working {
      assert before == after + {id};
    } else {
      assert after == before;
    }
  }

  lemma RemovalShows(client: Client, statuses: map<string, TaskStatus>, known: set<string>, id: string)
    requires Shows(client, statuses, known) && id in known
    ensures Shows(HandleEvent(client, TaskRemoved(id)), statuses - {id}, known)
    ensures id in statuses && statuses[id] == Working ==> client.working > 0
  {
    WithoutTaskMaps(client.tasks, id);
    StatusInMap(client.tasks, id);
    var before := KnownWorking(statuses, known);
    var after := KnownWorking(statuses - {id}, known);
    if id in statuses && statuses[id] == Working {
      assert id in before && after == before - {id};
    } else {
      assert after == before;
    }
  }

  lemma {:induction false} HandleConcat(client: Client, a: seq<TaskEvent>, b: seq<TaskEvent>)
    ensures HandleAll(client, a + b) == HandleAll(HandleAll(client, a), b)
  {
    if b == [] {
      assert a + b == a;
    } else {
      assert (a + b)[..|a + b| - 1] == a + b[..|b| - 1];
      HandleConcat(client, a, b[..|b| - 1]);
    }
  }

  /** The event for one task of the new snapshot, if any, shows that task. */
  lemma EventsForShow(
    client: Client, statuses: map<string, TaskStatus>, known: set<string>, prior: Snapshot, task: Task)
    requires Shows(client, statuses, known)
    requires var seen := Lookup(prior, task.id);
             && (seen.None? ==> task.id !in statuses && task.id !in known)
             && (seen.Some? ==> task.id in statuses && task.id in known && statuses[task.id] == seen.value.status)
    ensures Shows(HandleAll(client, EventsFor(prior, task)), statuses[task.id := task.status], known)
  {
    HandleSingle(client, EventsFor(prior, task));
    var seen := Lookup(prior, task.id);
    if seen.None? {
      CreationShows(client, statuses, known, task);
    } else if seen.value.status != task.status {
      ChangeShows(client, statuses, known, task.id, task.status);
    } else {
      assert statuses[task.id := task.status] == statuses;
    }
  }

  lemma OverrideSnoc<K, V>(base: map<K, V>, over: map<K, V>, key: K, value: V)
    ensures base + over[key := value] == (base + over)[key := value]
  {
  }

  lemma RemoveOneMore<K, V>(base: map<K, V>, gone: set<K>, key: K)
    ensures base - (gone + {key}) == (base - gone) - {key}
  {
  }

  lemma {:induction false} ChangesShow(
    client: Client, statuses: map<string, TaskStatus>, prior: Snapshot, next: Snapshot)
    requires DistinctIds(prior) && DistinctIds(next)
    requires statuses == SnapshotMap(prior) && Shows(client, statuses, statuses.Keys)
    ensures Shows(HandleAll(client, ChangeEvents(prior, next)), statuses + SnapshotMap(next), statuses.Keys)
  {
    if next == [] {
      assert statuses + map[] == statuses;
    } else {
      var front := next[..|next| - 1];
      var task := Last(next);
      ChangesShow(client, statuses, prior, front);
      OverrideSnoc(statuses, SnapshotMap(front), task.id, task.status);
      ChangeStepShows(client, statuses, prior, front, task);
      assert next == front + [task];
    }
  }

  lemma ChangeStepShows(
    client: Client, statuses: map<string, TaskStatus>, prior: Snapshot, front: Snapshot, task: Task)
    requires DistinctIds(prior) && DistinctIds(front + [task])
    requires statuses == SnapshotMap(prior)
    requires Shows(HandleAll(client, ChangeEvents(prior, front)), statuses + SnapshotMap(front), statuses.Keys)
    ensures Shows(HandleAll(client, ChangeEvents(prior, front + [task])),
                  (statuses + SnapshotMap(front))[task.id := task.status], statuses.Keys)
  {
    var shown := HandleAll(client, ChangeEvents(prior, front));
    NotInFront(front + [task]);
    assert (front + [task])[..|front + [task]| - 1] == front;
    SnapshotMapLooksUp(prior, task.id);
    EventsForShow(shown, statuses + SnapshotMap(front), statuses.Keys, prior, task);
    HandleConcat(client, ChangeEvents(prior, front), EventsFor(prior, task));
  }

  lemma NotInFront(tasks: Snapshot)
    requires DistinctIds(tasks) && tasks != []
    ensures DistinctIds(tasks[..|tasks| - 1])
    ensures Last(tasks).id !in SnapshotMap(tasks[..|tasks| - 1])
  {
    SnapshotMapLooksUp(tasks[..|tasks| - 1], Last(tasks).id);
  }

  lemma HandleSingle(client: Client, events: seq<TaskEvent>)
    requires |events| <= 1
    ensures HandleAll(client, events) == if events == [] then client else HandleEvent(client, events[0])
  {
  }

  ghost function Gone(prior: Snapshot, next: Snapshot): set<string> {
    if prior == [] then {}
    else Gone(prior[..|prior| - 1], next) + if Lookup(next, Last(prior).id).None? then {Last(prior).id} else {}
  }

  lemma {:induction false} RemovalsShow(
    client: Client, statuses: map<string, TaskStatus>, known: set<string>, prior: Snapshot, next: Snapshot)
    requires Shows(client, statuses, known)
    requires forall i :: 0 <= i < |prior| ==> prior[i].id in known
    ensures Shows(HandleAll(client, RemovalEvents(prior, next)), statuses - Gone(prior, next), known)
  {
    if prior == [] {
      assert statuses - {} == statuses;
    } else {
      var front := prior[..|prior| - 1];
      RemovalsShow(client, statuses, known, front, next);
      var id := Last(prior).id;
      if Lookup(next, id).None? {
        RemovalStepShows(client, statuses, known, front, id, next);
        RemoveOneMore(statuses, Gone(front, next), id);
      } else {
        assert RemovalEvents(prior, next) == RemovalEvents(front, next);
        assert Gone(prior, next) == Gone(front, next);
      }
    }
  }

  lemma RemovalStepShows(
    client: Client, statuses: map<string, TaskStatus>, known: set<string>, front: Snapshot, id: string, next: Snapshot)
    requires Shows(HandleAll(client, RemovalEvents(front, next)), statuses - Gone(front, next), known)
    requires id in known
    ensures Shows(HandleAll(client, RemovalEvents(front, next) + [TaskRemoved(id)]),
                  (statuses - Gone(front, next)) - {id}, known)
  {
    var shown := HandleAll(client, RemovalEvents(front, next));
    HandleConcat(client, RemovalEvents(front, next), [TaskRemoved(id)]);
    HandleSingle(shown, [TaskRemoved(id)]);
    RemovalShows(shown, statuses - Gone(front, next), known, id);
  }

  lemma {:induction false} GoneExactly(prior: Snapshot, next: Snapshot, id: string)
    ensures id in Gone(prior, next) <==> Lookup(next, id).None? && exists i :: 0 <= i < |prior| && prior[i].id == id
  {
    if prior != [] {
      var front := prior[..|prior| - 1];
      GoneExactly(front, next, id);
      if i :| 0 <= i < |front| && front[i].id == id {
        assert prior[i].id == id;
      }
      if i :| 0 <= i < |prior| && prior[i].id == id && i < |front| {
        assert front[i].id == id;
      }
      if Last(prior).id == id {
        assert prior[|prior| - 1].id == id;
      }
    }
  }

  /**
   A client that shows the old snapshot shows exactly the new one after its events, and counts the
   working tasks that it already knew.
   */
  lemma ReplayShowsNewSnapshot(client: Client, prior: Snapshot, next: Snapshot)
    requires DistinctIds(prior) && DistinctIds(next)
    requires Shows(client, SnapshotMap(prior), SnapshotMap(prior).Keys)
    ensures Shows(HandleAll(client, SnapshotEvents(prior, next)), SnapshotMap(next), SnapshotMap(prior).Keys)
  {
    var known := SnapshotMap(prior).Keys;
    var both := SnapshotMap(prior) + SnapshotMap(next);
    ChangesShow(client, SnapshotMap(prior), prior, next);
    HandleConcat(client, ChangeEvents(prior, next), RemovalEvents(prior, next));
    forall i | 0 <= i < |prior| ensures prior[i].id in known {
      LookupAt(prior, i);
      SnapshotMapLooksUp(prior, prior[i].id);
    }
    RemovalsShow(HandleAll(client, ChangeEvents(prior, next)), both, known, prior, next);
    OnlyGoneIsLost(prior, next);
  }

  lemma OnlyGoneIsLost(prior: Snapshot, next: Snapshot)
    requires DistinctIds(prior) && DistinctIds(next)
    ensures (SnapshotMap(prior) + SnapshotMap(next)) - Gone(prior, next) == SnapshotMap(next)
  {
    forall id ensures id in SnapshotMap(next) ==> id !in Gone(prior, next)
      ensures id in SnapshotMap(prior) && id !in SnapshotMap(next) ==> id in Gone(prior, next)
    {
      SnapshotMapLooksUp(prior, id);
      SnapshotMapLooksUp(next, id);
      GoneExactly(prior, next, id);
    }
  }

  ghost function WorkingIds(tasks: Snapshot): set<string> {
    set id | id in SnapshotMap(tasks) && SnapshotMap(tasks)[id] == Working
  }

  /** WORKING tasks that the refresh itself announces. */
  ghost function CreatedWorking(prior: Snapshot, next: Snapshot): set<string> {
    WorkingIds(next) - SnapshotMap(prior).Keys
  }

  lemma WorkingSplits(prior: Snapshot, next: Snapshot)
    ensures |KnownWorking(SnapshotMap(next), SnapshotMap(prior).Keys)| + |CreatedWorking(prior, next)|
         == |WorkingIds(next)|
    ensures KnownWorking(SnapshotMap(next), SnapshotMap(next).Keys) == WorkingIds(next)
  {
    var known := KnownWorking(SnapshotMap(next), SnapshotMap(prior).Keys);
    assert WorkingIds(next) == known + CreatedWorking(prior, next);
    assert known !! CreatedWorking(prior, next);
  }

  /** The count is right exactly when no newly created task is already WORKING; it is short by those. */
  lemma CapacityAfterReplay(client: Client, prior: Snapshot, next: Snapshot)
    requires DistinctIds(prior) && DistinctIds(next)
    requires Shows(client, SnapshotMap(prior), SnapshotMap(prior).Keys)
    ensures var after := HandleAll(client, SnapshotEvents(prior, next));
            && after.working + |CreatedWorking(prior, next)| == |WorkingIds(next)|
            && (after.working == |WorkingIds(next)| <==> CreatedWorking(prior, next) == {})
            && (CreatedWorking(prior, next) == {} ==> Shows(after, SnapshotMap(next), SnapshotMap(next).Keys))
  {
    ReplayShowsNewSnapshot(client, prior, next);
    WorkingSplits(prior, next);
  }

  /** `WorkingIds` counts what the server counts. */
  lemma {:induction false} WorkingIdsCount(tasks: Snapshot)
    requires DistinctIds(tasks)
    ensures |WorkingIds(tasks)| == Scheduler.CountWorking(tasks, None)
  {
    if tasks != [] {
      var front := tasks[..|tasks| - 1];
      assert tasks == front + [Last(tasks)];
      WorkingIdsCount(front);
      WorkingIdsSnoc(front, Last(tasks));
      Scheduler.CountWorkingSnoc(front, Last(tasks), None);
    } else {
      assert WorkingIds(tasks) == {};
    }
  }

  lemma WorkingIdsSnoc(front: Snapshot, task: Task)
    requires DistinctIds(front + [task])
    ensures |WorkingIds(front + [task])| == |WorkingIds(front)| + if task.status == Working then 1 else 0
  {
    NotInFront(front + [task]);
    assert (front + [task])[..|front + [task]| - 1] == front;
    if task.status == Working {
      assert WorkingIds(front + [task]) == WorkingIds(front) + {task.id};
    } else {
      assert WorkingIds(front + [task]) == WorkingIds(front);
    }
  }

  /** Replays of a whole history of snapshots. */
  function ReplayAll(client: Client, snapshots: seq<Snapshot>): Client
    requires snapshots != []
  {
    if |snapshots| == 1 then client
    else HandleAll(ReplayAll(client, snapshots[..|snapshots| - 1]),
                   SnapshotEvents(snapshots[|snapshots| - 2], Last(snapshots)))
  }

  /** A history of caches, with no task created already WORKING. */
  ghost predicate Smooth(snapshots: seq<Snapshot>) {
    && snapshots != []
    && DistinctIds(Last(snapshots))
    && (|snapshots| > 1 ==>
          && Smooth(snapshots[..|snapshots| - 1])
          && CreatedWorking(snapshots[|snapshots| - 2], Last(snapshots)) == {})
  }

  /** After any smooth history the client agrees with the server. */
  lemma HistoryReplays(client: Client, snapshots: seq<Snapshot>)
    requires Smooth(snapshots)
    requires Shows(client, SnapshotMap(snapshots[0]), SnapshotMap(snapshots[0]).Keys)
    ensures var after := ReplayAll(client, snapshots);
            && StatusMap(after.tasks) == SnapshotMap(Last(snapshots))
            && after.working == Scheduler.CountWorking(Last(snapshots), None)
  {
    HistoryShows(client, snapshots);
    WorkingIdsCount(Last(snapshots));
    KnownAll(Last(snapshots));
  }

  lemma {:induction false} HistoryShows(client: Client, snapshots: seq<Snapshot>)
    requires Smooth(snapshots)
    requires Shows(client, SnapshotMap(snapshots[0]), SnapshotMap(snapshots[0]).Keys)
    ensures Shows(ReplayAll(client, snapshots), SnapshotMap(Last(snapshots)), SnapshotMap(Last(snapshots)).Keys)
    ensures DistinctIds(Last(snapshots))
  {
    if |snapshots| > 1 {
      var front := snapshots[..|snapshots| - 1];
      HistoryShows(client, front);
      CapacityAfterReplay(ReplayAll(client, front), Last(front), Last(snapshots));
    }
  }

  lemma KnownAll(tasks: Snapshot)
    ensures KnownWorking(SnapshotMap(tasks), SnapshotMap(tasks).Keys) == WorkingIds(tasks)
  {
  }

  /** The task list does not depend on the counter. */
  lemma {:induction false} TasksIgnoreCapacity(a: Client, b: Client, events: seq<TaskEvent>)
    requires a.tasks == b.tasks
    ensures HandleAll(a, events).tasks == HandleAll(b, events).tasks
  {
    if events != [] {
      TasksIgnoreCapacity(a, b, events[..|events| - 1]);
    }
  }

  /** The client lists exactly the tasks of a snapshot, each with its status. */
  ghost predicate Lists(client: Client, tasks: Snapshot) {
    DistinctTasks(client.tasks) && StatusMap(client.tasks) == SnapshotMap(tasks)
  }

  /** The task list follows the cache even where the counter does not. */
  lemma ReplayLists(client: Client, prior: Snapshot, next: Snapshot)
    requires DistinctIds(prior) && DistinctIds(next) && Lists(client, prior)
    ensures Lists(HandleAll(client, SnapshotEvents(prior, next)), next)
  {
    var known := SnapshotMap(prior).Keys;
    var counted := client.(working := |KnownWorking(SnapshotMap(prior), known)|);
    ReplayShowsNewSnapshot(counted, prior, next);
    TasksIgnoreCapacity(client, counted, SnapshotEvents(prior, next));
  }
}
