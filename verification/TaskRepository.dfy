/**
 The task repository as it runs: a cache refilled from disk, rows upserted one by one, events sent
 in loops. Each method is tied to the function of `TaskStore` with its name.
 */
module TaskRepository {
  import opened Collections
  import opened TaskModel
  import opened TaskDocs
  import opened TaskEvents
  import TaskStore

  class Store {
    const repos: set<string>
    var docs: seq<TaskDoc>
    var rows: map<string, Task>
    var cache: Snapshot
    var events: seq<TaskEvent>
    var upserts: seq<Task>

    constructor (repos: set<string>, docs: seq<TaskDoc>, rows: map<string, Task>)
      ensures State() == TaskStore.Repository(repos, docs, rows, [], [], [])
    {
      this.repos, this.docs, this.rows := repos, docs, rows;
      cache, events, upserts := [], [], [];
    }

    function State(): TaskStore.Repository
      reads this
    {
      TaskStore.Repository(repos, docs, rows, cache, events, upserts)
    }

    method UpsertTask(task: Task)
      modifies this`rows, this`upserts
      ensures State() == TaskStore.Upsert(old(State()), task)
    {
      rows := rows[task.id := task];
      upserts := upserts + [task];
    }

    /** Writes the merged task only when it differs from its row. */
    method MapTaskFromDisk(doc: TaskDoc) returns (task: Task)
      modifies this`rows, this`upserts
      ensures task == TaskStore.Merged(old(rows), doc)
      ensures State() == if TaskStore.Row(old(rows), task.id) == Some(task) then old(State())
                         else TaskStore.Upsert(old(State()), task)
      ensures rows == old(rows)[task.id := task]
    {
      task := TaskStore.MergeTask(doc, TaskStore.Row(rows, TaskStore.DocId(doc)));
      if task.id !in rows || rows[task.id] != task {
        UpsertTask(task);
      }
    }

    method ScanFolder(doc: TaskDoc, found: Snapshot) returns (next: Snapshot)
      modifies this`rows, this`upserts
      ensures TaskStore.IsScanned(repos, doc) ==>
                TaskStore.RefreshOne(TaskStore.Refreshed(old(rows), found, old(upserts)), doc)
                == TaskStore.Refreshed(rows, next, upserts)
      ensures !TaskStore.IsScanned(repos, doc) ==> next == found && rows == old(rows) && upserts == old(upserts)
    {
      next := found;
      if TaskStore.IsScanned(repos, doc) {
        var task := MapTaskFromDisk(doc);
        next := TaskStore.SetTask(next, task);
      }
    }

    method BuildTaskSnapshot() returns (next: Snapshot)
      modifies this`rows, this`upserts
      ensures RefreshedFrom(TaskStore.Scan(repos, docs), old(rows), old(upserts))
           == TaskStore.Refreshed(rows, next, upserts)
    {
      next := [];
      var i := 0;
      while i < |docs|
        invariant i <= |docs|
        invariant RefreshedFrom(TaskStore.Scan(repos, docs[..i]), old(rows), old(upserts))
               == TaskStore.Refreshed(rows, next, upserts)
      {
        ScanNext(repos, docs, i, old(rows), old(upserts));
        next := ScanFolder(docs[i], next);
        i := i + 1;
      }
      assert docs[..|docs|] == docs;
    }

    method EmitSnapshotTask(task: Task)
      modifies this`events
      ensures events == old(events) + EventsFor(cache, task)
    {
      var previous := Lookup(cache, task.id);
      if previous.None? {
        events := events + [TaskCreated(task)];
      } else if previous.value.status != task.status {
        events := events + [TaskStatusChanged(task.id, previous.value.status, task.status)];
      }
    }

    method EmitRemovedSnapshotTasks(next: Snapshot)
      modifies this`events
      ensures events == old(events) + RemovalEvents(cache, next)
    {
      var i := 0;
      while i < |cache|
        invariant i <= |cache| && events == old(events) + RemovalEvents(cache[..i], next)
      {
        assert cache[..i + 1][..i] == cache[..i];
        if Lookup(next, cache[i].id).None? {
          events := events + [TaskRemoved(cache[i].id)];
        }
        i := i + 1;
      }
      assert cache[..|cache|] == cache;
    }

    method EmitSnapshotChanges(next: Snapshot)
      modifies this`events
      ensures events == old(events) + SnapshotEvents(cache, next)
    {
      var i := 0;
      while i < |next|
        invariant i <= |next| && events == old(events) + ChangeEvents(cache, next[..i])
      {
        assert next[..i + 1][..i] == next[..i];
        EmitSnapshotTask(next[i]);
        i := i + 1;
      }
      assert next[..|next|] == next;
      EmitRemovedSnapshotTasks(next);
    }

    method RefreshCache()
      modifies this`rows, this`cache, this`events, this`upserts
      ensures State() == TaskStore.Refresh(old(State()))
    {
      var next := BuildTaskSnapshot();
      EmitSnapshotChanges(next);
      cache := next;
    }

    method Get(id: string) returns (task: Option<Task>)
      modifies this`rows, this`cache, this`events, this`upserts
      ensures (State(), task) == TaskStore.Get(old(State()), id)
    {
      RefreshCache();
      task := Lookup(cache, id);
    }

    method SyncTaskStatusToDisk(task: Task, status: Option<TaskStatus>, now: int)
        returns (error: Option<TaskStore.StoreError>)
      modifies this`docs
      ensures match TaskStore.SyncStatus(old(State()), task, status, now)
              case Ok(synced) => error.None? && State() == synced
              case Err(failure) => error == Some(failure) && State() == old(State())
    {
      error := None;
      if status.None? || task.repoId !in repos {
        return;
      }
      var path := NormalizeTaskPath(task.changePath);
      var place := TaskStore.FindDoc(docs, task.repoId, path);
      if place.None? {
        error := Some(TaskStore.DocumentNotFound(task.repoId, path));
      } else {
        docs := docs[place.value := TaskStore.WithStatus(docs[place.value], status.value, now)];
      }
    }

    method Update(id: string, updates: TaskStore.TaskUpdate, now: int)
        returns (answer: Result<Option<Task>, TaskStore.StoreError>)
      modifies this`docs, this`rows, this`cache, this`events, this`upserts
      ensures (State(), answer) == TaskStore.Update(old(State()), id, updates, now)
    {
      RefreshCache();
      var existing := Lookup(cache, id);
      if existing.None? {
        return Ok(None);
      }
      UpsertTask(TaskStore.Updated(existing.value, updates, now));
      var error := SyncTaskStatusToDisk(existing.value, updates.status, now);
      if error.Some? {
        return Err(error.value);
      }
      RefreshCache();
      answer := Ok(Lookup(cache, id));
    }

    method MarkRemoved(id: string, now: int) returns (answer: Result<bool, TaskStore.StoreError>)
      modifies this`docs, this`rows, this`cache, this`events, this`upserts
      ensures (State(), answer) == TaskStore.MarkRemoved(old(State()), id, now)
    {
      var task := Get(id);
      if task.None? || task.value.status == Working {
        return Ok(false);
      }
      var updated := Update(id, TaskStore.NoUpdate.(status := Some(Removed)), now);
      answer := if updated.Ok? then Ok(true) else Err(updated.error);
    }

    method Create(task: Task, at: nat, now: int) returns (answer: Result<Task, TaskStore.StoreError>)
      modifies this`docs, this`rows, this`cache, this`events, this`upserts
      ensures (State(), answer) == TaskStore.Create(old(State()), task, at, now)
    {
      if task.repoId !in repos {
        return Err(TaskStore.RepoNotFound(task.repoId));
      }
      var doc := TaskStore.NewDoc(task, now);
      docs := TaskStore.WriteDoc(docs, doc, at);
      UpsertTask(task);
      RefreshCache();
      var found := Lookup(cache, TaskIdFor(task.repoId, doc.path));
      if found.Some? {
        return Ok(found.value);
      }
      var mapped := MapTaskFromDisk(doc);
      answer := Ok(mapped);
    }
  }

  /** A refresh whose writes are added to earlier ones. */
  ghost function RefreshedFrom(docs: seq<TaskDoc>, rows: map<string, Task>, upserts: seq<Task>): TaskStore.Refreshed {
    var seen := TaskStore.RefreshDocs(docs, rows);
    seen.(writes := upserts + seen.writes)
  }

  lemma ScanNext(
    repos: set<string>, docs: seq<TaskDoc>, i: nat, rows: map<string, Task>, upserts: seq<Task>)
    requires i < |docs|
    ensures RefreshedFrom(TaskStore.Scan(repos, docs[..i + 1]), rows, upserts)
         == var seen := RefreshedFrom(TaskStore.Scan(repos, docs[..i]), rows, upserts);
            if TaskStore.IsScanned(repos, docs[i]) then TaskStore.RefreshOne(seen, docs[i]) else seen
  {
    assert docs[..i + 1][..i] == docs[..i];
    var scanned := TaskStore.Scan(repos, docs[..i]);
    if TaskStore.IsScanned(repos, docs[i]) {
      RefreshedSnoc(scanned, docs[i], rows, upserts);
    } else {
      assert scanned + [] == scanned;
    }
  }

  lemma RefreshedSnoc(docs: seq<TaskDoc>, doc: TaskDoc, rows: map<string, Task>, upserts: seq<Task>)
    ensures RefreshedFrom(docs + [doc], rows, upserts) == TaskStore.RefreshOne(RefreshedFrom(docs, rows, upserts), doc)
  {
    assert (docs + [doc])[..|docs + [doc]| - 1] == docs;
    var seen := TaskStore.RefreshDocs(docs, rows);
    var task := TaskStore.Merged(seen.rows, doc);
    assert upserts + (seen.writes + [task]) == (upserts + seen.writes) + [task];
  }
}
