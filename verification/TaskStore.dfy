/**
 The task repository as a state: documents on disk, rows in the database, the cache, and the events
 sent so far. Every operation starts by refreshing the cache from the documents.
 */
module TaskStore {
  import opened Collections
  import opened TaskModel
  import opened TaskDocs
  import opened TaskEvents

  datatype StoreError = RepoNotFound(repoId: string) | DocumentNotFound(repoId: string, path: string)

  /** `docs` holds every task document, in the order of the scan; `upserts` lists the rows written so far. */
  datatype Repository = Repository(
    repos: set<string>,
    docs: seq<TaskDoc>,
    rows: map<string, Task>,
    cache: Snapshot,
    events: seq<TaskEvent>,
    upserts: seq<Task>)

  function Row(rows: map<string, Task>, id: string): Option<Task> {
    if id in rows then Some(rows[id]) else None
  }

  // ---------------------------------------------------------------------------
  // Reading one document
  // ---------------------------------------------------------------------------

  /** The database, not the document, decides the status of such a task. */
  predicate IsRuntimeAuthoritative(task: Task) {
    task.worktreePath.Some? || task.status in {Working, Resuming, Paused}
  }

  function DocId(doc: TaskDoc): string {
    doc.id.GetOr(TaskIdFor(doc.repoId, NormalizeTaskPath(doc.path)))
  }

  function DocStatus(doc: TaskDoc): TaskStatus {
    NormalizeTaskStatus(doc.status)
  }

  function DocChangePath(doc: TaskDoc): string {
    doc.changePath.GetOr(NormalizeTaskPath(doc.path))
  }

  function OrElse<T>(first: Option<T>, second: Option<T>): Option<T> {
    if first.Some? then first else second
  }

  /** The task that a document and its row, if it has one, make together. */
  function MergeTask(doc: TaskDoc, persisted: Option<Task>): Task {
    match persisted
    case None =>
      Task(DocId(doc), doc.repoId, DocChangePath(doc), None, DocStatus(doc), None, None, doc.branch, None, None, None,
           doc.createdAt, doc.updatedAt)
    case Some(row) =>
      var authoritative := IsRuntimeAuthoritative(row);
      Task(DocId(doc), doc.repoId, DocChangePath(doc),
           row.worktreePath,
           if authoritative then row.status else DocStatus(doc),
           row.readyAt,
           row.preferredWorkflow,
           OrElse(row.baseBranch, doc.branch),
           row.preferredProvider,
           row.retryFromStep,
           row.resumeInput,
           row.createdAt,
           if authoritative then row.updatedAt else doc.updatedAt)
  }

  function Merged(rows: map<string, Task>, doc: TaskDoc): Task {
    MergeTask(doc, Row(rows, DocId(doc)))
  }

  // ---------------------------------------------------------------------------
  // Refresh
  // ---------------------------------------------------------------------------

  /** `next.set(task.id, task)`: an existing entry keeps its place. */
  function SetTask(tasks: Snapshot, task: Task): Snapshot {
    match IndexOfId(tasks, task.id)
    case Some(i) => tasks[i := task]
    case None => tasks + [task]
  }

  datatype Refreshed = Refreshed(rows: map<string, Task>, tasks: Snapshot, writes: seq<Task>)

  function RefreshOne(seen: Refreshed, doc: TaskDoc): Refreshed {
    var task := Merged(seen.rows, doc);
    Refreshed(
      seen.rows[task.id := task],
      SetTask(seen.tasks, task),
      if Row(seen.rows, task.id) == Some(task) then seen.writes else seen.writes + [task])
  }

  function RefreshDocs(docs: seq<TaskDoc>, rows: map<string, Task>): Refreshed {
    if docs == [] then Refreshed(rows, [], []) else RefreshOne(RefreshDocs(docs[..|docs| - 1], rows), Last(docs))
  }

  /** The scan reads the direct subfolders of each registered repo. */
  predicate IsScanned(repos: set<string>, doc: TaskDoc) {
    doc.repoId in repos && IsTaskFolder(doc.path)
  }

  function Scan(repos: set<string>, docs: seq<TaskDoc>): seq<TaskDoc> {
    if docs == [] then []
    else Scan(repos, docs[..|docs| - 1]) + if IsScanned(repos, Last(docs)) then [Last(docs)] else []
  }

  function Refresh(s: Repository): Repository {
    var next := RefreshDocs(Scan(s.repos, s.docs), s.rows);
    s.(rows := next.rows,
       cache := next.tasks,
       events := s.events + SnapshotEvents(s.cache, next.tasks),
       upserts := s.upserts + next.writes)
  }

  // ---------------------------------------------------------------------------
  // Operations
  // ---------------------------------------------------------------------------

  function Get(s: Repository, id: string): (Repository, Option<Task>) {
    (Refresh(s), Lookup(Refresh(s).cache, id))
  }

  /** None leaves a field alone; Some(None) clears it. */
  datatype TaskUpdate = TaskUpdate(
    worktreePath: Option<Option<string>>,
    status: Option<TaskStatus>,
    readyAt: Option<Option<int>>,
    preferredWorkflow: Option<Option<string>>,
    baseBranch: Option<Option<string>>,
    preferredProvider: Option<Option<string>>,
    retryFromStep: Option<Option<string>>,
    resumeInput: Option<Option<string>>)

  const NoUpdate: TaskUpdate := TaskUpdate(None, None, None, None, None, None, None, None)

  function Updated(task: Task, updates: TaskUpdate, now: int): Task {
    task.(worktreePath := updates.worktreePath.GetOr(task.worktreePath),
          status := updates.status.GetOr(task.status),
          readyAt := updates.readyAt.GetOr(task.readyAt),
          preferredWorkflow := updates.preferredWorkflow.GetOr(task.preferredWorkflow),
          baseBranch := updates.baseBranch.GetOr(task.baseBranch),
          preferredProvider := updates.preferredProvider.GetOr(task.preferredProvider),
          retryFromStep := updates.retryFromStep.GetOr(task.retryFromStep),
          resumeInput := updates.resumeInput.GetOr(task.resumeInput),
          updatedAt := now)
  }

  function Upsert(s: Repository, task: Task): Repository {
    s.(rows := s.rows[task.id := task], upserts := s.upserts + [task])
  }

  function FindDoc(docs: seq<TaskDoc>, repoId: string, path: string): (r: Option<nat>)
    ensures r.None? ==> forall i :: 0 <= i < |docs| ==> docs[i].repoId != repoId || docs[i].path != path
    ensures r.Some? ==> r.value < |docs| && docs[r.value].repoId == repoId && docs[r.value].path == path
  {
    if docs == [] then None
    else if docs[0].repoId == repoId && docs[0].path == path then Some(0)
    else
      match FindDoc(docs[1..], repoId, path)
      case None => None
      case Some(i) => Some(i + 1)
  }

  /** `updateTaskDocStatus`: only the status line changes, and the file's time. */
  function WithStatus(doc: TaskDoc, status: TaskStatus, now: int): TaskDoc {
    doc.(status := Some(StatusText(status)), updatedAt := now)
  }

  /** A repo that is not registered is skipped; a document that is missing makes the write fail. */
  function SyncStatus(s: Repository, task: Task, status: Option<TaskStatus>, now: int): Result<Repository, StoreError> {
    if status.None? || task.repoId !in s.repos then Ok(s)
    else
      var path := NormalizeTaskPath(task.changePath);
      match FindDoc(s.docs, task.repoId, path)
      case None => Err(DocumentNotFound(task.repoId, path))
      case Some(i) => Ok(s.(docs := s.docs[i := WithStatus(s.docs[i], status.value, now)]))
  }

  function Update(s: Repository, id: string, updates: TaskUpdate, now: int)
    : (Repository, Result<Option<Task>, StoreError>)
  {
    var current := Refresh(s);
    match Lookup(current.cache, id)
    case None => (current, Ok(None))
    case Some(existing) =>
      var written := Upsert(current, Updated(existing, updates, now));
      match SyncStatus(written, existing, updates.status, now)
      case Err(error) => (written, Err(error))
      case Ok(synced) => (Refresh(synced), Ok(Lookup(Refresh(synced).cache, id)))
  }

  function MarkRemoved(s: Repository, id: string, now: int): (Repository, Result<bool, StoreError>) {
    var current := Refresh(s);
    var task := Lookup(current.cache, id);
    if task.None? || task.value.status == Working then (current, Ok(false))
    else
      match Update(current, id, NoUpdate.(status := Some(Removed)), now)
      case (after, Ok(_)) => (after, Ok(true))
      case (after, Err(error)) => (after, Err(error))
  }

  /** A new document, put at place `at` of the scan unless its folder already holds one. */
  function WriteDoc(docs: seq<TaskDoc>, doc: TaskDoc, at: nat): seq<TaskDoc> {
    match FindDoc(docs, doc.repoId, doc.path)
    case Some(i) => docs[i := doc]
    case None => if at <= |docs| then docs[..at] + [doc] + docs[at..] else docs + [doc]
  }

  function NewDoc(task: Task, now: int): TaskDoc {
    TaskDoc(task.repoId, NormalizeTaskPath(task.changePath), Some(task.id), Some(StatusText(task.status)),
            task.createdAt, now, None, None)
  }

  /** `task` carries the defaults of the fields that the caller left out. */
  function Create(s: Repository, task: Task, at: nat, now: int): (Repository, Result<Task, StoreError>) {
    if task.repoId !in s.repos then (s, Err(RepoNotFound(task.repoId)))
    else
      var doc := NewDoc(task, now);
      var current := Refresh(Upsert(s.(docs := WriteDoc(s.docs, doc, at)), task));
      match Lookup(current.cache, TaskIdFor(task.repoId, doc.path))
      case Some(found) => (current, Ok(found))
      case None =>
        var mapped := Merged(current.rows, doc);
        (if Row(current.rows, mapped.id) == Some(mapped) then current else Upsert(current, mapped), Ok(mapped))
  }
}
