/**
 What the task repository keeps: a running task cannot be changed by editing its document, a second
 refresh does nothing, and documents and database agree on every status after every operation.
 */
module TaskStoreRuns {
  import opened Collections
  import opened TaskModel
  import opened TaskDocs
  import opened TaskEvents
  import opened TaskStore
  import Dashboard

  // ---------------------------------------------------------------------------
  // Refresh, for any documents
  // ---------------------------------------------------------------------------

  lemma SetTaskLooksUp(tasks: Snapshot, task: Task, id: string)
    requires DistinctIds(tasks)
    ensures DistinctIds(SetTask(tasks, task))
    ensures Lookup(SetTask(tasks, task), id) == if id == task.id then Some(task) else Lookup(tasks, id)
  {
    var next := SetTask(tasks, task);
    var place := IndexOfId(tasks, task.id);
    LookupAt(next, if place.Some? then place.value else |tasks|);
    var found := IndexOfId(tasks, id);
    if found.Some? {
      LookupAt(tasks, found.value);
      LookupAt(next, found.value);
    } else if id != task.id {
      forall i | 0 <= i < |next| ensures next[i].id != id {
        if i < |tasks| {
          assert tasks[i].id != id;
        }
      }
    }
  }

  /** The new cache holds one entry per id, and each is the row now stored. */
  lemma {:induction false} CacheMirrorsRows(docs: seq<TaskDoc>, rows: map<string, Task>, id: string)
    ensures var next := RefreshDocs(docs, rows);
            && DistinctIds(next.tasks)
            && (Lookup(next.tasks, id).Some? ==> Row(next.rows, id) == Lookup(next.tasks, id))
  {
    if docs != [] {
      var front := docs[..|docs| - 1];
      CacheMirrorsRows(front, rows, id);
      var seen := RefreshDocs(front, rows);
      SetTaskLooksUp(seen.tasks, Merged(seen.rows, Last(docs)), id);
    }
  }

  /** A task that runs, waits, or has a worktree: documents do not change its status. */
  predicate IsHeld(task: Task) {
    || task.worktreePath != None
    || task.status == Working || task.status == Resuming || task.status == Paused
  }

  /** Whatever the documents say, a task that runs, waits or has a worktree keeps its status. */
  lemma {:induction false} RowKeepsAuthority(docs: seq<TaskDoc>, rows: map<string, Task>, id: string)
    requires id in rows && IsHeld(rows[id])
    ensures var next := RefreshDocs(docs, rows).rows;
            && id in next
            && IsHeld(next[id])
            && next[id].status == rows[id].status
            && next[id].worktreePath == rows[id].worktreePath
            && next[id].updatedAt == rows[id].updatedAt
  {
    if docs != [] {
      RowKeepsAuthority(docs[..|docs| - 1], rows, id);
    }
  }

  lemma RefreshKeepsAuthoritativeStatus(s: Repository, edited: seq<TaskDoc>, id: string)
    requires id in s.rows && IsHeld(s.rows[id])
    ensures var (after, task) := Get(s.(docs := edited), id);
            && id in after.rows && after.rows[id].status == s.rows[id].status
            && (task.Some? ==> task.value.status == s.rows[id].status)
  {
    RowKeepsAuthority(Scan(s.repos, edited), s.rows, id);
    CacheMirrorsRows(Scan(s.repos, edited), s.rows, id);
  }

  /** What a document and its row make, held by the database or decided by the document. */
  lemma MergeExactly(doc: TaskDoc, row: Task)
    ensures var task := MergeTask(doc, Some(row));
            && (doc.id.Some? ==> task.id == doc.id.value)
            && (doc.id.None? ==> task.id == TaskIdFor(doc.repoId, NormalizeTaskPath(doc.path)))
            && task.repoId == doc.repoId
            && (doc.changePath.Some? ==> task.changePath == doc.changePath.value)
            && (doc.changePath.None? ==> task.changePath == NormalizeTaskPath(doc.path))
            && (if IsHeld(row) then task.status == row.status && task.updatedAt == row.updatedAt
                else task.status == NormalizeTaskStatus(doc.status) && task.updatedAt == doc.updatedAt)
            && task.baseBranch == (if row.baseBranch.Some? then row.baseBranch else doc.branch)
            && SameRuntimeFields(task, row)
  {
  }

  /** A document without a row makes a new task: no worktree, no times of readiness, no choices. */
  lemma NewTaskExactly(doc: TaskDoc)
    ensures var task := MergeTask(doc, None);
            && task.id == MergeTask(doc, Some(task)).id && task.changePath == MergeTask(doc, Some(task)).changePath
            && task.repoId == doc.repoId && task.status == NormalizeTaskStatus(doc.status)
            && task.baseBranch == doc.branch && task.createdAt == doc.createdAt && task.updatedAt == doc.updatedAt
            && task.worktreePath == None && task.readyAt == None && task.preferredWorkflow == None
            && task.preferredProvider == None && task.retryFromStep == None && task.resumeInput == None
  {
  }

  /** What only the database knows. */
  ghost predicate SameRuntimeFields(a: Task, b: Task) {
    && a.worktreePath == b.worktreePath
    && a.readyAt == b.readyAt
    && a.preferredWorkflow == b.preferredWorkflow
    && a.preferredProvider == b.preferredProvider
    && a.retryFromStep == b.retryFromStep
    && a.resumeInput == b.resumeInput
    && a.createdAt == b.createdAt
  }

  /** No refresh loses it, and a branch once chosen stays. */
  lemma {:induction false} RefreshKeepsRuntimeFields(docs: seq<TaskDoc>, rows: map<string, Task>, id: string)
    requires id in rows
    ensures var next := RefreshDocs(docs, rows).rows;
            && id in next && SameRuntimeFields(next[id], rows[id])
            && (rows[id].baseBranch.Some? ==> next[id].baseBranch == rows[id].baseBranch)
  {
    if docs != [] {
      RefreshKeepsRuntimeFields(docs[..|docs| - 1], rows, id);
    }
  }

  // ---------------------------------------------------------------------------
  // Refresh, when no two documents claim one task
  // ---------------------------------------------------------------------------

  ghost predicate DistinctDocIds(docs: seq<TaskDoc>) {
    forall i, j :: 0 <= i < j < |docs| ==> DocId(docs[i]) != DocId(docs[j])
  }

  ghost predicate NoDocFor(docs: seq<TaskDoc>, id: string) {
    forall i :: 0 <= i < |docs| ==> DocId(docs[i]) != id
  }

  /** A row without a document stays as it is, and out of the cache. */
  lemma {:induction false} UndocumentedRowStays(docs: seq<TaskDoc>, rows: map<string, Task>, id: string)
    requires NoDocFor(docs, id)
    ensures Row(RefreshDocs(docs, rows).rows, id) == Row(rows, id)
    ensures Lookup(RefreshDocs(docs, rows).tasks, id).None?
  {
    if docs != [] {
      var front := docs[..|docs| - 1];
      assert DocId(Last(docs)) != id;
      UndocumentedRowStays(front, rows, id);
      var seen := RefreshDocs(front, rows);
      CacheMirrorsRows(front, rows, id);
      SetTaskLooksUp(seen.tasks, Merged(seen.rows, Last(docs)), id);
    }
  }

  lemma LastIsNew(docs: seq<TaskDoc>)
    requires DistinctDocIds(docs) && docs != []
    ensures DistinctDocIds(docs[..|docs| - 1]) && NoDocFor(docs[..|docs| - 1], DocId(Last(docs)))
  {
  }

  /** One task per document, in scan order. */
  lemma {:induction false} OneTaskPerDoc(docs: seq<TaskDoc>, rows: map<string, Task>)
    requires DistinctDocIds(docs)
    ensures |RefreshDocs(docs, rows).tasks| == |docs|
    ensures docs == []
         || RefreshDocs(docs, rows).tasks == RefreshDocs(docs[..|docs| - 1], rows).tasks + [Merged(rows, Last(docs))]
  {
    if docs != [] {
      var front := docs[..|docs| - 1];
      LastIsNew(docs);
      OneTaskPerDoc(front, rows);
      UndocumentedRowStays(front, rows, DocId(Last(docs)));
    }
  }

  lemma {:induction false} RefreshedTaskAt(docs: seq<TaskDoc>, rows: map<string, Task>, i: nat)
    requires DistinctDocIds(docs) && i < |docs|
    ensures |RefreshDocs(docs, rows).tasks| == |docs|
    ensures RefreshDocs(docs, rows).tasks[i] == Merged(rows, docs[i])
    decreases |docs|, 1
  {
    OneTaskPerDoc(docs, rows);
    if i < |docs| - 1 {
      RefreshedTaskBefore(docs, rows, i);
    }
  }

  lemma {:induction false} RefreshedTaskBefore(docs: seq<TaskDoc>, rows: map<string, Task>, i: nat)
    requires DistinctDocIds(docs) && i < |docs| - 1
    requires |RefreshDocs(docs, rows).tasks| == |docs|
    requires RefreshDocs(docs, rows).tasks
          == RefreshDocs(docs[..|docs| - 1], rows).tasks + [Merged(rows, Last(docs))]
    ensures RefreshDocs(docs, rows).tasks[i] == Merged(rows, docs[i])
    decreases |docs|, 0
  {
    var front := docs[..|docs| - 1];
    assert front[i] == docs[i];
    LastIsNew(docs);
    RefreshedTaskAt(front, rows, i);
  }

  /** Each task is merged from its document and its earlier row, and becomes the new row. */
  lemma RefreshIsPointwise(docs: seq<TaskDoc>, rows: map<string, Task>, i: nat)
    requires DistinctDocIds(docs) && i < |docs|
    ensures |RefreshDocs(docs, rows).tasks| == |docs|
    ensures RefreshDocs(docs, rows).tasks[i] == Merged(rows, docs[i])
    ensures Row(RefreshDocs(docs, rows).rows, DocId(docs[i])) == Some(Merged(rows, docs[i]))
    ensures Lookup(RefreshDocs(docs, rows).tasks, DocId(docs[i])) == Some(Merged(rows, docs[i]))
  {
    RefreshedTaskAt(docs, rows, i);
    CacheMirrorsRows(docs, rows, DocId(docs[i]));
    LookupAt(RefreshDocs(docs, rows).tasks, i);
  }

  /** What a merge gives, it gives again. */
  lemma MergingTwice(doc: TaskDoc, persisted: Option<Task>)
    ensures MergeTask(doc, Some(MergeTask(doc, persisted))) == MergeTask(doc, persisted)
  {
  }

  ghost predicate RowsMerged(docs: seq<TaskDoc>, rows: map<string, Task>) {
    forall i :: 0 <= i < |docs| ==> Row(rows, DocId(docs[i])) == Some(Merged(rows, docs[i]))
  }

  lemma RowsMergedSnoc(docs: seq<TaskDoc>, rows: map<string, Task>)
    requires docs != []
    ensures RowsMerged(docs, rows)
       <==> RowsMerged(docs[..|docs| - 1], rows) && Row(rows, DocId(Last(docs))) == Some(Merged(rows, Last(docs)))
  {
    var front := docs[..|docs| - 1];
    assert forall i :: 0 <= i < |front| ==> front[i] == docs[i];
  }

  lemma {:induction false} MergedRowsStay(docs: seq<TaskDoc>, rows: map<string, Task>)
    requires RowsMerged(docs, rows)
    ensures RefreshDocs(docs, rows).rows == rows && RefreshDocs(docs, rows).writes == []
  {
    if docs != [] {
      RowsMergedSnoc(docs, rows);
      MergedRowsStay(docs[..|docs| - 1], rows);
    }
  }

  lemma RefreshMergesRows(docs: seq<TaskDoc>, rows: map<string, Task>)
    requires DistinctDocIds(docs)
    ensures RowsMerged(docs, RefreshDocs(docs, rows).rows)
  {
    var next := RefreshDocs(docs, rows).rows;
    forall i | 0 <= i < |docs| ensures Row(next, DocId(docs[i])) == Some(Merged(next, docs[i])) {
      RefreshIsPointwise(docs, rows, i);
      MergingTwice(docs[i], Row(rows, DocId(docs[i])));
    }
  }

  lemma SameTasksAgain(docs: seq<TaskDoc>, rows: map<string, Task>)
    requires DistinctDocIds(docs)
    ensures RefreshDocs(docs, RefreshDocs(docs, rows).rows).tasks == RefreshDocs(docs, rows).tasks
  {
    var next := RefreshDocs(docs, rows);
    var again := RefreshDocs(docs, next.rows);
    RefreshMergesRows(docs, rows);
    OneTaskPerDoc(docs, rows);
    OneTaskPerDoc(docs, next.rows);
    forall i | 0 <= i < |docs| ensures again.tasks[i] == next.tasks[i] {
      RefreshIsPointwise(docs, rows, i);
      RefreshIsPointwise(docs, next.rows, i);
    }
  }

  /** A second refresh writes no row, changes no cache entry and sends no event. */
  lemma RefreshTwiceIsRefreshOnce(s: Repository)
    requires DistinctDocIds(Scan(s.repos, s.docs))
    ensures Refresh(Refresh(s)) == Refresh(s)
  {
    RefreshTwice(Scan(s.repos, s.docs), s.rows);
    var next := RefreshDocs(Scan(s.repos, s.docs), s.rows);
    assert RefreshDocs(Scan(s.repos, s.docs), next.rows) == Refreshed(next.rows, next.tasks, []);
    assert SnapshotEvents(next.tasks, next.tasks) == [];
  }

  lemma RefreshTwice(docs: seq<TaskDoc>, rows: map<string, Task>)
    requires DistinctDocIds(docs)
    ensures var next := RefreshDocs(docs, rows);
            && RefreshDocs(docs, next.rows) == Refreshed(next.rows, next.tasks, [])
            && SnapshotEvents(next.tasks, next.tasks) == []
  {
    RefreshMergesRows(docs, rows);
    MergedRowsStay(docs, RefreshDocs(docs, rows).rows);
    SameTasksAgain(docs, rows);
    CacheMirrorsRows(docs, rows, "");
    SameSnapshotEmitsNothing(RefreshDocs(docs, rows).tasks);
  }

  /** A refresh is silent on the database exactly when every row is already what its document makes it. */
  lemma {:induction false} NothingWrittenExactly(docs: seq<TaskDoc>, rows: map<string, Task>)
    ensures RefreshDocs(docs, rows).writes == [] <==> RowsMerged(docs, rows)
  {
    if docs != [] {
      var front := docs[..|docs| - 1];
      RowsMergedSnoc(docs, rows);
      NothingWrittenExactly(front, rows);
      if RowsMerged(front, rows) {
        MergedRowsStay(front, rows);
      }
    }
  }

  /** Two folders that claim one task id for different repos or paths have its row written by every refresh. */
  lemma SharedIdIsAlwaysWritten(docs: seq<TaskDoc>, rows: map<string, Task>, i: nat, j: nat)
    requires i < |docs| && j < |docs| && DocId(docs[i]) == DocId(docs[j])
    requires docs[i].repoId != docs[j].repoId || DocChangePath(docs[i]) != DocChangePath(docs[j])
    ensures RefreshDocs(docs, rows).writes != []
  {
    NothingWrittenExactly(docs, rows);
  }

  // ---------------------------------------------------------------------------
  // Documents and database agree
  // ---------------------------------------------------------------------------

  predicate SameFolder(a: TaskDoc, b: TaskDoc) {
    a.repoId == b.repoId && a.path == b.path
  }

  ghost predicate DistinctFolders(docs: seq<TaskDoc>) {
    forall i, j :: 0 <= i < j < |docs| ==> !SameFolder(docs[i], docs[j])
  }

  /** Every document is found again from its task: one per id and folder, in a registered repo. */
  ghost predicate Placed(s: Repository) {
    && DistinctDocIds(s.docs)
    && DistinctFolders(s.docs)
    && (forall i :: 0 <= i < |s.docs| ==> PlacedDoc(s.repos, s.docs[i]))
  }

  ghost predicate PlacedDoc(repos: set<string>, doc: TaskDoc) {
    && IsScanned(repos, doc)
    && NormalizeTaskPath(DocChangePath(doc)) == doc.path
  }

  ghost predicate AllScanned(repos: set<string>, docs: seq<TaskDoc>) {
    forall doc :: doc in docs ==> IsScanned(repos, doc)
  }

  lemma FrontIsScanned(repos: set<string>, docs: seq<TaskDoc>)
    requires AllScanned(repos, docs) && docs != []
    ensures AllScanned(repos, docs[..|docs| - 1]) && IsScanned(repos, Last(docs))
  {
  }

  lemma ScanReadsLast(repos: set<string>, docs: seq<TaskDoc>)
    requires docs != [] && IsScanned(repos, Last(docs)) && Scan(repos, docs[..|docs| - 1]) == docs[..|docs| - 1]
    ensures Scan(repos, docs) == docs
  {
    assert docs == docs[..|docs| - 1] + [Last(docs)];
  }

  lemma {:induction false} ScanReadsAll(repos: set<string>, docs: seq<TaskDoc>)
    requires AllScanned(repos, docs)
    ensures Scan(repos, docs) == docs
  {
    if docs != [] {
      FrontIsScanned(repos, docs);
      ScanReadsAll(repos, docs[..|docs| - 1]);
      ScanReadsLast(repos, docs);
    }
  }

  lemma PlacedIsScanned(s: Repository)
    requires Placed(s)
    ensures Scan(s.repos, s.docs) == s.docs
  {
    forall doc | doc in s.docs ensures IsScanned(s.repos, doc) {
      assert PlacedDoc(s.repos, doc);
    }
    ScanReadsAll(s.repos, s.docs);
  }

  ghost predicate AgreesWith(rows: map<string, Task>, doc: TaskDoc) {
    DocId(doc) in rows && rows[DocId(doc)].status == DocStatus(doc)
  }

  ghost predicate DocsAgree(docs: seq<TaskDoc>, rows: map<string, Task>) {
    forall i :: 0 <= i < |docs| ==> AgreesWith(rows, docs[i])
  }

  /** Every document that the scan reads has a row of its status. */
  ghost predicate Agreed(s: Repository) {
    DocsAgree(Scan(s.repos, s.docs), s.rows)
  }

  lemma PlacedAgrees(s: Repository)
    requires Placed(s)
    ensures Agreed(s) <==> DocsAgree(s.docs, s.rows)
  {
    PlacedIsScanned(s);
  }

  /** A row that the next refresh will not overrule. */
  ghost predicate Overrules(rows: map<string, Task>, doc: TaskDoc) {
    DocId(doc) in rows && IsHeld(rows[DocId(doc)]) && rows[DocId(doc)].status != DocStatus(doc)
  }

  ghost predicate NoneOverrules(docs: seq<TaskDoc>, rows: map<string, Task>) {
    forall i :: 0 <= i < |docs| ==> !Overrules(rows, docs[i])
  }

  /** After a refresh both stores agree, except on the rows that overrule their document. */
  lemma RefreshAgreesExactly(s: Repository)
    requires Placed(s)
    ensures Agreed(Refresh(s)) <==> NoneOverrules(s.docs, s.rows)
  {
    PlacedIsScanned(s);
    DocsAgreeExactly(s.docs, s.rows);
  }

  lemma DocsAgreeExactly(docs: seq<TaskDoc>, rows: map<string, Task>)
    requires DistinctDocIds(docs)
    ensures DocsAgree(docs, RefreshDocs(docs, rows).rows) <==> NoneOverrules(docs, rows)
  {
    forall i | 0 <= i < |docs|
      ensures AgreesWith(RefreshDocs(docs, rows).rows, docs[i]) <==> !Overrules(rows, docs[i])
    {
      RefreshIsPointwise(docs, rows, i);
      MergeAgreesExactly(docs[i], rows);
    }
  }

  lemma MergeAgreesExactly(doc: TaskDoc, rows: map<string, Task>)
    ensures Merged(rows, doc).status == DocStatus(doc) <==> !Overrules(rows, doc)
  {
  }

  lemma RefreshKeepsAgreement(s: Repository)
    requires Placed(s) && Agreed(s)
    ensures Placed(Refresh(s)) && Agreed(Refresh(s))
  {
    PlacedAgrees(s);
    forall i | 0 <= i < |s.docs| ensures !Overrules(s.rows, s.docs[i]) {
      assert AgreesWith(s.rows, s.docs[i]);
    }
    RefreshAgreesExactly(s);
  }

  lemma FindDocAt(docs: seq<TaskDoc>, i: nat)
    requires i < |docs|
    requires DistinctFolders(docs)
    ensures FindDoc(docs, docs[i].repoId, docs[i].path) == Some(i)
  {
    var found := FindDoc(docs, docs[i].repoId, docs[i].path);
    assert found.Some? && SameFolder(docs[found.value], docs[i]);
  }

  /** The documents after an update of document `i`. */
  function SyncedDocs(docs: seq<TaskDoc>, i: nat, status: Option<TaskStatus>, now: int): seq<TaskDoc>
    requires i < |docs|
  {
    if status.None? then docs else docs[i := WithStatus(docs[i], status.value, now)]
  }

  /** An update of a placed document between its two refreshes. */
  function BetweenRefreshes(s: Repository, i: nat, updates: TaskUpdate, now: int): Repository
    requires i < |s.docs|
  {
    var written := Upsert(Refresh(s), Updated(Merged(s.rows, s.docs[i]), updates, now));
    written.(docs := SyncedDocs(s.docs, i, updates.status, now))
  }

  lemma SyncOfPlaced(s: Repository, i: nat, task: Task, status: Option<TaskStatus>, now: int)
    requires DistinctFolders(s.docs) && i < |s.docs| && PlacedDoc(s.repos, s.docs[i])
    requires task.repoId == s.docs[i].repoId && task.changePath == DocChangePath(s.docs[i])
    ensures SyncStatus(s, task, status, now) == Ok(s.(docs := SyncedDocs(s.docs, i, status, now)))
  {
    FindDocAt(s.docs, i);
  }

  lemma UpdateOfPlaced(s: Repository, i: nat, updates: TaskUpdate, now: int)
    requires Placed(s) && i < |s.docs|
    ensures var synced := Refresh(BetweenRefreshes(s, i, updates, now));
            Update(s, DocId(s.docs[i]), updates, now) == (synced, Ok(Lookup(synced.cache, DocId(s.docs[i]))))
  {
    var existing := Merged(s.rows, s.docs[i]);
    assert Lookup(Refresh(s).cache, DocId(s.docs[i])) == Some(existing) by {
      PlacedIsScanned(s);
      RefreshIsPointwise(s.docs, s.rows, i);
    }
    SyncOfPlaced(Upsert(Refresh(s), Updated(existing, updates, now)), i, existing, updates.status, now);
  }

  lemma SyncKeepsPlaces(s: Repository, i: nat, status: Option<TaskStatus>, now: int)
    requires Placed(s) && i < |s.docs|
    ensures Placed(s.(docs := SyncedDocs(s.docs, i, status, now)))
    ensures DocId(SyncedDocs(s.docs, i, status, now)[i]) == DocId(s.docs[i])
    ensures DocStatus(SyncedDocs(s.docs, i, status, now)[i]) == status.GetOr(DocStatus(s.docs[i]))
  {
    var docs := SyncedDocs(s.docs, i, status, now);
    if status.Some? {
      StatusRoundTrip(status.value);
    }
    forall j | 0 <= j < |docs|
      ensures DocId(docs[j]) == DocId(s.docs[j])
      ensures docs[j].repoId == s.docs[j].repoId && docs[j].path == s.docs[j].path
      ensures PlacedDoc(s.repos, docs[j])
    {
      assert PlacedDoc(s.repos, s.docs[j]);
    }
  }

  /** A status goes into the first document of the task's folder, as its name and with the file's time; no more. */
  lemma SyncExactly(s: Repository, task: Task, status: Option<TaskStatus>, now: int)
    ensures var result := SyncStatus(s, task, status, now);
            var place := FindDoc(s.docs, task.repoId, NormalizeTaskPath(task.changePath));
            if status.None? || task.repoId !in s.repos then result == Ok(s)
            else if place.None? then result == Err(DocumentNotFound(task.repoId, NormalizeTaskPath(task.changePath)))
            else
              && result.Ok? && result.value == s.(docs := result.value.docs)
              && |result.value.docs| == |s.docs|
              && (forall k :: 0 <= k < |s.docs| && k != place.value ==> result.value.docs[k] == s.docs[k])
              && result.value.docs[place.value]
                 == s.docs[place.value].(status := Some(StatusText(status.value)), updatedAt := now)
  {
  }

  /** The document of an updated task afterwards. */
  function Synced(doc: TaskDoc, status: Option<TaskStatus>, now: int): TaskDoc {
    if status.None? then doc else WithStatus(doc, status.value, now)
  }

  /** What an update answers, and what the next get returns: its document and its new row together. */
  lemma UpdateReadsMerge(s: Repository, i: nat, updates: TaskUpdate, now: int)
    requires Placed(s) && i < |s.docs|
    ensures var id := DocId(s.docs[i]);
            var shown := Merged(s.rows, s.docs[i]);
            var read := MergeTask(Synced(s.docs[i], updates.status, now), Some(Updated(shown, updates, now)));
            var (after, answer) := Update(s, id, updates, now);
            Get(s, id).1 == Some(shown) && answer == Ok(Some(read)) && Get(after, id).1 == Some(read)
  {
    var between := BetweenRefreshes(s, i, updates, now);
    PlacedIsScanned(s);
    RefreshIsPointwise(s.docs, s.rows, i);
    UpdateOfPlaced(s, i, updates, now);
    SyncKeepsPlaces(s, i, updates.status, now);
    PlacedIsScanned(s.(docs := between.docs));
    RefreshIsPointwise(between.docs, between.rows, i);
    RefreshTwiceIsRefreshOnce(between);
  }

  lemma SyncedIsRead(doc: TaskDoc, shown: Task, updates: TaskUpdate, now: int)
    ensures var read := MergeTask(Synced(doc, updates.status, now), Some(Updated(shown, updates, now)));
            && (updates.status.Some? ==> read.status == updates.status.value)
            && (updates.status.None? ==>
                  (read.status == shown.status
                   <==> IsHeld(Updated(shown, updates, now)) || DocStatus(doc) == shown.status))
  {
    if updates.status.Some? {
      StatusRoundTrip(updates.status.value);
    }
  }

  /**
   What a get returns after an update, whatever was edited before it: the new status if the update
   has one, else the old one unless the task has just left the database's authority and its document
   says otherwise.
   */
  lemma UpdateIsRead(s: Repository, i: nat, updates: TaskUpdate, now: int)
    requires Placed(s) && i < |s.docs|
    ensures var id := DocId(s.docs[i]);
            var shown := Merged(s.rows, s.docs[i]);
            var (after, answer) := Update(s, id, updates, now);
            var read := Get(after, id).1;
            && Get(s, id).1 == Some(shown)
            && answer.Ok? && answer.value == read && read.Some?
            && (updates.status.Some? ==> read.value.status == updates.status.value)
            && (updates.status.None? ==>
                  (read.value.status == shown.status
                   <==> IsHeld(Updated(shown, updates, now)) || DocStatus(s.docs[i]) == shown.status))
  {
    UpdateReadsMerge(s, i, updates, now);
    SyncedIsRead(s.docs[i], Merged(s.rows, s.docs[i]), updates, now);
  }

  lemma SyncedFieldsAreRead(doc: TaskDoc, shown: Task, updates: TaskUpdate, now: int)
    ensures var read := MergeTask(Synced(doc, updates.status, now), Some(Updated(shown, updates, now)));
            && read.worktreePath == updates.worktreePath.GetOr(shown.worktreePath)
            && read.readyAt == updates.readyAt.GetOr(shown.readyAt)
            && read.preferredWorkflow == updates.preferredWorkflow.GetOr(shown.preferredWorkflow)
            && read.preferredProvider == updates.preferredProvider.GetOr(shown.preferredProvider)
            && read.retryFromStep == updates.retryFromStep.GetOr(shown.retryFromStep)
            && read.resumeInput == updates.resumeInput.GetOr(shown.resumeInput)
            && read.createdAt == shown.createdAt
            && read.baseBranch == OrElse(updates.baseBranch.GetOr(shown.baseBranch), doc.branch)
            && read.updatedAt
               == if IsHeld(Updated(shown, updates, now)) || updates.status.Some? then now else doc.updatedAt
  {
  }

  /** Every field that an update names is read back by the next get, and every other field is as before. */
  lemma UpdatedFieldsAreRead(s: Repository, i: nat, updates: TaskUpdate, now: int)
    requires Placed(s) && i < |s.docs|
    ensures var id := DocId(s.docs[i]);
            var doc := s.docs[i];
            var shown := Merged(s.rows, doc);
            var answer := Get(Update(s, id, updates, now).0, id).1;
            && answer.Some?
            && var read := answer.value;
               && read.id == id && read.repoId == shown.repoId && read.changePath == shown.changePath
               && read.worktreePath == updates.worktreePath.GetOr(shown.worktreePath)
               && read.readyAt == updates.readyAt.GetOr(shown.readyAt)
               && read.preferredWorkflow == updates.preferredWorkflow.GetOr(shown.preferredWorkflow)
               && read.preferredProvider == updates.preferredProvider.GetOr(shown.preferredProvider)
               && read.retryFromStep == updates.retryFromStep.GetOr(shown.retryFromStep)
               && read.resumeInput == updates.resumeInput.GetOr(shown.resumeInput)
               && read.createdAt == shown.createdAt
               && read.baseBranch == OrElse(updates.baseBranch.GetOr(shown.baseBranch), doc.branch)
               && read.updatedAt
                  == if IsHeld(Updated(shown, updates, now)) || updates.status.Some? then now else doc.updatedAt
  {
    UpdateReadsMerge(s, i, updates, now);
    SyncedFieldsAreRead(s.docs[i], Merged(s.rows, s.docs[i]), updates, now);
  }

  lemma WriteKeepsAgreement(docs: seq<TaskDoc>, rows: map<string, Task>, i: nat, doc: TaskDoc, task: Task)
    requires DistinctDocIds(docs) && DocsAgree(docs, rows) && i < |docs|
    requires DocId(doc) == DocId(docs[i]) == task.id && DocStatus(doc) == task.status
    ensures DocsAgree(docs[i := doc], rows[task.id := task])
  {
    var written := docs[i := doc];
    forall j | 0 <= j < |written| ensures AgreesWith(rows[task.id := task], written[j]) {
      assert AgreesWith(rows, docs[j]);
      assert j != i ==> DocId(docs[j]) != DocId(docs[i]);
    }
  }

  lemma BetweenAgrees(s: Repository, i: nat, updates: TaskUpdate, now: int)
    requires Placed(s) && Agreed(s) && i < |s.docs|
    ensures Placed(BetweenRefreshes(s, i, updates, now)) && Agreed(BetweenRefreshes(s, i, updates, now))
  {
    var between := BetweenRefreshes(s, i, updates, now);
    SyncKeepsPlaces(s, i, updates.status, now);
    BetweenDocsAgree(s, i, updates, now);
    assert Placed(between);
    PlacedAgrees(between);
  }

  lemma BetweenDocsAgree(s: Repository, i: nat, updates: TaskUpdate, now: int)
    requires Placed(s) && Agreed(s) && i < |s.docs|
    ensures DocsAgree(BetweenRefreshes(s, i, updates, now).docs, BetweenRefreshes(s, i, updates, now).rows)
  {
    PlacedAgrees(s);
    RefreshKeepsAgreement(s);
    PlacedAgrees(Refresh(s));
    SyncKeepsPlaces(s, i, updates.status, now);
    assert AgreesWith(s.rows, s.docs[i]);
    MergeAgreesExactly(s.docs[i], s.rows);
    var docs := SyncedDocs(s.docs, i, updates.status, now);
    assert docs == s.docs[i := docs[i]];
    WriteKeepsAgreement(s.docs, Refresh(s).rows, i, docs[i], Updated(Merged(s.rows, s.docs[i]), updates, now));
  }

  lemma UpdateKeepsAgreement(s: Repository, id: string, updates: TaskUpdate, now: int)
    requires Placed(s) && Agreed(s)
    ensures var (after, answer) := Update(s, id, updates, now);
            Placed(after) && Agreed(after) && answer.Ok?
  {
    if i: nat :| i < |s.docs| && DocId(s.docs[i]) == id {
      UpdateOfPlaced(s, i, updates, now);
      BetweenAgrees(s, i, updates, now);
      RefreshKeepsAgreement(BetweenRefreshes(s, i, updates, now));
    } else {
      PlacedIsScanned(s);
      UndocumentedRowStays(s.docs, s.rows, id);
      RefreshKeepsAgreement(s);
    }
  }

  lemma MarkRemovedKeepsAgreement(s: Repository, id: string, now: int)
    requires Placed(s) && Agreed(s)
    ensures var (after, answer) := MarkRemoved(s, id, now);
            Placed(after) && Agreed(after) && answer.Ok?
  {
    RefreshKeepsAgreement(s);
    UpdateKeepsAgreement(Refresh(s), id, NoUpdate.(status := Some(Removed)), now);
  }

  /** Removal is refused for a missing or WORKING task, and otherwise the task reads as REMOVED. */
  lemma MarkRemovedExactly(s: Repository, i: nat, now: int)
    requires Placed(s) && i < |s.docs|
    ensures var id := DocId(s.docs[i]);
            var (after, answer) := MarkRemoved(s, id, now);
            var shown := Merged(s.rows, s.docs[i]).status;
            && answer == Ok(shown != Working)
            && Get(after, id).1.Some?
            && Get(after, id).1.value.status == if shown == Working then Working else Removed
  {
    PlacedIsScanned(s);
    RefreshIsPointwise(s.docs, s.rows, i);
    RefreshTwiceIsRefreshOnce(s);
    var refreshed := Refresh(s);
    RefreshIsPointwise(refreshed.docs, refreshed.rows, i);
    if Merged(s.rows, s.docs[i]).status != Working {
      UpdateIsRead(refreshed, i, NoUpdate.(status := Some(Removed)), now);
    }
  }

  /** A new task in a scanned folder, under an id that no other folder claims. */
  ghost predicate Creatable(s: Repository, task: Task) {
    && task.repoId in s.repos
    && IsTaskFolder(NormalizeTaskPath(task.changePath))
    && Claimable(s.docs, NewDoc(task, 0))
  }

  ghost predicate Claimable(docs: seq<TaskDoc>, doc: TaskDoc) {
    forall i :: 0 <= i < |docs| && !SameFolder(docs[i], doc) ==> DocId(docs[i]) != DocId(doc)
  }

  /** The other documents stay, in their order. */
  lemma WrittenDocAt(docs: seq<TaskDoc>, doc: TaskDoc, at: nat, j: nat) returns (source: nat)
    requires DistinctFolders(docs) && j < |WriteDoc(docs, doc, at)|
    ensures var written := WriteDoc(docs, doc, at);
            && (written[j] == doc || (source < |docs| && written[j] == docs[source] && !SameFolder(docs[source], doc)))
  {
    match FindDoc(docs, doc.repoId, doc.path)
    case Some(i) =>
      assert SameFolder(docs[i], doc);
      source := j;
    case None =>
      source := if j < at || at > |docs| then j else if j == 0 then 0 else j - 1;
  }

  predicate Apart(a: TaskDoc, b: TaskDoc) {
    DocId(a) != DocId(b) && !SameFolder(a, b)
  }

  lemma InsertKeepsApart(docs: seq<TaskDoc>, doc: TaskDoc, at: nat)
    requires at <= |docs| && forall i, j :: 0 <= i < j < |docs| ==> Apart(docs[i], docs[j])
    requires forall i :: 0 <= i < |docs| ==> Apart(docs[i], doc)
    ensures var written := docs[..at] + [doc] + docs[at..];
            forall i, j :: 0 <= i < j < |written| ==> Apart(written[i], written[j])
  {
    var written := docs[..at] + [doc] + docs[at..];
    forall i, j | 0 <= i < j < |written| ensures Apart(written[i], written[j]) {
      var a, b := if i < at then i else i - 1, if j < at then j else j - 1;
      if i == at {
        assert Apart(docs[b], doc);
      } else if j == at {
        assert Apart(docs[a], doc);
      } else {
        assert Apart(docs[a], docs[b]);
      }
    }
  }

  lemma ReplaceKeepsApart(docs: seq<TaskDoc>, doc: TaskDoc, at: nat)
    requires at < |docs| && forall i, j :: 0 <= i < j < |docs| ==> Apart(docs[i], docs[j])
    requires forall i :: 0 <= i < |docs| && i != at ==> Apart(docs[i], doc)
    ensures var written := docs[at := doc];
            forall i, j :: 0 <= i < j < |written| ==> Apart(written[i], written[j])
  {
    var written := docs[at := doc];
    forall i, j | 0 <= i < j < |written| ensures Apart(written[i], written[j]) {
      assert Apart(docs[i], docs[j]);
    }
  }

  lemma WriteKeepsApart(docs: seq<TaskDoc>, doc: TaskDoc, at: nat)
    requires Claimable(docs, doc) && forall i, j :: 0 <= i < j < |docs| ==> Apart(docs[i], docs[j])
    ensures var written := WriteDoc(docs, doc, at);
            forall i, j :: 0 <= i < j < |written| ==> Apart(written[i], written[j])
  {
    match FindDoc(docs, doc.repoId, doc.path)
    case Some(place) =>
      forall i | 0 <= i < |docs| && i != place ensures Apart(docs[i], doc) {
        assert SameFolder(docs[place], doc);
        assert if i < place then Apart(docs[i], docs[place]) else Apart(docs[place], docs[i]);
      }
      ReplaceKeepsApart(docs, doc, place);
    case None =>
      forall i | 0 <= i < |docs| ensures Apart(docs[i], doc) {
        assert !SameFolder(docs[i], doc);
      }
      InsertKeepsApart(docs, doc, if at <= |docs| then at else |docs|);
      assert docs[..|docs|] + [doc] + docs[|docs|..] == docs + [doc];
  }

  lemma WriteKeepsIds(docs: seq<TaskDoc>, doc: TaskDoc, at: nat)
    requires DistinctFolders(docs) && DistinctDocIds(docs) && Claimable(docs, doc)
    ensures DistinctDocIds(WriteDoc(docs, doc, at)) && DistinctFolders(WriteDoc(docs, doc, at))
  {
    WriteKeepsApart(docs, doc, at);
  }

  lemma WriteKeepsPlaces(s: Repository, doc: TaskDoc, at: nat)
    requires Placed(s) && PlacedDoc(s.repos, doc) && Claimable(s.docs, doc)
    ensures Placed(s.(docs := WriteDoc(s.docs, doc, at)))
  {
    var docs := WriteDoc(s.docs, doc, at);
    WriteKeepsIds(s.docs, doc, at);
    forall j: nat | j < |docs| ensures PlacedDoc(s.repos, docs[j]) {
      var source := WrittenDocAt(s.docs, doc, at, j);
    }
  }

  lemma CreationKeepsAgreement(docs: seq<TaskDoc>, rows: map<string, Task>, doc: TaskDoc, at: nat, task: Task)
    requires DistinctFolders(docs) && DocsAgree(docs, rows) && Claimable(docs, doc)
    requires DocId(doc) == task.id && DocStatus(doc) == task.status
    ensures DocsAgree(WriteDoc(docs, doc, at), rows[task.id := task])
  {
    var written := WriteDoc(docs, doc, at);
    forall j: nat | j < |written| ensures AgreesWith(rows[task.id := task], written[j]) {
      var source := WrittenDocAt(docs, doc, at, j);
      if written[j] != doc {
        assert AgreesWith(rows, docs[source]);
      }
    }
  }

  lemma CreateKeepsAgreement(s: Repository, task: Task, at: nat, now: int)
    requires Placed(s) && Agreed(s) && Creatable(s, task)
    ensures var (after, answer) := Create(s, task, at, now);
            Placed(after) && Agreed(after) && answer.Ok?
  {
    var written := Written(s, task, at, now);
    WrittenAgrees(s, task, at, now);
    RefreshKeepsAgreement(written);
    CreateOfPlaced(s, task, at, now);
  }

  lemma WrittenAgrees(s: Repository, task: Task, at: nat, now: int)
    requires Placed(s) && Agreed(s) && Creatable(s, task)
    ensures Placed(Written(s, task, at, now)) && Agreed(Written(s, task, at, now))
  {
    PlacedAgrees(s);
    NewDocIsPlaced(s.repos, s.docs, task, now);
    WriteKeepsPlaces(s, NewDoc(task, now), at);
    CreationKeepsAgreement(s.docs, s.rows, NewDoc(task, now), at, task);
    PlacedAgrees(Written(s, task, at, now));
  }

  /** Without its repo a creation does nothing. */
  lemma CreateNeedsRepo(s: Repository, task: Task, at: nat, now: int)
    ensures task.repoId !in s.repos ==> Create(s, task, at, now) == (s, Err(RepoNotFound(task.repoId)))
    ensures Create(s, task, at, now).1.Err? ==> task.repoId !in s.repos
  {
  }

  /** The new document: the task's own id and status, in the folder of its path. */
  lemma NewDocExactly(task: Task, now: int)
    ensures NewDoc(task, now)
         == TaskDoc(task.repoId, NormalizeTaskPath(task.changePath), Some(task.id), Some(StatusText(task.status)),
                    task.createdAt, now, None, None)
  {
  }

  lemma NewDocIsMerged(task: Task, now: int)
    ensures MergeTask(NewDoc(task, now), Some(task))
         == task.(changePath := MergeTask(NewDoc(task, now), Some(task)).changePath,
                  updatedAt := if IsHeld(task) then task.updatedAt else now)
    ensures DocId(NewDoc(task, now)) == task.id
  {
    StatusRoundTrip(task.status);
  }

  /**
   A created task is read back as it was given, with its path normalized and, unless it is held, the
   document's time. The answer is the cached task under the id derived from the path, else the new one.
   */
  lemma CreatedIsRead(s: Repository, task: Task, at: nat, now: int)
    requires Placed(s) && Agreed(s) && Creatable(s, task)
    ensures var (after, answer) := Create(s, task, at, now);
            var derived := Lookup(after.cache, TaskIdFor(task.repoId, NormalizeTaskPath(task.changePath)));
            && Lookup(after.cache, task.id).Some?
            && var read := Lookup(after.cache, task.id).value;
               && read.id == task.id && read.repoId == task.repoId && read.status == task.status
               && read.baseBranch == task.baseBranch && SameRuntimeFields(read, task)
               && read.updatedAt == (if IsHeld(task) then task.updatedAt else now)
               && answer == Ok(if derived.Some? then derived.value else read)
  {
    var written := Written(s, task, at, now);
    var doc := NewDoc(task, now);
    WrittenAgrees(s, task, at, now);
    PlacedIsScanned(written);
    CreateOfPlaced(s, task, at, now);
    var k := WrittenDocIsThere(s.docs, doc, at);
    NewDocIsMerged(task, now);
    RefreshIsPointwise(written.docs, written.rows, k);
    ReadDocIsMerged(written.docs, written.rows, k);
  }

  /** A creation before its refresh. */
  function Written(s: Repository, task: Task, at: nat, now: int): Repository {
    Upsert(s.(docs := WriteDoc(s.docs, NewDoc(task, now), at)), task)
  }

  lemma WrittenDocIsThere(docs: seq<TaskDoc>, doc: TaskDoc, at: nat) returns (k: nat)
    ensures k < |WriteDoc(docs, doc, at)| && WriteDoc(docs, doc, at)[k] == doc
  {
    var place := FindDoc(docs, doc.repoId, doc.path);
    k := if place.Some? then place.value else if at <= |docs| then at else |docs|;
  }

  /** The new document is read by the refresh that follows, so the fallback writes nothing. */
  lemma CreateOfPlaced(s: Repository, task: Task, at: nat, now: int)
    requires task.repoId in s.repos && Placed(Written(s, task, at, now))
    ensures Create(s, task, at, now).0 == Refresh(Written(s, task, at, now)) && Create(s, task, at, now).1.Ok?
  {
    var written := Written(s, task, at, now);
    var k := WrittenDocIsThere(s.docs, NewDoc(task, now), at);
    PlacedIsScanned(written);
    ReadDocIsMerged(written.docs, written.rows, k);
  }

  lemma ReadDocIsMerged(docs: seq<TaskDoc>, rows: map<string, Task>, k: nat)
    requires DistinctDocIds(docs) && k < |docs|
    ensures var next := RefreshDocs(docs, rows).rows;
            Row(next, DocId(docs[k])) == Some(Merged(next, docs[k]))
  {
    RefreshMergesRows(docs, rows);
  }

  lemma NewDocIsPlaced(repos: set<string>, docs: seq<TaskDoc>, task: Task, now: int)
    requires task.repoId in repos && IsTaskFolder(NormalizeTaskPath(task.changePath))
    requires Claimable(docs, NewDoc(task, 0))
    ensures PlacedDoc(repos, NewDoc(task, now)) && Claimable(docs, NewDoc(task, now))
    ensures DocId(NewDoc(task, now)) == task.id && DocStatus(NewDoc(task, now)) == task.status
  {
    StatusRoundTrip(task.status);
    forall i | 0 <= i < |docs| && !SameFolder(docs[i], NewDoc(task, now)) ensures DocId(docs[i]) != task.id {
      assert !SameFolder(docs[i], NewDoc(task, 0));
    }
  }

  // ---------------------------------------------------------------------------
  // Runs
  // ---------------------------------------------------------------------------

  datatype StoreAction =
    | GetTask(id: string)
    | UpdateTask(id: string, updates: TaskUpdate, now: int)
    | RemoveTask(id: string, now: int)
    | CreateTask(task: Task, at: nat, now: int)
    | EditDocs(docs: seq<TaskDoc>)

  function Perform(s: Repository, action: StoreAction): Repository {
    match action
    case GetTask(id) => Get(s, id).0
    case UpdateTask(id, updates, now) => Update(s, id, updates, now).0
    case RemoveTask(id, now) => MarkRemoved(s, id, now).0
    case CreateTask(task, at, now) => Create(s, task, at, now).0
    case EditDocs(docs) => s.(docs := docs)
  }

  function PerformAll(s: Repository, actions: seq<StoreAction>): Repository {
    if actions == [] then s else Perform(PerformAll(s, actions[..|actions| - 1]), Last(actions))
  }

  /** No edits from outside, and no new task under an id already taken. */
  ghost predicate Orderly(s: Repository, action: StoreAction) {
    match action
    case EditDocs(_) => false
    case CreateTask(task, _, _) => Creatable(s, task)
    case _ => true
  }

  ghost predicate AllOrderly(s: Repository, actions: seq<StoreAction>) {
    actions == []
    || (AllOrderly(s, actions[..|actions| - 1]) && Orderly(PerformAll(s, actions[..|actions| - 1]), Last(actions)))
  }

  lemma ActionKeepsAgreement(s: Repository, action: StoreAction)
    requires Placed(s) && Agreed(s) && Orderly(s, action)
    ensures Placed(Perform(s, action)) && Agreed(Perform(s, action))
  {
    match action
    case GetTask(id) => RefreshKeepsAgreement(s);
    case UpdateTask(id, updates, now) => UpdateKeepsAgreement(s, id, updates, now);
    case RemoveTask(id, now) => MarkRemovedKeepsAgreement(s, id, now);
    case CreateTask(task, at, now) => CreateKeepsAgreement(s, task, at, now);
  }

  /** Without outside edits, document and row agree on every status after every operation of a run. */
  lemma {:induction false} RunKeepsAgreement(s: Repository, actions: seq<StoreAction>)
    requires Placed(s) && Agreed(s) && AllOrderly(s, actions)
    ensures Placed(PerformAll(s, actions)) && Agreed(PerformAll(s, actions))
  {
    if actions != [] {
      var front := actions[..|actions| - 1];
      RunKeepsAgreement(s, front);
      ActionKeepsAgreement(PerformAll(s, front), Last(actions));
    }
  }

  /** A client that has followed every event since it saw an empty board. */
  ghost predicate Streamed(s: Repository) {
    DistinctIds(s.cache) && Dashboard.Lists(Dashboard.HandleAll(Dashboard.Client([], 0, 0), s.events), s.cache)
  }

  lemma RefreshKeepsStream(s: Repository)
    requires Streamed(s)
    ensures Streamed(Refresh(s))
  {
    var next := Refresh(s).cache;
    var empty := Dashboard.Client([], 0, 0);
    CacheMirrorsRows(Scan(s.repos, s.docs), s.rows, "");
    Dashboard.ReplayLists(Dashboard.HandleAll(empty, s.events), s.cache, next);
    Dashboard.HandleConcat(empty, s.events, SnapshotEvents(s.cache, next));
  }

  lemma UpdateKeepsStream(s: Repository, id: string, updates: TaskUpdate, now: int)
    requires Streamed(s)
    ensures Streamed(Update(s, id, updates, now).0)
  {
    var refreshed := Refresh(s);
    RefreshKeepsStream(s);
    match Lookup(refreshed.cache, id)
    case None =>
    case Some(existing) =>
      match SyncStatus(Upsert(refreshed, Updated(existing, updates, now)), existing, updates.status, now)
      case Err(_) =>
      case Ok(synced) => RefreshKeepsStream(synced);
  }

  lemma RemovalKeepsStream(s: Repository, id: string, now: int)
    requires Streamed(s)
    ensures Streamed(MarkRemoved(s, id, now).0)
  {
    RefreshKeepsStream(s);
    UpdateKeepsStream(Refresh(s), id, NoUpdate.(status := Some(Removed)), now);
  }

  lemma CreationKeepsStream(s: Repository, task: Task, at: nat, now: int)
    requires Streamed(s)
    ensures Streamed(Create(s, task, at, now).0)
  {
    RefreshKeepsStream(Written(s, task, at, now));
  }

  lemma ActionKeepsStream(s: Repository, action: StoreAction)
    requires Streamed(s)
    ensures Streamed(Perform(s, action))
  {
    match action
    case GetTask(_) => RefreshKeepsStream(s);
    case UpdateTask(id, updates, now) => UpdateKeepsStream(s, id, updates, now);
    case RemoveTask(id, now) => RemovalKeepsStream(s, id, now);
    case CreateTask(task, at, now) => CreationKeepsStream(s, task, at, now);
    case EditDocs(_) =>
  }

  /** Whatever is done or edited, the events alone tell a client every task of the cache and its status. */
  lemma {:induction false} EventsTellTheCache(s: Repository, actions: seq<StoreAction>)
    requires Streamed(s)
    ensures Streamed(PerformAll(s, actions))
  {
    if actions != [] {
      EventsTellTheCache(s, actions[..|actions| - 1]);
      ActionKeepsStream(PerformAll(s, actions[..|actions| - 1]), Last(actions));
    }
  }

  // ---------------------------------------------------------------------------
  // The rows are what was written
  // ---------------------------------------------------------------------------

  /** The rows after these upserts. */
  function Stored(rows: map<string, Task>, upserts: seq<Task>): map<string, Task> {
    if upserts == [] then rows
    else Stored(rows, upserts[..|upserts| - 1])[Last(upserts).id := Last(upserts)]
  }

  lemma {:induction false} StoredConcat(rows: map<string, Task>, a: seq<Task>, b: seq<Task>)
    ensures Stored(rows, a + b) == Stored(Stored(rows, a), b)
  {
    if b == [] {
      assert a + b == a;
    } else {
      assert (a + b)[..|a + b| - 1] == a + b[..|b| - 1];
      StoredConcat(rows, a, b[..|b| - 1]);
    }
  }

  lemma StoredSnoc(rows: map<string, Task>, upserts: seq<Task>, task: Task)
    ensures Stored(rows, upserts + [task]) == Stored(rows, upserts)[task.id := task]
  {
    assert (upserts + [task])[..|upserts|] == upserts;
  }

  lemma OneStoresWrite(rows: map<string, Task>, seen: Refreshed, doc: TaskDoc)
    requires seen.rows == Stored(rows, seen.writes)
    ensures RefreshOne(seen, doc).rows == Stored(rows, RefreshOne(seen, doc).writes)
  {
    StoredSnoc(rows, seen.writes, Merged(seen.rows, doc));
  }

  /** A refresh changes the rows by its writes and by nothing else. */
  lemma {:induction false} RefreshStoresWrites(docs: seq<TaskDoc>, rows: map<string, Task>)
    ensures RefreshDocs(docs, rows).rows == Stored(rows, RefreshDocs(docs, rows).writes)
  {
    if docs != [] {
      RefreshStoresWrites(docs[..|docs| - 1], rows);
      OneStoresWrite(rows, RefreshDocs(docs[..|docs| - 1], rows), Last(docs));
    }
  }

  /** The rows are the first ones with every upsert since applied. */
  ghost predicate Recorded(s: Repository, first: map<string, Task>) {
    s.rows == Stored(first, s.upserts)
  }

  lemma RefreshKeepsRecord(s: Repository, first: map<string, Task>)
    requires Recorded(s, first)
    ensures Recorded(Refresh(s), first)
  {
    var writes := RefreshDocs(Scan(s.repos, s.docs), s.rows).writes;
    RefreshStoresWrites(Scan(s.repos, s.docs), s.rows);
    StoredConcat(first, s.upserts, writes);
  }

  lemma UpsertKeepsRecord(s: Repository, task: Task, first: map<string, Task>)
    requires Recorded(s, first)
    ensures Recorded(Upsert(s, task), first)
  {
    StoredSnoc(first, s.upserts, task);
  }

  lemma UpdateKeepsRecord(s: Repository, id: string, updates: TaskUpdate, now: int, first: map<string, Task>)
    requires Recorded(s, first)
    ensures Recorded(Update(s, id, updates, now).0, first)
  {
    var refreshed := Refresh(s);
    RefreshKeepsRecord(s, first);
    match Lookup(refreshed.cache, id)
    case None =>
    case Some(existing) =>
      var written := Upsert(refreshed, Updated(existing, updates, now));
      UpsertKeepsRecord(refreshed, Updated(existing, updates, now), first);
      match SyncStatus(written, existing, updates.status, now)
      case Err(_) =>
      case Ok(synced) => RefreshKeepsRecord(synced, first);
  }

  lemma CreationKeepsRecord(s: Repository, task: Task, at: nat, now: int, first: map<string, Task>)
    requires Recorded(s, first)
    ensures Recorded(Create(s, task, at, now).0, first)
  {
    var written := Written(s, task, at, now);
    UpsertKeepsRecord(s.(docs := WriteDoc(s.docs, NewDoc(task, now), at)), task, first);
    RefreshKeepsRecord(written, first);
    UpsertKeepsRecord(Refresh(written), Merged(Refresh(written).rows, NewDoc(task, now)), first);
  }

  lemma ActionKeepsRecord(s: Repository, action: StoreAction, first: map<string, Task>)
    requires Recorded(s, first)
    ensures Recorded(Perform(s, action), first)
  {
    match action
    case GetTask(_) => RefreshKeepsRecord(s, first);
    case UpdateTask(id, updates, now) => UpdateKeepsRecord(s, id, updates, now, first);
    case RemoveTask(id, now) =>
      RefreshKeepsRecord(s, first);
      UpdateKeepsRecord(Refresh(s), id, NoUpdate.(status := Some(Removed)), now, first);
    case CreateTask(task, at, now) => CreationKeepsRecord(s, task, at, now, first);
    case EditDocs(_) =>
  }

  /** Over every run, outside edits included, the rows are exactly what was upserted. */
  lemma {:induction false} UpsertsTellTheRows(s: Repository, actions: seq<StoreAction>, first: map<string, Task>)
    requires Recorded(s, first)
    ensures Recorded(PerformAll(s, actions), first)
  {
    if actions != [] {
      UpsertsTellTheRows(s, actions[..|actions| - 1], first);
      ActionKeepsRecord(PerformAll(s, actions[..|actions| - 1]), Last(actions), first);
    }
  }
}
