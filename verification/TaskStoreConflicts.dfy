/**
 Documents that share a task id, or name another folder than their own: exactly when a refresh goes
 on writing, when an update fails half-way, and when it takes documents and database apart.
 */
module TaskStoreConflicts {
  import opened Collections
  import opened TaskModel
  import opened TaskDocs
  import opened TaskStore
  import opened TaskStoreRuns

  // ---------------------------------------------------------------------------
  // Several documents for one task
  // ---------------------------------------------------------------------------

  /** A document has nothing to add to a row. */
  lemma MergeIsQuietExactly(doc: TaskDoc, row: Task)
    ensures MergeTask(doc, Some(row)) == row
       <==> && DocId(doc) == row.id && doc.repoId == row.repoId && DocChangePath(doc) == row.changePath
            && (row.baseBranch.Some? || doc.branch.None?)
            && (IsHeld(row) || (DocStatus(doc) == row.status && doc.updatedAt == row.updatedAt))
  {
  }

  ghost predicate Claims(docs: seq<TaskDoc>, id: string, k: int) {
    0 <= k < |docs| && DocId(docs[k]) == id
  }

  predicate SaysItRuns(docs: seq<TaskDoc>, id: string) {
    docs != []
    && ((DocId(Last(docs)) == id && DocStatus(Last(docs)) in {Working, Resuming, Paused})
        || SaysItRuns(docs[..|docs| - 1], id))
  }

  /** The row is authoritative already, or some document of the task says that it runs. */
  predicate TurnsAuthoritative(docs: seq<TaskDoc>, rows: map<string, Task>, id: string) {
    (id in rows && IsHeld(rows[id])) || SaysItRuns(docs, id)
  }

  lemma {:induction false} AuthorityAfter(docs: seq<TaskDoc>, rows: map<string, Task>, id: string)
    ensures var next := RefreshDocs(docs, rows).rows;
            (id in next && IsHeld(next[id])) <==> TurnsAuthoritative(docs, rows, id)
  {
    if docs != [] {
      AuthorityAfter(docs[..|docs| - 1], rows, id);
    }
  }

  ghost predicate Shows(rows: map<string, Task>, id: string, doc: TaskDoc) {
    && id in rows && rows[id].id == id
    && rows[id].repoId == doc.repoId && rows[id].changePath == DocChangePath(doc)
    && (IsHeld(rows[id])
        || (rows[id].status == DocStatus(doc) && rows[id].updatedAt == doc.updatedAt))
  }

  lemma ReadingShows(rows: map<string, Task>, doc: TaskDoc, id: string, shown: TaskDoc)
    requires if DocId(doc) == id then doc == shown else Shows(rows, id, shown)
    ensures Shows(rows[DocId(doc) := Merged(rows, doc)], id, shown)
  {
  }

  ghost predicate IsLastClaim(docs: seq<TaskDoc>, id: string, k: int) {
    Claims(docs, id, k) && forall l :: k < l < |docs| ==> DocId(docs[l]) != id
  }

  lemma LastClaimOfFront(docs: seq<TaskDoc>, id: string, k: nat)
    requires IsLastClaim(docs, id, k) && k < |docs| - 1
    ensures IsLastClaim(docs[..|docs| - 1], id, k) && docs[..|docs| - 1][k] == docs[k] && DocId(Last(docs)) != id
  {
  }

  /** The last document of a task decides where it lies and, unless the task runs, its status. */
  lemma {:induction false} LastClaimWins(docs: seq<TaskDoc>, rows: map<string, Task>, id: string, k: nat)
    requires IsLastClaim(docs, id, k)
    ensures Shows(RefreshDocs(docs, rows).rows, id, docs[k])
  {
    var front := docs[..|docs| - 1];
    if k < |front| {
      LastClaimOfFront(docs, id, k);
      LastClaimWins(front, rows, id, k);
    }
    ReadingShows(RefreshDocs(front, rows).rows, Last(docs), id, docs[k]);
  }

  lemma BranchStays(rows: map<string, Task>, doc: TaskDoc, id: string)
    requires (id in rows && rows[id].baseBranch.Some?) || (DocId(doc) == id && doc.branch.Some?)
    ensures var next := rows[DocId(doc) := Merged(rows, doc)];
            id in next && next[id].baseBranch.Some?
  {
  }

  lemma {:induction false} BranchAfter(docs: seq<TaskDoc>, rows: map<string, Task>, id: string, k: nat)
    requires Claims(docs, id, k) && docs[k].branch.Some?
    ensures id in RefreshDocs(docs, rows).rows && RefreshDocs(docs, rows).rows[id].baseBranch.Some?
  {
    var front := docs[..|docs| - 1];
    if k < |front| {
      assert front[k] == docs[k];
      BranchAfter(front, rows, id, k);
    }
    BranchStays(RefreshDocs(front, rows).rows, docs[|docs| - 1], id);
  }

  lemma {:induction false} LastClaim(docs: seq<TaskDoc>, id: string, k: nat) returns (last: nat)
    requires Claims(docs, id, k)
    ensures IsLastClaim(docs, id, last)
    decreases |docs| - k
  {
    if l :| k < l < |docs| && DocId(docs[l]) == id {
      last := LastClaim(docs, id, l);
    } else {
      last := k;
    }
  }

  /** The two documents make the same row of their task. */
  ghost predicate SameRow(docs: seq<TaskDoc>, rows: map<string, Task>, a: TaskDoc, b: TaskDoc) {
    && a.repoId == b.repoId && DocChangePath(a) == DocChangePath(b)
    && (TurnsAuthoritative(docs, rows, DocId(a)) || (DocStatus(a) == DocStatus(b) && a.updatedAt == b.updatedAt))
  }

  lemma MergedAfterExactly(docs: seq<TaskDoc>, rows: map<string, Task>, i: nat, last: nat)
    requires i < |docs| && IsLastClaim(docs, DocId(docs[i]), last)
    ensures var next := RefreshDocs(docs, rows).rows;
            Row(next, DocId(docs[i])) == Some(Merged(next, docs[i])) <==> SameRow(docs, rows, docs[i], docs[last])
  {
    var id := DocId(docs[i]);
    var next := RefreshDocs(docs, rows).rows;
    AuthorityAfter(docs, rows, id);
    LastClaimWins(docs, rows, id, last);
    MergeIsQuietExactly(docs[i], next[id]);
    if docs[i].branch.Some? {
      assert Claims(docs, id, i);
      BranchAfter(docs, rows, id, i);
    }
  }

  /** After one refresh the next one writes nothing exactly when documents of one task make the same row. */
  lemma SecondRefreshSilentExactly(docs: seq<TaskDoc>, rows: map<string, Task>)
    ensures RefreshDocs(docs, RefreshDocs(docs, rows).rows).writes == []
       <==> forall i, j :: 0 <= i < |docs| && 0 <= j < |docs| && DocId(docs[i]) == DocId(docs[j]) ==>
              SameRow(docs, rows, docs[i], docs[j])
  {
    var next := RefreshDocs(docs, rows).rows;
    NothingWrittenExactly(docs, next);
    if RowsMerged(docs, next) {
      forall i, j | 0 <= i < |docs| && 0 <= j < |docs| && DocId(docs[i]) == DocId(docs[j])
        ensures SameRow(docs, rows, docs[i], docs[j])
      {
        var last := LastClaim(docs, DocId(docs[i]), i);
        MergedAfterExactly(docs, rows, i, last);
        MergedAfterExactly(docs, rows, j, last);
      }
    }
    if forall i, j :: 0 <= i < |docs| && 0 <= j < |docs| && DocId(docs[i]) == DocId(docs[j]) ==>
         SameRow(docs, rows, docs[i], docs[j]) {
      forall i | 0 <= i < |docs| ensures Row(next, DocId(docs[i])) == Some(Merged(next, docs[i])) {
        var last := LastClaim(docs, DocId(docs[i]), i);
        MergedAfterExactly(docs, rows, i, last);
      }
    }
  }

  // ---------------------------------------------------------------------------
  // A document that names another folder
  // ---------------------------------------------------------------------------

  ghost predicate DistinctScannedIds(repos: set<string>, docs: seq<TaskDoc>) {
    forall i, j :: 0 <= i < j < |docs| && IsScanned(repos, docs[i]) && IsScanned(repos, docs[j]) ==>
      DocId(docs[i]) != DocId(docs[j])
  }

  lemma {:induction false} ScanHolds(repos: set<string>, docs: seq<TaskDoc>, doc: TaskDoc)
    ensures doc in Scan(repos, docs) <==> doc in docs && doc.repoId in repos && IsTaskFolder(doc.path)
  {
    if docs != [] {
      var front := docs[..|docs| - 1];
      ScanHolds(repos, front, doc);
      assert docs == front + [Last(docs)];
    }
  }

  lemma {:induction false} ScanIsDistinct(repos: set<string>, docs: seq<TaskDoc>)
    requires DistinctScannedIds(repos, docs)
    ensures DistinctDocIds(Scan(repos, docs))
  {
    if docs != [] {
      var front := docs[..|docs| - 1];
      var doc := docs[|docs| - 1];
      assert forall i :: 0 <= i < |front| ==> front[i] == docs[i];
      ScanIsDistinct(repos, front);
      if IsScanned(repos, doc) {
        forall other | other in Scan(repos, front) ensures DocId(other) != DocId(doc) {
          ScanHolds(repos, front, other);
          var i :| 0 <= i < |front| && front[i] == other;
          assert docs[i] == other;
        }
      }
    }
  }

  /** The refresh of a scanned document, wherever it stands in the scan. */
  lemma ScannedIsMerged(s: Repository, i: nat)
    requires DistinctScannedIds(s.repos, s.docs) && i < |s.docs| && IsScanned(s.repos, s.docs[i])
    ensures Lookup(Refresh(s).cache, DocId(s.docs[i])) == Some(Merged(s.rows, s.docs[i]))
    ensures Row(Refresh(s).rows, DocId(s.docs[i])) == Some(Merged(s.rows, s.docs[i]))
  {
    ScanHolds(s.repos, s.docs, s.docs[i]);
    ScanIsDistinct(s.repos, s.docs);
    var scanned := Scan(s.repos, s.docs);
    var k :| 0 <= k < |scanned| && scanned[k] == s.docs[i];
    RefreshIsPointwise(scanned, s.rows, k);
  }

  /** The document that an update of this one's task writes: the one in the folder that it names. */
  function Target(s: Repository, doc: TaskDoc): Option<nat> {
    FindDoc(s.docs, doc.repoId, NormalizeTaskPath(DocChangePath(doc)))
  }

  /** The row of document `i` after an update, and before any second refresh. */
  function WrittenRow(s: Repository, i: nat, updates: TaskUpdate, now: int): Repository
    requires i < |s.docs|
  {
    Upsert(Refresh(s), Updated(Merged(s.rows, s.docs[i]), updates, now))
  }

  lemma UpdateByTarget(s: Repository, i: nat, updates: TaskUpdate, now: int)
    requires DistinctScannedIds(s.repos, s.docs) && i < |s.docs| && IsScanned(s.repos, s.docs[i])
    ensures var id := DocId(s.docs[i]);
            var written := WrittenRow(s, i, updates, now);
            var target := Target(s, s.docs[i]);
            Update(s, id, updates, now)
            == if updates.status.None? then (Refresh(written), Ok(Lookup(Refresh(written).cache, id)))
               else if target.None?
               then (written, Err(DocumentNotFound(s.docs[i].repoId, NormalizeTaskPath(DocChangePath(s.docs[i])))))
               else
                 var synced := written.(docs := SyncedDocs(s.docs, target.value, updates.status, now));
                 (Refresh(synced), Ok(Lookup(Refresh(synced).cache, id)))
  {
    ScannedIsMerged(s, i);
  }

  /**
   An update fails exactly when it carries a status and the folder that the document names holds no
   document. It has then stored the row, and left every document, this one included, as it was.
   */
  lemma UpdateFailsExactly(s: Repository, i: nat, updates: TaskUpdate, now: int)
    requires DistinctScannedIds(s.repos, s.docs) && i < |s.docs| && IsScanned(s.repos, s.docs[i])
    ensures var id := DocId(s.docs[i]);
            var (after, answer) := Update(s, id, updates, now);
            && (answer.Err? <==> updates.status.Some? && Target(s, s.docs[i]).None?)
            && (answer.Err? ==>
                  && after.docs == s.docs && after.cache == Refresh(s).cache
                  && Row(after.rows, id) == Some(Updated(Merged(s.rows, s.docs[i]), updates, now)))
  {
    UpdateByTarget(s, i, updates, now);
  }

  lemma FolderIsScanned(name: string)
    requires name != "" && '/' !in name
    ensures IsTaskFolder(TaskDir + "/" + name)
    ensures NormalizeTaskPath(TaskDir + "/" + name) == TaskDir + "/" + name
  {
    LastSegment(TaskDir, name);
  }

  /** An imported document, which names its folder, after that folder was renamed. */
  function Renamed(now: string, before: string): TaskDoc {
    TaskDoc("repo", TaskDir + "/" + now, Some("task"), Some("DRAFT"), 0, 0, None, Some(TaskDir + "/" + before))
  }

  function RenamedOnly(name: string, before: string): Repository {
    Repository({"repo"}, [Renamed(name, before)], map[], [], [], [])
  }

  lemma RenamedHasNoTarget(name: string, before: string)
    requires name != "" && '/' !in name && before != "" && '/' !in before && name != before
    ensures IsScanned({"repo"}, Renamed(name, before)) && DocStatus(Renamed(name, before)) == Draft
    ensures NormalizeTaskPath(DocChangePath(Renamed(name, before))) == TaskDir + "/" + before
    ensures Target(RenamedOnly(name, before), Renamed(name, before)).None?
  {
    FolderIsScanned(name);
    FolderIsScanned(before);
    StatusRoundTrip(Draft);
    assert (TaskDir + "/" + name)[|TaskDir| + 1..] == name;
    assert (TaskDir + "/" + before)[|TaskDir| + 1..] == before;
  }

  /** Marking its task READY fails, with the row READY and the document DRAFT. */
  lemma RenamedFolderIsHalfUpdated(name: string, before: string)
    requires name != "" && '/' !in name && before != "" && '/' !in before && name != before
    ensures var s := RenamedOnly(name, before);
            var (after, answer) := Update(s, "task", NoUpdate.(status := Some(Ready)), 1);
            && answer.Err?
            && "task" in after.rows && after.rows["task"].status == Ready
            && after.docs == [Renamed(name, before)] && DocStatus(Renamed(name, before)) == Draft
  {
    RenamedHasNoTarget(name, before);
    UpdateFailsExactly(RenamedOnly(name, before), 0, NoUpdate.(status := Some(Ready)), 1);
  }

  // ---------------------------------------------------------------------------
  // When an update keeps documents and rows in agreement
  // ---------------------------------------------------------------------------

  lemma PlaceInScan(repos: set<string>, docs: seq<TaskDoc>, k: nat) returns (i: nat)
    requires k < |docs| && IsScanned(repos, docs[k])
    ensures i < |Scan(repos, docs)| && Scan(repos, docs)[i] == docs[k]
  {
    ScanHolds(repos, docs, docs[k]);
    i :| i < |Scan(repos, docs)| && Scan(repos, docs)[i] == docs[k];
  }

  lemma PlaceInDocs(repos: set<string>, docs: seq<TaskDoc>, i: nat) returns (k: nat)
    requires i < |Scan(repos, docs)|
    ensures k < |docs| && IsScanned(repos, docs[k]) && docs[k] == Scan(repos, docs)[i]
  {
    ScanHolds(repos, docs, Scan(repos, docs)[i]);
    k :| k < |docs| && docs[k] == Scan(repos, docs)[i];
  }

  ghost predicate AllAgreeWith(repos: set<string>, docs: seq<TaskDoc>, rows: map<string, Task>) {
    forall k :: 0 <= k < |docs| && IsScanned(repos, docs[k]) ==> AgreesWith(rows, docs[k])
  }

  ghost predicate NoneOverruled(repos: set<string>, docs: seq<TaskDoc>, rows: map<string, Task>) {
    forall k :: 0 <= k < |docs| && IsScanned(repos, docs[k]) ==> !Overrules(rows, docs[k])
  }

  lemma NoneOverruledInScan(repos: set<string>, docs: seq<TaskDoc>, rows: map<string, Task>)
    requires NoneOverruled(repos, docs, rows)
    ensures NoneOverrules(Scan(repos, docs), rows)
  {
    var scanned := Scan(repos, docs);
    forall i: nat | i < |scanned| ensures !Overrules(rows, scanned[i]) {
      var k := PlaceInDocs(repos, docs, i);
      assert !Overrules(rows, docs[k]);
    }
  }

  lemma NoneOverruledInDocs(repos: set<string>, docs: seq<TaskDoc>, rows: map<string, Task>)
    requires NoneOverrules(Scan(repos, docs), rows)
    ensures NoneOverruled(repos, docs, rows)
  {
    var scanned := Scan(repos, docs);
    forall k: nat | k < |docs| && IsScanned(repos, docs[k]) ensures !Overrules(rows, docs[k]) {
      var i := PlaceInScan(repos, docs, k);
      assert !Overrules(rows, scanned[i]);
    }
  }

  lemma RefreshedParts(s: Repository)
    ensures Refresh(s).repos == s.repos && Refresh(s).docs == s.docs
    ensures Refresh(s).rows == RefreshDocs(Scan(s.repos, s.docs), s.rows).rows
  {
  }

  /** The next refresh brings documents and rows into agreement exactly if no row overrules its document. */
  lemma RefreshAgreesOnScanned(s: Repository)
    requires DistinctScannedIds(s.repos, s.docs)
    ensures Agreed(Refresh(s)) <==> NoneOverruled(s.repos, s.docs, s.rows)
  {
    RefreshedParts(s);
    ScanIsDistinct(s.repos, s.docs);
    DocsAgreeExactly(Scan(s.repos, s.docs), s.rows);
    if NoneOverruled(s.repos, s.docs, s.rows) {
      NoneOverruledInScan(s.repos, s.docs, s.rows);
    } else if NoneOverrules(Scan(s.repos, s.docs), s.rows) {
      NoneOverruledInDocs(s.repos, s.docs, s.rows);
    }
  }

  lemma AgreedOnScanned(s: Repository)
    ensures Agreed(s) <==> AllAgreeWith(s.repos, s.docs, s.rows)
  {
    if Agreed(s) {
      forall k: nat | k < |s.docs| && IsScanned(s.repos, s.docs[k]) ensures AgreesWith(s.rows, s.docs[k]) {
        var i := PlaceInScan(s.repos, s.docs, k);
      }
    }
    if AllAgreeWith(s.repos, s.docs, s.rows) {
      forall i: nat | i < |Scan(s.repos, s.docs)| ensures AgreesWith(s.rows, Scan(s.repos, s.docs)[i]) {
        var k := PlaceInDocs(s.repos, s.docs, i);
      }
    }
  }

  /** The rows before the second refresh: the updated one, and the others as their documents say. */
  lemma WrittenRowOf(s: Repository, i: nat, k: nat, updates: TaskUpdate, now: int)
    requires DistinctScannedIds(s.repos, s.docs) && Agreed(s) && i < |s.docs| && k < |s.docs|
    requires IsScanned(s.repos, s.docs[i]) && IsScanned(s.repos, s.docs[k])
    ensures Merged(s.rows, s.docs[k]).status == DocStatus(s.docs[k])
    ensures Row(WrittenRow(s, i, updates, now).rows, DocId(s.docs[k]))
         == Some(if k == i then Updated(Merged(s.rows, s.docs[i]), updates, now) else Merged(s.rows, s.docs[k]))
  {
    AgreedOnScanned(s);
    assert AgreesWith(s.rows, s.docs[k]);
    MergeAgreesExactly(s.docs[k], s.rows);
    ScannedIsMerged(s, k);
    assert k != i ==> DocId(s.docs[k]) != DocId(s.docs[i]);
  }

  /** The update writes the status into document `j`, or into none. */
  ghost predicate StaysAgreed(s: Repository, i: nat, status: TaskStatus, updated: Task)
    requires i < |s.docs|
  {
    match Target(s, s.docs[i])
    case None => status == DocStatus(s.docs[i])
    case Some(j) =>
      || j == i
      || (&& (IsHeld(updated) ==> status == DocStatus(s.docs[i]))
          && (IsScanned(s.repos, s.docs[j]) && IsHeld(Merged(s.rows, s.docs[j])) ==>
                status == DocStatus(s.docs[j])))
  }

  lemma FailedUpdateAgreesExactly(s: Repository, i: nat, updates: TaskUpdate, now: int)
    requires DistinctScannedIds(s.repos, s.docs) && Agreed(s) && i < |s.docs| && IsScanned(s.repos, s.docs[i])
    requires updates.status.Some?
    ensures AllAgreeWith(s.repos, s.docs, WrittenRow(s, i, updates, now).rows)
       <==> updates.status.value == DocStatus(s.docs[i])
  {
    var rows := WrittenRow(s, i, updates, now).rows;
    forall k: nat | k < |s.docs| && IsScanned(s.repos, s.docs[k])
      ensures AgreesWith(rows, s.docs[k]) <==> k != i || updates.status.value == DocStatus(s.docs[i])
    {
      WrittenRowOf(s, i, k, updates, now);
    }
  }

  lemma StatuslessUpdateAgrees(s: Repository, i: nat, updates: TaskUpdate, now: int)
    requires DistinctScannedIds(s.repos, s.docs) && Agreed(s) && i < |s.docs| && IsScanned(s.repos, s.docs[i])
    requires updates.status.None?
    ensures NoneOverruled(s.repos, s.docs, WrittenRow(s, i, updates, now).rows)
  {
    var rows := WrittenRow(s, i, updates, now).rows;
    forall k: nat | k < |s.docs| && IsScanned(s.repos, s.docs[k]) ensures !Overrules(rows, s.docs[k]) {
      WrittenRowOf(s, i, k, updates, now);
    }
  }

  lemma SyncedIsDistinct(repos: set<string>, docs: seq<TaskDoc>, j: nat, status: Option<TaskStatus>, now: int)
    requires DistinctScannedIds(repos, docs) && j < |docs|
    ensures DistinctScannedIds(repos, SyncedDocs(docs, j, status, now))
  {
    var synced := SyncedDocs(docs, j, status, now);
    assert forall k :: 0 <= k < |docs| ==>
      DocId(synced[k]) == DocId(docs[k]) && (IsScanned(repos, synced[k]) <==> IsScanned(repos, docs[k]));
  }

  lemma SyncedOverruledAt(s: Repository, i: nat, j: nat, k: nat, updates: TaskUpdate, now: int)
    requires DistinctScannedIds(s.repos, s.docs) && Agreed(s) && i < |s.docs| && IsScanned(s.repos, s.docs[i])
    requires updates.status.Some? && j < |s.docs| && k < |s.docs| && IsScanned(s.repos, s.docs[k])
    ensures var status := updates.status.value;
            var row := if k == i then Updated(Merged(s.rows, s.docs[i]), updates, now) else Merged(s.rows, s.docs[k]);
            Overrules(WrittenRow(s, i, updates, now).rows, SyncedDocs(s.docs, j, updates.status, now)[k])
            <==> (k == i) != (k == j) && IsHeld(row) && status != DocStatus(s.docs[k])
  {
    StatusRoundTrip(updates.status.value);
    WrittenRowOf(s, i, k, updates, now);
  }

  lemma SyncedUpdateAgreesExactly(s: Repository, i: nat, j: nat, updates: TaskUpdate, now: int)
    requires DistinctScannedIds(s.repos, s.docs) && Agreed(s) && i < |s.docs| && IsScanned(s.repos, s.docs[i])
    requires updates.status.Some? && Target(s, s.docs[i]) == Some(j) && j < |s.docs|
    ensures NoneOverruled(s.repos, SyncedDocs(s.docs, j, updates.status, now), WrittenRow(s, i, updates, now).rows)
       <==> StaysAgreed(s, i, updates.status.value, Updated(Merged(s.rows, s.docs[i]), updates, now))
  {
    var docs := SyncedDocs(s.docs, j, updates.status, now);
    var rows := WrittenRow(s, i, updates, now).rows;
    forall k: nat | k < |docs| && IsScanned(s.repos, docs[k]) && k != i && k != j ensures !Overrules(rows, docs[k]) {
      SyncedOverruledAt(s, i, j, k, updates, now);
    }
    assert IsScanned(s.repos, docs[i]) && (IsScanned(s.repos, docs[j]) <==> IsScanned(s.repos, s.docs[j]));
    SyncedOverruledAt(s, i, j, i, updates, now);
    if IsScanned(s.repos, s.docs[j]) {
      SyncedOverruledAt(s, i, j, j, updates, now);
    }
  }

  /**
   Documents and rows that agree still do after an update exactly when it has no status, or writes its
   own document, or the status it puts elsewhere, or nowhere, is not contradicted: by its own document
   while the task is authoritative, or by an authoritative task of the other document.
   */
  lemma UpdateAgreesExactly(s: Repository, i: nat, updates: TaskUpdate, now: int)
    requires DistinctScannedIds(s.repos, s.docs) && Agreed(s) && i < |s.docs| && IsScanned(s.repos, s.docs[i])
    ensures Agreed(Update(s, DocId(s.docs[i]), updates, now).0)
       <==> updates.status.None?
            || StaysAgreed(s, i, updates.status.value, Updated(Merged(s.rows, s.docs[i]), updates, now))
  {
    var written := WrittenRow(s, i, updates, now);
    UpdateByTarget(s, i, updates, now);
    if updates.status.None? {
      StatuslessUpdateAgrees(s, i, updates, now);
      RefreshAgreesOnScanned(written);
    } else if Target(s, s.docs[i]).None? {
      FailedUpdateAgreesExactly(s, i, updates, now);
      AgreedOnScanned(written);
    } else {
      var j := Target(s, s.docs[i]).value;
      SyncedUpdateAgreesExactly(s, i, j, updates, now);
      SyncedIsDistinct(s.repos, s.docs, j, updates.status, now);
      RefreshAgreesOnScanned(written.(docs := SyncedDocs(s.docs, j, updates.status, now)));
    }
  }
}
