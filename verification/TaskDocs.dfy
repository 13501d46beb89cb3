/** The task documents on disk: their status text and the folders they live in. */
module TaskDocs {
  import opened Collections
  import opened TaskModel

  /**
   What `parseTaskDoc` reads from one `task.md`. `status` is the raw frontmatter value, None when it
   is not a string; `updatedAt` is the file's modification time.
   */
  datatype TaskDoc = TaskDoc(
    repoId: string,
    path: string,
    id: Option<string>,
    status: Option<string>,
    createdAt: int,
    updatedAt: int,
    branch: Option<string>,
    changePath: Option<string>)

  // ---------------------------------------------------------------------------
  // Status text
  // ---------------------------------------------------------------------------

  /** `toUpperCase` on ASCII letters. */
  function UpperCase(text: string): string {
    if text == [] then []
    else [if 'a' <= text[0] <= 'z' then text[0] - 'a' + 'A' else text[0]] + UpperCase(text[1..])
  }

  function StatusText(status: TaskStatus): string {
    match status
    case Draft => "DRAFT"
    case Ready => "READY"
    case Resuming => "RESUMING"
    case Working => "WORKING"
    case Paused => "PAUSED"
    case Blocked => "BLOCKED"
    case Done => "DONE"
    case Removed => "REMOVED"
  }

  const ValidStatuses: seq<TaskStatus> := [Ready, Resuming, Working, Paused, Blocked, Done, Removed, Draft]

  function StatusWithText(candidates: seq<TaskStatus>, text: string): Option<TaskStatus> {
    if candidates == [] then None
    else if StatusText(candidates[0]) == text then Some(candidates[0])
    else StatusWithText(candidates[1..], text)
  }

  /** Current names in any letter case, then the legacy names, then DRAFT. */
  function NormalizeTaskStatus(value: Option<string>): TaskStatus {
    if value.None? then Draft
    else
      var normalized := UpperCase(value.value);
      match StatusWithText(ValidStatuses, normalized)
      case Some(status) => status
      case None => LegacyStatus(normalized)
  }

  function LegacyStatus(normalized: string): TaskStatus {
    if normalized == "PENDING" then Ready
    else if normalized == "INPROGRESS" then Working
    else if normalized == "REVIEW" then Blocked
    else Draft
  }

  /** Letter by letter: small letters become their capitals, and nothing else changes. */
  lemma {:induction false} UpperCaseAt(text: string, i: nat)
    requires i < |text|
    ensures |UpperCase(text)| == |text|
    ensures 'a' <= text[i] <= 'z' ==> UpperCase(text)[i] as int == text[i] as int - 32
    ensures !('a' <= text[i] <= 'z') ==> UpperCase(text)[i] == text[i]
  {
    if i > 0 {
      UpperCaseAt(text[1..], i - 1);
    } else if |text| > 1 {
      UpperCaseAt(text[1..], 0);
    }
  }

  lemma {:induction false} UpperCaseText(text: string)
    requires forall i :: 0 <= i < |text| ==> 'A' <= text[i] <= 'Z'
    ensures UpperCase(text) == text
  {
    if text != [] {
      UpperCaseText(text[1..]);
    }
  }

  /** The names themselves. */
  lemma StatusTextsAre()
    ensures StatusText(Draft) == "DRAFT" && StatusText(Ready) == "READY" && StatusText(Resuming) == "RESUMING"
    ensures StatusText(Working) == "WORKING" && StatusText(Paused) == "PAUSED" && StatusText(Blocked) == "BLOCKED"
    ensures StatusText(Done) == "DONE" && StatusText(Removed) == "REMOVED"
  {
  }

  lemma {:induction false} StatusFound(candidates: seq<TaskStatus>, status: TaskStatus)
    requires status in candidates
    ensures StatusWithText(candidates, StatusText(status)) == Some(status)
  {
    if candidates[0] != status {
      StatusTextsDiffer(candidates[0], status);
      StatusFound(candidates[1..], status);
    }
  }

  lemma StatusTextsDiffer(a: TaskStatus, b: TaskStatus)
    requires a != b
    ensures StatusText(a) != StatusText(b)
  {
    var ta, tb := StatusText(a), StatusText(b);
    assert |ta| != |tb| || ta[0] != tb[0];
  }

  /** What the server writes into a document it reads back. */
  lemma StatusRoundTrip(status: TaskStatus)
    ensures NormalizeTaskStatus(Some(StatusText(status))) == status
  {
    UpperCaseText(StatusText(status));
    StatusFound(ValidStatuses, status);
  }

  /** The texts of a status, upper-cased: its own name and the legacy one. */
  function NamesOf(status: TaskStatus): set<string> {
    match status
    case Draft => {"DRAFT", "BACKLOG"}
    case Ready => {"READY", "PENDING"}
    case Resuming => {"RESUMING"}
    case Working => {"WORKING", "INPROGRESS"}
    case Paused => {"PAUSED"}
    case Blocked => {"BLOCKED", "REVIEW"}
    case Done => {"DONE"}
    case Removed => {"REMOVED"}
  }

  lemma {:induction false} StatusWithTextFinds(candidates: seq<TaskStatus>, text: string)
    ensures match StatusWithText(candidates, text)
            case Some(status) => status in candidates && StatusText(status) == text
            case None => forall status :: status in candidates ==> StatusText(status) != text
  {
    if candidates != [] {
      StatusWithTextFinds(candidates[1..], text);
    }
  }

  lemma NamedExactly(named: TaskStatus, status: TaskStatus)
    ensures StatusText(named) in NamesOf(status) <==> named == status
  {
    LegacyNamesAreNoNames(named);
    if named != status {
      StatusTextsDiffer(named, status);
    }
  }

  lemma LegacyExactly(text: string, status: TaskStatus)
    requires status != Draft && text != StatusText(status)
    ensures LegacyStatus(text) == status <==> text in NamesOf(status)
  {
  }

  lemma NamedIsRead(value: string, status: TaskStatus)
    requires status != Draft
    ensures NormalizeTaskStatus(Some(value)) == status <==> UpperCase(value) in NamesOf(status)
  {
    var text := UpperCase(value);
    StatusWithTextFinds(ValidStatuses, text);
    match StatusWithText(ValidStatuses, text)
    case Some(named) => NamedExactly(named, status);
    case None =>
      assert status in ValidStatuses;
      LegacyExactly(text, status);
  }

  /** What a document's text says, in any letter case; anything else, or no text at all, is DRAFT. */
  lemma NormalizedExactly(value: string)
    ensures var status, text := NormalizeTaskStatus(Some(value)), UpperCase(value);
            && (status == Ready <==> text in {"READY", "PENDING"})
            && (status == Resuming <==> text == "RESUMING")
            && (status == Working <==> text in {"WORKING", "INPROGRESS"})
            && (status == Paused <==> text == "PAUSED")
            && (status == Blocked <==> text in {"BLOCKED", "REVIEW"})
            && (status == Done <==> text == "DONE")
            && (status == Removed <==> text == "REMOVED")
            && (status == Draft
                <==> text !in {"READY", "PENDING", "RESUMING", "WORKING", "INPROGRESS", "PAUSED", "BLOCKED", "REVIEW",
                               "DONE", "REMOVED"})
    ensures NormalizeTaskStatus(None) == Draft
  {
    forall status | status != Draft
      ensures NormalizeTaskStatus(Some(value)) == status <==> UpperCase(value) in NamesOf(status)
    {
      NamedIsRead(value, status);
    }
    assert NormalizeTaskStatus(Some(value)) == Ready <==> UpperCase(value) in NamesOf(Ready);
    assert NormalizeTaskStatus(Some(value)) == Resuming <==> UpperCase(value) in NamesOf(Resuming);
    assert NormalizeTaskStatus(Some(value)) == Working <==> UpperCase(value) in NamesOf(Working);
    assert NormalizeTaskStatus(Some(value)) == Paused <==> UpperCase(value) in NamesOf(Paused);
    assert NormalizeTaskStatus(Some(value)) == Blocked <==> UpperCase(value) in NamesOf(Blocked);
    assert NormalizeTaskStatus(Some(value)) == Done <==> UpperCase(value) in NamesOf(Done);
    assert NormalizeTaskStatus(Some(value)) == Removed <==> UpperCase(value) in NamesOf(Removed);
  }

  lemma LegacyNamesAreNoNames(status: TaskStatus)
    ensures StatusText(status) !in {"PENDING", "INPROGRESS", "REVIEW"}
  {
    var text := StatusText(status);
    assert |text| < |"INPROGRESS"|;
    assert text[0] == 'P' ==> text[1] == 'A' && "PENDING"[1] == 'E';
    assert text[0] == 'R' ==> |text| != |"REVIEW"|;
  }

  // ---------------------------------------------------------------------------
  // Folders
  // ---------------------------------------------------------------------------

  const TaskDir: string := "docs/tasks"

  predicate InTaskDir(path: string) {
    path == TaskDir || TaskDir + "/" <= path
  }

  function DropTrailingSlashes(path: string): string {
    if path != [] && Last(path) == '/' then DropTrailingSlashes(path[..|path| - 1]) else path
  }

  function AfterLastSlash(path: string): string {
    if path == [] then [] else
      var rest := AfterLastSlash(path[1..]);
      if path[0] != '/' && '/' !in path[1..] then path else rest
  }

  /** A direct subfolder of the task directory: the only places the scan looks at. */
  predicate IsTaskFolder(path: string) {
    AfterLastSlash(path) != "" && path == TaskDir + "/" + AfterLastSlash(path)
  }

  function Basename(path: string): string {
    AfterLastSlash(DropTrailingSlashes(path))
  }

  /** `join(TASK_DIR, name)` for a name without slashes. */
  function JoinTaskDir(name: string): string {
    if name == "" || name == "." then TaskDir
    else if name == ".." then "docs"
    else TaskDir + "/" + name
  }

  function NormalizeTaskPath(changePath: string): string {
    if InTaskDir(changePath) then changePath else JoinTaskDir(Basename(changePath))
  }

  lemma {:induction false} SlashesDropped(path: string, slashes: string)
    requires forall i :: 0 <= i < |slashes| ==> slashes[i] == '/'
    requires path == "" || Last(path) != '/'
    ensures DropTrailingSlashes(path + slashes) == path
  {
    if slashes == "" {
      assert path + slashes == path;
    } else {
      var fewer := slashes[..|slashes| - 1];
      assert (path + slashes)[..|path + slashes| - 1] == path + fewer;
      SlashesDropped(path, fewer);
    }
  }

  lemma {:induction false} LastSegment(prefix: string, name: string)
    requires name != "" && '/' !in name
    ensures AfterLastSlash(prefix + "/" + name) == name
    decreases |prefix|
  {
    var path := prefix + "/" + name;
    if prefix == "" {
      assert path[1..] == name && path[0] == '/';
      PlainSegment(name);
    } else {
      assert path[1..] == prefix[1..] + "/" + name;
      assert path[1..][|prefix| - 1] == '/';
      LastSegment(prefix[1..], name);
    }
  }

  lemma PlainSegment(name: string)
    requires name != "" && '/' !in name
    ensures AfterLastSlash(name) == name
  {
    assert name[0] in name;
  }

  /** The last segment, whatever comes before it and however many slashes follow. */
  lemma BasenameIsLastSegment(prefix: string, name: string, slashes: string)
    requires name != "" && '/' !in name && forall i :: 0 <= i < |slashes| ==> slashes[i] == '/'
    ensures Basename(name + slashes) == name && Basename(prefix + "/" + name + slashes) == name
    ensures Basename(slashes) == ""
  {
    SlashesDropped(name, slashes);
    SlashesDropped(prefix + "/" + name, slashes);
    SlashesDropped("", slashes);
    assert "" + slashes == slashes;
    PlainSegment(name);
    LastSegment(prefix, name);
  }

  /** The folders that are scanned. */
  lemma TaskFolderExactly(path: string)
    ensures IsTaskFolder(path) <==> exists name: string :: name != "" && '/' !in name && path == "docs/tasks/" + name
  {
    if IsTaskFolder(path) {
      NoSlashAfterLast(path);
      assert path == "docs/tasks/" + AfterLastSlash(path);
    }
    if name: string :| name != "" && '/' !in name && path == "docs/tasks/" + name {
      LastSegment("docs/tasks", name);
      assert "docs/tasks" + "/" + name == "docs/tasks/" + name;
    }
  }

  lemma {:induction false} NoSlashAfterLast(path: string)
    ensures '/' !in AfterLastSlash(path)
  {
    if path != [] {
      NoSlashAfterLast(path[1..]);
    }
  }

  /** A path in the task directory stays; of any other its last segment is put there. */
  lemma NormalizesExactly(path: string)
    ensures path == "docs/tasks" || "docs/tasks/" <= path ==> NormalizeTaskPath(path) == path
    ensures !(path == "docs/tasks" || "docs/tasks/" <= path) ==>
              && (Basename(path) in {"", "."} ==> NormalizeTaskPath(path) == "docs/tasks")
              && (Basename(path) == ".." ==> NormalizeTaskPath(path) == "docs")
              && (Basename(path) !in {"", ".", ".."} ==> NormalizeTaskPath(path) == "docs/tasks/" + Basename(path))
  {
  }

  /** Normalizing twice is normalizing once, except for a path that ends in the segment `..`. */
  lemma NormalizingTwiceExactly(changePath: string)
    ensures NormalizeTaskPath(NormalizeTaskPath(changePath)) == NormalizeTaskPath(changePath)
       <==> InTaskDir(changePath) || Basename(changePath) != ".."
  {
    if !InTaskDir(changePath) && Basename(changePath) == ".." {
      assert !InTaskDir("docs");
      assert |NormalizeTaskPath("docs")| != |"docs"| by {
        assert DropTrailingSlashes("docs") == "docs";
        DocsBasename();
      }
    } else if !InTaskDir(changePath) {
      var name := Basename(changePath);
      assert JoinTaskDir(name) == TaskDir || JoinTaskDir(name)[..11] == TaskDir + "/";
    }
  }

  lemma DocsBasename()
    ensures AfterLastSlash("docs") == "docs"
  {
    assert '/' !in "docs"[1..];
  }

  /** `task_` and a hash of this text; the text itself stands in for the hash. */
  function TaskIdFor(repoId: string, changePath: string): string {
    "task_" + repoId + ":" + changePath
  }

  lemma FirstColon(repoId: string, path: string)
    requires ':' !in repoId
    ensures IndexOf(repoId + ":" + path, ':') == Some(|repoId|)
  {
    var text := repoId + ":" + path;
    assert text[|repoId|] == ':' && text[..|repoId|] == repoId;
  }

  /** The hashed text tells repo and path apart, if no repo id holds a colon. */
  lemma HashedTextTellsApart(repoId: string, path: string, otherRepo: string, otherPath: string)
    requires ':' !in repoId && ':' !in otherRepo
    ensures TaskIdFor(repoId, path) == TaskIdFor(otherRepo, otherPath) <==> repoId == otherRepo && path == otherPath
  {
    var a, b := repoId + ":" + path, otherRepo + ":" + otherPath;
    assert TaskIdFor(repoId, path)[5..] == a && TaskIdFor(otherRepo, otherPath)[5..] == b;
    FirstColon(repoId, path);
    FirstColon(otherRepo, otherPath);
    assert a[..|repoId|] == repoId && a[|repoId| + 1..] == path;
    assert b[..|otherRepo|] == otherRepo && b[|otherRepo| + 1..] == otherPath;
  }
}
