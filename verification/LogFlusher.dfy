/**
 Copying log files into the database: periodic flushes that may fail, a final flush, crashes at any
 point, and recovery that continues from the number of lines already stored.
 */
module LogFlusher {
  import opened Collections
  import opened LogFile
  import LogStream
  import LogStreamRuns

  datatype TrackedStep = TrackedStep(logFile: string, flushedLineCount: nat)

  /** Files and stored lines outlive the server; `tracked` does not. */
  datatype LogStore = LogStore(
    files: map<string, string>,
    tracked: map<string, TrackedStep>,
    logs: map<string, seq<string>>)

  /** The log file of a step, inside the logs directory. */
  function FileOf(stepId: string): string {
    stepId + ".jsonl"
  }

  function Content(s: LogStore, file: string): string {
    if file in s.files then s.files[file] else ""
  }

  function LogsOf(s: LogStore, stepId: string): seq<string> {
    if stepId in s.logs then s.logs[stepId] else []
  }

  /** One insert statement: all rows or none. */
  function SaveStepLogs(s: LogStore, stepId: string, lines: seq<string>): LogStore {
    s.(logs := s.logs[stepId := LogsOf(s, stepId) + lines])
  }

  function FlushStep(s: LogStore, stepId: string, saved: bool): LogStore {
    if stepId !in s.tracked then s
    else
      var entry := s.tracked[stepId];
      var lines := ReadLogLines(Content(s, entry.logFile), entry.flushedLineCount).lines;
      if lines == [] || !saved then s
      else
        SaveStepLogs(s, stepId, lines).(
          tracked := s.tracked[stepId := entry.(flushedLineCount := entry.flushedLineCount + |lines|)])
  }

  /** `failing` are the steps whose insert fails this time. */
  function Tick(s: LogStore, order: seq<string>, failing: set<string>): LogStore {
    if order == [] then s
    else FlushStep(Tick(s, order[..|order| - 1], failing), Last(order), Last(order) !in failing)
  }

  function Track(s: LogStore, stepId: string, logFile: string): LogStore {
    s.(tracked := s.tracked[stepId := TrackedStep(logFile, 0)])
  }

  function FinalFlush(s: LogStore, stepId: string, saved: bool): LogStore {
    if stepId !in s.tracked then s
    else
      var flushed := FlushStep(s, stepId, saved);
      flushed.(tracked := flushed.tracked - {stepId})
  }

  /** `stop`, and also what a crash does. */
  function Stop(s: LogStore): LogStore {
    s.(tracked := map[])
  }

  function Write(s: LogStore, file: string, text: string): LogStore {
    s.(files := s.files[file := Content(s, file) + text])
  }

  /** `persistStepLogsFromOffset`, with the stored count as offset. */
  function Recover(s: LogStore, stepId: string, saved: bool): LogStore {
    var lines := ReadLogLines(Content(s, FileOf(stepId)), |LogsOf(s, stepId)|).lines;
    if lines == [] || !saved then s else SaveStepLogs(s, stepId, lines)
  }

  datatype Action =
    | AgentWrites(file: string, text: string)
    | TrackStep(stepId: string, logFile: string)
    | TickOver(order: seq<string>, failing: set<string>)
    | FlushFinally(stepId: string, saved: bool)
    | Crash
    | RecoverStep(stepId: string, saved: bool)

  function Perform(s: LogStore, action: Action): LogStore {
    match action
    case AgentWrites(file, text) => Write(s, file, text)
    case TrackStep(stepId, logFile) => Track(s, stepId, logFile)
    case TickOver(order, failing) => Tick(s, order, failing)
    case FlushFinally(stepId, saved) => FinalFlush(s, stepId, saved)
    case Crash => Stop(s)
    case RecoverStep(stepId, saved) => Recover(s, stepId, saved)
  }

  function PerformAll(s: LogStore, actions: seq<Action>): LogStore {
    if actions == [] then s else Perform(PerformAll(s, actions[..|actions| - 1]), Last(actions))
  }

  // ---------------------------------------------------------------------------
  // What every run keeps for a step
  // ---------------------------------------------------------------------------

  /** The lines now in a step's file. */
  function FileLines(s: LogStore, stepId: string): seq<string> {
    Lines(Content(s, stepId + ".jsonl"))
  }

  /** The stored lines are a prefix of the file, of the length that the flusher remembers. */
  ghost predicate Faithful(s: LogStore, id: string) {
    && WholeLines(Content(s, FileOf(id)))
    && LogsOf(s, id) <= FileLines(s, id)
    && (id in s.tracked ==> s.tracked[id] == TrackedStep(FileOf(id), |LogsOf(s, id)|))
  }

  /** Whole lines are written, the step is tracked before any of its lines is stored, and recovered before that. */
  ghost predicate Allowed(s: LogStore, id: string, action: Action) {
    match action
    case AgentWrites(file, text) => file == FileOf(id) ==> WholeLines(text)
    case TrackStep(stepId, logFile) => stepId == id ==> logFile == FileOf(id) && LogsOf(s, id) == []
    case RecoverStep(stepId, _) => stepId == id ==> id !in s.tracked
    case _ => true
  }

  ghost predicate AllAllowed(s: LogStore, id: string, actions: seq<Action>) {
    actions == []
    || (AllAllowed(s, id, actions[..|actions| - 1])
        && Allowed(PerformAll(s, actions[..|actions| - 1]), id, Last(actions)))
  }

  lemma RestOfPrefix(stored: seq<string>, all: seq<string>)
    requires stored <= all
    ensures stored + Slice(all, |stored|) == all
  {
  }

  /** A flush that succeeds brings a tracked step up to date; whoever is flushed, the prefix stays. */
  lemma FlushKeepsFaithful(s: LogStore, id: string, flushed: string, saved: bool)
    requires Faithful(s, id)
    ensures Faithful(FlushStep(s, flushed, saved), id)
    ensures !saved ==> FlushStep(s, flushed, saved) == s
    ensures FlushStep(s, flushed, saved).files == s.files
    ensures id in s.tracked ==> id in FlushStep(s, flushed, saved).tracked
    ensures flushed == id && saved && id in s.tracked ==> LogsOf(FlushStep(s, flushed, saved), id) == FileLines(s, id)
  {
    if flushed == id && id in s.tracked {
      RestOfPrefix(LogsOf(s, id), FileLines(s, id));
    }
  }

  lemma {:induction false} TickKeepsFaithful(s: LogStore, id: string, order: seq<string>, failing: set<string>)
    requires Faithful(s, id)
    ensures Faithful(Tick(s, order, failing), id)
    ensures Tick(s, order, failing).files == s.files
    ensures id in s.tracked ==> id in Tick(s, order, failing).tracked
  {
    if order != [] {
      TickKeepsFaithful(s, id, order[..|order| - 1], failing);
      FlushKeepsFaithful(Tick(s, order[..|order| - 1], failing), id, Last(order), Last(order) !in failing);
    }
  }

  /** A tick stores every line of every tracked step whose insert succeeds, in whatever order it visits them. */
  lemma {:induction false} TickCatchesUp(s: LogStore, id: string, order: seq<string>, failing: set<string>)
    requires Faithful(s, id) && id in s.tracked && id in order && id !in failing
    ensures LogsOf(Tick(s, order, failing), id) == FileLines(s, id)
  {
    var front := order[..|order| - 1];
    var before := Tick(s, front, failing);
    TickKeepsFaithful(s, id, front, failing);
    TickKeepsFaithful(s, id, order, failing);
    FlushKeepsFaithful(before, id, Last(order), Last(order) !in failing);
    if Last(order) != id {
      assert id in front;
      TickCatchesUp(s, id, front, failing);
    }
  }

  /** A step whose insert fails keeps its stored lines and its count, and is tried again. */
  lemma {:induction false} TickKeepsFailing(s: LogStore, id: string, order: seq<string>, failing: set<string>)
    requires id in failing
    ensures LogsOf(Tick(s, order, failing), id) == LogsOf(s, id)
    ensures id in Tick(s, order, failing).tracked <==> id in s.tracked
    ensures id in s.tracked ==> Tick(s, order, failing).tracked[id] == s.tracked[id]
  {
    if order != [] {
      TickKeepsFailing(s, id, order[..|order| - 1], failing);
    }
  }

  lemma WriteKeepsFaithful(s: LogStore, id: string, file: string, text: string)
    requires Faithful(s, id) && (file == FileOf(id) ==> WholeLines(text))
    ensures Faithful(Write(s, file, text), id)
  {
    if file == FileOf(id) {
      GrowthAddsLines(Content(s, file), text);
    }
  }

  lemma RecoverKeepsFaithful(s: LogStore, id: string, stepId: string, saved: bool)
    requires Faithful(s, id) && (stepId == id ==> id !in s.tracked)
    ensures Faithful(Recover(s, stepId, saved), id)
    ensures stepId == id && saved ==> LogsOf(Recover(s, stepId, saved), id) == FileLines(s, id)
    ensures !saved ==> LogsOf(Recover(s, stepId, saved), id) == LogsOf(s, id)
  {
    if stepId == id {
      RestOfPrefix(LogsOf(s, id), FileLines(s, id));
    }
  }

  lemma ActionKeepsFaithful(s: LogStore, id: string, action: Action)
    requires Faithful(s, id) && Allowed(s, id, action)
    ensures Faithful(Perform(s, action), id)
  {
    match action
    case AgentWrites(file, text) => WriteKeepsFaithful(s, id, file, text);
    case TrackStep(_, _) =>
    case TickOver(order, failing) => TickKeepsFaithful(s, id, order, failing);
    case FlushFinally(stepId, saved) => FlushKeepsFaithful(s, id, stepId, saved);
    case Crash =>
    case RecoverStep(stepId, saved) => RecoverKeepsFaithful(s, id, stepId, saved);
  }

  lemma {:induction false} RunKeepsFaithful(s: LogStore, id: string, actions: seq<Action>)
    requires Faithful(s, id) && AllAllowed(s, id, actions)
    ensures Faithful(PerformAll(s, actions), id)
  {
    if actions != [] {
      var front := actions[..|actions| - 1];
      RunKeepsFaithful(s, id, front);
      ActionKeepsFaithful(PerformAll(s, front), id, Last(actions));
    }
  }

  /** Wherever a run crashes, recovery leaves exactly the file's lines; a failed insert leaves the prefix. */
  lemma CrashRecoveryCompletes(s: LogStore, id: string, actions: seq<Action>, saved: bool)
    requires Faithful(s, id) && AllAllowed(s, id, actions)
    ensures var crashed := Stop(PerformAll(s, actions));
            var recovered := Recover(crashed, id, saved);
            && LogsOf(crashed, id) <= FileLines(crashed, id)
            && (saved ==> LogsOf(recovered, id) == FileLines(crashed, id))
            && (!saved ==> LogsOf(recovered, id) == LogsOf(crashed, id))
  {
    RunKeepsFaithful(s, id, actions);
    RecoverKeepsFaithful(Stop(PerformAll(s, actions)), id, id, saved);
  }

  /** A final flush that succeeds leaves exactly the file's lines and forgets the step. */
  lemma FinalFlushCompletes(s: LogStore, id: string, actions: seq<Action>)
    requires Faithful(s, id) && AllAllowed(s, id, actions)
    ensures var ended := PerformAll(s, actions);
            && id !in FinalFlush(ended, id, true).tracked
            && (id in ended.tracked ==> LogsOf(FinalFlush(ended, id, true), id) == FileLines(ended, id))
  {
    RunKeepsFaithful(s, id, actions);
    FlushKeepsFaithful(PerformAll(s, actions), id, id, true);
  }

  /** Tracking a step again starts at its first line: right exactly when nothing was stored before. */
  lemma RetrackedExactly(s: LogStore, id: string)
    requires Faithful(s, id)
    ensures var flushed := FlushStep(Track(s, id, FileOf(id)), id, true);
            && LogsOf(flushed, id) == LogsOf(s, id) + FileLines(s, id)
            && (LogsOf(flushed, id) == FileLines(s, id) <==> LogsOf(s, id) == [])
  {
    var all := FileLines(s, id);
    assert Slice(all, 0) == all;
    assert LogsOf(s, id) + [] == LogsOf(s, id);
    if all == [] {
      assert LogsOf(s, id) == [];
    }
    assert |LogsOf(s, id) + all| == |LogsOf(s, id)| + |all|;
  }

  /** The stored lines of an execution, step after step. */
  function History(s: LogStore, steps: seq<string>): seq<string> {
    if steps == [] then [] else History(s, steps[..|steps| - 1]) + LogsOf(s, Last(steps))
  }

  /**
   A client that connects to an execution is sent the stored lines of all its steps and then the last
   step's file from its offset on. Of the last step's lines it gets each once exactly if it asks to
   resume where the stored ones end.
   */
  lemma ConnectingExactly(
    s: LogStore, steps: seq<string>, resumeOffset: nat, meanwhile: string, moments: seq<LogStream.Moment>)
    requires steps != [] && Faithful(s, Last(steps)) && WholeLines(meanwhile) && LogStreamRuns.AllWhole(moments)
    ensures var content := Content(s, FileOf(Last(steps)));
            var session := LogStream.Session(content, History(s, steps), resumeOffset, meanwhile, moments);
            var sent := LogStream.Finish(session).delivered;
            var earlier := History(s, steps[..|steps| - 1]);
            var stored := LogsOf(s, Last(steps));
            var start := LogStream.Start(content, resumeOffset);
            && start <= |Lines(session.content)|
            && sent == earlier + stored + Lines(session.content)[start..]
            && (sent == earlier + Lines(session.content) <==> |stored| == start)
  {
    var content := Content(s, FileOf(Last(steps)));
    LogStreamRuns.EachLineOnce(content, History(s, steps), resumeOffset, meanwhile, moments);
    var session := LogStream.Session(content, History(s, steps), resumeOffset, meanwhile, moments);
    LogStreamRuns.SessionGrows(content, History(s, steps), resumeOffset, meanwhile, moments);
    LinesOfWhole(content, session.content);
    StoredAndRestExactly(History(s, steps[..|steps| - 1]), LogsOf(s, Last(steps)), Lines(session.content),
                         LogStream.Start(content, resumeOffset));
  }

  lemma LinesOfWhole(content: string, full: string)
    requires WholeLines(content) && content <= full
    ensures Lines(content) <= Lines(full)
  {
    assert full == content + full[|content|..];
    GrowthAddsLines(content, full[|content|..]);
  }

  lemma StoredAndRestExactly(earlier: seq<string>, stored: seq<string>, all: seq<string>, start: nat)
    requires stored <= all && start <= |all|
    ensures earlier + stored + all[start..] == earlier + all <==> |stored| == start
  {
    if |stored| == start {
      assert stored + all[start..] == all;
      assert earlier + stored + all[start..] == earlier + (stored + all[start..]);
    } else {
      assert |earlier + stored + all[start..]| == |earlier| + |stored| + |all| - start;
      assert |earlier + all| == |earlier| + |all|;
    }
  }

  // ---------------------------------------------------------------------------
  // The flusher as it runs
  // ---------------------------------------------------------------------------

  class Flusher {
    var files: map<string, string>
    var tracked: map<string, TrackedStep>
    var logs: map<string, seq<string>>

    constructor ()
      ensures State() == LogStore(map[], map[], map[])
    {
      files, tracked, logs := map[], map[], map[];
    }

    function State(): LogStore
      reads this
    {
      LogStore(files, tracked, logs)
    }

    method TrackStep(stepId: string, logFile: string)
      modifies this`tracked
      ensures State() == Perform(old(State()), Action.TrackStep(stepId, logFile))
    {
      tracked := tracked[stepId := TrackedStep(logFile, 0)];
    }

    method FlushStepOnce(stepId: string, saved: bool)
      modifies this`tracked, this`logs
      ensures State() == FlushStep(old(State()), stepId, saved)
    {
      if stepId !in tracked {
        return;
      }
      var entry := tracked[stepId];
      var content := if entry.logFile in files then files[entry.logFile] else "";
      var read := ReadLogLines(content, entry.flushedLineCount);
      if read.lines == [] || !saved {
        return;
      }
      var stored := if stepId in logs then logs[stepId] else [];
      logs := logs[stepId := stored + read.lines];
      tracked := tracked[stepId := entry.(flushedLineCount := entry.flushedLineCount + |read.lines|)];
    }

    method TickOver(order: seq<string>, failing: set<string>)
      modifies this`tracked, this`logs
      ensures State() == Perform(old(State()), Action.TickOver(order, failing))
    {
      var i := 0;
      while i < |order|
        invariant i <= |order| && State() == Tick(old(State()), order[..i], failing)
      {
        assert order[..i + 1][..i] == order[..i];
        FlushStepOnce(order[i], order[i] !in failing);
        i := i + 1;
      }
      assert order[..|order|] == order;
    }

    method FlushFinally(stepId: string, saved: bool)
      modifies this`tracked, this`logs
      ensures State() == Perform(old(State()), Action.FlushFinally(stepId, saved))
    {
      if stepId !in tracked {
        return;
      }
      FlushStepOnce(stepId, saved);
      tracked := tracked - {stepId};
    }

    method RecoverStep(stepId: string, saved: bool)
      modifies this`logs
      ensures State() == Perform(old(State()), Action.RecoverStep(stepId, saved))
    {
      var flushedCount := |LogsOf(State(), stepId)|;
      var read := ReadLogLines(Content(State(), FileOf(stepId)), flushedCount);
      if read.lines == [] || !saved {
        return;
      }
      logs := logs[stepId := LogsOf(State(), stepId) + read.lines];
    }
  }
}
