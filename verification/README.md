# AOP local server: verified model

AOP's local server interprets workflows, schedules tasks by their dependencies, and keeps the same
facts in several places: SQLite rows, task documents, an in-memory cache and the dashboard. This
Dafny project models those parts and proves what they keep over whole runs.
`dafny verify dfyconfig.toml` checks it.

| files | part |
|---|---|
| `WorkflowEngine`, `WorkflowRuns` | the workflow validator and the pure state machine: which workflows can raise, which runs end |
| `WorkflowStore`, `ExecutionInvariant`, `LateReports`, `WorkflowService` | the persisted driver: executions, step executions and task rows, as a state with its invariant and as a class |
| `Scheduler`, `SchedulerRuns` | dependency state, sorting, picking, and whole runs of the queue |
| `TaskDocs`, `TaskStore`, `TaskStoreRuns`, `TaskStoreConflicts`, `TaskRepository` | documents, rows and cache of the task repository, as a state and as a class |
| `TaskEvents`, `Dashboard` | the events of a refresh and the client that replays them |
| `AgentReaper`, `AgentCallbacks` | the race between a provider promise and the polling of an agent's process |
| `LogFile`, `LogStream`, `LogStreamRuns`, `LogFlusher` | log lines from a growing file to a client and into the database |
| `Frontmatter` | printing and parsing of task documents |
| `Collections`, `TaskModel` | shared vocabulary |

Where the program updates fields in place, a class does so here, and each method is tied to a
function on a state value; the theorems are about those functions. Generated ids are counters, so
"latest" is the largest id. Timestamps are numbers. A file is text that only grows, a process goes
from alive to dead once, and a service call is one atomic step.

What the proofs found beside what holds:

- The validator accepts empty targets, and such a workflow raises when the target is live
  (`NeverRaisesExactly`, `AcceptedWorkflowCanRaise`).
- Exactly which workflows can run for ever, from any state and from a fresh start
  (`TerminatesFromExactly`, `FreshRunsTerminateExactly`); the shipped default one can, in its first
  step (`IterateStepLoops`).
- A late report of a cancelled step is processed, and a move then runs a step in the cancelled
  execution (`LateReportExactly` says when it is harmless).
- The dashboard's counter is short by every task that is created already WORKING
  (`CapacityAfterReplay`).
- An update changes the row and then fails when the folder that the document names holds none
  (`UpdateFailsExactly`), for instance after an imported folder is renamed
  (`RenamedFolderIsHalfUpdated`). Two documents of one task are rewritten by every refresh when they
  would make different rows (`SecondRefreshSilentExactly`).
- With a provider that awaits `onSpawn`, `spawnAndReap` never hangs: it answers once the agent is dead,
  and also when the pid could not be stored (`FairRunsSettle`, `StuckExactly`). All providers that
  spawn a detached agent await it (`packages/llm-provider/src/providers/claude-code.ts:131`,
  `codex.ts:57`, `opencode.ts:42`, `cursor-cli.ts:42`), but their interface does not demand it; without
  it a run could hang (`UnawaitedSpawnGetsStuck`) or leave a timer behind (`LeaksExactly`).
- A client that connects gets the stored lines of the last step twice unless it resumes where they end
  (`ConnectingExactly`), and the database does after a step is tracked again (`RetrackedExactly`). A
  line read half-written and then continued is never completed (`EachLineOnceExactly`).

Hypotheses that the statements name: step ids equal their keys and no step is keyed by the empty
string (`SoundWorkflow`); a completion of a step that is not finalized is one of a running step, and
names its own execution and task (`Allowed`; for cancelled steps see `LateReports`); documents lie in
the folder that they name (`Placed`; without it see `TaskStoreConflicts`); a provider awaits
`onSpawn` (`KeepsOrder`); the flusher's log writes are whole lines; the YAML library reads what it
prints (`Frontmatter.Faithful`).

## Model

| member | source | states |
|---|---|---|
| `WorkflowEngine.ValidateTransition` | apps/local-server/src/workflow-engine/workflow-parser.ts:46-54 | the three target fields are checked in order and the error names the first field whose non-empty target is neither a terminal nor a step |
| `WorkflowEngine.ValidateWorkflowStructure` | apps/local-server/src/workflow-engine/workflow-parser.ts:56-68 | the loops accept exactly the definitions whose initial step exists and whose non-empty targets all exist; an error names a step, field and target that are really wrong |
| `WorkflowEngine.FindConditionIsFirst` | apps/local-server/src/workflow-engine/workflow-state-machine.ts:98-112 | `find` by condition returns a transition if and only if it is the first one with that condition |
| `WorkflowEngine.PickedByPreference` | apps/local-server/src/workflow-engine/workflow-state-machine.ts:92-113 | the transition picked for a result is the first one of the best condition that has any: failure alone; else signal, or `__none__` without one, then success |
| `WorkflowEngine.SelectableIffPicked` | apps/local-server/src/workflow-engine/workflow-state-machine.ts:92-113 | the transitions that some result picks are exactly the first ones of each non-empty condition |
| `WorkflowEngine.EvaluatedExactly` | apps/local-server/src/workflow-engine/workflow-state-machine.ts:45-146 | the answer to every result and context: blocked without a matching transition; else done, blocked or paused for the targets `__done__`, `__blocked__`, `__paused__` in force at the counter, the step of that key, or an error |
| `WorkflowEngine.ExhaustedLoopBlocks` | apps/local-server/src/workflow-engine/workflow-state-machine.ts:78-80 | a reached `maxIterations` without `onMaxIterations` blocks |
| `WorkflowEngine.LiveBranchesExactly` | apps/local-server/src/workflow-engine/workflow-state-machine.ts:78-90 | a branch is live if and only if some iteration count reaches it |
| `WorkflowEngine.ResolvesIffLiveTargetsExist` | apps/local-server/src/workflow-engine/workflow-state-machine.ts:45-90 | a transition resolves in every context if and only if each of its live targets is a terminal or a step |
| `WorkflowEngine.NeverRaisesExactly` | apps/local-server/src/workflow-engine/workflow-parser.ts:32-68 | an accepted workflow never raises from a real step, for any result and context, if and only if no selectable transition has a live empty target |
| `WorkflowEngine.AcceptedWorkflowCanRaise` | apps/local-server/src/workflow-engine/workflow-parser.ts:41-43 | an accepted definition with an empty target that does raise |
| `WorkflowRuns.MoveShape` | apps/local-server/src/workflow-engine/workflow-state-machine.ts:69-90 | every move takes one selectable transition along the branch of the present counter; the counter rises by one exactly on a counted loop, the visited list grows by one exactly on a new step |
| `WorkflowRuns.SimulateExecutionServiceFlow` | apps/local-server/src/workflow-engine/test-utils.ts:100-120 | the loop produces the trace that the specification defines, or its first error |
| `WorkflowRuns.TraceShowsRun` | apps/local-server/src/workflow-engine/test-utils.ts:57-88 | line k of a trace shows the step and counter that the first k results lead to |
| `WorkflowRuns.RunKeepsForm` | apps/local-server/src/workflow/service.ts:64-67 | over every run: current step last in a duplicate-free list, counter and visited set never shrink, only real steps are added |
| `WorkflowRuns.RunsNeverRaise` | apps/local-server/src/workflow/service.ts:109-186 | no run from any duplicate-free visited list (retries included) that ends in a real step reaches a missing step or target |
| `WorkflowRuns.FreshRunsNeverRaiseExactly` | apps/local-server/src/workflow/service.ts:337-343 | fresh runs never raise if and only if the id of the initial step is itself a key |
| `WorkflowRuns.FailureSignalsAreIgnored` | apps/local-server/src/workflow-engine/workflow-state-machine.ts:92-113 | input sequences that differ only in signals of failed results give the same run and the same trace |
| `WorkflowRuns.MoveDescends` | apps/local-server/src/workflow-engine/workflow-state-machine.ts:69-90 | under a rank (per iteration count) that falls along every transition which the state can take and which cannot raise the counter below a cap, each move lowers (loops and first visits left, rank) |
| `WorkflowRuns.RunsAreBounded` | apps/local-server/src/workflow/service.ts:237-254 | under such a rank a run makes at most the moves that measure allows, from any state |
| `WorkflowRuns.RankBoundsEveryRun` | apps/local-server/src/workflow/service.ts:237-254 | the bound is (cap + steps + 1) * (top + 1) moves for every start state and every input sequence |
| `WorkflowRuns.StepRankBoundsEveryRun` | apps/local-server/src/workflow-engine/workflow-state-machine.ts:78-90 | the same bound from a rank of the steps alone that falls along every edge but the counted ones with `maxIterations` up to the cap |
| `WorkflowRuns.BoundedRunsStop` | apps/local-server/src/workflow/service.ts:298-325 | fed more results than its bound, a run is done, paused, blocked or has raised |
| `WorkflowRuns.TerminatesFromExactly` | apps/local-server/src/workflow-engine/workflow-state-machine.ts:69-90 | for every workflow and every machine state: the runs from it are bounded if and only if none arrives at a cycle of the step graph that can be walked at its counter either without ever raising it or past every threshold of its transitions |
| `WorkflowRuns.FreshRunsTerminateExactly` | apps/local-server/src/workflow/service.ts:337-343 | the same for a fresh start: only cycles that some run from the initial step arrives at count |
| `WorkflowRuns.TerminatesExactly` | apps/local-server/src/workflow-engine/workflow-state-machine.ts:69-90 | one bound for the runs from all states exists if and only if the step graph has no such cycle |
| `WorkflowRuns.CycleRuns` | apps/local-server/src/workflow-engine/workflow-state-machine.ts:69-90 | such a cycle can be walked for any number of moves |
| `WorkflowRuns.PlainLoopsTerminateExactly` | apps/local-server/src/workflow-engine/workflow-state-machine.ts:78-90 | without `afterIteration` and with terminal `onMaxIterations` these are the cycles of selectable transitions without `maxIterations` |
| `WorkflowRuns.IterateStepLoops` | apps/local-server/workflows/aop-default.yaml:3-27 | a workflow that starts with the first step of the shipped default has unbounded fresh runs |
| `WorkflowRuns.MoveAccounting` | apps/local-server/src/workflow/service.ts:248-249 | in those workflows moves = rise of the counter + newly visited steps, and neither falls |
| `WorkflowStore.CompletionRefinesEvaluation` | apps/local-server/src/workflow/service.ts:266-325 | one completion stores exactly the state that one evaluation of the pure machine computes, answers with the new running step, or leaves everything alone where the machine raises |
| `WorkflowStore.ServiceRefinesSimulation` | apps/local-server/src/workflow/service.ts:266-325 | for every sequence of results the stored visited list, counter and current step, the number of moves and the stopping reason equal those of the pure simulation |
| `WorkflowStore.FreshStartMatchesSimulation` | apps/local-server/src/workflow/service.ts:332-370 | a fresh start stores the state in which the simulation starts |
| `WorkflowStore.CompletionRecordsResult` | apps/local-server/src/workflow/service.ts:188-264 | a completed step awaits input exactly when the task is paused, and alone then keeps the context; otherwise it has succeeded or failed exactly as its result; only this task's status changes, to the one answered |
| `WorkflowStore.CompletionErrors` | apps/local-server/src/workflow/service.ts:266-288 | an unknown step, execution or workflow is refused with its own error and changes nothing, and a step already settled is answered with the task's present status |
| `WorkflowStore.ResumeErrors` | apps/local-server/src/workflow/service.ts:380-403 | a resume of an unknown step, of one not awaiting input or of one whose execution or workflow is gone is refused with its own error and changes nothing |
| `WorkflowStore.CompletionEndsAsNamed` | apps/local-server/src/workflow/service.ts:201-235 | a report whose target is `__done__` leaves task DONE and execution completed, `__blocked__` or no match BLOCKED and failed, `__paused__` PAUSED in the same execution; nothing else of executions and tasks changes |
| `WorkflowStore.MoveCreatesStep` | apps/local-server/src/workflow/service.ts:237-264 | a move answers with the one row it creates: running, of the step that the execution now stands at, with its counter |
| `WorkflowStore.StartTakesNamedWorkflow` | apps/local-server/src/workflow/service.ts:332-370 | a start takes the preferred workflow, or the default one if none is preferred, and fails if it is not stored; one execution of that name and one running row are created, for the initial step or the one to retry from, and that row is the answer |
| `WorkflowStore.ResumeExactly` | apps/local-server/src/workflow/service.ts:380-415 | a resume succeeds if and only if the step awaits input in an execution that stands at a real step; it creates one running row of that step with the stored counter, and consumes the input |
| `WorkflowStore.MarkReadyExactly` | apps/local-server/src/task/handlers.ts:85-104 | only a draft or blocked task becomes READY, without a preferred workflow and with the step to retry from |
| `WorkflowStore.ReadyExactly` | apps/local-server/src/orchestrator/queue/processor.ts:114-140 | a claimed READY task is started as WORKING and loses its step to retry from, or is left exactly as it was |
| `WorkflowStore.RequestResumeExactly` | apps/local-server/src/task/handlers.ts:47-64 | only a PAUSED task that has run a step becomes RESUMING, and keeps the input |
| `WorkflowStore.ResumingExactly` | apps/local-server/src/orchestrator/queue/processor.ts:91-164 | a RESUMING task with input resumes its latest step, or everything is left exactly as it was |
| `WorkflowStore.ResetStaleExactly` | apps/local-server/src/executor/recovery.ts:159-180 | a stale running step is cancelled with its execution; its task becomes READY unless it is BLOCKED, REMOVED or DONE |
| `WorkflowStore.RetryKeepsHistory` | apps/local-server/src/workflow/service.ts:109-135 | a retry starts with the latest visited list up to its step, or with that list and its step, and with the latest counter; without an earlier execution with that step alone and 0 |
| `WorkflowStore.FinalizedStepIsKept` | apps/local-server/src/workflow/service.ts:157-163 | no action of the queue, the user, the agents or recovery rewrites a finalized step |
| `WorkflowStore.StepCompletesOnce` | apps/local-server/src/workflow/service.ts:266-296 | after any completion that returns, and any further actions, completing its step again changes nothing and only reports the task's present status |
| `WorkflowStore.CompletionIsFinal` | apps/local-server/src/workflow/service.ts:270-277 | completing a finalized step again, after any further actions, changes nothing and reports the task's present status |
| `ExecutionInvariant.StartSucceedsExactly` | apps/local-server/src/workflow/service.ts:332-343 | a start fails if and only if the workflow or the step to retry from does not exist |
| `ExecutionInvariant.CompletionSucceeds` | apps/local-server/src/workflow/service.ts:165-186 | completing a running step never fails |
| `ExecutionInvariant.ActionKeepsInvariant` | apps/local-server/src/workflow/service.ts:201-415 | every start, resume, mark-ready and stale reset, and every completion of a running step reported with its own execution and task, keeps the execution invariant |
| `ExecutionInvariant.RunKeepsInvariant` | apps/local-server/src/workflow/service.ts:327-416 | so does every run of them |
| `LateReports.LateReportExactly` | apps/local-server/src/workflow/service.ts:157-163 | a report of a cancelled step, which is not finalized and so is processed, keeps the invariant if and only if the engine refuses it, or it pauses a task paused anyway, or it ends the run of a task that is not open and whose latest execution is then closed that way; a move never does |
| `LateReports.LateRunKeepsInvariant` | apps/local-server/src/workflow/service.ts:266-325 | runs with such harmless late reports keep the invariant |
| `ExecutionInvariant.NoRunMeetsAnError` | apps/local-server/src/workflow/service.ts:109-186 | along every run from fresh tables, completing a running step succeeds and a queued resume with input becomes WORKING |
| `ExecutionInvariant.WorkingMeansOneRunningStep` | apps/local-server/src/workflow/service.ts:137-155 | a task has at most one running step, and has one if and only if it is WORKING |
| `ExecutionInvariant.RunningStepIsLastVisited` | apps/local-server/src/workflow/service.ts:248-256 | the running step is the last entry of a duplicate-free visited list |
| `ExecutionInvariant.PausedMeansAwaiting` | apps/local-server/src/workflow/service.ts:213-216 | a PAUSED or RESUMING task runs nothing and its latest step awaits input in its only active execution |
| `ExecutionInvariant.FinishedMeansClosed` | apps/local-server/src/workflow/service.ts:201-235 | a DONE or BLOCKED task runs nothing and its latest execution is completed or failed |
| `ExecutionInvariant.ReadyKeepsInvariant` | apps/local-server/src/orchestrator/queue/processor.ts:114-140 | claiming a READY task, starting it and giving it back on failure keeps the invariant |
| `ExecutionInvariant.ResumingKeepsInvariant` | apps/local-server/src/workflow/service.ts:380-415 | resuming the latest step of a RESUMING task keeps the invariant and makes the task WORKING when it has input |
| `ExecutionInvariant.RequestResumeKeepsInvariant` | apps/local-server/src/task/handlers.ts:36-68 | a resume request of a PAUSED task keeps the invariant |
| `ExecutionInvariant.MarkReadyKeepsInvariant` | apps/local-server/src/task/handlers.ts:85-162 | marking a draft or blocked task READY keeps the invariant |
| `ExecutionInvariant.ResetKeepsInvariant` | apps/local-server/src/executor/recovery.ts:159-180 | resetting a stale running step keeps the invariant |
| `ExecutionInvariant.ResumingTwiceRunsTwoSteps` | apps/local-server/src/workflow/service.ts:380-400 | `resumeTask` alone would resume one awaiting step twice and run two steps of one execution |
| `WorkflowService.LocalWorkflowService.StartTask` | apps/local-server/src/workflow/service.ts:332-370 | the sequence of row writes has exactly the effect and answer of the specification, errors included |
| `WorkflowService.LocalWorkflowService.FindRetryStep` | apps/local-server/src/workflow/service.ts:109-135 | the retry start cuts or extends the latest visited list and keeps its counter |
| `WorkflowService.LocalWorkflowService.InsertRunningStep` | apps/local-server/src/workflow/service.ts:137-155 | a running step row is added under a new id, nothing else changes |
| `WorkflowService.LocalWorkflowService.Continue` | apps/local-server/src/workflow/service.ts:237-264 | visited list, counter, new running step and task status after a move |
| `WorkflowService.LocalWorkflowService.HandleTransition` | apps/local-server/src/workflow/service.ts:298-325 | the four outcomes and the rows each of them writes |
| `WorkflowService.LocalWorkflowService.CompleteStep` | apps/local-server/src/workflow/service.ts:372-378 | the whole completion, including the silent answer for a finalized step |
| `WorkflowService.LocalWorkflowService.ResumeTask` | apps/local-server/src/workflow/service.ts:380-415 | the whole resume, errors included |
| `Scheduler.SummarizeDependencyRows` | apps/local-server/src/task/repository.ts:137-181 | the loop names blocked, waiting or ready and lists exactly the rows that hold the task back in that state, with their distinct non-empty references |
| `Scheduler.HoldingRowsAre` | apps/local-server/src/task/repository.ts:146-162 | the listed rows are exactly those whose task is missing, BLOCKED or REMOVED, or exactly the others that are not DONE without a worktree |
| `Scheduler.DependencyStateExactly` | apps/local-server/src/task/repository.ts:164-190 | blocked if and only if some dependency is missing, BLOCKED or REMOVED; ready if and only if every one is DONE without a worktree |
| `Scheduler.CountWorkingExactly` | apps/local-server/src/task/repository.ts:421-436 | the count is the number of places of WORKING tasks in the cache |
| `Scheduler.RefsAreDistinct` | apps/local-server/src/task/repository.ts:186-190 | references are listed once each, empty ones not at all, and none is lost |
| `Scheduler.RefsKeepOrder` | apps/local-server/src/task/repository.ts:186-190 | references stay in the order in which the rows first name them |
| `Scheduler.GetWorkingCounts` | apps/local-server/src/task/repository.ts:421-436 | the loop counts the WORKING tasks of all and of each repo |
| `Scheduler.CanRunTask` | apps/local-server/src/task/repository.ts:192-212 | repo capacity, and for READY tasks satisfied dependencies |
| `Scheduler.SortTasksSorts` | apps/local-server/src/task/repository.ts:98-103 | ascending, each task's time is at most the later ones' and none at all comes last; descending the other way round |
| `Scheduler.SortTasksPermutes` | apps/local-server/src/task/repository.ts:400-407 | sorting keeps every task |
| `Scheduler.PickNextTask` | apps/local-server/src/task/repository.ts:468-497 | the loop returns the pick that the specification defines |
| `Scheduler.PickIsOptimal` | apps/local-server/src/task/repository.ts:468-497 | the pick is runnable (fewer WORKING tasks in its repo than the limit, 3 by default; if READY, every dependency DONE without a worktree) and precedes every runnable task in `ready_at` order, cache order on ties; null if and only if the global limit is reached or nothing is runnable |
| `Scheduler.PickedTimes` | apps/local-server/src/task/repository.ts:637-640 | on the numbers: no runnable READY task has an earlier `ready_at` than the pick, no runnable RESUMING one a later |
| `SchedulerRuns.RunsStayWithinCapacity` | apps/local-server/src/task/repository.ts:192-212 | no run of picks, finishes, resumes, aborts and mark-readys puts more tasks to work than the global limit or any repo's limit |
| `SchedulerRuns.PicksExactly` | apps/local-server/src/orchestrator/queue/processor.ts:114-164 | a pick puts exactly the picked task to work, READY ones ascending and RESUMING ones descending |
| `SchedulerRuns.ActionsExactly` | apps/local-server/src/task/handlers.ts:85-104 | every other action changes at most its own task, and only from the statuses that allow it |
| `SchedulerRuns.PickedDependenciesAreDone` | apps/local-server/src/task/repository.ts:146-162 | when a READY task is picked, each dependency is DONE and has no worktree |
| `SchedulerRuns.CyclesNeverStart` | apps/local-server/src/task/repository.ts:463-496 | if every member of a set depends on a member and none has started, no run ever starts one |
| `SchedulerRuns.StuckExactly` | apps/local-server/src/task/repository.ts:463-497 | with nothing running and room, nothing is picked if and only if every READY task depends on a READY task |
| `SchedulerRuns.AcyclicQueuesProgress` | apps/local-server/src/task/repository.ts:468-497 | with acyclic dependencies a READY task is always picked |
| `SchedulerRuns.DrainRunsEachOnce` | apps/local-server/src/task/repository.ts:468-497 | repeating pick, finish and hand-off runs exactly the READY tasks, each once |
| `SchedulerRuns.DrainRespectsDependencies` | apps/local-server/src/task/repository.ts:468-497 | in an order in which every needed READY task comes before |
| `TaskDocs.StatusRoundTrip` | apps/local-server/src/task-docs/task.ts:14-38 | a status that the server writes into a document is the status it reads back |
| `TaskDocs.StatusTextsAre` | apps/local-server/src/task-docs/task.ts:14-29 | the eight names, as written into documents |
| `TaskDocs.NormalizedExactly` | apps/local-server/src/task-docs/task.ts:14-38 | which upper-cased texts are read as which status, legacy names included; everything else, and no text, is DRAFT |
| `TaskDocs.UpperCaseAt` | apps/local-server/src/task-docs/task.ts:15-15 | small letters become their capitals and nothing else changes |
| `TaskDocs.BasenameIsLastSegment` | apps/local-server/src/task/repository.ts:79-79 | the last segment, whatever precedes it and however many slashes follow |
| `TaskDocs.NormalizesExactly` | apps/local-server/src/task/repository.ts:74-80 | a path in the task directory stays; of any other the last segment is put there |
| `TaskDocs.TaskFolderExactly` | apps/local-server/src/task/repository.ts:322-336 | the scan looks at the direct subfolders of the task directory |
| `TaskDocs.HashedTextTellsApart` | apps/local-server/src/task/repository.ts:71-72 | the text that is hashed into a task id tells repo and path apart |
| `TaskDocs.NormalizingTwiceExactly` | apps/local-server/src/task/repository.ts:74-80 | normalizing a task path twice is normalizing it once, except for a path that ends in `..` |
| `TaskStoreRuns.CacheMirrorsRows` | apps/local-server/src/task/repository.ts:338-350 | after a refresh the cache holds one task per id, and each equals its row |
| `TaskStoreRuns.RefreshIsPointwise` | apps/local-server/src/task/repository.ts:255-301 | with distinct ids, a refresh gives one task per document in scan order, merged from that document and its earlier row alone |
| `TaskStoreRuns.MergeExactly` | apps/local-server/src/task/repository.ts:255-279 | which of document and row decides each field: status and time the row of a task that is WORKING, RESUMING, PAUSED or has a worktree, else the document; the branch the row if it has one; everything else as its side says |
| `TaskStoreRuns.NewTaskExactly` | apps/local-server/src/task/repository.ts:265-279 | a document without a row makes a task with the document's status, branch and times and nothing else |
| `TaskStoreRuns.RowKeepsAuthority` | apps/local-server/src/task/repository.ts:214-219 | whatever the documents say, a row that is WORKING, RESUMING, PAUSED or has a worktree keeps its status, worktree and time |
| `TaskStoreRuns.RefreshKeepsRuntimeFields` | apps/local-server/src/task/repository.ts:265-279 | no refresh loses a field that only the database knows, nor a branch once chosen |
| `TaskStoreRuns.RefreshKeepsAuthoritativeStatus` | apps/local-server/src/task/repository.ts:214-301 | editing documents never changes the stored or the returned status of such a task |
| `TaskStoreRuns.RefreshTwiceIsRefreshOnce` | apps/local-server/src/task/repository.ts:386-390 | with distinct ids a second refresh leaves rows, cache, events and writes as they are |
| `TaskStoreRuns.NothingWrittenExactly` | apps/local-server/src/task/repository.ts:281-298 | a refresh writes no row if and only if each row already is what its document makes it |
| `TaskStoreRuns.SharedIdIsAlwaysWritten` | apps/local-server/src/task/repository.ts:281-298 | two documents that give one id different repos or change paths have its row written by every refresh |
| `TaskStoreConflicts.SecondRefreshSilentExactly` | apps/local-server/src/task/repository.ts:255-301 | for any documents and rows: the second refresh writes nothing if and only if documents of one id agree on repo and change path and, unless the task runs or one of them says so, on status and time |
| `TaskStoreRuns.RefreshAgreesExactly` | apps/local-server/src/task/repository.ts:269-279 | after a refresh documents and rows agree on every status if and only if no authoritative row overrules its document |
| `TaskStoreRuns.UpdateIsRead` | apps/local-server/src/task/repository.ts:551-581 | an update's status is what the next get returns; without a status the old one stays if and only if the task is still authoritative or its document agrees |
| `TaskStoreRuns.UpdatedFieldsAreRead` | apps/local-server/src/task/repository.ts:551-581 | field by field: what an update names is read back, everything else is as before; a cleared branch falls back to the document's, and the time is the update's unless the document decides it |
| `TaskStoreRuns.UpdateKeepsAgreement` | apps/local-server/src/task/repository.ts:542-581 | an update keeps documents and rows in agreement and does not fail, when every document lies in the folder it names |
| `TaskStoreConflicts.UpdateAgreesExactly` | apps/local-server/src/task/repository.ts:542-581 | wherever documents say they lie: an update keeps them in agreement if and only if it has no status, or writes its own document, or what it writes elsewhere or nowhere contradicts neither its own document (while the task is authoritative) nor an authoritative task of the other one |
| `TaskStoreRuns.MarkRemovedKeepsAgreement` | apps/local-server/src/task/repository.ts:583-588 | so does a removal |
| `TaskStoreRuns.MarkRemovedExactly` | apps/local-server/src/task/repository.ts:583-588 | removal is refused exactly for a WORKING task, and otherwise the task reads as REMOVED |
| `TaskStoreRuns.CreateKeepsAgreement` | apps/local-server/src/task/repository.ts:509-540 | so does a creation in a scanned folder under an unclaimed id |
| `TaskStoreRuns.CreatedIsRead` | apps/local-server/src/task/repository.ts:499-540 | a created task is read back as given, with its path normalized and, unless held, the document's time; the answer is the cached task under the derived id, else the new one |
| `TaskStoreRuns.CreateNeedsRepo` | apps/local-server/src/task/repository.ts:510-513 | a creation fails if and only if its repo is not registered, and then changes nothing |
| `TaskStoreRuns.RunKeepsAgreement` | apps/local-server/src/task/repository.ts:509-593 | and every run of these operations without outside edits |
| `TaskStoreConflicts.UpdateFailsExactly` | apps/local-server/src/task/repository.ts:542-577 | an update fails if and only if it carries a status and the folder that its document names holds no document; it has then stored the row and left cache and documents behind |
| `TaskStoreConflicts.RenamedFolderIsHalfUpdated` | apps/local-server/src/task/repository.ts:542-549 | an imported document whose folder was renamed: marking its task READY fails with row READY and document DRAFT |
| `TaskStoreRuns.EventsTellTheCache` | apps/local-server/src/task/repository.ts:371-390 | over every run, outside edits included, the events alone bring a client from an empty board to the cached ids and statuses |
| `TaskStoreRuns.UpsertsTellTheRows` | apps/local-server/src/task/repository.ts:232-253 | over every run, outside edits included, the rows are the first ones with exactly the upserts since applied |
| `TaskRepository.Store.MapTaskFromDisk` | apps/local-server/src/task/repository.ts:255-301 | returns the merged task and writes it only if it differs from its row |
| `TaskRepository.Store.BuildTaskSnapshot` | apps/local-server/src/task/repository.ts:338-350 | the scan loop refreshes rows and snapshot document by document |
| `TaskRepository.Store.EmitSnapshotChanges` | apps/local-server/src/task/repository.ts:371-377 | the two loops emit creations and changes in snapshot order, then removals in cache order |
| `TaskRepository.Store.RefreshCache` | apps/local-server/src/task/repository.ts:386-390 | rows, cache, events and writes after a refresh |
| `TaskRepository.Store.SyncTaskStatusToDisk` | apps/local-server/src/task/repository.ts:542-549 | writes the status into the task's document, skips an unregistered repo, fails on a missing document |
| `TaskRepository.Store.Update` | apps/local-server/src/task/repository.ts:551-581 | the whole update, the half-done failure included |
| `TaskRepository.Store.MarkRemoved` | apps/local-server/src/task/repository.ts:583-588 | the whole removal |
| `TaskRepository.Store.Create` | apps/local-server/src/task/repository.ts:509-540 | the whole creation, with its fallback |
| `TaskEvents.EventsAreExact` | apps/local-server/src/task/repository.ts:303-377 | a creation, change or removal is emitted if and only if it is true of the two snapshots |
| `Dashboard.CreationShows` | apps/dashboard/src/hooks/useTaskEvents.ts:50-57 | a creation event adds the task to the list; the counter stays |
| `Dashboard.ChangeShows` | apps/dashboard/src/hooks/useTaskEvents.ts:59-85 | a status event brings list and counter along, and the clamp at zero is not reached |
| `Dashboard.RemovalShows` | apps/dashboard/src/hooks/useTaskEvents.ts:87-101 | a removal event brings list and counter along, and the clamp at zero is not reached |
| `Dashboard.ReplayShowsNewSnapshot` | apps/dashboard/src/hooks/useTaskEvents.ts:50-101 | a client that shows the old snapshot shows exactly the new ids and statuses after its events, and counts the working tasks it knew before |
| `Dashboard.CapacityAfterReplay` | apps/dashboard/src/hooks/useTaskEvents.ts:50-101 | the counter is the number of WORKING tasks if and only if no newly created task is already WORKING; it is short by exactly those |
| `Dashboard.HistoryReplays` | apps/dashboard/src/hooks/useTaskEvents.ts:50-101 | after any history without such tasks, list and counter agree with the server's own count |
| `Dashboard.ReplayLists` | apps/dashboard/src/hooks/useTaskEvents.ts:50-101 | the task list follows the snapshots even where the counter does not |
| `AgentReaper.RunSettlesOnce` | apps/local-server/src/executor/step-launcher.ts:265-270 | for every order of callbacks `resolve` is called at most once and the first outcome stays |
| `AgentReaper.ResultMeansReaped` | apps/local-server/src/executor/step-launcher.ts:265-325 | with a provider that awaits `onSpawn`, in every run a result means that no agent runs and no timer is left |
| `AgentReaper.LeaksExactly` | apps/local-server/src/executor/step-launcher.ts:309-321 | some run leaves a result beside a running agent or a timer if and only if the provider does not await `onSpawn`, none was spawned yet and its success can still be, or was, heard |
| `AgentReaper.ProviderResultIsUsed` | apps/local-server/src/executor/step-launcher.ts:272-277 | a provider that succeeded before the grace period ran out is never replaced by the log |
| `AgentReaper.TimedOutUsesLog` | apps/local-server/src/executor/step-launcher.ts:329-343 | once the grace period has run out, an open promise gets the log's result, whatever the provider does later |
| `AgentReaper.RunReportsTruly` | apps/local-server/src/executor/step-launcher.ts:309-321 | no run reports the result of a provider that did not succeed |
| `AgentReaper.NoLostWakeUp` | apps/local-server/src/executor/step-launcher.ts:286-325 | for an unanswered run whose agent is dead or whose pid could not be stored: what is due can happen, no other callback takes it away, and it brings the answer closer; failed saves included for a provider that awaits `onSpawn` |
| `AgentReaper.FairRunsSettle` | apps/local-server/src/executor/step-launcher.ts:272-325 | every schedule, failed saves included for such a provider, has an answer once it has done what is due four times |
| `AgentReaper.StuckExactly` | apps/local-server/src/executor/step-launcher.ts:286-325 | a dead agent can still get an answer if and only if the run is not stuck; a provider that awaits `onSpawn` never gets stuck |
| `AgentReaper.UnawaitedSpawnGetsStuck` | apps/local-server/src/executor/step-launcher.ts:286-293 | a provider that does not await it does: heard between spawn and failed save, then the agent exits |
| `AgentCallbacks.AgentRun.Settle` | apps/local-server/src/executor/step-launcher.ts:265-270 | calls `resolve` only for an unsettled run, clears its timer, keeps an outcome that is there; a settled run stays as it is |
| `AgentCallbacks.AgentRun.SettleFromPollPath` | apps/local-server/src/executor/step-launcher.ts:272-277 | changes nothing when settled or reaping already; otherwise starts the grace period, so that the stored pid is watched again |
| `AgentCallbacks.AgentRun.OnSaved` | apps/local-server/src/executor/step-launcher.ts:286-306 | a stored pid is watched by the timer while the agent runs, else by the grace period; a failed save watches nothing |
| `AgentCallbacks.AgentRun.PollTick` | apps/local-server/src/executor/step-launcher.ts:302-306 | changes nothing while the agent runs; a dead one is settled or in its grace period afterwards; never resolves by itself |
| `AgentCallbacks.AgentRun.OnProvider` | apps/local-server/src/executor/step-launcher.ts:309-325 | a failure rejects an open promise; a success settles exactly when no agent runs, and otherwise leaves outcome and timer alone |
| `AgentCallbacks.AgentRun.GraceEnds` | apps/local-server/src/executor/step-launcher.ts:275-277 | leaves a settled run with a dead agent and no timer, an open promise resolved by the provider if it succeeded in time, else by the log |
| `LogFile.GrowthAddsLines` | apps/local-server/src/events/log-file-tailer.ts:8-17 | text written after whole lines adds its own lines and changes none |
| `LogFile.AppendedLine` | apps/local-server/src/events/log-file-tailer.ts:8-17 | a non-empty line written with its newline is one line more |
| `LogStreamRuns.EachLineOnceExactly` | apps/local-server/src/events/log-routes.ts:191-276 | for every schedule of writes of any text and polls the client gets the history and exactly as many lines as follow its offset; they are the file's lines if and only if no read that sent a line broke off inside a line that was then continued |
| `LogStreamRuns.EachLineOnce` | apps/local-server/src/events/log-routes.ts:191-276 | so with whole-line writes each line from the offset arrives once and in order, and at any time before a prefix of that |
| `LogStreamRuns.ResumedExactly` | apps/local-server/src/events/log-routes.ts:145-146 | the file part equals the lines from the client's own offset if and only if, for an offset within the file at connection, those reads ended clean, and for one beyond it, no line was added |
| `LogStreamRuns.HalfLineIsLost` | apps/local-server/src/events/log-routes.ts:244-254 | an instance: a line read half-written is never completed |
| `LogStream.FileStreamer.PollOnce` | apps/local-server/src/events/log-routes.ts:244-254 | skips the read unless the size grew; else sends the lines after its count and moves it |
| `LogStream.FileStreamer.FinishFromFile` | apps/local-server/src/events/log-routes.ts:261-269 | sends what is left |
| `LogFlusher.FlushKeepsFaithful` | apps/local-server/src/executor/log-flusher.ts:33-57 | a flush of any step, failed or not, keeps the stored lines the prefix of the remembered length; one that succeeds brings its step up to date |
| `LogFlusher.TickCatchesUp` | apps/local-server/src/executor/log-flusher.ts:59-64 | a tick brings every tracked step up to date whose insert succeeds, in any visiting order |
| `LogFlusher.TickKeepsFailing` | apps/local-server/src/executor/log-flusher.ts:45-57 | a tick leaves the stored lines and the count of a step whose insert fails as they were |
| `LogFlusher.RunKeepsFaithful` | apps/local-server/src/executor/log-flusher.ts:33-80 | over every run of writes, ticks, failures, final flushes, crashes and recoveries the stored lines are that prefix |
| `LogFlusher.FinalFlushCompletes` | apps/local-server/src/executor/log-flusher.ts:74-80 | a final flush stores all lines and forgets the step |
| `LogFlusher.CrashRecoveryCompletes` | apps/local-server/src/executor/recovery.ts:118-121 | from any crash point recovery leaves exactly the file's lines; a failed insert leaves the prefix |
| `LogFlusher.RetrackedExactly` | apps/local-server/src/executor/log-flusher.ts:67-72 | after tracking a step again, a flush leaves the file's lines if and only if nothing was stored before |
| `LogFlusher.ConnectingExactly` | apps/local-server/src/events/log-routes.ts:136-146 | a client of an execution is sent the stored lines of all its steps and then the last step's file from its offset on; it gets each of the last step's lines once if and only if that offset is where the stored ones end |
| `LogFlusher.Flusher.FlushStepOnce` | apps/local-server/src/executor/log-flusher.ts:33-57 | reads from the remembered count, saves, and counts only after a save that succeeded |
| `LogFlusher.Flusher.TickOver` | apps/local-server/src/executor/log-flusher.ts:59-64 | flushes every entry in turn |
| `LogFlusher.Flusher.FlushFinally` | apps/local-server/src/executor/log-flusher.ts:74-80 | flushes and forgets a tracked step |
| `LogFlusher.Flusher.RecoverStep` | apps/local-server/src/executor/recovery.ts:182-212 | stores the lines after the stored count |
| `Frontmatter.ShortestCloses` | apps/local-server/src/task-docs/frontmatter.ts:8-8 | the lazy group ends at the first closing fence, or there is none |
| `Frontmatter.RoundTripsExactly` | apps/local-server/src/task-docs/frontmatter.ts:8-27 | parsing the printed document gives back the same YAML text and body, for any body, if and only if the YAML text has no line break followed by `---` and does not end in a carriage return |
| `Frontmatter.ReturnsRoundTripExactly` | apps/local-server/src/task-docs/frontmatter.ts:8-20 | with carriage returns around the fences the same holds, if and only if the YAML text has no fence |
| `Frontmatter.TrimExactly` | apps/local-server/src/task-docs/frontmatter.ts:25-25 | trimming takes all blanks from both ends and nothing else |
| `Frontmatter.UpdateReadsBackExactly` | apps/local-server/src/task-docs/frontmatter.ts:29-42 | an update keeps the body byte for byte if and only if the new YAML text has no fence inside |
| `Frontmatter.ReadFailsExactly` | apps/local-server/src/task-docs/frontmatter.ts:10-20 | a document without fences is missing its delimiters, one whose YAML is refused fails with that error, and any other is read as its fields and body |
| `Frontmatter.UpdatesCompose` | apps/local-server/src/task-docs/frontmatter.ts:29-42 | two updates leave the same file as both changes at once |
| `Frontmatter.StatusUpdateIsRead` | apps/local-server/src/task-docs/task.ts:173-181 | a status update writes that status's name, is read back as that status, and leaves every other field and the body |
| `Frontmatter.DocumentFile.UpdateFrontmatter` | apps/local-server/src/task-docs/frontmatter.ts:29-42 | rewrites the file, or leaves it alone when it does not parse |

## Left out

- HTTP routes, the CLI, React components, installers and benchmarks: plumbing.
- Git, processes and the file system: represented by the files, flags and rows described above.
- YAML, JSON, Zod and log rendering: YAML is a pair of function parameters, log lines are raw text, and a workflow definition is already parsed.
- Names that JavaScript objects inherit, such as `constructor`: a lookup of such a step or target succeeds in the program and fails here.
- Generated prompts: `createRunningStep` can also fail in the template generator, which would leave an execution without a step.
- Overlapping service calls: `continueWorkflow` writes WORKING without reading the status again, so an abort inside a completion is not covered.
- `abortTask` on executions, `finalizeLaunchFailure` and `reattachToRunningAgent`: they rewrite rows outside the three service calls; the abort appears only as a status change of the queue.
- ServiceRefinesSimulation: reports go to the step that the last answer named, as the completion handler does.
- DrainRunsEachOnce: repeats one task at a time, so it does not say how many run side by side; `RunsStayWithinCapacity` covers that.
- Dependency rows are given data: the importer that writes them is not part of this model, nor is the limit on concurrent tasks when its setting is not a number.
- `left.localeCompare(right)` on timestamps: a comparison of numbers, which agrees on ISO strings of one format.
- SortTasks: the engine's stable sort is modelled as insertion.
- Task ids derived from a path: the hashed text stands in for its hash.
- TaskStore.Create: the place of a new folder in the scan order is a parameter, the default values of the new row are filled in by the caller, and the frontmatter fields other than id, status, time, branch and path are not kept.
- Documents that do not parse: a refresh fails on them; `Frontmatter` says which those are.
- Dots, doubled and trailing slashes in stored paths are not resolved; upper-casing covers ASCII.
- An update that passes a present but undefined status: the type here does not allow it.
- The dashboard's `init` event, its full refresh after each event, and events that a stream drops: the statements are about the event reducer alone.
- Task lists, filters, metrics and `createIdempotent`: easy members beside the ones here.
- AgentReaper: a pid is never reused and never 0; a rejected run may leave its agent running, and its timer until the agent exits.
- Half-written lines in the flusher and in recovery; overlapping polls and overlapping flushes, disconnects in the middle of a send, a resume offset that is not a number, and the in-memory log buffer.
- File sizes count characters, not UTF-8 bytes: only growth matters.
- Recovery: `classifyStep`, the inferred outcome and the deletion of the log file after it was copied (also after a failed copy) are not modelled.
- Sections and checkboxes of a document's body, dependency and source metadata: not part of this model.
