/**
 What holds of executions, step executions and tasks after every run of the queue, the
 completion handler, the user's requests and crash recovery.
 */
module ExecutionInvariant {
  import opened Collections
  import opened WorkflowEngine
  import opened WorkflowRuns
  import opened TaskModel
  import opened WorkflowStore

  /** Accepted, no live empty target, and every step's `id` is its key. */
  ghost predicate SoundWorkflow(def: WorkflowDefinition) {
    && Accepted(def) && NoLiveEmptyTarget(def)
    && "" !in def.steps
    && forall id :: id in def.steps ==> def.steps[id].id == id
  }

  ghost predicate SoundWorkflows(st: Store) {
    forall name :: name in st.workflows ==> SoundWorkflow(st.workflows[name]) && st.workflows[name].name == name
  }

  function CurrentStep(execution: Execution): string {
    SimOf(execution).currentStepId
  }

  ghost predicate LinkedExecution(st: Store, e: nat) {
    && e in st.executions && e < st.nextExecution
    && st.executions[e].taskId in st.tasks
    && st.executions[e].workflowId in st.workflows
    && WellFormed(SimOf(st.executions[e]))
  }

  ghost predicate LinkedRows(st: Store) {
    && (forall e :: e in st.executions ==> LinkedExecution(st, e))
    && (forall s :: s in st.steps ==> s < st.nextStep && st.steps[s].executionId in st.executions)
  }

  predicate OwnedBy(st: Store, e: nat, taskId: string) {
    e in st.executions && st.executions[e].taskId == taskId
  }

  /** No execution of the task is active and no step of it runs. */
  ghost predicate Idle(st: Store, taskId: string) {
    && (forall e: nat :: OwnedBy(st, e, taskId) ==> st.executions[e].status != Active)
    && (forall s: nat :: BelongsTo(st, s, taskId) ==> st.steps[s].status != StepRunning)
  }

  ghost predicate LatestClosedAs(st: Store, taskId: string, status: ExecutionStatus) {
    exists e: nat :: OwnedBy(st, e, taskId) && st.executions[e].status == status
      && forall other: nat :: OwnedBy(st, other, taskId) ==> other <= e
  }

  /**
   Step `s` is the task's latest and the only one that may run; its execution is the task's latest
   and only active one, and stands at that step.
   */
  ghost predicate StandsAt(st: Store, taskId: string, s: nat, status: StepStatus) {
    && BelongsTo(st, s, taskId) && st.steps[s].status == status
    && var e := st.steps[s].executionId;
       var execution := st.executions[e];
       && execution.status == Active
       && execution.workflowId in st.workflows
       && CurrentStep(execution) in st.workflows[execution.workflowId].steps
       && st.steps[s].stepId == CurrentStep(execution)
       && st.steps[s].iteration == execution.iteration
       && (forall other: nat :: OwnedBy(st, other, taskId) ==>
             other <= e && (st.executions[other].status == Active ==> other == e))
       && (forall other: nat :: BelongsTo(st, other, taskId) ==>
             other <= s && (st.steps[other].status == StepRunning ==> other == s))
  }

  ghost predicate Stands(st: Store, taskId: string, status: StepStatus) {
    exists s: nat :: StandsAt(st, taskId, s, status)
  }

  ghost predicate SoundTask(st: Store, taskId: string)
    requires taskId in st.tasks
  {
    match st.tasks[taskId].status
    case Working => Stands(st, taskId, StepRunning)
    case Paused => Stands(st, taskId, AwaitingInput)
    case Resuming => Stands(st, taskId, AwaitingInput)
    case Done => Idle(st, taskId) && LatestClosedAs(st, taskId, Completed)
    case Blocked => Idle(st, taskId) && LatestClosedAs(st, taskId, Failed)
    case _ => Idle(st, taskId)
  }

  ghost predicate Invariant(st: Store) {
    && SoundWorkflows(st)
    && LinkedRows(st)
    && forall taskId :: taskId in st.tasks ==> SoundTask(st, taskId)
  }

  /** A completion report of an open step names that step's task and execution, and the step runs. */
  ghost predicate Allowed(st: Store, action: Action) {
    action.ReportStep? && action.input.stepId in st.steps && !IsFinalized(st.steps[action.input.stepId].status) ==>
      && st.steps[action.input.stepId].status == StepRunning
      && st.steps[action.input.stepId].executionId == action.input.executionId
      && BelongsTo(st, action.input.stepId, action.taskId)
  }

  ghost predicate AllAllowed(st: Store, actions: seq<Action>)
    decreases |actions|
  {
    actions == [] || (Allowed(st, actions[0]) && AllAllowed(Perform(st, actions[0]), actions[1..]))
  }

  /** Tables in which nothing has been started yet. */
  ghost predicate Fresh(st: Store) {
    && SoundWorkflows(st)
    && st.executions == map[] && st.steps == map[]
    && forall t :: t in st.tasks ==> st.tasks[t].status in {TaskStatus.Draft, TaskStatus.Ready, TaskStatus.Removed}
  }

  // ---------------------------------------------------------------------------
  // Reading the invariant
  // ---------------------------------------------------------------------------

  /** A task has at most one running step; it has one exactly when it is WORKING. */
  lemma WorkingMeansOneRunningStep(st: Store, taskId: string)
    requires Invariant(st) && taskId in st.tasks
    ensures st.tasks[taskId].status == TaskStatus.Working
       <==> exists s: nat :: BelongsTo(st, s, taskId) && st.steps[s].status == StepRunning
    ensures forall s: nat, s': nat ::
      && BelongsTo(st, s, taskId) && st.steps[s].status == StepRunning
      && BelongsTo(st, s', taskId) && st.steps[s'].status == StepRunning
      ==> s == s'
  {
    assert SoundTask(st, taskId);
  }

  /** The running step is the last entry of its execution's duplicate-free visited list. */
  lemma RunningStepIsLastVisited(st: Store, s: nat)
    requires Invariant(st) && s in st.steps && st.steps[s].status == StepRunning
    ensures var execution := st.executions[st.steps[s].executionId];
            && execution.visitedSteps != []
            && Last(execution.visitedSteps) == st.steps[s].stepId
            && NoDuplicates(execution.visitedSteps)
  {
    var taskId := st.executions[st.steps[s].executionId].taskId;
    assert LinkedExecution(st, st.steps[s].executionId);
    assert SoundTask(st, taskId) && BelongsTo(st, s, taskId);
  }

  /** A paused task runs nothing, and its latest step awaits input. */
  lemma PausedMeansAwaiting(st: Store, taskId: string)
    requires Invariant(st) && taskId in st.tasks
    requires st.tasks[taskId].status in {TaskStatus.Paused, TaskStatus.Resuming}
    ensures forall s: nat :: BelongsTo(st, s, taskId) ==> st.steps[s].status != StepRunning
    ensures LatestStep(st, taskId).Some?
    ensures StandsAt(st, taskId, LatestStep(st, taskId).value, AwaitingInput)
  {
    assert SoundTask(st, taskId);
    var s: nat :| StandsAt(st, taskId, s, AwaitingInput);
    assert s < st.nextStep;
  }

  /** A finished task runs nothing, and its latest execution is closed accordingly. */
  lemma FinishedMeansClosed(st: Store, taskId: string)
    requires Invariant(st) && taskId in st.tasks
    requires st.tasks[taskId].status in {TaskStatus.Done, TaskStatus.Blocked}
    ensures forall s: nat :: BelongsTo(st, s, taskId) ==> st.steps[s].status != StepRunning
    ensures LatestExecution(st, taskId).Some?
    ensures st.executions[LatestExecution(st, taskId).value].status
         == if st.tasks[taskId].status == TaskStatus.Done then Completed else Failed
  {
    assert SoundTask(st, taskId);
    LatestClosedIsFound(st, taskId, if st.tasks[taskId].status == TaskStatus.Done then Completed else Failed);
  }

  lemma LatestClosedIsFound(st: Store, taskId: string, status: ExecutionStatus)
    requires LinkedRows(st) && LatestClosedAs(st, taskId, status)
    ensures LatestExecution(st, taskId).Some?
    ensures st.executions[LatestExecution(st, taskId).value].status == status
  {
    var e: nat :| OwnedBy(st, e, taskId) && st.executions[e].status == status
      && forall other: nat :: OwnedBy(st, other, taskId) ==> other <= e;
    assert LinkedExecution(st, e);
    var found := LatestExecution(st, taskId).value;
    assert OwnedBy(st, found, taskId);
  }

  // ---------------------------------------------------------------------------
  // One task at a time
  // ---------------------------------------------------------------------------

  ghost predicate Untouched(st: Store, next: Store, taskId: string) {
    && (taskId in st.tasks <==> taskId in next.tasks)
    && (taskId in st.tasks ==> next.tasks[taskId].status == st.tasks[taskId].status)
    && (forall e: nat :: OwnedBy(st, e, taskId) <==> OwnedBy(next, e, taskId))
    && (forall e: nat :: OwnedBy(st, e, taskId) ==> next.executions[e] == st.executions[e])
    && (forall s: nat :: BelongsTo(st, s, taskId) <==> BelongsTo(next, s, taskId))
    && (forall s: nat :: BelongsTo(st, s, taskId) ==> next.steps[s] == st.steps[s])
  }

  lemma UntouchedStaysSound(st: Store, next: Store, taskId: string)
    requires taskId in st.tasks && SoundTask(st, taskId)
    requires next.workflows == st.workflows && Untouched(st, next, taskId)
    ensures SoundTask(next, taskId)
  {
    forall s: nat, status | StandsAt(st, taskId, s, status) ensures StandsAt(next, taskId, s, status) {
    }
  }

  lemma OneTaskAtATime(st: Store, next: Store, taskId: string)
    requires Invariant(st) && taskId in st.tasks
    requires next.workflows == st.workflows && LinkedRows(next)
    requires next.tasks.Keys == st.tasks.Keys
    requires forall other :: other in st.tasks && other != taskId ==> Untouched(st, next, other)
    requires SoundTask(next, taskId)
    ensures Invariant(next)
  {
    forall other | other in next.tasks ensures SoundTask(next, other) {
      if other != taskId {
        UntouchedStaysSound(st, next, other);
      }
    }
  }

  // ---------------------------------------------------------------------------
  // Starting
  // ---------------------------------------------------------------------------

  /** A start fails exactly when the workflow, or the step to retry from, does not exist. */
  lemma StartSucceedsExactly(st: Store, taskId: string, task: TaskRow)
    requires SoundWorkflows(st)
    ensures var name := if task.preferredWorkflow.Some? then task.preferredWorkflow.value else st.defaultWorkflow;
            StartTask(st, taskId, task).1.Ok?
            <==> && name in st.workflows
                 && (task.retryFromStep.Some? && task.retryFromStep.value != "" ==>
                       task.retryFromStep.value in st.workflows[name].steps)
  {
    if WorkflowNameFor(st, task) in st.workflows {
      assert SoundWorkflow(st.workflows[WorkflowNameFor(st, task)]);
    }
  }

  ghost predicate SoundStart(def: WorkflowDefinition, start: StartPoint) {
    && start.visitedSteps != [] && NoDuplicates(start.visitedSteps)
    && start.step.id in def.steps
    && Last(start.visitedSteps) == start.step.id
  }

  lemma StartPointIsSound(st: Store, claimed: Store, taskId: string, def: WorkflowDefinition, task: TaskRow)
    requires LinkedRows(st) && SoundWorkflow(def) && claimed.executions == st.executions
    requires ResolveStart(claimed, taskId, def, task).Ok?
    ensures SoundStart(def, ResolveStart(claimed, taskId, def, task).value)
  {
    if Truthy(task.retryFromStep) {
      var latest := LatestExecution(claimed, taskId);
      if latest.Some? {
        assert LinkedExecution(st, latest.value);
      }
    }
  }

  lemma LaunchLinks(st: Store, taskId: string, name: string, start: StartPoint)
    requires LinkedRows(st) && name in st.workflows && SoundStart(st.workflows[name], start)
    requires taskId in st.tasks
    ensures LinkedRows(Launch(st, taskId, name, start))
  {
    var next := Launch(st, taskId, name, start);
    forall e | e in next.executions ensures LinkedExecution(next, e) {
      assert e in st.executions ==> LinkedExecution(st, e);
    }
  }

  lemma LaunchStands(st: Store, taskId: string, name: string, start: StartPoint)
    requires LinkedRows(st) && name in st.workflows && SoundStart(st.workflows[name], start)
    requires Idle(st, taskId)
    ensures StandsAt(Launch(st, taskId, name, start), taskId, st.nextStep, StepRunning)
  {
    assert forall e :: e in st.executions ==> LinkedExecution(st, e);
  }

  lemma LaunchTouchesOneTask(st: Store, taskId: string, name: string, start: StartPoint, other: string)
    requires LinkedRows(st) && other != taskId
    ensures Untouched(st, Launch(st, taskId, name, start), other)
  {
    assert forall e :: e in st.executions ==> LinkedExecution(st, e);
  }

  /** A change of task rows alone. */
  ghost predicate OnlyTasksDiffer(st: Store, next: Store) {
    && next.workflows == st.workflows
    && next.executions == st.executions && next.steps == st.steps
    && next.nextExecution == st.nextExecution && next.nextStep == st.nextStep
    && next.tasks.Keys == st.tasks.Keys
  }

  lemma OnlyTasksUntouched(st: Store, mid: Store, next: Store, other: string)
    requires Untouched(st, mid, other) && OnlyTasksDiffer(mid, next) && other in st.tasks
    requires next.tasks[other].status == st.tasks[other].status
    ensures Untouched(st, next, other)
  {
  }

  lemma LaunchKeepsInvariant(st: Store, taskId: string, name: string, start: StartPoint, next: Store)
    requires Invariant(st) && name in st.workflows && SoundStart(st.workflows[name], start)
    requires taskId in st.tasks && Idle(st, taskId)
    requires OnlyTasksDiffer(Launch(st, taskId, name, start), next)
    requires next.tasks[taskId].status == TaskStatus.Working
    requires forall t :: t in st.tasks && t != taskId ==> next.tasks[t] == st.tasks[t]
    ensures Invariant(next)
  {
    var launched := Launch(st, taskId, name, start);
    LaunchLinks(st, taskId, name, start);
    LaunchStands(st, taskId, name, start);
    LaunchedKeepsInvariant(st, launched, next, taskId, start);
  }

  lemma LaunchedKeepsInvariant(st: Store, launched: Store, next: Store, taskId: string, start: StartPoint)
    requires Invariant(st) && taskId in st.tasks
    requires exists name :: launched == Launch(st, taskId, name, start)
    requires LinkedRows(launched) && StandsAt(launched, taskId, st.nextStep, StepRunning)
    requires OnlyTasksDiffer(launched, next) && next.tasks[taskId].status == TaskStatus.Working
    requires forall t :: t in st.tasks && t != taskId ==> next.tasks[t] == st.tasks[t]
    ensures Invariant(next)
  {
    var name :| launched == Launch(st, taskId, name, start);
    ClaimStands(launched, next, taskId, st.nextStep, StepRunning);
    forall other | other in st.tasks && other != taskId ensures Untouched(st, next, other) {
      LaunchTouchesOneTask(st, taskId, name, start, other);
      OnlyTasksUntouched(st, launched, next, other);
    }
    OneTaskAtATime(st, next, taskId);
  }

  /** What the queue does with a READY task: give it back, or launch it from a resolved start. */
  lemma ReadyLaunches(st: Store, taskId: string, start: Result<StartPoint, ServiceError>)
    requires taskId in st.tasks && st.tasks[taskId].status == TaskStatus.Ready
    requires var claimed := SetTaskStatus(st, taskId, TaskStatus.Working);
             var name := WorkflowNameFor(st, st.tasks[taskId]);
             start == if name in st.workflows
                      then ResolveStart(claimed, taskId, st.workflows[name], st.tasks[taskId])
                      else Err(WorkflowNotFound(name))
    ensures var next := PerformReady(st, taskId);
            if start.Err? then next == st
            else
              var def := st.workflows[WorkflowNameFor(st, st.tasks[taskId])];
              && OnlyTasksDiffer(Launch(st, taskId, def.name, start.value), next)
              && next.tasks[taskId].status == TaskStatus.Working
              && forall t :: t in st.tasks && t != taskId ==> next.tasks[t] == st.tasks[t]
  {
    if start.Err? {
      assert PerformReady(st, taskId).tasks == st.tasks;
    }
  }

  lemma ReadyKeepsInvariant(st: Store, taskId: string)
    requires Invariant(st)
    ensures Invariant(PerformReady(st, taskId))
  {
    if taskId in st.tasks && st.tasks[taskId].status == TaskStatus.Ready {
      var task := st.tasks[taskId];
      var name := WorkflowNameFor(st, task);
      if name in st.workflows {
        var claimed := SetTaskStatus(st, taskId, TaskStatus.Working);
        var start := ResolveStart(claimed, taskId, st.workflows[name], task);
        ReadyLaunches(st, taskId, start);
        if start.Ok? {
          assert SoundWorkflow(st.workflows[name]) && SoundTask(st, taskId);
          StartPointIsSound(st, claimed, taskId, st.workflows[name], task);
          LaunchKeepsInvariant(st, taskId, name, start.value, PerformReady(st, taskId));
        }
      } else {
        ReadyLaunches(st, taskId, Err(WorkflowNotFound(name)));
      }
    }
  }

  // ---------------------------------------------------------------------------
  // Completing
  // ---------------------------------------------------------------------------

  lemma RunningStepStands(st: Store, taskId: string, s: nat)
    requires Invariant(st) && BelongsTo(st, s, taskId) && st.steps[s].status == StepRunning
    ensures taskId in st.tasks && StandsAt(st, taskId, s, StepRunning)
    ensures LinkedExecution(st, st.steps[s].executionId)
    ensures SoundWorkflow(DefinitionOf(st, st.steps[s].executionId))
  {
    assert LinkedExecution(st, st.steps[s].executionId);
    assert SoundTask(st, taskId);
  }

  /** Completing a running step never fails. */
  lemma CompletionSucceeds(st: Store, taskId: string, input: CompleteStepInput)
    requires Invariant(st) && BelongsTo(st, input.stepId, taskId)
    requires st.steps[input.stepId].status == StepRunning && st.steps[input.stepId].executionId == input.executionId
    ensures CompleteStep(st, taskId, input).1.Ok?
  {
    RunningStepStands(st, taskId, input.stepId);
    NeverRaisesExactly(DefinitionOf(st, input.executionId));
  }

  // ---------------------------------------------------------------------------
  // Changes inside one execution
  // ---------------------------------------------------------------------------

  /** Only execution `e`, its steps and its task's row may differ. */
  ghost predicate WithinExecution(st: Store, next: Store, e: nat) {
    && e in st.executions && next.workflows == st.workflows
    && next.nextExecution == st.nextExecution
    && next.executions.Keys == st.executions.Keys
    && (forall x :: x in st.executions && x != e ==> next.executions[x] == st.executions[x])
    && next.executions[e].taskId == st.executions[e].taskId
    && next.executions[e].workflowId == st.executions[e].workflowId
    && (forall s :: s in st.steps ==> s in next.steps && next.steps[s].executionId == st.steps[s].executionId)
    && (forall s :: s in next.steps ==>
          s < next.nextStep
          && (next.steps[s].executionId == e || (s in st.steps && next.steps[s] == st.steps[s])))
    && next.tasks.Keys == st.tasks.Keys
    && (forall t :: t in st.tasks && t != st.executions[e].taskId ==> next.tasks[t] == st.tasks[t])
  }

  lemma WithinExecutionLinks(st: Store, next: Store, e: nat)
    requires LinkedRows(st) && WithinExecution(st, next, e)
    requires WellFormed(SimOf(next.executions[e]))
    ensures LinkedRows(next)
  {
    forall x | x in next.executions ensures LinkedExecution(next, x) {
      assert LinkedExecution(st, x);
    }
  }

  lemma WithinExecutionKeepsInvariant(st: Store, next: Store, e: nat, taskId: string)
    requires Invariant(st) && WithinExecution(st, next, e)
    requires WellFormed(SimOf(next.executions[e]))
    requires taskId == st.executions[e].taskId && taskId in next.tasks && SoundTask(next, taskId)
    ensures Invariant(next)
  {
    WithinExecutionLinks(st, next, e);
    forall other | other in st.tasks && other != taskId ensures Untouched(st, next, other) {
      WithinExecutionTouchesOneTask(st, next, e, other);
    }
    OneTaskAtATime(st, next, taskId);
  }

  lemma WithinExecutionTouchesOneTask(st: Store, next: Store, e: nat, other: string)
    requires LinkedRows(st) && WithinExecution(st, next, e) && other != st.executions[e].taskId
    ensures Untouched(st, next, other)
  {
  }

  ghost predicate StepsNumbered(st: Store) {
    forall s :: s in st.steps ==> s < st.nextStep
  }

  lemma WithinTwice(a: Store, b: Store, c: Store, e: nat)
    requires WithinExecution(a, b, e) && WithinExecution(b, c, e)
    ensures WithinExecution(a, c, e)
  {
  }

  lemma FinalizeWithin(st: Store, input: CompleteStepInput, transition: TransitionResult)
    requires StepsNumbered(st) && input.executionId in st.executions
    requires input.stepId in st.steps && st.steps[input.stepId].executionId == input.executionId
    ensures WithinExecution(st, FinalizeStep(st, input, transition), input.executionId)
  {
  }

  lemma ExecutionWithin(st: Store, e: nat, execution: Execution)
    requires StepsNumbered(st) && e in st.executions
    requires execution.taskId == st.executions[e].taskId && execution.workflowId == st.executions[e].workflowId
    ensures WithinExecution(st, SetExecution(st, e, execution), e)
  {
  }

  lemma StatusWithin(st: Store, e: nat, status: TaskStatus)
    requires StepsNumbered(st) && e in st.executions
    ensures WithinExecution(st, SetTaskStatus(st, st.executions[e].taskId, status), e)
  {
  }

  lemma RunningStepWithin(st: Store, e: nat, step: WorkflowStep, iteration: nat)
    requires StepsNumbered(st) && e in st.executions
    ensures WithinExecution(st, CreateRunningStep(st, e, step, iteration), e)
  {
  }

  lemma StopWithin(st: Store, e: nat, transition: TransitionResult)
    requires StepsNumbered(st) && e in st.executions && !transition.Goto?
    ensures WithinExecution(st, ApplyTransition(st, st.executions[e].taskId, e, transition).0, e)
  {
    var execution := st.executions[e];
    match transition
    case Paused => StatusWithin(st, e, TaskStatus.Paused);
    case Done =>
      ExecutionWithin(st, e, execution.(status := Completed));
      var closed := SetExecution(st, e, execution.(status := Completed));
      StatusWithin(closed, e, TaskStatus.Done);
      WithinTwice(st, closed, SetTaskStatus(closed, execution.taskId, TaskStatus.Done), e);
    case Blocked =>
      ExecutionWithin(st, e, execution.(status := Failed));
      var closed := SetExecution(st, e, execution.(status := Failed));
      StatusWithin(closed, e, TaskStatus.Blocked);
      WithinTwice(st, closed, SetTaskStatus(closed, execution.taskId, TaskStatus.Blocked), e);
  }

  lemma MoveWithin(st: Store, e: nat, transition: TransitionResult)
    requires StepsNumbered(st) && e in st.executions && transition.Goto?
    ensures WithinExecution(st, ContinueWorkflow(st, st.executions[e].taskId, e, transition), e)
  {
    var execution := st.executions[e];
    var next := Advance(SimOf(execution), transition);
    var moved := SetExecution(st, e, execution.(visitedSteps := next.visitedSteps, iteration := next.iteration));
    var running := CreateRunningStep(moved, e, transition.step, next.iteration);
    ExecutionWithin(st, e, execution.(visitedSteps := next.visitedSteps, iteration := next.iteration));
    RunningStepWithin(moved, e, transition.step, next.iteration);
    StatusWithin(running, e, TaskStatus.Working);
    WithinTwice(st, moved, running, e);
    WithinTwice(st, running, SetTaskStatus(running, execution.taskId, TaskStatus.Working), e);
  }

  /** What the engine promises of a move. */
  ghost predicate RealTransition(def: WorkflowDefinition, transition: TransitionResult) {
    transition.Goto? ==> transition.stepId in def.steps && transition.step == def.steps[transition.stepId]
  }

  lemma TransitionsAreReal(
    def: WorkflowDefinition, stepId: string, result: StepResult, context: IterationContext)
    requires EvaluateTransition(def, stepId, result, context).Ok?
    ensures RealTransition(def, EvaluateTransition(def, stepId, result, context).value)
  {
  }

  /** The report of a running step, with the transition it leads to. */
  ghost predicate Reports(st: Store, taskId: string, input: CompleteStepInput, transition: TransitionResult) {
    && LinkedRows(st) && taskId in st.tasks
    && StandsAt(st, taskId, input.stepId, StepRunning)
    && st.steps[input.stepId].executionId == input.executionId
    && LinkedExecution(st, input.executionId)
    && (transition.Goto? ==>
          && transition.step.id == transition.stepId
          && transition.stepId in DefinitionOf(st, input.executionId).steps)
  }

  ghost function Reported(st: Store, taskId: string, input: CompleteStepInput, transition: TransitionResult): Store
    requires input.stepId in st.steps && input.executionId in st.executions
  {
    ApplyTransition(FinalizeStep(st, input, transition), taskId, input.executionId, transition).0
  }

  /** A report changes nothing outside its execution and that execution's task. */
  lemma ReportStaysWithin(st: Store, taskId: string, input: CompleteStepInput, transition: TransitionResult)
    requires StepsNumbered(st) && input.executionId in st.executions
    requires input.stepId in st.steps && st.steps[input.stepId].executionId == input.executionId
    requires st.executions[input.executionId].taskId == taskId
    ensures WithinExecution(st, Reported(st, taskId, input, transition), input.executionId)
  {
    var finalized := FinalizeStep(st, input, transition);
    FinalizeWithin(st, input, transition);
    if transition.Goto? {
      MoveWithin(finalized, input.executionId, transition);
    } else {
      StopWithin(finalized, input.executionId, transition);
    }
    WithinTwice(st, finalized, Reported(st, taskId, input, transition), input.executionId);
  }

  lemma ReportKeepsForm(st: Store, taskId: string, input: CompleteStepInput, transition: TransitionResult)
    requires LinkedExecution(st, input.executionId) && input.stepId in st.steps
    ensures var next := Reported(st, taskId, input, transition);
            input.executionId in next.executions && WellFormed(SimOf(next.executions[input.executionId]))
  {
    if transition.Goto? {
      VisitedStepsKeepForm(st.executions[input.executionId].visitedSteps, transition.stepId);
    }
  }

  lemma MoveStands(st: Store, taskId: string, input: CompleteStepInput, transition: TransitionResult)
    requires Reports(st, taskId, input, transition) && transition.Goto?
    ensures StandsAt(Reported(st, taskId, input, transition), taskId, st.nextStep, StepRunning)
  {
    VisitedStepsKeepForm(st.executions[input.executionId].visitedSteps, transition.stepId);
  }

  lemma PauseStands(st: Store, taskId: string, input: CompleteStepInput, transition: TransitionResult)
    requires Reports(st, taskId, input, transition) && transition.Paused?
    ensures StandsAt(Reported(st, taskId, input, transition), taskId, input.stepId, AwaitingInput)
  {
  }

  lemma EndIdles(st: Store, taskId: string, input: CompleteStepInput, transition: TransitionResult)
    requires Reports(st, taskId, input, transition) && (transition.Done? || transition.Blocked?)
    ensures Idle(Reported(st, taskId, input, transition), taskId)
  {
    var next := Reported(st, taskId, input, transition);
    assert forall other: nat :: OwnedBy(next, other, taskId) ==> OwnedBy(st, other, taskId);
  }

  lemma EndCloses(st: Store, taskId: string, input: CompleteStepInput, transition: TransitionResult)
    requires Reports(st, taskId, input, transition) && (transition.Done? || transition.Blocked?)
    ensures LatestClosedAs(Reported(st, taskId, input, transition), taskId,
                           if transition.Done? then Completed else Failed)
  {
    var next := Reported(st, taskId, input, transition);
    var e := input.executionId;
    assert forall other: nat :: OwnedBy(next, other, taskId) ==> OwnedBy(st, other, taskId);
    assert OwnedBy(next, e, taskId) && forall other: nat :: OwnedBy(next, other, taskId) ==> other <= e;
  }

  lemma ReportedTaskIsSound(st: Store, taskId: string, input: CompleteStepInput, transition: TransitionResult)
    requires Reports(st, taskId, input, transition)
    ensures var next := Reported(st, taskId, input, transition);
            taskId in next.tasks && SoundTask(next, taskId)
  {
    match transition
    case Goto(_, _, _) => MoveStands(st, taskId, input, transition);
    case Paused => PauseStands(st, taskId, input, transition);
    case Done =>
      EndIdles(st, taskId, input, transition);
      EndCloses(st, taskId, input, transition);
    case Blocked =>
      EndIdles(st, taskId, input, transition);
      EndCloses(st, taskId, input, transition);
  }

  lemma ReportedKeepsInvariant(st: Store, taskId: string, input: CompleteStepInput, transition: TransitionResult)
    requires Invariant(st) && Reports(st, taskId, input, transition)
    ensures Invariant(Reported(st, taskId, input, transition))
  {
    ReportStaysWithin(st, taskId, input, transition);
    ReportKeepsForm(st, taskId, input, transition);
    ReportedTaskIsSound(st, taskId, input, transition);
    WithinExecutionKeepsInvariant(st, Reported(st, taskId, input, transition), input.executionId, taskId);
  }

  lemma ReportKeepsInvariant(st: Store, taskId: string, input: CompleteStepInput)
    requires Invariant(st) && Allowed(st, ReportStep(taskId, input))
    ensures Invariant(CompleteStep(st, taskId, input).0)
  {
    if input.stepId in st.steps && !IsFinalized(st.steps[input.stepId].status) {
      RunningStepStands(st, taskId, input.stepId);
      CompletionSucceeds(st, taskId, input);
      var def := DefinitionOf(st, input.executionId);
      var execution := st.executions[input.executionId];
      var context := IterationContext(execution.iteration, execution.visitedSteps);
      TransitionsAreReal(def, CurrentStep(execution), input.result, context);
      var transition := EvaluateTransition(def, CurrentStep(execution), input.result, context).value;
      ReportedKeepsInvariant(st, taskId, input, transition);
    }
  }

  // ---------------------------------------------------------------------------
  // Resuming, recovering, and the user's requests
  // ---------------------------------------------------------------------------

  /** Running an awaited step again makes the new row stand in its place. */
  lemma SteppedStands(st: Store, taskId: string, s: nat, step: WorkflowStep)
    requires LinkedRows(st) && StandsAt(st, taskId, s, AwaitingInput)
    requires step.id == CurrentStep(st.executions[st.steps[s].executionId])
    ensures var e := st.steps[s].executionId;
            StandsAt(CreateRunningStep(st, e, step, st.executions[e].iteration), taskId, st.nextStep, StepRunning)
  {
  }

  lemma ResumeSteps(st: Store, taskId: string, s: nat)
    requires taskId in st.tasks && StandsAt(st, taskId, s, AwaitingInput)
    requires LinkedExecution(st, st.steps[s].executionId)
    requires CurrentStep(st.executions[st.steps[s].executionId]) != ""
    ensures var e := st.steps[s].executionId;
            var execution := st.executions[e];
            var step := st.workflows[execution.workflowId].steps[CurrentStep(execution)];
            var running := CreateRunningStep(st, e, step, execution.iteration);
            var (next, answer) := ResumeTask(st, taskId, s);
            answer.Ok? && next == MarkResumed(running, taskId)
  {
  }

  lemma MarkedWithin(st: Store, e: nat, taskId: string)
    requires StepsNumbered(st) && e in st.executions && st.executions[e].taskId == taskId && taskId in st.tasks
    ensures WithinExecution(st, MarkResumed(st, taskId), e) && OnlyTasksDiffer(st, MarkResumed(st, taskId))
    ensures MarkResumed(st, taskId).tasks[taskId].status == TaskStatus.Working
  {
  }

  lemma ResumeStands(st: Store, taskId: string, s: nat)
    requires LinkedRows(st) && taskId in st.tasks && StandsAt(st, taskId, s, AwaitingInput)
    requires LinkedExecution(st, st.steps[s].executionId)
    requires var execution := st.executions[st.steps[s].executionId];
             CurrentStep(execution) != ""
             && st.workflows[execution.workflowId].steps[CurrentStep(execution)].id == CurrentStep(execution)
    ensures var (next, answer) := ResumeTask(st, taskId, s);
            && answer.Ok? && next.tasks[taskId].status == TaskStatus.Working
            && StandsAt(next, taskId, st.nextStep, StepRunning)
            && WithinExecution(st, next, st.steps[s].executionId)
            && next.executions == st.executions
  {
    var e := st.steps[s].executionId;
    var step := st.workflows[st.executions[e].workflowId].steps[CurrentStep(st.executions[e])];
    var running := CreateRunningStep(st, e, step, st.executions[e].iteration);
    ResumeSteps(st, taskId, s);
    SteppedStands(st, taskId, s, step);
    RunningStepWithin(st, e, step, st.executions[e].iteration);
    MarkedWithin(running, e, taskId);
    WithinTwice(st, running, MarkResumed(running, taskId), e);
    SameRowsStand(running, MarkResumed(running, taskId), taskId, st.nextStep, StepRunning);
  }

  lemma SameRowsStand(st: Store, next: Store, taskId: string, s: nat, status: StepStatus)
    requires OnlyTasksDiffer(st, next) && StandsAt(st, taskId, s, status)
    ensures StandsAt(next, taskId, s, status)
  {
  }

  lemma ClaimedResumeStands(st: Store, taskId: string, s: nat)
    requires LinkedRows(st) && SoundWorkflows(st) && taskId in st.tasks && StandsAt(st, taskId, s, AwaitingInput)
    requires LinkedExecution(st, st.steps[s].executionId)
    ensures var (next, answer) := ResumeTask(SetTaskStatus(st, taskId, TaskStatus.Working), taskId, s);
            && answer.Ok? && taskId in next.tasks && next.tasks[taskId].status == TaskStatus.Working
            && StandsAt(next, taskId, st.nextStep, StepRunning)
            && WithinExecution(st, next, st.steps[s].executionId)
            && next.executions == st.executions
  {
    var claimed := SetTaskStatus(st, taskId, TaskStatus.Working);
    assert SoundWorkflow(st.workflows[st.executions[st.steps[s].executionId].workflowId]);
    ClaimStands(st, claimed, taskId, s, AwaitingInput);
    ResumeStands(claimed, taskId, s);
  }

  lemma SucceededResume(st: Store, taskId: string, s: nat)
    requires taskId in st.tasks && st.tasks[taskId].status == TaskStatus.Resuming
    requires Truthy(st.tasks[taskId].resumeInput) && LatestStep(st, taskId) == Some(s)
    requires ResumeTask(SetTaskStatus(st, taskId, TaskStatus.Working), taskId, s).1.Ok?
    ensures PerformResuming(st, taskId) == ResumeTask(SetTaskStatus(st, taskId, TaskStatus.Working), taskId, s).0
  {
  }

  /** A queued resume that has its input runs: the task becomes WORKING. */
  lemma ResumingKeepsInvariant(st: Store, taskId: string)
    requires Invariant(st)
    ensures Invariant(PerformResuming(st, taskId))
    ensures taskId in st.tasks && st.tasks[taskId].status == TaskStatus.Resuming
            && Truthy(st.tasks[taskId].resumeInput) ==>
              taskId in PerformResuming(st, taskId).tasks
              && PerformResuming(st, taskId).tasks[taskId].status == TaskStatus.Working
  {
    if taskId in st.tasks && st.tasks[taskId].status == TaskStatus.Resuming && Truthy(st.tasks[taskId].resumeInput) {
      PausedMeansAwaiting(st, taskId);
      var s := LatestStep(st, taskId).value;
      var e := st.steps[s].executionId;
      assert LinkedExecution(st, e);
      ClaimedResumeStands(st, taskId, s);
      SucceededResume(st, taskId, s);
      WithinExecutionKeepsInvariant(st, PerformResuming(st, taskId), e, taskId);
    }
  }

  lemma ClaimStands(st: Store, claimed: Store, taskId: string, s: nat, status: StepStatus)
    requires OnlyTasksDiffer(st, claimed) && LinkedRows(st) && StandsAt(st, taskId, s, status)
    ensures LinkedRows(claimed) && StandsAt(claimed, taskId, s, status)
  {
    SameRowsLink(st, claimed);
    SameRowsStand(st, claimed, taskId, s, status);
  }

  /**
   `resumeTask` leaves the awaiting step as it is, so on its own it would resume it again and run
   two steps of one execution. The task's status, which the queue reads first, is the only guard.
   */
  lemma ResumingTwiceRunsTwoSteps(st: Store, taskId: string, s: nat)
    requires s < st.nextStep && ResumeTask(st, taskId, s).1.Ok?
    ensures var once := ResumeTask(st, taskId, s).0;
            var (twice, answer) := ResumeTask(once, taskId, s);
            && answer == Ok(Response(TaskStatus.Working, Some(once.nextStep)))
            && st.nextStep != once.nextStep
            && {st.nextStep, once.nextStep} <= twice.steps.Keys
            && forall running :: running in {st.nextStep, once.nextStep} ==>
                 twice.steps[running].status == StepRunning
                 && twice.steps[running].executionId == st.steps[s].executionId
  {
  }

  lemma ResetIdles(st: Store, taskId: string, s: nat)
    requires LinkedRows(st) && taskId in st.tasks && StandsAt(st, taskId, s, StepRunning)
    requires st.tasks[taskId].status == TaskStatus.Working
    ensures var next := PerformResetStale(st, s);
            Idle(next, taskId) && next.tasks[taskId].status == TaskStatus.Ready
  {
  }

  lemma ResetStaysWithin(st: Store, taskId: string, s: nat)
    requires LinkedRows(st) && taskId in st.tasks && StandsAt(st, taskId, s, StepRunning)
    requires LinkedExecution(st, st.steps[s].executionId)
    requires st.tasks[taskId].status == TaskStatus.Working
    ensures var next := PerformResetStale(st, s);
            && WithinExecution(st, next, st.steps[s].executionId)
            && WellFormed(SimOf(next.executions[st.steps[s].executionId]))
  {
  }

  lemma ResetKeepsInvariant(st: Store, stepId: nat)
    requires Invariant(st)
    ensures Invariant(PerformResetStale(st, stepId))
  {
    if stepId in st.steps && st.steps[stepId].status == StepRunning {
      var e := st.steps[stepId].executionId;
      var taskId := st.executions[e].taskId;
      RunningStepStands(st, taskId, stepId);
      ResetIdles(st, taskId, stepId);
      ResetStaysWithin(st, taskId, stepId);
      WithinExecutionKeepsInvariant(st, PerformResetStale(st, stepId), e, taskId);
    }
  }

  /** A change of one task's row that leaves its executions and steps alone. */
  lemma TaskRowKeepsInvariant(st: Store, next: Store, taskId: string)
    requires Invariant(st) && OnlyTasksDiffer(st, next) && taskId in st.tasks
    requires forall t :: t in st.tasks && t != taskId ==> next.tasks[t] == st.tasks[t]
    requires SoundTask(next, taskId)
    ensures Invariant(next)
  {
    SameRowsLink(st, next);
    forall other | other in st.tasks && other != taskId ensures Untouched(st, next, other) {
      SameRowsUntouched(st, next, other);
    }
    OneTaskAtATime(st, next, taskId);
  }

  lemma SameRowsLink(st: Store, next: Store)
    requires LinkedRows(st) && OnlyTasksDiffer(st, next)
    ensures LinkedRows(next)
  {
    forall e | e in next.executions ensures LinkedExecution(next, e) {
      assert LinkedExecution(st, e);
    }
  }

  lemma SameRowsUntouched(st: Store, next: Store, other: string)
    requires OnlyTasksDiffer(st, next) && other in st.tasks && next.tasks[other] == st.tasks[other]
    ensures Untouched(st, next, other)
  {
  }

  lemma SameRowsIdle(st: Store, next: Store, taskId: string)
    requires OnlyTasksDiffer(st, next) && Idle(st, taskId)
    ensures Idle(next, taskId)
  {
  }

  lemma ReadiedKeepsInvariant(st: Store, next: Store, taskId: string)
    requires Invariant(st) && OnlyTasksDiffer(st, next) && taskId in st.tasks && Idle(st, taskId)
    requires forall t :: t in st.tasks && t != taskId ==> next.tasks[t] == st.tasks[t]
    requires next.tasks[taskId].status == TaskStatus.Ready
    ensures Invariant(next)
  {
    SameRowsIdle(st, next, taskId);
    TaskRowKeepsInvariant(st, next, taskId);
  }

  lemma MarkReadyShape(st: Store, taskId: string, retryFromStep: Option<string>)
    requires taskId in st.tasks && st.tasks[taskId].status in {TaskStatus.Draft, TaskStatus.Blocked}
    ensures var next := PerformMarkReady(st, taskId, retryFromStep);
            && OnlyTasksDiffer(st, next) && next.tasks[taskId].status == TaskStatus.Ready
            && forall t :: t in st.tasks && t != taskId ==> next.tasks[t] == st.tasks[t]
  {
  }

  lemma MarkReadyKeepsInvariant(st: Store, taskId: string, retryFromStep: Option<string>)
    requires Invariant(st)
    ensures Invariant(PerformMarkReady(st, taskId, retryFromStep))
  {
    if taskId in st.tasks && st.tasks[taskId].status in {TaskStatus.Draft, TaskStatus.Blocked} {
      assert SoundTask(st, taskId);
      MarkReadyShape(st, taskId, retryFromStep);
      ReadiedKeepsInvariant(st, PerformMarkReady(st, taskId, retryFromStep), taskId);
    }
  }

  lemma QueuedKeepsInvariant(st: Store, next: Store, taskId: string, s: nat)
    requires Invariant(st) && OnlyTasksDiffer(st, next) && taskId in st.tasks && StandsAt(st, taskId, s, AwaitingInput)
    requires forall t :: t in st.tasks && t != taskId ==> next.tasks[t] == st.tasks[t]
    requires next.tasks[taskId].status == TaskStatus.Resuming
    ensures Invariant(next)
  {
    SameRowsStand(st, next, taskId, s, AwaitingInput);
    TaskRowKeepsInvariant(st, next, taskId);
  }

  lemma RequestResumeKeepsInvariant(st: Store, taskId: string, resumeInput: string)
    requires Invariant(st)
    ensures Invariant(PerformRequestResume(st, taskId, resumeInput))
  {
    if taskId in st.tasks && st.tasks[taskId].status == TaskStatus.Paused && LatestStep(st, taskId).Some? {
      PausedMeansAwaiting(st, taskId);
      QueuedKeepsInvariant(st, PerformRequestResume(st, taskId, resumeInput), taskId, LatestStep(st, taskId).value);
    }
  }

  lemma ActionKeepsInvariant(st: Store, action: Action)
    requires Invariant(st) && Allowed(st, action)
    ensures Invariant(Perform(st, action))
  {
    match action
    case MarkReady(taskId, retryFromStep) => MarkReadyKeepsInvariant(st, taskId, retryFromStep);
    case ProcessReady(taskId) => ReadyKeepsInvariant(st, taskId);
    case ReportStep(taskId, input) => ReportKeepsInvariant(st, taskId, input);
    case RequestResume(taskId, resumeInput) => RequestResumeKeepsInvariant(st, taskId, resumeInput);
    case ProcessResuming(taskId) => ResumingKeepsInvariant(st, taskId);
    case ResetStale(stepId) => ResetKeepsInvariant(st, stepId);
  }

  /** Every run keeps the invariant. */
  lemma {:induction false} RunKeepsInvariant(st: Store, actions: seq<Action>)
    requires Invariant(st) && AllAllowed(st, actions)
    ensures Invariant(PerformAll(st, actions))
    decreases |actions|
  {
    if actions != [] {
      ActionKeepsInvariant(st, actions[0]);
      RunKeepsInvariant(Perform(st, actions[0]), actions[1..]);
    }
  }

  lemma FreshTablesAreSound(st: Store)
    requires Fresh(st)
    ensures Invariant(st)
  {
  }

  /**
   The service's own errors never occur. Along every run from fresh tables, reporting a running step
   succeeds, and a queued resume that has its input becomes WORKING.
   */
  lemma NoRunMeetsAnError(
    st: Store, actions: seq<Action>, taskId: string, input: CompleteStepInput)
    requires Fresh(st) && AllAllowed(st, actions)
    ensures var now := PerformAll(st, actions);
            && (BelongsTo(now, input.stepId, taskId) && now.steps[input.stepId].status == StepRunning
                && now.steps[input.stepId].executionId == input.executionId ==>
                  CompleteStep(now, taskId, input).1.Ok?)
            && (taskId in now.tasks && now.tasks[taskId].status == TaskStatus.Resuming
                && Truthy(now.tasks[taskId].resumeInput) ==>
                  taskId in PerformResuming(now, taskId).tasks
                  && PerformResuming(now, taskId).tasks[taskId].status == TaskStatus.Working)
  {
    FreshTablesAreSound(st);
    RunKeepsInvariant(st, actions);
    var now := PerformAll(st, actions);
    if BelongsTo(now, input.stepId, taskId) && now.steps[input.stepId].status == StepRunning
       && now.steps[input.stepId].executionId == input.executionId {
      CompletionSucceeds(now, taskId, input);
    }
    ResumingKeepsInvariant(now, taskId);
  }
}
