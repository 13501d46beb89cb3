/**
 Reports that arrive after a stale step was cancelled with its execution. The service does not count
 a cancelled step as finalized, so it processes them: exactly when that keeps the execution invariant.
 */
module LateReports {
  import opened Collections
  import opened WorkflowEngine
  import opened WorkflowRuns
  import opened TaskModel
  import opened WorkflowStore
  import opened ExecutionInvariant

  /** A report of a step that was cancelled together with its execution. */
  ghost predicate IsLate(st: Store, taskId: string, input: CompleteStepInput) {
    && BelongsTo(st, input.stepId, taskId)
    && st.steps[input.stepId].status == StepCancelled
    && st.steps[input.stepId].executionId == input.executionId
    && st.executions[input.executionId].status == Cancelled
  }

  predicate IsOpen(status: TaskStatus) {
    status in {TaskStatus.Working, TaskStatus.Paused, TaskStatus.Resuming}
  }

  /** The execution is the task's latest, or the latest one is closed that way already. */
  predicate LatestWillBe(st: Store, taskId: string, e: nat, status: ExecutionStatus) {
    var latest := LatestExecution(st, taskId);
    && latest.Some?
    && (latest.value == e
        || (latest.value in st.executions && st.executions[latest.value].status == status))
  }

  lemma LateLinks(st: Store, taskId: string, input: CompleteStepInput)
    requires Invariant(st) && IsLate(st, taskId, input)
    ensures LinkedExecution(st, input.executionId) && taskId in st.tasks
    ensures st.executions[input.executionId].taskId == taskId && input.stepId < st.nextStep
  {
    assert LinkedExecution(st, input.executionId);
  }

  lemma LateCompletion(st: Store, taskId: string, input: CompleteStepInput)
    requires IsLate(st, taskId, input)
    ensures var transition := EvaluateReport(st, input);
            CompleteStep(st, taskId, input).0
            == if transition.Err? then st else Reported(st, taskId, input, transition.value)
  {
  }

  /** A move runs a step in the cancelled execution: WORKING without an active execution. */
  lemma LateMoveBreaks(st: Store, taskId: string, input: CompleteStepInput, transition: TransitionResult)
    requires IsLate(st, taskId, input) && taskId in st.tasks && transition.Goto?
    ensures var next := Reported(st, taskId, input, transition);
            taskId in next.tasks && !SoundTask(next, taskId)
  {
    var next := Reported(st, taskId, input, transition);
    assert BelongsTo(next, st.nextStep, taskId) && next.steps[st.nextStep].status == StepRunning;
    assert next.executions[input.executionId].status == Cancelled;
  }

  lemma LatePauseExactly(st: Store, taskId: string, input: CompleteStepInput)
    requires LinkedRows(st) && IsLate(st, taskId, input) && taskId in st.tasks && SoundTask(st, taskId)
    ensures var next := Reported(st, taskId, input, TransitionResult.Paused);
            && taskId in next.tasks
            && (SoundTask(next, taskId) <==> st.tasks[taskId].status in {TaskStatus.Paused, TaskStatus.Resuming})
  {
    var next := Reported(st, taskId, input, TransitionResult.Paused);
    forall s: nat ensures StandsAt(st, taskId, s, AwaitingInput) <==> StandsAt(next, taskId, s, AwaitingInput) {
      LatePauseKeepsStanding(st, taskId, input, s);
    }
  }

  lemma LatePauseKeepsStanding(st: Store, taskId: string, input: CompleteStepInput, s: nat)
    requires LinkedRows(st) && IsLate(st, taskId, input) && taskId in st.tasks
    ensures var next := Reported(st, taskId, input, TransitionResult.Paused);
            StandsAt(st, taskId, s, AwaitingInput) <==> StandsAt(next, taskId, s, AwaitingInput)
  {
    var next := Reported(st, taskId, input, TransitionResult.Paused);
    assert forall x: nat :: BelongsTo(st, x, taskId) <==> BelongsTo(next, x, taskId);
    assert forall e: nat :: OwnedBy(st, e, taskId) <==> OwnedBy(next, e, taskId);
  }

  /** Execution `e` is closed, with its step `s`, and the task's status follows. */
  ghost predicate Ended(st: Store, next: Store, taskId: string, e: nat, s: nat, status: ExecutionStatus) {
    && e in st.executions && s in st.steps && (status == Completed || status == Failed)
    && next.executions == st.executions[e := st.executions[e].(status := status)]
    && next.steps.Keys == st.steps.Keys
    && (forall x :: x in st.steps && x != s ==> next.steps[x] == st.steps[x])
    && next.steps[s].executionId == st.steps[s].executionId && next.steps[s].status != StepRunning
    && taskId in next.tasks
    && next.tasks[taskId].status == if status == Completed then TaskStatus.Done else TaskStatus.Blocked
  }

  lemma LateReportEnds(st: Store, taskId: string, input: CompleteStepInput, transition: TransitionResult)
    requires IsLate(st, taskId, input) && taskId in st.tasks && (transition.Done? || transition.Blocked?)
    ensures Ended(st, Reported(st, taskId, input, transition), taskId, input.executionId, input.stepId,
                  if transition.Done? then Completed else Failed)
  {
  }

  lemma EndedIdles(st: Store, next: Store, taskId: string, e: nat, s: nat, status: ExecutionStatus)
    requires Ended(st, next, taskId, e, s, status)
    requires st.executions[e].status != Active && st.steps[s].status != StepRunning
    ensures Idle(next, taskId) <==> Idle(st, taskId)
  {
    assert forall x: nat :: BelongsTo(st, x, taskId) <==> BelongsTo(next, x, taskId);
    assert forall x: nat :: OwnedBy(st, x, taskId) <==> OwnedBy(next, x, taskId);
  }

  lemma IdleExactly(st: Store, taskId: string)
    requires taskId in st.tasks && SoundTask(st, taskId)
    ensures Idle(st, taskId) <==> !IsOpen(st.tasks[taskId].status)
  {
  }

  lemma LatestIsLargest(st: Store, taskId: string, e: nat)
    requires LinkedRows(st) && OwnedBy(st, e, taskId)
    ensures LatestExecution(st, taskId).Some? && OwnedBy(st, LatestExecution(st, taskId).value, taskId)
    ensures forall other: nat :: OwnedBy(st, other, taskId) ==> other <= LatestExecution(st, taskId).value
  {
    assert LinkedExecution(st, e);
    var latest := LatestExecution(st, taskId).value;
    forall other: nat | OwnedBy(st, other, taskId) ensures other <= latest {
      assert LinkedExecution(st, other);
    }
  }

  lemma EndedIsLatest(st: Store, next: Store, taskId: string, e: nat, status: ExecutionStatus)
    requires LinkedRows(st) && OwnedBy(st, e, taskId)
    requires next.executions == st.executions[e := st.executions[e].(status := status)]
    ensures LatestClosedAs(next, taskId, status) <==> LatestWillBe(st, taskId, e, status)
  {
    LatestIsLargest(st, taskId, e);
    var latest := LatestExecution(st, taskId).value;
    assert OwnedBy(next, latest, taskId);
    forall x: nat | OwnedBy(next, x, taskId) ensures x <= latest {
      assert OwnedBy(st, x, taskId);
    }
  }

  lemma EndSoundExactly(next: Store, taskId: string, status: ExecutionStatus)
    requires taskId in next.tasks && (status == Completed || status == Failed)
    requires next.tasks[taskId].status == if status == Completed then TaskStatus.Done else TaskStatus.Blocked
    ensures SoundTask(next, taskId) <==> Idle(next, taskId) && LatestClosedAs(next, taskId, status)
  {
  }

  lemma EndedExactly(st: Store, next: Store, taskId: string, e: nat, s: nat, status: ExecutionStatus)
    requires LinkedRows(st) && taskId in st.tasks && SoundTask(st, taskId) && OwnedBy(st, e, taskId)
    requires Ended(st, next, taskId, e, s, status)
    requires st.executions[e].status != Active && st.steps[s].status != StepRunning
    ensures SoundTask(next, taskId) <==> !IsOpen(st.tasks[taskId].status) && LatestWillBe(st, taskId, e, status)
  {
    EndSoundExactly(next, taskId, status);
    EndedIdles(st, next, taskId, e, s, status);
    IdleExactly(st, taskId);
    EndedIsLatest(st, next, taskId, e, status);
  }

  lemma LateEndExactly(st: Store, taskId: string, input: CompleteStepInput, transition: TransitionResult)
    requires LinkedRows(st) && IsLate(st, taskId, input) && taskId in st.tasks && SoundTask(st, taskId)
    requires transition.Done? || transition.Blocked?
    ensures var next := Reported(st, taskId, input, transition);
            && taskId in next.tasks
            && (SoundTask(next, taskId)
                <==> !IsOpen(st.tasks[taskId].status)
                     && LatestWillBe(st, taskId, input.executionId, if transition.Done? then Completed else Failed))
  {
    LateReportEnds(st, taskId, input, transition);
    EndedExactly(st, Reported(st, taskId, input, transition), taskId, input.executionId, input.stepId,
                 if transition.Done? then Completed else Failed);
  }

  /** The report is refused, or changes nothing that its task's status does not say already. */
  predicate IsHarmless(st: Store, taskId: string, input: CompleteStepInput)
    requires taskId in st.tasks
  {
    match EvaluateReport(st, input)
    case Err(_) => true
    case Ok(Goto(_, _, _)) => false
    case Ok(Paused) => st.tasks[taskId].status in {TaskStatus.Paused, TaskStatus.Resuming}
    case Ok(Done) => !IsOpen(st.tasks[taskId].status) && LatestWillBe(st, taskId, input.executionId, Completed)
    case Ok(Blocked) => !IsOpen(st.tasks[taskId].status) && LatestWillBe(st, taskId, input.executionId, Failed)
  }

  /**
   A late report keeps the invariant exactly if the engine refuses it, or it pauses a task that is
   paused anyway, or it ends the run of a task that is not open again and whose latest execution then
   is closed that way. A move never does.
   */
  lemma LateReportExactly(st: Store, taskId: string, input: CompleteStepInput)
    requires Invariant(st) && IsLate(st, taskId, input)
    ensures taskId in st.tasks
    ensures Invariant(CompleteStep(st, taskId, input).0) <==> IsHarmless(st, taskId, input)
  {
    LateLinks(st, taskId, input);
    LateCompletion(st, taskId, input);
    var transition := EvaluateReport(st, input);
    if transition.Ok? {
      var next := Reported(st, taskId, input, transition.value);
      LateSoundExactly(st, taskId, input, transition.value);
      if !transition.value.Goto? && SoundTask(next, taskId) {
        ReportStaysWithin(st, taskId, input, transition.value);
        ReportKeepsForm(st, taskId, input, transition.value);
        WithinExecutionKeepsInvariant(st, next, input.executionId, taskId);
      }
    }
  }

  lemma LateSoundExactly(st: Store, taskId: string, input: CompleteStepInput, transition: TransitionResult)
    requires LinkedRows(st) && IsLate(st, taskId, input) && taskId in st.tasks && SoundTask(st, taskId)
    ensures var next := Reported(st, taskId, input, transition);
            && taskId in next.tasks
            && (SoundTask(next, taskId)
                <==> match transition
                     case Goto(_, _, _) => false
                     case Paused => st.tasks[taskId].status in {TaskStatus.Paused, TaskStatus.Resuming}
                     case Done =>
                       !IsOpen(st.tasks[taskId].status) && LatestWillBe(st, taskId, input.executionId, Completed)
                     case Blocked =>
                       !IsOpen(st.tasks[taskId].status) && LatestWillBe(st, taskId, input.executionId, Failed))
  {
    match transition
    case Goto(_, _, _) => LateMoveBreaks(st, taskId, input, transition);
    case Paused => LatePauseExactly(st, taskId, input);
    case Done => LateEndExactly(st, taskId, input, transition);
    case Blocked => LateEndExactly(st, taskId, input, transition);
  }

  /** What `Allowed` admits, and harmless late reports. */
  ghost predicate AllowedOrHarmless(st: Store, action: Action) {
    || Allowed(st, action)
    || (action.ReportStep? && IsLate(st, action.taskId, action.input)
        && action.taskId in st.tasks && IsHarmless(st, action.taskId, action.input))
  }

  ghost predicate AllAllowedOrHarmless(st: Store, actions: seq<Action>)
    decreases |actions|
  {
    actions == [] || (AllowedOrHarmless(st, actions[0]) && AllAllowedOrHarmless(Perform(st, actions[0]), actions[1..]))
  }

  lemma LateActionKeepsInvariant(st: Store, action: Action)
    requires Invariant(st) && AllowedOrHarmless(st, action)
    ensures Invariant(Perform(st, action))
  {
    if Allowed(st, action) {
      ActionKeepsInvariant(st, action);
    } else {
      LateReportExactly(st, action.taskId, action.input);
    }
  }

  /** Runs with harmless late reports keep the invariant. */
  lemma {:induction false} LateRunKeepsInvariant(st: Store, actions: seq<Action>)
    requires Invariant(st) && AllAllowedOrHarmless(st, actions)
    ensures Invariant(PerformAll(st, actions))
    decreases |actions|
  {
    if actions != [] {
      LateActionKeepsInvariant(st, actions[0]);
      LateRunKeepsInvariant(Perform(st, actions[0]), actions[1..]);
    }
  }
}
