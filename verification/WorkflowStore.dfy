/**
 The tables behind the workflow service, as values: what `startTask`, `completeStep` and
 `resumeTask` do to them, what the queue and crash recovery do around those calls, and what
 every run of them keeps.
 */
module WorkflowStore {
  import opened Collections
  import opened WorkflowEngine
  import opened WorkflowRuns
  import opened TaskModel

  datatype ExecutionStatus = Active | Completed | Failed | Cancelled

  datatype StepStatus = StepRunning | StepSucceeded | StepFailed | AwaitingInput | StepCancelled

  datatype Execution = Execution(
    taskId: string,
    workflowId: string,
    status: ExecutionStatus,
    visitedSteps: seq<string>,
    iteration: nat)

  datatype StepExecution = StepExecution(
    executionId: nat,
    stepId: string,
    status: StepStatus,
    signal: Option<string>,
    pauseContext: Option<string>,
    iteration: nat)

  datatype TaskRow = TaskRow(
    status: TaskStatus,
    preferredWorkflow: Option<string>,
    retryFromStep: Option<string>,
    resumeInput: Option<string>)

  /** Generated ids are counters, so a later row always has a larger id. */
  datatype Store = Store(
    workflows: map<string, WorkflowDefinition>,
    defaultWorkflow: string,
    executions: map<nat, Execution>,
    steps: map<nat, StepExecution>,
    tasks: map<string, TaskRow>,
    nextExecution: nat,
    nextStep: nat)

  datatype CompleteStepInput = CompleteStepInput(
    executionId: nat,
    stepId: nat,
    result: StepResult,
    pauseContext: Option<string>)

  /** The reported task status, and the step execution to run next, if any. */
  datatype Response = Response(taskStatus: TaskStatus, step: Option<nat>)

  datatype ServiceError =
    | WorkflowNotFound(name: string)
    | RetryStepNotFound(stepId: string)
    | StepExecutionNotFound(id: nat)
    | StepNotAwaitingInput(id: nat)
    | ExecutionNotFound(id: nat)
    | NoCurrentStep(id: nat)
    | CurrentStepNotFound(stepId: string)
    | EngineFailure(error: EngineError)

  // ---------------------------------------------------------------------------
  // Rows
  // ---------------------------------------------------------------------------

  predicate Truthy(s: Option<string>) {
    s.Some? && s.value != ""
  }

  function SetTaskStatus(st: Store, taskId: string, status: TaskStatus): Store {
    if taskId in st.tasks then st.(tasks := st.tasks[taskId := st.tasks[taskId].(status := status)]) else st
  }

  function SetExecution(st: Store, id: nat, execution: Execution): Store {
    st.(executions := st.executions[id := execution])
  }

  function SetStep(st: Store, id: nat, step: StepExecution): Store {
    st.(steps := st.steps[id := step])
  }

  /** The new row is `st.nextStep`. */
  function CreateRunningStep(st: Store, executionId: nat, step: WorkflowStep, iteration: nat): Store {
    SetStep(st, st.nextStep, StepExecution(executionId, step.id, StepRunning, None, None, iteration))
      .(nextStep := st.nextStep + 1)
  }

  function LatestExecutionBelow(st: Store, taskId: string, bound: nat): (r: Option<nat>)
    ensures r.Some? ==> r.value < bound && IsLatestExecutionBelow(st, taskId, r.value, bound)
    ensures r.None? ==> forall e :: e in st.executions && e < bound ==> st.executions[e].taskId != taskId
  {
    if bound == 0 then None
    else if bound - 1 in st.executions && st.executions[bound - 1].taskId == taskId then Some(bound - 1)
    else LatestExecutionBelow(st, taskId, bound - 1)
  }

  ghost predicate IsLatestExecutionBelow(st: Store, taskId: string, id: nat, bound: nat) {
    && id in st.executions && st.executions[id].taskId == taskId
    && forall e :: e in st.executions && st.executions[e].taskId == taskId && e < bound ==> e <= id
  }

  function LatestExecution(st: Store, taskId: string): Option<nat> {
    LatestExecutionBelow(st, taskId, st.nextExecution)
  }

  predicate BelongsTo(st: Store, stepId: nat, taskId: string) {
    && stepId in st.steps
    && st.steps[stepId].executionId in st.executions
    && st.executions[st.steps[stepId].executionId].taskId == taskId
  }

  function LatestStepBelow(st: Store, taskId: string, bound: nat): (r: Option<nat>)
    ensures r.Some? ==> r.value < bound && BelongsTo(st, r.value, taskId)
                        && forall s: nat :: s < bound && BelongsTo(st, s, taskId) ==> s <= r.value
    ensures r.None? ==> forall s: nat :: s < bound ==> !BelongsTo(st, s, taskId)
  {
    if bound == 0 then None
    else if BelongsTo(st, bound - 1, taskId) then Some(bound - 1)
    else LatestStepBelow(st, taskId, bound - 1)
  }

  function LatestStep(st: Store, taskId: string): Option<nat> {
    LatestStepBelow(st, taskId, st.nextStep)
  }

  // ---------------------------------------------------------------------------
  // The service calls
  // ---------------------------------------------------------------------------

  datatype StartPoint = StartPoint(step: WorkflowStep, visitedSteps: seq<string>, iteration: nat)

  function ResolveRetryStep(st: Store, taskId: string, def: WorkflowDefinition, retryFromStep: string)
    : Result<StartPoint, ServiceError>
  {
    if retryFromStep !in def.steps then Err(RetryStepNotFound(retryFromStep))
    else
      var step := def.steps[retryFromStep];
      match LatestExecution(st, taskId)
      case None => Ok(StartPoint(step, [retryFromStep], 0))
      case Some(e) =>
        var previous := st.executions[e].visitedSteps;
        var visited := match IndexOf(previous, retryFromStep)
          case Some(i) => previous[..i + 1]
          case None => previous + [retryFromStep];
        Ok(StartPoint(step, visited, st.executions[e].iteration))
  }

  function ResolveStart(st: Store, taskId: string, def: WorkflowDefinition, task: TaskRow)
    : Result<StartPoint, ServiceError>
  {
    if Truthy(task.retryFromStep) then ResolveRetryStep(st, taskId, def, task.retryFromStep.value)
    else
      match GetInitialStep(def)
      case Err(e) => Err(EngineFailure(e))
      case Ok(step) => Ok(StartPoint(step, [step.id], 0))
  }

  function WorkflowNameFor(st: Store, task: TaskRow): string {
    task.preferredWorkflow.GetOr(st.defaultWorkflow)
  }

  function StartTask(st: Store, taskId: string, task: TaskRow): (Store, Result<Response, ServiceError>) {
    var name := WorkflowNameFor(st, task);
    if name !in st.workflows then (st, Err(WorkflowNotFound(name)))
    else
      var def := st.workflows[name];
      match ResolveStart(st, taskId, def, task)
      case Err(e) => (st, Err(e))
      case Ok(start) => (Launch(st, taskId, def.name, start), Ok(Response(TaskStatus.Working, Some(st.nextStep))))
  }

  /** The new execution is `st.nextExecution`, its first step `st.nextStep`. */
  function Launch(st: Store, taskId: string, workflowId: string, start: StartPoint): Store {
    var created := SetExecution(
        st, st.nextExecution, Execution(taskId, workflowId, Active, start.visitedSteps, start.iteration))
      .(nextExecution := st.nextExecution + 1);
    CreateRunningStep(created, st.nextExecution, start.step, start.iteration)
  }

  predicate IsFinalized(status: StepStatus) {
    status == StepSucceeded || status == StepFailed || status == AwaitingInput
  }

  datatype ExecutionContext = ExecutionContext(execution: Execution, def: WorkflowDefinition, currentStepId: string)

  function LoadExecutionContext(st: Store, executionId: nat): Result<ExecutionContext, ServiceError> {
    if executionId !in st.executions then Err(ExecutionNotFound(executionId))
    else
      var execution := st.executions[executionId];
      if execution.workflowId !in st.workflows then Err(WorkflowNotFound(execution.workflowId))
      else if execution.visitedSteps == [] || Last(execution.visitedSteps) == "" then Err(NoCurrentStep(executionId))
      else Ok(ExecutionContext(execution, st.workflows[execution.workflowId], Last(execution.visitedSteps)))
  }

  function ExistingTaskStatus(st: Store, taskId: string): Response {
    Response(if taskId in st.tasks then st.tasks[taskId].status else TaskStatus.Working, None)
  }

  function StatusOf(outcome: StepOutcome): StepStatus {
    match outcome
    case Success => StepSucceeded
    case Failure => StepFailed
  }

  function FinalizeStep(st: Store, input: CompleteStepInput, transition: TransitionResult): Store
    requires input.stepId in st.steps
  {
    var paused := transition.Paused?;
    SetStep(st, input.stepId, st.steps[input.stepId].(
      status := if paused then AwaitingInput else StatusOf(input.result.status),
      signal := input.result.signal,
      pauseContext := if paused then input.pauseContext else None))
  }

  function ContinueWorkflow(st: Store, taskId: string, executionId: nat, transition: TransitionResult): Store
    requires transition.Goto? && executionId in st.executions
  {
    var execution := st.executions[executionId];
    var next := Advance(SimOf(execution), transition);
    var moved := SetExecution(
      st, executionId, execution.(visitedSteps := next.visitedSteps, iteration := next.iteration));
    SetTaskStatus(
      CreateRunningStep(moved, executionId, transition.step, next.iteration), taskId, TaskStatus.Working)
  }

  function ApplyTransition(st: Store, taskId: string, executionId: nat, transition: TransitionResult)
    : (Store, Response)
    requires executionId in st.executions
  {
    var execution := st.executions[executionId];
    match transition
    case Done =>
      (SetTaskStatus(SetExecution(st, executionId, execution.(status := Completed)), taskId, TaskStatus.Done),
       Response(TaskStatus.Done, None))
    case Paused =>
      (SetTaskStatus(st, taskId, TaskStatus.Paused), Response(TaskStatus.Paused, None))
    case Blocked =>
      (SetTaskStatus(SetExecution(st, executionId, execution.(status := Failed)), taskId, TaskStatus.Blocked),
       Response(TaskStatus.Blocked, None))
    case Goto(_, _, _) =>
      (ContinueWorkflow(st, taskId, executionId, transition), Response(TaskStatus.Working, Some(st.nextStep)))
  }

  /** `prepareStepCompletion` up to its transition. */
  function EvaluateReport(st: Store, input: CompleteStepInput): (r: Result<TransitionResult, ServiceError>)
    ensures r.Ok? ==> input.executionId in st.executions
  {
    match LoadExecutionContext(st, input.executionId)
    case Err(e) => Err(e)
    case Ok(ctx) =>
      match EvaluateTransition(ctx.def, ctx.currentStepId, input.result,
                               IterationContext(ctx.execution.iteration, ctx.execution.visitedSteps))
      case Err(e) => Err(EngineFailure(e))
      case Ok(transition) => Ok(transition)
  }

  function CompleteStep(st: Store, taskId: string, input: CompleteStepInput)
    : (Store, Result<Response, ServiceError>)
  {
    if input.stepId !in st.steps then (st, Err(StepExecutionNotFound(input.stepId)))
    else if IsFinalized(st.steps[input.stepId].status) then (st, Ok(ExistingTaskStatus(st, taskId)))
    else
      match EvaluateReport(st, input)
      case Err(e) => (st, Err(e))
      case Ok(transition) =>
        var (applied, response) :=
          ApplyTransition(FinalizeStep(st, input, transition), taskId, input.executionId, transition);
        (applied, Ok(response))
  }

  function ResumeTask(st: Store, taskId: string, stepId: nat): (Store, Result<Response, ServiceError>) {
    if stepId !in st.steps then (st, Err(StepExecutionNotFound(stepId)))
    else if st.steps[stepId].status != AwaitingInput then (st, Err(StepNotAwaitingInput(stepId)))
    else
      var executionId := st.steps[stepId].executionId;
      match LoadExecutionContext(st, executionId)
      case Err(e) => (st, Err(e))
      case Ok(ctx) =>
        if ctx.currentStepId !in ctx.def.steps then (st, Err(CurrentStepNotFound(ctx.currentStepId)))
        else
          var resumed := CreateRunningStep(st, executionId, ctx.def.steps[ctx.currentStepId], ctx.execution.iteration);
          (MarkResumed(resumed, taskId),
           Ok(Response(TaskStatus.Working, Some(st.nextStep))))
  }

  function MarkResumed(st: Store, taskId: string): Store {
    if taskId in st.tasks
    then st.(tasks := st.tasks[taskId := st.tasks[taskId].(status := TaskStatus.Working, resumeInput := None)])
    else st
  }

  // ---------------------------------------------------------------------------
  // The service refines the pure machine
  // ---------------------------------------------------------------------------

  /** The machine state that an execution row stores. */
  function SimOf(execution: Execution): SimState {
    SimState(
      if execution.visitedSteps == [] then "" else Last(execution.visitedSteps),
      execution.iteration,
      execution.visitedSteps)
  }

  /** The step runs in an execution that can be loaded. */
  ghost predicate Drivable(st: Store, executionId: nat, stepId: nat) {
    && stepId in st.steps && stepId < st.nextStep && !IsFinalized(st.steps[stepId].status)
    && executionId in st.executions
    && st.executions[executionId].workflowId in st.workflows
    && "" !in st.workflows[st.executions[executionId].workflowId].steps
    && WellFormed(SimOf(st.executions[executionId]))
    && SimOf(st.executions[executionId]).currentStepId != ""
  }

  function DefinitionOf(st: Store, executionId: nat): WorkflowDefinition
    requires executionId in st.executions && st.executions[executionId].workflowId in st.workflows
  {
    st.workflows[st.executions[executionId].workflowId]
  }

  /** `Refused` is an error of the service that the pure machine does not have. */
  datatype DriveStatus = Ran(status: RunStatus) | Refused(error: ServiceError)

  datatype Driven = Driven(store: Store, stepId: nat, moves: nat, status: DriveStatus)

  function StoppedBy(taskStatus: TaskStatus): RunStatus {
    match taskStatus
    case Done => Stopped(TransitionResult.Done)
    case Paused => Stopped(TransitionResult.Paused)
    case _ => Stopped(TransitionResult.Blocked)
  }

  /** Reports the results one by one, always to the step that the last answer named. */
  function Drive(st: Store, taskId: string, executionId: nat, stepId: nat, results: seq<StepResult>): Driven
    decreases |results|
  {
    if results == [] then Driven(st, stepId, 0, Ran(Running))
    else
      var (next, answer) := CompleteStep(st, taskId, CompleteStepInput(executionId, stepId, results[0], None));
      match answer
      case Err(error) =>
        Driven(next, stepId, 0, if error.EngineFailure? then Ran(Raised(error.error)) else Refused(error))
      case Ok(response) =>
        if response.step.None? then Driven(next, stepId, 0, Ran(StoppedBy(response.taskStatus)))
        else
          var rest := Drive(next, taskId, executionId, response.step.value, results[1..]);
          rest.(moves := rest.moves + 1)
  }

  /** The report is evaluated as the pure machine evaluates it. */
  lemma ReportRefinesEvaluation(st: Store, input: CompleteStepInput)
    requires Drivable(st, input.executionId, input.stepId)
    ensures var e := input.executionId;
            var before := SimOf(st.executions[e]);
            var report := EvaluateReport(st, input);
            match EvaluateStep(DefinitionOf(st, e), before, input.result)
            case Err(error) => report == Err(EngineFailure(error))
            case Ok(evaluated) =>
              && report == Ok(evaluated.entry.result)
              && evaluated.nextState
                 == (if evaluated.entry.result.Goto? then Some(Advance(before, evaluated.entry.result)) else None)
  {
  }

  /** A move stores the machine's next state and answers with a step that can be driven on. */
  lemma MoveRefines(st: Store, taskId: string, input: CompleteStepInput, transition: TransitionResult)
    requires Drivable(st, input.executionId, input.stepId) && transition.Goto?
    requires WellFormed(Advance(SimOf(st.executions[input.executionId]), transition)) && transition.stepId != ""
    ensures var e := input.executionId;
            var (next, response) := ApplyTransition(FinalizeStep(st, input, transition), taskId, e, transition);
            && response == Response(TaskStatus.Working, Some(st.nextStep)) && e in next.executions
            && SimOf(next.executions[e]) == Advance(SimOf(st.executions[e]), transition)
            && Drivable(next, e, st.nextStep) && DefinitionOf(next, e) == DefinitionOf(st, e)
  {
  }

  lemma StopRefines(st: Store, taskId: string, input: CompleteStepInput, transition: TransitionResult)
    requires Drivable(st, input.executionId, input.stepId) && !transition.Goto?
    ensures var e := input.executionId;
            var (next, response) := ApplyTransition(FinalizeStep(st, input, transition), taskId, e, transition);
            && response.step.None? && StoppedBy(response.taskStatus) == Stopped(transition)
            && e in next.executions && SimOf(next.executions[e]) == SimOf(st.executions[e])
  {
  }

  /** One completion stores exactly what one evaluation of the pure machine computes. */
  lemma CompletionRefinesEvaluation(st: Store, taskId: string, input: CompleteStepInput)
    requires Drivable(st, input.executionId, input.stepId)
    ensures var e := input.executionId;
            var def := DefinitionOf(st, e);
            var before := SimOf(st.executions[e]);
            var (next, answer) := CompleteStep(st, taskId, input);
            match EvaluateStep(def, before, input.result)
            case Err(error) => next == st && answer == Err(EngineFailure(error))
            case Ok(evaluated) =>
              && answer.Ok? && e in next.executions
              && if evaluated.nextState.None?
                 then answer.value.step.None? && StoppedBy(answer.value.taskStatus) == Stopped(evaluated.entry.result)
                      && SimOf(next.executions[e]) == before
                 else answer.value == Response(TaskStatus.Working, Some(st.nextStep))
                      && SimOf(next.executions[e]) == evaluated.nextState.value
                      && Drivable(next, e, st.nextStep) && DefinitionOf(next, e) == def
  {
    var def := DefinitionOf(st, input.executionId);
    var before := SimOf(st.executions[input.executionId]);
    var evaluated := EvaluateStep(def, before, input.result);
    ReportRefinesEvaluation(st, input);
    if evaluated.Ok? {
      var transition := evaluated.value.entry.result;
      if transition.Goto? {
        var _ := MoveShape(def, before, input.result, evaluated.value.nextState.value);
        MoveRefines(st, taskId, input, transition);
      } else {
        StopRefines(st, taskId, input, transition);
      }
    }
  }

  /** Every sequence of results leaves the stored execution where the pure simulation ends. */
  lemma {:induction false} ServiceRefinesSimulation(
    st: Store, taskId: string, executionId: nat, stepId: nat, results: seq<StepResult>)
    requires Drivable(st, executionId, stepId)
    ensures var run := Run(DefinitionOf(st, executionId), SimOf(st.executions[executionId]), results);
            var driven := Drive(st, taskId, executionId, stepId, results);
            && executionId in driven.store.executions
            && SimOf(driven.store.executions[executionId]) == run.state
            && driven.moves == run.moves
            && driven.status == Ran(run.status)
    decreases |results|
  {
    if results != [] {
      var input := CompleteStepInput(executionId, stepId, results[0], None);
      CompletionRefinesEvaluation(st, taskId, input);
      var (next, answer) := CompleteStep(st, taskId, input);
      if answer.Ok? && answer.value.step.Some? {
        ServiceRefinesSimulation(next, taskId, executionId, st.nextStep, results[1..]);
      }
    }
  }

  /** A fresh start stores the state in which the simulation starts. */
  lemma FreshStartMatchesSimulation(st: Store, taskId: string, task: TaskRow)
    requires WorkflowNameFor(st, task) in st.workflows && !Truthy(task.retryFromStep)
    requires var def := st.workflows[WorkflowNameFor(st, task)];
             && def.initialStep in def.steps && def.name in st.workflows && st.workflows[def.name] == def
             && "" !in def.steps && def.steps[def.initialStep].id != ""
    ensures var def := st.workflows[WorkflowNameFor(st, task)];
            var (next, answer) := StartTask(st, taskId, task);
            && answer == Ok(Response(TaskStatus.Working, Some(st.nextStep)))
            && Drivable(next, st.nextExecution, st.nextStep)
            && DefinitionOf(next, st.nextExecution) == def
            && SimOf(next.executions[st.nextExecution]) == StartAt(def.steps[def.initialStep].id)
  {
  }

  // ---------------------------------------------------------------------------
  // Everything that writes these tables
  // ---------------------------------------------------------------------------

  datatype Action =
    | MarkReady(taskId: string, retryFromStep: Option<string>)
    | ProcessReady(taskId: string)
    | ReportStep(taskId: string, input: CompleteStepInput)
    | RequestResume(taskId: string, resumeInput: string)
    | ProcessResuming(taskId: string)
    | ResetStale(stepId: nat)

  /** `markTaskReady`: only a draft or a blocked task. */
  function PerformMarkReady(st: Store, taskId: string, retryFromStep: Option<string>): Store {
    if taskId in st.tasks
       && (st.tasks[taskId].status == TaskStatus.Draft || st.tasks[taskId].status == TaskStatus.Blocked)
    then st.(tasks := st.tasks[taskId := st.tasks[taskId].(
               status := TaskStatus.Ready, preferredWorkflow := None, retryFromStep := retryFromStep)])
    else st
  }

  /** The queue claims a READY task, starts it, and gives it back when the start fails. */
  function PerformReady(st: Store, taskId: string): Store {
    if taskId !in st.tasks || st.tasks[taskId].status != TaskStatus.Ready then st
    else
      var task := st.tasks[taskId];
      var (started, answer) := StartTask(SetTaskStatus(st, taskId, TaskStatus.Working), taskId, task);
      match answer
      case Err(_) => SetTaskStatus(started, taskId, TaskStatus.Ready)
      case Ok(_) =>
        if Truthy(task.retryFromStep) && taskId in started.tasks
        then started.(tasks := started.tasks[taskId := started.tasks[taskId].(retryFromStep := None)])
        else started
  }

  /** The user's resume request: only a paused task that has run a step. */
  function PerformRequestResume(st: Store, taskId: string, resumeInput: string): Store {
    if taskId in st.tasks && st.tasks[taskId].status == TaskStatus.Paused && LatestStep(st, taskId).Some?
    then st.(tasks := st.tasks[taskId := st.tasks[taskId].(
               status := TaskStatus.Resuming, resumeInput := Some(resumeInput))])
    else st
  }

  /** The queue claims a RESUMING task and resumes its latest step. */
  function PerformResuming(st: Store, taskId: string): Store {
    if taskId !in st.tasks || st.tasks[taskId].status != TaskStatus.Resuming then st
    else
      var latest := LatestStep(st, taskId);
      if !Truthy(st.tasks[taskId].resumeInput) || latest.None? then st
      else
        var (resumed, answer) := ResumeTask(SetTaskStatus(st, taskId, TaskStatus.Working), taskId, latest.value);
        if answer.Err? then SetTaskStatus(resumed, taskId, TaskStatus.Resuming) else resumed
  }

  /** Recovery of a running step whose agent died without a log. */
  function PerformResetStale(st: Store, stepId: nat): Store {
    if stepId !in st.steps || st.steps[stepId].status != StepRunning then st
    else
      var executionId := st.steps[stepId].executionId;
      var cancelled := SetStep(st, stepId, st.steps[stepId].(status := StepCancelled));
      if executionId !in st.executions then cancelled
      else
        var execution := st.executions[executionId];
        var taskId := execution.taskId;
        var closed := SetExecution(cancelled, executionId, execution.(status := Cancelled));
        if taskId in st.tasks && st.tasks[taskId].status in {TaskStatus.Blocked, TaskStatus.Removed, TaskStatus.Done}
        then closed
        else SetTaskStatus(closed, taskId, TaskStatus.Ready)
  }

  function Perform(st: Store, action: Action): Store {
    match action
    case MarkReady(taskId, retryFromStep) => PerformMarkReady(st, taskId, retryFromStep)
    case ProcessReady(taskId) => PerformReady(st, taskId)
    case ReportStep(taskId, input) => CompleteStep(st, taskId, input).0
    case RequestResume(taskId, resumeInput) => PerformRequestResume(st, taskId, resumeInput)
    case ProcessResuming(taskId) => PerformResuming(st, taskId)
    case ResetStale(stepId) => PerformResetStale(st, stepId)
  }

  function PerformAll(st: Store, actions: seq<Action>): Store
    decreases |actions|
  {
    if actions == [] then st else PerformAll(Perform(st, actions[0]), actions[1..])
  }

  /** Marking READY: only a draft or blocked task, which forgets its workflow and takes the step to retry from. */
  lemma MarkReadyExactly(st: Store, taskId: string, retryFromStep: Option<string>)
    ensures var next := Perform(st, MarkReady(taskId, retryFromStep));
            if taskId in st.tasks && st.tasks[taskId].status in {TaskStatus.Draft, TaskStatus.Blocked}
            then next == st.(tasks := st.tasks[
                   taskId := TaskRow(TaskStatus.Ready, None, retryFromStep, st.tasks[taskId].resumeInput)])
            else next == st
  {
  }

  /** A claimed READY task runs as WORKING without its step to retry from, or is given back as it was. */
  lemma ReadyExactly(st: Store, taskId: string)
    requires taskId in st.tasks && st.tasks[taskId].status == TaskStatus.Ready
    ensures var task := st.tasks[taskId];
            var claimed := st.(tasks := st.tasks[taskId := task.(status := TaskStatus.Working)]);
            var (started, answer) := StartTask(claimed, taskId, task);
            var next := Perform(st, ProcessReady(taskId));
            && (answer.Err? ==> next == st)
            && (answer.Ok? ==>
                  && next.executions == started.executions && next.steps == started.steps
                  && next.tasks.Keys == st.tasks.Keys
                  && (forall other :: other in st.tasks && other != taskId ==> next.tasks[other] == st.tasks[other])
                  && next.tasks[taskId].status == TaskStatus.Working
                  && next.tasks[taskId].preferredWorkflow == task.preferredWorkflow
                  && next.tasks[taskId].resumeInput == task.resumeInput
                  && next.tasks[taskId].retryFromStep in {None, Some("")})
  {
    var task := st.tasks[taskId];
    var claimed := st.(tasks := st.tasks[taskId := task.(status := TaskStatus.Working)]);
    assert claimed == SetTaskStatus(st, taskId, TaskStatus.Working);
    if StartTask(claimed, taskId, task).1.Err? {
      assert claimed.tasks[taskId := claimed.tasks[taskId].(status := TaskStatus.Ready)] == st.tasks;
    }
  }

  lemma ReadyOnlyExactly(st: Store, taskId: string)
    requires taskId !in st.tasks || st.tasks[taskId].status != TaskStatus.Ready
    ensures Perform(st, ProcessReady(taskId)) == st
  {
  }

  /** A resume request: only a paused task that has run a step, and it keeps the input. */
  lemma RequestResumeExactly(st: Store, taskId: string, resumeInput: string)
    ensures var next := Perform(st, RequestResume(taskId, resumeInput));
            if taskId in st.tasks && st.tasks[taskId].status == TaskStatus.Paused
               && exists s: nat :: s < st.nextStep && BelongsTo(st, s, taskId)
            then next == st.(tasks := st.tasks[
                   taskId := st.tasks[taskId].(status := TaskStatus.Resuming, resumeInput := Some(resumeInput))])
            else next == st
  {
  }

  /** A claimed RESUMING task resumes its latest step, or is given back as it was. */
  lemma ResumingExactly(st: Store, taskId: string)
    ensures var next := Perform(st, ProcessResuming(taskId));
            if taskId in st.tasks && st.tasks[taskId].status == TaskStatus.Resuming
               && st.tasks[taskId].resumeInput.Some? && st.tasks[taskId].resumeInput.value != ""
               && LatestStep(st, taskId).Some?
            then var claimed := st.(tasks := st.tasks[taskId := st.tasks[taskId].(status := TaskStatus.Working)]);
                 var (resumed, answer) := ResumeTask(claimed, taskId, LatestStep(st, taskId).value);
                 next == if answer.Ok? then resumed else st
            else next == st
  {
    if taskId in st.tasks && st.tasks[taskId].status == TaskStatus.Resuming && LatestStep(st, taskId).Some? {
      var task := st.tasks[taskId];
      var claimed := st.(tasks := st.tasks[taskId := task.(status := TaskStatus.Working)]);
      assert claimed == SetTaskStatus(st, taskId, TaskStatus.Working);
      assert claimed.tasks[taskId := claimed.tasks[taskId].(status := TaskStatus.Resuming)] == st.tasks;
      var (resumed, answer) := ResumeTask(claimed, taskId, LatestStep(st, taskId).value);
      if answer.Err? {
        ResumeExactly(claimed, taskId, LatestStep(st, taskId).value);
      }
    }
  }

  /** A stale running step is cancelled with its execution; its task becomes READY unless it is over. */
  lemma ResetStaleExactly(st: Store, stepId: nat)
    ensures var next := Perform(st, ResetStale(stepId));
            if stepId in st.steps && st.steps[stepId].status == StepRunning
               && st.steps[stepId].executionId in st.executions
            then
              var e := st.steps[stepId].executionId;
              var taskId := st.executions[e].taskId;
              && next.steps == st.steps[stepId := st.steps[stepId].(status := StepCancelled)]
              && next.executions == st.executions[e := st.executions[e].(status := Cancelled)]
              && (if taskId in st.tasks
                     && st.tasks[taskId].status !in {TaskStatus.Blocked, TaskStatus.Removed, TaskStatus.Done}
                  then next.tasks == st.tasks[taskId := st.tasks[taskId].(status := TaskStatus.Ready)]
                  else next.tasks == st.tasks)
            else next.executions == st.executions && next.tasks == st.tasks
  {
  }

  // ---------------------------------------------------------------------------
  // Completion is final
  // ---------------------------------------------------------------------------

  ghost predicate FinalizedStep(st: Store, stepId: nat) {
    stepId in st.steps && stepId < st.nextStep && IsFinalized(st.steps[stepId].status)
  }

  lemma AppliedKeepsSteps(st: Store, taskId: string, executionId: nat, transition: TransitionResult, stepId: nat)
    requires executionId in st.executions && stepId in st.steps && stepId < st.nextStep
    ensures var next := ApplyTransition(st, taskId, executionId, transition).0;
            stepId in next.steps && next.steps[stepId] == st.steps[stepId] && st.nextStep <= next.nextStep
  {
  }

  /** A completion that returns leaves its step finalized. */
  lemma CompletionFinalizes(st: Store, taskId: string, input: CompleteStepInput)
    requires input.stepId in st.steps ==> input.stepId < st.nextStep
    requires CompleteStep(st, taskId, input).1.Ok?
    ensures FinalizedStep(CompleteStep(st, taskId, input).0, input.stepId)
  {
    if !IsFinalized(st.steps[input.stepId].status) {
      var transition := EvaluateReport(st, input).value;
      AppliedKeepsSteps(FinalizeStep(st, input, transition), taskId, input.executionId, transition, input.stepId);
    }
  }

  /** What a completion records of its step: awaiting input exactly on a pause, which alone keeps its context. */
  lemma CompletionRecordsResult(st: Store, taskId: string, input: CompleteStepInput)
    requires input.stepId in st.steps && input.stepId < st.nextStep && !IsFinalized(st.steps[input.stepId].status)
    requires CompleteStep(st, taskId, input).1.Ok?
    ensures var (next, answer) := CompleteStep(st, taskId, input);
            var before, after := st.steps[input.stepId], next.steps[input.stepId];
            && (after.status == AwaitingInput <==> answer.value.taskStatus == TaskStatus.Paused)
            && (answer.value.taskStatus != TaskStatus.Paused ==>
                  && (after.status == StepSucceeded <==> input.result.status == Success)
                  && (after.status == StepFailed <==> input.result.status == Failure))
            && after.signal == input.result.signal
            && after.pauseContext == (if answer.value.taskStatus == TaskStatus.Paused then input.pauseContext else None)
            && after.stepId == before.stepId && after.executionId == before.executionId
            && after.iteration == before.iteration
            && (taskId in st.tasks ==>
                  next.tasks == st.tasks[taskId := st.tasks[taskId].(status := answer.value.taskStatus)])
            && (answer.value.step.Some? <==> answer.value.taskStatus == TaskStatus.Working)
  {
  }

  /** The execution of a report can be loaded, and stands at a real step. */
  ghost predicate Loadable(st: Store, input: CompleteStepInput) {
    && input.stepId in st.steps && !IsFinalized(st.steps[input.stepId].status)
    && input.executionId in st.executions
    && var execution := st.executions[input.executionId];
       && execution.workflowId in st.workflows && execution.visitedSteps != []
       && Last(execution.visitedSteps) != ""
       && Last(execution.visitedSteps) in st.workflows[execution.workflowId].steps
  }

  /** The target that a report's transition `i`, matched at preference `p`, has at the stored counter. */
  ghost predicate LeadsToTarget(st: Store, input: CompleteStepInput, p: nat, i: int, target: string)
    requires Loadable(st, input)
  {
    var execution := st.executions[input.executionId];
    var transitions := st.workflows[execution.workflowId].steps[Last(execution.visitedSteps)].transitions;
    Matches(transitions, input.result, p, i) && EffectiveTarget(transitions[i], execution.iteration) == target
  }

  ghost predicate NothingMatches(st: Store, input: CompleteStepInput)
    requires Loadable(st, input)
  {
    var execution := st.executions[input.executionId];
    var transitions := st.workflows[execution.workflowId].steps[Last(execution.visitedSteps)].transitions;
    forall p: nat, i :: !Matches(transitions, input.result, p, i)
  }

  /** The run has ended with these statuses of its task and its execution. */
  ghost predicate EndsAs(
    st: Store, taskId: string, input: CompleteStepInput, taskStatus: TaskStatus, executionStatus: ExecutionStatus)
    requires Loadable(st, input)
  {
    var (next, answer) := CompleteStep(st, taskId, input);
    && answer == Ok(Response(taskStatus, None))
    && next.executions == st.executions[input.executionId := st.executions[input.executionId].(status := executionStatus)]
    && (taskId in st.tasks ==> next.tasks == st.tasks[taskId := st.tasks[taskId].(status := taskStatus)])
  }

  lemma EvaluatedReport(st: Store, input: CompleteStepInput, p: nat, i: int)
    requires Loadable(st, input)
    ensures LeadsToTarget(st, input, p, i, "__done__") ==> EvaluateReport(st, input) == Ok(TransitionResult.Done)
    ensures LeadsToTarget(st, input, p, i, "__blocked__") ==> EvaluateReport(st, input) == Ok(TransitionResult.Blocked)
    ensures LeadsToTarget(st, input, p, i, "__paused__") ==> EvaluateReport(st, input) == Ok(TransitionResult.Paused)
    ensures NothingMatches(st, input) ==> EvaluateReport(st, input) == Ok(TransitionResult.Blocked)
  {
    var execution := st.executions[input.executionId];
    EvaluatedExactly(st.workflows[execution.workflowId], Last(execution.visitedSteps), input.result,
                     IterationContext(execution.iteration, execution.visitedSteps), p, i);
  }

  lemma EndedReport(st: Store, taskId: string, input: CompleteStepInput)
    requires Loadable(st, input) && EvaluateReport(st, input).Ok?
    ensures var transition := EvaluateReport(st, input).value;
            && (transition == TransitionResult.Done ==> EndsAs(st, taskId, input, TaskStatus.Done, Completed))
            && (transition == TransitionResult.Blocked ==> EndsAs(st, taskId, input, TaskStatus.Blocked, Failed))
            && (transition == TransitionResult.Paused ==>
                  EndsAs(st, taskId, input, TaskStatus.Paused, st.executions[input.executionId].status))
  {
    var execution := st.executions[input.executionId];
    assert st.executions[input.executionId := execution.(status := execution.status)] == st.executions;
  }

  /**
   A report whose target is `__done__` finishes task and execution, `__blocked__` fails them, and
   `__paused__` pauses the task in a running execution; without a matching transition they fail.
   */
  lemma CompletionEndsAsNamed(st: Store, taskId: string, input: CompleteStepInput, p: nat, i: int)
    requires Loadable(st, input)
    ensures LeadsToTarget(st, input, p, i, "__done__") ==> EndsAs(st, taskId, input, TaskStatus.Done, Completed)
    ensures LeadsToTarget(st, input, p, i, "__blocked__") ==> EndsAs(st, taskId, input, TaskStatus.Blocked, Failed)
    ensures LeadsToTarget(st, input, p, i, "__paused__") ==>
              EndsAs(st, taskId, input, TaskStatus.Paused, st.executions[input.executionId].status)
    ensures NothingMatches(st, input) ==> EndsAs(st, taskId, input, TaskStatus.Blocked, Failed)
  {
    EvaluatedReport(st, input, p, i);
    if EvaluateReport(st, input).Ok? {
      EndedReport(st, taskId, input);
    }
  }

  /**
   A start takes the workflow that the task prefers, or the default one if it prefers none, and fails if
   that does not exist. The execution it creates carries that workflow's name, and the step it answers
   with is the created row: the initial step, or the one to retry from.
   */
  lemma StartTakesNamedWorkflow(st: Store, taskId: string, task: TaskRow)
    ensures var name := if task.preferredWorkflow.Some? then task.preferredWorkflow.value else st.defaultWorkflow;
            var (next, answer) := StartTask(st, taskId, task);
            && (name !in st.workflows ==> answer == Err(WorkflowNotFound(name)) && next == st)
            && (name in st.workflows && task.retryFromStep.Some? && task.retryFromStep.value != ""
                && task.retryFromStep.value !in st.workflows[name].steps ==>
                  answer == Err(RetryStepNotFound(task.retryFromStep.value)))
            && (name in st.workflows && (task.retryFromStep.None? || task.retryFromStep.value == "")
                && st.workflows[name].initialStep !in st.workflows[name].steps ==>
                  answer == Err(EngineFailure(InitialStepNotFound(st.workflows[name].initialStep))))
            && (answer.Err? ==> next == st)
            && (answer.Ok? ==>
                  && name in st.workflows
                  && var def := st.workflows[name];
                     var retry := task.retryFromStep.Some? && task.retryFromStep.value != "";
                     var key := if retry then task.retryFromStep.value else def.initialStep;
                     && key in def.steps
                     && answer.value == Response(TaskStatus.Working, Some(st.nextStep))
                     && next.nextExecution == st.nextExecution + 1 && next.nextStep == st.nextStep + 1
                     && st.nextExecution in next.executions && st.nextStep in next.steps
                     && next.executions == st.executions[st.nextExecution := next.executions[st.nextExecution]]
                     && next.steps == st.steps[st.nextStep := StepExecution(
                          st.nextExecution, def.steps[key].id, StepRunning, None, None,
                          next.executions[st.nextExecution].iteration)]
                     && next.tasks == st.tasks
                     && next.executions[st.nextExecution].taskId == taskId
                     && next.executions[st.nextExecution].workflowId == def.name
                     && next.executions[st.nextExecution].status == Active
                     && (!retry ==> next.executions[st.nextExecution].visitedSteps == [def.steps[key].id]
                                    && next.executions[st.nextExecution].iteration == 0))
  {
  }

  /** A retry keeps the latest execution's history up to its step, and its counter; without one it starts anew. */
  lemma RetryKeepsHistory(st: Store, taskId: string, def: WorkflowDefinition, retryFromStep: string)
    requires retryFromStep in def.steps
    ensures var start := ResolveRetryStep(st, taskId, def, retryFromStep);
            && start.Ok? && start.value.step == def.steps[retryFromStep]
            && var visited := start.value.visitedSteps;
               && visited != [] && Last(visited) == retryFromStep && retryFromStep !in visited[..|visited| - 1]
               && (LatestExecution(st, taskId).None? ==> visited == [retryFromStep] && start.value.iteration == 0)
               && (LatestExecution(st, taskId).Some? ==>
                     var latest := st.executions[LatestExecution(st, taskId).value];
                     && start.value.iteration == latest.iteration
                     && (retryFromStep in latest.visitedSteps ==> visited <= latest.visitedSteps)
                     && (retryFromStep !in latest.visitedSteps ==> visited[..|visited| - 1] == latest.visitedSteps))
  {
    if LatestExecution(st, taskId).Some? {
      var previous := st.executions[LatestExecution(st, taskId).value].visitedSteps;
      match IndexOf(previous, retryFromStep)
      case Some(i) => assert previous[..i + 1][..i] == previous[..i];
      case None => assert (previous + [retryFromStep])[..|previous|] == previous;
    }
  }

  /** What a call cannot load: its execution, that one's workflow, or a current step. */
  ghost function LoadError(st: Store, executionId: nat): Option<ServiceError> {
    if executionId !in st.executions then Some(ExecutionNotFound(executionId))
    else if st.executions[executionId].workflowId !in st.workflows then
      Some(WorkflowNotFound(st.executions[executionId].workflowId))
    else if st.executions[executionId].visitedSteps == [] || Last(st.executions[executionId].visitedSteps) == "" then
      Some(NoCurrentStep(executionId))
    else None
  }

  /** A report fails, and changes nothing, for a missing step, an execution that cannot be loaded, or an unknown step. */
  lemma CompletionErrors(st: Store, taskId: string, input: CompleteStepInput)
    ensures var (next, answer) := CompleteStep(st, taskId, input);
            && (answer.Err? ==> next == st)
            && (input.stepId !in st.steps ==> answer == Err(StepExecutionNotFound(input.stepId)))
            && (input.stepId in st.steps
                && st.steps[input.stepId].status in {StepSucceeded, StepFailed, AwaitingInput} ==>
                  answer == Ok(Response(StatusNow(st, taskId), None)) && next == st)
            && (input.stepId in st.steps
                && st.steps[input.stepId].status !in {StepSucceeded, StepFailed, AwaitingInput} ==>
                  var failure := LoadError(st, input.executionId);
                  && (failure.Some? ==> answer == Err(failure.value))
                  && (failure.None? ==>
                        var execution := st.executions[input.executionId];
                        var current := Last(execution.visitedSteps);
                        current !in st.workflows[execution.workflowId].steps ==>
                          answer == Err(EngineFailure(StepNotFound(current)))))
  {
  }

  /** A resume fails, and changes nothing, for a missing step, one that does not await input, and as above. */
  lemma ResumeErrors(st: Store, taskId: string, stepId: nat)
    ensures var (next, answer) := ResumeTask(st, taskId, stepId);
            && (answer.Err? ==> next == st)
            && (stepId !in st.steps ==> answer == Err(StepExecutionNotFound(stepId)))
            && (stepId in st.steps && st.steps[stepId].status != AwaitingInput ==>
                  answer == Err(StepNotAwaitingInput(stepId)))
            && (stepId in st.steps && st.steps[stepId].status == AwaitingInput ==>
                  var failure := LoadError(st, st.steps[stepId].executionId);
                  && (failure.Some? ==> answer == Err(failure.value))
                  && (failure.None? ==>
                        var execution := st.executions[st.steps[stepId].executionId];
                        var current := Last(execution.visitedSteps);
                        current !in st.workflows[execution.workflowId].steps ==>
                          answer == Err(CurrentStepNotFound(current))))
  {
  }

  /** A move answers with the row it creates: the step that the execution now stands at, with its counter. */
  lemma MoveCreatesStep(st: Store, taskId: string, input: CompleteStepInput)
    requires Loadable(st, input) && input.stepId < st.nextStep
    requires EvaluateReport(st, input).Ok? && EvaluateReport(st, input).value.Goto?
    ensures var (next, answer) := CompleteStep(st, taskId, input);
            && answer == Ok(Response(TaskStatus.Working, Some(st.nextStep)))
            && input.executionId in next.executions
            && var execution := next.executions[input.executionId];
               var def := st.workflows[execution.workflowId];
               && execution.workflowId == st.executions[input.executionId].workflowId
               && execution.status == st.executions[input.executionId].status
               && execution.visitedSteps != [] && Last(execution.visitedSteps) in def.steps
               && next.steps.Keys == st.steps.Keys + {st.nextStep} && next.nextStep == st.nextStep + 1
               && next.steps[st.nextStep]
                  == StepExecution(input.executionId, def.steps[Last(execution.visitedSteps)].id, StepRunning, None, None,
                                   execution.iteration)
  {
    var execution := st.executions[input.executionId];
    ReportMoves(st, input);
  }

  lemma ReportMoves(st: Store, input: CompleteStepInput)
    requires Loadable(st, input) && EvaluateReport(st, input).Ok? && EvaluateReport(st, input).value.Goto?
    ensures var transition := EvaluateReport(st, input).value;
            var def := st.workflows[st.executions[input.executionId].workflowId];
            transition.stepId in def.steps && transition.step == def.steps[transition.stepId]
  {
  }

  /**
   A resume succeeds exactly for a step that awaits input in an execution that stands at a real step.
   It runs that step in a new row, with the stored counter, and consumes the task's input.
   */
  lemma ResumeExactly(st: Store, taskId: string, stepId: nat)
    ensures var (next, answer) := ResumeTask(st, taskId, stepId);
            && (answer.Ok?
                <==> && stepId in st.steps && st.steps[stepId].status == AwaitingInput
                     && st.steps[stepId].executionId in st.executions
                     && var execution := st.executions[st.steps[stepId].executionId];
                        && execution.workflowId in st.workflows
                        && execution.visitedSteps != [] && Last(execution.visitedSteps) != ""
                        && Last(execution.visitedSteps) in st.workflows[execution.workflowId].steps)
            && (answer.Err? ==> next == st)
            && (answer.Ok? ==>
                  var e := st.steps[stepId].executionId;
                  var execution := st.executions[e];
                  var step := st.workflows[execution.workflowId].steps[Last(execution.visitedSteps)];
                  && answer.value == Response(TaskStatus.Working, Some(st.nextStep))
                  && next.executions == st.executions
                  && next.steps
                     == st.steps[st.nextStep := StepExecution(e, step.id, StepRunning, None, None, execution.iteration)]
                  && (taskId in st.tasks ==>
                        next.tasks == st.tasks[taskId := st.tasks[taskId].(status := TaskStatus.Working, resumeInput := None)]))
  {
  }

  ghost predicate KeepsStep(before: Store, after: Store, stepId: nat) {
    FinalizedStep(before, stepId) ==>
      FinalizedStep(after, stepId) && after.steps[stepId] == before.steps[stepId]
  }

  lemma StartKeepsStep(st: Store, taskId: string, task: TaskRow, stepId: nat)
    ensures KeepsStep(st, StartTask(st, taskId, task).0, stepId)
  {
  }

  lemma CompletionKeepsStep(st: Store, taskId: string, input: CompleteStepInput, stepId: nat)
    ensures KeepsStep(st, CompleteStep(st, taskId, input).0, stepId)
  {
    if FinalizedStep(st, stepId) && input.stepId in st.steps && !IsFinalized(st.steps[input.stepId].status)
       && EvaluateReport(st, input).Ok? {
      var transition := EvaluateReport(st, input).value;
      AppliedKeepsSteps(FinalizeStep(st, input, transition), taskId, input.executionId, transition, stepId);
    }
  }

  lemma ResumeKeepsStep(st: Store, taskId: string, resumed: nat, stepId: nat)
    ensures KeepsStep(st, ResumeTask(st, taskId, resumed).0, stepId)
  {
  }

  lemma ReadyKeepsStep(st: Store, taskId: string, stepId: nat)
    ensures KeepsStep(st, PerformReady(st, taskId), stepId)
  {
    if taskId in st.tasks {
      StartKeepsStep(SetTaskStatus(st, taskId, TaskStatus.Working), taskId, st.tasks[taskId], stepId);
    }
  }

  lemma ResumingKeepsStep(st: Store, taskId: string, stepId: nat)
    ensures KeepsStep(st, PerformResuming(st, taskId), stepId)
  {
    var latest := LatestStep(st, taskId);
    if latest.Some? {
      ResumeKeepsStep(SetTaskStatus(st, taskId, TaskStatus.Working), taskId, latest.value, stepId);
    }
  }

  /** No action of any kind rewrites a finalized step. */
  lemma FinalizedStepIsKept(st: Store, action: Action, stepId: nat)
    ensures KeepsStep(st, Perform(st, action), stepId)
  {
    match action
    case MarkReady(_, _) =>
    case ProcessReady(taskId) => ReadyKeepsStep(st, taskId, stepId);
    case ReportStep(taskId, input) => CompletionKeepsStep(st, taskId, input, stepId);
    case RequestResume(_, _) =>
    case ProcessResuming(taskId) => ResumingKeepsStep(st, taskId, stepId);
    case ResetStale(_) =>
  }

  /** The task's status, or WORKING if there is no such task. */
  ghost function StatusNow(st: Store, taskId: string): (status: TaskStatus)
    ensures taskId in st.tasks ==> status == st.tasks[taskId].status
    ensures taskId !in st.tasks ==> status == TaskStatus.Working
  {
    if taskId in st.tasks then st.tasks[taskId].status else TaskStatus.Working
  }

  /**
   Completing a finalized step again, after any further actions, with any ids and any result,
   changes nothing and reports the task's current status.
   */
  lemma {:induction false} CompletionIsFinal(st: Store, actions: seq<Action>, taskId: string, input: CompleteStepInput)
    requires FinalizedStep(st, input.stepId)
    ensures var later := PerformAll(st, actions);
            && CompleteStep(later, taskId, input) == (later, Ok(Response(StatusNow(later, taskId), None)))
            && later.steps[input.stepId] == st.steps[input.stepId]
    decreases |actions|
  {
    if actions != [] {
      FinalizedStepIsKept(st, actions[0], input.stepId);
      CompletionIsFinal(Perform(st, actions[0]), actions[1..], taskId, input);
    }
  }

  /** After any completion that returns, and any further actions, its step cannot be completed again. */
  lemma StepCompletesOnce(
    st: Store, taskId: string, input: CompleteStepInput, actions: seq<Action>, again: CompleteStepInput)
    requires input.stepId in st.steps ==> input.stepId < st.nextStep
    requires CompleteStep(st, taskId, input).1.Ok? && again.stepId == input.stepId
    ensures var completed := CompleteStep(st, taskId, input).0;
            var later := PerformAll(completed, actions);
            && CompleteStep(later, taskId, again) == (later, Ok(Response(StatusNow(later, taskId), None)))
            && later.steps[input.stepId] == completed.steps[input.stepId]
  {
    CompletionFinalizes(st, taskId, input);
    CompletionIsFinal(CompleteStep(st, taskId, input).0, actions, taskId, again);
  }
}
