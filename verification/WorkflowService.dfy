/**
 The workflow service as it runs: methods that update execution, step and task rows one after the
 other. Each is tied to the function of `WorkflowStore` with its name.
 */
module WorkflowService {
  import opened Collections
  import opened WorkflowEngine
  import opened WorkflowRuns
  import opened TaskModel
  import opened WorkflowStore
  import opened ExecutionInvariant

  class LocalWorkflowService {
    const workflows: map<string, WorkflowDefinition>
    const defaultWorkflow: string
    var executions: map<nat, Execution>
    var steps: map<nat, StepExecution>
    var tasks: map<string, TaskRow>
    var nextExecution: nat
    var nextStep: nat

    constructor (workflows: map<string, WorkflowDefinition>, defaultWorkflow: string, tasks: map<string, TaskRow>)
      ensures State() == Store(workflows, defaultWorkflow, map[], map[], tasks, 0, 0)
    {
      this.workflows, this.defaultWorkflow := workflows, defaultWorkflow;
      executions, steps, this.tasks := map[], map[], tasks;
      nextExecution, nextStep := 0, 0;
    }

    function State(): Store
      reads this
    {
      Store(workflows, defaultWorkflow, executions, steps, tasks, nextExecution, nextStep)
    }

    method UpdateTaskStatus(taskId: string, status: TaskStatus)
      modifies this`tasks
      ensures State() == SetTaskStatus(old(State()), taskId, status)
    {
      if taskId in tasks {
        tasks := tasks[taskId := tasks[taskId].(status := status)];
      }
    }

    method InsertRunningStep(executionId: nat, step: WorkflowStep, iteration: nat) returns (stepId: nat)
      modifies this`steps, this`nextStep
      ensures State() == CreateRunningStep(old(State()), executionId, step, iteration)
      ensures stepId == old(nextStep)
    {
      stepId := nextStep;
      nextStep := nextStep + 1;
      steps := steps[stepId := StepExecution(executionId, step.id, StepRunning, None, None, iteration)];
    }

    /** Newest first: the row with the largest id of this task. */
    method FindLatestExecution(taskId: string) returns (latest: Option<nat>)
      ensures latest == LatestExecution(State(), taskId)
    {
      var bound: nat := nextExecution;
      while bound > 0
        invariant bound <= nextExecution
        invariant LatestExecution(State(), taskId) == LatestExecutionBelow(State(), taskId, bound)
      {
        bound := bound - 1;
        if bound in executions && executions[bound].taskId == taskId {
          return Some(bound);
        }
      }
      return None;
    }

    method FindRetryStep(taskId: string, def: WorkflowDefinition, retryFromStep: string)
        returns (start: Result<StartPoint, ServiceError>)
      ensures start == ResolveRetryStep(State(), taskId, def, retryFromStep)
    {
      if retryFromStep !in def.steps {
        return Err(RetryStepNotFound(retryFromStep));
      }
      var latest := FindLatestExecution(taskId);
      if latest.None? {
        return Ok(StartPoint(def.steps[retryFromStep], [retryFromStep], 0));
      }
      var previous := executions[latest.value].visitedSteps;
      var index := IndexOf(previous, retryFromStep);
      var visited := if index.Some? then previous[..index.value + 1] else previous + [retryFromStep];
      return Ok(StartPoint(def.steps[retryFromStep], visited, executions[latest.value].iteration));
    }

    method StartTask(taskId: string, task: TaskRow) returns (answer: Result<Response, ServiceError>)
      modifies this`executions, this`steps, this`nextExecution, this`nextStep
      ensures (State(), answer) == WorkflowStore.StartTask(old(State()), taskId, task)
    {
      var name := task.preferredWorkflow.GetOr(defaultWorkflow);
      if name !in workflows {
        return Err(WorkflowNotFound(name));
      }
      var def := workflows[name];
      var start: StartPoint;
      if Truthy(task.retryFromStep) {
        var retried := FindRetryStep(taskId, def, task.retryFromStep.value);
        if retried.Err? {
          return Err(retried.error);
        }
        start := retried.value;
      } else {
        var initial := GetInitialStep(def);
        if initial.Err? {
          return Err(EngineFailure(initial.error));
        }
        start := StartPoint(initial.value, [initial.value.id], 0);
      }
      var executionId := nextExecution;
      nextExecution := nextExecution + 1;
      executions := executions[
        executionId := Execution(taskId, def.name, Active, start.visitedSteps, start.iteration)];
      var stepId := InsertRunningStep(executionId, start.step, start.iteration);
      return Ok(Response(TaskStatus.Working, Some(stepId)));
    }

    method Continue(taskId: string, executionId: nat, transition: TransitionResult) returns (response: Response)
      requires transition.Goto? && executionId in executions
      modifies this`executions, this`steps, this`tasks, this`nextStep
      ensures State() == ContinueWorkflow(old(State()), taskId, executionId, transition)
      ensures response == Response(TaskStatus.Working, Some(old(nextStep)))
    {
      var execution := executions[executionId];
      var nextVisited := BuildVisitedSteps(execution.visitedSteps, transition.stepId);
      var nextIteration := execution.iteration + if transition.shouldIncrementIteration then 1 else 0;
      executions := executions[
        executionId := execution.(visitedSteps := nextVisited, iteration := nextIteration)];
      var stepId := InsertRunningStep(executionId, transition.step, nextIteration);
      UpdateTaskStatus(taskId, TaskStatus.Working);
      return Response(TaskStatus.Working, Some(stepId));
    }

    method HandleTransition(taskId: string, executionId: nat, transition: TransitionResult)
        returns (response: Response)
      requires executionId in executions
      modifies this`executions, this`steps, this`tasks, this`nextStep
      ensures (State(), response) == ApplyTransition(old(State()), taskId, executionId, transition)
    {
      match transition
      case Done =>
        executions := executions[executionId := executions[executionId].(status := Completed)];
        UpdateTaskStatus(taskId, TaskStatus.Done);
        return Response(TaskStatus.Done, None);
      case Paused =>
        UpdateTaskStatus(taskId, TaskStatus.Paused);
        return Response(TaskStatus.Paused, None);
      case Blocked =>
        executions := executions[executionId := executions[executionId].(status := Failed)];
        UpdateTaskStatus(taskId, TaskStatus.Blocked);
        return Response(TaskStatus.Blocked, None);
      case Goto(_, _, _) =>
        response := Continue(taskId, executionId, transition);
    }

    method CompleteStep(taskId: string, input: CompleteStepInput) returns (answer: Result<Response, ServiceError>)
      modifies this`executions, this`steps, this`tasks, this`nextStep
      ensures (State(), answer) == WorkflowStore.CompleteStep(old(State()), taskId, input)
      ensures old(Invariant(State())) && Allowed(old(State()), ReportStep(taskId, input)) ==> Invariant(State())
    {
      ghost var before := State();
      if Invariant(before) && Allowed(before, ReportStep(taskId, input)) {
        ReportKeepsInvariant(before, taskId, input);
      }
      if input.stepId !in steps {
        return Err(StepExecutionNotFound(input.stepId));
      }
      if IsFinalized(steps[input.stepId].status) {
        return Ok(ExistingTaskStatus(State(), taskId));
      }
      var loaded := LoadExecutionContext(State(), input.executionId);
      if loaded.Err? {
        return Err(loaded.error);
      }
      var ctx := loaded.value;
      var evaluated := EvaluateTransition(ctx.def, ctx.currentStepId, input.result,
                                          IterationContext(ctx.execution.iteration, ctx.execution.visitedSteps));
      if evaluated.Err? {
        return Err(EngineFailure(evaluated.error));
      }
      var transition := evaluated.value;
      var paused := transition.Paused?;
      steps := steps[input.stepId := steps[input.stepId].(
        status := if paused then AwaitingInput else StatusOf(input.result.status),
        signal := input.result.signal,
        pauseContext := if paused then input.pauseContext else None)];
      var response := HandleTransition(taskId, input.executionId, transition);
      return Ok(response);
    }

    method ResumeTask(taskId: string, stepId: nat) returns (answer: Result<Response, ServiceError>)
      modifies this`steps, this`tasks, this`nextStep
      ensures (State(), answer) == WorkflowStore.ResumeTask(old(State()), taskId, stepId)
    {
      if stepId !in steps {
        return Err(StepExecutionNotFound(stepId));
      }
      if steps[stepId].status != AwaitingInput {
        return Err(StepNotAwaitingInput(stepId));
      }
      var executionId := steps[stepId].executionId;
      var loaded := LoadExecutionContext(State(), executionId);
      if loaded.Err? {
        return Err(loaded.error);
      }
      var ctx := loaded.value;
      if ctx.currentStepId !in ctx.def.steps {
        return Err(CurrentStepNotFound(ctx.currentStepId));
      }
      var resumed := InsertRunningStep(executionId, ctx.def.steps[ctx.currentStepId], ctx.execution.iteration);
      if taskId in tasks {
        tasks := tasks[taskId := tasks[taskId].(status := TaskStatus.Working, resumeInput := None)];
      }
      return Ok(Response(TaskStatus.Working, Some(resumed)));
    }
  }
}
